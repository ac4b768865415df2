/** Line preparation and tokenising in the witsshell command interpreter (Shell.c).
    prep_line puts a space on both sides of every '>' and '&', writing into a 1024-character
    buffer. strsep then cuts the line into commands at '&', and each command into the tokens
    of argv at ' '. */
module ShellLine {
  import opened Optional
  import opened Text

  /** The size of prep_line's temp buffer (terminating NUL included) and of argv. */
  const TempSize := 1024
  const MaxTokens := 50

  /** The characters prep_line puts spaces around. */
  predicate IsOp(c: char) {
    c == '>' || c == '&'
  }

  /** What prep_line appends to its output t for the input character c. An operator gets a
      space before it unless it comes first or follows a space, and a space after it unless
      the next input character is a space. */
  function Emit(t: string, c: char, nextSpace: bool): (r: string)
    ensures |t| + 1 <= |r| <= |t| + 3 && r[..|t|] == t
  {
    if IsOp(c) then
      (if |t| > 0 && t[|t| - 1] != ' ' then t + [' '] else t) + [c] + (if nextSpace then [] else [' '])
    else t + [c]
  }

  /** The first i characters of line after prep_line's loop; the NUL after the last
      character is not a space. */
  function PrepUpTo(line: string, i: nat): string
    requires i <= |line|
    decreases i
  {
    if i == 0 then [] else Emit(PrepUpTo(line, i - 1), line[i - 1], i < |line| && line[i] == ' ')
  }

  /** What prep_line leaves in the line. */
  function Prep(line: string): string {
    PrepUpTo(line, |line|)
  }

  /** Each input character adds one to three characters of output. */
  lemma {:induction false} PrepUpToLength(line: string, i: nat)
    requires i <= |line|
    ensures i <= |PrepUpTo(line, i)| <= 3 * i
    decreases i
  {
    if i > 0 {
      PrepUpToLength(line, i - 1);
    }
  }

  /** Output written so far never shrinks. */
  lemma {:induction false} PrepGrows(line: string, i: nat, k: nat)
    requires i <= k <= |line|
    ensures |PrepUpTo(line, i)| <= |PrepUpTo(line, k)|
    decreases k - i
  {
    if i < k {
      PrepGrows(line, i + 1, k);
    }
  }

  /** prep_line's output is at least as long as its input and at most three times as long; an
      input of fewer than 342 characters always fits the buffer with its NUL. */
  lemma PrepLength(line: string)
    ensures |line| <= |Prep(line)| <= 3 * |line|
    ensures 3 * |line| < TempSize ==> |Prep(line)| < TempSize
  {
    PrepUpToLength(line, |line|);
  }

  /** a[j++] = x. */
  method Put<T>(a: array<T>, j: int, x: T) returns (j': int)
    requires 0 <= j < a.Length
    modifies a
    ensures j' == j + 1 && a[..j'] == old(a[..j]) + [x]
  {
    a[j] := x;
    j' := j + 1;
  }

  /** One turn of prep_line's loop: the characters Emit adds for c, written at temp[j..]. */
  method EmitInto(temp: array<char>, j: int, c: char, next: char) returns (j': int)
    requires 0 <= j <= temp.Length && |Emit(temp[..j], c, next == ' ')| < temp.Length
    modifies temp
    ensures j' == |Emit(old(temp[..j]), c, next == ' ')| && temp[..j'] == Emit(old(temp[..j]), c, next == ' ')
  {
    if c == '>' || c == '&' {
      if j > 0 && temp[j - 1] != ' ' {
        j' := Put(temp, j, ' ');
      } else {
        j' := j;
      }
      j' := Put(temp, j', c);
      if next != ' ' {
        j' := Put(temp, j', ' ');
      }
    } else {
      j' := Put(temp, j, c);
    }
  }

  /** prep_line: the for loop writes temp[j++] character by character; the final strcpy
      back into line is the returned string. */
  method PrepLine(line: string) returns (out: string)
    requires '\0' !in line
    requires |Prep(line)| < TempSize
    ensures out == Prep(line)
  {
    var temp := new char[TempSize](_ => '\0');
    var j := 0;
    var i := 0;
    while i < |line|
      invariant 0 <= i <= |line| && 0 <= j < TempSize && temp[..j] == PrepUpTo(line, i)
    {
      PrepGrows(line, i + 1, |line|);
      var next := if i + 1 < |line| then line[i + 1] else '\0';
      j := EmitInto(temp, j, line[i], next);
      i := i + 1;
    }
    out := temp[..j];
    temp[j] := '\0';
  }

  /** Every operator in t but a last one is followed by a space. */
  ghost predicate FollowedButLast(t: string) {
    forall k :: 0 <= k < |t| - 1 && IsOp(t[k]) ==> t[k + 1] == ' '
  }

  /** t ends in an operator. */
  predicate EndsInOp(t: string) {
    |t| > 0 && IsOp(t[|t| - 1])
  }

  /** Emit keeps operators followed by spaces; an operator it leaves last was told that a space
      comes next. */
  lemma EmitFollowed(t: string, c: char, nextSpace: bool)
    requires FollowedButLast(t) && (EndsInOp(t) ==> c == ' ')
    ensures FollowedButLast(Emit(t, c, nextSpace))
    ensures EndsInOp(Emit(t, c, nextSpace)) ==> nextSpace
  {
    var r := Emit(t, c, nextSpace);
    forall k | 0 <= k < |r| - 1 && IsOp(r[k]) ensures r[k + 1] == ' ' {
      if k < |t| {
        assert r[k] == t[k];
        if k < |t| - 1 {
          assert r[k + 1] == t[k + 1];
        }
      }
    }
  }

  lemma {:induction false} PrepUpToFollowed(line: string, i: nat)
    requires i <= |line|
    ensures FollowedButLast(PrepUpTo(line, i))
    ensures EndsInOp(PrepUpTo(line, i)) ==> i < |line| && line[i] == ' '
    decreases i
  {
    if i > 0 {
      PrepUpToFollowed(line, i - 1);
      EmitFollowed(PrepUpTo(line, i - 1), line[i - 1], i < |line| && line[i] == ' ');
    }
  }

  /** In prep_line's output every '>' and '&' is immediately followed by a space. */
  lemma PrepFollowed(line: string)
    ensures forall k :: 0 <= k < |Prep(line)| && IsOp(Prep(line)[k]) ==>
      k + 1 < |Prep(line)| && Prep(line)[k + 1] == ' '
  {
    PrepUpToFollowed(line, |line|);
  }

  ghost predicate Preceded(t: string) {
    forall k :: 0 < k < |t| && IsOp(t[k]) ==> t[k - 1] == ' '
  }

  /** Emit keeps operators preceded by spaces. */
  lemma EmitPreceded(t: string, c: char, nextSpace: bool)
    requires Preceded(t)
    ensures Preceded(Emit(t, c, nextSpace))
  {
    var r := Emit(t, c, nextSpace);
    forall k | 0 < k < |r| && IsOp(r[k]) ensures r[k - 1] == ' ' {
      if k < |t| {
        assert r[k] == t[k] && r[k - 1] == t[k - 1];
      }
    }
  }

  lemma {:induction false} PrepUpToPreceded(line: string, i: nat)
    requires i <= |line|
    ensures Preceded(PrepUpTo(line, i))
    decreases i
  {
    if i > 0 {
      PrepUpToPreceded(line, i - 1);
      EmitPreceded(PrepUpTo(line, i - 1), line[i - 1], i < |line| && line[i] == ' ');
    }
  }

  /** In prep_line's output every '>' and '&' past the first position is immediately
      preceded by a space. */
  lemma PrepPreceded(line: string)
    ensures forall k :: 0 < k < |Prep(line)| && IsOp(Prep(line)[k]) ==> Prep(line)[k - 1] == ' '
  {
    PrepUpToPreceded(line, |line|);
  }

  /** s with every space deleted. */
  function Unspaced(s: string): string
    decreases |s|
  {
    if s == [] then []
    else Unspaced(s[..|s| - 1]) + (if s[|s| - 1] == ' ' then [] else [s[|s| - 1]])
  }

  lemma {:induction false} UnspacedAppend(a: string, b: string)
    ensures Unspaced(a + b) == Unspaced(a) + Unspaced(b)
    decreases |b|
  {
    if b != [] {
      var b' := b[..|b| - 1];
      assert (a + b)[..|a + b| - 1] == a + b';
      UnspacedAppend(a, b');
    } else {
      assert a + b == a;
    }
  }

  /** One more character. */
  lemma UnspacedSnoc(s: string, x: char)
    ensures Unspaced(s + [x]) == Unspaced(s) + (if x == ' ' then [] else [x])
  {
    assert (s + [x])[..|s|] == s;
  }

  /** Emit only adds spaces around c. */
  lemma EmitUnspaced(t: string, c: char, nextSpace: bool)
    ensures Unspaced(Emit(t, c, nextSpace)) == Unspaced(t) + (if c == ' ' then [] else [c])
  {
    if IsOp(c) {
      var before := if |t| > 0 && t[|t| - 1] != ' ' then t + [' '] else t;
      UnspacedSnoc(t, ' ');
      assert Unspaced(before) == Unspaced(t);
      UnspacedSnoc(before, c);
      if nextSpace {
        assert Emit(t, c, nextSpace) == before + [c];
      } else {
        assert Emit(t, c, nextSpace) == before + [c] + [' '];
        UnspacedSnoc(before + [c], ' ');
      }
    } else {
      UnspacedSnoc(t, c);
    }
  }

  lemma {:induction false} PrepUpToUnspaced(line: string, i: nat)
    requires i <= |line|
    ensures Unspaced(PrepUpTo(line, i)) == Unspaced(line[..i])
    decreases i
  {
    if i > 0 {
      PrepUpToUnspaced(line, i - 1);
      var c := line[i - 1];
      assert line[..i] == line[..i - 1] + [c];
      UnspacedSnoc(line[..i - 1], c);
      EmitUnspaced(PrepUpTo(line, i - 1), c, i < |line| && line[i] == ' ');
    }
  }

  /** Deleting the spaces from prep_line's output gives the input with its spaces deleted:
      prep_line only inserts spaces. */
  lemma PrepUnspaced(line: string)
    ensures Unspaced(Prep(line)) == Unspaced(line)
  {
    PrepUpToUnspaced(line, |line|);
    assert line[..|line|] == line;
  }

  lemma {:induction false} PrepUpToPlain(line: string, i: nat)
    requires i <= |line| && forall k :: 0 <= k < |line| ==> !IsOp(line[k])
    ensures PrepUpTo(line, i) == line[..i]
    decreases i
  {
    if i > 0 {
      PrepUpToPlain(line, i - 1);
      assert line[..i] == line[..i - 1] + [line[i - 1]];
    }
  }

  /** A line without '>' or '&' comes back unchanged. */
  lemma PrepPlain(line: string)
    requires forall k :: 0 <= k < |line| ==> !IsOp(line[k])
    ensures Prep(line) == line
  {
    PrepUpToPlain(line, |line|);
    assert line[..|line|] == line;
  }

  /** The non-empty pieces, in order: the pieces the parsing loops skip are the empty ones. */
  function NonEmpty(ps: seq<string>): (r: seq<string>)
    ensures |r| <= |ps|
    ensures forall k :: 0 <= k < |r| ==> r[k] != []
    decreases |ps|
  {
    if ps == [] then []
    else (if ps[0] == [] then [] else [ps[0]]) + NonEmpty(ps[1..])
  }

  /** The commands of a line, and the tokens of a command. */
  function Segments(line: string): seq<string> {
    NonEmpty(Pieces(line, '&'))
  }

  function Tokens(command: string): seq<string> {
    NonEmpty(Pieces(command, ' '))
  }

  /** The concatenation of a list of strings. */
  function Concat(ps: seq<string>): string
    decreases |ps|
  {
    if ps == [] then [] else ps[0] + Concat(ps[1..])
  }

  lemma ConcatCons(x: string, rest: seq<string>)
    ensures Concat([x] + rest) == x + Concat(rest)
  {
    assert ([x] + rest)[1..] == rest;
  }

  lemma UnspacedJoinHead(ps: seq<string>)
    requires |ps| >= 2 && ' ' !in ps[0]
    ensures Unspaced(Join(ps, ' ')) == ps[0] + Unspaced(Join(ps[1..], ' '))
  {
    var x, joined := ps[0], Join(ps[1..], ' ');
    assert Join(ps, ' ') == (x + [' ']) + joined;
    UnspacedAppend(x + [' '], joined);
    UnspacedSnoc(x, ' ');
    UnspacedFree(x);
  }

  lemma ConcatNonEmpty(ps: seq<string>)
    requires |ps| >= 1
    ensures Concat(NonEmpty(ps)) == ps[0] + Concat(NonEmpty(ps[1..]))
  {
    var x, rest := ps[0], NonEmpty(ps[1..]);
    if x != [] {
      assert NonEmpty(ps) == [x] + rest;
      ConcatCons(x, rest);
    } else {
      assert NonEmpty(ps) == rest;
    }
  }

  lemma {:induction false} UnspacedJoin(ps: seq<string>)
    requires forall k :: 0 <= k < |ps| ==> ' ' !in ps[k]
    ensures Unspaced(Join(ps, ' ')) == Concat(NonEmpty(ps))
    decreases |ps|
  {
    if |ps| == 1 {
      UnspacedFree(ps[0]);
      assert NonEmpty(ps[1..]) == [];
      if ps[0] != [] {
        ConcatCons(ps[0], []);
      }
    } else if |ps| > 1 {
      UnspacedJoin(ps[1..]);
      UnspacedJoinHead(ps);
      ConcatNonEmpty(ps);
    }
  }

  /** The pieces kept are among the pieces. */
  lemma {:induction false} NonEmptyFree(ps: seq<string>, d: char)
    requires forall k :: 0 <= k < |ps| ==> d !in ps[k]
    ensures forall k :: 0 <= k < |NonEmpty(ps)| ==> d !in NonEmpty(ps)[k]
    decreases |ps|
  {
    if ps != [] {
      NonEmptyFree(ps[1..], d);
      var head := if ps[0] == [] then [] else [ps[0]];
      forall k | 0 <= k < |NonEmpty(ps)| ensures d !in NonEmpty(ps)[k] {
        if k < |head| {
          assert NonEmpty(ps)[k] == ps[0];
        } else {
          assert NonEmpty(ps)[k] == NonEmpty(ps[1..])[k - |head|];
        }
      }
    }
  }

  lemma {:induction false} UnspacedFree(s: string)
    requires ' ' !in s
    ensures Unspaced(s) == s
    decreases |s|
  {
    if s != [] {
      UnspacedFree(s[..|s| - 1]);
      assert s == s[..|s| - 1] + [s[|s| - 1]];
    }
  }

  /** The tokens of a command are non-empty and hold no space, and one after another they
      spell the command with its spaces deleted. */
  lemma TokensSpell(command: string)
    ensures forall k :: 0 <= k < |Tokens(command)| ==> Tokens(command)[k] != [] && ' ' !in Tokens(command)[k]
    ensures Concat(Tokens(command)) == Unspaced(command)
  {
    PiecesJoin(command, ' ');
    UnspacedJoin(Pieces(command, ' '));
    NonEmptyFree(Pieces(command, ' '), ' ');
  }

  /** The non-empty pieces still to come once p holds rest. */
  function Remaining(rest: Option<string>, d: char): seq<string> {
    if rest.None? then [] else NonEmpty(Pieces(rest.value, d))
  }

  /** One strsep call: the piece it returns and what is left make up the remaining pieces. */
  lemma StrsepStep(s: string, d: char)
    ensures NonEmpty(Pieces(s, d)) ==
      (if Strsep(s, d).0 == [] then [] else [Strsep(s, d).0]) + Remaining(Strsep(s, d).1, d)
  {
    var ps := Pieces(s, d);
    assert ps[0] == Strsep(s, d).0;
    if Strsep(s, d).1.Some? {
      assert ps[1..] == Pieces(Strsep(s, d).1.value, d);
    } else {
      assert ps[1..] == [];
    }
  }

  /** The inner parsing loop: strsep at ' ' fills argv with the non-empty tokens. A command
      with MaxTokens tokens or more is refused with count -1 before argv or the slot of its
      terminating NULL would be overrun. */
  method Tokenize(command: string) returns (argv: array<string>, count: int)
    ensures argv.Length == MaxTokens
    ensures count == -1 <==> |Tokens(command)| >= MaxTokens
    ensures count != -1 ==> 0 <= count < MaxTokens && argv[..count] == Tokens(command)
  {
    argv := new string[MaxTokens](_ => "");
    count := 0;
    var rest: Option<string> := Some(command);
    while rest.Some?
      invariant 0 <= count < MaxTokens == argv.Length
      invariant Tokens(command) == argv[..count] + Remaining(rest, ' ')
      decreases if rest.Some? then |rest.value| + 1 else 0
    {
      StrsepStep(rest.value, ' ');
      var token := Strsep(rest.value, ' ').0;
      rest := Strsep(rest.value, ' ').1;
      if token == [] {
        continue;
      }
      if count == MaxTokens - 1 {
        return argv, -1;
      }
      count := Put(argv, count, token);
    }
  }

  /** count single-letter words with one space between them. */
  function Words(count: nat): (r: string)
    requires count > 0
    ensures |r| == 2 * count - 1 && forall k :: 0 <= k < |r| ==> r[k] == 'a' || r[k] == ' '
  {
    if count == 1 then "a" else "a " + Words(count - 1)
  }

  lemma StrsepCons(c: char, s: string, d: char)
    requires c != d
    ensures Strsep([c] + s, d) == ([c] + Strsep(s, d).0, Strsep(s, d).1)
  {
    assert ([c] + s)[1..] == s;
  }

  lemma StrsepAt(s: string, d: char)
    ensures Strsep([d] + s, d) == ([], Some(s))
  {
    assert ([d] + s)[1..] == s;
  }

  lemma {:induction false} WordsTokens(count: nat)
    requires count > 0
    ensures |Tokens(Words(count))| == count
  {
    var w := Words(count);
    if count > 1 {
      WordsTokens(count - 1);
      var rest := Words(count - 1);
      assert w == ['a'] + ([' '] + rest);
      StrsepAt(rest, ' ');
      StrsepCons('a', [' '] + rest, ' ');
      StrsepStep(w, ' ');
    } else {
      assert w == ['a'] + [];
      StrsepCons('a', [], ' ');
      StrsepStep(w, ' ');
    }
  }

  /** The loop as written stores token i in argv[i] and then the NULL in argv[count], with no
      bound: a line of count >= 50 one-letter words (99 characters for fifty) passes
      prep_line unchanged and makes that loop write argv[count], past the end of the
      MaxTokens-entry array. */
  lemma ArgvOverflow(count: nat) returns (line: string)
    requires MaxTokens <= count < TempSize / 2
    ensures '\0' !in line && Prep(line) == line && |line| < TempSize
    ensures |Segments(line)| == 1 && Segments(line)[0] == line
    ensures |Tokens(line)| == count >= MaxTokens
  {
    line := Words(count);
    PrepPlain(line);
    WordsTokens(count);
    assert Strsep(line, '&') == (line, None) by {
      StrsepNone(line, '&');
    }
  }

  lemma {:induction false} StrsepNone(s: string, d: char)
    requires d !in s
    ensures Strsep(s, d) == (s, None)
    decreases |s|
  {
    if s != [] {
      StrsepNone(s[1..], d);
      assert s == [s[0]] + s[1..];
    }
  }
}

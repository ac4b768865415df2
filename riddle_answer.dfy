// The riddle answer check shared by the secret room (secretRoom.js) and
// its work-in-progress variant (workInProgress.js): the typed answer is
// trimmed, lower-cased and stripped of everything outside a-z, and it is
// right when it equals the expected word, or "a" followed by it.
module RiddleAnswer {
  import opened Text

  /** The riddles, as (question, answer); both files use the same two. */
  const Riddles: seq<(string, string)> := [
    ("I have cities, but no houses; forests, but no trees; and water, but no fish. What am I?", "map"),
    ("I speak without a mouth and hear without ears. I have nobody, but I come alive with wind. What am I?", "echo")
  ]

  predicate IsLetter(c: char)
  {
    'a' <= c <= 'z'
  }

  /** `replace(/[^a-z]/g, '')`. */
  function KeepLetters(s: string): (r: string)
    ensures forall i :: 0 <= i < |r| ==> IsLetter(r[i])
    ensures |r| <= |s|
  {
    if s == [] then []
    else (if IsLetter(s[0]) then [s[0]] else []) + KeepLetters(s[1..])
  }

  /** Filtering works piece by piece. */
  lemma {:induction false} KeepLettersAppend(a: string, b: string)
    ensures KeepLetters(a + b) == KeepLetters(a) + KeepLetters(b)
    decreases |a|
  {
    if a != [] {
      assert (a + b)[0] == a[0] && (a + b)[1..] == a[1..] + b;
      KeepLettersAppend(a[1..], b);
      assert KeepLetters(a + b) == (if IsLetter(a[0]) then [a[0]] else []) + (KeepLetters(a[1..]) + KeepLetters(b));
    } else {
      assert a + b == b;
    }
  }

  /** Filtering a word that is all letters keeps it whole, so filtering is idempotent. */
  lemma {:induction false} KeepLettersOfLetters(s: string)
    requires forall i :: 0 <= i < |s| ==> IsLetter(s[i])
    ensures KeepLetters(s) == s
    decreases |s|
  {
    if s != [] {
      KeepLettersOfLetters(s[1..]);
    }
  }

  /** Characters that leave no trace once lower-cased and filtered. */
  predicate NoLetters(p: string)
  {
    forall i :: 0 <= i < |p| ==> !IsLetter(LowerChar(p[i]))
  }

  lemma {:induction false} KeepLettersNone(p: string)
    requires NoLetters(p)
    ensures KeepLetters(LowerCase(p)) == []
    decreases |p|
  {
    if p != [] {
      assert LowerCase(p)[1..] == LowerCase(p[1..]);
      KeepLettersNone(p[1..]);
    }
  }

  lemma LowerCaseAppend(a: string, b: string)
    ensures LowerCase(a + b) == LowerCase(a) + LowerCase(b)
  {
    assert forall i :: 0 <= i < |a + b| ==> LowerCase(a + b)[i] == (LowerCase(a) + LowerCase(b))[i];
  }

  /** Length of the white-space run at the end. */
  function TrailingSpaces(s: string): (n: nat)
    ensures n <= |s|
    ensures forall k :: |s| - n <= k < |s| ==> IsJsSpace(s[k])
    ensures n < |s| ==> !IsJsSpace(s[|s| - n - 1])
  {
    if s == [] || !IsJsSpace(s[|s| - 1]) then 0 else 1 + TrailingSpaces(s[..|s| - 1])
  }

  /** `trim()`. */
  function Trim(s: string): string
  {
    var rest := s[LeadingSpaces(s)..];
    rest[..|rest| - TrailingSpaces(rest)]
  }

  /** The submitted answer as the handler compares it. */
  function Normalize(s: string): string
  {
    KeepLetters(LowerCase(Trim(s)))
  }

  /** Lower-casing and filtering three pieces in a row filters each piece. */
  lemma LetterPieces(x: string, y: string, z: string)
    ensures KeepLetters(LowerCase(x + y + z))
            == KeepLetters(LowerCase(x)) + KeepLetters(LowerCase(y)) + KeepLetters(LowerCase(z))
  {
    LowerCaseAppend(x + y, z);
    LowerCaseAppend(x, y);
    KeepLettersAppend(LowerCase(x) + LowerCase(y), LowerCase(z));
    KeepLettersAppend(LowerCase(x), LowerCase(y));
  }

  /** Letter-free pieces around a word vanish once lower-cased and filtered. */
  lemma DropLetterFree(x: string, y: string, z: string)
    requires NoLetters(x) && NoLetters(z)
    ensures KeepLetters(LowerCase(x + y + z)) == KeepLetters(LowerCase(y))
  {
    LetterPieces(x, y, z);
    KeepLettersNone(x);
    KeepLettersNone(z);
  }

  /** A run of white space leaves no letter once lower-cased. */
  lemma SpacesNoLetters(p: string)
    requires forall i :: 0 <= i < |p| ==> IsJsSpace(p[i])
    ensures NoLetters(p)
  {
    forall i | 0 <= i < |p|
      ensures !IsLetter(LowerChar(p[i]))
    {
      assert IsJsSpace(p[i]);
    }
  }

  /** White space is not a letter, so the trim changes nothing in the end. */
  lemma NormalizeIgnoresTrim(s: string)
    ensures Normalize(s) == KeepLetters(LowerCase(s))
  {
    var a := LeadingSpaces(s);
    var rest := s[a..];
    var b := |rest| - TrailingSpaces(rest);
    assert Trim(s) == rest[..b];
    assert s == s[..a] + rest[..b] + rest[b..];
    SpacesNoLetters(s[..a]);
    SpacesNoLetters(rest[b..]);
    DropLetterFree(s[..a], rest[..b], rest[b..]);
  }

  /** The check in the submit handler. */
  predicate AnswerCorrect(given: string, answer: string)
  {
    var raw := Normalize(given);
    var expected := KeepLetters(LowerCase(answer));
    raw == expected || raw == "a" + expected
  }

  /**
   * An answer is right exactly when its letters, lower-cased and in order,
   * spell the expected word or "a" and the word: case, spaces and
   * punctuation anywhere are ignored.
   */
  lemma AnswerCorrectMeaning(given: string, answer: string)
    ensures AnswerCorrect(given, answer) <==>
              var e := KeepLetters(LowerCase(answer));
              KeepLetters(LowerCase(given)) == e || KeepLetters(LowerCase(given)) == "a" + e
  {
    NormalizeIgnoresTrim(given);
  }

  /** Adding characters without letters before or after an answer never changes the verdict. */
  lemma PunctuationIgnored(given: string, p: string, q: string, answer: string)
    requires NoLetters(p) && NoLetters(q)
    ensures AnswerCorrect(p + given + q, answer) == AnswerCorrect(given, answer)
  {
    AnswerCorrectMeaning(given, answer);
    AnswerCorrectMeaning(p + given + q, answer);
    DropLetterFree(p, given, q);
  }

  /** Upper- and lower-case spellings of an answer get the same verdict. */
  lemma CaseIgnored(given: string, answer: string)
    ensures AnswerCorrect(LowerCase(given), answer) == AnswerCorrect(given, answer)
  {
    AnswerCorrectMeaning(given, answer);
    AnswerCorrectMeaning(LowerCase(given), answer);
    LowerCaseIdempotent(given);
  }

  /** A word of letters a-z is its own lower case. */
  lemma LowerCaseOfLetters(w: string)
    requires forall i :: 0 <= i < |w| ==> IsLetter(w[i])
    ensures LowerCase(w) == w
  {
  }

  /** The article form of a right answer is accepted, as in "A map!". */
  lemma ArticleAccepted(w: string)
    requires forall i :: 0 <= i < |w| ==> IsLetter(w[i])
    ensures AnswerCorrect("A " + w + "!", w)
  {
    LowerCaseOfLetters(w);
    KeepLettersOfLetters(w);
    AnswerCorrectMeaning("A " + w + "!", w);
    LetterPieces("A ", w, "!");
    KeepLettersNone("!");
    assert KeepLetters(LowerCase("A ")) == "a";
  }

  /** Spaces around a right answer do not matter, as in "  echo ". */
  lemma SpacedAccepted(w: string)
    requires forall i :: 0 <= i < |w| ==> IsLetter(w[i])
    ensures AnswerCorrect("  " + w + " ", w)
  {
    LowerCaseOfLetters(w);
    KeepLettersOfLetters(w);
    AnswerCorrectMeaning("  " + w + " ", w);
    SpacesNoLetters("  ");
    SpacesNoLetters(" ");
    DropLetterFree("  ", w, " ");
    assert KeepLetters(LowerCase(w)) == w;
  }

  /** A different word is refused. */
  lemma OtherWordRefused()
    ensures !AnswerCorrect("maps", "map")
  {
    LowerCaseOfLetters("map");
    LowerCaseOfLetters("maps");
    KeepLettersOfLetters("map");
    KeepLettersOfLetters("maps");
    AnswerCorrectMeaning("maps", "map");
    assert "maps" != "a" + "map" by { assert ("a" + "map")[0] == 'a'; }
  }

  /** The Kelvin sign lower-cases to k, so it counts as a letter: "map" followed by it is refused. */
  lemma KelvinSignCounts()
    ensures !AnswerCorrect("map\U{212A}", "map")
  {
    var g := "map\U{212A}";
    assert LowerCase(g) == "mapk";
    KeepLettersOfLetters("mapk");
    LowerCaseOfLetters("map");
    KeepLettersOfLetters("map");
    AnswerCorrectMeaning(g, "map");
    assert |"mapk"| != |"map"| && "mapk"[0] != ("a" + "map")[0];
  }
}

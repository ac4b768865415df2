// String helpers shared by the Python, JavaScript and C pieces: decimal
// digits (`str(n)`, `String(n)`, `parseInt`), `padStart(2, "0")`,
// `toLowerCase` on the characters whose lower case is a-z, `includes`,
// and cutting at a delimiter (C's `strsep`, JavaScript's `split(d)`).
module Text {
  import opened Optional

  predicate IsDigit(c: char)
  {
    '0' <= c <= '9'
  }

  /** Non-empty and all decimal digits (Python's `isdigit` on ASCII text). */
  predicate IsDigits(s: string)
  {
    |s| > 0 && forall i :: 0 <= i < |s| ==> IsDigit(s[i])
  }

  function DigitValue(c: char): nat
    requires IsDigit(c)
  {
    c as int - '0' as int
  }

  /** `str(n)` / `String(n)` for a non-negative integer: its decimal digits, no leading zero. */
  function DecimalString(n: nat): (r: string)
    ensures IsDigits(r)
    ensures |r| > 1 ==> r[0] != '0'
    ensures n < 10 <==> |r| == 1
  {
    if n < 10 then [('0' as int + n) as char]
    else DecimalString(n / 10) + [('0' as int + n % 10) as char]
  }

  /** The value of a string of decimal digits. */
  function DecimalValue(s: string): nat
    requires forall i :: 0 <= i < |s| ==> IsDigit(s[i])
  {
    if |s| == 0 then 0
    else DecimalValue(s[..|s| - 1]) * 10 + DigitValue(s[|s| - 1])
  }

  /** Reading back the decimal string of n gives n. */
  lemma {:induction false} DecimalRoundTrip(n: nat)
    ensures DecimalValue(DecimalString(n)) == n
  {
    var r := DecimalString(n);
    if n >= 10 {
      DecimalRoundTrip(n / 10);
      assert r[..|r| - 1] == DecimalString(n / 10);
    }
  }

  /** Numbers below 100 have at most two digits. */
  lemma TwoDigits(n: nat)
    requires n < 100
    ensures |DecimalString(n)| <= 2
  {
    if n >= 10 {
      assert DecimalString(n) == DecimalString(n / 10) + [('0' as int + n % 10) as char];
    }
  }

  /** `s.padStart(2, "0")`: zeros in front up to length 2; longer strings unchanged. */
  function PadTwo(s: string): string
  {
    if |s| >= 2 then s else seq(2 - |s|, _ => '0') + s
  }

  /** Leading zeros added by PadTwo vanish again when the digits are read. */
  lemma {:induction false} PadTwoValue(n: nat)
    requires n < 100
    ensures |PadTwo(DecimalString(n))| == 2
    ensures IsDigits(PadTwo(DecimalString(n)))
    ensures DecimalValue(PadTwo(DecimalString(n))) == n
  {
    TwoDigits(n);
    DecimalRoundTrip(n);
    var d := DecimalString(n);
    if |d| == 1 {
      var p := PadTwo(d);
      assert p == ['0'] + d;
      assert p[..1] == ['0'];
      assert DecimalValue(p[..1]) == DecimalValue([]) * 10 + 0;
      assert d[..0] == [];
    }
  }

  /**
   * `toLowerCase` on one character, as far as a-z is concerned: A-Z, the
   * Kelvin sign (U+212A, lower case k) and the dotted capital I (U+0130,
   * lower case i followed by the combining dot U+0307, which is kept as i
   * alone here) are the only characters whose lower case holds a-z. Other
   * characters are left as they are; their lower case is outside a-z too.
   */
  function LowerChar(c: char): char
  {
    if 'A' <= c <= 'Z' then (c as int + 32) as char
    else if c == '\U{212A}' then 'k'
    else if c == '\U{0130}' then 'i'
    else c
  }

  function LowerCase(s: string): (r: string)
    ensures |r| == |s|
    ensures forall i :: 0 <= i < |s| ==> r[i] == LowerChar(s[i])
  {
    seq(|s|, i requires 0 <= i < |s| => LowerChar(s[i]))
  }

  /** What `String.prototype.trim` removes: white space and line terminators. */
  predicate IsJsSpace(c: char)
  {
    || c == '\t' || c == '\n' || c == '\U{000B}' || c == '\U{000C}' || c == '\r' || c == ' '
    || c == '\U{00A0}' || c == '\U{1680}' || '\U{2000}' <= c <= '\U{200A}'
    || c == '\U{2028}' || c == '\U{2029}' || c == '\U{202F}' || c == '\U{205F}'
    || c == '\U{3000}' || c == '\U{FEFF}'
  }

  /** Length of the white-space run at the start. */
  function LeadingSpaces(s: string): (n: nat)
    ensures n <= |s|
    ensures forall k :: 0 <= k < n ==> IsJsSpace(s[k])
    ensures n < |s| ==> !IsJsSpace(s[n])
  {
    if s == [] || !IsJsSpace(s[0]) then 0 else 1 + LeadingSpaces(s[1..])
  }

  /** Lower-casing twice changes nothing more. */
  lemma LowerCaseIdempotent(s: string)
    ensures LowerCase(LowerCase(s)) == LowerCase(s)
  {
  }

  /** w occurs in s starting at index i. */
  predicate OccursAt(s: string, w: string, i: int)
  {
    0 <= i <= |s| - |w| && s[i..i + |w|] == w
  }

  /** `s.includes(w)`. */
  predicate Contains(s: string, w: string)
  {
    exists i | 0 <= i <= |s| - |w| :: OccursAt(s, w, i)
  }

  /** `s.split(d).pop()`: the last piece of s cut at every d. */
  function LastPiece(s: string, d: char): string
  {
    var ps := Pieces(s, d);
    ps[|ps| - 1]
  }

  /** Joining with d ends with the last piece, right after a d when there are several. */
  lemma {:induction false} JoinEnds(ps: seq<string>, d: char)
    requires |ps| > 0
    ensures var j, l := Join(ps, d), ps[|ps| - 1];
            |l| <= |j| && j[|j| - |l|..] == l && (|ps| > 1 ==> |l| < |j| && j[|j| - |l| - 1] == d)
  {
    if |ps| > 1 {
      var rest := Join(ps[1..], d);
      var l := ps[|ps| - 1];
      assert ps[1..][|ps[1..]| - 1] == l;
      JoinEnds(ps[1..], d);
      var j := Join(ps, d);
      assert j == ps[0] + [d] + rest;
      assert j[|j| - |l|..] == rest[|rest| - |l|..];
      if |ps| == 2 {
        assert rest == l;
        assert j[|j| - |l| - 1] == d;
      } else {
        assert j[|j| - |l| - 1] == rest[|rest| - |l| - 1];
      }
    }
  }

  /**
   * The last piece is the longest d-free end of s: it holds no d, s ends with
   * it, and it is either all of s or comes right after a d.
   */
  lemma LastPieceSuffix(s: string, d: char)
    ensures var l := LastPiece(s, d);
            d !in l && |l| <= |s| && s[|s| - |l|..] == l && (|l| < |s| ==> s[|s| - |l| - 1] == d)
  {
    var ps := Pieces(s, d);
    PiecesJoin(s, d);
    JoinEnds(ps, d);
    if |ps| == 1 {
      assert Join(ps, d) == ps[0];
    }
  }

  /** strsep(&p, [d]) on the string p points at: the piece before the first d, and the rest
      after it, or no rest (p becomes NULL) when there is no d. */
  function Strsep(s: string, d: char): (r: (string, Option<string>))
    ensures d !in r.0
    ensures r.1.None? ==> r.0 == s
    ensures r.1.Some? ==> s == r.0 + [d] + r.1.value
    decreases |s|
  {
    if s == [] then ([], None)
    else if s[0] == d then ([], Some(s[1..]))
    else
      var (p, rest) := Strsep(s[1..], d);
      ([s[0]] + p, rest)
  }

  /** Every piece strsep returns from s before p becomes NULL. */
  function Pieces(s: string, d: char): (r: seq<string>)
    ensures |r| > 0
    decreases |s|
  {
    var (p, rest) := Strsep(s, d);
    if rest.None? then [p] else [p] + Pieces(rest.value, d)
  }

  /** The pieces glued back together with d between them. */
  function Join(ps: seq<string>, d: char): string
    decreases |ps|
  {
    if ps == [] then []
    else if |ps| == 1 then ps[0]
    else ps[0] + [d] + Join(ps[1..], d)
  }

  /** strsep cuts s exactly at its d's: no piece holds d, and joining the pieces with d gives
      s back. */
  lemma {:induction false} PiecesJoin(s: string, d: char)
    ensures Join(Pieces(s, d), d) == s
    ensures forall k :: 0 <= k < |Pieces(s, d)| ==> d !in Pieces(s, d)[k]
    decreases |s|
  {
    var (p, rest) := Strsep(s, d);
    if rest.Some? {
      PiecesJoin(rest.value, d);
      var ps := Pieces(s, d);
      assert ps[1..] == Pieces(rest.value, d);
    }
  }
}

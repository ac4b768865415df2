// The portfolio site's script (script.js): which navigation link is
// marked active, which project cards a `?module=` parameter highlights,
// the colour of a skill bar from its percentage text, and the back button.
// The DOM is outside the model: pages, links, cards and bars are strings.
module SiteScript {
  import opened Optional
  import opened Text

  /** The first piece of `split(d)`: everything before the first d. */
  function FirstPiece(s: string, d: char): string
  {
    Pieces(s, d)[0]
  }

  lemma FirstPiecePrefix(s: string, d: char)
    ensures var p := FirstPiece(s, d);
            d !in p && |p| <= |s| && s[..|p|] == p && (|p| < |s| ==> s[|p|] == d)
  {
    var r := Strsep(s, d);
    assert Pieces(s, d)[0] == r.0;
    if r.1.Some? {
      assert s[..|r.0|] == r.0;
    }
  }

  /** `pathname.split("/").pop() || "index.html"`: the empty last segment means the index. */
  function CurrentPage(pathname: string): (page: string)
  {
    var last := LastPiece(pathname, '/');
    if last == "" then "index.html" else last
  }

  /**
   * The current page is the text after the last "/" of the path, or
   * index.html when the path ends in "/" (or is empty); it never holds "/".
   */
  lemma CurrentPageMeaning(pathname: string)
    ensures var page := CurrentPage(pathname);
            && page != "" && '/' !in page
            && (page == "index.html" || (|page| <= |pathname| && pathname[|pathname| - |page|..] == page))
            && (pathname == [] || pathname[|pathname| - 1] == '/' <==> page == "index.html" && LastPiece(pathname, '/') == "")
  {
    LastPieceSuffix(pathname, '/');
  }

  /** `href.split("/").pop().split("?")[0]`. */
  function LinkPage(href: string): string
  {
    FirstPiece(LastPiece(href, '/'), '?')
  }

  /** A link's page holds neither "/" nor "?", and begins the last segment of its href. */
  lemma LinkPageMeaning(href: string)
    ensures var page, last := LinkPage(href), LastPiece(href, '/');
            && '/' !in page && '?' !in page
            && |page| <= |last| && last[..|page|] == page
            && (|page| < |last| ==> last[|page|] == '?')
  {
    LastPieceSuffix(href, '/');
    FirstPiecePrefix(LastPiece(href, '/'), '?');
  }

  /** A navigation link gets the class "active" exactly when it points at the current page. */
  predicate IsActive(href: string, pathname: string)
  {
    LinkPage(href) == CurrentPage(pathname)
  }

  /** Whether each navigation link is marked active. */
  function MarkActive(hrefs: seq<string>, pathname: string): (r: seq<bool>)
    ensures |r| == |hrefs|
    ensures forall i :: 0 <= i < |hrefs| ==> (r[i] <==> LinkPage(hrefs[i]) == CurrentPage(pathname))
  {
    seq(|hrefs|, i requires 0 <= i < |hrefs| => IsActive(hrefs[i], pathname))
  }

  /** At most one page is current, so links to different pages are never both active. */
  lemma OneActivePage(a: string, b: string, pathname: string)
    requires LinkPage(a) != LinkPage(b)
    ensures !(IsActive(a, pathname) && IsActive(b, pathname))
  {
  }

  /** What the module parameter does to a project card. */
  datatype CardLook = Unchanged | Highlighted | Faded

  /** `params.get("module")` is null or a string; only a non-empty one acts. */
  function CardLookFor(cardModules: string, selected: Option<string>): CardLook
  {
    if selected.None? || selected.value == "" then Unchanged
    else if selected.value in Pieces(cardModules, ' ') then Highlighted
    else Faded
  }

  /**
   * With a module given, a card is highlighted exactly when the module is
   * one of its space-separated modules and faded otherwise; with none,
   * no card changes.
   */
  lemma CardLookMeaning(cardModules: string, selected: Option<string>)
    ensures var look := CardLookFor(cardModules, selected);
            && (look == Unchanged <==> selected.None? || selected.value == "")
            && (look == Highlighted <==> selected.Some? && selected.value != ""
                                         && exists k :: 0 <= k < |Pieces(cardModules, ' ')| && Pieces(cardModules, ' ')[k] == selected.value)
            && (look == Highlighted ==> ' ' !in selected.value)
  {
    PiecesJoin(cardModules, ' ');
  }

  /** The decimal digits at the start of s. */
  function DigitRun(s: string): (r: string)
    ensures |r| <= |s| && s[..|r|] == r
    ensures forall i :: 0 <= i < |r| ==> IsDigit(r[i])
    ensures |r| < |s| ==> !IsDigit(s[|r|])
  {
    if s == [] || !IsDigit(s[0]) then [] else [s[0]] + DigitRun(s[1..])
  }

  predicate IsHexDigit(c: char)
  {
    IsDigit(c) || 'a' <= c <= 'f' || 'A' <= c <= 'F'
  }

  function HexDigitValue(c: char): (v: nat)
    requires IsHexDigit(c)
    ensures v < 16
  {
    if IsDigit(c) then DigitValue(c)
    else if 'a' <= c <= 'f' then c as int - 'a' as int + 10
    else c as int - 'A' as int + 10
  }

  /** The hexadecimal digits at the start of s. */
  function HexRun(s: string): (r: string)
    ensures |r| <= |s| && s[..|r|] == r
    ensures forall i :: 0 <= i < |r| ==> IsHexDigit(r[i])
    ensures |r| < |s| ==> !IsHexDigit(s[|r|])
  {
    if s == [] || !IsHexDigit(s[0]) then [] else [s[0]] + HexRun(s[1..])
  }

  function HexValue(s: string): nat
    requires forall i :: 0 <= i < |s| ==> IsHexDigit(s[i])
  {
    if |s| == 0 then 0
    else HexValue(s[..|s| - 1]) * 16 + HexDigitValue(s[|s| - 1])
  }

  /**
   * `parseInt(text)` without a radix: leading white space, an optional
   * sign, then hexadecimal digits after "0x" or "0X", or else decimal
   * digits; none means NaN.
   */
  function ParseInt(text: string): Option<int>
  {
    var t := text[LeadingSpaces(text)..];
    var negative := |t| > 0 && t[0] == '-';
    var body := if |t| > 0 && (t[0] == '-' || t[0] == '+') then t[1..] else t;
    var hex := |body| >= 2 && body[0] == '0' && (body[1] == 'x' || body[1] == 'X');
    if hex then
      var digits := HexRun(body[2..]);
      if digits == [] then None
      else Some(if negative then -(HexValue(digits) as int) else HexValue(digits))
    else
      var digits := DigitRun(body);
      if digits == [] then None
      else Some(if negative then -(DecimalValue(digits) as int) else DecimalValue(digits))
  }

  /** A "0x" prefix switches to base 16: "0x" followed by the hexadecimal digits of a value reads back as it. */
  lemma HexPrefixRead(digits: string)
    requires |digits| > 0 && forall i :: 0 <= i < |digits| ==> IsHexDigit(digits[i])
    ensures ParseInt("0x" + digits) == Some(HexValue(digits))
  {
    var s := "0x" + digits;
    assert !IsJsSpace(s[0]);
    assert s[LeadingSpaces(s)..] == s;
    assert s[2..] == digits;
    assert HexRun(digits) == digits;
  }

  /** A bar's text such as "85%" reads back as its number. */
  lemma ParsePercent(n: nat)
    ensures ParseInt(DecimalString(n) + "%") == Some(n)
  {
    var s := DecimalString(n) + "%";
    assert !IsJsSpace(s[0]);
    assert |s| >= 2 ==> s[1] != 'x' && s[1] != 'X';
    assert s[LeadingSpaces(s)..] == s;
    DigitRunPrefix(DecimalString(n), "%");
    DecimalRoundTrip(n);
  }

  lemma {:induction false} DigitRunPrefix(d: string, rest: string)
    requires forall i :: 0 <= i < |d| ==> IsDigit(d[i])
    requires rest == [] || !IsDigit(rest[0])
    ensures DigitRun(d + rest) == d
    decreases |d|
  {
    if d != [] {
      assert (d + rest)[1..] == d[1..] + rest;
      DigitRunPrefix(d[1..], rest);
    } else {
      assert d + rest == rest;
    }
  }

  datatype Colour = Green | Yellow | Red

  /** The bar colour: NaN compares false and so is red. */
  function SkillColour(percent: Option<int>): Colour
  {
    if percent.Some? && percent.value >= 75 then Green
    else if percent.Some? && percent.value >= 60 then Yellow
    else Red
  }

  /** The three bands: green from 75, yellow from 60 below 75, red below 60 or unreadable. */
  lemma ColourBands(text: string)
    ensures var p := ParseInt(text);
            && (SkillColour(p) == Green <==> p.Some? && p.value >= 75)
            && (SkillColour(p) == Yellow <==> p.Some? && 60 <= p.value < 75)
            && (SkillColour(p) == Red <==> p.None? || p.value < 60)
  {
  }

  /** The back button's choice. */
  datatype BackAction = HistoryBack | GoTo(url: string)

  function SafeBack(historyLength: nat): (r: BackAction)
    ensures r == HistoryBack <==> historyLength > 1
    ensures r.GoTo? ==> r.url == "/index.html"
  {
    if historyLength > 1 then HistoryBack else GoTo("/index.html")
  }
}

// The button logic of the Tkinter calculator (Calculator/functions.py). All
// functions there reassign fields of one shared `state` module; the model
// makes that module a class. Python's `eval` is not modelled: `Equals`
// receives its outcome.
module Calculator {
  import opened Text
  import opened Optional

  /** What a button passes to buttonPress: an int (the digit buttons) or a str. */
  datatype Key = Number(n: nat) | Text(s: string)

  /** What `str(eval(equationtxt))` produced: its text, or the exception it raised. */
  datatype Outcome = Value(total: string) | ZeroDivision | Syntax | OtherError

  /**
   * The ASCII whitespace that `str.strip` removes: space, tab, line feed,
   * carriage return, vertical tab and form feed. strip also removes the
   * ASCII separators U+001C-U+001F and the Unicode white space; those are
   * not modelled.
   */
  predicate IsSpace(c: char)
  {
    c == ' ' || c == '\t' || c == '\n' || c == '\r' || c == '\U{B}' || c == '\U{C}'
  }

  /** `s.strip() == ""`. */
  predicate IsBlank(s: string)
  {
    forall i :: 0 <= i < |s| ==> IsSpace(s[i])
  }

  /** A key counts as a digit press: an int, or a str for which isdigit holds. */
  predicate IsDigitKey(k: Key)
  {
    k.Number? || IsDigits(k.s)
  }

  /** `str(num)`: the text a key appends. */
  function KeyText(k: Key): (r: string)
    ensures k.Number? ==> IsDigits(r) && DecimalValue(r) == k.n
    ensures k.Text? ==> r == k.s
  {
    match k
    case Number(n) => DecimalRoundTrip(n); DecimalString(n)
    case Text(s) => s
  }

  /** The option's text, or "" for None. */
  function TextOf(a: Option<string>): string
  {
    if a.Some? then a.value else ""
  }

  class State {
    var text: string             // equationtxt
    var display: string            // what equationlabel shows
    var history: seq<string>
    var historyIdx: int
    var answer: Option<string>
    var prevAnswer: Option<string>
    var justEvaluated: bool

    /** The history index never leaves [0, len(history)]. */
    ghost predicate Valid()
      reads this
    {
      0 <= historyIdx <= |history|
    }

    /** A fresh calculator: empty text and display, no history, no answers. */
    constructor ()
      ensures Valid()
      ensures text == "" && display == "" && history == [] && historyIdx == 0
      ensures answer == None && prevAnswer == None && !justEvaluated
    {
      text := "";
      display := "";
      history := [];
      historyIdx := 0;
      answer := None;
      prevAnswer := None;
      justEvaluated := false;
    }

    /** buttonPress(num). */
    method ButtonPress(key: Key)
      requires Valid()
      modifies this
      ensures Valid()
      ensures !justEvaluated
      ensures var base := if old(justEvaluated) && IsDigitKey(key) then "" else old(text);
              text == (if key == Text("answer") then TextOf(answer)
                       else if key == Text("preAnswer") then TextOf(prevAnswer)
                       else if key == Text("decimal") then base + "."
                       else base + KeyText(key))
      ensures display == text
      ensures history == old(history) && historyIdx == old(historyIdx)
      ensures answer == old(answer) && prevAnswer == old(prevAnswer)
    {
      if justEvaluated {
        if IsDigitKey(key) {
          text := "";
        }
        justEvaluated := false;
      }
      if key == Text("answer") {
        text := "";
        if answer.Some? {
          text := text + answer.value;
        }
      } else if key == Text("preAnswer") {
        text := "";
        if prevAnswer.Some? {
          text := text + prevAnswer.value;
        }
      } else if key == Text("decimal") {
        text := text + ".";
      } else {
        text := text + KeyText(key);
      }
      display := text;
    }

    /** equals(), given what eval made of the text. */
    method Equals(outcome: Outcome)
      requires Valid()
      modifies this
      ensures Valid()
      ensures outcome.Value? ==>
                && history == old(history) + (if IsBlank(old(text)) then [] else [old(text)])
                && historyIdx == |history|
                && prevAnswer == old(answer)
                && answer == Some(outcome.total)
                && text == outcome.total && display == outcome.total
                && justEvaluated
      ensures outcome.ZeroDivision? ==>
                && text == "" && display == "No division by zero." && !justEvaluated
                && history == old(history) && historyIdx == old(historyIdx)
                && answer == old(answer) && prevAnswer == old(prevAnswer)
      ensures outcome.Syntax? ==>
                && text == "" && display == "Invalid syntax." && justEvaluated == old(justEvaluated)
                && history == old(history) && historyIdx == old(historyIdx)
                && answer == old(answer) && prevAnswer == old(prevAnswer)
      ensures outcome.OtherError? ==>
                && text == old(text) && display == old(display) && justEvaluated == old(justEvaluated)
                && history == old(history) && historyIdx == old(historyIdx)
                && answer == old(answer) && prevAnswer == old(prevAnswer)
    {
      match outcome {
        case Value(total) =>
          if !IsBlank(text) {
            history := history + [text];
          }
          historyIdx := |history|;
          prevAnswer := answer;
          answer := Some(total);
          display := total;
          text := total;
          justEvaluated := true;
        case ZeroDivision =>
          display := "No division by zero.";
          text := "";
          justEvaluated := false;
        case Syntax =>
          display := "Invalid syntax.";
          text := "";
        case OtherError =>
      }
    }

    /** clear(). */
    method Clear()
      requires Valid()
      modifies this
      ensures Valid()
      ensures text == "" && display == ""
      ensures history == old(history) && historyIdx == old(historyIdx) && justEvaluated == old(justEvaluated)
      ensures answer == old(answer) && prevAnswer == old(prevAnswer)
    {
      display := "";
      text := "";
    }

    /** navigate_up(): one entry back, stopping at the oldest. */
    method NavigateUp()
      requires Valid()
      modifies this
      ensures Valid()
      ensures old(history) == [] ==> text == old(text) && display == old(display) && historyIdx == old(historyIdx)
      ensures old(history) != [] ==>
                && historyIdx == (if old(historyIdx) > 0 then old(historyIdx) - 1 else 0)
                && historyIdx < |history|
                && text == history[historyIdx] && display == text
      ensures history == old(history) && justEvaluated == old(justEvaluated)
      ensures answer == old(answer) && prevAnswer == old(prevAnswer)
    {
      if history != [] {
        historyIdx := if historyIdx - 1 > 0 then historyIdx - 1 else 0;
        text := history[historyIdx];
        display := text;
      }
    }

    /** navigate_down(): one entry forward, stopping at the newest. */
    method NavigateDown()
      requires Valid()
      modifies this
      ensures Valid()
      ensures old(history) == [] ==> text == old(text) && display == old(display) && historyIdx == old(historyIdx)
      ensures old(history) != [] ==>
                && historyIdx == (if old(historyIdx) + 1 < |history| then old(historyIdx) + 1 else |history| - 1)
                && 0 <= historyIdx < |history|
                && text == history[historyIdx] && display == text
      ensures history == old(history) && justEvaluated == old(justEvaluated)
      ensures answer == old(answer) && prevAnswer == old(prevAnswer)
    {
      if history != [] {
        historyIdx := if |history| - 1 < historyIdx + 1 then |history| - 1 else historyIdx + 1;
        text := history[historyIdx];
        display := text;
      }
    }
  }
}

/** The built-in commands, redirection and path lookup of the witsshell command interpreter
    (Shell.c), applied to each '&'-separated command of a prepared line. Process creation,
    chdir and access are outside the model: chdir's and access's answers come in as the
    oracles chdirOk and executable, and a launched program is recorded as an event. */
module ShellCommands {
  import opened Optional
  import opened Text
  import opened ShellLine

  const MaxPaths := 50

  /** Where the redirect scan leaves redirect_index: -1, a token index, or -2. */
  datatype Redirection = NoRedirect | RedirectAt(index: nat) | Misplaced

  /** What one command asks of the shell. */
  datatype Command =
    | Exit
    | Error
    | ChangeDir(dir: string)
    | SetPath(dirs: seq<string>)
    | Launch(args: seq<string>, outfile: Option<string>)

  /** The index of the first x in s. */
  function FirstIndex(s: seq<string>, x: string): (r: nat)
    requires x in s
    ensures r < |s| && s[r] == x && x !in s[..r]
    ensures forall j :: 0 <= j < r ==> s[j] != x
  {
    if s[0] == x then 0
    else
      var r := FirstIndex(s[1..], x) + 1;
      assert s[..r] == [s[0]] + s[1..][..r - 1];
      r
  }

  lemma FirstIndexAt(s: seq<string>, x: string, i: int)
    requires 0 <= i < |s| && s[i] == x && x !in s[..i]
    ensures FirstIndex(s, x) == i
  {
    forall j | 0 <= j < i ensures s[j] != x {
      assert s[..i][j] == s[j];
    }
  }

  /** The redirect scan's verdict on argv: no '>', a single '>' with a token after it, or a
      '>' that is repeated or last. */
  function RedirectOf(argv: seq<string>): Redirection {
    if ">" !in argv then NoRedirect
    else
      var k := FirstIndex(argv, ">");
      if k + 1 < |argv| && ">" !in argv[k + 1..] then RedirectAt(k) else Misplaced
  }

  /** A redirection is refused exactly when '>' occurs twice or is the last token; an accepted
      one names the only '>', which has a token after it. */
  lemma RedirectCases(argv: seq<string>)
    ensures RedirectOf(argv) == NoRedirect <==> ">" !in argv
    ensures RedirectOf(argv) == Misplaced <==>
      (exists j, k :: 0 <= j < k < |argv| && argv[j] == ">" && argv[k] == ">") ||
      (|argv| > 0 && argv[|argv| - 1] == ">")
    ensures RedirectOf(argv).RedirectAt? ==>
      RedirectOf(argv).index + 1 < |argv| && argv[RedirectOf(argv).index] == ">" &&
      forall j :: 0 <= j < |argv| && j != RedirectOf(argv).index ==> argv[j] != ">"
  {
    if ">" in argv {
      var k := FirstIndex(argv, ">");
      forall j | 0 <= j < k ensures argv[j] != ">" {
        assert argv[..k][j] == argv[j];
      }
      if k + 1 < |argv| && ">" !in argv[k + 1..] {
        forall j | k < j < |argv| ensures argv[j] != ">" {
          assert argv[k + 1..][j - k - 1] == argv[j];
        }
      } else if k + 1 < |argv| {
        var m :| 0 <= m < |argv[k + 1..]| && argv[k + 1..][m] == ">";
        assert argv[k + m + 1] == ">";
      }
    }
  }

  /** The redirect scan of Shell.c: the first '>' sets redirect_index and outfile, a second
      '>' or a '>' in last place sets -2 and stops. */
  method FindRedirect(argv: seq<string>) returns (redirectIndex: int, outfile: Option<string>)
    ensures redirectIndex >= -2
    ensures redirectIndex == -1 <==> RedirectOf(argv) == NoRedirect
    ensures redirectIndex == -2 <==> RedirectOf(argv) == Misplaced
    ensures redirectIndex >= 0 ==>
      RedirectOf(argv) == RedirectAt(redirectIndex) && outfile == Some(argv[redirectIndex + 1])
    ensures redirectIndex == -1 ==> outfile == None
  {
    outfile := None;
    redirectIndex := -1;
    for j := 0 to |argv|
      invariant -1 <= redirectIndex < j
      invariant redirectIndex == -1 ==> ">" !in argv[..j] && outfile == None
      invariant redirectIndex >= 0 ==>
        argv[redirectIndex] == ">" && redirectIndex + 1 < |argv| &&
        outfile == Some(argv[redirectIndex + 1]) && ">" !in argv[..redirectIndex] &&
        ">" !in argv[redirectIndex + 1..j]
    {
      if argv[j] == ">" {
        if redirectIndex != -1 || j + 1 >= |argv| {
          if redirectIndex != -1 {
            FirstIndexAt(argv, ">", redirectIndex);
            assert argv[redirectIndex + 1..][j - redirectIndex - 1] == ">";
          } else {
            FirstIndexAt(argv, ">", j);
          }
          redirectIndex := -2;
          return;
        }
        assert argv[..j + 1] == argv[..j] + [argv[j]];
        redirectIndex := j;
        outfile := Some(argv[j + 1]);
      } else if redirectIndex == -1 {
        assert argv[..j + 1] == argv[..j] + [argv[j]];
      } else {
        assert argv[redirectIndex + 1..j + 1] == argv[redirectIndex + 1..j] + [argv[j]];
      }
    }
    if redirectIndex >= 0 {
      FirstIndexAt(argv, ">", redirectIndex);
    } else {
      assert argv[..|argv|] == argv;
    }
  }

  /** The search list after `path` with arguments dirs: at most MaxPaths of them, and in
      interactive mode "/bin" when there are none. */
  function NewPaths(dirs: seq<string>, interactive: bool): seq<string> {
    var kept := if |dirs| <= MaxPaths then dirs else dirs[..MaxPaths];
    if interactive && kept == [] then ["/bin"] else kept
  }

  /** What Shell.c does with the tokens of one command: the built-ins exit, cd and path by
      their first token, else the redirect checks and the argument list to run. */
  function Interpret(argv: seq<string>, interactive: bool): Command
    requires |argv| > 0
  {
    if argv[0] == "exit" then (if |argv| != 1 then Error else Exit)
    else if argv[0] == "cd" then (if |argv| != 2 then Error else ChangeDir(argv[1]))
    else if argv[0] == "path" then SetPath(NewPaths(argv[1..], interactive))
    else
      match RedirectOf(argv)
      case Misplaced => Error
      case RedirectAt(k) => if |argv| > k + 2 then Error else Launch(argv[..k], Some(argv[k + 1]))
      case NoRedirect => Launch(argv, None)
  }

  /** exit runs only without arguments; cd needs exactly one argument; anything else given to
      them is an error. */
  lemma BuiltinChecks(argv: seq<string>, interactive: bool)
    requires |argv| > 0
    ensures Interpret(argv, interactive) == Exit <==> argv == ["exit"]
    ensures argv[0] == "exit" && |argv| != 1 ==> Interpret(argv, interactive) == Error
    ensures argv[0] == "cd" ==>
      Interpret(argv, interactive) == (if |argv| == 2 then ChangeDir(argv[1]) else Error)
  {
    if argv == ["exit"] {
      assert Interpret(argv, interactive) == Exit;
    }
  }

  /** path replaces the search list with its first MaxPaths arguments; without arguments the
      list is ["/bin"] in interactive mode and empty in batch mode. */
  lemma PathReplaces(argv: seq<string>, interactive: bool)
    requires |argv| > 0 && argv[0] == "path"
    ensures Interpret(argv, interactive).SetPath?
    ensures |argv| == 1 ==> Interpret(argv, interactive).dirs == (if interactive then ["/bin"] else [])
    ensures 1 < |argv| <= MaxPaths + 1 ==> Interpret(argv, interactive).dirs == argv[1..]
    ensures |argv| > MaxPaths + 1 ==> Interpret(argv, interactive).dirs == argv[1..MaxPaths + 1]
  {
  }

  /** A launched command either has no '>' and runs with all its tokens, or ends in '>' and
      exactly one file name, which is cut off; every other use of '>' is an error. */
  lemma LaunchShape(argv: seq<string>, interactive: bool)
    requires |argv| > 0 && argv[0] != "exit" && argv[0] != "cd" && argv[0] != "path"
    ensures ">" !in argv ==> Interpret(argv, interactive) == Launch(argv, None)
    ensures Interpret(argv, interactive).Launch? && Interpret(argv, interactive).outfile.Some? ==>
      argv == Interpret(argv, interactive).args + [">", Interpret(argv, interactive).outfile.value] &&
      ">" !in Interpret(argv, interactive).args
    ensures Interpret(argv, interactive) == Error <==>
      RedirectOf(argv) == Misplaced || (RedirectOf(argv).RedirectAt? && |argv| != RedirectOf(argv).index + 2)
  {
    RedirectCases(argv);
    if RedirectOf(argv).RedirectAt? {
      var k := RedirectOf(argv).index;
      if |argv| == k + 2 {
        assert argv == argv[..k] + [">", argv[k + 1]];
        assert forall j :: 0 <= j < k ==> argv[..k][j] != ">";
      }
    }
  }

  /** The state Shell.c keeps across commands: paths[0..path_count). */
  class SearchPath {
    const paths: array<string>
    var count: int

    ghost predicate Valid()
      reads this
    {
      paths.Length == MaxPaths && 0 <= count <= MaxPaths
    }

    function Current(): seq<string>
      requires Valid()
      reads this, paths
    {
      paths[..count]
    }

    /** The initial list: "/bin". */
    constructor ()
      ensures Valid() && Current() == ["/bin"]
    {
      paths := new string[MaxPaths](_ => "");
      new;
      paths[0] := "/bin";
      count := 1;
    }

    /** The path built-in: path_count is reset and paths refilled from argv[1..] while
        there is room; interactive mode puts "/bin" back into an empty list. */
    method Replace(argv: seq<string>, interactive: bool)
      requires Valid() && |argv| > 0
      modifies this, paths
      ensures Valid() && Current() == NewPaths(argv[1..], interactive)
    {
      ghost var dirs := argv[1..];
      count := 0;
      var j := 1;
      while j < |argv| && count < MaxPaths
        invariant 1 <= j <= |argv| && count == j - 1 && Valid()
        invariant paths[..count] == dirs[..count]
      {
        paths[count] := argv[j];
        count := count + 1;
        j := j + 1;
        assert paths[..count] == paths[..count - 1] + [dirs[count - 1]];
      }
      assert paths[..count] == if |dirs| <= MaxPaths then dirs else dirs[..MaxPaths];
      if interactive && count == 0 {
        paths[0] := "/bin";
        count := 1;
        assert paths[..count] == ["/bin"];
      }
    }
  }

  /** The first directory of dirs in which dir + "/" + program is executable. */
  function FirstExecutable(dirs: seq<string>, program: string, executable: string -> bool):
    (r: Option<string>)
    ensures r.Some? ==> executable(r.value) && exists k :: 0 <= k < |dirs| && r.value == dirs[k] + "/" + program
    ensures r.None? <==> forall k :: 0 <= k < |dirs| ==> !executable(dirs[k] + "/" + program)
    decreases |dirs|
  {
    if dirs == [] then None
    else if executable(dirs[0] + "/" + program) then Some(dirs[0] + "/" + program)
    else
      var r := FirstExecutable(dirs[1..], program, executable);
      assert forall k :: 1 <= k < |dirs| ==> dirs[k] == dirs[1..][k - 1];
      r
  }

  /** The lookup loop: snprintf "%s/%s" and access(X_OK) on each directory in order. */
  method Resolve(sp: SearchPath, program: string, executable: string -> bool) returns (resolved: Option<string>)
    requires sp.Valid()
    ensures resolved == FirstExecutable(sp.Current(), program, executable)
  {
    var j := 0;
    while j < sp.count
      invariant 0 <= j <= sp.count
      invariant FirstExecutable(sp.Current(), program, executable) ==
        FirstExecutable(sp.Current()[j..], program, executable)
    {
      var candidate := sp.paths[j] + "/" + program;
      assert sp.Current()[j..][0] == sp.paths[j];
      if executable(candidate) {
        return Some(candidate);
      }
      assert sp.Current()[j..][1..] == sp.Current()[j + 1..];
      j := j + 1;
    }
    return None;
  }

  /** What the shell does visibly for one command. */
  datatype Event =
    | ErrorMessage
    | ChangedDir(dir: string)
    | Spawned(program: string, args: seq<string>, outfile: Option<string>)

  /** The events of one command other than exit, and the search list after it. */
  function Apply(c: Command, paths: seq<string>, chdirOk: string -> bool, executable: string -> bool):
    (seq<Event>, seq<string>)
  {
    match c
    case Exit => ([], paths)
    case Error => ([ErrorMessage], paths)
    case ChangeDir(dir) => (if chdirOk(dir) then [ChangedDir(dir)] else [ErrorMessage], paths)
    case SetPath(dirs) => ([], dirs)
    case Launch(args, outfile) => (Launched(args, outfile, paths, executable), paths)
  }

  /** Running args: the program found along the search list, or the error message. A launch
      whose argument list is empty (the command began with '>') is reported as an error. */
  function Launched(args: seq<string>, outfile: Option<string>, paths: seq<string>,
                    executable: string -> bool): seq<Event>
  {
    if args == [] then [ErrorMessage]
    else match FirstExecutable(paths, args[0], executable)
      case None => [ErrorMessage]
      case Some(program) => [Spawned(program, args, outfile)]
  }

  /** The command a non-empty '&'-segment gives: none when it holds no token, an error when
      it holds too many for argv. */
  function CommandOf(segment: string, interactive: bool): Option<Command> {
    var tokens := Tokens(segment);
    if tokens == [] then None
    else if |tokens| >= MaxTokens then Some(Error)
    else Some(Interpret(tokens, interactive))
  }

  /** The outer parsing loop over the segments still to run: events, the final search list,
      and whether exit stopped the line. */
  function RunSegments(segments: seq<string>, paths: seq<string>, interactive: bool,
                       chdirOk: string -> bool, executable: string -> bool):
    (r: (seq<Event>, seq<string>, bool))
    ensures |r.0| <= |segments|
    decreases |segments|
  {
    if segments == [] then ([], paths, false)
    else match CommandOf(segments[0], interactive)
      case None => RunSegments(segments[1..], paths, interactive, chdirOk, executable)
      case Some(c) =>
        if c == Exit then ([], paths, true)
        else
          var a := Apply(c, paths, chdirOk, executable);
          Continue(a.0, RunSegments(segments[1..], a.1, interactive, chdirOk, executable))
  }

  /** Some command of the segments is a bare exit. */
  ghost predicate HasExit(segments: seq<string>) {
    exists k :: 0 <= k < |segments| && Tokens(segments[k]) == ["exit"]
  }

  lemma HasExitCons(segments: seq<string>)
    requires segments != []
    ensures HasExit(segments) <==> Tokens(segments[0]) == ["exit"] || HasExit(segments[1..])
  {
    if HasExit(segments[1..]) {
      var k :| 0 <= k < |segments[1..]| && Tokens(segments[1..][k]) == ["exit"];
      assert Tokens(segments[k + 1]) == ["exit"];
    }
    if HasExit(segments) {
      var k :| 0 <= k < |segments| && Tokens(segments[k]) == ["exit"];
      if k > 0 {
        assert Tokens(segments[1..][k - 1]) == ["exit"];
      }
    }
  }

  /** A segment's command is exit exactly when its tokens are the single word exit. */
  lemma ExitCommand(segment: string, interactive: bool)
    ensures CommandOf(segment, interactive) == Some(Exit) <==> Tokens(segment) == ["exit"]
  {
    var tokens := Tokens(segment);
    if tokens != [] && |tokens| < MaxTokens {
      BuiltinChecks(tokens, interactive);
    }
  }

  /** A line stops the shell exactly when one of its commands is a bare exit. */
  lemma {:induction false} ExitStops(segments: seq<string>, paths: seq<string>, interactive: bool,
                                     chdirOk: string -> bool, executable: string -> bool)
    ensures RunSegments(segments, paths, interactive, chdirOk, executable).2 <==> HasExit(segments)
    decreases |segments|
  {
    if segments != [] {
      var c := CommandOf(segments[0], interactive);
      ExitCommand(segments[0], interactive);
      HasExitCons(segments);
      var paths' := if c.Some? then Apply(c.value, paths, chdirOk, executable).1 else paths;
      ExitStops(segments[1..], paths', interactive, chdirOk, executable);
    }
  }

  /** Only path commands change the search list. */
  lemma {:induction false} PathOnlyByPath(segments: seq<string>, paths: seq<string>, interactive: bool,
                                          chdirOk: string -> bool, executable: string -> bool)
    requires forall k :: 0 <= k < |segments| ==> Tokens(segments[k]) == [] || Tokens(segments[k])[0] != "path"
    ensures RunSegments(segments, paths, interactive, chdirOk, executable).1 == paths
    decreases |segments|
  {
    if segments != [] {
      PathOnlyByPath(segments[1..], paths, interactive, chdirOk, executable);
      NotSetPath(segments[0], interactive);
    }
  }

  /** A command whose first token is not path does not set the search list. */
  lemma NotSetPath(segment: string, interactive: bool)
    requires Tokens(segment) == [] || Tokens(segment)[0] != "path"
    ensures CommandOf(segment, interactive).None? || !CommandOf(segment, interactive).value.SetPath?
  {
  }

  /** The outcome of a line once events have been written and rest is left for strsep. */
  ghost function Outcome(events: seq<Event>, rest: Option<string>, paths: seq<string>, interactive: bool,
                         chdirOk: string -> bool, executable: string -> bool): (seq<Event>, seq<string>, bool)
  {
    Continue(events, RunSegments(Remaining(rest, '&'), paths, interactive, chdirOk, executable))
  }

  /** The '&' loop of Shell.c on one line: prep_line, then strsep at '&', running each
      command until exit. */
  method RunLine(line: string, interactive: bool, sp: SearchPath,
                 chdirOk: string -> bool, executable: string -> bool)
      returns (events: seq<Event>, exit: bool)
    requires '\0' !in line && |Prep(line)| < TempSize && sp.Valid()
    modifies sp, sp.paths
    ensures sp.Valid()
    ensures (events, sp.Current(), exit) ==
      RunSegments(Segments(Prep(line)), old(sp.Current()), interactive, chdirOk, executable)
  {
    var prepared := PrepLine(line);
    ghost var goal := RunSegments(Segments(prepared), sp.Current(), interactive, chdirOk, executable);
    events, exit := [], false;
    var rest: Option<string> := Some(prepared);
    assert Remaining(rest, '&') == Segments(prepared);
    assert [] + goal.0 == goal.0;
    while rest.Some?
      invariant sp.Valid()
      invariant goal == Outcome(events, rest, sp.Current(), interactive, chdirOk, executable)
      decreases if rest.Some? then |rest.value| + 1 else 0
    {
      var stop;
      rest, events, stop := RunSegment(rest.value, events, interactive, sp, chdirOk, executable);
      if stop {
        return events, true;
      }
    }
    assert events + [] == events;
  }

  /** One turn of the '&' loop: strsep takes the next segment off rest; an empty one is
      skipped, any other is run. stop is set by exit. */
  method RunSegment(rest: string, events: seq<Event>, interactive: bool, sp: SearchPath,
                    chdirOk: string -> bool, executable: string -> bool)
      returns (next: Option<string>, events': seq<Event>, stop: bool)
    requires sp.Valid()
    modifies sp, sp.paths
    ensures sp.Valid()
    ensures next.Some? ==> |next.value| < |rest|
    ensures stop ==> (Outcome(events, Some(rest), old(sp.Current()), interactive, chdirOk, executable) ==
      (events', sp.Current(), true))
    ensures !stop ==> (Outcome(events, Some(rest), old(sp.Current()), interactive, chdirOk, executable) ==
      Outcome(events', next, sp.Current(), interactive, chdirOk, executable))
  {
    var segment := Strsep(rest, '&').0;
    next := Strsep(rest, '&').1;
    ghost var paths := sp.Current();
    if segment == [] {
      SegmentSkipped(rest, events, paths, interactive, chdirOk, executable);
      return next, events, false;
    }
    var e;
    e, stop := RunCommand(segment, interactive, sp, chdirOk, executable);
    if stop {
      SegmentExit(rest, events, paths, interactive, chdirOk, executable);
      return next, events, true;
    }
    match CommandOf(segment, interactive) {
      case None =>
        SegmentSkipped(rest, events, paths, interactive, chdirOk, executable);
        assert events + e == events;
      case Some(c) =>
        SegmentRun(rest, events, paths, interactive, chdirOk, executable, c);
    }
    events' := events + e;
  }

  /** An empty segment, or one without tokens, changes nothing. */
  lemma SegmentSkipped(rest: string, events: seq<Event>, paths: seq<string>, interactive: bool,
                       chdirOk: string -> bool, executable: string -> bool)
    requires Strsep(rest, '&').0 == [] || CommandOf(Strsep(rest, '&').0, interactive).None?
    ensures Outcome(events, Some(rest), paths, interactive, chdirOk, executable) ==
      Outcome(events, Strsep(rest, '&').1, paths, interactive, chdirOk, executable)
  {
    var (segment, next) := Strsep(rest, '&');
    StrsepStep(rest, '&');
    if segment != [] {
      RunSegmentsCons(segment, Remaining(next, '&'), paths, interactive, chdirOk, executable);
    } else {
      assert Remaining(Some(rest), '&') == Remaining(next, '&');
    }
  }

  /** The remaining segments when the next strsep piece is not empty. */
  lemma SegmentNext(rest: string)
    requires Strsep(rest, '&').0 != []
    ensures Remaining(Some(rest), '&') == [Strsep(rest, '&').0] + Remaining(Strsep(rest, '&').1, '&')
  {
    StrsepStep(rest, '&');
  }

  /** exit in a segment ends the line with the events so far. */
  lemma SegmentExit(rest: string, events: seq<Event>, paths: seq<string>, interactive: bool,
                    chdirOk: string -> bool, executable: string -> bool)
    requires Strsep(rest, '&').0 != [] && CommandOf(Strsep(rest, '&').0, interactive) == Some(Exit)
    ensures Outcome(events, Some(rest), paths, interactive, chdirOk, executable) == (events, paths, true)
  {
    var (segment, next) := Strsep(rest, '&');
    SegmentNext(rest);
    RunSegmentsCons(segment, Remaining(next, '&'), paths, interactive, chdirOk, executable);
    assert events + [] == events;
  }

  /** Any other command in a segment adds its events and leaves the search list as it says. */
  lemma SegmentRun(rest: string, events: seq<Event>, paths: seq<string>, interactive: bool,
                   chdirOk: string -> bool, executable: string -> bool, c: Command)
    requires Strsep(rest, '&').0 != [] && CommandOf(Strsep(rest, '&').0, interactive) == Some(c) && c != Exit
    ensures Outcome(events, Some(rest), paths, interactive, chdirOk, executable) ==
      Outcome(events + Apply(c, paths, chdirOk, executable).0, Strsep(rest, '&').1,
              Apply(c, paths, chdirOk, executable).1, interactive, chdirOk, executable)
  {
    var segment, next := Strsep(rest, '&').0, Strsep(rest, '&').1;
    SegmentNext(rest);
    RunSegmentsCons(segment, Remaining(next, '&'), paths, interactive, chdirOk, executable);
    var a := Apply(c, paths, chdirOk, executable);
    ContinueAppend(events, a.0, RunSegments(Remaining(next, '&'), a.1, interactive, chdirOk, executable));
  }

  lemma ContinueAppend(events: seq<Event>, more: seq<Event>, r: (seq<Event>, seq<string>, bool))
    ensures Continue(events, Continue(more, r)) == Continue(events + more, r)
  {
    assert events + (more + r.0) == (events + more) + r.0;
  }

  /** The outer loop's view of one more segment. */
  lemma RunSegmentsCons(segment: string, rest: seq<string>, paths: seq<string>, interactive: bool,
                        chdirOk: string -> bool, executable: string -> bool)
    ensures RunSegments([segment] + rest, paths, interactive, chdirOk, executable) ==
      match CommandOf(segment, interactive)
      case None => RunSegments(rest, paths, interactive, chdirOk, executable)
      case Some(c) =>
        if c == Exit then ([], paths, true)
        else
          Continue(Apply(c, paths, chdirOk, executable).0,
                   RunSegments(rest, Apply(c, paths, chdirOk, executable).1, interactive, chdirOk, executable))
  {
    assert ([segment] + rest)[1..] == rest;
  }

  /** Events so far followed by the outcome of the rest. */
  function Continue(events: seq<Event>, r: (seq<Event>, seq<string>, bool)): (seq<Event>, seq<string>, bool) {
    (events + r.0, r.1, r.2)
  }

  /** One '&'-segment: tokenise, then exit, a built-in, or lookup and launch. */
  method RunCommand(segment: string, interactive: bool, sp: SearchPath,
                    chdirOk: string -> bool, executable: string -> bool)
      returns (events: seq<Event>, stop: bool)
    requires sp.Valid()
    modifies sp, sp.paths
    ensures sp.Valid()
    ensures stop <==> CommandOf(segment, interactive) == Some(Exit)
    ensures stop ==> events == [] && sp.Current() == old(sp.Current())
    ensures !stop ==> CommandOf(segment, interactive).None? ==> events == [] && sp.Current() == old(sp.Current())
    ensures !stop ==> CommandOf(segment, interactive).Some? ==>
      (events, sp.Current()) == Apply(CommandOf(segment, interactive).value, old(sp.Current()), chdirOk, executable)
  {
    var argv, count := Tokenize(segment);
    if count == -1 {
      return [ErrorMessage], false;
    }
    if count == 0 {
      return [], false;
    }
    var tokens := argv[..count];
    if tokens[0] == "exit" {
      if count != 1 {
        return [ErrorMessage], false;
      }
      return [], true;
    }
    if tokens[0] == "cd" {
      if count != 2 || !chdirOk(tokens[1]) {
        return [ErrorMessage], false;
      }
      return [ChangedDir(tokens[1])], false;
    }
    if tokens[0] == "path" {
      sp.Replace(tokens, interactive);
      return [], false;
    }
    BuiltinChecks(tokens, interactive);
    events := RunExternal(tokens, interactive, sp, executable);
    stop := false;
  }

  /** A command that is not a built-in: the redirect checks, the cut of argv at '>', and the
      lookup of argv[0] along the search list. */
  method RunExternal(tokens: seq<string>, interactive: bool, sp: SearchPath, executable: string -> bool)
      returns (events: seq<Event>)
    requires |tokens| > 0 && tokens[0] != "exit" && tokens[0] != "cd" && tokens[0] != "path"
    requires sp.Valid()
    ensures events == match Interpret(tokens, interactive)
      case Launch(args, outfile) => Launched(args, outfile, sp.Current(), executable)
      case _ => [ErrorMessage]
  {
    var redirectIndex, outfile := FindRedirect(tokens);
    if redirectIndex == -2 {
      return [ErrorMessage];
    }
    if redirectIndex != -1 && |tokens| > redirectIndex + 2 {
      return [ErrorMessage];
    }
    var args := if redirectIndex != -1 then tokens[..redirectIndex] else tokens;
    if args == [] {
      return [ErrorMessage];
    }
    var resolved := Resolve(sp, args[0], executable);
    if resolved.None? {
      return [ErrorMessage];
    }
    return [Spawned(resolved.value, args, outfile)];
  }
}

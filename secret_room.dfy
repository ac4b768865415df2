// The secret room (secretRoom.js): the asset-load counter that releases the
// intro dialogue once, pause, and the two riddles asked at the skull throne
// with one second chance: a wrong answer brings a demon attack and a retry,
// a second wrong answer the pull into the pentagram, and the right answers
// the revelation, which runs once. The timers between the steps are
// collapsed into explicit events (a follow-up riddle that is due, the end
// of a demon attack).
module SecretRoom {
  import opened Text
  import opened RiddleAnswer

  /** Where a riddle sits in the throne's sequence of callbacks. */
  datatype Stage =
    | FirstAsk          // riddle 0, pressed E at the throne
    | SecondAfterRight  // riddle 1 after riddle 0 was right
    | SecondRetry       // riddle 1 again, after it was wrong and the demon attacked
    | SecondAfterWrong  // riddle 1 after riddle 0 was wrong and the demon attacked
    | FirstRetry        // riddle 0 again, after riddle 1 was then right

  function RiddleOf(st: Stage): (i: nat)
    ensures i < |Riddles|
  {
    match st
    case FirstAsk => 0
    case SecondAfterRight => 1
    case SecondRetry => 1
    case SecondAfterWrong => 1
    case FirstRetry => 0
  }

  datatype Phase =
    | Idle
    | Pending(stage: Stage)       // a riddle is due once its delay ends
    | Asking(stage: Stage)        // the modal shows the riddle
    | DemonAttack(next: Stage)    // the riddle that follows the attack
    | Done                        // right answers: the truth is revealed
    | Pulled                      // a second wrong answer: the pentagram pull

  /** The riddle flow with firstRiddleCompleted and secondRiddleCompleted. */
  datatype Session = Session(phase: Phase, first: bool, second: bool)

  /** The onCorrect/onWrong callbacks of the riddle being answered. */
  function Answer(s: Session, correct: bool): Session
    requires s.phase.Asking?
  {
    match s.phase.stage
    case FirstAsk =>
      if correct then s.(first := true, phase := if s.second then Done else Pending(SecondAfterRight))
      else s.(phase := DemonAttack(SecondAfterWrong))
    case SecondAfterRight =>
      if correct then s.(second := true, phase := Done) else s.(phase := DemonAttack(SecondRetry))
    case SecondRetry =>
      if correct then s.(second := true, phase := Done) else s.(phase := Pulled)
    case SecondAfterWrong =>
      if correct then s.(second := true, phase := Pending(FirstRetry)) else s.(phase := Pulled)
    case FirstRetry =>
      if correct then s.(first := true, phase := Done) else s.(phase := Pulled)
  }

  /** The attack's callback asks the next riddle only while riddle 1 is still open. */
  function AttackOver(s: Session): Session
    requires s.phase.DemonAttack?
  {
    if s.second then s.(phase := Idle) else s.(phase := Pending(s.phase.next))
  }

  /** The flow with no pause in between: attacks end and due riddles get asked. */
  function Settle(s: Session): Session
  {
    var t := if s.phase.DemonAttack? then AttackOver(s) else s;
    if t.phase.Pending? then t.(phase := Asking(t.phase.stage)) else t
  }

  /** Answers given one after another, from a session that shows a riddle. */
  function Play(s: Session, answers: seq<bool>): Session
    decreases |answers|
  {
    if answers == [] || !s.phase.Asking? then s
    else Play(Settle(Answer(s, answers[0])), answers[1..])
  }

  function Wrongs(answers: seq<bool>): nat
  {
    if answers == [] then 0 else (if answers[0] then 0 else 1) + Wrongs(answers[1..])
  }

  const Start := Session(Asking(FirstAsk), false, false)

  /**
   * One second chance: within three answers the session ends, with the
   * truth when at most one was wrong and with the pull when two were.
   */
  lemma {:induction false} OneSecondChance(answers: seq<bool>)
    requires |answers| == 3
    ensures Play(Start, answers).phase == Done <==> Wrongs(answers) <= 1
    ensures Play(Start, answers).phase == Pulled <==> Wrongs(answers) >= 2
  {
    var a, b, c := answers[0], answers[1], answers[2];
    assert answers[1..] == [b, c] && [b, c][1..] == [c] && [c][1..] == [];
    assert Wrongs([c]) == (if c then 0 else 1) + Wrongs([]);
    assert Wrongs([b, c]) == (if b then 0 else 1) + Wrongs([c]);
    assert Wrongs(answers) == (if a then 0 else 1) + Wrongs([b, c]);
    var s1 := Settle(Answer(Start, a));
    assert s1.phase == Asking(if a then SecondAfterRight else SecondAfterWrong);
    var s2 := Settle(Answer(s1, b));
    assert Play(Start, answers) == Play(s2, [c]);
    if a && b {
      assert s2.phase == Done;
    } else if a || b {
      assert s2.phase == Asking(if a then SecondRetry else FirstRetry);
      assert Play(s2, [c]) == Play(Settle(Answer(s2, c)), []);
    } else {
      assert s2.phase == Pulled;
    }
  }

  /** A first wrong answer brings the demon, never the pull. */
  lemma FirstWrongIsForgiven(s: Session)
    requires s.phase.Asking? && s.phase.stage in {FirstAsk, SecondAfterRight}
    ensures Answer(s, false).phase.DemonAttack?
  {
  }

  class SecretRoomLevel {
    var assetsLoaded: int
    var totalAssets: int
    var allAssetsLoaded: bool
    var introShown: bool
    ghost var introRuns: nat
    var isPaused: bool
    var isGameOver: bool
    var truthRevealed: bool
    ghost var revealRuns: nat
    var riddleActive: bool
    var session: Session
    var pullingToHell: bool

    /** The intro and the revelation each run at most once, the intro only after loading. */
    ghost predicate Valid()
      reads this
    {
      && (introShown <==> introRuns == 1) && introRuns <= 1
      && (introShown ==> allAssetsLoaded)
      && (truthRevealed <==> revealRuns == 1) && revealRuns <= 1
      && (riddleActive ==> session.phase.Asking?)
    }

    constructor ()
      ensures Valid()
      ensures assetsLoaded == 0 && totalAssets == 0 && !allAssetsLoaded && !introShown
      ensures !isPaused && !isGameOver && !truthRevealed && !riddleActive && !pullingToHell
      ensures session == Session(Idle, false, false)
    {
      assetsLoaded, totalAssets, allAssetsLoaded := 0, 0, false;
      introShown, introRuns := false, 0;
      isPaused, isGameOver := false, false;
      truthRevealed, revealRuns := false, 0;
      riddleActive, session, pullingToHell := false, Session(Idle, false, false), false;
    }

    /** trackAssetLoading(): one more asset to wait for. */
    method TrackAssetLoading()
      modifies this
      ensures totalAssets == old(totalAssets) + 1
      ensures assetsLoaded == old(assetsLoaded) && allAssetsLoaded == old(allAssetsLoaded) && introShown == old(introShown)
    {
      totalAssets := totalAssets + 1;
    }

    /** triggerIntroDialogue(): only once, and only after loading. */
    method TriggerIntroDialogue()
      requires Valid()
      modifies this
      ensures Valid()
      ensures introShown == (old(introShown) || allAssetsLoaded)
      ensures allAssetsLoaded == old(allAssetsLoaded) && assetsLoaded == old(assetsLoaded) && totalAssets == old(totalAssets)
      ensures truthRevealed == old(truthRevealed) && session == old(session) && isPaused == old(isPaused)
    {
      if introShown || !allAssetsLoaded {
        return;
      }
      introShown := true;
      introRuns := introRuns + 1;
    }

    /** assetLoaded(): the count reaching the total releases the intro, once. */
    method AssetLoaded()
      requires Valid()
      modifies this
      ensures Valid()
      ensures assetsLoaded == old(assetsLoaded) + 1 && totalAssets == old(totalAssets)
      ensures allAssetsLoaded == (old(allAssetsLoaded) || assetsLoaded >= totalAssets)
      ensures introShown == (old(introShown) || (!old(allAssetsLoaded) && assetsLoaded >= totalAssets))
      ensures truthRevealed == old(truthRevealed) && session == old(session) && isPaused == old(isPaused)
    {
      assetsLoaded := assetsLoaded + 1;
      if assetsLoaded >= totalAssets && !allAssetsLoaded {
        allAssetsLoaded := true;
        TriggerIntroDialogue();
      }
    }

    /** revealTheTruth(): its sequence runs at most once. */
    method RevealTheTruth()
      requires Valid()
      modifies this
      ensures Valid()
      ensures truthRevealed
      ensures revealRuns == (if old(truthRevealed) then old(revealRuns) else old(revealRuns) + 1)
      ensures session == old(session) && riddleActive == old(riddleActive) && isPaused == old(isPaused)
      ensures introShown == old(introShown) && allAssetsLoaded == old(allAssetsLoaded) && pullingToHell == old(pullingToHell)
      ensures isGameOver == old(isGameOver)
    {
      if truthRevealed {
        return;
      }
      truthRevealed := true;
      revealRuns := revealRuns + 1;
    }

    /** The Escape / p shortcut: resume when paused, pause unless the game is over. */
    method TogglePause(key: string)
      requires Valid()
      modifies this
      ensures Valid()
      ensures key != "Escape" && key != "p" ==> isPaused == old(isPaused)
      ensures (key == "Escape" || key == "p") && old(isPaused) ==> !isPaused
      ensures (key == "Escape" || key == "p") && !old(isPaused) ==> isPaused == !isGameOver
      ensures isGameOver == old(isGameOver) && session == old(session) && riddleActive == old(riddleActive)
      ensures truthRevealed == old(truthRevealed) && introShown == old(introShown)
    {
      if key == "Escape" || key == "p" {
        if isPaused {
          isPaused := false;
        } else if !isGameOver {
          isPaused := true;
        }
      }
    }

    /**
     * E at the throne: ignored while paused, after game over, during an
     * attack, while the first riddle is open or during the pull; near the
     * throne it asks riddle 0.
     */
    method PressE(key: string, nearThrone: bool)
      requires Valid()
      modifies this
      ensures Valid()
      ensures var starts := !old(isPaused) && !old(isGameOver) && !old(session).phase.DemonAttack?
                            && LowerCase(key) == "e" && !old(riddleActive) && !old(pullingToHell) && nearThrone
                            && old(session).phase in {Idle, Done};
              && (starts ==> riddleActive && session == old(session).(phase := Asking(FirstAsk)))
              && (!starts ==> riddleActive == old(riddleActive) && session == old(session))
      ensures isPaused == old(isPaused) && truthRevealed == old(truthRevealed) && pullingToHell == old(pullingToHell)
    {
      if isPaused || isGameOver || session.phase.DemonAttack? {
        return;
      }
      if LowerCase(key) != "e" || riddleActive || pullingToHell {
        return;
      }
      if nearThrone && session.phase in {Idle, Done} {
        riddleActive := true;
        session := session.(phase := Asking(FirstAsk));
      }
    }

    /** askRiddle() for a riddle that is due: dropped while paused or during an attack. */
    method AskDueRiddle()
      requires Valid() && session.phase.Pending?
      modifies this
      ensures Valid()
      ensures old(isPaused) ==> session == old(session).(phase := Idle)
      ensures !old(isPaused) ==> session == old(session).(phase := Asking(old(session).phase.stage))
      ensures riddleActive == old(riddleActive) && isPaused == old(isPaused) && truthRevealed == old(truthRevealed)
    {
      if isPaused {
        session := session.(phase := Idle);
        return;
      }
      session := session.(phase := Asking(session.phase.stage));
    }

    /** The end of startDemonAttackSequence: its callback. */
    method DemonAttackEnds()
      requires Valid() && session.phase.DemonAttack?
      modifies this
      ensures Valid()
      ensures session == AttackOver(old(session))
      ensures riddleActive == old(riddleActive) && isPaused == old(isPaused) && truthRevealed == old(truthRevealed)
    {
      session := AttackOver(session);
    }

    /**
     * The submit handler: closes the riddle, then runs exactly one of its
     * callbacks, according to the answer check.
     */
    method Submit(answer: string)
      requires Valid() && session.phase.Asking?
      modifies this
      ensures Valid()
      ensures !riddleActive
      ensures var correct := AnswerCorrect(answer, Riddles[RiddleOf(old(session).phase.stage)].1);
              session == Answer(old(session), correct)
      ensures truthRevealed == (old(truthRevealed) || session.phase == Done)
      ensures pullingToHell == (old(pullingToHell) || session.phase == Pulled)
      ensures isPaused == old(isPaused) && isGameOver == old(isGameOver)
    {
      riddleActive := false;
      var correct := AnswerCorrect(answer, Riddles[RiddleOf(session.phase.stage)].1);
      session := Answer(session, correct);
      if session.phase == Done {
        RevealTheTruth();
      } else if session.phase == Pulled {
        pullingToHell := true;
      }
    }
  }
}

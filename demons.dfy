// The work-in-progress secret room (workInProgress.js): demon statues whose
// userData (active, health, attacksDone, lastAttackAt) is changed in place,
// the list demonStatues they are spliced out of, the throne riddles with
// the shared answer check, and restartGame. Rendering, movement and the
// raycast are outside the model: the demon that was clicked or that
// reached the player is an argument, and so is the random pick.
module Demons {
  import opened Optional
  import opened Text
  import opened RiddleAnswer

  const FullHealth: int := 3
  /** Milliseconds between two attacks of one demon (userData.attackCooldown). */
  const AttackCooldown: real := 900.0
  /** After this many attacks the demon stops and a riddle appears. */
  const AttacksToStagger: int := 5

  /** What the submitRiddle handlers of one submission do together. */
  datatype Verdict = Verdict(opens: bool, pulls: bool, wakes: bool)

  /** Which riddles the answer is right for, riddle by riddle. */
  function Rights(answer: string): (r: seq<bool>)
    ensures |r| == |Riddles| && r[0] == AnswerCorrect(answer, Riddles[0].1) && r[1] == AnswerCorrect(answer, Riddles[1].1)
  {
    [AnswerCorrect(answer, Riddles[0].1), AnswerCorrect(answer, Riddles[1].1)]
  }

  /**
   * The submitRiddle handlers registered for the riddles in pending, run in
   * registration order on one answer (right[k]: the answer is right for
   * riddle k): each checks its own riddle; a right one opens the door, a
   * wrong one to riddle 0 wakes a demon and a wrong one to riddle 1 starts
   * the pentagram pull.
   */
  function Handlers(pending: seq<nat>, right: seq<bool>): (v: Verdict)
    requires forall i :: 0 <= i < |pending| ==> pending[i] < |right|
    ensures v.opens <==> exists i :: 0 <= i < |pending| && right[pending[i]]
    ensures v.pulls <==> 1 in pending && 1 < |right| && !right[1]
    ensures v.wakes <==> 0 in pending && 0 < |right| && !right[0]
    decreases |pending|
  {
    if pending == [] then Verdict(false, false, false)
    else
      var n := |pending| - 1;
      var v := Handlers(pending[..n], right);
      var k := pending[n];
      assert forall j :: j in pending <==> j in pending[..n] || j == k;
      assert forall i :: 0 <= i < n ==> pending[..n][i] == pending[i];
      Verdict(v.opens || right[k], v.pulls || (!right[k] && k == 1), v.wakes || (!right[k] && k == 0))
  }

  /** With one handler registered, a submission has exactly one of the three effects. */
  lemma OneHandlerOneEffect(k: nat, right: seq<bool>)
    requires k < |Riddles| && k < |right|
    ensures var v := Handlers([k], right);
            (v.opens && !v.pulls && !v.wakes) || (!v.opens && v.pulls && !v.wakes) || (!v.opens && !v.pulls && v.wakes)
  {
    assert [k][..0] == [];
    assert forall j :: j in [k] <==> j == k;
  }

  /**
   * A handler for riddle 1 that is still registered when E opens riddle 0
   * also runs: an answer right for riddle 0 and wrong for riddle 1 opens the
   * door and starts the pull in the same submission.
   */
  lemma StaleHandlerFires(answer: string)
    requires AnswerCorrect(answer, Riddles[0].1) && !AnswerCorrect(answer, Riddles[1].1)
    ensures Handlers([1, 0], Rights(answer)).opens && Handlers([1, 0], Rights(answer)).pulls
  {
    assert [1, 0][1] == 0;
    assert 1 in [1, 0];
  }

  class Demon {
    var active: bool
    var health: int
    var attacksDone: int
    var lastAttackAt: real

    /** makeDemon(): a dormant statue. */
    constructor ()
      ensures !active && health == FullHealth && attacksDone == 0 && lastAttackAt == 0.0
    {
      active, health, attacksDone, lastAttackAt := false, FullHealth, 0, 0.0;
    }
  }

  class DemonLevel {
    var demons: seq<Demon>         // demonStatues
    var isPaused: bool
    var isGameOver: bool
    var riddleActive: bool
    var riddleShown: Option<nat>   // the riddle in the modal, if any
    var listeners: seq<nat>        // riddles of the submitRiddle handlers still registered, oldest first
    var pullingToHell: bool
    var doorOpening: bool

    /**
     * Every statue has at most full health and at most five attacks; an
     * active one is alive and has not yet staggered the player.
     */
    ghost predicate Valid()
      reads this, demons
    {
      && (forall d :: d in demons ==> d.health <= FullHealth && 0 <= d.attacksDone <= AttacksToStagger)
      && (forall d :: d in demons && d.active ==> d.health > 0 && d.attacksDone < AttacksToStagger)
      && (forall i :: 0 <= i < |listeners| ==> listeners[i] < |Riddles|)
      && (riddleShown.Some? ==> listeners != [] && riddleShown.value == listeners[|listeners| - 1])
    }

    constructor (statues: seq<Demon>)
      requires forall d :: d in statues ==> !d.active && d.health == FullHealth && d.attacksDone == 0
      ensures Valid()
      ensures demons == statues && !isPaused && !isGameOver && !riddleActive && riddleShown == None && listeners == []
      ensures !pullingToHell && !doorOpening
    {
      demons := statues;
      isPaused, isGameOver, riddleActive, riddleShown := false, false, false, None;
      listeners := [];
      pullingToHell, doorOpening := false, false;
    }

    /**
     * askRiddle(index): ignored while paused; otherwise the modal shows the
     * riddle and one more submitRiddle handler is registered for it, beside
     * any earlier one that has not run yet.
     */
    method AskRiddle(index: nat)
      requires Valid() && index < |Riddles|
      modifies this
      ensures Valid()
      ensures riddleShown == (if old(isPaused) then old(riddleShown) else Some(index))
      ensures listeners == (if old(isPaused) then old(listeners) else old(listeners) + [index])
      ensures demons == old(demons) && isPaused == old(isPaused) && riddleActive == old(riddleActive)
      ensures pullingToHell == old(pullingToHell) && doorOpening == old(doorOpening) && isGameOver == old(isGameOver)
    {
      if isPaused {
        return;
      }
      riddleShown := Some(index);
      listeners := listeners + [index];
    }

    /** The Cancel button: hides the modal; the registered handlers stay. */
    method CancelRiddle()
      requires Valid()
      modifies this
      ensures Valid()
      ensures riddleShown == None && !riddleActive && listeners == old(listeners)
      ensures demons == old(demons) && isPaused == old(isPaused) && pullingToHell == old(pullingToHell)
      ensures doorOpening == old(doorOpening) && isGameOver == old(isGameOver)
    {
      riddleShown := None;
      riddleActive := false;
    }

    /**
     * A click on demon d: ignored while paused or during the pull, and on a
     * dormant demon; an active one loses one health, and is killed at zero.
     */
    method HitDemon(d: Demon)
      requires Valid() && d in demons
      modifies d
      ensures Valid()
      ensures isPaused || pullingToHell || !old(d.active) ==> d.health == old(d.health) && d.active == old(d.active)
      ensures !isPaused && !pullingToHell && old(d.active) ==> d.health == old(d.health) - 1 && d.active == (d.health > 0)
      ensures d.attacksDone == old(d.attacksDone) && d.lastAttackAt == old(d.lastAttackAt)
    {
      if isPaused || pullingToHell || !d.active {
        return;
      }
      d.health := d.health - 1;
      if d.health <= 0 {
        d.active := false;  // killDemon(); the statue shrinks, then RemoveKilledDemon
      }
    }

    /** demonStatues.indexOf(d). */
    method IndexOf(d: Demon) returns (idx: int)
      ensures -1 <= idx < |demons|
      ensures idx >= 0 ==> demons[idx] == d && forall j :: 0 <= j < idx ==> demons[j] != d
      ensures idx == -1 ==> d !in demons
    {
      idx := 0;
      while idx < |demons|
        invariant 0 <= idx <= |demons|
        invariant forall j :: 0 <= j < idx ==> demons[j] != d
      {
        if demons[idx] == d {
          return;
        }
        idx := idx + 1;
      }
      idx := -1;
    }

    /**
     * The end of killDemon's shrink: exactly that demon leaves
     * demonStatues (its first occurrence), and riddle 1 is asked.
     */
    method RemoveKilledDemon(d: Demon)
      requires Valid()
      modifies this
      ensures Valid()
      ensures d !in old(demons) ==> demons == old(demons)
      ensures d in old(demons) ==>
                exists i :: 0 <= i < |old(demons)| && old(demons)[i] == d && d !in old(demons)[..i]
                            && demons == old(demons)[..i] + old(demons)[i + 1..]
      ensures riddleShown == (if old(isPaused) then old(riddleShown) else Some(1))
      ensures isPaused == old(isPaused) && pullingToHell == old(pullingToHell) && doorOpening == old(doorOpening)
    {
      var idx := IndexOf(d);
      if idx >= 0 {
        assert d !in demons[..idx];
        demons := demons[..idx] + demons[idx + 1..];
      }
      AskRiddle(1);
    }

    /**
     * A demon within reach attacks, at most once per cooldown; the fifth
     * attack deactivates it and asks riddle 1.
     */
    method DemonAttack(d: Demon, now: real)
      requires Valid() && d in demons && d.active
      modifies this, d
      ensures Valid()
      ensures now - old(d.lastAttackAt) <= AttackCooldown ==>
                d.attacksDone == old(d.attacksDone) && d.active && d.lastAttackAt == old(d.lastAttackAt)
      ensures now - old(d.lastAttackAt) > AttackCooldown ==>
                d.attacksDone == old(d.attacksDone) + 1 && d.lastAttackAt == now
                && d.active == (d.attacksDone < AttacksToStagger)
      ensures d.active || (riddleShown == if isPaused then old(riddleShown) else Some(1))
      ensures d.health == old(d.health) && demons == old(demons)
    {
      if now - d.lastAttackAt > AttackCooldown {
        d.lastAttackAt := now;
        d.attacksDone := d.attacksDone + 1;
        if d.attacksDone >= AttacksToStagger {
          d.active := false;
          AskRiddle(1);
        }
      }
    }

    /** The statues not yet awake (demonStatues.filter(d => !d.userData.active)). */
    method Dormant() returns (r: seq<Demon>)
      ensures forall d :: d in r <==> d in demons && !d.active
    {
      r := [];
      var i := 0;
      while i < |demons|
        invariant 0 <= i <= |demons|
        invariant forall d :: d in r <==> d in demons[..i] && !d.active
      {
        assert demons[..i + 1] == demons[..i] + [demons[i]];
        if !demons[i].active {
          r := r + [demons[i]];
        }
        i := i + 1;
      }
      assert demons[..i] == demons;
    }

    /**
     * awakenDemon(): with statues present, wakes a dormant one (the random
     * pick chooses which) or, when all are awake, the first; it becomes
     * active with full health and no attacks.
     */
    method AwakenDemon(pick: nat) returns (woken: Option<Demon>)
      requires Valid()
      modifies demons
      ensures Valid()
      ensures woken.None? <==> demons == []
      ensures woken.Some? ==>
                && woken.value in demons
                && woken.value.active && woken.value.health == FullHealth && woken.value.attacksDone == 0
                && (old(woken.value.active) ==> woken.value == demons[0] && forall d :: d in demons ==> old(d.active))
      ensures forall d :: d in demons && woken != Some(d) ==>
                d.active == old(d.active) && d.health == old(d.health) && d.attacksDone == old(d.attacksDone)
    {
      if demons == [] {
        return None;
      }
      var candidates := Dormant();
      var demon := if |candidates| > 0 then candidates[pick % |candidates|] else demons[0];
      assert demon in demons;
      demon.active := true;
      demon.health := FullHealth;
      demon.attacksDone := 0;
      demon.lastAttackAt := 0.0;
      woken := Some(demon);
    }

    /** E at the throne: ignored while paused, after game over, with a riddle open or during the pull. */
    method PressE(key: string, nearThrone: bool)
      requires Valid()
      modifies this
      ensures Valid()
      ensures var starts := !old(isPaused) && !old(isGameOver) && LowerCase(key) == "e"
                            && !old(riddleActive) && !old(pullingToHell) && nearThrone;
              && (starts ==> riddleActive && riddleShown == Some(0) && listeners == old(listeners) + [0])
              && (!starts ==> riddleActive == old(riddleActive) && riddleShown == old(riddleShown) && listeners == old(listeners))
      ensures demons == old(demons) && pullingToHell == old(pullingToHell) && doorOpening == old(doorOpening)
    {
      if isPaused || isGameOver {
        return;
      }
      if LowerCase(key) != "e" || riddleActive || pullingToHell {
        return;
      }
      if nearThrone {
        riddleActive := true;
        AskRiddle(0);
      }
    }

    /**
     * One submitRiddle handler, for riddle index: a right answer opens the
     * door; a wrong one to riddle 0 wakes a demon (pick is the random
     * draw), to riddle 1 starts the pentagram pull.
     */
    method RunHandler(index: nat, answer: string, pick: nat)
      requires Valid() && index < |Riddles|
      modifies this, demons
      ensures demons == old(demons) && Valid()
      ensures var right := Rights(answer)[index];
              && doorOpening == (old(doorOpening) || right)
              && pullingToHell == (old(pullingToHell) || (!right && index == 1))
              && (right || index != 0 ==>
                    forall d :: d in demons ==>
                      d.active == old(d.active) && d.health == old(d.health) && d.attacksDone == old(d.attacksDone))
              && (!right && index == 0 && demons != [] ==> exists d :: d in demons && d.active)
      ensures forall d :: d in demons ==>
                (d.active == old(d.active) && d.health == old(d.health) && d.attacksDone == old(d.attacksDone))
                || (d.active && d.health == FullHealth && d.attacksDone == 0)
      ensures forall d :: d in demons && old(d.active) ==> d.active
      ensures listeners == old(listeners) && riddleShown == old(riddleShown)
      ensures riddleActive == old(riddleActive) && isPaused == old(isPaused) && isGameOver == old(isGameOver)
    {
      if Rights(answer)[index] {
        doorOpening := true;  // openDoor()
      } else if index == 0 {
        var _ := AwakenDemon(pick);
      } else {
        pullingToHell := true;  // triggerPentagramPull()
      }
    }

    /**
     * The registered handlers run one after another, oldest first; picks
     * holds one random draw per handler.
     */
    method RunHandlers(answer: string, picks: seq<nat>)
      requires Valid() && |picks| == |listeners|
      modifies this, demons
      ensures demons == old(demons) && Valid()
      ensures listeners == old(listeners) && riddleShown == old(riddleShown) && riddleActive == old(riddleActive)
      ensures var v := Handlers(old(listeners), Rights(answer));
              && doorOpening == (old(doorOpening) || v.opens)
              && pullingToHell == (old(pullingToHell) || v.pulls)
              && (!v.wakes ==>
                    forall d :: d in demons ==>
                      d.active == old(d.active) && d.health == old(d.health) && d.attacksDone == old(d.attacksDone))
              && (v.wakes && demons != [] ==> exists d :: d in demons && d.active)
      ensures forall d :: d in demons ==>
                (d.active == old(d.active) && d.health == old(d.health) && d.attacksDone == old(d.attacksDone))
                || (d.active && d.health == FullHealth && d.attacksDone == 0)
    {
      ghost var right := Rights(answer);
      var i := 0;
      while i < |listeners|
        invariant 0 <= i <= |listeners| && demons == old(demons) && Valid()
        invariant listeners == old(listeners) && riddleShown == old(riddleShown) && riddleActive == old(riddleActive)
        invariant var v := Handlers(listeners[..i], right);
                  && doorOpening == (old(doorOpening) || v.opens)
                  && pullingToHell == (old(pullingToHell) || v.pulls)
                  && (!v.wakes ==>
                        forall d :: d in demons ==>
                          d.active == old(d.active) && d.health == old(d.health) && d.attacksDone == old(d.attacksDone))
                  && (v.wakes && demons != [] ==> exists d :: d in demons && d.active)
        invariant forall d :: d in demons ==>
                    (d.active == old(d.active) && d.health == old(d.health) && d.attacksDone == old(d.attacksDone))
                    || (d.active && d.health == FullHealth && d.attacksDone == 0)
      {
        assert listeners[..i + 1][..i] == listeners[..i];
        RunHandler(listeners[i], answer, picks[i]);
        i := i + 1;
      }
      assert listeners[..i] == listeners;
    }

    /**
     * Submit (the button or Enter): every registered handler runs, each
     * removing itself, hiding the modal and clearing riddleActive.
     */
    method Submit(answer: string, picks: seq<nat>)
      requires Valid() && riddleShown.Some? && |picks| == |listeners|
      modifies this, demons
      ensures demons == old(demons) && Valid()
      ensures !riddleActive && riddleShown == None && listeners == []
      ensures var v := Handlers(old(listeners), Rights(answer));
              && doorOpening == (old(doorOpening) || v.opens)
              && pullingToHell == (old(pullingToHell) || v.pulls)
              && (!v.wakes ==>
                    forall d :: d in demons ==>
                      d.active == old(d.active) && d.health == old(d.health) && d.attacksDone == old(d.attacksDone))
              && (v.wakes && demons != [] ==> exists d :: d in demons && d.active)
      ensures forall d :: d in demons ==>
                (d.active == old(d.active) && d.health == old(d.health) && d.attacksDone == old(d.attacksDone))
                || (d.active && d.health == FullHealth && d.attacksDone == 0)
    {
      riddleShown := None;
      riddleActive := false;
      RunHandlers(answer, picks);
      listeners := [];
    }

    /** The loop of restartGame over demonStatues: every statue dormant, at full health, with no attacks. */
    method ResetStatues()
      requires Valid()
      modifies demons
      ensures Valid()
      ensures forall d :: d in demons ==> !d.active && d.health == FullHealth && d.attacksDone == 0 && d.lastAttackAt == 0.0
    {
      var i := 0;
      while i < |demons|
        invariant 0 <= i <= |demons|
        invariant forall j :: 0 <= j < i ==>
                    !demons[j].active && demons[j].health == FullHealth && demons[j].attacksDone == 0 && demons[j].lastAttackAt == 0.0
        invariant Valid()
      {
        var d := demons[i];
        d.active := false;
        d.health := FullHealth;
        d.attacksDone := 0;
        d.lastAttackAt := 0.0;
        i := i + 1;
      }
    }

    /** restartGame(): clears the flags and puts every listed statue back to sleep at full health. */
    method RestartGame()
      requires Valid()
      modifies this, demons
      ensures Valid()
      ensures !isPaused && !isGameOver && !riddleActive && !pullingToHell && !doorOpening
      ensures demons == old(demons) && riddleShown == old(riddleShown) && listeners == old(listeners)
      ensures forall d :: d in demons ==> !d.active && d.health == FullHealth && d.attacksDone == 0 && d.lastAttackAt == 0.0
    {
      ResetStatues();
      isPaused, isGameOver := false, false;
      riddleActive, pullingToHell := false, false;
      doorOpening := false;
    }
  }
}

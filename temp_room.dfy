// The timed variant of the kitchen level (temp.js): the same cabinet and
// safe, a door keypad that also needs the player near the door, level
// completion without the door-open check, and a five-minute countdown that
// survives a pause. Clock readings (Date.now()) are inputs; the interval
// timer is a flag saying whether it is running.
module TempRoom {
  import opened Optional
  import opened Text
  import opened Keypad
  import Kitchen

  /** TOTAL_TIME, in seconds. */
  const TotalTime: int := 300

  /** How close the player must be to the safe, and to the door. */
  const SafeInteractDistance: real := 2.5
  const DoorInteractDistance: real := 6.0

  /** The countdown: its end (ms), the seconds saved by a pause, the text shown, the interval, localStorage. */
  datatype Timer = Timer(endTime: int, pausedTimeRemaining: Option<int>, text: string,
                         running: bool, storedEndTime: Option<int>)
  datatype Game = Game(isPaused: bool, isGameOver: bool, levelComplete: bool)

  datatype View = View(game: Game, timer: Timer, cabinet: Kitchen.Cabinet, safe: Kitchen.Safe, door: Kitchen.Door)

  /** `Math.max(0, Math.floor((endTime - now) / 1000))`: whole seconds left, never negative. */
  function Remaining(endTime: int, now: int): (r: nat)
    ensures r * 1000 <= (if endTime - now < 0 then 0 else endTime - now) < r * 1000 + 1000
  {
    // Dafny's division by a positive divisor rounds toward minus infinity, as Math.floor does.
    var q := (endTime - now) / 1000;
    if q < 0 then 0 else q
  }

  /** The timer text: two-digit minutes, a colon, two-digit seconds. */
  function Format(remaining: nat): string
  {
    PadTwo(DecimalString(remaining / 60)) + ":" + PadTwo(DecimalString(remaining % 60))
  }

  /**
   * Below 100 minutes the text is "mm:ss", and reading its two fields back
   * gives the remaining seconds.
   */
  lemma FormatRoundTrip(remaining: nat)
    requires remaining < 6000
    ensures var t := Format(remaining);
            && |t| == 5 && t[2] == ':'
            && IsDigits(t[..2]) && IsDigits(t[3..])
            && DecimalValue(t[..2]) * 60 + DecimalValue(t[3..]) == remaining
            && DecimalValue(t[3..]) < 60
  {
    var m, s := remaining / 60, remaining % 60;
    PadTwoValue(m);
    PadTwoValue(s);
    var t := Format(remaining);
    assert t[..2] == PadTwo(DecimalString(m));
    assert t[3..] == PadTwo(DecimalString(s));
  }

  /** The whole countdown shows as "05:00". */
  lemma FormatTotalTime()
    ensures Format(TotalTime) == "05:00"
  {
    assert DecimalString(5) == "5";
    assert DecimalString(0) == "0";
  }

  /**
   * The end time at load: the stored one only when there is one and the
   * session says the game was just paused, otherwise five minutes from now.
   */
  function InitialEndTime(stored: Option<int>, gamePaused: Option<string>, now: int): (r: int)
    ensures stored.Some? && gamePaused == Some("true") ==> r == stored.value
    ensures !(stored.Some? && gamePaused == Some("true")) ==> r == now + TotalTime * 1000
  {
    if stored.Some? && gamePaused == Some("true") then stored.value else now + TotalTime * 1000
  }

  /** A fresh start shows the full five minutes. */
  lemma FreshStartFullTime(now: int)
    ensures Remaining(InitialEndTime(None, None, now), now) == TotalTime
  {
  }

  /** Resuming sets the end time so that exactly the saved seconds are left. */
  lemma ResumeKeepsRemaining(endTime: int, pausedAt: int, resumedAt: int)
    ensures var r := Remaining(endTime, pausedAt);
            Remaining(resumedAt + r * 1000, resumedAt) == r
  {
  }

  /** updateTimer(): refresh the text; at zero the game is over and the interval stops. */
  function UpdateTimerStep(v: View, now: int): View
  {
    if v.game.isGameOver then v
    else
      var rem := Remaining(v.timer.endTime, now);
      var v1 := v.(timer := v.timer.(text := Format(rem)));
      if rem <= 0 then v1.(timer := v1.timer.(running := false), game := v1.game.(isGameOver := true))
      else v1
  }

  /** pauseGame(): stop the interval and save the seconds left. */
  function PauseStep(v: View, now: int): View
  {
    v.(game := v.game.(isPaused := true),
       timer := v.timer.(running := false, pausedTimeRemaining := Some(Remaining(v.timer.endTime, now))))
  }

  /** resumeGame(): a new end time from the saved seconds, a refresh, and the interval again. */
  function ResumeStep(v: View, now: int): View
  {
    var v1 := v.(game := v.game.(isPaused := false));
    var v2 := if v1.timer.pausedTimeRemaining.Some? then
                var e := now + v1.timer.pausedTimeRemaining.value * 1000;
                v1.(timer := v1.timer.(endTime := e, storedEndTime := Some(e), pausedTimeRemaining := None))
              else v1;
    var v3 := UpdateTimerStep(v2, now);
    v3.(timer := v3.timer.(running := true))
  }

  /** The E key: cabinet button, safe, door, completion, in the handler's order. */
  function InteractStep(v: View, nearButton: bool): View
  {
    var v1 := if nearButton then v.(cabinet := Kitchen.Toggle(v.cabinet)) else v;
    var v2 := if v1.safe.isNear && !v1.safe.unlocked then v1.(safe := v1.safe.(inputVisible := true)) else v1;
    var v3 := if v2.safe.isNear && v2.safe.unlocked then v2.(safe := v2.safe.(open := true)) else v2;
    var v4 := if v3.door.isNear && !v3.door.unlocked then v3.(door := v3.door.(inputVisible := true, entered := [])) else v3;
    if v4.door.isNear && v4.door.unlocked && !v4.game.levelComplete then
      v4.(game := v4.game.(levelComplete := true, isGameOver := true), timer := v4.timer.(running := false))
    else v4
  }

  /** The door keypad, active only while the door is locked, near and shown. */
  function DoorKeyStep(d: Kitchen.Door, key: string): Kitchen.Door
    requires Kitchen.DoorInv(d)
  {
    if !d.unlocked && d.isNear && d.inputVisible then Kitchen.DoorKeyStep(d, key) else d
  }

  /**
   * What every handler keeps: the keypads' invariants, a saved number of
   * seconds exactly while paused, and a completed level is over.
   */
  ghost predicate Inv(v: View)
  {
    && Kitchen.SafeInv(v.safe)
    && Kitchen.DoorInv(v.door)
    && (v.game.isPaused <==> v.timer.pausedTimeRemaining.Some?)
    && (v.game.levelComplete ==> v.door.unlocked && v.game.isGameOver)
  }

  /** The keydown handler, for the keys the model covers. */
  function KeyDownStep(v: View, key: string, nearButton: bool, now: int): View
    requires Inv(v)
  {
    if key == "Escape" then
      if v.game.isGameOver then v
      else if v.game.isPaused then ResumeStep(v, now)
      else PauseStep(v, now)
    else if v.game.isPaused then v
    else
      var v1 := if LowerCase(key) == "e" then InteractStep(v, nearButton) else v;
      v1.(safe := Kitchen.SafeKeyStep(v1.safe, key), door := DoorKeyStep(v1.door, key))
  }

  lemma InteractKeepsInv(v: View, nearButton: bool)
    requires Inv(v)
    ensures Inv(InteractStep(v, nearButton))
    ensures InteractStep(v, nearButton).safe.unlocked == v.safe.unlocked
    ensures InteractStep(v, nearButton).door.unlocked == v.door.unlocked
    ensures InteractStep(v, nearButton).game.isPaused == v.game.isPaused
  {
  }

  lemma EscapeKeepsInv(v: View, now: int)
    requires Inv(v)
    ensures !v.game.isPaused ==> Inv(PauseStep(v, now))
    ensures v.game.isPaused ==> Inv(ResumeStep(v, now))
  {
  }

  /** Every keystroke keeps the invariant. */
  lemma KeyDownKeepsInv(v: View, key: string, nearButton: bool, now: int)
    requires Inv(v)
    ensures Inv(KeyDownStep(v, key, nearButton, now))
  {
    if key == "Escape" {
      EscapeKeepsInv(v, now);
    } else if !v.game.isPaused {
      var v1 := if LowerCase(key) == "e" then InteractStep(v, nearButton) else v;
      InteractKeepsInv(v, nearButton);
      Kitchen.SafeKeyKeepsSafeInv(v1.safe, key);
      Kitchen.DoorKeyKeepsDoorInv(v1.door, key);
    }
  }

  /**
   * The door unlocks exactly when, with the game running and the locked
   * door's keypad shown and the player near it, a digit completes the code.
   */
  lemma DoorUnlocksIffCode(v: View, key: string, nearButton: bool, now: int)
    requires Inv(v)
    ensures var r := KeyDownStep(v, key, nearButton, now);
            r.door.unlocked != v.door.unlocked <==>
              && !v.game.isPaused && !v.door.unlocked && v.door.isNear && v.door.inputVisible
              && IsDigitKey(key) && v.door.entered + [DigitValue(key[0])] == DoorCode
  {
    if key != "Escape" && !v.game.isPaused {
      var v1 := if LowerCase(key) == "e" then InteractStep(v, nearButton) else v;
      InteractKeepsInv(v, nearButton);
      if IsDigitKey(key) {
        Kitchen.DigitIsNoLetter(key);
        Kitchen.DoorStepUnlocks(v.door, key);
      } else {
        Kitchen.OtherKeyKeepsDoorLock(v1.door, key);
      }
    }
  }

  /**
   * The level is completed at most once, by E near the unlocked door while
   * the game runs (the door need not be open); completing ends the game and
   * stops the countdown.
   */
  lemma LevelCompletesOnce(v: View, key: string, nearButton: bool, now: int)
    requires Inv(v)
    ensures var r := KeyDownStep(v, key, nearButton, now);
            r.game.levelComplete != v.game.levelComplete <==>
              && !v.game.levelComplete && !v.game.isPaused && key != "Escape" && LowerCase(key) == "e"
              && v.door.isNear && v.door.unlocked
    ensures var r := KeyDownStep(v, key, nearButton, now);
            r.game.levelComplete != v.game.levelComplete ==> r.game.isGameOver && !r.timer.running
  {
  }

  /** Time running out ends the game and stops the countdown; until then the game goes on. */
  lemma TimeOutEndsGame(v: View, now: int)
    requires !v.game.isGameOver
    ensures var r := UpdateTimerStep(v, now);
            && r.timer.text == Format(Remaining(v.timer.endTime, now))
            && (r.game.isGameOver <==> v.timer.endTime - now < 1000)
            && (r.game.isGameOver ==> !r.timer.running)
  {
  }

  /** A pause followed by a resume leaves the seconds left as they were at the pause. */
  lemma PauseResumeKeepsTime(v: View, pausedAt: int, resumedAt: int)
    requires Inv(v) && !v.game.isPaused && !v.game.isGameOver
    ensures var r := ResumeStep(PauseStep(v, pausedAt), resumedAt);
            && Remaining(r.timer.endTime, resumedAt) == Remaining(v.timer.endTime, pausedAt)
            && r.timer.storedEndTime == Some(r.timer.endTime)
            && !r.game.isPaused && r.timer.running
  {
    ResumeKeepsRemaining(v.timer.endTime, pausedAt, resumedAt);
  }

  class TempRoomLevel {
    var game: Game
    var timer: Timer
    var cabinet: Kitchen.Cabinet
    var safe: Kitchen.Safe
    var door: Kitchen.Door

    function Snapshot(): View
      reads this
    {
      View(game, timer, cabinet, safe, door)
    }

    ghost predicate Valid()
      reads this
    {
      Inv(Snapshot())
    }

    /**
     * Loading the level: the end time follows the start rule, is written
     * back to storage, the interval starts and the timer is shown at once.
     */
    constructor (stored: Option<int>, gamePaused: Option<string>, now: int)
      ensures Valid()
      ensures var e := InitialEndTime(stored, gamePaused, now);
              Snapshot() == UpdateTimerStep(
                View(Game(false, false, false), Timer(e, None, "", true, Some(e)),
                     Kitchen.Cabinet(false, false), Kitchen.Safe(false, false, false, false, false, []),
                     Kitchen.Door(false, false, false, [], false)), now)
    {
      game := Game(false, false, false);
      var e := InitialEndTime(stored, gamePaused, now);
      timer := Timer(e, None, "", true, Some(e));
      cabinet := Kitchen.Cabinet(false, false);
      safe := Kitchen.Safe(false, false, false, false, false, []);
      door := Kitchen.Door(false, false, false, [], false);
      new;
      UpdateTimer(now);
    }

    /** updateTimer(). */
    method UpdateTimer(now: int)
      modifies this
      ensures Snapshot() == UpdateTimerStep(old(Snapshot()), now)
    {
      if game.isGameOver {
        return;
      }
      var remaining := Remaining(timer.endTime, now);
      timer := timer.(text := Format(remaining));
      if remaining <= 0 {
        timer := timer.(running := false);
        game := game.(isGameOver := true);
      }
    }

    /** pauseGame(). */
    method PauseGame(now: int)
      modifies this
      ensures Snapshot() == PauseStep(old(Snapshot()), now)
    {
      game := game.(isPaused := true);
      timer := timer.(running := false);
      timer := timer.(pausedTimeRemaining := Some(Remaining(timer.endTime, now)));
    }

    /** resumeGame(). */
    method ResumeGame(now: int)
      modifies this
      ensures Snapshot() == ResumeStep(old(Snapshot()), now)
    {
      game := game.(isPaused := false);
      if timer.pausedTimeRemaining.Some? {
        var e := now + timer.pausedTimeRemaining.value * 1000;
        timer := timer.(endTime := e);
        timer := timer.(storedEndTime := Some(e));
        timer := timer.(pausedTimeRemaining := None);
      }
      UpdateTimer(now);
      timer := timer.(running := true);
    }

    /** The E key's part of the handler. */
    method Interact(nearButton: bool)
      modifies this
      ensures Snapshot() == InteractStep(old(Snapshot()), nearButton)
    {
      if nearButton && !cabinet.doorAnimating {  // toggleCabinetDoor()
        cabinet := Kitchen.Cabinet(!cabinet.isDoorOpen, true);
      }
      if safe.isNear && !safe.unlocked {
        safe := safe.(inputVisible := true);  // showSafeInput()
      }
      if safe.isNear && safe.unlocked {
        safe := safe.(open := true);
      }
      if door.isNear && !door.unlocked {
        door := door.(inputVisible := true, entered := []);  // showDoorInput()
      }
      if door.isNear && door.unlocked {
        if !game.levelComplete {
          game := game.(levelComplete := true);
          timer := timer.(running := false);
          game := game.(isGameOver := true);
        }
      }
    }

    /** The safe keypad's part of the handler, as in the kitchen. */
    method SafeKey(key: string)
      requires Kitchen.SafeInv(safe)
      modifies this
      ensures Snapshot() == old(Snapshot()).(safe := Kitchen.SafeKeyStep(old(safe), key))
    {
      if !safe.unlocked && safe.isNear && safe.inputVisible {
        KeyEntryBounds(safe.entered, key, 3);
        var e := KeyEntry(safe.entered, key, 3);
        safe := safe.(entered := e);
        if |e| == 3 {
          var ok := CheckSafeCode(e);
          if ok {
            safe := safe.(unlocked := true);
            safe := safe.(inputVisible := false, entered := []);  // hideSafeInput()
            safe := safe.(doorOpen := true);
          } else {
            safe := safe.(entered := []);
          }
        }
      }
    }

    /** The door keypad's part of the handler: only near the door. */
    method DoorKey(key: string)
      requires Kitchen.DoorInv(door)
      modifies this
      ensures Snapshot() == old(Snapshot()).(door := DoorKeyStep(old(door), key))
    {
      if !door.unlocked && door.isNear && door.inputVisible {
        KeyEntryBounds(door.entered, key, 4);
        var e := KeyEntry(door.entered, key, 4);
        door := door.(entered := e);
        if |e| == 4 {
          var ok := CheckDoorCode(e);
          if ok {
            door := door.(unlocked := true);
            door := door.(inputVisible := false);  // hideDoorInput()
            door := door.(isOpen := true);
          } else {
            door := door.(entered := []);
          }
        }
      }
    }

    /**
     * checkSafeProximity(): within SafeInteractDistance the safe is near;
     * walking away hides the safe keypad and clears its entry.
     */
    method CheckSafeProximity(distance: real)
      requires Valid()
      modifies this
      ensures Valid()
      ensures distance < SafeInteractDistance ==> Snapshot() == old(Snapshot()).(safe := old(safe).(isNear := true))
      ensures distance >= SafeInteractDistance && old(safe.isNear) ==>
                Snapshot() == old(Snapshot()).(safe := old(safe).(isNear := false, inputVisible := false, entered := []))
      ensures distance >= SafeInteractDistance && !old(safe.isNear) ==> Snapshot() == old(Snapshot())
    {
      if distance < SafeInteractDistance {
        safe := safe.(isNear := true);
      } else if safe.isNear {
        safe := safe.(isNear := false);
        safe := safe.(inputVisible := false, entered := []);  // hideSafeInput()
      }
    }

    /**
     * checkDoorProximity(): within DoorInteractDistance the door is near.
     * Unlike the kitchen's, walking away leaves the door keypad as it is.
     */
    method CheckDoorProximity(distance: real)
      requires Valid()
      modifies this
      ensures Valid()
      ensures Snapshot() == old(Snapshot()).(door := old(door).(isNear := distance < DoorInteractDistance))
      ensures door.inputVisible == old(door.inputVisible) && door.entered == old(door.entered)
    {
      if distance < DoorInteractDistance {
        if !door.isNear {
          door := door.(isNear := true);
        }
      } else if door.isNear {
        door := door.(isNear := false);
      }
    }

    /** The keydown handler. */
    method KeyDown(key: string, nearButton: bool, now: int)
      requires Valid()
      modifies this
      ensures Valid()
      ensures Snapshot() == KeyDownStep(old(Snapshot()), key, nearButton, now)
    {
      KeyDownKeepsInv(Snapshot(), key, nearButton, now);
      if key == "Escape" {
        if !game.isGameOver {
          if game.isPaused {
            ResumeGame(now);
          } else {
            PauseGame(now);
          }
        }
        return;
      }
      if game.isPaused {
        return;
      }
      if LowerCase(key) == "e" {
        InteractKeepsInv(Snapshot(), nearButton);
        Interact(nearButton);
      }
      SafeKey(key);
      DoorKey(key);
    }
  }
}

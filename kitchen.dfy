// The kitchen level (kitchen.js): the cabinet door button, the safe keypad
// (3 digits, any order), the door keypad (4 digits, in order), level
// completion and pause. All of it is global `let` state that the keydown
// handler and a few helpers reassign, modelled as one class whose methods
// are proved to move the state as the step functions below say. Rendering,
// movement, timers and pop-ups are not part of the model; the time stamp
// stored on completion is an input.
module Kitchen {
  import opened Optional
  import opened Text
  import opened Keypad
  import Levels

  const MaxBattery: real := 300.0
  /** safeInteractDistance, and the interactDistance of checkDoorProximity. */
  const SafeInteractDistance: real := 2.5
  const DoorInteractDistance: real := 6.0

  datatype Game = Game(isPaused: bool, isGameOver: bool, thirdPerson: bool,
                       levelComplete: bool, storage: Levels.Storage)
  datatype Power = Power(battery: real, pausedBattery: Option<real>)
  /** The cabinet door and its button. */
  datatype Cabinet = Cabinet(isDoorOpen: bool, doorAnimating: bool)
  /** The safe, its keypad (shown or not) and the digits entered on it. */
  datatype Safe = Safe(isNear: bool, unlocked: bool, open: bool, doorOpen: bool,
                       inputVisible: bool, entered: seq<int>)
  /** The exit door (myDoor), its keypad and the digits entered on it. */
  datatype Door = Door(isNear: bool, unlocked: bool, inputVisible: bool,
                       entered: seq<int>, isOpen: bool)

  /** The level's state, as one value. */
  datatype View = View(game: Game, power: Power, cabinet: Cabinet, safe: Safe, door: Door)

  /**
   * What every handler keeps: a safe entry is shorter than 3 digits and empty
   * once the safe is open; a door entry is shorter than 4 while the door is
   * locked and is the code once it is unlocked; the safe door and my door are open exactly
   * when unlocked; a paused game holds the saved battery; a completed level
   * is recorded and over.
   */
  ghost predicate Inv(v: View)
  {
    && SafeInv(v.safe)
    && DoorInv(v.door)
    && (v.game.isPaused <==> v.power.pausedBattery.Some?)
    && (v.game.levelComplete ==> v.door.unlocked && v.game.isGameOver && Levels.IsCompleted(v.game.storage, "kitchen"))
  }

  ghost predicate SafeInv(s: Safe)
  {
    && AreDigits(s.entered) && |s.entered| < 3
    && (s.unlocked ==> s.entered == [])
    && s.doorOpen == s.unlocked
  }

  ghost predicate DoorInv(d: Door)
  {
    && AreDigits(d.entered)
    && (if d.unlocked then d.entered == DoorCode else |d.entered| < 4)
    && d.isOpen == d.unlocked
  }

  /** toggleCabinetDoor(). */
  function Toggle(c: Cabinet): Cabinet
  {
    if c.doorAnimating then c else Cabinet(!c.isDoorOpen, true)
  }

  /** Escape: resume or pause unless the game is over. */
  function EscapeStep(v: View): View
  {
    if v.game.isGameOver then v
    else if v.game.isPaused then
      (if v.power.pausedBattery.Some? then
         v.(game := v.game.(isPaused := false), power := Power(v.power.pausedBattery.value, None))
       else v.(game := v.game.(isPaused := false)))
    else v.(game := v.game.(isPaused := true), power := v.power.(pausedBattery := Some(v.power.battery)))
  }

  /** The E key: the cabinet button, the safe, the door, in the handler's order. */
  function InteractStep(v: View, nearButton: bool, time: string): View
  {
    var v1 := if nearButton then v.(cabinet := Toggle(v.cabinet)) else v;
    var v2 := if v1.safe.isNear && !v1.safe.unlocked then v1.(safe := v1.safe.(inputVisible := true)) else v1;
    var v3 := if v2.safe.isNear && v2.safe.unlocked then v2.(safe := v2.safe.(open := true)) else v2;
    var v4 := if v3.door.isNear && !v3.door.unlocked then v3.(door := v3.door.(inputVisible := true, entered := [])) else v3;
    if v4.door.isNear && v4.door.unlocked && v4.door.isOpen && !v4.game.levelComplete then
      v4.(game := v4.game.(levelComplete := true, storage := Levels.CompleteLevel(v4.game.storage, "kitchen", time),
                           isGameOver := true))
    else v4
  }

  /**
   * The safe keypad, active while the safe is locked, near and shown. The
   * handler compares sorted joined digits (SafeOpens); this states what that
   * comparison means, as SafeOpensIffPermutation proves.
   */
  function SafeKeyStep(s: Safe, key: string): Safe
    requires AreDigits(s.entered) && |s.entered| < 3
  {
    if !s.unlocked && s.isNear && s.inputVisible then
      KeyEntryBounds(s.entered, key, 3);
      var e := KeyEntry(s.entered, key, 3);
      if |e| == 3 then
        if IsSafeRearrangement(e) then s.(unlocked := true, inputVisible := false, entered := [], doorOpen := true)
        else s.(entered := [])
      else s.(entered := e)
    else s
  }

  /**
   * The door keypad, active while the door is locked and shown, near or not.
   * The handler compares joined digit strings (DoorOpens), which
   * DoorOpensIffCode proves is comparing the digits.
   */
  function DoorKeyStep(d: Door, key: string): Door
    requires AreDigits(d.entered) && (|d.entered| < 4 || d.unlocked)
  {
    if !d.unlocked && d.inputVisible then
      KeyEntryBounds(d.entered, key, 4);
      var e := KeyEntry(d.entered, key, 4);
      if |e| == 4 then
        if e == DoorCode then d.(entered := e, unlocked := true, inputVisible := false, isOpen := true)
        else d.(entered := [])
      else d.(entered := e)
    else d
  }

  /** Everything that runs only when not paused: E, then the two keypads. */
  function ActiveStep(v: View, key: string, nearButton: bool, time: string): View
    requires Inv(v)
  {
    InteractKeepsInv(v, nearButton, time);
    var v1 := if LowerCase(key) == "e" then InteractStep(v, nearButton, time) else v;
    v1.(safe := SafeKeyStep(v1.safe, key), door := DoorKeyStep(v1.door, key))
  }

  /** The keydown handler, for the keys the model covers. */
  function KeyDownStep(v: View, key: string, nearButton: bool, time: string): View
    requires Inv(v)
  {
    if key == "Escape" then EscapeStep(v)
    else
      var v1 := if LowerCase(key) == "c" then v.(game := v.game.(thirdPerson := !v.game.thirdPerson)) else v;
      if v1.game.isPaused then v1 else ActiveStep(v1, key, nearButton, time)
  }

  lemma EscapeKeepsInv(v: View)
    requires Inv(v)
    ensures Inv(EscapeStep(v))
  {
  }

  lemma InteractKeepsInv(v: View, nearButton: bool, time: string)
    requires Inv(v)
    ensures Inv(InteractStep(v, nearButton, time))
  {
    var r := InteractStep(v, nearButton, time);
    if r.game.levelComplete && !v.game.levelComplete {
      Levels.CompleteLevelEffect(v.game.storage, "kitchen", time, "kitchen");
    }
  }

  /** The safe keypad keeps the safe's part of the invariant and touches nothing but the entry and the lock. */
  lemma SafeKeyKeepsSafeInv(s: Safe, key: string)
    requires SafeInv(s)
    ensures SafeInv(SafeKeyStep(s, key))
  {
    KeyEntryBounds(s.entered, key, 3);
    var r := SafeKeyStep(s, key);
    if !s.unlocked && s.isNear && s.inputVisible {
      var e := KeyEntry(s.entered, key, 3);
      if |e| == 3 {
        assert r.entered == [] && r.doorOpen == r.unlocked;
      } else {
        assert r == s.(entered := e);
      }
    }
  }

  lemma SafeKeyKeepsInv(v: View, key: string)
    requires Inv(v)
    ensures Inv(v.(safe := SafeKeyStep(v.safe, key)))
  {
    SafeKeyKeepsSafeInv(v.safe, key);
  }

  /** The door keypad keeps the door's part of the invariant. */
  lemma DoorKeyKeepsDoorInv(d: Door, key: string)
    requires DoorInv(d)
    ensures DoorInv(DoorKeyStep(d, key))
  {
    KeyEntryBounds(d.entered, key, 4);
  }

  lemma DoorKeyKeepsInv(v: View, key: string)
    requires Inv(v)
    ensures Inv(v.(door := DoorKeyStep(v.door, key)))
  {
    DoorKeyKeepsDoorInv(v.door, key);
  }

  /** Every keystroke keeps the invariant. */
  lemma KeyDownKeepsInv(v: View, key: string, nearButton: bool, time: string)
    requires Inv(v)
    ensures Inv(KeyDownStep(v, key, nearButton, time))
  {
    if key == "Escape" {
      EscapeKeepsInv(v);
    } else {
      var v1 := if LowerCase(key) == "c" then v.(game := v.game.(thirdPerson := !v.game.thirdPerson)) else v;
      if !v1.game.isPaused {
        var v2 := if LowerCase(key) == "e" then InteractStep(v1, nearButton, time) else v1;
        InteractKeepsInv(v1, nearButton, time);
        SafeKeyKeepsInv(v2, key);
        DoorKeyKeepsInv(v2.(safe := SafeKeyStep(v2.safe, key)), key);
      }
    }
  }

  /** Pausing and resuming gives back the battery level of the moment of pausing. */
  lemma PauseResumeRestores(v: View)
    requires Inv(v) && !v.game.isPaused && !v.game.isGameOver
    ensures EscapeStep(EscapeStep(v)) == v
  {
  }

  /** While paused, a key other than Escape can only switch the camera. */
  lemma PausedOnlyCamera(v: View, key: string, nearButton: bool, time: string)
    requires Inv(v) && v.game.isPaused && key != "Escape"
    ensures KeyDownStep(v, key, nearButton, time)
            == v.(game := v.game.(thirdPerson := v.game.thirdPerson != (LowerCase(key) == "c")))
  {
  }

  /** The cabinet button flips the door, and starts it moving, unless it is still moving. */
  lemma CabinetToggle(c: Cabinet)
    ensures Toggle(c).isDoorOpen == (c.isDoorOpen != !c.doorAnimating)
    ensures Toggle(c).doorAnimating
  {
  }

  /** A digit key is not one of the handler's letter keys. */
  lemma DigitIsNoLetter(key: string)
    requires IsDigitKey(key)
    ensures LowerCase(key) != "e" && LowerCase(key) != "c" && key != "Escape"
  {
    assert LowerCase(key)[0] == key[0];
  }

  /** A digit key, with the game running, only reaches the two keypads. */
  lemma DigitStep(v: View, key: string, nearButton: bool, time: string)
    requires Inv(v) && IsDigitKey(key)
    ensures KeyDownStep(v, key, nearButton, time)
            == if v.game.isPaused then v else v.(safe := SafeKeyStep(v.safe, key), door := DoorKeyStep(v.door, key))
  {
    DigitIsNoLetter(key);
  }

  /** A key that is not a digit cannot complete either entry. */
  lemma OtherKeyKeepsSafeLock(s: Safe, key: string)
    requires SafeInv(s) && !IsDigitKey(key)
    ensures SafeKeyStep(s, key).unlocked == s.unlocked
  {
    KeyEntryBounds(s.entered, key, 3);
  }

  lemma OtherKeyKeepsDoorLock(d: Door, key: string)
    requires DoorInv(d) && !IsDigitKey(key)
    ensures DoorKeyStep(d, key).unlocked == d.unlocked
  {
    KeyEntryBounds(d.entered, key, 4);
  }

  /** Neither the camera key nor E touches a lock. */
  lemma InteractKeepsLocks(v: View, nearButton: bool, time: string)
    ensures InteractStep(v, nearButton, time).safe.unlocked == v.safe.unlocked
    ensures InteractStep(v, nearButton, time).door.unlocked == v.door.unlocked
  {
  }

  /** Any other key leaves both locks as they are. */
  lemma OtherKeyKeepsLocks(v: View, key: string, nearButton: bool, time: string)
    requires Inv(v) && !IsDigitKey(key)
    ensures KeyDownStep(v, key, nearButton, time).safe.unlocked == v.safe.unlocked
    ensures KeyDownStep(v, key, nearButton, time).door.unlocked == v.door.unlocked
  {
    if key != "Escape" && !v.game.isPaused {
      var v1 := if LowerCase(key) == "c" then v.(game := v.game.(thirdPerson := !v.game.thirdPerson)) else v;
      var v2 := if LowerCase(key) == "e" then InteractStep(v1, nearButton, time) else v1;
      InteractKeepsInv(v1, nearButton, time);
      InteractKeepsLocks(v1, nearButton, time);
      OtherKeyKeepsSafeLock(v2.safe, key);
      OtherKeyKeepsDoorLock(v2.door, key);
    }
  }

  lemma SafeStepUnlocks(s: Safe, key: string)
    requires SafeInv(s) && IsDigitKey(key)
    ensures SafeKeyStep(s, key).unlocked != s.unlocked <==>
              && !s.unlocked && s.isNear && s.inputVisible && |s.entered| == 2
              && multiset(s.entered + [DigitValue(key[0])]) == multiset(SafeCode)
  {
    KeyEntryBounds(s.entered, key, 3);
  }

  lemma DoorStepUnlocks(d: Door, key: string)
    requires DoorInv(d) && IsDigitKey(key)
    ensures DoorKeyStep(d, key).unlocked != d.unlocked <==>
              !d.unlocked && d.inputVisible && d.entered + [DigitValue(key[0])] == DoorCode
  {
    KeyEntryBounds(d.entered, key, 4);
    if d.entered + [DigitValue(key[0])] == DoorCode {
      assert |d.entered| == 3;
    }
  }

  /**
   * The safe unlocks exactly when, with the game running and the locked
   * safe's keypad shown nearby, a digit completes a rearrangement of the code.
   */
  lemma SafeUnlocksIffPermutation(v: View, key: string, nearButton: bool, time: string)
    requires Inv(v)
    ensures var r := KeyDownStep(v, key, nearButton, time);
            r.safe.unlocked != v.safe.unlocked <==>
              && !v.game.isPaused && !v.safe.unlocked && v.safe.isNear && v.safe.inputVisible
              && IsDigitKey(key) && |v.safe.entered| == 2
              && multiset(v.safe.entered + [DigitValue(key[0])]) == multiset(SafeCode)
  {
    if IsDigitKey(key) {
      DigitStep(v, key, nearButton, time);
      SafeStepUnlocks(v.safe, key);
    } else {
      OtherKeyKeepsLocks(v, key, nearButton, time);
    }
  }

  /**
   * The door unlocks, and opens, exactly when, with the game running and the
   * locked door's keypad shown, a digit completes the code in order.
   */
  lemma DoorUnlocksIffCode(v: View, key: string, nearButton: bool, time: string)
    requires Inv(v)
    ensures var r := KeyDownStep(v, key, nearButton, time);
            r.door.unlocked != v.door.unlocked <==>
              && !v.game.isPaused && !v.door.unlocked && v.door.inputVisible
              && IsDigitKey(key) && v.door.entered + [DigitValue(key[0])] == DoorCode
    ensures var r := KeyDownStep(v, key, nearButton, time);
            r.door.unlocked ==> r.door.isOpen && r.door.entered == DoorCode
  {
    KeyDownKeepsInv(v, key, nearButton, time);
    if IsDigitKey(key) {
      DigitStep(v, key, nearButton, time);
      DoorStepUnlocks(v.door, key);
    } else {
      OtherKeyKeepsLocks(v, key, nearButton, time);
    }
  }

  /**
   * The level is completed at most once, by E near the unlocked, open door
   * while the game runs; completing records it in storage and ends the game.
   */
  lemma LevelCompletesOnce(v: View, key: string, nearButton: bool, time: string)
    requires Inv(v)
    ensures var r := KeyDownStep(v, key, nearButton, time);
            r.game.levelComplete != v.game.levelComplete <==>
              && !v.game.levelComplete && !v.game.isPaused && key != "Escape" && LowerCase(key) == "e"
              && v.door.isNear && v.door.unlocked && v.door.isOpen
    ensures var r := KeyDownStep(v, key, nearButton, time);
            r.game.levelComplete != v.game.levelComplete ==>
              r.game.storage == Levels.CompleteLevel(v.game.storage, "kitchen", time) && r.game.isGameOver
    ensures var r := KeyDownStep(v, key, nearButton, time);
            r.game.levelComplete == v.game.levelComplete ==> r.game.storage == v.game.storage
  {
  }

  class KitchenRoom {
    var game: Game
    var power: Power
    var cabinet: Cabinet
    var safe: Safe
    var door: Door

    function Snapshot(): View
      reads this
    {
      View(game, power, cabinet, safe, door)
    }

    ghost predicate Valid()
      reads this
    {
      Inv(Snapshot())
    }

    /**
     * The level as loaded: nothing open, nothing entered, and the battery restored by
     * initializeBattery() from the saved "kitchenBattery" value (parsed), if any.
     */
    constructor (store: Levels.Storage, savedBattery: Option<real>)
      ensures Valid()
      ensures Snapshot() == View(Game(false, false, true, false, store),
                                 Power(Levels.RestoredBattery(savedBattery, MaxBattery), None),
                                 Cabinet(false, false), Safe(false, false, false, false, false, []),
                                 Door(false, false, false, [], false))
    {
      game := Game(false, false, true, false, store);
      power := Power(Levels.RestoredBattery(savedBattery, MaxBattery), None);
      cabinet := Cabinet(false, false);
      safe := Safe(false, false, false, false, false, []);
      door := Door(false, false, false, [], false);
    }

    /** toggleCabinetDoor(): ignored while the door is still moving. */
    method ToggleCabinetDoor()
      modifies this
      ensures Snapshot() == old(Snapshot()).(cabinet := Toggle(old(cabinet)))
    {
      if cabinet.doorAnimating {
        return;
      }
      cabinet := cabinet.(isDoorOpen := !cabinet.isDoorOpen);
      cabinet := cabinet.(doorAnimating := true);
    }

    /** showSafeInput(): shows the keypad; the digits already entered stay. */
    method ShowSafeInput()
      modifies this
      ensures Snapshot() == old(Snapshot()).(safe := old(safe).(inputVisible := true))
    {
      safe := safe.(inputVisible := true);
    }

    /** hideSafeInput(): hides the keypad and forgets the digits. */
    method HideSafeInput()
      modifies this
      ensures Snapshot() == old(Snapshot()).(safe := old(safe).(inputVisible := false, entered := []))
    {
      safe := safe.(inputVisible := false);
      safe := safe.(entered := []);
    }

    /** showDoorInput(): shows the keypad with an empty entry. */
    method ShowDoorInput()
      modifies this
      ensures Snapshot() == old(Snapshot()).(door := old(door).(inputVisible := true, entered := []))
    {
      door := door.(inputVisible := true);
      door := door.(entered := []);
    }

    /** hideDoorInput(): hides the keypad; the entry is kept. */
    method HideDoorInput()
      modifies this
      ensures Snapshot() == old(Snapshot()).(door := old(door).(inputVisible := false))
    {
      door := door.(inputVisible := false);
    }

    /**
     * checkSafeProximity(): within SafeInteractDistance the safe is near;
     * walking away hides the safe keypad and clears its entry.
     */
    method CheckSafeProximity(distance: real)
      requires Valid()
      modifies this
      ensures Valid()
      ensures distance < SafeInteractDistance ==> Snapshot() == old(Snapshot()).(safe := old(safe).(isNear := true))
      ensures distance >= SafeInteractDistance && old(safe.isNear) ==>
                Snapshot() == old(Snapshot()).(safe := old(safe).(isNear := false, inputVisible := false, entered := []))
      ensures distance >= SafeInteractDistance && !old(safe.isNear) ==> Snapshot() == old(Snapshot())
    {
      if distance < SafeInteractDistance {
        if !safe.isNear {
          safe := safe.(isNear := true);
        }
      } else if safe.isNear {
        safe := safe.(isNear := false);
        HideSafeInput();
      }
    }

    /**
     * checkDoorProximity(): within DoorInteractDistance the door is near;
     * walking away hides the door keypad, which keeps its entry.
     */
    method CheckDoorProximity(distance: real)
      requires Valid()
      modifies this
      ensures Valid()
      ensures distance < DoorInteractDistance ==> Snapshot() == old(Snapshot()).(door := old(door).(isNear := true))
      ensures distance >= DoorInteractDistance && old(door.isNear) ==>
                Snapshot() == old(Snapshot()).(door := old(door).(isNear := false, inputVisible := false))
      ensures distance >= DoorInteractDistance && !old(door.isNear) ==> Snapshot() == old(Snapshot())
    {
      if distance < DoorInteractDistance {
        if !door.isNear {
          door := door.(isNear := true);
        }
      } else if door.isNear {
        door := door.(isNear := false);
        HideDoorInput();
      }
    }

    /** pauseGame(): remembers the battery level. */
    method PauseGame()
      modifies this
      ensures Snapshot() == old(Snapshot()).(game := old(game).(isPaused := true),
                                             power := old(power).(pausedBattery := Some(old(power.battery))))
    {
      game := game.(isPaused := true);
      power := power.(pausedBattery := Some(power.battery));
    }

    /** resumeGame(): puts back the battery level saved by pauseGame, if any. */
    method ResumeGame()
      modifies this
      ensures old(power.pausedBattery).Some? ==>
                Snapshot() == old(Snapshot()).(game := old(game).(isPaused := false),
                                               power := Power(old(power.pausedBattery).value, None))
      ensures old(power.pausedBattery).None? ==>
                Snapshot() == old(Snapshot()).(game := old(game).(isPaused := false))
    {
      game := game.(isPaused := false);
      if power.pausedBattery.Some? {
        power := power.(battery := power.pausedBattery.value);
        power := power.(pausedBattery := None);
      }
    }

    /** The E key's part of the handler. */
    method Interact(nearButton: bool, time: string)
      modifies this
      ensures Snapshot() == InteractStep(old(Snapshot()), nearButton, time)
    {
      if nearButton {
        ToggleCabinetDoor();
      }
      if safe.isNear && !safe.unlocked {
        ShowSafeInput();
      }
      if safe.isNear && safe.unlocked {
        safe := safe.(open := true);
      }
      if door.isNear && !door.unlocked {
        ShowDoorInput();
      }
      if door.isNear && door.unlocked && door.isOpen {
        if !game.levelComplete {
          game := game.(levelComplete := true);
          game := game.(storage := Levels.CompleteLevel(game.storage, "kitchen", time));
          game := game.(isGameOver := true);
        }
      }
    }

    /** The safe keypad's part of the handler. */
    method SafeKey(key: string)
      requires AreDigits(safe.entered) && |safe.entered| < 3
      modifies this
      ensures Snapshot() == old(Snapshot()).(safe := SafeKeyStep(old(safe), key))
    {
      if !safe.unlocked && safe.isNear && safe.inputVisible {
        KeyEntryBounds(safe.entered, key, 3);
        var e := KeyEntry(safe.entered, key, 3);
        safe := safe.(entered := e);
        if |e| == 3 {
          var ok := CheckSafeCode(e);
          if ok {
            safe := safe.(unlocked := true);
            HideSafeInput();
            safe := safe.(doorOpen := true);
          } else {
            safe := safe.(entered := []);
          }
        }
      }
    }

    /** The door keypad's part of the handler. */
    method DoorKey(key: string)
      requires AreDigits(door.entered) && (|door.entered| < 4 || door.unlocked)
      modifies this
      ensures Snapshot() == old(Snapshot()).(door := DoorKeyStep(old(door), key))
    {
      if !door.unlocked && door.inputVisible {
        KeyEntryBounds(door.entered, key, 4);
        var e := KeyEntry(door.entered, key, 4);
        door := door.(entered := e);
        if |e| == 4 {
          var ok := CheckDoorCode(e);
          if ok {
            door := door.(unlocked := true);
            HideDoorInput();
            door := door.(isOpen := true);
          } else {
            door := door.(entered := []);
          }
        }
      }
    }

    /** The keydown handler. */
    method KeyDown(key: string, nearButton: bool, time: string)
      requires Valid()
      modifies this
      ensures Valid()
      ensures Snapshot() == KeyDownStep(old(Snapshot()), key, nearButton, time)
    {
      KeyDownKeepsInv(Snapshot(), key, nearButton, time);
      if key == "Escape" {
        if !game.isGameOver {
          if game.isPaused {
            ResumeGame();
          } else {
            PauseGame();
          }
        }
        return;
      }
      if LowerCase(key) == "c" {
        game := game.(thirdPerson := !game.thirdPerson);
      }
      if game.isPaused {
        return;
      }
      if LowerCase(key) == "e" {
        InteractKeepsInv(Snapshot(), nearButton, time);
        Interact(nearButton, time);
      }
      SafeKey(key);
      DoorKey(key);
    }
  }
}

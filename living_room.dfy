// The living-room level (living-room.js): three story fragments to collect,
// an exit door that unlocks once all are found, the E-key interaction
// priority, the TV and lamp toggles and pause. Distances, rendering, sound
// and the page navigation are outside the model: which things are in range
// is an input, and leaving the level is a flag.
module LivingRoom {
  import opened Optional
  import opened Text
  import Levels

  /** totalFragments. */
  const TotalFragments: nat := 3
  const MaxBattery: real := 300.0
  /** TV_STATES: OFF, ON, GLITCH. */
  const TvOff: int := 0
  const TvOn: int := 1
  const TvGlitch: int := 2

  /** How many fragments are marked collected. */
  function CountCollected(collected: seq<bool>): (n: nat)
    ensures n <= |collected|
    ensures n == |collected| <==> forall i :: 0 <= i < |collected| ==> collected[i]
  {
    if collected == [] then 0
    else CountCollected(collected[..|collected| - 1]) + (if collected[|collected| - 1] then 1 else 0)
  }

  /** Marking one more fragment raises the count by exactly one. */
  lemma {:induction false} CountMark(collected: seq<bool>, i: nat)
    requires i < |collected| && !collected[i]
    ensures CountCollected(collected[i := true]) == CountCollected(collected) + 1
    decreases |collected|
  {
    var c' := collected[i := true];
    var n := |collected| - 1;
    assert c'[..n] == if i == n then collected[..n] else collected[..n][i := true];
    if i < n {
      CountMark(collected[..n], i);
    }
  }

  /** The things E can do, in onInteract's order of priority. */
  datatype Action = Collect(i: nat) | LeaveLevel | LockedModal | LampToggle | SofaHint | FireplaceHint | TvToggle | NoAction

  /** What the player is close to (besides fragments). */
  datatype Near = Near(door: bool, lamp: bool, sofa: bool, fireplace: bool, tv: bool)

  /** onInteract()'s choice. */
  function InteractionChoice(nearFragment: Option<nat>, collected: seq<bool>, near: Near, doorUnlocked: bool): Action
  {
    if nearFragment.Some? && nearFragment.value < |collected| && !collected[nearFragment.value] then Collect(nearFragment.value)
    else if near.door then (if doorUnlocked then LeaveLevel else LockedModal)
    else if near.lamp then LampToggle
    else if near.sofa then SofaHint
    else if near.fireplace then FireplaceHint
    else if near.tv then TvToggle
    else NoAction
  }

  /**
   * onInteract's priority: an uncollected nearby fragment beats everything;
   * then the door, which leaves only when unlocked; then lamp, sofa,
   * fireplace and TV, each only when nothing before it applies.
   */
  lemma InteractionPriority(nearFragment: Option<nat>, collected: seq<bool>, near: Near, doorUnlocked: bool)
    ensures var a := InteractionChoice(nearFragment, collected, near, doorUnlocked);
            var fragment := nearFragment.Some? && nearFragment.value < |collected| && !collected[nearFragment.value];
            && (a.Collect? <==> fragment)
            && (a.Collect? ==> a.i == nearFragment.value)
            && (a == LeaveLevel <==> !fragment && near.door && doorUnlocked)
            && (a == LockedModal <==> !fragment && near.door && !doorUnlocked)
            && (a == LampToggle <==> !fragment && !near.door && near.lamp)
            && (a == SofaHint <==> !fragment && !near.door && !near.lamp && near.sofa)
            && (a == FireplaceHint <==> !fragment && !near.door && !near.lamp && !near.sofa && near.fireplace)
            && (a == TvToggle <==> !fragment && !near.door && !near.lamp && !near.sofa && !near.fireplace && near.tv)
  {
  }

  /** The T key: OFF -> ON -> GLITCH -> OFF. */
  function NextTvState(s: int): int
  {
    (s + 1) % 3
  }

  /** The TV cycle stays among the three states and comes back after three presses. */
  lemma TvCycle(s: int)
    requires TvOff <= s <= TvGlitch
    ensures TvOff <= NextTvState(s) <= TvGlitch
    ensures NextTvState(TvOff) == TvOn && NextTvState(TvOn) == TvGlitch && NextTvState(TvGlitch) == TvOff
    ensures NextTvState(NextTvState(NextTvState(s))) == s
  {
  }

  /**
   * The TV press: ensureTvHum() builds a missing hum already switched on,
   * and the press then flips it, so the first press turns the hum off.
   */
  function TvHumToggled(on: bool, created: bool): (r: bool)
    ensures !created ==> !r
    ensures created ==> r != on
  {
    var onAfterEnsure := on || !created;
    !onAfterEnsure
  }

  /** The lamp: bright goes to 0.08, dim goes to 1.6. */
  function NextLampIntensity(i: real): real
  {
    if i > 0.5 then 0.08 else 1.6
  }

  /** Each press swaps bright and dim. */
  lemma LampAlternates(i: real)
    ensures (NextLampIntensity(i) > 0.5) == !(i > 0.5)
    ensures NextLampIntensity(NextLampIntensity(NextLampIntensity(i))) == NextLampIntensity(i)
  {
  }

  class LivingRoomLevel {
    var collected: seq<bool>       // fragments[i].userData.collected
    var fragmentsCollected: int
    var nearFragment: Option<nat>
    var doorUnlocked: bool         // exitDoor.userData.unlocked
    var isPaused: bool
    var isGameOver: bool
    var thirdPerson: bool
    var tvState: int
    var tvHumOn: bool
    var tvHumCreated: bool         // ensureTvHum() has built the hum (tvHum != null)
    var lampIntensity: real
    var doorModalVisible: bool
    var doorModalCreated: bool     // the #doorModal element exists
    var modalKeyAttached: bool     // onModalKey is registered for keydown
    var leftLevel: bool            // navigated to the platforms level
    var battery: real
    var pausedBattery: Option<real>

    /**
     * The counter is the number of collected fragments (so at most three),
     * a near fragment is one of them, the TV is in one of its states, and
     * the door is unlocked only once all fragments are in.
     */
    ghost predicate Valid()
      reads this
    {
      && |collected| == TotalFragments
      && fragmentsCollected == CountCollected(collected)
      && (nearFragment.Some? ==> nearFragment.value < |collected|)
      && TvOff <= tvState <= TvGlitch
      && (doorUnlocked ==> fragmentsCollected >= TotalFragments)
      && (modalKeyAttached ==> doorModalCreated)
      && (tvHumOn ==> tvHumCreated)
    }

    /**
     * The level as loaded; the battery is restored by initializeBattery() from the saved
     * "livingRoomBattery" value (parsed), if any.
     */
    constructor (savedBattery: Option<real>)
      ensures Valid()
      ensures collected == [false, false, false] && fragmentsCollected == 0 && nearFragment == None
      ensures !doorUnlocked && !isPaused && !isGameOver && thirdPerson
      ensures tvState == TvOn && !tvHumOn && !tvHumCreated && lampIntensity == 1.0
      ensures !doorModalVisible && !doorModalCreated && !modalKeyAttached
      ensures !leftLevel && battery == Levels.RestoredBattery(savedBattery, MaxBattery) && pausedBattery == None
    {
      collected := [false, false, false];
      fragmentsCollected := 0;
      nearFragment := None;
      doorUnlocked := false;
      isPaused, isGameOver, thirdPerson := false, false, true;
      tvState, tvHumOn, tvHumCreated, lampIntensity := TvOn, false, false, 1.0;
      doorModalVisible, doorModalCreated, modalKeyAttached, leftLevel := false, false, false, false;
      battery, pausedBattery := Levels.RestoredBattery(savedBattery, MaxBattery), None;
    }

    /** checkFragmentProximity(): the first uncollected fragment in range, or none. */
    method CheckFragmentProximity(inRange: seq<bool>)
      requires Valid() && |inRange| == |collected|
      modifies this
      ensures Valid()
      ensures nearFragment.Some? ==>
                && nearFragment.value < |collected|
                && !collected[nearFragment.value] && inRange[nearFragment.value]
                && forall j :: 0 <= j < nearFragment.value ==> collected[j] || !inRange[j]
      ensures nearFragment.None? ==> forall j :: 0 <= j < |collected| ==> collected[j] || !inRange[j]
      ensures collected == old(collected) && fragmentsCollected == old(fragmentsCollected)
      ensures doorUnlocked == old(doorUnlocked) && isPaused == old(isPaused) && tvState == old(tvState)
      ensures tvHumOn == old(tvHumOn) && tvHumCreated == old(tvHumCreated) && lampIntensity == old(lampIntensity)
      ensures doorModalVisible == old(doorModalVisible) && doorModalCreated == old(doorModalCreated)
      ensures modalKeyAttached == old(modalKeyAttached) && leftLevel == old(leftLevel) && isGameOver == old(isGameOver)
      ensures battery == old(battery) && pausedBattery == old(pausedBattery) && thirdPerson == old(thirdPerson)
    {
      nearFragment := None;
      var k := 0;
      while k < |collected|
        invariant 0 <= k <= |collected|
        invariant nearFragment == None
        invariant forall j :: 0 <= j < k ==> collected[j] || !inRange[j]
      {
        if !collected[k] && inRange[k] {
          nearFragment := Some(k);
          break;
        }
        k := k + 1;
      }
    }

    /** collectFragment(frag): nothing for none or a collected one; otherwise mark it and count it. */
    method CollectFragment(frag: Option<nat>)
      requires Valid()
      modifies `collected, `fragmentsCollected
      ensures Valid()
      ensures fragmentsCollected <= TotalFragments
      ensures frag.None? || frag.value >= |old(collected)| || old(collected)[frag.value] ==>
                collected == old(collected) && fragmentsCollected == old(fragmentsCollected)
      ensures frag.Some? && frag.value < |old(collected)| && !old(collected)[frag.value] ==>
                collected == old(collected)[frag.value := true] && fragmentsCollected == old(fragmentsCollected) + 1
      ensures doorUnlocked == old(doorUnlocked) && nearFragment == old(nearFragment)
      ensures isPaused == old(isPaused) && tvState == old(tvState) && tvHumOn == old(tvHumOn) && tvHumCreated == old(tvHumCreated)
      ensures lampIntensity == old(lampIntensity) && doorModalVisible == old(doorModalVisible) && leftLevel == old(leftLevel)
      ensures isGameOver == old(isGameOver) && thirdPerson == old(thirdPerson)
      ensures battery == old(battery) && pausedBattery == old(pausedBattery)
      ensures doorModalCreated == old(doorModalCreated) && modalKeyAttached == old(modalKeyAttached)
    {
      if frag.None? || frag.value >= |collected| || collected[frag.value] {
        return;
      }
      CountMark(collected, frag.value);
      collected := collected[frag.value := true];
      fragmentsCollected := fragmentsCollected + 1;
    }

    /** The end of the "Fragment Collected!" message: the door unlocks once all are in. */
    method FragmentMessageDone()
      requires Valid()
      modifies this
      ensures Valid()
      ensures doorUnlocked == (old(doorUnlocked) || fragmentsCollected >= TotalFragments)
      ensures collected == old(collected) && fragmentsCollected == old(fragmentsCollected)
      ensures isPaused == old(isPaused) && leftLevel == old(leftLevel)
    {
      if fragmentsCollected >= TotalFragments {
        doorUnlocked := true;
      }
    }

    /**
     * What onInteract() does, from the state before it to the state after:
     * the chosen action's own effect, and nothing else. The first locked-door
     * modal also creates the element and registers its key handler.
     */
    twostate predicate Interacted(near: Near)
      reads this
    {
      var a := InteractionChoice(old(nearFragment), old(collected), near, old(doorUnlocked));
      && (a.Collect? ==> collected == old(collected)[a.i := true] && fragmentsCollected == old(fragmentsCollected) + 1)
      && (!a.Collect? ==> collected == old(collected) && fragmentsCollected == old(fragmentsCollected))
      && leftLevel == (old(leftLevel) || a == LeaveLevel)
      && (a == LockedModal ==> doorModalVisible && isPaused && doorModalCreated)
      && (a == LockedModal && !old(doorModalCreated) ==> modalKeyAttached)
      && (a != LockedModal || old(doorModalCreated) ==> modalKeyAttached == old(modalKeyAttached))
      && (a != LockedModal ==>
            doorModalVisible == old(doorModalVisible) && isPaused == old(isPaused) && doorModalCreated == old(doorModalCreated))
      && lampIntensity == (if a == LampToggle then NextLampIntensity(old(lampIntensity)) else old(lampIntensity))
      && tvHumOn == (if a == TvToggle then TvHumToggled(old(tvHumOn), old(tvHumCreated)) else old(tvHumOn))
      && tvHumCreated == (old(tvHumCreated) || a == TvToggle)
      && doorUnlocked == old(doorUnlocked) && tvState == old(tvState) && nearFragment == old(nearFragment)
      && isGameOver == old(isGameOver) && battery == old(battery) && pausedBattery == old(pausedBattery)
      && thirdPerson == old(thirdPerson)
    }

    /** onInteract(). */
    method OnInteract(near: Near)
      requires Valid()
      modifies this
      ensures Valid() && Interacted(near)
    {
      ghost var a := InteractionChoice(nearFragment, collected, near, doorUnlocked);
      if nearFragment.Some? && nearFragment.value < |collected| && !collected[nearFragment.value] {
        assert a == Collect(nearFragment.value);
        CollectFragment(nearFragment);
        return;
      }
      if near.door {
        assert a == LeaveLevel || a == LockedModal;
        DoorInteract();
        return;
      }
      Furniture(near);
    }

    /** The lamp, sofa, fireplace and TV branches of onInteract(), in that order. */
    method Furniture(near: Near)
      requires Valid() && !near.door
      requires !(nearFragment.Some? && nearFragment.value < |collected| && !collected[nearFragment.value])
      modifies `lampIntensity, `tvHumOn, `tvHumCreated
      ensures Valid() && Interacted(near)
    {
      if near.lamp {
        lampIntensity := NextLampIntensity(lampIntensity);
      } else if near.sofa {
      } else if near.fireplace {
      } else if near.tv {
        ToggleTv();
      }
    }

    /**
     * The door branch of onInteract(): leave through an unlocked door, or
     * show the locked modal and pause, creating the modal and registering
     * its key handler the first time.
     */
    method DoorInteract()
      requires Valid()
      modifies `leftLevel, `doorModalCreated, `modalKeyAttached, `doorModalVisible, `isPaused
      ensures Valid()
      ensures leftLevel == (old(leftLevel) || old(doorUnlocked))
      ensures !old(doorUnlocked) ==> doorModalVisible && isPaused && doorModalCreated
      ensures !old(doorUnlocked) && !old(doorModalCreated) ==> modalKeyAttached
      ensures old(doorUnlocked) || old(doorModalCreated) ==> modalKeyAttached == old(modalKeyAttached)
      ensures old(doorUnlocked) ==>
                doorModalVisible == old(doorModalVisible) && isPaused == old(isPaused) && doorModalCreated == old(doorModalCreated)
    {
      if doorUnlocked {
        leftLevel := true;  // sessionStorage livingRoomPaused, then platforms.html
      } else {
        if !doorModalCreated {
          doorModalCreated := true;
          modalKeyAttached := true;  // document.addEventListener('keydown', onModalKey)
        }
        doorModalVisible := true;
        isPaused := true;
      }
    }

    /** The TV branch of onInteract(): ensureTvHum(), then flip the hum. */
    method ToggleTv()
      modifies `tvHumOn, `tvHumCreated
      ensures tvHumOn == TvHumToggled(old(tvHumOn), old(tvHumCreated)) && tvHumCreated
    {
      if !tvHumCreated {
        tvHumCreated := true;  // ensureTvHum() builds the hum and sets tvHumOn
        tvHumOn := true;
      }
      tvHumOn := !tvHumOn;
    }

    /**
     * hideDoorModal(), from "Keep Searching" or the modal's own key handler:
     * closes the modal, unpauses and unregisters that key handler.
     */
    method HideDoorModal()
      requires Valid()
      modifies this
      ensures Valid()
      ensures !doorModalVisible && !isPaused && !modalKeyAttached && doorModalCreated == old(doorModalCreated)
      ensures collected == old(collected) && fragmentsCollected == old(fragmentsCollected)
      ensures doorUnlocked == old(doorUnlocked) && tvState == old(tvState) && battery == old(battery)
      ensures nearFragment == old(nearFragment) && leftLevel == old(leftLevel) && pausedBattery == old(pausedBattery)
      ensures tvHumOn == old(tvHumOn) && tvHumCreated == old(tvHumCreated) && lampIntensity == old(lampIntensity) && thirdPerson == old(thirdPerson)
      ensures isGameOver == old(isGameOver)
    {
      doorModalVisible := false;
      isPaused := false;
      modalKeyAttached := false;
    }

    /**
     * onModalKey, the keydown handler registered when the modal is first
     * built: Escape or Enter closes the modal while it is registered. It runs
     * after KeyDown, which was registered first.
     */
    method ModalKey(key: string)
      requires Valid()
      modifies this
      ensures Valid()
      ensures old(modalKeyAttached) && (key == "Escape" || key == "Enter") ==>
                !doorModalVisible && !isPaused && !modalKeyAttached
      ensures !(old(modalKeyAttached) && (key == "Escape" || key == "Enter")) ==>
                doorModalVisible == old(doorModalVisible) && isPaused == old(isPaused) && modalKeyAttached == old(modalKeyAttached)
      ensures doorModalCreated == old(doorModalCreated) && collected == old(collected)
      ensures fragmentsCollected == old(fragmentsCollected) && doorUnlocked == old(doorUnlocked)
      ensures leftLevel == old(leftLevel) && battery == old(battery) && pausedBattery == old(pausedBattery)
    {
      if modalKeyAttached && (key == "Escape" || key == "Enter") {
        HideDoorModal();
      }
    }

    /** pauseGame(): remembers the battery level. */
    method PauseGame()
      modifies this
      ensures isPaused && pausedBattery == Some(old(battery)) && battery == old(battery)
      ensures collected == old(collected) && fragmentsCollected == old(fragmentsCollected)
      ensures doorUnlocked == old(doorUnlocked) && tvState == old(tvState) && nearFragment == old(nearFragment)
      ensures isGameOver == old(isGameOver) && thirdPerson == old(thirdPerson) && leftLevel == old(leftLevel)
      ensures tvHumOn == old(tvHumOn) && tvHumCreated == old(tvHumCreated) && lampIntensity == old(lampIntensity) && doorModalVisible == old(doorModalVisible)
      ensures doorModalCreated == old(doorModalCreated) && modalKeyAttached == old(modalKeyAttached)
    {
      isPaused := true;
      pausedBattery := Some(battery);
    }

    /** resumeGame(): puts back the battery level saved by pauseGame, if any. */
    method ResumeGame()
      modifies this
      ensures !isPaused && pausedBattery == None
      ensures battery == (if old(pausedBattery).Some? then old(pausedBattery).value else old(battery))
      ensures collected == old(collected) && fragmentsCollected == old(fragmentsCollected)
      ensures doorUnlocked == old(doorUnlocked) && tvState == old(tvState) && nearFragment == old(nearFragment)
      ensures isGameOver == old(isGameOver) && thirdPerson == old(thirdPerson) && leftLevel == old(leftLevel)
      ensures tvHumOn == old(tvHumOn) && tvHumCreated == old(tvHumCreated) && lampIntensity == old(lampIntensity) && doorModalVisible == old(doorModalVisible)
      ensures doorModalCreated == old(doorModalCreated) && modalKeyAttached == old(modalKeyAttached)
    {
      isPaused := false;
      if pausedBattery.Some? {
        battery := pausedBattery.value;
        pausedBattery := None;
      }
    }

    /**
     * The keydown handler. Only Escape is checked before the others, so C,
     * E and T work while paused too.
     */
    method KeyDown(key: string, near: Near)
      requires Valid()
      modifies this
      ensures Valid()
      ensures key == "Escape" && !old(isGameOver) && old(isPaused) ==>
                !isPaused && pausedBattery == None
                && battery == (if old(pausedBattery).Some? then old(pausedBattery).value else old(battery))
      ensures key == "Escape" && !old(isGameOver) && !old(isPaused) ==>
                isPaused && pausedBattery == Some(old(battery)) && battery == old(battery)
      ensures key == "Escape" && old(isGameOver) ==>
                isPaused == old(isPaused) && battery == old(battery) && pausedBattery == old(pausedBattery)
      ensures key == "Escape" ==>
                && collected == old(collected) && fragmentsCollected == old(fragmentsCollected)
                && nearFragment == old(nearFragment) && tvState == old(tvState) && thirdPerson == old(thirdPerson)
                && tvHumOn == old(tvHumOn) && tvHumCreated == old(tvHumCreated) && lampIntensity == old(lampIntensity)
                && doorModalVisible == old(doorModalVisible) && doorModalCreated == old(doorModalCreated)
                && modalKeyAttached == old(modalKeyAttached) && doorUnlocked == old(doorUnlocked)
                && leftLevel == old(leftLevel) && isGameOver == old(isGameOver)
      ensures key != "Escape" ==>
                && thirdPerson == (old(thirdPerson) != (LowerCase(key) == "c"))
                && tvState == (if LowerCase(key) == "t" then NextTvState(old(tvState)) else old(tvState))
      ensures key != "Escape" && LowerCase(key) == "e" ==> Interacted(near)
      ensures key != "Escape" && LowerCase(key) != "e" ==>
                && collected == old(collected) && fragmentsCollected == old(fragmentsCollected)
                && nearFragment == old(nearFragment) && tvHumOn == old(tvHumOn) && tvHumCreated == old(tvHumCreated) && lampIntensity == old(lampIntensity)
                && doorModalVisible == old(doorModalVisible) && doorModalCreated == old(doorModalCreated)
                && modalKeyAttached == old(modalKeyAttached) && doorUnlocked == old(doorUnlocked)
                && leftLevel == old(leftLevel) && isPaused == old(isPaused) && isGameOver == old(isGameOver)
                && battery == old(battery) && pausedBattery == old(pausedBattery)
    {
      if key == "Escape" {
        if !isGameOver {
          if isPaused {
            ResumeGame();
          } else {
            PauseGame();
          }
        }
        return;
      }
      LetterKey(LowerCase(key), near);
    }

    /** The C, E and T keys of the handler, given the lower-cased key. */
    method LetterKey(k: string, near: Near)
      requires Valid()
      modifies this
      ensures Valid()
      ensures thirdPerson == (old(thirdPerson) != (k == "c"))
      ensures tvState == (if k == "t" then NextTvState(old(tvState)) else old(tvState))
      ensures k == "e" ==> Interacted(near)
      ensures k != "e" ==>
                && collected == old(collected) && fragmentsCollected == old(fragmentsCollected)
                && nearFragment == old(nearFragment) && tvHumOn == old(tvHumOn) && tvHumCreated == old(tvHumCreated)
                && lampIntensity == old(lampIntensity)
                && doorModalVisible == old(doorModalVisible) && doorModalCreated == old(doorModalCreated)
                && modalKeyAttached == old(modalKeyAttached) && doorUnlocked == old(doorUnlocked)
                && leftLevel == old(leftLevel) && isPaused == old(isPaused) && isGameOver == old(isGameOver)
                && battery == old(battery) && pausedBattery == old(pausedBattery)
    {
      if k == "c" {
        thirdPerson := !thirdPerson;
      }
      if k == "e" {
        OnInteract(near);
      }
      if k == "t" {
        tvState := NextTvState(tvState);
      }
    }
  }
}

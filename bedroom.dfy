// The bedroom level (bedroom.js): the flashlight that must be picked up
// before F does anything, the crate that E pulls and releases, the
// interaction priority of handleInteract, escape through the door (which
// records the level as completed) and the walk/idle clip switch. Positions
// and distances are inputs: the distance of each pushable crate, whether
// the player stands on it and how squarely the player faces it.
module Bedroom {
  import opened Optional
  import opened Text
  import Levels

  const MaxBattery: real := 240.0
  /** getNearestPushable's default reach. */
  const PullReach: real := 2.4
  /** Third person: the player must face the crate at least this much (dot product). */
  const FacingThreshold: real := 0.2

  /** What the player is close to (interactState). */
  datatype Near = Near(door: bool, flashlight: bool, lamp: bool, bed: bool, table: bool, page: bool, crate: bool)

  /** handleInteract()'s effect, in its order of priority; the last five only show a message. */
  datatype Interaction = Escape | PickUpFlashlight | LampMessage | BedMessage | TableMessage | PageMessage | CrateMessage | NoInteraction

  function InteractionChoice(near: Near, pickupPresent: bool, hasFlashlight: bool): Interaction
  {
    if near.door then Escape
    else if near.flashlight && pickupPresent && !hasFlashlight then PickUpFlashlight
    else if near.lamp then LampMessage
    else if near.bed then BedMessage
    else if near.table then TableMessage
    else if near.page then PageMessage
    else if near.crate then CrateMessage
    else NoInteraction
  }

  /**
   * handleInteract's priority: the door first, then the flashlight (only
   * while the pickup is there and not yet owned), then lamp, bed, table,
   * page and crate, each only when nothing earlier applies.
   */
  lemma InteractionPriority(near: Near, pickupPresent: bool, hasFlashlight: bool)
    ensures var a := InteractionChoice(near, pickupPresent, hasFlashlight);
            var pickup := near.flashlight && pickupPresent && !hasFlashlight;
            && (a == Escape <==> near.door)
            && (a == PickUpFlashlight <==> !near.door && pickup)
            && (a == LampMessage <==> !near.door && !pickup && near.lamp)
            && (a == BedMessage <==> !near.door && !pickup && !near.lamp && near.bed)
            && (a == TableMessage <==> !near.door && !pickup && !near.lamp && !near.bed && near.table)
            && (a == PageMessage <==> !near.door && !pickup && !near.lamp && !near.bed && !near.table && near.page)
            && (a == CrateMessage <==> !near.door && !pickup && !near.lamp && !near.bed && !near.table && !near.page && near.crate)
  {
  }

  /** A crate getNearestPushable may pick: within reach and not stood on. */
  predicate Eligible(dists: seq<real>, standing: seq<bool>, i: int)
    requires |dists| == |standing|
  {
    0 <= i < |dists| && dists[i] <= PullReach && !standing[i]
  }

  /**
   * getNearestPushable() over the crates in order: a later crate replaces
   * the best so far only when strictly closer.
   */
  function Nearest(dists: seq<real>, standing: seq<bool>): Option<nat>
    requires |dists| == |standing|
  {
    if dists == [] then None
    else
      var n := |dists| - 1;
      var best := Nearest(dists[..n], standing[..n]);
      if Eligible(dists, standing, n) && (best.None? || (best.value < n && dists[n] < dists[best.value])) then Some(n)
      else best
  }

  /**
   * The nearest pushable is eligible, no eligible crate is closer, and no
   * earlier one is as close; there is none only when no crate is eligible.
   */
  lemma {:induction false} NearestIsClosest(dists: seq<real>, standing: seq<bool>)
    requires |dists| == |standing|
    ensures var r := Nearest(dists, standing);
            && (r.Some? ==> Eligible(dists, standing, r.value))
            && (r.Some? ==> forall j :: Eligible(dists, standing, j) ==> dists[r.value] <= dists[j])
            && (r.Some? ==> forall j :: 0 <= j < r.value && Eligible(dists, standing, j) ==> dists[r.value] < dists[j])
            && (r.None? <==> forall j :: !Eligible(dists, standing, j))
    decreases |dists|
  {
    if dists != [] {
      var n := |dists| - 1;
      NearestIsClosest(dists[..n], standing[..n]);
      assert forall j :: 0 <= j < n ==> (Eligible(dists[..n], standing[..n], j) <==> Eligible(dists, standing, j));
    }
  }

  /** The E key's decision when E is handled at all. */
  datatype EAction = CallInteract | StartPull(i: nat) | FaceCrate | Release

  function EKeyChoice(nearFlashlight: bool, pickupPresent: bool, hasFlashlight: bool, isPulling: bool,
                      nearest: Option<nat>, thirdPerson: bool, facingDots: seq<real>): EAction
  {
    if nearFlashlight && pickupPresent && !hasFlashlight then CallInteract
    else if isPulling then Release
    else if nearest.None? then CallInteract
    else if !thirdPerson then StartPull(nearest.value)
    else if nearest.value < |facingDots| && facingDots[nearest.value] > FacingThreshold then StartPull(nearest.value)
    else FaceCrate
  }

  /**
   * The E key: a flashlight that can be picked up goes to handleInteract
   * even while a crate is pulled; otherwise E releases a pulled crate, and
   * starts pulling the nearest one, in third person only when faced; with
   * no crate in reach it falls back to handleInteract.
   */
  lemma EKeyCases(nearFlashlight: bool, pickupPresent: bool, hasFlashlight: bool, isPulling: bool,
                  nearest: Option<nat>, thirdPerson: bool, facingDots: seq<real>)
    requires nearest.Some? ==> nearest.value < |facingDots|
    ensures var a := EKeyChoice(nearFlashlight, pickupPresent, hasFlashlight, isPulling, nearest, thirdPerson, facingDots);
            var pickup := nearFlashlight && pickupPresent && !hasFlashlight;
            && (a == Release <==> !pickup && isPulling)
            && (a.StartPull? <==> !pickup && !isPulling && nearest.Some? && (!thirdPerson || facingDots[nearest.value] > FacingThreshold))
            && (a.StartPull? ==> Some(a.i) == nearest)
            && (a == CallInteract <==> pickup || (!isPulling && nearest.None?))
  {
  }

  /** The base animation clip. */
  datatype Clip = NoClip | Idle | Walk

  class BedroomLevel {
    var isPaused: bool
    var introPlaying: bool
    var thirdPerson: bool
    var hasFlashlight: bool
    var pickupPresent: bool        // flashlightPickup != null
    var flashlightVisible: bool
    var battery: real
    var isPulling: bool
    var pulledObj: Option<nat>     // index of the pulled crate
    var storage: Levels.Storage
    var escaped: bool              // the door was used; the victory screen follows
    var wasMoving: bool
    var currentClip: Clip

    /**
     * The pickup is gone once the flashlight is owned, the light can be on
     * only when owned, and a crate is held exactly while pulling.
     */
    ghost predicate Valid()
      reads this
    {
      && (hasFlashlight ==> !pickupPresent)
      && (flashlightVisible ==> hasFlashlight)
      && (isPulling <==> pulledObj.Some?)
    }

    constructor (store: Levels.Storage)
      ensures Valid()
      ensures !isPaused && !introPlaying && thirdPerson
      ensures !hasFlashlight && pickupPresent && !flashlightVisible && battery == MaxBattery
      ensures !isPulling && pulledObj == None && storage == store && !escaped
      ensures !wasMoving && currentClip == NoClip
    {
      isPaused, introPlaying, thirdPerson := false, false, true;
      hasFlashlight, pickupPresent, flashlightVisible := false, true, false;
      battery := MaxBattery;
      isPulling, pulledObj := false, None;
      storage, escaped := store, false;
      wasMoving, currentClip := false, NoClip;
    }

    /** handleInteract(): only the door and the flashlight pickup change anything. */
    method HandleInteract(near: Near, time: string)
      requires Valid()
      modifies this
      ensures Valid()
      ensures var a := InteractionChoice(near, old(pickupPresent), old(hasFlashlight));
              && storage == (if a == Escape then Levels.CompleteLevel(old(storage), "bedroom", time) else old(storage))
              && escaped == (old(escaped) || a == Escape)
              && hasFlashlight == (old(hasFlashlight) || a == PickUpFlashlight)
              && pickupPresent == (old(pickupPresent) && a != PickUpFlashlight)
              && flashlightVisible == (old(flashlightVisible) || a == PickUpFlashlight)
      ensures isPulling == old(isPulling) && pulledObj == old(pulledObj) && isPaused == old(isPaused)
      ensures thirdPerson == old(thirdPerson) && battery == old(battery) && introPlaying == old(introPlaying)
      ensures wasMoving == old(wasMoving) && currentClip == old(currentClip)
    {
      if near.door {
        storage := Levels.CompleteLevel(storage, "bedroom", time);
        escaped := true;
      } else if near.flashlight && pickupPresent && !hasFlashlight {
        hasFlashlight := true;
        pickupPresent := false;
        flashlightVisible := true;  // the short blink that shows the new light
      }
    }

    /**
     * The end of the pickup blink (900 ms later): the light goes off and
     * updateAnimationState() runs for the current movement.
     */
    method PickupBlinkDone(moving: bool)
      requires Valid()
      modifies this
      ensures Valid()
      ensures !flashlightVisible
      ensures moving != old(wasMoving) ==> wasMoving == moving && currentClip == (if moving then Walk else Idle)
      ensures moving == old(wasMoving) ==> wasMoving == old(wasMoving) && currentClip == old(currentClip)
      ensures hasFlashlight == old(hasFlashlight) && pickupPresent == old(pickupPresent) && battery == old(battery)
      ensures isPulling == old(isPulling) && pulledObj == old(pulledObj) && storage == old(storage) && escaped == old(escaped)
      ensures isPaused == old(isPaused) && introPlaying == old(introPlaying) && thirdPerson == old(thirdPerson)
    {
      flashlightVisible := false;
      UpdateAnimationState(false, moving);
    }

    /** getNearestPushable(2.4). */
    method NearestPushable(dists: seq<real>, standing: seq<bool>) returns (best: Option<nat>)
      requires |dists| == |standing|
      ensures best == Nearest(dists, standing)
    {
      best := None;
      var bestD := 0.0;
      var k := 0;
      while k < |dists|
        invariant 0 <= k <= |dists|
        invariant best == Nearest(dists[..k], standing[..k])
        invariant best.Some? ==> best.value < k && bestD == dists[best.value]
      {
        assert dists[..k + 1][..k] == dists[..k] && standing[..k + 1][..k] == standing[..k];
        if (best.None? || dists[k] < bestD) && dists[k] <= PullReach && !standing[k] {
          best := Some(k);
          bestD := dists[k];
        }
        k := k + 1;
      }
      assert dists[..k] == dists && standing[..k] == standing;
    }

    /**
     * The F key: toggles the light only when owned and charged, and then
     * runs updateAnimationState() for the current movement.
     */
    method FlashlightKey(moving: bool)
      requires Valid()
      modifies this
      ensures Valid()
      ensures var toggled := old(hasFlashlight) && old(battery) > 0.0;
              && flashlightVisible == (if toggled then !old(flashlightVisible) else old(flashlightVisible))
              && (toggled && moving != old(wasMoving) ==> wasMoving == moving && currentClip == (if moving then Walk else Idle))
              && (!toggled || moving == old(wasMoving) ==> wasMoving == old(wasMoving) && currentClip == old(currentClip))
      ensures hasFlashlight == old(hasFlashlight) && pickupPresent == old(pickupPresent) && battery == old(battery)
      ensures isPulling == old(isPulling) && pulledObj == old(pulledObj) && storage == old(storage) && escaped == old(escaped)
      ensures isPaused == old(isPaused) && introPlaying == old(introPlaying) && thirdPerson == old(thirdPerson)
    {
      if hasFlashlight && battery > 0.0 {
        flashlightVisible := !flashlightVisible;
        UpdateAnimationState(false, moving);
      }
    }

    /** The C and F keys, which are not blocked by pause or the intro. */
    method CameraAndLight(k: string, moving: bool)
      requires Valid()
      modifies this
      ensures Valid()
      ensures thirdPerson == (old(thirdPerson) != (k == "c"))
      ensures flashlightVisible == (if k == "f" && old(hasFlashlight) && old(battery) > 0.0 then !old(flashlightVisible) else old(flashlightVisible))
      ensures hasFlashlight == old(hasFlashlight) && pickupPresent == old(pickupPresent) && battery == old(battery)
      ensures isPulling == old(isPulling) && pulledObj == old(pulledObj) && storage == old(storage) && escaped == old(escaped)
      ensures isPaused == old(isPaused) && introPlaying == old(introPlaying)
      ensures var toggled := k == "f" && old(hasFlashlight) && old(battery) > 0.0;
              && (toggled && moving != old(wasMoving) ==> wasMoving == moving && currentClip == (if moving then Walk else Idle))
              && (!toggled || moving == old(wasMoving) ==> wasMoving == old(wasMoving) && currentClip == old(currentClip))
    {
      if k == "c" {
        thirdPerson := !thirdPerson;
      }
      if k == "f" {
        FlashlightKey(moving);
      }
    }

    /**
     * What the E key does, from the state before it to the state after,
     * given the camera mode `third` and the light `light` in effect when it
     * is handled.
     */
    twostate predicate EKeyed(near: Near, dists: seq<real>, standing: seq<bool>, facingDots: seq<real>, time: string,
                              third: bool, light: bool)
      requires |dists| == |standing|
      reads this
    {
      var a := EKeyChoice(near.flashlight, old(pickupPresent), old(hasFlashlight), old(isPulling), Nearest(dists, standing), third, facingDots);
      var i := InteractionChoice(near, old(pickupPresent), old(hasFlashlight));
      var pickup := a == CallInteract && i == PickUpFlashlight;
      var escape := a == CallInteract && i == Escape;
      && (a == Release ==> !isPulling && pulledObj == None)
      && (a.StartPull? ==> isPulling && pulledObj == Some(a.i))
      && (a == FaceCrate || a == CallInteract ==> isPulling == old(isPulling) && pulledObj == old(pulledObj))
      && storage == (if escape then Levels.CompleteLevel(old(storage), "bedroom", time) else old(storage))
      && escaped == (old(escaped) || escape)
      && hasFlashlight == (old(hasFlashlight) || pickup)
      && pickupPresent == (old(pickupPresent) && !pickup)
      && flashlightVisible == (light || pickup)
    }

    /** The E key while input is not blocked. */
    method EKey(near: Near, dists: seq<real>, standing: seq<bool>, facingDots: seq<real>, time: string)
      requires Valid() && |dists| == |standing| == |facingDots|
      modifies this
      ensures Valid()
      ensures var nearest := Nearest(dists, standing);
              var a := EKeyChoice(near.flashlight, old(pickupPresent), old(hasFlashlight), old(isPulling), nearest, old(thirdPerson), facingDots);
              var i := InteractionChoice(near, old(pickupPresent), old(hasFlashlight));
              && (a == Release ==> !isPulling && pulledObj == None)
              && (a.StartPull? ==> isPulling && pulledObj == Some(a.i))
              && (a == FaceCrate ==> isPulling == old(isPulling) && pulledObj == old(pulledObj))
              && (a == CallInteract ==> isPulling == old(isPulling) && pulledObj == old(pulledObj))
              && storage == (if a == CallInteract && i == Escape then Levels.CompleteLevel(old(storage), "bedroom", time) else old(storage))
              && hasFlashlight == (old(hasFlashlight) || (a == CallInteract && i == PickUpFlashlight))
      ensures EKeyed(near, dists, standing, facingDots, time, old(thirdPerson), old(flashlightVisible))
      ensures isPaused == old(isPaused) && thirdPerson == old(thirdPerson) && battery == old(battery)
      ensures introPlaying == old(introPlaying) && wasMoving == old(wasMoving) && currentClip == old(currentClip)
    {
      if near.flashlight && pickupPresent && !hasFlashlight {
        HandleInteract(near, time);
        return;
      }
      if !isPulling {
        var nearest := NearestPushable(dists, standing);
        NearestIsClosest(dists, standing);
        if nearest.Some? {
          if !thirdPerson || facingDots[nearest.value] > FacingThreshold {
            isPulling := true;
            pulledObj := nearest;
          }
        } else {
          HandleInteract(near, time);
        }
      } else {
        isPulling := false;
        pulledObj := None;
      }
    }

    /**
     * Any key but Escape, as `k` in lower case: C and F work even while
     * paused or during the intro; E only outside those.
     */
    method LetterKey(k: string, code: string, near: Near, dists: seq<real>, standing: seq<bool>, facingDots: seq<real>, time: string,
                     moving: bool)
      requires Valid() && |dists| == |standing| == |facingDots|
      modifies this
      ensures Valid()
      ensures isPaused == old(isPaused) && thirdPerson == (old(thirdPerson) != (k == "c"))
      ensures var light := if k == "f" && old(hasFlashlight) && old(battery) > 0.0 then !old(flashlightVisible) else old(flashlightVisible);
              && (code != "KeyE" ==> flashlightVisible == light)
              && (!old(isPaused) && !old(introPlaying) && code == "KeyE" ==> EKeyed(near, dists, standing, facingDots, time, thirdPerson, light))
              && (old(isPaused) || old(introPlaying) ==> flashlightVisible == light)
      ensures old(isPaused) || old(introPlaying) || code != "KeyE" ==>
                isPulling == old(isPulling) && pulledObj == old(pulledObj) && storage == old(storage) && hasFlashlight == old(hasFlashlight)
                && pickupPresent == old(pickupPresent) && escaped == old(escaped)
      ensures battery == old(battery) && introPlaying == old(introPlaying)
      ensures var toggled := k == "f" && old(hasFlashlight) && old(battery) > 0.0;
              && (toggled && moving != old(wasMoving) ==> wasMoving == moving && currentClip == (if moving then Walk else Idle))
              && (!toggled || moving == old(wasMoving) ==> wasMoving == old(wasMoving) && currentClip == old(currentClip))
    {
      CameraAndLight(k, moving);
      if isPaused || introPlaying {
        return;
      }
      if code == "KeyE" {
        EKey(near, dists, standing, facingDots, time);
      }
    }

    /**
     * The keydown handler: Escape toggles pause; C and F work even while
     * paused or during the intro; E only outside those.
     */
    method KeyDown(key: string, code: string, near: Near, dists: seq<real>, standing: seq<bool>, facingDots: seq<real>, time: string,
                   moving: bool)
      requires Valid() && |dists| == |standing| == |facingDots|
      modifies this
      ensures Valid()
      ensures key == "Escape" ==> isPaused == !old(isPaused) && thirdPerson == old(thirdPerson)
                                  && flashlightVisible == old(flashlightVisible) && isPulling == old(isPulling)
                                  && pulledObj == old(pulledObj) && storage == old(storage) && escaped == old(escaped)
                                  && hasFlashlight == old(hasFlashlight) && pickupPresent == old(pickupPresent)
                                  && wasMoving == old(wasMoving) && currentClip == old(currentClip)
      ensures key != "Escape" ==>
                && isPaused == old(isPaused)
                && thirdPerson == (old(thirdPerson) != (LowerCase(key) == "c"))
      ensures var light := if key != "Escape" && LowerCase(key) == "f" && old(hasFlashlight) && old(battery) > 0.0
                           then !old(flashlightVisible) else old(flashlightVisible);
              && (key != "Escape" && code != "KeyE" ==> flashlightVisible == light)
              && (key != "Escape" && !old(isPaused) && !old(introPlaying) && code == "KeyE" ==>
                    EKeyed(near, dists, standing, facingDots, time, thirdPerson, light))
              && (key != "Escape" && (old(isPaused) || old(introPlaying)) ==> flashlightVisible == light)
      ensures key == "Escape" || old(isPaused) || old(introPlaying) || code != "KeyE" ==>
                isPulling == old(isPulling) && pulledObj == old(pulledObj) && storage == old(storage) && hasFlashlight == old(hasFlashlight)
                && pickupPresent == old(pickupPresent) && escaped == old(escaped)
      ensures battery == old(battery) && introPlaying == old(introPlaying)
      ensures var toggled := key != "Escape" && LowerCase(key) == "f" && old(hasFlashlight) && old(battery) > 0.0;
              && (toggled && moving != old(wasMoving) ==> wasMoving == moving && currentClip == (if moving then Walk else Idle))
              && (!toggled || moving == old(wasMoving) ==> wasMoving == old(wasMoving) && currentClip == old(currentClip))
    {
      if key == "Escape" {
        isPaused := !isPaused;
        return;
      }
      LetterKey(LowerCase(key), code, near, dists, standing, facingDots, time, moving);
    }

    /** updateAnimationState(initial): switches the base clip only when the moving state changes, or on the initial call. */
    method UpdateAnimationState(initial: bool, moving: bool)
      modifies this
      ensures initial || moving != old(wasMoving) ==> wasMoving == moving && currentClip == (if moving then Walk else Idle)
      ensures !initial && moving == old(wasMoving) ==> wasMoving == old(wasMoving) && currentClip == old(currentClip)
      ensures isPaused == old(isPaused) && hasFlashlight == old(hasFlashlight) && isPulling == old(isPulling)
      ensures pickupPresent == old(pickupPresent) && flashlightVisible == old(flashlightVisible) && pulledObj == old(pulledObj)
      ensures storage == old(storage) && escaped == old(escaped) && battery == old(battery)
      ensures introPlaying == old(introPlaying) && thirdPerson == old(thirdPerson)
    {
      if initial || moving != wasMoving {
        wasMoving := moving;
        currentClip := if moving then Walk else Idle;
      }
    }
  }

  /** Once the flashlight is owned, handleInteract can never pick it up again. */
  lemma PickupOnlyOnce(near: Near, pickupPresent: bool)
    ensures InteractionChoice(near, pickupPresent, true) != PickUpFlashlight
    ensures InteractionChoice(near, false, false) != PickUpFlashlight
  {
  }
}

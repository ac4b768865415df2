// The platforms level (platforms.js): falling below the death height kills
// the player, who respawns on the first platform after a delay; the
// victory text near the door appears once; the flashlight and movement
// keys are ignored while dead. Physics and the camera are outside the
// model: the player's position is set by the caller between steps.
module Platforms {
  import opened Text

  const DeathHeight: real := 2.0
  /** Milliseconds between death and respawn. */
  const RespawnDelay: int := 2000
  const MaxBattery: real := 300.0

  datatype Vec = Vec(x: real, y: real, z: real)

  /** platforms[0] is at (-6, 9, -25), 0.5 high; the player respawns one unit above its top. */
  const PlatformTop: real := 9.0 + 0.5 / 2.0
  const Spawn: Vec := Vec(-6.0, PlatformTop + 1.0, -25.0)
  /** The door light, the centre of the victory zone. */
  const DoorPosition: Vec := Vec(0.0, 13.0, 28.0)

  /** Inside the box of platforms[7]: centre (0, 10, 28), size 4 x 0.5 x 5. */
  predicate OnFinalPlatform(p: Vec)
  {
    -2.0 <= p.x <= 2.0 && 9.75 <= p.y <= 10.25 && 25.5 <= p.z <= 30.5
  }

  /** Closer to the door than VICTORY_DISTANCE (1), compared squared. */
  predicate NearDoor(p: Vec)
  {
    var dx := p.x - DoorPosition.x;
    var dy := p.y - DoorPosition.y;
    var dz := p.z - DoorPosition.z;
    dx * dx + dy * dy + dz * dz < 1.0
  }

  /** The respawn point is above the death height and outside the victory zone. */
  lemma SpawnIsSafe()
    ensures Spawn.y >= DeathHeight
    ensures !OnFinalPlatform(Spawn) && !NearDoor(Spawn)
  {
  }

  /** The held movement keys. */
  datatype Keys = Keys(w: bool, a: bool, s: bool, d: bool, space: bool)

  const NoKeys := Keys(false, false, false, false, false)

  /** keydown on a movement key presses it; any other code leaves the keys as they are. */
  function PressKey(k: Keys, code: string): (r: Keys)
    ensures code !in {"KeyW", "KeyA", "KeyS", "KeyD", "Space"} ==> r == k
  {
    match code
    case "KeyW" => k.(w := true)
    case "KeyA" => k.(a := true)
    case "KeyS" => k.(s := true)
    case "KeyD" => k.(d := true)
    case "Space" => k.(space := true)
    case _ => k
  }

  /** keyup on a movement key releases it. */
  function ReleaseKey(k: Keys, code: string): (r: Keys)
    ensures code !in {"KeyW", "KeyA", "KeyS", "KeyD", "Space"} ==> r == k
  {
    match code
    case "KeyW" => k.(w := false)
    case "KeyA" => k.(a := false)
    case "KeyS" => k.(s := false)
    case "KeyD" => k.(d := false)
    case "Space" => k.(space := false)
    case _ => k
  }

  /** Releasing a key undoes pressing it when it was up before. */
  lemma ReleaseUndoesPress(k: Keys, code: string)
    requires code == "KeyW" ==> !k.w
    requires code == "KeyA" ==> !k.a
    requires code == "KeyS" ==> !k.s
    requires code == "KeyD" ==> !k.d
    requires code == "Space" ==> !k.space
    ensures ReleaseKey(PressKey(k, code), code) == k
  {
  }

  class PlatformsLevel {
    var position: Vec
    var velocityY: real
    var isGrounded: bool
    var isDead: bool
    var deathTime: int
    var isWalking: bool
    var hasFlashlight: bool
    var flashlightVisible: bool
    var battery: real
    var victoryTextShown: bool
    var thirdPerson: bool
    var keys: Keys

    /** A dead player is still, with the flashlight off. */
    ghost predicate Valid()
      reads this
    {
      isDead ==> !flashlightVisible && velocityY == 0.0 && !isWalking
    }

    constructor (start: Vec)
      ensures Valid()
      ensures position == start && velocityY == 0.0 && !isGrounded && !isDead && deathTime == 0
      ensures !isWalking && hasFlashlight && !flashlightVisible && battery == MaxBattery
      ensures !victoryTextShown && keys == NoKeys
    {
      position, velocityY, isGrounded := start, 0.0, false;
      isDead, deathTime, isWalking := false, 0, false;
      hasFlashlight, flashlightVisible, battery := true, false, MaxBattery;
      victoryTextShown, thirdPerson, keys := false, true, NoKeys;
    }

    /** killPlayer(): does nothing to a dead player. */
    method KillPlayer(now: int)
      requires Valid()
      modifies this
      ensures Valid()
      ensures old(isDead) ==> isDead && deathTime == old(deathTime) && flashlightVisible == old(flashlightVisible)
      ensures !old(isDead) ==> isDead && deathTime == now && !flashlightVisible && velocityY == 0.0 && !isWalking
      ensures position == old(position) && victoryTextShown == old(victoryTextShown) && battery == old(battery)
      ensures keys == old(keys) && isGrounded == old(isGrounded) && thirdPerson == old(thirdPerson)
    {
      if isDead {
        return;
      }
      isDead := true;
      deathTime := now;
      flashlightVisible := false;
      velocityY := 0.0;
      isWalking := false;
    }

    /** respawnPlayer(): back on the first platform, alive, still and grounded. */
    method RespawnPlayer()
      requires Valid()
      modifies this
      ensures Valid()
      ensures !isDead && position == Spawn && velocityY == 0.0 && isGrounded
      ensures deathTime == old(deathTime) && flashlightVisible == old(flashlightVisible) && victoryTextShown == old(victoryTextShown)
      ensures keys == old(keys) && battery == old(battery) && thirdPerson == old(thirdPerson)
    {
      isDead := false;
      position := Spawn;
      velocityY := 0.0;
      isGrounded := true;
    }

    /**
     * checkDeathCondition(): a living player below the death height dies
     * now; a player dead for more than the respawn delay respawns (so never
     * in the same call that killed them).
     */
    method CheckDeathCondition(now: int)
      requires Valid()
      modifies this
      ensures Valid()
      ensures !old(isDead) && old(position).y < DeathHeight ==> isDead && deathTime == now && position == old(position)
      ensures !old(isDead) && old(position).y >= DeathHeight ==> !isDead && position == old(position) && velocityY == old(velocityY)
      ensures old(isDead) && now - old(deathTime) > RespawnDelay ==> !isDead && position == Spawn && isGrounded
      ensures old(isDead) && now - old(deathTime) <= RespawnDelay ==> isDead && position == old(position)
      ensures victoryTextShown == old(victoryTextShown) && keys == old(keys) && battery == old(battery)
    {
      if position.y < DeathHeight && !isDead {
        KillPlayer(now);
      }
      if isDead && now - deathTime > RespawnDelay {
        RespawnPlayer();
      }
    }

    /** checkVictoryCondition(): the text is shown at most once, and never while dead. */
    method CheckVictoryCondition()
      requires Valid()
      modifies this
      ensures Valid()
      ensures victoryTextShown == (old(victoryTextShown) || (!isDead && (OnFinalPlatform(position) || NearDoor(position))))
      ensures position == old(position) && isDead == old(isDead) && deathTime == old(deathTime)
      ensures flashlightVisible == old(flashlightVisible) && keys == old(keys) && battery == old(battery)
    {
      if victoryTextShown || isDead {
        return;
      }
      if OnFinalPlatform(position) || NearDoor(position) {
        victoryTextShown := true;
      }
    }

    /** The F key (window listener): ignored while dead; a flat battery forces the light off. */
    method FlashlightKey(key: string)
      requires Valid()
      modifies this
      ensures Valid()
      ensures old(isDead) || LowerCase(key) != "f" ==> flashlightVisible == old(flashlightVisible)
      ensures !old(isDead) && LowerCase(key) == "f" ==>
                flashlightVisible == (if old(hasFlashlight) && old(battery) > 0.0 then !old(flashlightVisible)
                                      else if old(battery) <= 0.0 then false else old(flashlightVisible))
      ensures position == old(position) && isDead == old(isDead) && victoryTextShown == old(victoryTextShown)
      ensures keys == old(keys) && battery == old(battery) && thirdPerson == old(thirdPerson)
    {
      if LowerCase(key) == "f" && !isDead {
        if hasFlashlight && battery > 0.0 {
          flashlightVisible := !flashlightVisible;
        } else if battery <= 0.0 {
          flashlightVisible := false;
        }
      }
    }

    /** The movement listener: ignored while dead; C switches the camera. */
    method MovementKeyDown(code: string)
      requires Valid()
      modifies this
      ensures Valid()
      ensures old(isDead) ==> keys == old(keys) && thirdPerson == old(thirdPerson)
      ensures !old(isDead) ==> keys == PressKey(old(keys), code) && thirdPerson == (old(thirdPerson) != (code == "KeyC"))
      ensures position == old(position) && isDead == old(isDead) && flashlightVisible == old(flashlightVisible)
      ensures victoryTextShown == old(victoryTextShown) && battery == old(battery)
    {
      if isDead {
        return;
      }
      keys := PressKey(keys, code);
      if code == "KeyC" {
        thirdPerson := !thirdPerson;
      }
    }

    /** keyup releases a movement key, dead or alive. */
    method KeyUp(code: string)
      modifies this
      ensures keys == ReleaseKey(old(keys), code)
      ensures position == old(position) && isDead == old(isDead) && flashlightVisible == old(flashlightVisible)
      ensures victoryTextShown == old(victoryTextShown) && thirdPerson == old(thirdPerson)
    {
      keys := ReleaseKey(keys, code);
    }
  }
}

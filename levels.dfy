// Level progress kept in the browser's localStorage (completeLevel and
// getCompletedLevels in kitchen.js and bedroom.js). Storage is a map from
// key to stored string; the completion timestamp is an input.
module Levels {
  import opened Optional

  type Storage = map<string, string>

  /**
   * initializeBattery() in kitchen.js and living-room.js: a battery level saved by an
   * earlier visit (already parsed) is kept when it is positive; an absent or used-up one
   * starts over at full. The level never starts with an empty battery.
   */
  function RestoredBattery(saved: Option<real>, full: real): (r: real)
    requires full > 0.0
    ensures r > 0.0
    ensures saved.Some? && saved.value > 0.0 ==> r == saved.value
    ensures saved.None? || saved.value <= 0.0 ==> r == full
  {
    if saved.Some? && saved.value > 0.0 then saved.value else full
  }

  /** The fixed order getCompletedLevels lists levels in. */
  const LevelOrder: seq<string> := ["bedroom", "kitchen", "living-room", "secret-room"]

  /** `level_${name}_completed`. */
  function FlagKey(name: string): string
  {
    "level_" + name + "_completed"
  }

  /** `level_${name}_completed_time`. */
  function TimeKey(name: string): string
  {
    FlagKey(name) + "_time"
  }

  predicate IsCompleted(store: Storage, name: string)
  {
    FlagKey(name) in store && store[FlagKey(name)] == "true"
  }

  /** r keeps some of the entries of s, in the order s has them. */
  predicate SubsequenceOf(r: seq<string>, s: seq<string>)
    decreases |s|
  {
    if r == [] then true
    else if s == [] then false
    else if r[0] == s[0] then SubsequenceOf(r[1..], s[1..])
    else SubsequenceOf(r, s[1..])
  }

  /** `levels.filter(level => localStorage.getItem(flag) === 'true')`. */
  function FilterCompleted(levels: seq<string>, store: Storage): (r: seq<string>)
    ensures forall l :: l in r <==> l in levels && IsCompleted(store, l)
    ensures SubsequenceOf(r, levels)
    decreases |levels|
  {
    if levels == [] then []
    else if IsCompleted(store, levels[0]) then [levels[0]] + FilterCompleted(levels[1..], store)
    else FilterCompleted(levels[1..], store)
  }

  /** getCompletedLevels(). */
  function CompletedLevels(store: Storage): (r: seq<string>)
    ensures forall l :: l in r <==> l in LevelOrder && IsCompleted(store, l)
    ensures SubsequenceOf(r, LevelOrder)
  {
    FilterCompleted(LevelOrder, store)
  }

  /** completeLevel(name): set its flag to 'true' and record the time. */
  function CompleteLevel(store: Storage, name: string, time: string): Storage
  {
    store[FlagKey(name) := "true"][TimeKey(name) := time]
  }

  /** Different names have different flag keys. */
  lemma FlagKeyInjective(a: string, b: string)
    requires FlagKey(a) == FlagKey(b)
    ensures a == b
  {
    assert |a| == |b|;
    assert a == FlagKey(a)[6..6 + |a|];
    assert b == FlagKey(b)[6..6 + |b|];
  }

  /** A time key never coincides with a flag key: they end in different letters. */
  lemma TimeKeyNotFlag(a: string, b: string)
    ensures TimeKey(a) != FlagKey(b)
  {
    var t, f := TimeKey(a), FlagKey(b);
    assert t[|t| - 1] == 'e' && f[|f| - 1] == 'd';
  }

  /**
   * After completeLevel(name), name counts as completed and every other
   * level keeps its status.
   */
  lemma CompleteLevelEffect(store: Storage, name: string, time: string, other: string)
    ensures IsCompleted(CompleteLevel(store, name, time), name)
    ensures other != name ==>
              (IsCompleted(CompleteLevel(store, name, time), other) <==> IsCompleted(store, other))
  {
    TimeKeyNotFlag(name, name);
    TimeKeyNotFlag(name, other);
    if other != name && FlagKey(other) == FlagKey(name) {
      FlagKeyInjective(other, name);
    }
  }

  /** So a completed level shows up in getCompletedLevels afterwards. */
  lemma CompletedAfterwards(store: Storage, name: string, time: string)
    requires name in LevelOrder
    ensures name in CompletedLevels(CompleteLevel(store, name, time))
  {
    CompleteLevelEffect(store, name, time, name);
  }
}

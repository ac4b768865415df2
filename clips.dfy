// The character loader (character-loader.js): the case-insensitive search
// for an animation clip among a list of wanted names, the rule that hides
// ground meshes and gives every other mesh shadows, and the choice of the
// node the animation mixer drives. Clips and meshes are represented by
// their names (an unnamed one has the empty name, as `name || ''` gives).
module Clips {
  import opened Optional
  import opened Text

  /** The first index whose lower-cased clip name equals w (`lc.find(x => x.n === w)`). */
  function FindExact(names: seq<string>, w: string): (r: Option<nat>)
    ensures r.Some? ==> r.value < |names| && LowerCase(names[r.value]) == w
    ensures r.Some? ==> forall j :: 0 <= j < r.value ==> LowerCase(names[j]) != w
    ensures r.None? ==> forall j :: 0 <= j < |names| ==> LowerCase(names[j]) != w
  {
    if names == [] then None
    else if LowerCase(names[0]) == w then Some(0)
    else
      var r := FindExact(names[1..], w);
      if r.Some? then Some(r.value + 1) else None
  }

  /** The first index whose lower-cased clip name contains w (`x.n.includes(w)`). */
  function FindContaining(names: seq<string>, w: string): (r: Option<nat>)
    ensures r.Some? ==> r.value < |names| && Contains(LowerCase(names[r.value]), w)
    ensures r.Some? ==> forall j :: 0 <= j < r.value ==> !Contains(LowerCase(names[j]), w)
    ensures r.None? ==> forall j :: 0 <= j < |names| ==> !Contains(LowerCase(names[j]), w)
  {
    if names == [] then None
    else if Contains(LowerCase(names[0]), w) then Some(0)
    else
      var r := FindContaining(names[1..], w);
      if r.Some? then Some(r.value + 1) else None
  }

  /** One wanted name: an exact match first, then a substring match. */
  function ClipFor(names: seq<string>, wanted: string): Option<nat>
  {
    var w := LowerCase(wanted);
    var exact := FindExact(names, w);
    if exact.Some? then exact else FindContaining(names, w)
  }

  /** The answer findClip gives: the clip for the first wanted name that has one. */
  function ClipChoice(names: seq<string>, wanted: seq<string>): Option<nat>
    decreases |wanted|
  {
    if wanted == [] then None
    else if ClipFor(names, wanted[0]).Some? then ClipFor(names, wanted[0])
    else ClipChoice(names, wanted[1..])
  }

  /** findClip(names). */
  method FindClip(names: seq<string>, wanted: seq<string>) returns (r: Option<nat>)
    ensures r == ClipChoice(names, wanted)
  {
    var k := 0;
    while k < |wanted|
      invariant 0 <= k <= |wanted|
      invariant ClipChoice(names, wanted) == ClipChoice(names, wanted[k..])
    {
      assert wanted[k..][1..] == wanted[k + 1..];
      var w := LowerCase(wanted[k]);
      var hit := FindExact(names, w);
      if hit.Some? {
        return hit;
      }
      hit := FindContaining(names, w);
      if hit.Some? {
        return hit;
      }
      k := k + 1;
    }
    return None;
  }

  /** An equal name contains itself. */
  lemma ContainsItself(s: string)
    ensures Contains(s, s)
  {
    assert OccursAt(s, s, 0);
  }

  /**
   * For one wanted name: when some clip's name equals it (ignoring case)
   * the first such clip is chosen, even if an earlier clip merely contains
   * it; otherwise the first clip whose name contains it.
   */
  lemma ExactBeatsSubstring(names: seq<string>, wanted: string)
    ensures var r, w := ClipFor(names, wanted), LowerCase(wanted);
            && ((exists i :: 0 <= i < |names| && LowerCase(names[i]) == w) ==>
                  r.Some? && r.value < |names| && LowerCase(names[r.value]) == w
                  && forall j :: 0 <= j < r.value ==> LowerCase(names[j]) != w)
            && ((forall i :: 0 <= i < |names| ==> LowerCase(names[i]) != w) ==> r == FindContaining(names, w))
  {
  }

  /**
   * findClip's order: a clip is returned for the first wanted name that
   * matches any clip (exactly or as a substring), and null only when no
   * wanted name occurs in any clip name.
   */
  lemma {:induction false} EarlierNameWins(names: seq<string>, wanted: seq<string>)
    ensures var r := ClipChoice(names, wanted);
            && (r.None? <==> forall k, i :: 0 <= k < |wanted| && 0 <= i < |names| ==>
                                 !Contains(LowerCase(names[i]), LowerCase(wanted[k])))
            && (r.Some? ==> exists k :: 0 <= k < |wanted| && r == ClipFor(names, wanted[k])
                                        && forall j :: 0 <= j < k ==> ClipFor(names, wanted[j]).None?)
    decreases |wanted|
  {
    if wanted != [] {
      EarlierNameWins(names, wanted[1..]);
      var r := ClipChoice(names, wanted);
      var w := LowerCase(wanted[0]);
      if ClipFor(names, wanted[0]).None? {
        forall i | 0 <= i < |names|
          ensures !Contains(LowerCase(names[i]), w)
        {
        }
        if r.Some? {
          var k :| 0 <= k < |wanted[1..]| && r == ClipFor(names, wanted[1..][k])
                   && forall j :: 0 <= j < k ==> ClipFor(names, wanted[1..][j]).None?;
          assert r == ClipFor(names, wanted[k + 1]);
          assert forall j :: 0 <= j < k + 1 ==> ClipFor(names, wanted[j]).None? by {
            forall j | 0 <= j < k + 1
              ensures ClipFor(names, wanted[j]).None?
            {
              if j > 0 {
                assert wanted[j] == wanted[1..][j - 1];
              }
            }
          }
        } else {
          forall k, i | 0 <= k < |wanted| && 0 <= i < |names|
            ensures !Contains(LowerCase(names[i]), LowerCase(wanted[k]))
          {
            if k > 0 {
              assert wanted[k] == wanted[1..][k - 1];
            }
          }
        }
      } else {
        var e := FindExact(names, w);
        if e.Some? {
          ContainsItself(LowerCase(names[e.value]));
        }
        assert r == ClipFor(names, wanted[0]);
      }
    }
  }

  /** Upper and lower case in the wanted names make no difference. */
  lemma CaseInsensitive(names: seq<string>, wanted: string)
    ensures ClipFor(names, wanted) == ClipFor(names, LowerCase(wanted))
  {
    LowerCaseIdempotent(wanted);
  }

  /** What the loader does to one mesh of the model. */
  datatype MeshLook = Hidden | Shadowed

  /** A ground mesh by name: it mentions a plane, the ground or the floor. */
  predicate IsGroundName(name: string)
  {
    var n := LowerCase(name);
    Contains(n, "plane") || Contains(n, "ground") || Contains(n, "floor")
  }

  function PrepareMesh(name: string, removeGround: bool): (r: MeshLook)
    ensures r == Hidden <==> removeGround && IsGroundName(name)
  {
    if removeGround && IsGroundName(name) then Hidden else Shadowed
  }

  /** The traversal over all meshes. */
  function PrepareMeshes(names: seq<string>, removeGround: bool): (r: seq<MeshLook>)
    ensures |r| == |names|
    ensures forall i :: 0 <= i < |names| ==> r[i] == PrepareMesh(names[i], removeGround)
  {
    seq(|names|, i requires 0 <= i < |names| => PrepareMesh(names[i], removeGround))
  }

  /** Without removeGround nothing is hidden; "Ground_Plane" is hidden with it. */
  lemma GroundRule(names: seq<string>)
    ensures forall i :: 0 <= i < |names| ==> PrepareMeshes(names, false)[i] == Shadowed
    ensures PrepareMesh("Ground_Plane", true) == Hidden
  {
    assert LowerCase("Ground_Plane") == "ground_plane";
    assert OccursAt("ground_plane", "ground", 0);
  }

  /** The node the mixer drives. */
  datatype ModelRoot = Metarig | SceneRoot | SkinnedAncestor | MeshAncestor

  /**
   * The loader's choice: `rig || root`, then fallbacks that apply only
   * when that is null.
   */
  function ChooseModelRoot(hasMetarig: bool, hasSkinnedMesh: bool, hasMesh: bool): ModelRoot
  {
    var model: Option<ModelRoot> := Some(if hasMetarig then Metarig else SceneRoot);
    if !hasMetarig && model.None? && hasSkinnedMesh then SkinnedAncestor
    else if !hasMetarig && model.None? && hasMesh then MeshAncestor
    else model.value
  }

  /** The model root is the rig when there is one and the scene root otherwise: the fallbacks never run. */
  lemma FallbacksNeverRun(hasMetarig: bool, hasSkinnedMesh: bool, hasMesh: bool)
    ensures ChooseModelRoot(hasMetarig, hasSkinnedMesh, hasMesh) == (if hasMetarig then Metarig else SceneRoot)
  {
  }
}

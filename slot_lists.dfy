/** The two list edits the mesh-merge library performs on arrays of slot
    mappings, as functions on sequences: keep the entries that pass a test
    (filtering out null meshes, removing matching slots), and overwrite the
    mesh of the first entry that passes a test or else append a new entry
    (overriding a slot, upserting a dynamic mesh). */
module SlotLists {
  import opened GameplayTags
  import opened MeshMergeTypes

  /** The test of the merge scan: the dynamic slot `tag` matches the entry's
      slot (`tag.MatchesTag(Entry.Slot)`). */
  function MatchedBy(tag: GameplayTag): MeshMap -> bool {
    (e: MeshMap) => Matches(tag, e.slot)
  }

  /** The test of AddDynamicMesh and RemoveDynamicMesh: the entry's slot
      matches `tag` (`Entry.Slot.MatchesTag(tag)`). */
  function SlotMatches(tag: GameplayTag): MeshMap -> bool {
    (e: MeshMap) => Matches(e.slot, tag)
  }

  /** The entries RemoveDynamicMesh leaves in place. */
  function SlotMisses(tag: GameplayTag): MeshMap -> bool {
    (e: MeshMap) => !Matches(e.slot, tag)
  }

  /** The entries of `s` that pass `p`, in their original order. */
  function Keep(s: seq<MeshMap>, p: MeshMap -> bool): (r: seq<MeshMap>)
    ensures |r| <= |s|
  {
    if s == [] then []
    else Keep(s[..|s| - 1], p) + (if p(s[|s| - 1]) then [s[|s| - 1]] else [])
  }

  /** The kept entries are exactly the entries that pass. */
  lemma {:induction false} KeepMembers(s: seq<MeshMap>, p: MeshMap -> bool)
    ensures forall e :: e in Keep(s, p) <==> e in s && p(e)
  {
    if s != [] {
      KeepMembers(s[..|s| - 1], p);
      assert s == s[..|s| - 1] + [s[|s| - 1]];
    }
  }

  /** The position of the first entry of `s` that passes `p`, if any. */
  function FirstIndex(s: seq<MeshMap>, p: MeshMap -> bool): (r: Option<nat>)
    ensures r.Some? ==> r.value < |s| && p(s[r.value])
    ensures r.Some? ==> forall j :: 0 <= j < r.value ==> !p(s[j])
    ensures r.None? ==> forall j :: 0 <= j < |s| ==> !p(s[j])
  {
    if s == [] then None
    else if p(s[0]) then Some(0)
    else
      match FirstIndex(s[1..], p)
      case Some(i) => Some(i + 1)
      case None => None
  }

  /** Gives the first entry passing `p` the mesh of `x`, keeping that entry's
      slot; appends `x` when no entry passes. */
  function SetMeshOrAppend(s: seq<MeshMap>, p: MeshMap -> bool, x: MeshMap): (r: seq<MeshMap>)
    ensures |r| == |s| <==> exists j :: 0 <= j < |s| && p(s[j])
    ensures |r| == |s| || r == s + [x]
    ensures forall j :: 0 <= j < |s| ==> r[j].slot == s[j].slot
    ensures forall j :: 0 <= j < |s| ==> r[j] == s[j] || (p(s[j]) && r[j].mesh == x.mesh)
  {
    match FirstIndex(s, p)
    case Some(i) => s[i := s[i].(mesh := x.mesh)]
    case None => s + [x]
  }

  /** Filtering distributes over concatenation: the kept entries of `a + b`
      are those of `a` followed by those of `b`, so relative order survives. */
  lemma {:induction false} KeepAppend(a: seq<MeshMap>, b: seq<MeshMap>, p: MeshMap -> bool)
    ensures Keep(a + b, p) == Keep(a, p) + Keep(b, p)
  {
    if b == [] {
      assert a + b == a;
    } else {
      var b' := b[..|b| - 1];
      assert (a + b)[..|a + b| - 1] == a + b';
      assert (a + b)[|a + b| - 1] == b[|b| - 1];
      KeepAppend(a, b', p);
    }
  }

  /** Filtering a single entry keeps it exactly when it passes. */
  lemma KeepSingle(x: MeshMap, p: MeshMap -> bool)
    ensures Keep([x], p) == if p(x) then [x] else []
  {
  }

  /** Filtering one entry more of a prefix of `s`. */
  lemma KeepPrefixStep(s: seq<MeshMap>, i: nat, p: MeshMap -> bool)
    requires i < |s|
    ensures Keep(s[..i + 1], p) == Keep(s[..i], p) + (if p(s[i]) then [s[i]] else [])
  {
    assert s[..i + 1][..i] == s[..i];
  }

  /** Filtering a list with one more entry at the front. */
  lemma KeepPrepend(x: MeshMap, s: seq<MeshMap>, p: MeshMap -> bool)
    ensures Keep([x] + s, p) == (if p(x) then [x] else []) + Keep(s, p)
  {
    KeepAppend([x], s, p);
    KeepSingle(x, p);
  }

  /** Filtering leaves a list alone when every entry passes. */
  lemma {:induction false} KeepAllPass(s: seq<MeshMap>, p: MeshMap -> bool)
    requires forall j :: 0 <= j < |s| ==> p(s[j])
    ensures Keep(s, p) == s
  {
    if s != [] {
      KeepAllPass(s[..|s| - 1], p);
      assert s == s[..|s| - 1] + [s[|s| - 1]];
    }
  }

  /** Filtering twice with the same test is filtering once. */
  lemma KeepIdempotent(s: seq<MeshMap>, p: MeshMap -> bool)
    ensures Keep(Keep(s, p), p) == Keep(s, p)
  {
    var r := Keep(s, p);
    KeepMembers(s, p);
    forall j | 0 <= j < |r| ensures p(r[j]) {
      assert r[j] in r;
    }
    KeepAllPass(r, p);
  }

  /** When entry `i` is the first to pass `p`, only its mesh changes. */
  lemma SetMeshAtFirstMatch(s: seq<MeshMap>, p: MeshMap -> bool, x: MeshMap, i: nat)
    requires i < |s| && p(s[i])
    requires forall j :: 0 <= j < i ==> !p(s[j])
    ensures SetMeshOrAppend(s, p, x) == s[i := MeshMap(s[i].slot, x.mesh)]
  {
  }

  /** When no entry passes `p`, `x` is appended at the end. */
  lemma AppendWhenNoMatch(s: seq<MeshMap>, p: MeshMap -> bool, x: MeshMap)
    requires forall j :: 0 <= j < |s| ==> !p(s[j])
    ensures SetMeshOrAppend(s, p, x) == s + [x]
  {
  }

  /** When only the last entry passes `p`, that entry takes the mesh of `x`. */
  lemma SetMeshOfLast(s: seq<MeshMap>, p: MeshMap -> bool, last: MeshMap, x: MeshMap)
    requires forall j :: 0 <= j < |s| ==> !p(s[j])
    requires p(last)
    ensures SetMeshOrAppend(s + [last], p, x) == s + [MeshMap(last.slot, x.mesh)]
  {
    var t := s + [last];
    forall j | 0 <= j < |s| ensures !p(t[j]) {
      assert t[j] == s[j];
    }
    SetMeshAtFirstMatch(t, p, x, |s|);
    assert t[|s| := MeshMap(last.slot, x.mesh)] == s + [MeshMap(last.slot, x.mesh)];
  }
}

/** The mesh-merge function library: resolving which meshes a merge combines
    (base slots, overridden or extended by dynamic slots), gating the engine
    merger on there being at least two of them, and the two editing
    operations on the dynamic slot list. */
module MeshMergeLibrary {
  import opened GameplayTags
  import opened MeshMergeTypes
  import opened SlotLists

  /** The mesh the engine merger builds, described by the meshes it was given,
      in order. */
  datatype MergedMesh = MergedMesh(parts: seq<Mesh>)

  /** The working list after the dynamic entries have been applied one after
      another to `working`: an entry with a null mesh is skipped; otherwise the
      first working entry whose slot the dynamic slot matches takes its mesh,
      or the entry is appended when there is none. Later entries see the
      entries appended by earlier ones. */
  function ApplyDynamic(working: seq<MeshMap>, dynamic: seq<MeshMap>): (r: seq<MeshMap>)
    ensures |working| <= |r| <= |working| + |dynamic|
  {
    if dynamic == [] then working
    else
      var x := dynamic[|dynamic| - 1];
      var before := ApplyDynamic(working, dynamic[..|dynamic| - 1]);
      if x.mesh.None? then before else SetMeshOrAppend(before, MatchedBy(x.slot), x)
  }

  /** The resolved merge list: the base entries that have a mesh, then the
      dynamic entries applied to them. */
  function Resolve(base: seq<MeshMap>, dynamic: seq<MeshMap>): (r: seq<MeshMap>)
    ensures |Keep(base, HasMesh)| <= |r| <= |Keep(base, HasMesh)| + |dynamic|
  {
    ApplyDynamic(Keep(base, HasMesh), dynamic)
  }

  /** The meshes of `entries`, slot by slot. */
  function MeshesOf(entries: seq<MeshMap>): seq<Mesh>
  {
    seq(|entries|, i requires 0 <= i < |entries| => entries[i].mesh)
  }

  /** Builds the working list of a merge: copies the base entries that have a
      mesh, then lets each dynamic entry with a mesh override the first
      working entry its slot matches, or appends it. */
  method ResolveMergeList(base: seq<MeshMap>, dynamic: seq<MeshMap>) returns (working: seq<MeshMap>)
    ensures working == Resolve(base, dynamic)
  {
    working := [];
    for i := 0 to |base|
      invariant working == Keep(base[..i], HasMesh)
    {
      KeepPrefixStep(base, i, HasMesh);
      if base[i].mesh.Some? {
        working := working + [base[i]];
      }
    }
    assert base[..|base|] == base;
    ghost var start := working;
    for k := 0 to |dynamic|
      invariant working == ApplyDynamic(start, dynamic[..k])
    {
      var entry := dynamic[k];
      ApplyDynamicPrefixStep(start, dynamic, k);
      if entry.mesh == None {
        continue;
      }
      working := OverrideOrAppend(working, entry);
    }
    assert dynamic[..|dynamic|] == dynamic;
  }

  /** One dynamic entry of the merge: scans the working list for the first
      entry whose slot the dynamic slot matches and gives it the dynamic
      mesh, or appends the dynamic entry when the scan finds none. */
  method OverrideOrAppend(working: seq<MeshMap>, entry: MeshMap) returns (updated: seq<MeshMap>)
    ensures updated == SetMeshOrAppend(working, MatchedBy(entry.slot), entry)
  {
    updated := working;
    var found := false;
    var j := 0;
    while j < |updated|
      invariant 0 <= j <= |updated|
      invariant updated == working && !found
      invariant forall m :: 0 <= m < j ==> !MatchedBy(entry.slot)(working[m])
    {
      if Matches(entry.slot, updated[j].slot) {
        SetMeshAtFirstMatch(working, MatchedBy(entry.slot), entry, j);
        updated := updated[j := updated[j].(mesh := entry.mesh)];
        found := true;
        break;
      }
      j := j + 1;
    }
    if !found {
      AppendWhenNoMatch(working, MatchedBy(entry.slot), entry);
      updated := updated + [entry];
    }
  }

  /** Flattens a working list to its meshes, in order. */
  method CollectMeshes(entries: seq<MeshMap>) returns (meshes: seq<Mesh>)
    ensures meshes == MeshesOf(entries)
  {
    meshes := [];
    for i := 0 to |entries|
      invariant |meshes| == i
      invariant forall m :: 0 <= m < i ==> meshes[m] == entries[m].mesh
    {
      meshes := meshes + [entries[i].mesh];
    }
  }

  /** Merges the resolved meshes of `params`. `doMerge` stands for the engine
      merger and says whether it succeeds on the meshes it is given. Fewer
      than two resolved meshes fail without the merger being invoked; the
      result is `None` (the null mesh) on either failure. */
  method MergeMeshes(params: MeshMergeParams, doMerge: seq<Mesh> -> bool)
    returns (merged: Option<MergedMesh>, mergerInvoked: bool)
    ensures mergerInvoked <==> |Resolve(params.baseMeshes, params.dynamicMeshes)| >= 2
    ensures merged.Some? <==>
              mergerInvoked && doMerge(MeshesOf(Resolve(params.baseMeshes, params.dynamicMeshes)))
    ensures merged.Some? ==>
              merged.value.parts == MeshesOf(Resolve(params.baseMeshes, params.dynamicMeshes))
    ensures merged.Some? ==>
              forall i :: 0 <= i < |merged.value.parts| ==> merged.value.parts[i].Some?
  {
    var working := ResolveMergeList(params.baseMeshes, params.dynamicMeshes);
    var meshes := CollectMeshes(working);
    if |meshes| <= 1 {
      return None, false;
    }
    mergerInvoked := true;
    if !doMerge(meshes) {
      return None, true;
    }
    ResolvedEntriesHaveMeshes(params.baseMeshes, params.dynamicMeshes);
    merged := Some(MergedMesh(meshes));
  }

  /** Upserts `mapping` into the dynamic list: the first entry whose slot
      matches `mapping.slot` takes its mesh, otherwise `mapping` is appended.
      The mesh is taken as given, null or not. */
  method AddDynamicMesh(params: MeshMergeParams, mapping: MeshMap) returns (updated: MeshMergeParams)
    ensures updated ==
              params.(dynamicMeshes := SetMeshOrAppend(params.dynamicMeshes, SlotMatches(mapping.slot), mapping))
  {
    var entries := params.dynamicMeshes;
    for j := 0 to |entries|
      invariant forall m :: 0 <= m < j ==> !SlotMatches(mapping.slot)(entries[m])
    {
      if Matches(entries[j].slot, mapping.slot) {
        SetMeshAtFirstMatch(entries, SlotMatches(mapping.slot), mapping, j);
        return params.(dynamicMeshes := entries[j := entries[j].(mesh := mapping.mesh)]);
      }
    }
    AppendWhenNoMatch(entries, SlotMatches(mapping.slot), mapping);
    updated := params.(dynamicMeshes := entries + [mapping]);
  }

  /** Removes every dynamic entry whose slot matches `tag`, walking the list
      from the back. */
  method RemoveDynamicMesh(params: MeshMergeParams, tag: GameplayTag) returns (updated: MeshMergeParams)
    ensures updated == params.(dynamicMeshes := Keep(params.dynamicMeshes, SlotMisses(tag)))
  {
    var entries := params.dynamicMeshes;
    if |entries| == 0 {
      return params;
    }
    ghost var s := params.dynamicMeshes;
    ghost var keep := SlotMisses(tag);
    ghost var survivors := [];
    var i := |entries| - 1;
    while i >= 0
      invariant -1 <= i < |s|
      invariant survivors == Keep(s[i + 1..], keep)
      invariant entries == s[..i + 1] + survivors
    {
      RemoveAtStep(s, i, keep, survivors);
      if Matches(entries[i].slot, tag) {
        entries := entries[..i] + entries[i + 1..];
      } else {
        survivors := [s[i]] + survivors;
      }
      i := i - 1;
    }
    assert s[0..] == s;
    updated := params.(dynamicMeshes := entries);
  }

  /** One step of the backward walk of RemoveDynamicMesh, at position `i` of
      the list `s[..i + 1] + survivors`: removing the entry there, or keeping
      it, leaves the prefix before `i` followed by the survivors from `i` on. */
  lemma RemoveAtStep(s: seq<MeshMap>, i: nat, keep: MeshMap -> bool, survivors: seq<MeshMap>)
    requires i < |s| && survivors == Keep(s[i + 1..], keep)
    ensures var entries := s[..i + 1] + survivors;
      && entries[i] == s[i]
      && (!keep(s[i]) ==>
            survivors == Keep(s[i..], keep) && entries[..i] + entries[i + 1..] == s[..i] + survivors)
      && (keep(s[i]) ==>
            [s[i]] + survivors == Keep(s[i..], keep) && entries == s[..i] + ([s[i]] + survivors))
  {
    var entries := s[..i + 1] + survivors;
    assert s[i..] == [s[i]] + s[i + 1..];
    KeepPrepend(s[i], s[i + 1..], keep);
    assert entries[..i] == s[..i];
    assert entries[i + 1..] == survivors;
    assert s[..i + 1] == s[..i] + [s[i]];
  }

  // Properties of the resolved merge list

  /** Every entry of the resolved list has a mesh: null base entries are
      dropped and null dynamic entries are skipped. */
  lemma {:induction false} ResolvedEntriesHaveMeshes(base: seq<MeshMap>, dynamic: seq<MeshMap>)
    ensures forall i :: 0 <= i < |Resolve(base, dynamic)| ==> HasMesh(Resolve(base, dynamic)[i])
  {
    if dynamic == [] {
      var kept := Keep(base, HasMesh);
      KeepMembers(base, HasMesh);
      forall i | 0 <= i < |kept| ensures HasMesh(kept[i]) {
        assert kept[i] in kept;
      }
    } else {
      var rest, x := dynamic[..|dynamic| - 1], dynamic[|dynamic| - 1];
      ResolvedEntriesHaveMeshes(base, rest);
      var before := Resolve(base, rest);
      if x.mesh.Some? {
        var after := SetMeshOrAppend(before, MatchedBy(x.slot), x);
        assert Resolve(base, dynamic) == after;
        forall i | 0 <= i < |after| ensures HasMesh(after[i]) {
          if i < |before| {
            assert after[i] == before[i] || after[i].mesh == x.mesh;
          } else {
            assert after == before + [x];
          }
        }
      }
    }
  }

  /** The base entries that have a mesh open the resolved list, in their
      order and with their slots: dynamic entries change only their meshes. */
  lemma {:induction false} BaseEntriesComeFirst(base: seq<MeshMap>, dynamic: seq<MeshMap>)
    ensures |Keep(base, HasMesh)| <= |Resolve(base, dynamic)|
    ensures forall i :: 0 <= i < |Keep(base, HasMesh)| ==>
              Resolve(base, dynamic)[i].slot == Keep(base, HasMesh)[i].slot
  {
    if dynamic != [] {
      BaseEntriesComeFirst(base, dynamic[..|dynamic| - 1]);
    }
  }

  /** Applying further dynamic entries never moves or re-slots an entry
      already in the working list: later entries only change meshes or
      append. So entries appended for unmatched dynamic slots stay in the
      order the dynamic entries were given. */
  lemma {:induction false} ApplyDynamicKeepsSlots(working: seq<MeshMap>, d1: seq<MeshMap>, d2: seq<MeshMap>)
    ensures |ApplyDynamic(working, d1)| <= |ApplyDynamic(working, d1 + d2)|
    ensures forall i :: 0 <= i < |ApplyDynamic(working, d1)| ==>
              ApplyDynamic(working, d1 + d2)[i].slot == ApplyDynamic(working, d1)[i].slot
  {
    if d2 == [] {
      assert d1 + d2 == d1;
    } else {
      var rest := d2[..|d2| - 1];
      ApplyDynamicKeepsSlots(working, d1, rest);
      var d := d1 + d2;
      assert d[..|d| - 1] == d1 + rest;
    }
  }

  /** Each dynamic entry with a mesh adds at most one entry to the list; those
      with a null mesh add none. */
  lemma {:induction false} ResolveLengthBounds(base: seq<MeshMap>, dynamic: seq<MeshMap>)
    ensures |Keep(base, HasMesh)| <= |Resolve(base, dynamic)|
                                 <= |Keep(base, HasMesh)| + |Keep(dynamic, HasMesh)|
  {
    if dynamic != [] {
      var rest, x := dynamic[..|dynamic| - 1], dynamic[|dynamic| - 1];
      ResolveLengthBounds(base, rest);
      assert dynamic == rest + [x];
      KeepAppend(rest, [x], HasMesh);
      KeepSingle(x, HasMesh);
    }
  }

  /** Applying one dynamic entry more of a prefix of `dynamic`. */
  lemma ApplyDynamicPrefixStep(working: seq<MeshMap>, dynamic: seq<MeshMap>, k: nat)
    requires k < |dynamic|
    ensures ApplyDynamic(working, dynamic[..k + 1]) ==
              var x := dynamic[k];
              if x.mesh.None? then ApplyDynamic(working, dynamic[..k])
              else SetMeshOrAppend(ApplyDynamic(working, dynamic[..k]), MatchedBy(x.slot), x)
  {
    assert dynamic[..k + 1][..k] == dynamic[..k];
  }

  /** Resolving with one more dynamic entry: the entry is skipped when its
      mesh is null, and otherwise overrides or extends the list resolved so
      far. */
  lemma ResolveSnoc(base: seq<MeshMap>, dynamic: seq<MeshMap>, x: MeshMap)
    ensures Resolve(base, dynamic + [x]) ==
              if x.mesh.None? then Resolve(base, dynamic)
              else SetMeshOrAppend(Resolve(base, dynamic), MatchedBy(x.slot), x)
  {
  }

  /** Resolving ignores the dynamic entries that have a null mesh. */
  lemma {:induction false} NullDynamicEntriesIgnored(base: seq<MeshMap>, dynamic: seq<MeshMap>)
    ensures Resolve(base, dynamic) == Resolve(base, Keep(dynamic, HasMesh))
  {
    if dynamic != [] {
      var rest, x := dynamic[..|dynamic| - 1], dynamic[|dynamic| - 1];
      NullDynamicEntriesIgnored(base, rest);
      assert dynamic == rest + [x];
      KeepAppend(rest, [x], HasMesh);
      KeepSingle(x, HasMesh);
      var kept := Keep(rest, HasMesh);
      ResolveSnoc(base, rest, x);
      if x.mesh.Some? {
        ResolveSnoc(base, kept, x);
      } else {
        assert Keep(dynamic, HasMesh) == kept;
      }
    }
  }

  /** A dynamic entry whose slot matches a base slot takes the place of the
      first such base entry: that position gets the dynamic mesh and keeps the
      base slot, and nothing else in the list changes. */
  lemma DynamicOverridesBase(base: seq<MeshMap>, dynamic: seq<MeshMap>, x: MeshMap, i: nat)
    requires x.mesh.Some?
    requires i < |Keep(base, HasMesh)| && Matches(x.slot, Keep(base, HasMesh)[i].slot)
    requires forall j :: 0 <= j < i ==> !Matches(x.slot, Keep(base, HasMesh)[j].slot)
    ensures var r := Resolve(base, dynamic);
      i < |r| && Resolve(base, dynamic + [x]) == r[i := MeshMap(Keep(base, HasMesh)[i].slot, x.mesh)]
  {
    BaseEntriesComeFirst(base, dynamic);
    ResolveSnoc(base, dynamic, x);
    SetMeshAtFirstMatch(Resolve(base, dynamic), MatchedBy(x.slot), x, i);
  }

  /** A dynamic entry with a mesh whose slot matches no entry of the list so
      far is appended at its end, after every base entry. */
  lemma UnmatchedDynamicAppended(base: seq<MeshMap>, dynamic: seq<MeshMap>, x: MeshMap)
    requires x.mesh.Some?
    requires forall j :: 0 <= j < |Resolve(base, dynamic)| ==>
               !Matches(x.slot, Resolve(base, dynamic)[j].slot)
    ensures Resolve(base, dynamic + [x]) == Resolve(base, dynamic) + [x]
    ensures |Keep(base, HasMesh)| < |Resolve(base, dynamic + [x])|
  {
    ResolveSnoc(base, dynamic, x);
    AppendWhenNoMatch(Resolve(base, dynamic), MatchedBy(x.slot), x);
    BaseEntriesComeFirst(base, dynamic);
  }

  /** The scan also covers appended dynamic entries: an entry `y` that matches
      nothing in the base or earlier entries but matches the slot of the
      just-appended `x` overrides `x` instead of being appended. */
  lemma LaterDynamicOverridesAppended(base: seq<MeshMap>, dynamic: seq<MeshMap>, x: MeshMap, y: MeshMap)
    requires x.mesh.Some? && y.mesh.Some?
    requires forall j :: 0 <= j < |Resolve(base, dynamic)| ==>
               !Matches(x.slot, Resolve(base, dynamic)[j].slot) && !Matches(y.slot, Resolve(base, dynamic)[j].slot)
    requires Matches(y.slot, x.slot)
    ensures Resolve(base, dynamic + [x, y]) == Resolve(base, dynamic) + [MeshMap(x.slot, y.mesh)]
  {
    var w := Resolve(base, dynamic);
    assert Resolve(base, dynamic + [x]) == w + [x] by {
      UnmatchedDynamicAppended(base, dynamic, x);
    }
    assert Resolve(base, dynamic + [x, y]) == SetMeshOrAppend(w + [x], MatchedBy(y.slot), y) by {
      assert dynamic + [x, y] == (dynamic + [x]) + [y];
      ResolveSnoc(base, dynamic + [x], y);
    }
    SetMeshOfLast(w, MatchedBy(y.slot), x, y);
  }

  /** A default-constructed mapping has no effect on the resolved list, in
      either the base or the dynamic list. */
  lemma DefaultMeshMapIgnored(base: seq<MeshMap>, dynamic: seq<MeshMap>)
    ensures Resolve(base + [DefaultMeshMap], dynamic) == Resolve(base, dynamic)
    ensures Resolve(base, dynamic + [DefaultMeshMap]) == Resolve(base, dynamic)
  {
    KeepAppend(base, [DefaultMeshMap], HasMesh);
    KeepSingle(DefaultMeshMap, HasMesh);
    assert Keep(base, HasMesh) + [] == Keep(base, HasMesh);
    assert (dynamic + [DefaultMeshMap])[..|dynamic|] == dynamic;
  }

  /** Default merge parameters resolve to no meshes at all, so a merge with
      them fails before the merger is invoked. */
  lemma DefaultParamsResolveEmpty()
    ensures Resolve(DefaultMergeParams.baseMeshes, DefaultMergeParams.dynamicMeshes) == []
  {
  }

  /** Worked case: with base slots A and B, a dynamic entry for slot A
      replaces A's mesh in place, giving the meshes [3, 2]. */
  lemma ExampleOverrideInPlace()
    ensures var a, b := GameplayTag(["A"]), GameplayTag(["B"]);
      MeshesOf(Resolve([MeshMap(a, Some(1)), MeshMap(b, Some(2))], [MeshMap(a, Some(3))]))
        == [Some(3), Some(2)]
  {
    var a, b := GameplayTag(["A"]), GameplayTag(["B"]);
    var base := [MeshMap(a, Some(1)), MeshMap(b, Some(2))];
    KeepAllPass(base, HasMesh);
    MatchesReflexive(a);
    assert [] + [MeshMap(a, Some(3))] == [MeshMap(a, Some(3))];
    DynamicOverridesBase(base, [], MeshMap(a, Some(3)), 0);
  }

  /** Worked case: a single base mesh resolves to a one-mesh list, too few
      to merge. */
  lemma ExampleSingleMeshTooFew()
    ensures |Resolve([MeshMap(GameplayTag(["A"]), Some(1))], [])| == 1
  {
    KeepSingle(MeshMap(GameplayTag(["A"]), Some(1)), HasMesh);
  }

  /** Worked case of the one-way match: a child slot overrides an appended
      parent slot, but a parent slot does not override an appended child
      slot and is appended after it. */
  lemma ExampleChildOverridesParent()
    ensures var chest, heavy := GameplayTag(["Armor", "Chest"]), GameplayTag(["Armor", "Chest", "Heavy"]);
      && Resolve([], [MeshMap(chest, Some(1)), MeshMap(heavy, Some(2))]) == [MeshMap(chest, Some(2))]
      && Resolve([], [MeshMap(heavy, Some(1)), MeshMap(chest, Some(2))])
           == [MeshMap(heavy, Some(1)), MeshMap(chest, Some(2))]
  {
    var chest, heavy := GameplayTag(["Armor", "Chest"]), GameplayTag(["Armor", "Chest", "Heavy"]);
    var parent, child := MeshMap(chest, Some(1)), MeshMap(heavy, Some(2));
    assert Resolve([], [parent, child]) == [MeshMap(chest, Some(2))] by {
      assert heavy.segments[..2] == chest.segments;
      assert [] + [parent, child] == [parent, child];
      LaterDynamicOverridesAppended([], [], parent, child);
    }
    var child1, parent2 := MeshMap(heavy, Some(1)), MeshMap(chest, Some(2));
    assert Resolve([], [child1, parent2]) == [child1, parent2] by {
      assert [] + [child1] == [child1];
      UnmatchedDynamicAppended([], [], child1);
      assert [child1] + [parent2] == [child1, parent2];
      UnmatchedDynamicAppended([], [child1], parent2);
    }
  }

  // Properties of the dynamic-list edits

  /** An entry whose slot is exactly the new mapping's valid slot is always
      found by the upsert scan, so the upsert overwrites in place and does
      not append. The overwritten entry is the first whose slot matches,
      which may be an earlier descendant of the slot rather than the entry
      with the equal slot. */
  lemma AddSameSlotOverwrites(dynamic: seq<MeshMap>, mapping: MeshMap, j: nat)
    requires IsValid(mapping.slot) && j < |dynamic| && dynamic[j].slot == mapping.slot
    ensures var r := SetMeshOrAppend(dynamic, SlotMatches(mapping.slot), mapping);
      exists i :: 0 <= i <= j && Matches(dynamic[i].slot, mapping.slot)
                  && (forall k :: 0 <= k < i ==> !Matches(dynamic[k].slot, mapping.slot))
                  && r == dynamic[i := MeshMap(dynamic[i].slot, mapping.mesh)]
  {
    var p := SlotMatches(mapping.slot);
    MatchesReflexive(mapping.slot);
    assert p(dynamic[j]);
    var i := FirstIndex(dynamic, p).value;
    SetMeshAtFirstMatch(dynamic, p, mapping, i);
  }

  /** Worked case of the upsert: adding `Armor.Chest:3` to
      [`Armor.Chest.Heavy:1`, `Armor.Chest:2`] overwrites the descendant entry
      that comes first, and the entry with the equal slot keeps its mesh. */
  lemma ExampleAddOverwritesDescendant()
    ensures var chest, heavy := GameplayTag(["Armor", "Chest"]), GameplayTag(["Armor", "Chest", "Heavy"]);
      SetMeshOrAppend([MeshMap(heavy, Some(1)), MeshMap(chest, Some(2))], SlotMatches(chest), MeshMap(chest, Some(3)))
        == [MeshMap(heavy, Some(3)), MeshMap(chest, Some(2))]
  {
    var chest, heavy := GameplayTag(["Armor", "Chest"]), GameplayTag(["Armor", "Chest", "Heavy"]);
    assert heavy.segments[..2] == chest.segments;
    SetMeshAtFirstMatch([MeshMap(heavy, Some(1)), MeshMap(chest, Some(2))], SlotMatches(chest), MeshMap(chest, Some(3)), 0);
  }

  /** Worked case of the merge: with base [`Armor.Chest:1`,
      `Armor.Chest.Heavy:2`], a dynamic `Armor.Chest.Heavy:3` overrides the
      ancestor slot that comes first, and the base entry with the equal slot
      is still merged with its own mesh. */
  lemma ExampleDynamicOverridesAncestor()
    ensures var chest, heavy := GameplayTag(["Armor", "Chest"]), GameplayTag(["Armor", "Chest", "Heavy"]);
      Resolve([MeshMap(chest, Some(1)), MeshMap(heavy, Some(2))], [MeshMap(heavy, Some(3))])
        == [MeshMap(chest, Some(3)), MeshMap(heavy, Some(2))]
  {
    var chest, heavy := GameplayTag(["Armor", "Chest"]), GameplayTag(["Armor", "Chest", "Heavy"]);
    var base := [MeshMap(chest, Some(1)), MeshMap(heavy, Some(2))];
    KeepAllPass(base, HasMesh);
    assert heavy.segments[..2] == chest.segments;
    assert [] + [MeshMap(heavy, Some(3))] == [MeshMap(heavy, Some(3))];
    DynamicOverridesBase(base, [], MeshMap(heavy, Some(3)), 0);
  }

  /** Upserting a default-constructed mapping always appends it: its empty
      slot matches no entry. */
  lemma AddDefaultMeshMapAppends(dynamic: seq<MeshMap>)
    ensures SetMeshOrAppend(dynamic, SlotMatches(DefaultMeshMap.slot), DefaultMeshMap)
              == dynamic + [DefaultMeshMap]
  {
    AppendWhenNoMatch(dynamic, SlotMatches(DefaultMeshMap.slot), DefaultMeshMap);
  }

  /** Removing a tag twice removes no more than removing it once. */
  lemma RemoveIdempotent(dynamic: seq<MeshMap>, tag: GameplayTag)
    ensures Keep(Keep(dynamic, SlotMisses(tag)), SlotMisses(tag)) == Keep(dynamic, SlotMisses(tag))
  {
    KeepIdempotent(dynamic, SlotMisses(tag));
  }

  /** Removing a valid tag right after adding a mapping for it leaves the
      same survivors as removing it without the add: the entry the add
      touched, overwritten or appended, always matches the tag. */
  lemma RemoveUndoesAdd(dynamic: seq<MeshMap>, mapping: MeshMap)
    requires IsValid(mapping.slot)
    ensures Keep(SetMeshOrAppend(dynamic, SlotMatches(mapping.slot), mapping), SlotMisses(mapping.slot))
              == Keep(dynamic, SlotMisses(mapping.slot))
  {
    var keep := SlotMisses(mapping.slot);
    match FirstIndex(dynamic, SlotMatches(mapping.slot))
    case Some(i) =>
      var changed := MeshMap(dynamic[i].slot, mapping.mesh);
      SetMeshAtFirstMatch(dynamic, SlotMatches(mapping.slot), mapping, i);
      var prefix, suffix := dynamic[..i], dynamic[i + 1..];
      assert dynamic == prefix + [dynamic[i]] + suffix;
      assert dynamic[i := changed] == prefix + [changed] + suffix;
      KeepAppend(prefix + [dynamic[i]], suffix, keep);
      KeepAppend(prefix, [dynamic[i]], keep);
      KeepAppend(prefix + [changed], suffix, keep);
      KeepAppend(prefix, [changed], keep);
      KeepSingle(dynamic[i], keep);
      KeepSingle(changed, keep);
    case None =>
      AppendWhenNoMatch(dynamic, SlotMatches(mapping.slot), mapping);
      MatchesReflexive(mapping.slot);
      KeepAppend(dynamic, [mapping], keep);
      KeepSingle(mapping, keep);
  }
}

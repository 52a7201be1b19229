# Skeletal-mesh merge slot resolution, in Dafny

This project models the slot-resolution and list-editing core of the
CrimBlueprintStatics mesh-merge function library (`UCrimMeshMergeFunctionLibrary`).
A merge request (`FSkeletalMeshMergeParams`) carries two lists of slot-to-mesh
mappings (`FSkeletalMeshMap`): base meshes and dynamic meshes. `MergeMeshes`
resolves them into one ordered list of meshes:

- base entries with a null mesh are dropped;
- each dynamic entry with a mesh gives its mesh to the first working entry
  whose slot it matches, or is appended when none matches;
- fewer than two resulting meshes is a failure, and the engine merger is not
  called.

`AddDynamicMesh` upserts one mapping into the dynamic list, and
`RemoveDynamicMesh` deletes every dynamic mapping whose slot matches a tag.

Files:

- `gameplay_tags.dfy` (module `GameplayTags`): a tag is its list of
  dot-separated segments. `Matches(a, b)` is `a.MatchesTag(b)`: `b` is a valid
  (non-empty) tag and `a` equals `b` or descends from it. Each call site keeps
  its own argument order. Segments are compared exactly: they stand for the
  canonical names held by the engine's tag registry, which compares names
  without regard to case.
- `mesh_merge_types.dfy` (module `MeshMergeTypes`): the two records and their
  default-constructed values, `DefaultMeshMap` and `DefaultMergeParams`. A
  mesh is a nullable object id (`Option<MeshId>`). What the defaults do to a
  merge is stated by `EmptyTagMatchesNothing`, `DefaultMeshMapIgnored`,
  `DefaultParamsResolveEmpty` and `AddDefaultMeshMapAppends`.
- `slot_lists.dfy` (module `SlotLists`): the list edits as functions on
  sequences, with their laws.
  - `Keep` keeps the entries that pass a test.
  - `FirstIndex` finds the first entry that passes a test.
  - `SetMeshOrAppend` overwrites the mesh of the first passing entry, or
    appends a new entry.
- `mesh_merge_library.dfy` (module `MeshMergeLibrary`): the library itself.
  - `Resolve` (built on `ApplyDynamic`) is the resolved merge list as a
    function. `ResolveMergeList`, `OverrideOrAppend`, `AddDynamicMesh` and
    `RemoveDynamicMesh` are the source's loops, proved equal to `Resolve`,
    `SetMeshOrAppend` or `Keep` applied to their inputs.
  - `CollectMeshes` is proved equal to `MeshesOf`, the entries' meshes in
    order. `MergeMeshes` has no loop of its own: it calls those methods
    and states when the merger runs and what it returns.
  - The lemmas state what the resolved list and the two list edits
    guarantee.

`MergeMeshes` takes the engine merger as a parameter, `doMerge`, which says
whether the merge of a given mesh list succeeds. It returns the merged mesh, or
`None` for the null pointer the C++ returns. It also returns whether the merger
was invoked at all.

## Model

| member | source | states |
|---|---|---|
| `GameplayTags.Matches` | Source/CrimBlueprintStatics/Private/CrimMeshMergeFunctionLibrary.cpp:29 | A match needs both tags valid, so the empty slot of a default mapping never takes part in one; the same test, with the arguments in the order each call site uses, decides the merge scan (cpp:29), the upsert (cpp:129) and the removal (cpp:147) |
| `GameplayTags.MatchesReflexive` | Source/CrimBlueprintStatics/Private/CrimMeshMergeFunctionLibrary.cpp:129 | A valid tag matches itself, so an existing entry with exactly the new slot is always found by the upsert scan |
| `GameplayTags.EmptyTagMatchesNothing` | Source/CrimBlueprintStatics/Public/CrimMeshMergeFunctionLibrary.h:16-20 | The empty slot of a default mapping matches no tag, and no tag matches it |
| `GameplayTags.MatchesAntisymmetric` | Source/CrimBlueprintStatics/Private/CrimMeshMergeFunctionLibrary.cpp:29 | Two tags that match each other are equal: the match is one-way (child to ancestor), so argument order at each call site matters |
| `SlotLists.Keep` | Source/CrimBlueprintStatics/Private/CrimMeshMergeFunctionLibrary.cpp:12-18 | Filtering never lengthens the list; `KeepMembers` and `KeepAppend` state which entries survive and in what order, for the base copy (cpp:12-18) and the removal (cpp:145-151) |
| `SlotLists.FirstIndex` | Source/CrimBlueprintStatics/Private/CrimMeshMergeFunctionLibrary.cpp:27-35 | The index found passes the test and no earlier entry does; no index means no entry passes |
| `SlotLists.KeepMembers` | Source/CrimBlueprintStatics/Private/CrimMeshMergeFunctionLibrary.cpp:145-151 | An entry survives filtering exactly when it is in the input and passes the test (for removal: its slot does not match the tag) |
| `SlotLists.KeepAppend` | Source/CrimBlueprintStatics/Private/CrimMeshMergeFunctionLibrary.cpp:12-18 | Filtering distributes over concatenation, so the survivors keep their relative order (base copy, removal) |
| `SlotLists.KeepAllPass` | Source/CrimBlueprintStatics/Private/CrimMeshMergeFunctionLibrary.cpp:140-151 | When no entry fails the test, filtering returns the list unchanged: removing a tag nothing matches is a no-op |
| `SlotLists.SetMeshOrAppend` | Source/CrimBlueprintStatics/Private/CrimMeshMergeFunctionLibrary.cpp:127-135 | The length stays the same exactly when some entry matches; otherwise the new entry is appended. Existing slots never change, and only a matching entry can change, taking the new mesh |
| `SlotLists.SetMeshAtFirstMatch` | Source/CrimBlueprintStatics/Private/CrimMeshMergeFunctionLibrary.cpp:27-35 | When entry i is the first match, the result is the input with only entry i's mesh replaced; its slot and position stay |
| `SlotLists.AppendWhenNoMatch` | Source/CrimBlueprintStatics/Private/CrimMeshMergeFunctionLibrary.cpp:36-39 | When nothing matches, the new entry is appended at the end and nothing else changes |
| `MeshMergeLibrary.ApplyDynamic` | Source/CrimBlueprintStatics/Private/CrimMeshMergeFunctionLibrary.cpp:19-40 | Applying the dynamic entries never shortens the working list and adds at most one entry per dynamic entry |
| `MeshMergeLibrary.Resolve` | Source/CrimBlueprintStatics/Private/CrimMeshMergeFunctionLibrary.cpp:11-40 | The resolved list is at least as long as the non-null base list, and at most that plus the number of dynamic entries |
| `MeshMergeLibrary.ResolveMergeList` | Source/CrimBlueprintStatics/Private/CrimMeshMergeFunctionLibrary.cpp:11-40 | The copy-and-override loops build exactly the resolved list `Resolve(base, dynamic)` |
| `MeshMergeLibrary.OverrideOrAppend` | Source/CrimBlueprintStatics/Private/CrimMeshMergeFunctionLibrary.cpp:26-39 | The scan with early break overrides the first entry whose slot the dynamic slot matches, or appends the dynamic entry |
| `MeshMergeLibrary.CollectMeshes` | Source/CrimBlueprintStatics/Private/CrimMeshMergeFunctionLibrary.cpp:42-46 | The mesh list is `MeshesOf` the working list: the same length, and the i-th element is the i-th entry's mesh |
| `MeshMergeLibrary.MergeMeshes` | Source/CrimBlueprintStatics/Private/CrimMeshMergeFunctionLibrary.cpp:47-82 | The merger is invoked exactly when at least 2 meshes resolve. A merged mesh is returned exactly when it is invoked and succeeds, and it is built from the resolved meshes in order, all non-null. Otherwise the result is null |
| `MeshMergeLibrary.AddDynamicMesh` | Source/CrimBlueprintStatics/Private/CrimMeshMergeFunctionLibrary.cpp:125-136 | Only the dynamic list changes. It becomes the upsert of the mapping: the first entry whose slot matches the new slot takes the new mesh, with no null check, or else the mapping is appended |
| `MeshMergeLibrary.RemoveDynamicMesh` | Source/CrimBlueprintStatics/Private/CrimMeshMergeFunctionLibrary.cpp:138-152 | Only the dynamic list changes. The backward RemoveAt walk leaves exactly the entries whose slot does not match the tag, in their order |
| `MeshMergeLibrary.RemoveAtStep` | Source/CrimBlueprintStatics/Private/CrimMeshMergeFunctionLibrary.cpp:147-150 | Removing or keeping the entry at index i leaves the prefix before i followed by the survivors from i on |
| `MeshMergeLibrary.ResolvedEntriesHaveMeshes` | Source/CrimBlueprintStatics/Private/CrimMeshMergeFunctionLibrary.cpp:19-24 | Every entry of the resolved list has a non-null mesh |
| `MeshMergeLibrary.BaseEntriesComeFirst` | Source/CrimBlueprintStatics/Private/CrimMeshMergeFunctionLibrary.cpp:11-18 | The non-null base entries open the resolved list in their original order and with their slots; dynamic entries can change only their meshes |
| `MeshMergeLibrary.ApplyDynamicKeepsSlots` | Source/CrimBlueprintStatics/Private/CrimMeshMergeFunctionLibrary.cpp:36-39 | Applying further dynamic entries keeps every entry already in the working list at its position with its slot, so entries appended for unmatched dynamic slots stay in the order the dynamic entries were given |
| `MeshMergeLibrary.ResolveLengthBounds` | Source/CrimBlueprintStatics/Private/CrimMeshMergeFunctionLibrary.cpp:36-39 | The resolved list is at least as long as the non-null base list. It is at most that plus the number of non-null dynamic entries |
| `MeshMergeLibrary.NullDynamicEntriesIgnored` | Source/CrimBlueprintStatics/Private/CrimMeshMergeFunctionLibrary.cpp:21-24 | Resolving with the dynamic list is the same as resolving with only its non-null entries |
| `MeshMergeLibrary.DynamicOverridesBase` | Source/CrimBlueprintStatics/Public/CrimMeshMergeFunctionLibrary.h:55-57 | A dynamic entry that matches a base slot replaces the mesh at the first such base position, keeping that base slot. Nothing else changes, including the length |
| `MeshMergeLibrary.UnmatchedDynamicAppended` | Source/CrimBlueprintStatics/Private/CrimMeshMergeFunctionLibrary.cpp:36-39 | A non-null dynamic entry that matches nothing so far is appended at the end, after every base entry |
| `MeshMergeLibrary.LaterDynamicOverridesAppended` | Source/CrimBlueprintStatics/Private/CrimMeshMergeFunctionLibrary.cpp:27-39 | The scan covers appended entries: a later dynamic entry that matches only an appended one overrides its mesh instead of being appended |
| `MeshMergeLibrary.DefaultMeshMapIgnored` | Source/CrimBlueprintStatics/Public/CrimMeshMergeFunctionLibrary.h:16-20 | A default mapping, with an empty slot and a null mesh, changes nothing when added to either list |
| `MeshMergeLibrary.DefaultParamsResolveEmpty` | Source/CrimBlueprintStatics/Public/CrimMeshMergeFunctionLibrary.h:43-49 | Default merge parameters resolve to no meshes, so a merge with them fails before the merger is invoked |
| `MeshMergeLibrary.ExampleOverrideInPlace` | Source/CrimBlueprintStatics/Private/CrimMeshMergeFunctionLibrary.cpp:26-35 | Base [A:1, B:2] with dynamic [A:3] gives the meshes [3, 2] |
| `MeshMergeLibrary.ExampleSingleMeshTooFew` | Source/CrimBlueprintStatics/Private/CrimMeshMergeFunctionLibrary.cpp:47-51 | A single base mesh resolves to one mesh, which is below the merge threshold |
| `MeshMergeLibrary.ExampleChildOverridesParent` | Source/CrimBlueprintStatics/Private/CrimMeshMergeFunctionLibrary.cpp:29 | A dynamic `Armor.Chest.Heavy` overrides an appended `Armor.Chest`. A dynamic `Armor.Chest` does not override an appended `Armor.Chest.Heavy` and is appended after it |
| `MeshMergeLibrary.AddDefaultMeshMapAppends` | Source/CrimBlueprintStatics/Private/CrimMeshMergeFunctionLibrary.cpp:127-135 | Adding a default mapping always appends it, null mesh included: its empty slot matches no entry |
| `MeshMergeLibrary.AddSameSlotOverwrites` | Source/CrimBlueprintStatics/Public/CrimMeshMergeFunctionLibrary.h:103-104 | The part of the header's promise that holds: when an entry with exactly the new valid slot exists, the upsert overwrites in place and does not append. The entry it overwrites is the first whose slot matches, at or before the equal one |
| `MeshMergeLibrary.ExampleAddOverwritesDescendant` | Source/CrimBlueprintStatics/Private/CrimMeshMergeFunctionLibrary.cpp:127-133 | Adding `Armor.Chest:3` to [`Armor.Chest.Heavy:1`, `Armor.Chest:2`] gives [`Armor.Chest.Heavy:3`, `Armor.Chest:2`]: the equal-slot entry keeps its mesh |
| `MeshMergeLibrary.ExampleDynamicOverridesAncestor` | Source/CrimBlueprintStatics/Private/CrimMeshMergeFunctionLibrary.cpp:26-35 | Base [`Armor.Chest:1`, `Armor.Chest.Heavy:2`] with dynamic [`Armor.Chest.Heavy:3`] resolves to [`Armor.Chest:3`, `Armor.Chest.Heavy:2`]: the override lands on the ancestor, and the equal-slot base mesh is still merged |
| `MeshMergeLibrary.RemoveIdempotent` | Source/CrimBlueprintStatics/Private/CrimMeshMergeFunctionLibrary.cpp:145-151 | Removing the same tag twice leaves the same list as removing it once |
| `MeshMergeLibrary.RemoveUndoesAdd` | Source/CrimBlueprintStatics/Public/CrimMeshMergeFunctionLibrary.h:103-113 | For a valid tag, adding a mapping and then removing its slot leaves the same dynamic list as removing the slot alone |

## Header comments and the code

Two header comments describe the slot test as equality of tags. The code
uses the hierarchical `MatchesTag` and stops at the first match, so the
comments and the code differ whenever a list holds both a tag and one of its
descendants. The model follows the code. The difference is worked out in
lemmas, not by running the program:

- `CrimMeshMergeFunctionLibrary.h:104` says that adding a mapping whose tag
  already exists replaces that entry. `AddSameSlotOverwrites` proves that an
  existing equal slot always prevents the append. `ExampleAddOverwritesDescendant`
  shows that the entry overwritten can be an earlier descendant, so the
  equal-slot entry keeps its old mesh.
- `CrimMeshMergeFunctionLibrary.h:55` says dynamic entries take priority over
  base entries with equal slot tags. `ExampleDynamicOverridesAncestor` shows a
  dynamic entry overriding an earlier ancestor slot, so the base mesh with the
  equal slot is still merged.

Hierarchical matching may well be what the authors intended (a dynamic
`Armor.Chest.Heavy` replacing the `Armor.Chest` part), so this is recorded as
a behaviour of the code rather than as a defect.

## Left out

- The merge itself is not modelled: creating the `USkeletalMesh`, building `FSkeletalMeshMerge` and its internals. `DoMerge` is an outcome supplied by the caller (`doMerge`).
- Skeleton assignment before or after the merge, socket listing, the duplicate-socket count and all log output are not modelled. They are engine object access and diagnostics that do not affect the merge list.
- The per-mesh UV transforms are not modelled and are absent from the record, because they are only handed to the engine merger. So are the buffer-access flag selection, `StripTopLODS` and `bNeedsCpuAccess`: the fields are kept on the record, but nothing reads them.
- MergeMeshes: the returned merged mesh is described only by the meshes handed to the merger, and not by its skeleton, sockets or geometry.
- AddDynamicMesh, RemoveDynamicMesh: the C++ mutates `Params` through a reference; the model returns the updated record, so aliasing of `Params` is not modelled.
- Gameplay tags are modelled as segment lists of canonical names, compared exactly. The engine's tag registry is not modelled: unregistered names, redirects, the case-insensitive comparison of names, and the tag-node table behind `MatchesTag`.
- The upsert and removal scans use `Entry.Slot.MatchesTag(Tag)`, which is a one-way test (the entry's slot equals the tag or descends from it). The model follows this code. A symmetric match, where either tag may be the ancestor, is not what the code does and is not modelled.
- `Source/CrimBlueprintStatics/Public/CrimMathStatics.h` (floating-point geometry and random sampling, declarations only) is not part of this model.

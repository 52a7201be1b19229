/** The records of the mesh-merge library: a slot-to-mesh mapping and the
    parameter block of a merge, with the values their default constructors
    give them. */
module MeshMergeTypes {
  import opened GameplayTags

  datatype Option<+T> = None | Some(value: T)

  /** Identity of an engine-owned skeletal mesh object. */
  type MeshId = nat

  /** Identity of an engine-owned skeleton object. */
  type SkeletonId = nat

  /** A nullable reference to a skeletal mesh (`None` is the null pointer). */
  type Mesh = Option<MeshId>

  newtype Int32 = x: int | -0x8000_0000 <= x < 0x8000_0000

  /** `FSkeletalMeshMap`: the slot a mesh is mapped to, and the mesh. */
  datatype MeshMap = MeshMap(slot: GameplayTag, mesh: Mesh)

  /** What the default constructor of `FSkeletalMeshMap` builds: the empty
      slot and a null mesh. */
  const DefaultMeshMap: MeshMap := MeshMap(EmptyTag, None)

  /** `FSkeletalMeshMergeParams`, without the per-mesh UV transforms (which are
      only handed on to the engine merger). */
  datatype MeshMergeParams = MeshMergeParams(
    baseMeshes: seq<MeshMap>,
    dynamicMeshes: seq<MeshMap>,
    stripTopLods: Int32,
    needsCpuAccess: bool,
    skeletonBefore: bool,
    skeleton: Option<SkeletonId>)

  /** What the default constructor of `FSkeletalMeshMergeParams` builds: no
      meshes, no LOD stripping, no CPU access, the skeleton assigned after the
      merge, and no skeleton. */
  const DefaultMergeParams: MeshMergeParams :=
    MeshMergeParams([], [], 0, false, false, None)

  predicate HasMesh(e: MeshMap) {
    e.mesh.Some?
  }
}

/** Hierarchical gameplay tags, reduced to the one capability the mesh-merge
    library uses: the "matches" test between two tags.

    A tag is the list of its dot-separated segments (`Armor.Chest.Heavy` is
    `["Armor", "Chest", "Heavy"]`); the empty list is the empty (invalid) tag
    that a default-constructed tag holds. `a` matches `b` when `b` is a valid
    tag and `a` is `b` itself or one of its descendants. An invalid tag matches
    nothing and is matched by nothing.

    Segments are compared exactly: they stand for the canonical names the
    engine's tag registry holds, so two spellings of one registered name
    (which the engine compares without regard to case) are one segment here. */
module GameplayTags {

  datatype GameplayTag = GameplayTag(segments: seq<string>)

  /** The tag of a default-constructed slot. */
  const EmptyTag: GameplayTag := GameplayTag([])

  predicate IsValid(t: GameplayTag) {
    |t.segments| > 0
  }

  /** `a.MatchesTag(b)`: `a` equals `b` or lies below it in the hierarchy. */
  function Matches(a: GameplayTag, b: GameplayTag): (r: bool)
    ensures r ==> IsValid(a) && IsValid(b)
  {
    IsValid(b) && |b.segments| <= |a.segments| && a.segments[..|b.segments|] == b.segments
  }

  /** Every valid tag matches itself, so equal slot tags always match. */
  lemma MatchesReflexive(t: GameplayTag)
    requires IsValid(t)
    ensures Matches(t, t)
  {
  }

  /** The empty tag never takes part in a match, in either position. */
  lemma EmptyTagMatchesNothing(t: GameplayTag)
    ensures !Matches(EmptyTag, t) && !Matches(t, EmptyTag)
  {
  }

  /** Two tags that match each other are the same tag: the match is a one-way
      test, a descendant matches its ancestor but not the other way round. */
  lemma MatchesAntisymmetric(a: GameplayTag, b: GameplayTag)
    requires Matches(a, b) && Matches(b, a)
    ensures a == b
  {
  }
}

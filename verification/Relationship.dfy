/**
  The relationship between two regions: a set of bits, as the C++
  `Relationship` bitset. INTERSECTS is the empty set, so a relationship
  "intersects" exactly when its DISJOINT bit is clear.
 */
module Relationships {

  datatype Bit = DisjointBit | ContainsBit | WithinBit

  type Relationship = set<Bit>

  const INTERSECTS: Relationship := {}
  const DISJOINT: Relationship := {DisjointBit}
  const CONTAINS: Relationship := {ContainsBit}
  const WITHIN: Relationship := {WithinBit}

  /**
    `invert`: the relationship seen from the other region, with the
    CONTAINS and WITHIN bits exchanged.
   */
  function Invert(r: Relationship): (s: Relationship)
    ensures DisjointBit in s <==> DisjointBit in r
    ensures ContainsBit in s <==> WithinBit in r
    ensures WithinBit in s <==> ContainsBit in r
  {
    (r * DISJOINT)
    + (if ContainsBit in r then WITHIN else {})
    + (if WithinBit in r then CONTAINS else {})
  }

  /** Inverting twice gives the relationship back. */
  lemma InvertInvolution(r: Relationship)
    ensures Invert(Invert(r)) == r
  {
    var s := Invert(Invert(r));
    forall b: Bit
      ensures b in s <==> b in r
    {
      match b
      case DisjointBit =>
      case ContainsBit =>
      case WithinBit =>
    }
  }
}

/**
  `HEALPixel`: a cell of the HEALPix hierarchy, identified by its level
  (depth) and its NESTED id. Every cell of level l + 1 has a parent of
  level l whose id is the child's id divided by 4, so one pixel lies
  inside another exactly when the finer id, shifted right by two bits per
  level of difference, is the coarser id.

  The four corner vertices are carried only to be encoded; the area and
  the geometry of the cell are left to the implementations of the class.
 */
module HealPix {
  import opened Primitives
  import opened Codec
  import opened Results
  import opened Relationships
  import opened Bits

  /** `HEALPixel::TYPE_CODE` */
  const TYPE_CODE: uint8 := 'h' as int

  /** `HEALPixel::ENCODED_SIZE`: type code, level, id and 4 x 3 coordinates. */
  const ENCODED_SIZE: nat := 106

  type Vertices = v: seq<UnitVector3d> | |v| == 4
    witness [UnitVector3d(0, 0, 0), UnitVector3d(0, 0, 0), UnitVector3d(0, 0, 0), UnitVector3d(0, 0, 0)]

  /** `HEALPixelState`, which is all a `HEALPixel` holds. */
  datatype HealPixel = HealPixel(level: uint8, nested: uint64, vertices: Vertices)

  datatype Error = NotEncodedHealPixel  // "Byte-string is not an encoded HEALPixel"

  /** A right shift by 2 * (fine - coarse) bits is defined in C++ only below 64 bits. */
  predicate ShiftDefined(coarse: int, fine: int)
  {
    2 * (fine - coarse) < 64
  }

  /** Both pixels may be shifted to the other's level. */
  predicate Comparable(a: HealPixel, b: HealPixel)
  {
    ShiftDefined(a.level, b.level) && ShiftDefined(b.level, a.level)
  }

  /**
    The id of the k-th ancestor of the cell with id n: each step up the
    hierarchy merges four sibling cells into their parent.
   */
  function AncestorId(n: nat, k: nat): (a: nat)
  {
    if k == 0 then n else AncestorId(n, k - 1) / 4
  }

  /** `parent(level, p)`: the id of p's ancestor at the given coarser level. */
  function Parent(level: int, p: HealPixel): (n: nat)
    requires level <= p.level && ShiftDefined(level, p.level)
    ensures n == AncestorId(p.nested, p.level - level)
  {
    ShiftIsAncestor(p.nested, p.level - level);
    Shr(p.nested, 2 * (p.level - level))
  }

  /** `contains(HEALPixel)` */
  function Contains(a: HealPixel, b: HealPixel): (r: bool)
    requires a.level < b.level ==> ShiftDefined(a.level, b.level)
    ensures r <==> a.level <= b.level && AncestorId(b.nested, b.level - a.level) == a.nested
  {
    if a.level < b.level then a.nested == Parent(a.level, b)
    else if a.level > b.level then false
    else a.nested == b.nested
  }

  /** `isDisjointFrom(HEALPixel)` */
  function IsDisjointFrom(a: HealPixel, b: HealPixel): (r: bool)
    requires Comparable(a, b)
    ensures r <==> !Contains(a, b) && !Contains(b, a)
  {
    if a.level < b.level then a.nested != Parent(a.level, b)
    else if a.level > b.level then Parent(b.level, a) != b.nested
    else a.nested != b.nested
  }

  /** `intersects(HEALPixel)` */
  function Intersects(a: HealPixel, b: HealPixel): (r: bool)
    requires Comparable(a, b)
  {
    !IsDisjointFrom(a, b)
  }

  /** `isWithin(HEALPixel)` */
  function IsWithin(a: HealPixel, b: HealPixel): (r: bool)
    requires Comparable(a, b)
  {
    Contains(b, a)
  }

  /**
    `relate(HEALPixel)`. Its bits agree with the predicates above, as
    every region's `relate` must: CONTAINS exactly when `contains`, WITHIN
    exactly when `isWithin`, DISJOINT exactly when `isDisjointFrom`.
   */
  function Relate(a: HealPixel, b: HealPixel): (r: Relationship)
    requires Comparable(a, b)
    ensures r == CONTAINS || r == WITHIN || r == CONTAINS + WITHIN || r == DISJOINT
    ensures ContainsBit in r <==> Contains(a, b)
    ensures WithinBit in r <==> IsWithin(a, b)
    ensures DisjointBit in r <==> IsDisjointFrom(a, b)
    ensures DisjointBit !in r <==> Intersects(a, b)
  {
    if a.level < b.level then
      (if a.nested == Parent(a.level, b) then CONTAINS else DISJOINT)
    else if a.level > b.level then
      (if Parent(b.level, a) == b.nested then WITHIN else DISJOINT)
    else
      (if a.nested == b.nested then CONTAINS + WITHIN else DISJOINT)
  }

  /**
    `relate(Region)`: the other region's relationship to this pixel,
    inverted.
   */
  function RelateRegion(otherToThis: Relationship): (r: Relationship)
    ensures ContainsBit in r <==> WithinBit in otherToThis
    ensures WithinBit in r <==> ContainsBit in otherToThis
    ensures DisjointBit in r <==> DisjointBit in otherToThis
  {
    Invert(otherToThis)
  }

  /** `operator==`: level and id only; the vertices are ignored. */
  function Equal(a: HealPixel, b: HealPixel): (r: bool)
  {
    a.nested == b.nested && a.level == b.level
  }

  /** `operator!=` */
  function NotEqual(a: HealPixel, b: HealPixel): (r: bool)
  {
    !Equal(a, b)
  }

  /** `contains(UnitVector3d)`: the base class claims no point. */
  function ContainsPoint(p: HealPixel, v: UnitVector3d): (r: bool)
  {
    false
  }

  /** `isDisjointFrom(UnitVector3d)` */
  function IsDisjointFromPoint(p: HealPixel, v: UnitVector3d): (r: bool)
  {
    !ContainsPoint(p, v)
  }

  /** `intersects(UnitVector3d)` */
  function IntersectsPoint(p: HealPixel, v: UnitVector3d): (r: bool)
  {
    ContainsPoint(p, v)
  }

  /** `isWithin(UnitVector3d)` */
  function IsWithinPoint(p: HealPixel, v: UnitVector3d): (r: bool)
  {
    false
  }

  // ---------------------------------------------------------------------
  // The hierarchy

  /** Shifting right by two bits per level is taking the ancestor. */
  lemma {:induction false} ShiftIsAncestor(n: nat, k: nat)
    ensures Shr(n, 2 * k) == AncestorId(n, k)
  {
    if k > 0 {
      ShiftIsAncestor(n, k - 1);
      ShrShr(n, 2 * (k - 1), 2);
      assert Pow2(2) == 4;
    }
  }

  lemma {:induction false} AncestorCompose(n: nat, j: nat, k: nat)
    ensures AncestorId(AncestorId(n, j), k) == AncestorId(n, j + k)
  {
    if k > 0 {
      AncestorCompose(n, j, k - 1);
    }
  }

  /** A pixel contains only itself and its descendants; never a coarser pixel. */
  lemma ContainsOnlyDescendants(a: HealPixel, b: HealPixel)
    requires a.level < b.level ==> ShiftDefined(a.level, b.level)
    ensures a.level > b.level ==> !Contains(a, b)
    ensures a.level == b.level ==> (Contains(a, b) <==> a.nested == b.nested)
    ensures a.level < b.level ==> (Contains(a, b) <==> Shr(b.nested, 2 * (b.level - a.level)) == a.nested)
  {
    if a.level <= b.level {
      ShiftIsAncestor(b.nested, b.level - a.level);
    }
  }

  /** Containment is transitive across three levels. */
  lemma ContainsTransitive(a: HealPixel, b: HealPixel, c: HealPixel)
    requires a.level < b.level ==> ShiftDefined(a.level, b.level)
    requires b.level < c.level ==> ShiftDefined(b.level, c.level)
    requires a.level < c.level ==> ShiftDefined(a.level, c.level)
    requires Contains(a, b) && Contains(b, c)
    ensures Contains(a, c)
  {
    AncestorCompose(c.nested, c.level - b.level, b.level - a.level);
  }

  /**
    Two pixels contain each other, and relate as CONTAINS | WITHIN,
    exactly when they are `==`; `!=` is the opposite.
   */
  lemma MutualContainmentIsEquality(a: HealPixel, b: HealPixel)
    requires Comparable(a, b)
    ensures Contains(a, b) && Contains(b, a) <==> Equal(a, b)
    ensures Relate(a, b) == CONTAINS + WITHIN <==> Equal(a, b)
    ensures NotEqual(a, b) <==> !Contains(a, b) || !Contains(b, a)
  {
    if Relate(a, b) == CONTAINS + WITHIN {
      assert ContainsBit in Relate(a, b) && WithinBit in Relate(a, b);
    }
  }

  /** Disjointness does not depend on the argument order. */
  lemma IsDisjointFromSymmetric(a: HealPixel, b: HealPixel)
    requires Comparable(a, b)
    ensures IsDisjointFrom(a, b) == IsDisjointFrom(b, a)
  {
  }

  /** A pixel never contains a pixel it is disjoint from. */
  lemma ContainsImpliesIntersects(a: HealPixel, b: HealPixel)
    requires Comparable(a, b)
    requires Contains(a, b)
    ensures !IsDisjointFrom(a, b) && Intersects(a, b)
  {
  }

  /** `p.relate(q) == invert(q.relate(p))` */
  lemma RelateSymmetric(a: HealPixel, b: HealPixel)
    requires Comparable(a, b)
    ensures Relate(a, b) == Invert(Relate(b, a))
  {
    var r := Relate(a, b);
    var s := Invert(Relate(b, a));
    forall x: Bit
      ensures x in r <==> x in s
    {
      match x
      case DisjointBit =>
      case ContainsBit =>
      case WithinBit =>
    }
  }

  /** `relate(Region)` agrees with `relate(HEALPixel)` when the region is a pixel. */
  lemma RelateRegionAgrees(a: HealPixel, b: HealPixel)
    requires Comparable(a, b)
    ensures RelateRegion(Relate(b, a)) == Relate(a, b)
  {
    RelateSymmetric(a, b);
  }

  /**
    Each point predicate is the matching bit of the relationship DISJOINT:
    `contains` and `isWithin` are its CONTAINS and WITHIN bits,
    `isDisjointFrom` its DISJOINT bit and `intersects` the absence of it.
   */
  lemma PointPredicatesConsistent(p: HealPixel, v: UnitVector3d)
    ensures ContainsPoint(p, v) == (ContainsBit in DISJOINT)
    ensures IsWithinPoint(p, v) == (WithinBit in DISJOINT)
    ensures IsDisjointFromPoint(p, v) == (DisjointBit in DISJOINT)
    ensures IntersectsPoint(p, v) == (DisjointBit !in DISJOINT)
  {
  }

  // ---------------------------------------------------------------------
  // Encoding

  /** The three coordinates of a vertex, 8 bytes each. */
  function EncodeVertex(v: UnitVector3d, order: ByteOrder): (r: seq<uint8>)
    ensures |r| == 24
  {
    EncodeDouble(v.x, order) + EncodeDouble(v.y, order) + EncodeDouble(v.z, order)
  }

  function DecodeVertex(b: seq<uint8>, order: ByteOrder): (v: UnitVector3d)
    requires |b| == 24
  {
    UnitVector3d(DecodeDouble(b[..8], order), DecodeDouble(b[8..16], order), DecodeDouble(b[16..], order))
  }

  function EncodeVertices(vs: seq<UnitVector3d>, order: ByteOrder): (r: seq<uint8>)
    ensures |r| == 24 * |vs|
  {
    if |vs| == 0 then [] else EncodeVertex(vs[0], order) + EncodeVertices(vs[1..], order)
  }

  /** The vertex loop of `decodeState`: 24 bytes per vertex. */
  function DecodeVertices(b: seq<uint8>, order: ByteOrder): (vs: seq<UnitVector3d>)
    requires |b| % 24 == 0
    ensures |vs| == |b| / 24
    decreases |b|
  {
    if |b| == 0 then [] else [DecodeVertex(b[..24], order)] + DecodeVertices(b[24..], order)
  }

  /** `encode()`: type code, level byte, 8-byte id, then the 4 vertices. */
  function Encode(p: HealPixel, order: ByteOrder): (r: seq<uint8>)
    ensures |r| == ENCODED_SIZE
    ensures r[0] == TYPE_CODE && r[1] == p.level && r[2..10] == EncodeU64(p.nested, order)
  {
    [TYPE_CODE, p.level] + EncodeU64(p.nested, order) + EncodeVertices(p.vertices, order)
  }

  /**
    `decodeState`: refuses a null buffer (None), any length other than
    ENCODED_SIZE, or a first byte other than TYPE_CODE.
   */
  function DecodeState(buffer: Option<seq<uint8>>, order: ByteOrder): (r: Result<HealPixel, Error>)
    ensures r.Success? <==>
              buffer.Some? && |buffer.value| == ENCODED_SIZE && buffer.value[0] == TYPE_CODE
    ensures r.Success? ==>
              r.value.level == buffer.value[1] && EncodeU64(r.value.nested, order) == buffer.value[2..10]
  {
    if buffer.None? || |buffer.value| != ENCODED_SIZE || buffer.value[0] != TYPE_CODE then
      Failure(NotEncodedHealPixel)
    else
      var b := buffer.value;
      EncodeDecodeU64(b[2..10], order);
      Success(HealPixel(b[1], DecodeU64(b[2..10], order), DecodeVertices(b[10..], order)))
  }

  lemma DecodeEncodeVertex(v: UnitVector3d, order: ByteOrder)
    ensures DecodeVertex(EncodeVertex(v, order), order) == v
  {
    var b := EncodeVertex(v, order);
    assert b[..8] == EncodeDouble(v.x, order);
    assert b[8..16] == EncodeDouble(v.y, order);
    assert b[16..] == EncodeDouble(v.z, order);
    DecodeEncodeU64(v.x, order);
    DecodeEncodeU64(v.y, order);
    DecodeEncodeU64(v.z, order);
  }

  lemma EncodeDecodeVertex(b: seq<uint8>, order: ByteOrder)
    requires |b| == 24
    ensures EncodeVertex(DecodeVertex(b, order), order) == b
  {
    EncodeDecodeU64(b[..8], order);
    EncodeDecodeU64(b[8..16], order);
    EncodeDecodeU64(b[16..], order);
    assert b == b[..8] + b[8..16] + b[16..];
  }

  lemma {:induction false} DecodeEncodeVertices(vs: seq<UnitVector3d>, order: ByteOrder)
    ensures DecodeVertices(EncodeVertices(vs, order), order) == vs
  {
    if |vs| > 0 {
      var b := EncodeVertices(vs, order);
      assert b[..24] == EncodeVertex(vs[0], order);
      assert b[24..] == EncodeVertices(vs[1..], order);
      DecodeEncodeVertex(vs[0], order);
      DecodeEncodeVertices(vs[1..], order);
      assert [vs[0]] + vs[1..] == vs;
    }
  }

  lemma {:induction false} EncodeDecodeVertices(b: seq<uint8>, order: ByteOrder)
    requires |b| % 24 == 0
    ensures EncodeVertices(DecodeVertices(b, order), order) == b
    decreases |b|
  {
    if |b| > 0 {
      var vs := DecodeVertices(b, order);
      assert vs[0] == DecodeVertex(b[..24], order);
      assert vs[1..] == DecodeVertices(b[24..], order);
      EncodeDecodeVertex(b[..24], order);
      EncodeDecodeVertices(b[24..], order);
      assert b == b[..24] + b[24..];
    }
  }

  /** `decodeState(encode(p))` returns p's level, id and vertices. */
  lemma DecodeEncode(p: HealPixel, order: ByteOrder)
    ensures DecodeState(Some(Encode(p, order)), order) == Success(p)
  {
    var b := Encode(p, order);
    assert b[10..] == EncodeVertices(p.vertices, order);
    DecodeEncodeU64(p.nested, order);
    DecodeEncodeVertices(p.vertices, order);
  }

  /** A buffer `decodeState` accepts is the encoding of the state it returns. */
  lemma EncodeDecode(b: seq<uint8>, order: ByteOrder)
    requires DecodeState(Some(b), order).Success?
    ensures Encode(DecodeState(Some(b), order).value, order) == b
  {
    var p := DecodeState(Some(b), order).value;
    EncodeDecodeVertices(b[10..], order);
    assert p.vertices == DecodeVertices(b[10..], order);
    assert b == [b[0], b[1]] + b[2..10] + b[10..];
  }
}

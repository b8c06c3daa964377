/**
  `UnionRegion` and `IntersectionRegion`: regions made of a non-empty list
  of operand regions, combining the operands' answers.

  The operands are arbitrary regions whose own geometry is not modelled:
  each is a record of its answers — its relationship to a right-hand
  region of type R, its own `isDisjoint` answer, its point-membership
  test — and its encoded bytes.
 */
module CompoundRegions {
  import opened Primitives
  import opened Codec
  import opened Results
  import opened Relationships

  datatype Operand<-R> = Operand(
    relate: R -> Relationship,
    isDisjoint: R -> bool,
    contains: UnitVector3d -> bool,
    encoding: seq<uint8>)

  datatype Kind = Union | Intersection

  datatype CompoundRegion<-R> = CompoundRegion(kind: Kind, operands: seq<Operand<R>>)

  /** A compound region as its constructor admits it: at least one operand. */
  type Compound<-R> = c: CompoundRegion<R> | |c.operands| > 0
    witness CompoundRegion(Union, [Operand(_ => INTERSECTS, _ => false, _ => false, [])])

  datatype Error =
    | EmptyOperandList    // std::invalid_argument from the constructor
    | Truncated           // "Encoded CompoundRegion is truncated."
    | NotEncodedCompound  // "Byte string is not an encoded CompoundRegion."

  /** `UnionRegion::TYPE_CODE` and `IntersectionRegion::TYPE_CODE`. */
  const UNION_TYPE_CODE: uint8 := 'u' as int
  const INTERSECTION_TYPE_CODE: uint8 := 'i' as int

  function TypeCode(kind: Kind): (tc: uint8)
  {
    match kind
    case Union => UNION_TYPE_CODE
    case Intersection => INTERSECTION_TYPE_CODE
  }

  /** The constructor: an empty operand list is refused. */
  function Make<R>(kind: Kind, operands: seq<Operand<R>>): (r: Result<Compound<R>, Error>)
    ensures r.Success? <==> |operands| > 0
    ensures r.Success? ==> r.value.kind == kind && r.value.operands == operands
    ensures r.Failure? ==> r.error == EmptyOperandList
  {
    if |operands| == 0 then Failure(EmptyOperandList)
    else Success(CompoundRegion(kind, operands))
  }

  // ---------------------------------------------------------------------
  // Relationship to a right-hand region

  /** One pass of the `UnionRegion::relate` loop body. */
  function UnionStep(result: Relationship, rel: Relationship): (next: Relationship)
  {
    var r1 := if DisjointBit !in rel then result - DISJOINT else result;
    var r2 := if WithinBit !in rel then r1 - WITHIN else r1;
    if ContainsBit in rel then r2 + CONTAINS else r2
  }

  /** One pass of the `IntersectionRegion::relate` loop body. */
  function IntersectionStep(result: Relationship, rel: Relationship): (next: Relationship)
  {
    var r1 := if ContainsBit !in rel then result - CONTAINS else result;
    var r2 := if DisjointBit in rel then r1 + DISJOINT else r1;
    if WithinBit in rel then r2 + WITHIN else r2
  }

  /**
    The `UnionRegion::relate` loop from operand i on, stopping as soon as
    the result is exactly CONTAINS.
   */
  function UnionRelateFrom<R>(ops: seq<Operand<R>>, rhs: R, i: nat, result: Relationship): (r: Relationship)
    requires i <= |ops|
    ensures DisjointBit in r <==>
              DisjointBit in result && forall j :: i <= j < |ops| ==> DisjointBit in ops[j].relate(rhs)
    ensures WithinBit in r <==>
              WithinBit in result && forall j :: i <= j < |ops| ==> WithinBit in ops[j].relate(rhs)
    ensures ContainsBit in r <==>
              ContainsBit in result || exists j :: i <= j < |ops| && ContainsBit in ops[j].relate(rhs)
    decreases |ops| - i
  {
    if i == |ops| then result
    else
      var next := UnionStep(result, ops[i].relate(rhs));
      if next == CONTAINS then next
      else UnionRelateFrom(ops, rhs, i + 1, next)
  }

  /**
    The `IntersectionRegion::relate` loop from operand i on, stopping as
    soon as the result is exactly DISJOINT | WITHIN.
   */
  function IntersectionRelateFrom<R>(ops: seq<Operand<R>>, rhs: R, i: nat, result: Relationship): (r: Relationship)
    requires i <= |ops|
    ensures ContainsBit in r <==>
              ContainsBit in result && forall j :: i <= j < |ops| ==> ContainsBit in ops[j].relate(rhs)
    ensures DisjointBit in r <==>
              DisjointBit in result || exists j :: i <= j < |ops| && DisjointBit in ops[j].relate(rhs)
    ensures WithinBit in r <==>
              WithinBit in result || exists j :: i <= j < |ops| && WithinBit in ops[j].relate(rhs)
    decreases |ops| - i
  {
    if i == |ops| then result
    else
      var next := IntersectionStep(result, ops[i].relate(rhs));
      if next == DISJOINT + WITHIN then next
      else IntersectionRelateFrom(ops, rhs, i + 1, next)
  }

  /**
    `UnionRegion::relate`: disjoint when every operand is, within when
    every operand is, containing when some operand contains.
   */
  function UnionRelate<R>(ops: seq<Operand<R>>, rhs: R): (r: Relationship)
    ensures DisjointBit in r <==> forall j :: 0 <= j < |ops| ==> DisjointBit in ops[j].relate(rhs)
    ensures WithinBit in r <==> forall j :: 0 <= j < |ops| ==> WithinBit in ops[j].relate(rhs)
    ensures ContainsBit in r <==> exists j :: 0 <= j < |ops| && ContainsBit in ops[j].relate(rhs)
  {
    UnionRelateFrom(ops, rhs, 0, DISJOINT + WITHIN)
  }

  /**
    `IntersectionRegion::relate`: containing when every operand contains,
    disjoint when some operand is, within when some operand is.
   */
  function IntersectionRelate<R>(ops: seq<Operand<R>>, rhs: R): (r: Relationship)
    ensures ContainsBit in r <==> forall j :: 0 <= j < |ops| ==> ContainsBit in ops[j].relate(rhs)
    ensures DisjointBit in r <==> exists j :: 0 <= j < |ops| && DisjointBit in ops[j].relate(rhs)
    ensures WithinBit in r <==> exists j :: 0 <= j < |ops| && WithinBit in ops[j].relate(rhs)
  {
    IntersectionRelateFrom(ops, rhs, 0, CONTAINS)
  }

  function Relate<R>(c: Compound<R>, rhs: R): (r: Relationship)
  {
    match c.kind
    case Union => UnionRelate(c.operands, rhs)
    case Intersection => IntersectionRelate(c.operands, rhs)
  }

  /** The union loop without its early exit: every operand is visited. */
  function UnionFold<R>(ops: seq<Operand<R>>, rhs: R, i: nat, result: Relationship): (r: Relationship)
    requires i <= |ops|
    decreases |ops| - i
  {
    if i == |ops| then result
    else UnionFold(ops, rhs, i + 1, UnionStep(result, ops[i].relate(rhs)))
  }

  /** The intersection loop without its early exit. */
  function IntersectionFold<R>(ops: seq<Operand<R>>, rhs: R, i: nat, result: Relationship): (r: Relationship)
    requires i <= |ops|
    decreases |ops| - i
  {
    if i == |ops| then result
    else IntersectionFold(ops, rhs, i + 1, IntersectionStep(result, ops[i].relate(rhs)))
  }

  /** Once the union result is CONTAINS, no further operand changes it. */
  lemma {:induction false} UnionFoldStable<R>(ops: seq<Operand<R>>, rhs: R, i: nat)
    requires i <= |ops|
    ensures UnionFold(ops, rhs, i, CONTAINS) == CONTAINS
    decreases |ops| - i
  {
    if i < |ops| {
      assert UnionStep(CONTAINS, ops[i].relate(rhs)) == CONTAINS;
      UnionFoldStable(ops, rhs, i + 1);
    }
  }

  /** Once the intersection result is DISJOINT | WITHIN, it stays so. */
  lemma {:induction false} IntersectionFoldStable<R>(ops: seq<Operand<R>>, rhs: R, i: nat)
    requires i <= |ops|
    ensures IntersectionFold(ops, rhs, i, DISJOINT + WITHIN) == DISJOINT + WITHIN
    decreases |ops| - i
  {
    if i < |ops| {
      assert IntersectionStep(DISJOINT + WITHIN, ops[i].relate(rhs)) == DISJOINT + WITHIN;
      IntersectionFoldStable(ops, rhs, i + 1);
    }
  }

  /** The early `break` of `UnionRegion::relate` never changes its answer. */
  lemma {:induction false} UnionEarlyExitAgrees<R>(ops: seq<Operand<R>>, rhs: R, i: nat, result: Relationship)
    requires i <= |ops|
    ensures UnionRelateFrom(ops, rhs, i, result) == UnionFold(ops, rhs, i, result)
    decreases |ops| - i
  {
    if i < |ops| {
      var next := UnionStep(result, ops[i].relate(rhs));
      if next == CONTAINS {
        UnionFoldStable(ops, rhs, i + 1);
      } else {
        UnionEarlyExitAgrees(ops, rhs, i + 1, next);
      }
    }
  }

  /** The early `break` of `IntersectionRegion::relate` never changes its answer. */
  lemma {:induction false} IntersectionEarlyExitAgrees<R>(ops: seq<Operand<R>>, rhs: R, i: nat, result: Relationship)
    requires i <= |ops|
    ensures IntersectionRelateFrom(ops, rhs, i, result) == IntersectionFold(ops, rhs, i, result)
    decreases |ops| - i
  {
    if i < |ops| {
      var next := IntersectionStep(result, ops[i].relate(rhs));
      if next == DISJOINT + WITHIN {
        IntersectionFoldStable(ops, rhs, i + 1);
      } else {
        IntersectionEarlyExitAgrees(ops, rhs, i + 1, next);
      }
    }
  }

  /** A one-operand compound relates to any region exactly as its operand does. */
  lemma SingleOperandRelate<R>(c: Compound<R>, rhs: R)
    requires |c.operands| == 1
    ensures Relate(c, rhs) == c.operands[0].relate(rhs)
  {
    var r := Relate(c, rhs);
    var s := c.operands[0].relate(rhs);
    forall b: Bit
      ensures b in r <==> b in s
    {
      match b
      case DisjointBit =>
      case ContainsBit =>
      case WithinBit =>
    }
  }

  // ---------------------------------------------------------------------
  // Points and disjointness

  /** The `UnionRegion::contains` loop from operand i on. */
  function UnionContainsFrom<R>(ops: seq<Operand<R>>, v: UnitVector3d, i: nat): (r: bool)
    requires i <= |ops|
    ensures r <==> exists j :: i <= j < |ops| && ops[j].contains(v)
    decreases |ops| - i
  {
    if i == |ops| then false
    else if ops[i].contains(v) then true
    else UnionContainsFrom(ops, v, i + 1)
  }

  /** The `IntersectionRegion::contains` loop from operand i on. */
  function IntersectionContainsFrom<R>(ops: seq<Operand<R>>, v: UnitVector3d, i: nat): (r: bool)
    requires i <= |ops|
    ensures r <==> forall j :: i <= j < |ops| ==> ops[j].contains(v)
    decreases |ops| - i
  {
    if i == |ops| then true
    else if !ops[i].contains(v) then false
    else IntersectionContainsFrom(ops, v, i + 1)
  }

  /** `contains(v)`: some operand (union) or every operand (intersection) contains v. */
  function Contains<R>(c: Compound<R>, v: UnitVector3d): (r: bool)
    ensures c.kind == Union ==> (r <==> exists j :: 0 <= j < |c.operands| && c.operands[j].contains(v))
    ensures c.kind == Intersection ==> (r <==> forall j :: 0 <= j < |c.operands| ==> c.operands[j].contains(v))
  {
    match c.kind
    case Union => UnionContainsFrom(c.operands, v, 0)
    case Intersection => IntersectionContainsFrom(c.operands, v, 0)
  }

  /** The `UnionRegion::isDisjoint` loop from operand i on. */
  function UnionIsDisjointFrom<R>(ops: seq<Operand<R>>, rhs: R, i: nat): (r: bool)
    requires i <= |ops|
    ensures r <==> forall j :: i <= j < |ops| ==> ops[j].isDisjoint(rhs)
    decreases |ops| - i
  {
    if i == |ops| then true
    else if !ops[i].isDisjoint(rhs) then false
    else UnionIsDisjointFrom(ops, rhs, i + 1)
  }

  /** The `IntersectionRegion::isDisjoint` loop from operand i on. */
  function IntersectionIsDisjointFrom<R>(ops: seq<Operand<R>>, rhs: R, i: nat): (r: bool)
    requires i <= |ops|
    ensures r <==> exists j :: i <= j < |ops| && ops[j].isDisjoint(rhs)
    decreases |ops| - i
  {
    if i == |ops| then false
    else if ops[i].isDisjoint(rhs) then true
    else IntersectionIsDisjointFrom(ops, rhs, i + 1)
  }

  /** `isDisjoint(rhs)`: every operand (union) or some operand (intersection) is disjoint. */
  function IsDisjoint<R>(c: Compound<R>, rhs: R): (r: bool)
    ensures c.kind == Union ==> (r <==> forall j :: 0 <= j < |c.operands| ==> c.operands[j].isDisjoint(rhs))
    ensures c.kind == Intersection ==> (r <==> exists j :: 0 <= j < |c.operands| && c.operands[j].isDisjoint(rhs))
  {
    match c.kind
    case Union => UnionIsDisjointFrom(c.operands, rhs, 0)
    case Intersection => IntersectionIsDisjointFrom(c.operands, rhs, 0)
  }

  /**
    When every operand's `isDisjoint` agrees with the DISJOINT bit of its
    `relate`, so does the compound's.
   */
  lemma IsDisjointMatchesRelate<R>(c: Compound<R>, rhs: R)
    requires forall j :: 0 <= j < |c.operands| ==>
               (c.operands[j].isDisjoint(rhs) <==> DisjointBit in c.operands[j].relate(rhs))
    ensures IsDisjoint(c, rhs) <==> DisjointBit in Relate(c, rhs)
  {
  }

  // ---------------------------------------------------------------------
  // Bounding shapes

  /**
    The left fold of `getUnionBounds` / `getIntersectionBounds` from
    operand i on: `bounds` is combined with each operand's bound in turn.
   */
  function FoldBounds<R, B>(ops: seq<Operand<R>>, func: Operand<R> -> B, combine: (B, B) -> B, i: nat, bounds: B): (r: B)
    requires i <= |ops|
    decreases |ops| - i
  {
    if i == |ops| then bounds
    else FoldBounds(ops, func, combine, i + 1, combine(bounds, func(ops[i])))
  }

  /**
    `getUnionBounds`: operand 0's bound expanded by every other operand's.
    `getBoundingBox`, `getBoundingBox3d` and `getBoundingCircle` are this
    fold with `func` the operand's box, 3-D box or circle.
   */
  function UnionBounds<R, B>(c: Compound<R>, func: Operand<R> -> B, expandTo: (B, B) -> B): (r: B)
    ensures |c.operands| == 1 ==> r == func(c.operands[0])
  {
    FoldBounds(c.operands, func, expandTo, 1, func(c.operands[0]))
  }

  /** `getIntersectionBounds`: operand 0's bound clipped to every other operand's. */
  function IntersectionBounds<R, B>(c: Compound<R>, func: Operand<R> -> B, clipTo: (B, B) -> B): (r: B)
    ensures |c.operands| == 1 ==> r == func(c.operands[0])
  {
    FoldBounds(c.operands, func, clipTo, 1, func(c.operands[0]))
  }

  /**
    When `combine` only grows a bound (in a reflexive, transitive order
    `le`), the fold's result bounds the start and every operand it visits.
   */
  lemma {:induction false} FoldBoundsCovers<R, B(!new)>(ops: seq<Operand<R>>, func: Operand<R> -> B, combine: (B, B) -> B,
                                                   le: (B, B) -> bool, i: nat, bounds: B)
    requires i <= |ops|
    requires forall a: B, b: B :: le(a, combine(a, b)) && le(b, combine(a, b))
    requires forall a: B :: le(a, a)
    requires forall a: B, b: B, d: B :: le(a, b) && le(b, d) ==> le(a, d)
    ensures le(bounds, FoldBounds(ops, func, combine, i, bounds))
    ensures forall j :: i <= j < |ops| ==> le(func(ops[j]), FoldBounds(ops, func, combine, i, bounds))
    decreases |ops| - i
  {
    if i < |ops| {
      var next := combine(bounds, func(ops[i]));
      var res := FoldBounds(ops, func, combine, i + 1, next);
      assert FoldBounds(ops, func, combine, i, bounds) == res;
      FoldBoundsCovers(ops, func, combine, le, i + 1, next);
      assert le(next, res);
      assert le(bounds, next) && le(func(ops[i]), next);
      assert le(bounds, res) && le(func(ops[i]), res);
    }
  }

  /**
    The union's bound contains every operand's bound when `expandTo`
    returns a bound containing both of its arguments.
   */
  lemma UnionBoundsContainOperands<R, B(!new)>(c: Compound<R>, func: Operand<R> -> B, expandTo: (B, B) -> B,
                                         contains: (B, B) -> bool)
    requires forall a: B, b: B :: contains(expandTo(a, b), a) && contains(expandTo(a, b), b)
    requires forall a: B :: contains(a, a)
    requires forall a: B, b: B, d: B :: contains(d, b) && contains(b, a) ==> contains(d, a)
    ensures forall j :: 0 <= j < |c.operands| ==> contains(UnionBounds(c, func, expandTo), func(c.operands[j]))
  {
    var le := (a: B, b: B) => contains(b, a);
    FoldBoundsCovers(c.operands, func, expandTo, le, 1, func(c.operands[0]));
  }

  /**
    The intersection's bound lies within every operand's bound when
    `clipTo` returns a bound within both of its arguments. `Box3d::clipTo`
    is such an exact intersection; the clipping of circles and of
    longitude/latitude boxes is not (see `IntersectionBoundsKeepCommonPoints`).
   */
  lemma IntersectionBoundsWithinOperands<R, B(!new)>(c: Compound<R>, func: Operand<R> -> B, clipTo: (B, B) -> B,
                                               contains: (B, B) -> bool)
    requires forall a: B, b: B :: contains(a, clipTo(a, b)) && contains(b, clipTo(a, b))
    requires forall a: B :: contains(a, a)
    requires forall a: B, b: B, d: B :: contains(a, b) && contains(b, d) ==> contains(a, d)
    ensures forall j :: 0 <= j < |c.operands| ==> contains(func(c.operands[j]), IntersectionBounds(c, func, clipTo))
  {
    FoldBoundsCovers(c.operands, func, clipTo, contains, 1, func(c.operands[0]));
  }

  /**
    When `combine` keeps a point v that lies in both of its arguments, the
    fold keeps v if it lies in the start bound and in every operand's
    bound from i on.
   */
  lemma {:induction false} FoldBoundsKeepsPoint<R, B(!new)>(ops: seq<Operand<R>>, func: Operand<R> -> B, combine: (B, B) -> B,
                                                       inB: (B, UnitVector3d) -> bool, v: UnitVector3d, i: nat, bounds: B)
    requires i <= |ops|
    requires forall a: B, b: B :: inB(a, v) && inB(b, v) ==> inB(combine(a, b), v)
    requires inB(bounds, v)
    requires forall j :: i <= j < |ops| ==> inB(func(ops[j]), v)
    ensures inB(FoldBounds(ops, func, combine, i, bounds), v)
    decreases |ops| - i
  {
    if i < |ops| {
      var next := combine(bounds, func(ops[i]));
      assert inB(next, v);
      FoldBoundsKeepsPoint(ops, func, combine, inB, v, i + 1, next);
    }
  }

  /**
    The soundness of `getIntersectionBounds`: a point lying in every
    operand's bound lies in the intersection's bound, whenever `clipTo`
    keeps the points common to its two arguments. Every bound type's
    `clipTo` meets this, circles and wrapping boxes included.
   */
  lemma IntersectionBoundsKeepCommonPoints<R, B(!new)>(c: Compound<R>, func: Operand<R> -> B, clipTo: (B, B) -> B,
                                                 inB: (B, UnitVector3d) -> bool, v: UnitVector3d)
    requires forall a: B, b: B :: inB(a, v) && inB(b, v) ==> inB(clipTo(a, b), v)
    ensures (forall j :: 0 <= j < |c.operands| ==> inB(func(c.operands[j]), v)) ==>
              inB(IntersectionBounds(c, func, clipTo), v)
  {
    if forall j :: 0 <= j < |c.operands| ==> inB(func(c.operands[j]), v) {
      FoldBoundsKeepsPoint(c.operands, func, clipTo, inB, v, 1, func(c.operands[0]));
    }
  }

  /**
    The soundness of `getUnionBounds`: a point lying in some operand's
    bound lies in the union's bound, whenever `expandTo` keeps the points
    of each of its arguments.
   */
  lemma UnionBoundsKeepOperandPoints<R, B(!new)>(c: Compound<R>, func: Operand<R> -> B, expandTo: (B, B) -> B,
                                           inB: (B, UnitVector3d) -> bool, v: UnitVector3d)
    requires forall a: B, b: B :: inB(a, v) || inB(b, v) ==> inB(expandTo(a, b), v)
    ensures (exists j :: 0 <= j < |c.operands| && inB(func(c.operands[j]), v)) ==>
              inB(UnionBounds(c, func, expandTo), v)
  {
    var le := (a: B, b: B) => inB(a, v) ==> inB(b, v);
    FoldBoundsCovers(c.operands, func, expandTo, le, 1, func(c.operands[0]));
  }

  // ---------------------------------------------------------------------
  // Encoding

  /** Every operand encoding is short enough for its 8-byte length prefix. */
  predicate FramesFit(frames: seq<seq<uint8>>)
  {
    forall j :: 0 <= j < |frames| ==> |frames[j]| < TWO_TO_THE_64
  }

  /** The encoded bytes of each operand, in order. */
  function Encodings<R>(ops: seq<Operand<R>>): (frames: seq<seq<uint8>>)
    ensures |frames| == |ops|
    ensures forall j :: 0 <= j < |ops| ==> frames[j] == ops[j].encoding
  {
    seq(|ops|, j requires 0 <= j < |ops| => ops[j].encoding)
  }

  /** Total size of the length-prefixed frames. */
  function FramesSize(frames: seq<seq<uint8>>): (size: nat)
  {
    if |frames| == 0 then 0 else 8 + |frames[0]| + FramesSize(frames[1..])
  }

  /** Each frame as its 8-byte length followed by its bytes, in order. */
  function EncodeFrames(frames: seq<seq<uint8>>, order: ByteOrder): (r: seq<uint8>)
    requires FramesFit(frames)
    ensures |r| == FramesSize(frames)
  {
    if |frames| == 0 then []
    else EncodeU64(|frames[0]|, order) + frames[0] + EncodeFrames(frames[1..], order)
  }

  /** `_encode(tc)`: the type code, then each operand's length-prefixed encoding. */
  function EncodeWithCode<R>(tc: uint8, ops: seq<Operand<R>>, order: ByteOrder): (r: seq<uint8>)
    requires FramesFit(Encodings(ops))
    ensures |r| == 1 + FramesSize(Encodings(ops))
    ensures r[0] == tc
  {
    [tc] + EncodeFrames(Encodings(ops), order)
  }

  /** `encode()`: `_encode` with the region's own type code. */
  function Encode<R>(c: Compound<R>, order: ByteOrder): (r: seq<uint8>)
    requires FramesFit(Encodings(c.operands))
  {
    EncodeWithCode(TypeCode(c.kind), c.operands, order)
  }

  /** `consumeDecodeU64`: read a length, refusing to run past the end. */
  function ConsumeDecodeU64(rest: seq<uint8>, order: ByteOrder): (r: Result<(uint64, seq<uint8>), Error>)
    ensures r.Success? <==> |rest| >= 8
    ensures r.Success? ==> EncodeU64(r.value.0, order) == rest[..8] && r.value.1 == rest[8..]
    ensures r.Failure? ==> r.error == Truncated
  {
    if |rest| < 8 then Failure(Truncated)
    else
      EncodeDecodeU64(rest[..8], order);
      Success((DecodeU64(rest[..8], order), rest[8..]))
  }

  /** The `_decode` loop: split the bytes after the type code into frames. */
  function DecodeFrames(rest: seq<uint8>, order: ByteOrder): (r: Result<seq<seq<uint8>>, Error>)
    ensures r.Failure? ==> r.error == Truncated
    ensures 0 < |rest| < 8 ==> r.Failure?
    ensures |rest| >= 8 && DecodeU64(rest[..8], order) > |rest| - 8 ==> r.Failure?
    ensures r.Success? ==> FramesFit(r.value) && 8 * |r.value| <= |rest|
    decreases |rest|
  {
    if |rest| == 0 then Success([])
    else
      match ConsumeDecodeU64(rest, order)
      case Failure(e) => Failure(e)
      case Success((n, after)) =>
        if n > |after| then Failure(Truncated)
        else
          match DecodeFrames(after[n..], order)
          case Failure(e) => Failure(e)
          case Success(frames) => Success([after[..n]] + frames)
  }

  /**
    The length test of the `_decode` loop as the C++ text evaluates it,
    `buffer + nBytes > end`, on 64-bit addresses that wrap: `cursor` and
    `end` are the addresses of the next frame and of the end of the input.
    Without wrap-around it is `DecodeFrames`'s test, n exceeding the bytes
    that remain.
   */
  function LengthCheckAsWritten(cursor: uint64, n: uint64, end: uint64): (truncated: bool)
    requires cursor <= end
    ensures cursor + n < TWO_TO_THE_64 ==> (truncated <==> n > end - cursor)
  {
    (cursor + n) % TWO_TO_THE_64 > end
  }

  /**
    A length field of 2^64 - 1 wraps the cursor round to the byte before it,
    so the test passes although the frame runs far past the end.
   */
  lemma WrappedLengthPassesCheck(cursor: uint64, end: uint64)
    requires 0 < cursor <= end
    ensures TWO_TO_THE_64 - 1 > end - cursor
    ensures !LengthCheckAsWritten(cursor, TWO_TO_THE_64 - 1, end)
  {
  }

  /** Concretely: at address 16 with no bytes left, the length 2^64 - 1 is let through. */
  lemma WrappedLengthExample()
    ensures !LengthCheckAsWritten(16, TWO_TO_THE_64 - 1, 16)
  {
  }

  /**
    `_decode(tc, ...)`: check the type code, then split the rest into the
    operands' encodings (each handed to `Region::decode`).
   */
  function DecodeWithCode(tc: uint8, buffer: seq<uint8>, order: ByteOrder): (r: Result<seq<seq<uint8>>, Error>)
    ensures |buffer| == 0 ==> r == Failure(Truncated)
    ensures |buffer| > 0 && buffer[0] != tc ==> r == Failure(NotEncodedCompound)
    ensures buffer == [tc] ==> r == Success([])
  {
    if |buffer| == 0 then Failure(Truncated)
    else if buffer[0] != tc then Failure(NotEncodedCompound)
    else DecodeFrames(buffer[1..], order)
  }

  /**
    `UnionRegion::decode` / `IntersectionRegion::decode`: `_decode`, then
    the constructor, which refuses an empty operand list.
   */
  function DecodeKind(kind: Kind, buffer: seq<uint8>, order: ByteOrder): (r: Result<(Kind, seq<seq<uint8>>), Error>)
    ensures r.Success? <==> DecodeWithCode(TypeCode(kind), buffer, order).Success? &&
                            |DecodeWithCode(TypeCode(kind), buffer, order).value| > 0
    ensures r.Success? ==> r.value == (kind, DecodeWithCode(TypeCode(kind), buffer, order).value)
    ensures buffer == [TypeCode(kind)] ==> r == Failure(EmptyOperandList)
  {
    match DecodeWithCode(TypeCode(kind), buffer, order)
    case Failure(e) => Failure(e)
    case Success(frames) =>
      if |frames| == 0 then Failure(EmptyOperandList) else Success((kind, frames))
  }

  /** `CompoundRegion::decode`: dispatch on the leading type code. */
  function Decode(buffer: seq<uint8>, order: ByteOrder): (r: Result<(Kind, seq<seq<uint8>>), Error>)
    ensures |buffer| == 0 ==> r == Failure(Truncated)
    ensures |buffer| > 0 && buffer[0] != UNION_TYPE_CODE && buffer[0] != INTERSECTION_TYPE_CODE ==>
              r == Failure(NotEncodedCompound)
    ensures buffer == [UNION_TYPE_CODE] || buffer == [INTERSECTION_TYPE_CODE] ==> r == Failure(EmptyOperandList)
    ensures r.Success? ==> |buffer| > 0 && buffer[0] == TypeCode(r.value.0) && |r.value.1| > 0
  {
    if |buffer| == 0 then Failure(Truncated)
    else if buffer[0] == UNION_TYPE_CODE then DecodeKind(Union, buffer, order)
    else if buffer[0] == INTERSECTION_TYPE_CODE then DecodeKind(Intersection, buffer, order)
    else Failure(NotEncodedCompound)
  }

  /** One frame followed by more bytes splits off that frame first. */
  lemma DecodeOneFrame(f: seq<uint8>, tail: seq<uint8>, order: ByteOrder)
    requires |f| < TWO_TO_THE_64
    ensures DecodeFrames(EncodeU64(|f|, order) + f + tail, order) ==
              match DecodeFrames(tail, order)
              case Failure(e) => Failure(e)
              case Success(frames) => Success([f] + frames)
  {
    var n := |f|;
    var bytes, after := EncodeU64(n, order) + f + tail, f + tail;
    assert bytes[..8] == EncodeU64(n, order) && bytes[8..] == after;
    assert ConsumeDecodeU64(bytes, order) == Success((n, after)) by {
      DecodeEncodeU64(n, order);
    }
    assert after[..n] == f && after[n..] == tail;
  }

  /** Splitting encoded frames gives the same frames back, in order. */
  lemma {:induction false} DecodeEncodeFrames(frames: seq<seq<uint8>>, order: ByteOrder)
    requires FramesFit(frames)
    ensures DecodeFrames(EncodeFrames(frames, order), order) == Success(frames)
  {
    if |frames| > 0 {
      var f := frames[0];
      var tail := EncodeFrames(frames[1..], order);
      assert EncodeFrames(frames, order) == EncodeU64(|f|, order) + f + tail;
      DecodeOneFrame(f, tail, order);
      DecodeEncodeFrames(frames[1..], order);
      assert [f] + frames[1..] == frames;
    }
  }

  /** A successful split of non-empty bytes peels off the first frame. */
  lemma DecodeFramesFirst(rest: seq<uint8>, order: ByteOrder)
    requires |rest| > 0 && DecodeFrames(rest, order).Success?
    ensures |rest| >= 8 && DecodeU64(rest[..8], order) <= |rest| - 8
    ensures var n := DecodeU64(rest[..8], order);
            DecodeFrames(rest[8 + n..], order).Success? &&
            DecodeFrames(rest, order).value == [rest[8..8 + n]] + DecodeFrames(rest[8 + n..], order).value
  {
    var n := DecodeU64(rest[..8], order);
    var after := rest[8..];
    assert after[n..] == rest[8 + n..];
    assert after[..n] == rest[8..8 + n];
  }

  /** Encoding a frame list with a first frame puts that frame first. */
  lemma EncodeFramesCons(f: seq<uint8>, tail: seq<seq<uint8>>, order: ByteOrder)
    requires |f| < TWO_TO_THE_64 && FramesFit(tail)
    ensures FramesFit([f] + tail)
    ensures EncodeFrames([f] + tail, order) == EncodeU64(|f|, order) + f + EncodeFrames(tail, order)
  {
    assert ([f] + tail)[1..] == tail;
  }

  /** Bytes that split into frames are exactly the encoding of those frames. */
  lemma {:induction false} EncodeDecodeFrames(rest: seq<uint8>, order: ByteOrder)
    requires DecodeFrames(rest, order).Success?
    ensures EncodeFrames(DecodeFrames(rest, order).value, order) == rest
    decreases |rest|
  {
    if |rest| > 0 {
      DecodeFramesFirst(rest, order);
      var n := DecodeU64(rest[..8], order);
      var f, next := rest[8..8 + n], rest[8 + n..];
      var tail := DecodeFrames(next, order).value;
      assert EncodeFrames(tail, order) == next by {
        EncodeDecodeFrames(next, order);
      }
      assert EncodeU64(n, order) == rest[..8] by {
        EncodeDecodeU64(rest[..8], order);
      }
      assert EncodeFrames([f] + tail, order) == EncodeU64(n, order) + f + EncodeFrames(tail, order) by {
        EncodeFramesCons(f, tail, order);
      }
      SplitFrame(rest, n);
    }
  }

  /** Bytes split around one length-prefixed frame join back up. */
  lemma SplitFrame(rest: seq<uint8>, n: nat)
    requires 8 + n <= |rest|
    ensures rest == rest[..8] + rest[8..8 + n] + rest[8 + n..]
  {
  }

  /** `_decode(tc, _encode(tc))` returns the operands' encodings in order. */
  lemma DecodeEncodeWithCode<R>(tc: uint8, ops: seq<Operand<R>>, order: ByteOrder)
    requires FramesFit(Encodings(ops))
    ensures DecodeWithCode(tc, EncodeWithCode(tc, ops, order), order) == Success(Encodings(ops))
  {
    var bytes := EncodeWithCode(tc, ops, order);
    assert bytes[1..] == EncodeFrames(Encodings(ops), order);
    DecodeEncodeFrames(Encodings(ops), order);
  }

  /** A buffer `_decode` accepts is the `_encode` of the frames it returns. */
  lemma EncodeDecodeWithCode(tc: uint8, buffer: seq<uint8>, order: ByteOrder)
    requires DecodeWithCode(tc, buffer, order).Success?
    ensures [tc] + EncodeFrames(DecodeWithCode(tc, buffer, order).value, order) == buffer
  {
    var rest := buffer[1..];
    assert buffer == [tc] + rest;
    assert DecodeWithCode(tc, buffer, order) == DecodeFrames(rest, order);
    assert EncodeFrames(DecodeFrames(rest, order).value, order) == rest by {
      EncodeDecodeFrames(rest, order);
    }
  }

  /**
    A buffer `decode` accepts is the type code of the kind it reports
    followed by the length-prefixed frames it returns.
   */
  lemma EncodeDecode(buffer: seq<uint8>, order: ByteOrder)
    requires Decode(buffer, order).Success?
    ensures [TypeCode(Decode(buffer, order).value.0)] + EncodeFrames(Decode(buffer, order).value.1, order) == buffer
  {
    EncodeDecodeWithCode(TypeCode(Decode(buffer, order).value.0), buffer, order);
  }

  /** `decode(encode(c))` recovers the kind and the operands' encodings. */
  lemma DecodeEncode<R>(c: Compound<R>, order: ByteOrder)
    requires FramesFit(Encodings(c.operands))
    ensures Decode(Encode(c, order), order) == Success((c.kind, Encodings(c.operands)))
  {
    DecodeEncodeWithCode(TypeCode(c.kind), c.operands, order);
  }
}

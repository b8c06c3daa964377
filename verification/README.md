# sphgeom core in Dafny

A Dafny model of three pieces of the LSST spherical-geometry library
`sphgeom`, with proofs of the laws they are meant to obey:

- **Compound regions** (`UnionRegion`, `IntersectionRegion`). A compound
  region combines a non-empty list of operand regions. Its `relate`,
  `contains` and `isDisjoint` answers are built from the operands'
  answers. Its bounding box, 3-D box and circle are a fold of the
  operands' bounds. It is encoded as a type code followed by each
  operand's encoding, each behind an 8-byte length.
- **`HEALPixel`**, a cell of the HEALPix hierarchy named by a level and a
  NESTED id. Containment, disjointness and `relate` between two pixels
  come from shifting the finer id right by two bits per level. A pixel
  is encoded as a fixed 106-byte record.
- **The Hilbert lookup-table generator** (`misc/makeHilbertLuts.py`).
  This covers:
  - the two-bit rotations, Gray code, entry corners and directions;
  - the transform `T` and its inverse;
  - the point-to-index map `TR_algo2` and the index-to-point map `TR_algo3`;
  - bit de-interleaving;
  - the two tables `make_TR_algo2_lut` / `make_TR_algo3_lut`, which step
    M levels of the curve at once from each of the four start states.

Modules:

| file | module | contents |
|---|---|---|
| Primitives.dfy | `Primitives` | `uint8`, `uint64`, a double as its 64-bit pattern, `UnitVector3d` |
| Results.dfy | `Results` | `Result` and `Option` |
| Codec.dfy | `Codec` | `encodeU64` / `decodeU64` and `encodeDouble` / `decodeDouble`, for either byte order |
| Relationship.dfy | `Relationships` | the `Relationship` bit set and `invert` |
| Bits.dfy | `Bits` | Python's shifts, masks, `&`, `\|` and `^` on natural numbers |
| CompoundRegion.dfy | `CompoundRegions` | union and intersection regions |
| HealPixel.dfy | `HealPix` | `HEALPixel` |
| HilbertBits.dfy | `HilbertBits` | the bit helpers of the generator (N = 2) |
| HilbertCurve.dfy | `HilbertCurve` | `TR_algo2`, `TR_algo3`, `deinterleave` and the two tables |
| HilbertLattice.dfy | `HilbertLattice` | the curve as a four-state table, and the order-1 and order-2 lattices |

An operand of a compound region is a record of its answers. It holds:
- its relationship to a right-hand region of any type `R`;
- its `isDisjoint` answer;
- its point-membership test;
- its encoded bytes.

The geometry of the operand region types (boxes, circles, polygons,
ellipses) is outside this model.

## Model

| member | source | states |
|---|---|---|
| CompoundRegions.Make | src/CompoundRegion.cc:81-87 | construction succeeds exactly when the operand list is non-empty, keeping the kind and the operands in order; an empty list fails with `EmptyOperandList` |
| CompoundRegions.UnionRelate | src/CompoundRegion.cc:170-199 | the union is DISJOINT from rhs iff every operand is, WITHIN it iff every operand is, and CONTAINS it iff some operand does |
| CompoundRegions.IntersectionRelate | src/CompoundRegion.cc:232-263 | the intersection CONTAINS rhs iff every operand does, is DISJOINT iff some operand is, and is WITHIN iff some operand is |
| CompoundRegions.UnionEarlyExitAgrees | src/CompoundRegion.cc:193-195 | stopping the union loop once the result is exactly CONTAINS gives the same answer as visiting every operand |
| CompoundRegions.IntersectionEarlyExitAgrees | src/CompoundRegion.cc:257-259 | stopping the intersection loop once the result is exactly DISJOINT \| WITHIN gives the same answer as visiting every operand |
| CompoundRegions.SingleOperandRelate | src/CompoundRegion.cc:170-263 | a compound of either kind with one operand relates to any region exactly as that operand does |
| CompoundRegions.UnionContainsFrom | src/CompoundRegion.cc:161-168 | the union loop answers true iff some remaining operand contains the point |
| CompoundRegions.IntersectionContainsFrom | src/CompoundRegion.cc:223-230 | the intersection loop answers true iff every remaining operand contains the point |
| CompoundRegions.Contains | src/CompoundRegion.cc:161-230 | a union contains v iff some operand does; an intersection contains v iff every operand does |
| CompoundRegions.UnionIsDisjointFrom | src/CompoundRegion.cc:201-209 | the union loop answers true iff every remaining operand is disjoint from rhs |
| CompoundRegions.IntersectionIsDisjointFrom | src/CompoundRegion.cc:265-274 | the intersection loop answers true iff some remaining operand is disjoint from rhs |
| CompoundRegions.IsDisjoint | src/CompoundRegion.cc:201-274 | a union is disjoint iff every operand is; an intersection is disjoint iff some operand is |
| CompoundRegions.IsDisjointMatchesRelate | tests/relationshipTestUtils.h:51-59 | if each operand's `isDisjoint` agrees with the DISJOINT bit of its `relate`, the compound's `isDisjoint` agrees with the DISJOINT bit of the compound's `relate` |
| CompoundRegions.UnionBounds | src/CompoundRegion.cc:61-68 | the union bound of a one-operand compound is that operand's bound |
| CompoundRegions.UnionBoundsContainOperands | src/CompoundRegion.cc:149-159 | when `expandTo` returns a bound containing both arguments, the union's box, 3-D box or circle contains every operand's |
| CompoundRegions.IntersectionBounds | src/CompoundRegion.cc:70-77 | the intersection bound of a one-operand compound is that operand's bound |
| CompoundRegions.IntersectionBoundsWithinOperands | src/CompoundRegion.cc:211-221 | when `clipTo` returns a bound within both arguments, as the exact clipping of `Box3d` does, the intersection's 3-D box lies within every operand's |
| CompoundRegions.IntersectionBoundsKeepCommonPoints | src/CompoundRegion.cc:70-77 | when `clipTo` keeps every point common to its two arguments, a point lying in every operand's bound lies in the intersection's box, 3-D box or circle |
| CompoundRegions.UnionBoundsKeepOperandPoints | src/CompoundRegion.cc:61-68 | when `expandTo` keeps every point of either argument, a point lying in some operand's bound lies in the union's box, 3-D box or circle |
| CompoundRegions.EncodeWithCode | src/CompoundRegion.cc:102-111 | the encoding starts with the type code and is 1 byte plus 8 + the size of each operand's encoding long |
| CompoundRegions.ConsumeDecodeU64 | src/CompoundRegion.cc:52-59 | reading a length succeeds iff at least 8 bytes remain, returning the value those 8 bytes encode and the bytes after them; otherwise it fails with `Truncated` |
| CompoundRegions.DecodeFrames | src/CompoundRegion.cc:124-131 | the frame loop fails only with `Truncated`; 1 to 7 trailing bytes, or a length running past the end, fail; every frame it returns fits an 8-byte length |
| CompoundRegions.LengthCheckAsWritten | src/CompoundRegion.cc:126 | the C++ test `buffer + nBytes > end` on wrapping 64-bit addresses; when the sum does not wrap, it refuses exactly the lengths exceeding the bytes that remain |
| CompoundRegions.WrappedLengthPassesCheck | src/CompoundRegion.cc:124-129 | with the cursor at a non-zero address, the length 2^64 - 1 exceeds the remaining bytes yet passes the C++ test |
| CompoundRegions.DecodeWithCode | src/CompoundRegion.cc:113-133 | an empty buffer is `Truncated`, a wrong first byte is `NotEncodedCompound`, and the type code alone gives no operands |
| CompoundRegions.DecodeKind | src/CompoundRegion.cc:140-143 | decoding as one kind succeeds iff `_decode` does and finds at least one operand; the type code alone fails with `EmptyOperandList`, as the constructor refuses it |
| CompoundRegions.Decode | src/CompoundRegion.cc:135-147 | an empty buffer is `Truncated`; a first byte other than 'u' or 'i' is `NotEncodedCompound`; a bare type code is `EmptyOperandList`; a success reports the kind whose code leads the buffer and at least one operand |
| CompoundRegions.DecodeEncodeFrames | src/CompoundRegion.cc:105-109 | the frame loop of `_decode` splits what the operand loop of `_encode` wrote back into the same frames |
| CompoundRegions.EncodeDecodeFrames | src/CompoundRegion.cc:124-131 | bytes the frame loop accepts are exactly the length-prefixed encoding of the frames it returns |
| CompoundRegions.DecodeEncodeWithCode | src/CompoundRegion.cc:113-133 | `_decode(tc, _encode(tc))` gives back the operands' encodings in order |
| CompoundRegions.EncodeDecodeWithCode | src/CompoundRegion.cc:102-111 | a buffer `_decode(tc)` accepts is `_encode(tc)` of the frames it returns |
| CompoundRegions.DecodeEncode | src/CompoundRegion.cc:135-147 | `decode(encode(c))` recovers c's kind and its operands' encodings |
| CompoundRegions.EncodeDecode | src/CompoundRegion.cc:135-147 | a buffer `decode` accepts is the type code of the reported kind followed by the length-prefixed frames it returns |
| Codec.DecodeEncodeU64 | src/HEALPixel.cc:92 | for either byte order, decoding the 8 bytes `encodeU64` writes gives the value back |
| Codec.EncodeDecodeU64 | src/HEALPixel.cc:108 | for either byte order, encoding the value `decodeU64` reads gives the 8 bytes back |
| Relationships.InvertInvolution | src/HEALPixel.cc:64-66 | inverting a relationship twice gives it back |
| HealPix.Parent | src/HEALPixel.cc:38-40 | the shifted id is the id of the pixel's ancestor that many levels up, each level dividing by 4 |
| HealPix.Contains | src/HEALPixel.cc:44-52 | a contains b iff a is at b's level or coarser and a's id is b's ancestor id at a's level |
| HealPix.IsDisjointFrom | src/HEALPixel.cc:54-62 | two pixels are disjoint iff neither contains the other |
| HealPix.Relate | src/HEALPixel.cc:68-76 | the result is CONTAINS, WITHIN, CONTAINS \| WITHIN or DISJOINT; its CONTAINS, WITHIN and DISJOINT bits are `contains`, `isWithin` and `isDisjointFrom`, and DISJOINT is clear iff `intersects` |
| HealPix.RelateRegion | src/HEALPixel.cc:64-66 | the pixel's relationship to a region is the region's relationship to the pixel, with CONTAINS and WITHIN exchanged |
| HealPix.RelateRegionAgrees | src/HEALPixel.cc:64-76 | `relate(Region)` over a pixel agrees with `relate(HEALPixel)` |
| HealPix.RelateSymmetric | src/HEALPixel.cc:68-76 | `a.relate(b)` is `invert(b.relate(a))` |
| HealPix.ContainsOnlyDescendants | src/HEALPixel.cc:44-52 | a pixel contains no coarser pixel, contains a pixel of its own level iff the ids are equal, and contains a finer pixel iff the finer id shifted right by two bits per level is its id |
| HealPix.ContainsTransitive | src/HEALPixel.cc:44-52 | containment is transitive across levels |
| HealPix.MutualContainmentIsEquality | include/lsst/sphgeom/HEALPixel.h:65-68 | two pixels contain each other iff they are `==`, and relate as CONTAINS \| WITHIN iff they are `==`; `!=` holds iff one does not contain the other |
| HealPix.IsDisjointFromSymmetric | src/HEALPixel.cc:54-62 | `isDisjointFrom` does not depend on the argument order |
| HealPix.ContainsImpliesIntersects | include/lsst/sphgeom/HEALPixel.h:87 | a pixel intersects, and is not disjoint from, every pixel it contains |
| HealPix.PointPredicatesConsistent | include/lsst/sphgeom/HEALPixel.h:79-94 | for a point, `contains`, `isWithin`, `isDisjointFrom` and `intersects` are the bits of the relationship DISJOINT (the base class claims no point, src/HEALPixel.cc:128-130) |
| HealPix.Encode | src/HEALPixel.cc:86-99 | the encoding is 106 bytes: 'h', the level byte, the 8 bytes of the id, then the vertices |
| HealPix.DecodeState | src/HEALPixel.cc:101-117 | decoding succeeds iff the buffer is present, 106 bytes long and starts with 'h'; the level is byte 1 and the id is what bytes 2-9 encode |
| HealPix.DecodeEncode | src/HEALPixel.cc:86-117 | `decodeState(encode(p))` returns p's level, id and vertices |
| HealPix.EncodeDecode | src/HEALPixel.cc:86-117 | a buffer `decodeState` accepts is the encoding of the state it returns |
| HealPix.DecodeEncodeVertices | src/HEALPixel.cc:109-115 | the vertex loop reads back the vertices the encoder wrote, 24 bytes each |
| HilbertBits.RotationsInverse | misc/makeHilbertLuts.py:49-67 | on two-bit values, `rotate_left` by d undoes `rotate_right` by d and the other way round, and both stay below 4 |
| HilbertBits.RotateRightTwoBits | misc/makeHilbertLuts.py:49-56 | on two-bit values, rotating right by an even amount is the identity and by an odd amount swaps the two bits |
| HilbertBits.GrayCodeRoundTrip | misc/makeHilbertLuts.py:75-105 | on two-bit values, `inverse_gc` undoes `gc` and `gc` undoes `inverse_gc` |
| HilbertBits.GrayNeighboursDifferInOneBit | misc/makeHilbertLuts.py:108-110 | for every i, `gc(i) ^ gc(i + 1)` is a power of two, so the logarithm in `g` is exact |
| HilbertBits.GrayDirection | misc/makeHilbertLuts.py:108-110 | `g(i)` is the exponent r with 2^r = `gc(i) ^ gc(i + 1)` |
| HilbertLattice.DirectionTwoBits | misc/makeHilbertLuts.py:113-120 | for a two-bit sub-square w, `d(w)` is 1 for sub-squares 1 and 2 and 0 for sub-squares 0 and 3 |
| HilbertBits.EntryCorner | misc/makeHilbertLuts.py:80-85 | every two-bit sub-square enters at corner 0, except sub-square 3 which enters at corner 3 |
| HilbertBits.TransformRoundTrips | misc/makeHilbertLuts.py:123-131 | for two-bit e and b and direction 0 or 1, `T_inv(e, d, T(e, d, b)) == b`, `T(e, d, T_inv(e, d, b)) == b`, and both stay below 4 |
| HilbertCurve.AdvanceKeepsStateValid | misc/makeHilbertLuts.py:153-154 | from ve in {0, 3} and vd in {0, 1}, the state update stays in those sets |
| HilbertCurve.StepsKeepValid | misc/makeHilbertLuts.py:144-154 | a level of `TR_algo2` and a level of `TR_algo3` each map a two-bit input to a two-bit output and a valid state |
| HilbertCurve.StepsUndoEachOther | misc/makeHilbertLuts.py:166-173 | a level of `TR_algo3` reads back the label a level of `TR_algo2` consumed, and the other way round, moving to the same next state |
| HilbertCurve.HilbertPointOfIndex | misc/makeHilbertLuts.py:134-174 | for coordinates below 2^M, `TR_algo2` gives an index below 4^M and `TR_algo3` maps it back to the point |
| HilbertCurve.HilbertIndexOfPoint | misc/makeHilbertLuts.py:134-174 | every index below 4^M maps under `TR_algo3` to a point with coordinates below 2^M, whose `TR_algo2` index is that index |
| HilbertCurve.DeinterleaveInverts | misc/makeHilbertLuts.py:177-184 | `deinterleave(z, M)` gives coordinates below 2^M whose interleaved cell labels are the 2M low bits of z |
| HilbertCurve.MakeTable | misc/makeHilbertLuts.py:191-193 | the loop nest over ve, vd and position yields 4 * q entries, entry k being that of start state k / q and position k % q |
| HilbertCurve.MakeIndexTable | misc/makeHilbertLuts.py:187-216 | the table has 4 * 4^M entries; entry k is the packed index of start state k / 4^M and point k % 4^M, and fits in 2M + 2 bits |
| HilbertCurve.MakePointTable | misc/makeHilbertLuts.py:219-238 | the table has 4 * 4^M entries; entry k is the packed point of start state k / 4^M and index k % 4^M, and fits in 2M + 2 bits |
| HilbertCurve.IndexTableEntryBound | misc/makeHilbertLuts.py:215 | every `make_TR_algo2_lut` entry fits in 2M + 2 bits |
| HilbertCurve.PointTableEntryBound | misc/makeHilbertLuts.py:237 | every `make_TR_algo3_lut` entry fits in 2M + 2 bits |
| HilbertCurve.TableLoopsRoundTrip | misc/makeHilbertLuts.py:198-236 | from any valid state, the inner loop of `make_TR_algo3_lut` maps the index computed for z back to z and ends in the same state |
| HilbertCurve.TableRoundTrip | misc/makeHilbertLuts.py:187-238 | for every start state, looking up the low 2M bits of the `make_TR_algo2_lut` entry for z in `make_TR_algo3_lut` gives z back, with the same exit-state bits |
| HilbertLattice.AdvanceOnValidState | misc/makeHilbertLuts.py:153-154 | from a valid state, sub-square 3 exchanges entry corners 0 and 3, and sub-squares 0 and 3 flip the direction |
| HilbertLattice.IndexStepIsStateTable | misc/makeHilbertLuts.py:144-154 | one level of `TR_algo2` from each of the four valid states is the classic four-state Hilbert table |
| HilbertLattice.OrderOneLattice | tests/testCurve.cc:89-93 | the order-1 curve visits (0,0), (0,1), (1,1), (1,0) in that order, and `TR_algo3` maps each index back to its point |
| HilbertLattice.OrderTwoLattice | tests/testCurve.cc:94-103 | the order-2 curve visits the sixteen points of the lattice in index order, and `TR_algo3` maps each index back to its point |

## Left out

- Type codes: `UnionRegion::TYPE_CODE` and `IntersectionRegion::TYPE_CODE` are declared in `CompoundRegion.h`, which is not part of this model. They are taken to be 'u' and 'i'.
- Byte order: `codec.h`, which defines `encodeU64` / `decodeU64` / `encodeDouble` / `decodeDouble`, is not part of this model. The byte order is a parameter, and every codec law is proved for both little- and big-endian.
- HealPix.Parent: requires 2 * (level difference) < 64, and so do `Contains`, `IsDisjointFrom` and `Relate` when the levels differ. A C++ shift of a 64-bit value by 64 bits or more is undefined behaviour, and the model does not choose a result for it.
- CompoundRegions.DecodeKind: each operand's bytes are returned as a frame, not passed to `Region::decode`. The polymorphic decoder of every region type is outside this model, so a nested decode failure is not modelled. The bodies of `UnionRegion::decode` and `IntersectionRegion::decode` are in `CompoundRegion.h`, which is not part of this model; each is taken to be `_decode` with its own type code followed by the constructor.
- CompoundRegions.DecodeFrames: reads the C++ length test `buffer + nBytes > end` as `nBytes > end - buffer`, refusing every length that runs past the end. Pointer overflow, which is undefined behaviour in C++, is not part of `DecodeFrames`; the wrap-around reading is under Findings.
- CompoundRegions.IntersectionBoundsWithinOperands: its hypothesis, that `clipTo` returns a bound within both arguments, holds for `Box3d` only. Two partly overlapping circles, or two longitude intervals overlapping in two separate arcs, have no bounding circle or box within both. For every bound type the model states soundness instead, in `IntersectionBoundsKeepCommonPoints`.
- `HEALPixel::decode` and `registerDecodeFunction`: the mutex-guarded decode callback is outside this model. Only `decodeState` is modelled; the callback is external code.
- CompoundRegions.Make: the C++ constructor is declared `noexcept`, so the `std::invalid_argument` it throws for an empty operand list ends the program. The model reports it as `Failure(EmptyOperandList)`, and `Decode` of a bare type code reports the same. Every operation takes a `Compound`, a region with at least one operand.
- `clone()` and the copy constructor: deep copies of the operand list are not modelled. Values are immutable here.
- Floating point: a vertex coordinate is carried as its 64-bit pattern. `UnitVector3d::fromNormalized` does no arithmetic. `getArea` is pure virtual, and the operands' bounding boxes and circles are abstract values of a type parameter.
- HilbertBits.GrayDirection: `np.log2` on a float is replaced by the exact integer logarithm `Log2`. Its argument is proved to be a power of two, where the two agree.
- `operator<<` for `HEALPixel`, and `bin_str`, `f`, `i_to_p` and the table printing of the generator: output formatting only, with no behaviour to state.
- The constant `HILBERT_LUT_3` / `HILBERT_INVERSE_LUT_3` values for M = 3: the tables are defined for every M and their round trip is proved for every M, but the 256 concrete bytes are not written out.
- Lattices: only orders 1 and 2 are stated as explicit point lists. The round trip is proved for every order.
- `Region::relate` dispatch for `Box`, `Circle`, `ConvexPolygon` and `Ellipse` on a compound region (src/CompoundRegion.cc:97-100): each forwards to `relate(Region)`, which is modelled once for any right-hand type `R`.

## Findings

| source | as written | input that shows it | evidently intended | confidence | as-written member | corrected member |
|---|---|---|---|---|---|---|
| src/CompoundRegion.cc:126 | `buffer + nBytes > end`, with `nBytes` an unchecked 64-bit length read from the input | a frame whose length field is 0xFFFFFFFFFFFFFFFF: the pointer sum wraps to the byte before `buffer`, the test passes, and `Region::decode(buffer, 2^64 - 1)` reads past the end | refuse every length greater than `end - buffer` with "Encoded CompoundRegion is truncated." | medium, not executed; the wrap is undefined behaviour, and a compiler may also produce other results | CompoundRegions.LengthCheckAsWritten, CompoundRegions.WrappedLengthPassesCheck | CompoundRegions.DecodeFrames |

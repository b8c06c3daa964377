/**
  The two-dimensional Hilbert index of the lookup-table generator: the
  forward map `TR_algo2` from a point to its index, the inverse map
  `TR_algo3`, bit de-interleaving, and the two 4 * 4^M-entry tables that
  process M levels of the curve at a time from each of the four start
  states.

  A point is a pair (x, y) (the Python list `p` of length N = 2). The
  curve state is the pair (ve, vd): the entry corner and the direction of
  the current sub-square.
 */
module HilbertCurve {
  import opened Bits
  import opened HilbertBits

  datatype Point2 = Point2(x: nat, y: nat)

  /** The state (ve, vd) carried from one level of the curve to the next. */
  datatype CurveState = CurveState(entry: nat, direction: nat)

  /** The state at the top level of the curve: ve = 0, vd = 0. */
  const INITIAL_STATE: CurveState := CurveState(0, 0)

  /** The accumulator before any digit has been appended: h = 0, z = 0. */
  const NO_DIGITS: nat := 0

  /** The point before any bit has been set: p = [0] * N. */
  const ORIGIN: Point2 := Point2(0, 0)

  /** The states the generator starts from and, as proved below, never leaves. */
  predicate ValidState(s: CurveState)
  {
    (s.entry == 0 || s.entry == 3) && (s.direction == 0 || s.direction == 1)
  }

  /** The state update shared by every loop: compose with sub-square w's entry and direction. */
  function Advance(s: CurveState, w: nat): (next: CurveState)
  {
    CurveState(Xor(s.entry, RotateLeft(Entry(w), s.direction + 1)),
               (s.direction + Direction(w) + 1) % N)
  }

  /** acc with the low bit of label l added at bit i of x and its high bit at bit i of y. */
  function Place(acc: Point2, l: nat, i: nat): (q: Point2)
  {
    Point2(acc.x + (l % 2) * Pow2(i), acc.y + (l / 2) * Pow2(i))
  }

  /** The cell label of p at level i: bit i of x, plus twice bit i of y. */
  function CellLabel(p: Point2, i: nat): (l: nat)
    ensures l < 4
  {
    BitComponent(p.x, i) + 2 * BitComponent(p.y, i)
  }

  /** The N-bit digit of an index at level i: bits i * N and i * N + 1. */
  function IndexDigit(h: nat, i: nat): (w: nat)
    ensures w < 4
  {
    BitComponent(h, i * N) + 2 * BitComponent(h, i * N + 1)
  }

  // ---------------------------------------------------------------------
  // One level of the curve

  /**
    One level of a curve loop: from the state and the input digit, the
    output digit and the next state. The loops below take their level as a
    parameter; `IndexStep` and `PointStep` are the two levels of the
    generator.
   */
  type Step = (CurveState, nat) -> (nat, CurveState)

  /**
    One level of `TR_algo2`: the cell label l, transformed into the
    current sub-square, gives the digit w through the inverse Gray code.
   */
  function IndexStep(s: CurveState, l: nat): (r: (nat, CurveState))
  {
    var w := InverseGrayCode(Transform(s.entry, s.direction, l));
    (w, Advance(s, w))
  }

  /**
    One level of `TR_algo3`: the digit w, Gray coded and transformed back
    out of the current sub-square, gives the cell label.
   */
  function PointStep(s: CurveState, w: nat): (r: (nat, CurveState))
  {
    (InverseTransform(s.entry, s.direction, GrayCode(w)), Advance(s, w))
  }

  /** A level that maps digits below 4 to digits below 4 and keeps the state valid. */
  ghost predicate KeepsValid(f: Step)
  {
    forall s: CurveState, a: nat :: ValidState(s) && a < 4 ==> f(s, a).0 < 4 && ValidState(f(s, a).1)
  }

  /** Level g reads back the input of level f from its output, in the same state and to the same next state. */
  ghost predicate Undoes(g: Step, f: Step)
  {
    forall s: CurveState, a: nat :: ValidState(s) && a < 4 ==> g(s, f(s, a).0) == (a, f(s, a).1)
  }

  // ---------------------------------------------------------------------
  // TR_algo2 and TR_algo3

  /**
    The loop of `TR_algo2` over levels k - 1 down to 0, from state s with
    the index h read so far; returns the index and the exit state.
   */
  function IndexLoop(f: Step, p: Point2, k: nat, s: CurveState, h: nat): (r: (nat, CurveState))
    decreases k
  {
    if k == 0 then (h, s)
    else
      var t := f(s, CellLabel(p, k - 1));
      IndexLoop(f, p, k - 1, t.1, Or(Shl(h, N), t.0))
  }

  /** `TR_algo2(p, M)`: the Hilbert index of p on the order-M curve. */
  function HilbertIndex(p: Point2, m: nat): (h: nat)
  {
    IndexLoop(IndexStep, p, m, INITIAL_STATE, NO_DIGITS).0
  }

  /**
    The loop of `TR_algo3` over levels k - 1 down to 0, adding bit i of
    each coordinate to the point p built so far.
   */
  function PointLoop(g: Step, h: nat, k: nat, s: CurveState, p: Point2): (r: (Point2, CurveState))
    decreases k
  {
    if k == 0 then (p, s)
    else
      var i := k - 1;
      var t := g(s, IndexDigit(h, i));
      PointLoop(g, h, i, t.1, Point2(p.x + Shl(BitComponent(t.0, 0), i), p.y + Shl(BitComponent(t.0, 1), i)))
  }

  /** `TR_algo3(h, M)`: the point with Hilbert index h on the order-M curve. */
  function HilbertPoint(h: nat, m: nat): (p: Point2)
  {
    PointLoop(PointStep, h, m, INITIAL_STATE, ORIGIN).0
  }

  /**
    The inner loop of `make_TR_algo3_lut`: `TR_algo3` with the labels
    shifted into an interleaved integer z instead of two coordinates.
   */
  function InterleavedLoop(g: Step, h: nat, k: nat, s: CurveState, z: nat): (r: (nat, CurveState))
    decreases k
  {
    if k == 0 then (z, s)
    else
      var t := g(s, IndexDigit(h, k - 1));
      InterleavedLoop(g, h, k - 1, t.1, Or(Shl(z, N), t.0))
  }

  // ---------------------------------------------------------------------
  // Interleaving and the lookup tables

  /** `deinterleave(z, M)`: even bits of z to x, odd bits to y. */
  function Deinterleave(z: nat, m: nat): (p: Point2)
  {
    DeinterleaveLoop(z, m, 0, ORIGIN)
  }

  function DeinterleaveLoop(z: nat, m: nat, i: nat, p: Point2): (q: Point2)
    decreases m - i
  {
    if i >= m then p
    else
      DeinterleaveLoop(z, m, i + 1,
                       Point2(Or(p.x, Pow2(i) * BitComponent(z, 2 * i)),
                              Or(p.y, Pow2(i) * BitComponent(z, 2 * i + 1))))
  }

  /**
    Reference definition of interleaving: the k low cell labels of p as
    the base-4 digits of one integer.
   */
  function Interleave(p: Point2, k: nat): (z: nat)
  {
    if k == 0 then 0 else CellLabel(p, k - 1) * Pow2(2 * (k - 1)) + Interleave(p, k - 1)
  }

  /** A table entry: 2M result bits, then vd, then the low bit of ve. */
  function Pack(h: nat, s: CurveState, m: nat): (entry: nat)
  {
    Or(Or(h, Shl(s.direction, 2 * m)), Shl(s.entry % 2, 2 * m + 1))
  }

  /** The j-th start state of the tables: ve in (0, 3) outer, vd in (0, 1) inner. */
  function StartState(j: nat): (s: CurveState)
    ensures ValidState(s)
  {
    CurveState(if j < 2 then 0 else 3, j % 2)
  }

  /** The `make_TR_algo2_lut` entry for start state j and interleaved point z. */
  function IndexTableEntry(m: nat, j: nat, z: nat): (entry: nat)
  {
    var r := IndexLoop(IndexStep, Deinterleave(z, m), m, StartState(j), NO_DIGITS);
    Pack(r.0, r.1, m)
  }

  /** The `make_TR_algo3_lut` entry for start state j and index h. */
  function PointTableEntry(m: nat, j: nat, h: nat): (entry: nat)
  {
    var r := InterleavedLoop(PointStep, h, m, StartState(j), NO_DIGITS);
    Pack(r.0, r.1, m)
  }

  /**
    lut is a prefix of the table whose entry for start state j and position
    z below q is entry(j, z): entry k is entry(k / q, k % q) and is below
    bound.
   */
  ghost predicate TablePrefix(entry: (nat, nat) -> nat, q: nat, bound: nat, lut: seq<nat>)
    requires q > 0
  {
    forall k :: 0 <= k < |lut| ==> lut[k] == entry(k / q, k % q) && lut[k] < bound
  }

  /** Entry (j, z), appended at position j * q + z, keeps lut a prefix of the table. */
  lemma ExtendTable(entry: (nat, nat) -> nat, q: nat, bound: nat, lut: seq<nat>, j: nat, z: nat)
    requires z < q && entry(j, z) < bound
    requires TablePrefix(entry, q, bound, lut) && |lut| == j * q + z
    ensures TablePrefix(entry, q, bound, lut + [entry(j, z)])
  {
    assert |lut| / q == j && |lut| % q == z by {
      DivModOfSum(j, q, z);
    }
    var lut' := lut + [entry(j, z)];
    forall k | 0 <= k < |lut'|
      ensures lut'[k] == entry(k / q, k % q) && lut'[k] < bound
    {
      if k < |lut| {
        assert lut'[k] == lut[k];
      }
    }
  }

  /**
    The loop nest both generators share: ve over (0, 3), vd over (0, 1),
    then every position below q, appending one entry each; start state
    j = 2 * (ve's index) + vd.
   */
  method MakeTable(entry: (nat, nat) -> nat, q: nat, bound: nat) returns (lut: seq<nat>)
    requires q > 0
    requires forall j: nat, z: nat :: entry(j, z) < bound
    ensures |lut| == 4 * q
    ensures forall k :: 0 <= k < |lut| ==> lut[k] == entry(k / q, k % q)
    ensures forall k :: 0 <= k < |lut| ==> lut[k] < bound
  {
    lut := [];
    var a := 0;
    while a < 2
      invariant 0 <= a <= 2
      invariant |lut| == 2 * a * q
      invariant TablePrefix(entry, q, bound, lut)
    {
      var b := 0;
      while b < 2
        invariant 0 <= b <= 2
        invariant |lut| == (2 * a + b) * q
        invariant TablePrefix(entry, q, bound, lut)
      {
        var z := 0;
        while z < q
          invariant 0 <= z <= q
          invariant |lut| == (2 * a + b) * q + z
          invariant TablePrefix(entry, q, bound, lut)
        {
          ExtendTable(entry, q, bound, lut, 2 * a + b, z);
          lut := lut + [entry(2 * a + b, z)];
          z := z + 1;
        }
        b := b + 1;
      }
      a := a + 1;
    }
  }

  /** `make_TR_algo2_lut(M)`: for each start state j and each interleaved point z, entry j * 4^M + z. */
  method MakeIndexTable(m: nat) returns (lut: seq<nat>)
    ensures |lut| == 4 * Pow2(2 * m)
    ensures forall k :: 0 <= k < |lut| ==> lut[k] == IndexTableEntry(m, k / Pow2(2 * m), k % Pow2(2 * m))
    ensures forall k :: 0 <= k < |lut| ==> lut[k] < Pow2(2 * m + 2)
  {
    forall j: nat, z: nat
      ensures IndexTableEntry(m, j, z) < Pow2(2 * m + 2)
    {
      IndexTableEntryBound(m, j, z);
    }
    lut := MakeTable((j, z) => IndexTableEntry(m, j, z), Pow2(2 * m), Pow2(2 * m + 2));
  }

  /** `make_TR_algo3_lut(M)`: for each start state j and each index h, entry j * 4^M + h. */
  method MakePointTable(m: nat) returns (lut: seq<nat>)
    ensures |lut| == 4 * Pow2(2 * m)
    ensures forall k :: 0 <= k < |lut| ==> lut[k] == PointTableEntry(m, k / Pow2(2 * m), k % Pow2(2 * m))
    ensures forall k :: 0 <= k < |lut| ==> lut[k] < Pow2(2 * m + 2)
  {
    forall j: nat, h: nat
      ensures PointTableEntry(m, j, h) < Pow2(2 * m + 2)
    {
      PointTableEntryBound(m, j, h);
    }
    lut := MakeTable((j, h) => PointTableEntry(m, j, h), Pow2(2 * m), Pow2(2 * m + 2));
  }

  // ---------------------------------------------------------------------
  // Arithmetic on levels

  lemma Pow2TwoLevels(i: nat)
    ensures Pow2(2 * i + 2) == 4 * Pow2(2 * i)
    ensures Pow2(2 * i + 1) == 2 * Pow2(2 * i)
  {
    assert Pow2(2 * i + 2) == 2 * Pow2(2 * i + 1);
  }

  /** The two low bits of a two-bit label. */
  lemma LabelBits(l: nat)
    requires l < 4
    ensures BitComponent(l, 0) == l % 2 && BitComponent(l, 1) == l / 2
  {
    assert Pow2(1) == 2;
  }

  /** An index's digit i, read from the block it lies in. */
  lemma DigitOfBlock(n: nat, i: nat, a: nat)
    requires a * Pow2(2 * i) <= n < (a + 1) * Pow2(2 * i)
    ensures IndexDigit(n, i) == a % 4
  {
    var q := Pow2(2 * i);
    assert IndexDigit(n, i) == BitComponent(n, 2 * i) + 2 * BitComponent(n, 2 * i + 1) by {
      assert i * N == 2 * i;
    }
    assert n / q == a by {
      DivBetween(n, q, a);
    }
    assert BitComponent(n, 2 * i + 1) == (a / 2) % 2 by {
      Pow2TwoLevels(i);
      DivDiv(n, q, 2);
    }
    Mod4Bits(a);
  }

  /** The two low bits of a, read one at a time. */
  lemma Mod4Bits(a: nat)
    ensures a % 4 == a % 2 + 2 * ((a / 2) % 2)
  {
    var c, r := a / 4, a % 4;
    var hi, lo := r / 2, r % 2;
    assert a == (c * 2 + hi) * 2 + lo;
    DivModOfSum(c * 2 + hi, 2, lo);
    DivModOfSum(c, 2, hi);
  }

  /** Splitting the 2i + 2 low bits of h into its 2i low bits and digit i. */
  lemma DigitSplit(h: nat, i: nat)
    ensures h % Pow2(2 * i + 2) == h % Pow2(2 * i) + IndexDigit(h, i) * Pow2(2 * i)
  {
    Pow2TwoLevels(i);
    assert i * N == 2 * i;
    ModPow2Split(h, 2 * i);
    ModPow2Split(h, 2 * i + 1);
  }

  /** A value in block 4h + w of size q lies in block h of size 4q. */
  lemma BlockStep(h: nat, w: nat, q: nat, bigQ: nat, r: nat)
    requires w < 4 && bigQ == 4 * q && (4 * h + w) * q <= r < (4 * h + w + 1) * q
    ensures h * bigQ <= r < (h + 1) * bigQ
  {
    MulMonotone(4 * h, 4 * h + w, q);
    MulMonotone(4 * h + w + 1, 4 * h + 4, q);
  }

  /** The empty block structure at level 0. */
  lemma BlockZero(h: nat)
    ensures h * Pow2(2 * 0) <= h < (h + 1) * Pow2(2 * 0)
  {
  }

  /** Appending a digit w below h: `(h << N) | w == 4 * h + w`. */
  lemma AppendDigit(h: nat, w: nat)
    requires w < 4
    ensures Or(Shl(h, N), w) == 4 * h + w
  {
    assert Pow2(2) == 4;
    OrDisjoint(w, h, 2);
  }


  // ---------------------------------------------------------------------
  // The curve state and the two levels

  /**
    Every step from ve in {0, 3} and vd in {0, 1} stays there, because
    every entry corner `e(w)` is 0 or 3.
   */
  lemma AdvanceKeepsStateValid(s: CurveState, w: nat)
    requires ValidState(s) && w < 4
    ensures ValidState(Advance(s, w))
  {
    var c := Entry(w);
    var r := RotateLeft(c, s.direction + 1);
    assert r == 0 || r == 3 by {
      EntryCorner(w);
      RotateLeftTwoBits(c, s.direction + 1);
    }
    CornerXor(s.entry, r);
    assert Direction(w) < N;
  }

  /** Both levels of the generator map two-bit digits to two-bit digits and valid states to valid states. */
  lemma StepsKeepValid()
    ensures KeepsValid(IndexStep) && KeepsValid(PointStep)
  {
    forall s: CurveState, l: nat | ValidState(s) && l < 4
      ensures IndexStep(s, l).0 < 4 && ValidState(IndexStep(s, l).1)
    {
      TransformRoundTrips(s.entry, s.direction, l);
      GrayCodeRoundTrip(Transform(s.entry, s.direction, l));
      AdvanceKeepsStateValid(s, IndexStep(s, l).0);
    }
    forall s: CurveState, w: nat | ValidState(s) && w < 4
      ensures PointStep(s, w).0 < 4 && ValidState(PointStep(s, w).1)
    {
      GrayCodeRoundTrip(w);
      TransformRoundTrips(s.entry, s.direction, GrayCode(w));
      AdvanceKeepsStateValid(s, w);
    }
  }

  /**
    One level of `TR_algo3` reads back the cell label from the digit one
    level of `TR_algo2` chose, and the other way round; both move to the
    same next state.
   */
  lemma StepsUndoEachOther()
    ensures Undoes(PointStep, IndexStep) && Undoes(IndexStep, PointStep)
  {
    forall s: CurveState, l: nat | ValidState(s) && l < 4
      ensures PointStep(s, IndexStep(s, l).0) == (l, IndexStep(s, l).1)
    {
      TransformRoundTrips(s.entry, s.direction, l);
      GrayCodeRoundTrip(Transform(s.entry, s.direction, l));
    }
    forall s: CurveState, w: nat | ValidState(s) && w < 4
      ensures IndexStep(s, PointStep(s, w).0) == (w, PointStep(s, w).1)
    {
      GrayCodeRoundTrip(w);
      TransformRoundTrips(s.entry, s.direction, GrayCode(w));
    }
  }

  // ---------------------------------------------------------------------
  // One level of each loop

  /** One level of the `TR_algo2` loop appends the chosen digit below h and moves to the next state. */
  lemma IndexLevel(f: Step, p: Point2, k: nat, s: CurveState, h: nat)
    requires k > 0 && f(s, CellLabel(p, k - 1)).0 < 4
    ensures var t := f(s, CellLabel(p, k - 1));
      IndexLoop(f, p, k, s, h) == IndexLoop(f, p, k - 1, t.1, 4 * h + t.0)
  {
    var t := f(s, CellLabel(p, k - 1));
    AppendDigit(h, t.0);
  }

  /** One level of the `TR_algo3` loop adds the label's two bits at bit k - 1 of the coordinates. */
  lemma PointLevel(g: Step, h: nat, k: nat, s: CurveState, acc: Point2)
    requires k > 0 && g(s, IndexDigit(h, k - 1)).0 < 4
    ensures var t := g(s, IndexDigit(h, k - 1));
      PointLoop(g, h, k, s, acc)
         == PointLoop(g, h, k - 1, t.1, Place(acc, t.0, k - 1))
  {
    var t := g(s, IndexDigit(h, k - 1));
    LabelBits(t.0);
  }

  /** One level of the inner loop of `make_TR_algo3_lut` appends the label below z. */
  lemma InterleavedLevel(g: Step, h: nat, k: nat, s: CurveState, z: nat)
    requires k > 0 && g(s, IndexDigit(h, k - 1)).0 < 4
    ensures var t := g(s, IndexDigit(h, k - 1));
      InterleavedLoop(g, h, k, s, z) == InterleavedLoop(g, h, k - 1, t.1, 4 * z + t.0)
  {
    var t := g(s, IndexDigit(h, k - 1));
    AppendDigit(z, t.0);
  }

  /** `IndexLevel` with the level's label, digit and next state named. */
  lemma IndexLevelTo(f: Step, p: Point2, k: nat, s: CurveState, h: nat, l: nat, w: nat, next: CurveState)
    requires k > 0 && l == CellLabel(p, k - 1) && f(s, l) == (w, next) && w < 4
    ensures IndexLoop(f, p, k, s, h) == IndexLoop(f, p, k - 1, next, 4 * h + w)
  {
    IndexLevel(f, p, k, s, h);
  }

  /** `InterleavedLevel` with the level's label and next state named. */
  lemma InterleavedLevelTo(g: Step, h: nat, k: nat, s: CurveState, z: nat, l: nat, next: CurveState)
    requires k > 0 && g(s, IndexDigit(h, k - 1)) == (l, next) && l < 4
    ensures InterleavedLoop(g, h, k, s, z) == InterleavedLoop(g, h, k - 1, next, 4 * z + l)
  {
    InterleavedLevel(g, h, k, s, z);
  }

  /** p's i + 1 low bits are its i low bits plus the two bits of its cell label at level i. */
  lemma LabelSplit(p: Point2, i: nat, k: nat)
    requires k == i + 1
    ensures p.x % Pow2(k) == p.x % Pow2(i) + (CellLabel(p, i) % 2) * Pow2(i)
    ensures p.y % Pow2(k) == p.y % Pow2(i) + (CellLabel(p, i) / 2) * Pow2(i)
  {
    BitComponentBound(p.x, i);
    BitComponentBound(p.y, i);
    ModPow2Split(p.x, i);
    ModPow2Split(p.y, i);
  }

  /** A bit at position i keeps a block of size 2^i inside the block of size 2^(i + 1). */
  lemma BitStep(b: nat, i: nat, k: nat)
    requires b < 2 && k == i + 1
    ensures b * Pow2(i) + Pow2(i) <= Pow2(k)
  {
    Pow2Next(i, k);
    MulMonotone(b, 1, Pow2(i));
  }

  /** Going up one level doubles the block size. */
  lemma Pow2Next(i: nat, k: nat)
    requires k == i + 1
    ensures Pow2(k) == 2 * Pow2(i)
  {
  }

  /**
    A value v in the block of size q at a + b * q, with a a multiple of
    2q, has b as the low bit of v / q; the block's start is a multiple of q.
   */
  lemma BlockBit(a: nat, b: nat, v: nat, q: nat)
    requires q > 0 && a % (2 * q) == 0 && b < 2 && a + b * q <= v < a + b * q + q
    ensures (a + b * q) % q == 0 && (v / q) % 2 == b
  {
    var c := a / (2 * q);
    var n := 2 * c + b;
    assert n * q == a + b * q by {
      assert a == (2 * c) * q;
      assert n * q == (2 * c) * q + b * q;
    }
    DivModOfSum(n, q, 0);
    var w := v - (a + b * q);
    assert v == n * q + w;
    assert v / q == n by {
      DivModOfSum(n, q, w);
    }
    assert n % 2 == b;
  }

  /**
    A value in the block of size 2^i at a + b * 2^i, with a a multiple of
    2^(i + 1), has bit i equal to b; the block's start is a multiple of 2^i.
   */
  lemma BitOfBlock(a: nat, b: nat, v: nat, i: nat, k: nat)
    requires k == i + 1 && a % Pow2(k) == 0 && b < 2
    requires a + b * Pow2(i) <= v < a + b * Pow2(i) + Pow2(i)
    ensures (a + b * Pow2(i)) % Pow2(i) == 0 && BitComponent(v, i) == b
  {
    Pow2Next(i, k);
    BlockBit(a, b, v, Pow2(i));
  }

  /** Appending digit i of h below base: the two ways of writing the 2i + 2 low bits agree. */
  lemma DigitAccumulate(base: nat, h: nat, i: nat, k: nat)
    requires k == i + 1
    ensures (4 * base + IndexDigit(h, i)) * Pow2(2 * i) + h % Pow2(2 * i)
         == base * Pow2(2 * k) + h % Pow2(2 * k)
  {
    var q := Pow2(2 * i);
    assert Pow2(2 * k) == 4 * q by {
      Pow2TwoLevels(i);
      assert 2 * k == 2 * i + 2;
    }
    assert h % Pow2(2 * k) == IndexDigit(h, i) * q + h % q by {
      DigitSplit(h, i);
      assert 2 * k == 2 * i + 2;
    }
    Accumulate(base, IndexDigit(h, i), q, Pow2(2 * k), h % q, h % Pow2(2 * k));
  }

  /** Appending the cell label at level i below z: the two ways of writing the interleaving agree. */
  lemma LabelAccumulate(z: nat, p: Point2, i: nat, k: nat)
    requires k == i + 1
    ensures (4 * z + CellLabel(p, i)) * Pow2(2 * i) + Interleave(p, i) == z * Pow2(2 * k) + Interleave(p, k)
  {
    var q := Pow2(2 * i);
    assert Pow2(2 * k) == 4 * q by {
      Pow2TwoLevels(i);
      assert 2 * k == 2 * i + 2;
    }
    assert Interleave(p, k) == CellLabel(p, i) * q + Interleave(p, i);
    Accumulate(z, CellLabel(p, i), q, Pow2(2 * k), Interleave(p, i), Interleave(p, k));
  }

  /** Appending digit l below z in blocks of size q: the arithmetic of LabelAccumulate. */
  lemma Accumulate(z: nat, l: nat, q: nat, bigQ: nat, a: nat, b: nat)
    requires bigQ == 4 * q && b == l * q + a
    ensures (4 * z + l) * q + a == z * bigQ + b
  {
    assert (4 * z + l) * q == z * (4 * q) + l * q;
  }

  // ---------------------------------------------------------------------
  // TR_algo2 bounds and the round trip through TR_algo3

  /** k levels of the `TR_algo2` loop append k digits below h and end in a valid state. */
  lemma {:induction false} IndexLoopBounds(f: Step, p: Point2, k: nat, s: CurveState, h: nat)
    requires KeepsValid(f) && ValidState(s)
    ensures h * Pow2(2 * k) <= IndexLoop(f, p, k, s, h).0 < (h + 1) * Pow2(2 * k)
    ensures ValidState(IndexLoop(f, p, k, s, h).1)
    decreases k
  {
    if k == 0 {
      BlockZero(h);
    } else {
      var i := k - 1;
      var t := f(s, CellLabel(p, i));
      assert t.0 < 4 && ValidState(t.1);
      IndexLevel(f, p, k, s, h);
      IndexLoopBounds(f, p, i, t.1, 4 * h + t.0);
      assert Pow2(2 * k) == 4 * Pow2(2 * i) by {
        Pow2TwoLevels(i);
        assert 2 * k == 2 * i + 2;
      }
      BlockStep(h, t.0, Pow2(2 * i), Pow2(2 * k), IndexLoop(f, p, k, s, h).0);
    }
  }

  /** The digit at level i of what i levels of the `TR_algo2` loop appended below 4h + w is w. */
  lemma DigitOfIndexLoop(f: Step, p: Point2, i: nat, s: CurveState, h: nat, w: nat)
    requires KeepsValid(f) && ValidState(s) && w < 4
    ensures IndexDigit(IndexLoop(f, p, i, s, 4 * h + w).0, i) == w
  {
    IndexLoopBounds(f, p, i, s, 4 * h + w);
    DigitOfBlock(IndexLoop(f, p, i, s, 4 * h + w).0, i, 4 * h + w);
    LowDigit(h, w);
  }

  /** The low base-4 digit of 4h + w is w. */
  lemma LowDigit(h: nat, w: nat)
    requires w < 4
    ensures (4 * h + w) % 4 == w
  {
    assert 4 * h + w == h * 4 + w;
    DivModOfSum(h, 4, w);
  }

  /** Adding the level-i bits of p's label to acc, then p's i low bits, adds p's i + 1 low bits. */
  lemma PointSum(acc: Point2, p: Point2, i: nat, k: nat)
    requires k == i + 1
    ensures Point2(Place(acc, CellLabel(p, i), i).x + p.x % Pow2(i), Place(acc, CellLabel(p, i), i).y + p.y % Pow2(i))
         == Point2(acc.x + p.x % Pow2(k), acc.y + p.y % Pow2(k))
  {
    LabelSplit(p, i, k);
  }

  /**
    k levels of the `TR_algo3` loop, run on what k levels of the
    `TR_algo2` loop produced, add p's k low bits to the point and end in
    the same state.
   */
  lemma {:induction false} PointAfterIndex(f: Step, g: Step, p: Point2, k: nat, s: CurveState, h: nat, acc: Point2)
    requires KeepsValid(f) && Undoes(g, f) && ValidState(s)
    ensures PointLoop(g, IndexLoop(f, p, k, s, h).0, k, s, acc)
         == (Point2(acc.x + p.x % Pow2(k), acc.y + p.y % Pow2(k)), IndexLoop(f, p, k, s, h).1)
    decreases k
  {
    if k > 0 {
      var i := k - 1;
      var l := CellLabel(p, i);
      var t := f(s, l);
      assert t.0 < 4 && ValidState(t.1) && g(s, t.0) == (l, t.1);
      var r := IndexLoop(f, p, i, t.1, 4 * h + t.0);
      var acc' := Place(acc, l, i);
      assert IndexLoop(f, p, k, s, h) == r && PointLoop(g, r.0, k, s, acc) == PointLoop(g, r.0, i, t.1, acc') by {
        IndexLevel(f, p, k, s, h);
        DigitOfIndexLoop(f, p, i, t.1, h, t.0);
        PointLevel(g, r.0, k, s, acc);
      }
      assert PointLoop(g, r.0, i, t.1, acc') == (Point2(acc.x + p.x % Pow2(k), acc.y + p.y % Pow2(k)), r.1) by {
        PointAfterIndex(f, g, p, i, t.1, 4 * h + t.0, acc');
        PointSum(acc, p, i, k);
      }
    }
  }

  /** k levels of the `TR_algo3` loop add a value below 2^k to each coordinate and end in a valid state. */
  lemma {:induction false} PointLoopBounds(g: Step, h: nat, k: nat, s: CurveState, acc: Point2)
    requires KeepsValid(g) && ValidState(s)
    ensures acc.x <= PointLoop(g, h, k, s, acc).0.x < acc.x + Pow2(k)
    ensures acc.y <= PointLoop(g, h, k, s, acc).0.y < acc.y + Pow2(k)
    ensures ValidState(PointLoop(g, h, k, s, acc).1)
    decreases k
  {
    if k > 0 {
      var i := k - 1;
      var t := g(s, IndexDigit(h, i));
      assert t.0 < 4 && ValidState(t.1);
      PointLevel(g, h, k, s, acc);
      var acc' := Place(acc, t.0, i);
      PointLoopBounds(g, h, i, t.1, acc');
      BitStep(t.0 % 2, i, k);
      BitStep(t.0 / 2, i, k);
    }
  }

  /**
    With acc's coordinates multiples of 2^(i + 1), i levels of the
    `TR_algo3` loop from acc plus the bits of label l at position i build a
    point whose cell label at level i is l.
   */
  lemma LabelOfPointLoop(g: Step, h: nat, i: nat, k: nat, s: CurveState, acc: Point2, l: nat)
    requires KeepsValid(g) && ValidState(s) && k == i + 1 && l < 4
    requires acc.x % Pow2(k) == 0 && acc.y % Pow2(k) == 0
    ensures var acc' := Place(acc, l, i);
      && acc'.x % Pow2(i) == 0 && acc'.y % Pow2(i) == 0
      && CellLabel(PointLoop(g, h, i, s, acc').0, i) == l
  {
    var acc' := Place(acc, l, i);
    var q := PointLoop(g, h, i, s, acc');
    PointLoopBounds(g, h, i, s, acc');
    BitOfBlock(acc.x, l % 2, q.0.x, i, k);
    BitOfBlock(acc.y, l / 2, q.0.y, i, k);
  }

  /**
    k levels of the `TR_algo2` loop, run on the point k levels of the
    `TR_algo3` loop built on top of a multiple acc of 2^k, append the k low
    digits of h below base and end in the same state.
   */
  lemma {:induction false} IndexAfterPoint(f: Step, g: Step, h: nat, k: nat, s: CurveState, acc: Point2, base: nat)
    requires KeepsValid(g) && Undoes(f, g) && ValidState(s)
    requires acc.x % Pow2(k) == 0 && acc.y % Pow2(k) == 0
    ensures IndexLoop(f, PointLoop(g, h, k, s, acc).0, k, s, base)
         == (base * Pow2(2 * k) + h % Pow2(2 * k), PointLoop(g, h, k, s, acc).1)
    decreases k
  {
    if k > 0 {
      var i := k - 1;
      var w := IndexDigit(h, i);
      var t := g(s, w);
      var l := t.0;
      assert l < 4 && ValidState(t.1) && f(s, l) == (w, t.1);
      PointLevel(g, h, k, s, acc);
      var acc' := Place(acc, l, i);
      var q := PointLoop(g, h, i, t.1, acc');
      LabelOfPointLoop(g, h, i, k, t.1, acc, l);
      IndexLevel(f, q.0, k, s, base);
      IndexAfterPoint(f, g, h, i, t.1, acc', 4 * base + w);
      DigitAccumulate(base, h, i, k);
    }
  }

  /**
    From the start of either table's inner loop: a point with coordinates
    below 2^M gets an index below 4^M, which the `TR_algo3` loop maps back
    to the point and the same exit state.
   */
  lemma IndexThenPoint(f: Step, g: Step, p: Point2, m: nat, s: CurveState)
    requires KeepsValid(f) && Undoes(g, f) && ValidState(s)
    requires p.x < Pow2(m) && p.y < Pow2(m)
    ensures IndexLoop(f, p, m, s, NO_DIGITS).0 < Pow2(2 * m)
    ensures PointLoop(g, IndexLoop(f, p, m, s, NO_DIGITS).0, m, s, ORIGIN) == (p, IndexLoop(f, p, m, s, NO_DIGITS).1)
  {
    IndexLoopFromStart(f, p, m, s);
    var r := IndexLoop(f, p, m, s, NO_DIGITS);
    PointAfterIndex(f, g, p, m, s, NO_DIGITS, ORIGIN);
    FromOrigin(PointLoop(g, r.0, m, s, ORIGIN), r.1, p, m);
  }

  /** A pair whose point adds p's M low bits to the origin holds p itself when p is below 2^M. */
  lemma FromOrigin(q: (Point2, CurveState), e: CurveState, p: Point2, m: nat)
    requires p.x < Pow2(m) && p.y < Pow2(m)
    requires q == (Point2(ORIGIN.x + p.x % Pow2(m), ORIGIN.y + p.y % Pow2(m)), e)
    ensures q == (p, e)
  {
    SmallMod(p.x, Pow2(m));
    SmallMod(p.y, Pow2(m));
  }

  /** A value below the modulus is its own remainder. */
  lemma SmallMod(x: nat, q: nat)
    requires x < q
    ensures x % q == x
  {
    DivModOfSum(0, q, x);
  }

  /**
    The other way round: an index below 4^M maps to a point with
    coordinates below 2^M, which the `TR_algo2` loop maps back to the index
    and the same exit state.
   */
  lemma PointThenIndex(f: Step, g: Step, h: nat, m: nat, s: CurveState)
    requires KeepsValid(g) && Undoes(f, g) && ValidState(s)
    requires h < Pow2(2 * m)
    ensures PointLoop(g, h, m, s, ORIGIN).0.x < Pow2(m) && PointLoop(g, h, m, s, ORIGIN).0.y < Pow2(m)
    ensures IndexLoop(f, PointLoop(g, h, m, s, ORIGIN).0, m, s, NO_DIGITS) == (h, PointLoop(g, h, m, s, ORIGIN).1)
  {
    PointLoopBounds(g, h, m, s, ORIGIN);
    assert ORIGIN.x % Pow2(m) == 0 && ORIGIN.y % Pow2(m) == 0 by {
      SmallMod(0, Pow2(m));
    }
    IndexAfterPoint(f, g, h, m, s, ORIGIN, NO_DIGITS);
    assert NO_DIGITS * Pow2(2 * m) + h % Pow2(2 * m) == h by {
      SmallMod(h, Pow2(2 * m));
    }
  }

  /**
    `TR_algo3` inverts `TR_algo2`: for coordinates below 2^M the index is
    below 4^M and maps back to the point.
   */
  lemma HilbertPointOfIndex(p: Point2, m: nat)
    requires p.x < Pow2(m) && p.y < Pow2(m)
    ensures HilbertIndex(p, m) < Pow2(2 * m)
    ensures HilbertPoint(HilbertIndex(p, m), m) == p
  {
    StepsKeepValid();
    StepsUndoEachOther();
    IndexThenPoint(IndexStep, PointStep, p, m, INITIAL_STATE);
  }

  /**
    `TR_algo2` inverts `TR_algo3`: every index below 4^M is the index of
    the point it maps to, whose coordinates are below 2^M.
   */
  lemma HilbertIndexOfPoint(h: nat, m: nat)
    requires h < Pow2(2 * m)
    ensures HilbertPoint(h, m).x < Pow2(m) && HilbertPoint(h, m).y < Pow2(m)
    ensures HilbertIndex(HilbertPoint(h, m), m) == h
  {
    StepsKeepValid();
    StepsUndoEachOther();
    PointThenIndex(IndexStep, PointStep, h, m, INITIAL_STATE);
  }

  // ---------------------------------------------------------------------
  // Interleaving

  /** The digits of a point's interleaving are its cell labels. */
  lemma {:induction false} InterleaveOfDigits(p: Point2, z: nat, k: nat)
    requires forall j :: 0 <= j < k ==> CellLabel(p, j) == IndexDigit(z, j)
    ensures Interleave(p, k) == z % Pow2(2 * k)
  {
    if k > 0 {
      InterleaveOfDigits(p, z, k - 1);
      DigitSplit(z, k - 1);
      assert 2 * k == 2 * (k - 1) + 2;
    }
  }

  /** Reading back the i low bits and bit i of r from r's i + 1 low bits. */
  lemma SplitAt(r: nat, i: nat, a: nat, b: nat)
    requires a < Pow2(i) && b < 2 && r % Pow2(i + 1) == a + b * Pow2(i)
    ensures r % Pow2(i) == a && BitComponent(r, i) == b
  {
    ModPow2Split(r, i);
    BitComponentBound(r, i);
    var x := a + b * Pow2(i);
    DivModUnique(x, Pow2(i), BitComponent(r, i), r % Pow2(i));
    DivModUnique(x, Pow2(i), b, a);
  }

  /** Or-ing bit b in at position i above a value below 2^i adds it and stays below 2^(i + 1). */
  lemma SetBitAbove(v: nat, b: nat, i: nat)
    requires v < Pow2(i) && b < 2
    ensures Or(v, Pow2(i) * b) == v + b * Pow2(i) < Pow2(i + 1)
  {
    OrDisjoint(v, b, i);
    assert Pow2(i) * b == b * Pow2(i);
    MulMonotone(b, 1, Pow2(i));
  }

  /** One iteration of `deinterleave` adds bit i of each coordinate without touching the bits below. */
  lemma DeinterleaveStep(z: nat, m: nat, i: nat, p: Point2)
    requires i < m && p.x < Pow2(i) && p.y < Pow2(i)
    ensures var p' := Point2(p.x + BitComponent(z, 2 * i) * Pow2(i), p.y + BitComponent(z, 2 * i + 1) * Pow2(i));
      && DeinterleaveLoop(z, m, i, p) == DeinterleaveLoop(z, m, i + 1, p')
      && p'.x < Pow2(i + 1) && p'.y < Pow2(i + 1)
  {
    BitComponentBound(z, 2 * i);
    BitComponentBound(z, 2 * i + 1);
    SetBitAbove(p.x, BitComponent(z, 2 * i), i);
    SetBitAbove(p.y, BitComponent(z, 2 * i + 1), i);
  }

  /**
    The loop of `deinterleave` from bit i on, started from a point
    holding the i low bits: the result keeps those bits, takes bits i to
    m - 1 from z, and has nothing above bit m - 1.
   */
  lemma {:induction false} DeinterleaveLoopBits(z: nat, m: nat, i: nat, p: Point2)
    requires i <= m && p.x < Pow2(i) && p.y < Pow2(i)
    ensures DeinterleaveLoop(z, m, i, p).x < Pow2(m) && DeinterleaveLoop(z, m, i, p).y < Pow2(m)
    ensures DeinterleaveLoop(z, m, i, p).x % Pow2(i) == p.x
    ensures DeinterleaveLoop(z, m, i, p).y % Pow2(i) == p.y
    ensures forall j :: i <= j < m ==> BitComponent(DeinterleaveLoop(z, m, i, p).x, j) == BitComponent(z, 2 * j)
    ensures forall j :: i <= j < m ==> BitComponent(DeinterleaveLoop(z, m, i, p).y, j) == BitComponent(z, 2 * j + 1)
    decreases m - i
  {
    if i >= m {
      DivModOfSum(0, Pow2(i), p.x);
      DivModOfSum(0, Pow2(i), p.y);
    } else {
      var xBit, yBit := BitComponent(z, 2 * i), BitComponent(z, 2 * i + 1);
      var p' := Point2(p.x + xBit * Pow2(i), p.y + yBit * Pow2(i));
      DeinterleaveStep(z, m, i, p);
      var r := DeinterleaveLoop(z, m, i + 1, p');
      DeinterleaveLoopBits(z, m, i + 1, p');
      BitComponentBound(z, 2 * i);
      BitComponentBound(z, 2 * i + 1);
      SplitAt(r.x, i, p.x, xBit);
      SplitAt(r.y, i, p.y, yBit);
    }
  }

  /** `deinterleave(z, M)` undoes interleaving on the 2M low bits of z. */
  lemma DeinterleaveInverts(z: nat, m: nat)
    ensures Deinterleave(z, m).x < Pow2(m) && Deinterleave(z, m).y < Pow2(m)
    ensures Interleave(Deinterleave(z, m), m) == z % Pow2(2 * m)
  {
    DeinterleaveLoopBits(z, m, 0, ORIGIN);
    var p := Deinterleave(z, m);
    forall j | 0 <= j < m
      ensures CellLabel(p, j) == IndexDigit(z, j)
    {
      assert j * N == 2 * j;
    }
    InterleaveOfDigits(p, z, m);
  }

  // ---------------------------------------------------------------------
  // The tables

  /** The arithmetic of a table entry: h below q, with the two state bits d and c above it. */
  lemma PackArith(h: nat, d: nat, c: nat, q: nat)
    requires h < q && d < 2 && c < 2
    ensures h + d * q < 2 * q
    ensures h + d * q + c * (2 * q) == h + (d + 2 * c) * q < 4 * q
    ensures (h + (d + 2 * c) * q) % q == h && (h + (d + 2 * c) * q) / q == d + 2 * c
  {
    MulMonotone(d, 1, q);
    MulMonotone(d + 2 * c + 1, 4, q);
    DivModOfSum(d + 2 * c, q, h);
  }

  /** A table entry is the sum of its three parts: the or-ed fields do not overlap. */
  lemma PackValue(h: nat, s: CurveState, m: nat)
    requires h < Pow2(2 * m) && ValidState(s)
    ensures Pack(h, s, m) == h + (s.direction + 2 * (s.entry % 2)) * Pow2(2 * m)
  {
    var q := Pow2(2 * m);
    var d, c := s.direction, s.entry % 2;
    var v := Or(h, Shl(d, 2 * m));
    assert v == h + d * q by {
      OrDisjoint(h, d, 2 * m);
    }
    assert v < Pow2(2 * m + 1) && c * Pow2(2 * m + 1) == c * (2 * q) by {
      Pow2TwoLevels(m);
      PackArith(h, d, c, q);
    }
    assert Pack(h, s, m) == v + c * Pow2(2 * m + 1) by {
      OrDisjoint(v, c, 2 * m + 1);
    }
    PackArith(h, d, c, q);
  }

  /** A table entry holds the 2M result bits below vd and the low bit of ve. */
  lemma PackSplit(h: nat, s: CurveState, m: nat)
    requires h < Pow2(2 * m) && ValidState(s)
    ensures Pack(h, s, m) < Pow2(2 * m + 2)
    ensures Pack(h, s, m) % Pow2(2 * m) == h
    ensures Pack(h, s, m) / Pow2(2 * m) == s.direction + 2 * (s.entry % 2)
  {
    PackValue(h, s, m);
    Pow2TwoLevels(m);
    PackArith(h, s.direction, s.entry % 2, Pow2(2 * m));
  }


  /** From the start of the inner loop of `make_TR_algo2_lut`: an index below 4^M and a valid exit state. */
  lemma IndexLoopFromStart(f: Step, p: Point2, m: nat, s: CurveState)
    requires KeepsValid(f) && ValidState(s)
    ensures IndexLoop(f, p, m, s, NO_DIGITS).0 < Pow2(2 * m) && ValidState(IndexLoop(f, p, m, s, NO_DIGITS).1)
  {
    IndexLoopBounds(f, p, m, s, NO_DIGITS);
  }

  /** Every `make_TR_algo2_lut` entry fits in 2M + 2 bits. */
  lemma IndexTableEntryBound(m: nat, j: nat, z: nat)
    ensures IndexTableEntry(m, j, z) < Pow2(2 * m + 2)
  {
    StepsKeepValid();
    IndexLoopFromStart(IndexStep, Deinterleave(z, m), m, StartState(j));
    var r := IndexLoop(IndexStep, Deinterleave(z, m), m, StartState(j), NO_DIGITS);
    PackSplit(r.0, r.1, m);
  }

  /** k levels of the inner loop of `make_TR_algo3_lut` append k digits below z and end in a valid state. */
  lemma {:induction false} InterleavedLoopBounds(g: Step, h: nat, k: nat, s: CurveState, z: nat)
    requires KeepsValid(g) && ValidState(s)
    ensures z * Pow2(2 * k) <= InterleavedLoop(g, h, k, s, z).0 < (z + 1) * Pow2(2 * k)
    ensures ValidState(InterleavedLoop(g, h, k, s, z).1)
    decreases k
  {
    if k == 0 {
      BlockZero(z);
    } else {
      var i := k - 1;
      var t := g(s, IndexDigit(h, i));
      assert t.0 < 4 && ValidState(t.1);
      InterleavedLevel(g, h, k, s, z);
      InterleavedLoopBounds(g, h, i, t.1, 4 * z + t.0);
      assert Pow2(2 * k) == 4 * Pow2(2 * i) by {
        Pow2TwoLevels(i);
        assert 2 * k == 2 * i + 2;
      }
      BlockStep(z, t.0, Pow2(2 * i), Pow2(2 * k), InterleavedLoop(g, h, k, s, z).0);
    }
  }

  /** From the start of the inner loop of `make_TR_algo3_lut`: an interleaved point below 4^M and a valid exit state. */
  lemma InterleavedLoopFromStart(g: Step, h: nat, m: nat, s: CurveState)
    requires KeepsValid(g) && ValidState(s)
    ensures InterleavedLoop(g, h, m, s, NO_DIGITS).0 < Pow2(2 * m) && ValidState(InterleavedLoop(g, h, m, s, NO_DIGITS).1)
  {
    InterleavedLoopBounds(g, h, m, s, NO_DIGITS);
  }

  /** Every `make_TR_algo3_lut` entry fits in 2M + 2 bits. */
  lemma PointTableEntryBound(m: nat, j: nat, h: nat)
    ensures PointTableEntry(m, j, h) < Pow2(2 * m + 2)
  {
    StepsKeepValid();
    InterleavedLoopFromStart(PointStep, h, m, StartState(j));
    var r := InterleavedLoop(PointStep, h, m, StartState(j), NO_DIGITS);
    PackSplit(r.0, r.1, m);
  }

  /**
    The inner loop of `make_TR_algo3_lut`, run on what the inner loop of
    `make_TR_algo2_lut` produced, appends p's interleaved k low bits below
    z and ends in the same state.
   */
  lemma {:induction false} InterleavedAfterIndex(f: Step, g: Step, p: Point2, k: nat, s: CurveState, h: nat, z: nat)
    requires KeepsValid(f) && Undoes(g, f) && ValidState(s)
    ensures InterleavedLoop(g, IndexLoop(f, p, k, s, h).0, k, s, z)
         == (z * Pow2(2 * k) + Interleave(p, k), IndexLoop(f, p, k, s, h).1)
    decreases k
  {
    if k > 0 {
      var i := k - 1;
      var l := CellLabel(p, i);
      var t := f(s, l);
      assert t.0 < 4 && ValidState(t.1) && g(s, t.0) == (l, t.1);
      var r := IndexLoop(f, p, i, t.1, 4 * h + t.0);
      IndexLevelTo(f, p, k, s, h, l, t.0, t.1);
      DigitOfIndexLoop(f, p, i, t.1, h, t.0);
      InterleavedLevelTo(g, r.0, k, s, z, l, t.1);
      var rec := InterleavedLoop(g, r.0, i, t.1, 4 * z + l);
      assert rec == ((4 * z + l) * Pow2(2 * i) + Interleave(p, i), r.1) by {
        InterleavedAfterIndex(f, g, p, i, t.1, 4 * h + t.0, 4 * z + l);
      }
      assert rec.0 == z * Pow2(2 * k) + Interleave(p, k) by {
        LabelAccumulate(z, p, i, k);
      }
    }
  }

  /**
    From a start state, the inner loop of `make_TR_algo3_lut` maps the
    index the inner loop of `make_TR_algo2_lut` computed for z back to z,
    with the same exit state.
   */
  lemma TableLoopsRoundTrip(f: Step, g: Step, m: nat, s: CurveState, z: nat)
    requires KeepsValid(f) && Undoes(g, f) && ValidState(s) && z < Pow2(2 * m)
    ensures InterleavedLoop(g, IndexLoop(f, Deinterleave(z, m), m, s, NO_DIGITS).0, m, s, NO_DIGITS)
         == (z, IndexLoop(f, Deinterleave(z, m), m, s, NO_DIGITS).1)
  {
    InterleavedAfterIndex(f, g, Deinterleave(z, m), m, s, NO_DIGITS, NO_DIGITS);
    DeinterleaveInverts(z, m);
    DivModOfSum(0, Pow2(2 * m), z);
  }

  /**
    For every start state, the `make_TR_algo3_lut` entry at the low 2M
    bits of the `make_TR_algo2_lut` entry for z gives back z, with the same
    exit-state bits above them.
   */
  lemma TableRoundTrip(m: nat, j: nat, z: nat)
    requires z < Pow2(2 * m)
    ensures PointTableEntry(m, j, IndexTableEntry(m, j, z) % Pow2(2 * m)) % Pow2(2 * m) == z
    ensures PointTableEntry(m, j, IndexTableEntry(m, j, z) % Pow2(2 * m)) / Pow2(2 * m)
         == IndexTableEntry(m, j, z) / Pow2(2 * m)
  {
    StepsKeepValid();
    StepsUndoEachOther();
    var s := StartState(j);
    var r := IndexLoop(IndexStep, Deinterleave(z, m), m, s, NO_DIGITS);
    IndexLoopFromStart(IndexStep, Deinterleave(z, m), m, s);
    PackSplit(r.0, r.1, m);
    TableLoopsRoundTrip(IndexStep, PointStep, m, s, z);
    PackSplit(z, r.1, m);
  }
}

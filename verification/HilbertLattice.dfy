/**
  The two-dimensional Hilbert curve of the lookup-table generator written
  out as the classic four-state table, and the order-1 and order-2
  lattices that the curve visits.
 */
module HilbertLattice {
  import opened Bits
  import opened HilbertBits
  import opened HilbertCurve

  /**
    Reference definition of one level of the curve: for each of the four
    states (ve, vd) and each cell label, the digit and the next state.
   */
  function StateTable(s: CurveState, l: nat): (r: (nat, CurveState))
    requires ValidState(s) && l < 4
  {
    var row :=
      if s == CurveState(0, 0) then
        [(0, CurveState(0, 1)), (3, CurveState(3, 1)), (1, CurveState(0, 0)), (2, CurveState(0, 0))]
      else if s == CurveState(0, 1) then
        [(0, CurveState(0, 0)), (1, CurveState(0, 1)), (3, CurveState(3, 0)), (2, CurveState(0, 1))]
      else if s == CurveState(3, 0) then
        [(2, CurveState(3, 0)), (1, CurveState(3, 0)), (3, CurveState(0, 1)), (0, CurveState(3, 1))]
      else
        [(2, CurveState(3, 1)), (3, CurveState(0, 0)), (1, CurveState(3, 1)), (0, CurveState(3, 0))];
    row[l]
  }

  /** The points of the order-1 curve, in index order. */
  const LATTICE_1: seq<Point2> := [Point2(0, 0), Point2(0, 1), Point2(1, 1), Point2(1, 0)]

  /** The points of the order-2 curve, in index order. */
  const LATTICE_2: seq<Point2> := [
    Point2(0, 0), Point2(1, 0), Point2(1, 1), Point2(0, 1),
    Point2(0, 2), Point2(0, 3), Point2(1, 3), Point2(1, 2),
    Point2(2, 2), Point2(2, 3), Point2(3, 3), Point2(3, 2),
    Point2(3, 1), Point2(2, 1), Point2(2, 0), Point2(3, 0)]

  // ---------------------------------------------------------------------
  // The level step is the four-state table

  /** Only 1 and 2 among the powers of two are 2 and 4. */
  lemma Pow2Small(r: nat)
    ensures Pow2(r) == 2 ==> r == 1
    ensures Pow2(r) == 4 ==> r == 2
  {
    if r >= 3 {
      Pow2Add(3, r - 3);
    }
  }

  /** `g(1)`: sub-squares 1 and 2 are neighbours along dimension 1. */
  lemma GrayDirectionOne()
    ensures GrayDirection(1) == 1
  {
    var x := Xor(GrayCode(1), GrayCode(2));
    assert x == 2 by {
      GrayCodeTwoBits(1);
      GrayCodeTwoBits(2);
      Xor2(1, 3);
    }
    Pow2Small(GrayDirection(1));
  }

  /** `g(3)`: sub-squares 3 and 4 are neighbours along dimension 2. */
  lemma GrayDirectionThree()
    ensures GrayDirection(3) == 2
  {
    var x := Xor(GrayCode(3), GrayCode(4));
    assert GrayCode(3) == 2 by {
      GrayCodeTwoBits(3);
    }
    assert GrayCode(4) == 6 by {
      GrayCodeUnfold(4);
      GrayCodeTwoBits(2);
    }
    assert Xor(2, 6) == 4 by {
      XorUnfold(2, 6);
      Xor2(1, 3);
    }
    Pow2Small(GrayDirection(3));
  }

  /** `d(w)` on two-bit digits: 1 for the middle two sub-squares, 0 for the outer two. */
  lemma DirectionTwoBits(w: nat)
    requires w < 4
    ensures Direction(w) == if w == 1 || w == 2 then 1 else 0
  {
    if w == 1 || w == 2 {
      GrayDirectionOne();
    } else if w == 3 {
      GrayDirectionThree();
    }
  }

  /**
    The state update from a valid state: sub-square 3 exchanges the entry
    corners 0 and 3, and the outer sub-squares 0 and 3 flip the direction.
   */
  lemma AdvanceOnValidState(s: CurveState, w: nat)
    requires ValidState(s) && w < 4
    ensures Advance(s, w) == CurveState(if w == 3 then 3 - s.entry else s.entry,
                                        if w == 1 || w == 2 then s.direction else 1 - s.direction)
  {
    AdvanceEntry(s, w);
    AdvanceDirection(s, w);
  }

  /** The entry corner the state update moves to. */
  lemma AdvanceEntry(s: CurveState, w: nat)
    requires ValidState(s) && w < 4
    ensures Advance(s, w).entry == if w == 3 then 3 - s.entry else s.entry
  {
    var r := RotateLeft(Entry(w), s.direction + 1);
    assert r == if w == 3 then 3 else 0 by {
      EntryCorner(w);
      RotateLeftTwoBits(Entry(w), s.direction + 1);
    }
    NextEntry(s.entry, w, r);
    AdvanceEntryField(s, w);
  }

  lemma AdvanceEntryField(s: CurveState, w: nat)
    ensures Advance(s, w).entry == Xor(s.entry, RotateLeft(Entry(w), s.direction + 1))
  {
  }

  /** The direction the state update moves to. */
  lemma AdvanceDirection(s: CurveState, w: nat)
    requires ValidState(s) && w < 4
    ensures Advance(s, w).direction == if w == 1 || w == 2 then s.direction else 1 - s.direction
  {
    var dw := Direction(w);
    assert dw == if w == 1 || w == 2 then 1 else 0 by {
      DirectionTwoBits(w);
    }
    NextDirection(s.direction, w, dw);
    AdvanceDirectionField(s, w);
  }

  lemma AdvanceDirectionField(s: CurveState, w: nat)
    ensures Advance(s, w).direction == (s.direction + Direction(w) + 1) % N
  {
  }

  /** The direction arithmetic of the state update, on plain values. */
  lemma NextDirection(d: nat, w: nat, dw: nat)
    requires d < 2 && dw == (if w == 1 || w == 2 then 1 else 0)
    ensures (d + dw + 1) % N == if w == 1 || w == 2 then d else 1 - d
  {
  }

  /** The entry-corner arithmetic of the state update, on plain values. */
  lemma NextEntry(e: nat, w: nat, r: nat)
    requires (e == 0 || e == 3) && w < 4 && r == (if w == 3 then 3 else 0)
    ensures Xor(e, r) == if w == 3 then 3 - e else e
  {
    if e == 0 {
      if w == 3 { assert Xor(0, 3) == 3; } else { assert Xor(0, 0) == 0; }
    } else {
      if w == 3 { assert Xor(3, 3) == 0; } else { assert Xor(3, 0) == 3; }
    }
  }

  /**
    One level with direction 0, from the bits of the entry corner (c, c)
    and of the label (l0, l1): the transformed label t and its inverse
    Gray code w.
   */
  lemma DigitOdd(s: CurveState, l: nat, c: nat, l0: nat, l1: nat, t: nat, w: nat)
    requires s.direction == 0 && c < 2 && l0 < 2 && l1 < 2 && s.entry == 3 * c && l == l0 + 2 * l1
    requires t == (l1 + c) % 2 + 2 * ((l0 + c) % 2) && w == (t % 2 + t / 2) % 2 + 2 * (t / 2)
    ensures IndexStep(s, l).0 == w
  {
    BitSumXor(l0, c);
    BitSumXor(l1, c);
    assert s.entry == Two(c, c) && l == Two(l0, l1) && t == Two(BitXor(l1, c), BitXor(l0, c));
    TransformOdd(c, c, l0, l1);
    InverseGrayCodeTwoBits(t);
  }

  /** One level with direction 1, as `DigitOdd`. */
  lemma DigitEven(s: CurveState, l: nat, c: nat, l0: nat, l1: nat, t: nat, w: nat)
    requires s.direction == 1 && c < 2 && l0 < 2 && l1 < 2 && s.entry == 3 * c && l == l0 + 2 * l1
    requires t == (l0 + c) % 2 + 2 * ((l1 + c) % 2) && w == (t % 2 + t / 2) % 2 + 2 * (t / 2)
    ensures IndexStep(s, l).0 == w
  {
    BitSumXor(l0, c);
    BitSumXor(l1, c);
    assert s.entry == Two(c, c) && l == Two(l0, l1) && t == Two(BitXor(l0, c), BitXor(l1, c));
    TransformEven(c, c, l0, l1);
    InverseGrayCodeTwoBits(t);
  }

  /** A level of `TR_algo2` whose digit is known moves to the state `AdvanceOnValidState` gives. */
  lemma StepWithDigit(s: CurveState, l: nat, w: nat)
    requires ValidState(s) && w < 4 && IndexStep(s, l).0 == w
    ensures IndexStep(s, l) == (w, CurveState(if w == 3 then 3 - s.entry else s.entry,
                                             if w == 1 || w == 2 then s.direction else 1 - s.direction))
  {
    AdvanceOnValidState(s, w);
  }

  /** The four-state table's row for ve = 0, vd = 0. */
  lemma StepFrom00(s: CurveState, l: nat)
    requires s == CurveState(0, 0) && l < 4
    ensures IndexStep(s, l) == StateTable(s, l)
  {
    if l == 0 {
      DigitOdd(s, l, 0, 0, 0, 0, 0);
      StepWithDigit(s, l, 0);
    } else if l == 1 {
      DigitOdd(s, l, 0, 1, 0, 2, 3);
      StepWithDigit(s, l, 3);
    } else if l == 2 {
      DigitOdd(s, l, 0, 0, 1, 1, 1);
      StepWithDigit(s, l, 1);
    } else {
      DigitOdd(s, l, 0, 1, 1, 3, 2);
      StepWithDigit(s, l, 2);
    }
  }

  /** The four-state table's row for ve = 0, vd = 1. */
  lemma StepFrom01(s: CurveState, l: nat)
    requires s == CurveState(0, 1) && l < 4
    ensures IndexStep(s, l) == StateTable(s, l)
  {
    if l == 0 {
      DigitEven(s, l, 0, 0, 0, 0, 0);
      StepWithDigit(s, l, 0);
    } else if l == 1 {
      DigitEven(s, l, 0, 1, 0, 1, 1);
      StepWithDigit(s, l, 1);
    } else if l == 2 {
      DigitEven(s, l, 0, 0, 1, 2, 3);
      StepWithDigit(s, l, 3);
    } else {
      DigitEven(s, l, 0, 1, 1, 3, 2);
      StepWithDigit(s, l, 2);
    }
  }

  /** The four-state table's row for ve = 3, vd = 0. */
  lemma StepFrom30(s: CurveState, l: nat)
    requires s == CurveState(3, 0) && l < 4
    ensures IndexStep(s, l) == StateTable(s, l)
  {
    if l == 0 {
      DigitOdd(s, l, 1, 0, 0, 3, 2);
      StepWithDigit(s, l, 2);
    } else if l == 1 {
      DigitOdd(s, l, 1, 1, 0, 1, 1);
      StepWithDigit(s, l, 1);
    } else if l == 2 {
      DigitOdd(s, l, 1, 0, 1, 2, 3);
      StepWithDigit(s, l, 3);
    } else {
      DigitOdd(s, l, 1, 1, 1, 0, 0);
      StepWithDigit(s, l, 0);
    }
  }

  /** The four-state table's row for ve = 3, vd = 1. */
  lemma StepFrom31(s: CurveState, l: nat)
    requires s == CurveState(3, 1) && l < 4
    ensures IndexStep(s, l) == StateTable(s, l)
  {
    if l == 0 {
      DigitEven(s, l, 1, 0, 0, 3, 2);
      StepWithDigit(s, l, 2);
    } else if l == 1 {
      DigitEven(s, l, 1, 1, 0, 2, 3);
      StepWithDigit(s, l, 3);
    } else if l == 2 {
      DigitEven(s, l, 1, 0, 1, 1, 1);
      StepWithDigit(s, l, 1);
    } else {
      DigitEven(s, l, 1, 1, 1, 0, 0);
      StepWithDigit(s, l, 0);
    }
  }

  /** One level of `TR_algo2` from a valid state is the four-state table. */
  lemma IndexStepIsStateTable(s: CurveState, l: nat)
    requires ValidState(s) && l < 4
    ensures IndexStep(s, l) == StateTable(s, l)
  {
    if s == CurveState(0, 0) {
      StepFrom00(s, l);
    } else if s == CurveState(0, 1) {
      StepFrom01(s, l);
    } else if s == CurveState(3, 0) {
      StepFrom30(s, l);
    } else {
      StepFrom31(s, l);
    }
  }

  /** Every entry of the four-state table is a two-bit digit and a valid state. */
  lemma StateTableValid(s: CurveState, l: nat)
    requires ValidState(s) && l < 4
    ensures StateTable(s, l).0 < 4 && ValidState(StateTable(s, l).1)
  {
  }

  // ---------------------------------------------------------------------
  // The lattices

  /** The cell labels of a point with coordinates below 4. */
  lemma CellLabelsOfSmall(p: Point2)
    requires p.x < 4 && p.y < 4
    ensures CellLabel(p, 0) == p.x % 2 + 2 * (p.y % 2)
    ensures CellLabel(p, 1) == p.x / 2 + 2 * (p.y / 2)
  {
    SmallBits(p.x);
    SmallBits(p.y);
  }

  /** The two bits of a value below 4. */
  lemma SmallBits(x: nat)
    requires x < 4
    ensures BitComponent(x, 0) == x % 2 && BitComponent(x, 1) == x / 2
  {
    assert Pow2(0) == 1 && Pow2(1) == 2;
  }

  /** `TR_algo2(p, 1)` is one row lookup from the initial state. */
  lemma OneLevel(p: Point2)
    ensures HilbertIndex(p, 1) == StateTable(INITIAL_STATE, CellLabel(p, 0)).0
  {
    var l := CellLabel(p, 0);
    IndexStepIsStateTable(INITIAL_STATE, l);
    StateTableValid(INITIAL_STATE, l);
    IndexLevel(IndexStep, p, 1, INITIAL_STATE, NO_DIGITS);
  }

  /** `TR_algo2(p, 2)` is two row lookups: the high digit from level 1, the low digit from level 0. */
  lemma TwoLevels(p: Point2)
    ensures var t := StateTable(INITIAL_STATE, CellLabel(p, 1));
      ValidState(t.1) &&
      HilbertIndex(p, 2) == 4 * t.0 + StateTable(t.1, CellLabel(p, 0)).0
  {
    var l1 := CellLabel(p, 1);
    StateTableValid(INITIAL_STATE, l1);
    var t := StateTable(INITIAL_STATE, l1);
    assert HilbertIndex(p, 2) == IndexLoop(IndexStep, p, 1, t.1, t.0).0 by {
      IndexStepIsStateTable(INITIAL_STATE, l1);
      IndexLevel(IndexStep, p, 2, INITIAL_STATE, NO_DIGITS);
    }
    var l0 := CellLabel(p, 0);
    StateTableValid(t.1, l0);
    var u := StateTable(t.1, l0);
    assert IndexLoop(IndexStep, p, 1, t.1, t.0).0 == 4 * t.0 + u.0 by {
      IndexStepIsStateTable(t.1, l0);
      LastLevel(IndexStep, p, t.1, t.0);
    }
  }

  /** The last level of the `TR_algo2` loop appends its digit below h. */
  lemma LastLevel(f: Step, p: Point2, s: CurveState, h: nat)
    requires f(s, CellLabel(p, 0)).0 < 4
    ensures IndexLoop(f, p, 1, s, h).0 == 4 * h + f(s, CellLabel(p, 0)).0
  {
    IndexLevel(f, p, 1, s, h);
  }

  /**
    A point with coordinates below 2, whose cell label is b, has the index
    the initial row of the table gives it, and maps back from it.
   */
  lemma IndexOne(p: Point2, b: nat, h: nat)
    requires p.x < 2 && p.y < 2 && b == p.x + 2 * p.y
    requires h == StateTable(INITIAL_STATE, b).0
    ensures HilbertIndex(p, 1) == h && HilbertPoint(h, 1) == p
  {
    assert CellLabel(p, 0) == b by {
      CellLabelsOfSmall(p);
      DivModOfSum(0, 2, p.x);
      DivModOfSum(0, 2, p.y);
    }
    OneLevel(p);
    assert Pow2(1) == 2;
    HilbertPointOfIndex(p, 1);
  }

  /**
    A point with coordinates below 4, with cell labels a (level 1) and b
    (level 0), has the index two rows of the table give it, and maps back
    from it.
   */
  lemma IndexTwo(p: Point2, a: nat, b: nat, h: nat)
    requires p.x < 4 && p.y < 4 && a == p.x / 2 + 2 * (p.y / 2) && b == p.x % 2 + 2 * (p.y % 2)
    requires h == 4 * StateTable(INITIAL_STATE, a).0 + StateTable(StateTable(INITIAL_STATE, a).1, b).0
    ensures HilbertIndex(p, 2) == h && HilbertPoint(h, 2) == p
  {
    CellLabelsOfSmall(p);
    TwoLevels(p);
    assert Pow2(2) == 4;
    HilbertPointOfIndex(p, 2);
  }

  /**
    The order-1 curve visits (0, 0), (0, 1), (1, 1), (1, 0) in that order,
    and `TR_algo3` maps each index back to its point.
   */
  lemma OrderOneLattice()
    ensures forall i :: 0 <= i < 4 ==> HilbertIndex(LATTICE_1[i], 1) == i
    ensures forall i :: 0 <= i < 4 ==> HilbertPoint(i, 1) == LATTICE_1[i]
  {
    forall i | 0 <= i < 4
      ensures HilbertIndex(LATTICE_1[i], 1) == i && HilbertPoint(i, 1) == LATTICE_1[i]
    {
      if i == 0 {
        IndexOne(LATTICE_1[0], 0, 0);
      } else if i == 1 {
        IndexOne(LATTICE_1[1], 2, 1);
      } else if i == 2 {
        IndexOne(LATTICE_1[2], 3, 2);
      } else {
        IndexOne(LATTICE_1[3], 1, 3);
      }
    }
  }

  /** The order-2 curve visits the sixteen points of `LATTICE_2` in order, and back. */
  lemma OrderTwoLattice()
    ensures forall i :: 0 <= i < 16 ==> HilbertIndex(LATTICE_2[i], 2) == i
    ensures forall i :: 0 <= i < 16 ==> HilbertPoint(i, 2) == LATTICE_2[i]
  {
    forall i | 0 <= i < 16
      ensures HilbertIndex(LATTICE_2[i], 2) == i && HilbertPoint(i, 2) == LATTICE_2[i]
    {
      if i == 0 {
        IndexTwo(LATTICE_2[0], 0, 0, 0);
      } else if i == 1 {
        IndexTwo(LATTICE_2[1], 0, 1, 1);
      } else if i == 2 {
        IndexTwo(LATTICE_2[2], 0, 3, 2);
      } else if i == 3 {
        IndexTwo(LATTICE_2[3], 0, 2, 3);
      } else if i == 4 {
        IndexTwo(LATTICE_2[4], 2, 0, 4);
      } else if i == 5 {
        IndexTwo(LATTICE_2[5], 2, 2, 5);
      } else if i == 6 {
        IndexTwo(LATTICE_2[6], 2, 3, 6);
      } else if i == 7 {
        IndexTwo(LATTICE_2[7], 2, 1, 7);
      } else if i == 8 {
        IndexTwo(LATTICE_2[8], 3, 0, 8);
      } else if i == 9 {
        IndexTwo(LATTICE_2[9], 3, 2, 9);
      } else if i == 10 {
        IndexTwo(LATTICE_2[10], 3, 3, 10);
      } else if i == 11 {
        IndexTwo(LATTICE_2[11], 3, 1, 11);
      } else if i == 12 {
        IndexTwo(LATTICE_2[12], 1, 3, 12);
      } else if i == 13 {
        IndexTwo(LATTICE_2[13], 1, 2, 13);
      } else if i == 14 {
        IndexTwo(LATTICE_2[14], 1, 0, 14);
      } else {
        IndexTwo(LATTICE_2[15], 1, 1, 15);
      }
    }
  }
}

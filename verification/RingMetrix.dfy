/** Index masks of the ring (ring_pool::bit_mask_calculator), the split of a position into
    slot and offset, and the ordering of iterators across wrap-around. */
module RingMetrix {
  import opened Bits

  const SIZE_T_DIGITS: nat := 64
  const UCHAR_DIGITS: nat := 8

  datatype Metrix = Metrix(
    nPoolSize: nat, poolMask: nat, nRootSize: nat, rootMask: nat, usedBits: nat, rootMaskShift: nat)
  {
    function RootIdx(i: nat): nat {
      And(Shr(i, rootMaskShift), rootMask)
    }

    function PoolIdx(i: nat): nat {
      And(i, poolMask)
    }

    function FullIdx(i: nat): nat {
      And(i, usedBits)
    }

    /** Every mask is a run of ones: pools of 2^s records, 2^r slots. */
    ghost predicate Shape(s: nat, r: nat) {
      && s + r <= SIZE_T_DIGITS
      && rootMaskShift == s
      && poolMask == Pow2(s) - 1
      && rootMask == Pow2(r) - 1
      && usedBits == Pow2(s + r) - 1
      && nPoolSize == Wrap(Pow2(s))
      && nRootSize == Pow2(r)
    }
  }

  // ---------- bit_mask_calculator ----------

  /** Exponent of the pool size: at least eight bits. */
  function PoolExponent(desired: nat): nat {
    if Digits(desired) < UCHAR_DIGITS then UCHAR_DIGITS else Digits(desired)
  }

  /** Exponent of the root size. The scan looks only at the bits below 63 - s. */
  function RootExponent(desired: nat, s: nat): nat
    requires s <= SIZE_T_DIGITS
  {
    if s == SIZE_T_DIGITS then 0
    else
      var low := Rem(desired, Pow2(SIZE_T_DIGITS - 1 - s));
      if desired >= Pow2(SIZE_T_DIGITS - s) - 1 || low == 0 then SIZE_T_DIGITS - s else Digits(low)
  }

  method BitMaskCalculator(desiredPoolSize: nat, desiredRootSize: nat) returns (m: Metrix)
    requires desiredPoolSize < Pow2(SIZE_T_DIGITS) && desiredRootSize < Pow2(SIZE_T_DIGITS)
    ensures PoolExponent(desiredPoolSize) <= SIZE_T_DIGITS
    ensures m.Shape(PoolExponent(desiredPoolSize), RootExponent(desiredRootSize, PoolExponent(desiredPoolSize)))
  {
    hide Pow2, And, Or, Shr, Digits, Rem;
    var poolMask, rootMaskShift := ScanPool(desiredPoolSize);
    var nPoolSize := Wrap(poolMask + 1);
    var nRootSize, rootMask := 1, 0;
    if rootMaskShift != SIZE_T_DIGITS {
      var rootDigits := SIZE_T_DIGITS - rootMaskShift - 1;
      var bit := Pow2(rootDigits);
      nRootSize := Or(bit, bit - 1);
      OrBelowBit(rootDigits);
      if desiredRootSize < nRootSize {
        nRootSize := ScanRoot(desiredRootSize, rootDigits);
      }
      rootMask := nRootSize;
      nRootSize := nRootSize + 1;
    }
    ghost var r := RootExponent(desiredRootSize, rootMaskShift);
    var usedBits := poolMask + Shl(rootMask, rootMaskShift);
    assert rootMask == Pow2(r) - 1 && rootMaskShift + r <= SIZE_T_DIGITS by {
      RootExponentFits(desiredRootSize, rootMaskShift);
      PowZero();
    }
    MaskedBits(rootMaskShift, r);
    m := Metrix(nPoolSize, poolMask, nRootSize, rootMask, usedBits, rootMaskShift);
  }

  lemma PowZero()
    ensures Pow2(0) == 1
  {
  }

  lemma RootExponentFits(desired: nat, s: nat)
    requires s <= SIZE_T_DIGITS
    ensures s + RootExponent(desired, s) <= SIZE_T_DIGITS
  {
    if s < SIZE_T_DIGITS {
      hide Pow2, And, Or, Shr, Digits;
      var n := SIZE_T_DIGITS - 1 - s;
      DigitsIsLeastExponent(Rem(desired, Pow2(n)), n);
    }
  }

  /** The pool bits and the shifted root bits make one run of ones. */
  lemma MaskedBits(s: nat, r: nat)
    ensures Pow2(s) - 1 + Shl(Pow2(r) - 1, s) == Pow2(s + r) - 1
  {
    hide Pow2, And, Or, Shr, Digits;
    ShlIsProduct(Pow2(r) - 1, s);
    Pow2Add(s, r);
    Distribute(Pow2(r) - 1, Pow2(s));
  }

  lemma Distribute(a: int, n: nat)
    ensures (a + 1) * n == a * n + n
  {
  }

  /** The first loop: the highest set bit at place 7 or above decides the pool size. */
  method ScanPool(desired: nat) returns (poolMask: nat, shift: nat)
    requires desired < Pow2(SIZE_T_DIGITS)
    ensures shift == PoolExponent(desired) <= SIZE_T_DIGITS
    ensures poolMask == Pow2(shift) - 1
  {
    hide Pow2, And, Or, Shr, Digits, BitSet;
    poolMask, shift := 0, 0;
    var bitNo := SIZE_T_DIGITS;
    while bitNo >= UCHAR_DIGITS && shift == 0
      invariant UCHAR_DIGITS - 1 <= bitNo <= SIZE_T_DIGITS
      invariant shift == 0 ==> desired < Pow2(bitNo)
      invariant shift != 0 ==> shift == bitNo >= UCHAR_DIGITS && shift == Digits(desired) && poolMask == Pow2(shift) - 1
      decreases bitNo, if shift == 0 then 1 else 0
    {
      var bit := Pow2(bitNo - 1);
      AndSingleBit(desired, bitNo - 1);
      TopBit(desired, bitNo - 1);
      if And(desired, bit) == bit {
        poolMask := Or(bit, bit - 1);
        OrBelowBit(bitNo - 1);
        shift := bitNo;
        DigitsIsLeastExponent(desired, bitNo);
        DigitsIsLeastExponent(desired, bitNo - 1);
      } else {
        bitNo := bitNo - 1;
      }
    }
    if shift == 0 {
      DigitsIsLeastExponent(desired, UCHAR_DIGITS - 1);
      var bit := Pow2(UCHAR_DIGITS - 1);
      poolMask := Or(bit, bit - 1);
      OrBelowBit(UCHAR_DIGITS - 1);
      shift := UCHAR_DIGITS;
    }
  }

  /** The second loop: the highest set bit strictly below place rootDigits. */
  method ScanRoot(desired: nat, rootDigits: nat) returns (nRootSize: nat)
    requires desired < Pow2(rootDigits + 1) - 1
    ensures var low := Rem(desired, Pow2(rootDigits));
            nRootSize == Pow2(if low == 0 then rootDigits + 1 else Digits(low)) - 1
  {
    hide Pow2, And, Or, Shr, Digits, Rem, BitSet;
    nRootSize := Pow2(rootDigits + 1) - 1;
    ghost var low := Rem(desired, Pow2(rootDigits));
    var bitNo := rootDigits;
    var found := false;
    while bitNo != 0 && !found
      invariant 0 <= bitNo <= rootDigits
      invariant !found ==> low < Pow2(bitNo) && nRootSize == Pow2(rootDigits + 1) - 1
      invariant found ==> low != 0 && nRootSize == Pow2(Digits(low)) - 1
      decreases bitNo, if found then 0 else 1
    {
      var bit := Pow2(bitNo - 1);
      AndSingleBit(desired, bitNo - 1);
      LowBits(desired, rootDigits, bitNo - 1);
      TopBit(low, bitNo - 1);
      if And(desired, bit) == bit {
        nRootSize := Or(bit, bit - 1);
        OrBelowBit(bitNo - 1);
        found := true;
        DigitsIsLeastExponent(low, bitNo);
        DigitsIsLeastExponent(low, bitNo - 1);
      } else {
        bitNo := bitNo - 1;
      }
    }
    PowZero();
  }

  /** Bits below place n are those of the remainder modulo 2^n. */
  lemma {:induction false} LowBits(x: nat, n: nat, k: nat)
    requires k < n
    ensures BitSet(x, k) <==> BitSet(Rem(x, Pow2(n)), k)
  {
    DoubleRem(x, Pow2(n - 1));
    hide Rem;
    if k == 0 {
    } else {
      LowBits(x / 2, n - 1, k - 1);
    }
  }

  lemma Pow2Of8()
    ensures Pow2(8) == 256 && Pow2(7) == 128
  {
  }

  /** The pool size is the larger of 256 and the least power of two above the request. */
  lemma PoolSizeIsLeastPower(desired: nat, k: nat)
    ensures desired < Pow2(PoolExponent(desired))
    ensures Pow2(PoolExponent(desired)) >= 256
    ensures desired < Pow2(k) && 256 <= Pow2(k) ==> Pow2(PoolExponent(desired)) <= Pow2(k)
  {
    hide Pow2;
    DigitsIsLeastExponent(desired, PoolExponent(desired));
    Pow2Monotone(8, PoolExponent(desired));
    Pow2Of8();
    if desired < Pow2(k) && 256 <= Pow2(k) {
      DigitsIsLeastExponent(desired, k);
      DigitsIsLeastExponent(255, k);
      Pow2Monotone(PoolExponent(desired), k);
    }
  }

  /** The exponent of the root size, bit by bit: with the room for n + 1 bits, a request that would
      fill it gets all; otherwise the scan over the bits below n finds the highest one set, and with
      none set the root also gets all the room. */
  lemma RootExponentByBits(desired: nat, s: nat)
    requires s < SIZE_T_DIGITS
    ensures var (n, r) := (SIZE_T_DIGITS - 1 - s, RootExponent(desired, s));
            if desired >= Pow2(n + 1) - 1 || forall k: nat :: k < n ==> !BitSet(desired, k) then r == n + 1
            else 0 < r <= n && BitSet(desired, r - 1) && forall k: nat :: r <= k < n ==> !BitSet(desired, k)
  {
    hide Pow2, And, Or, Shr, Digits, Rem, BitSet;
    var n := SIZE_T_DIGITS - 1 - s;
    var low := Rem(desired, Pow2(n));
    DigitsIsLeastExponent(low, n);
    forall k: nat | k < n
      ensures BitSet(desired, k) <==> BitSet(low, k)
    {
      LowBits(desired, n, k);
    }
    forall k: nat
      ensures k >= Digits(low) ==> !BitSet(low, k)
      ensures low > 0 && k + 1 == Digits(low) ==> BitSet(low, k)
    {
      HighestBit(low, k);
    }
    ZeroHasNoDigits(low);
    if low > 0 {
      assert BitSet(low, Digits(low) - 1);
    }
  }

  lemma ZeroHasNoDigits(x: nat)
    ensures Digits(x) == 0 <==> x == 0
  {
  }

  /** A number's last digit is set, and none beyond it. */
  lemma HighestBit(x: nat, k: nat)
    ensures k >= Digits(x) ==> !BitSet(x, k)
    ensures k + 1 == Digits(x) ==> BitSet(x, k)
  {
    hide Digits, BitSet, Pow2;
    DigitsIsLeastExponent(x, k);
    DigitsIsLeastExponent(x, k + 1);
    if k + 1 >= Digits(x) {
      TopBit(x, k);
    }
  }

  /** The requests for which the root size is the least power of two above the request. */
  predicate RootRequestHonoured(desired: nat, s: nat)
    requires s <= SIZE_T_DIGITS
  {
    if s == SIZE_T_DIGITS then desired == 0
    else
      && 1 <= desired
      && (desired <= Pow2(SIZE_T_DIGITS - 1 - s) || desired == Pow2(SIZE_T_DIGITS - s) - 1)
  }

  lemma RootSizeIsLeastPowerExactly(desired: nat, s: nat)
    requires s <= SIZE_T_DIGITS
    ensures RootRequestHonoured(desired, s) <==> RootExponent(desired, s) == Digits(desired)
  {
    if s < SIZE_T_DIGITS {
      hide Pow2, And, Or, Shr, Digits, Rem;
      var n := SIZE_T_DIGITS - 1 - s;
      var p := Pow2(n);
      var low := Rem(desired, p);
      Pow2Step(n);
      DigitsIsLeastExponent(desired, n);
      DigitsIsLeastExponent(desired, n + 1);
      DigitsIsLeastExponent(low, n);
      if desired < 2 * p {
        RemSmall(desired, p);
      }
    }
  }

  lemma Pow2Step(n: nat)
    ensures Pow2(n + 1) == 2 * Pow2(n)
  {
  }

  /** A request above half the ring falls through the scan: one bit set below the unscanned
      top bit is enough to make the root two slots long. */
  lemma LargeRootRequestFallsThrough()
    ensures RootExponent(Pow2(55) + 1, 8) == 1
    ensures Digits(Pow2(55) + 1) == 56
  {
    hide Pow2, Rem;
    Pow2Monotone(1, 55);
    Pow2Step(0);
    Pow2Step(55);
    PowZero();
    RemSmall(Pow2(55) + 1, Pow2(55));
    assert Digits(1) == 1 + Digits(0);
    DigitsIsLeastExponent(Pow2(55) + 1, 56);
    DigitsIsLeastExponent(Pow2(55) + 1, 55);
  }

  // ---------- positions ----------

  /** Division by n, then remainder by r, are the quotient digits of the remainder by n * r. */
  lemma SplitPosition(i: nat, n: nat, r: nat)
    requires n > 0 && r > 0
    ensures n * r > 0
    ensures i % (n * r) == ((i / n) % r) * n + i % n
    ensures (i % (n * r)) / n == (i / n) % r && (i % (n * r)) % n == i % n
    ensures i / (n * r) == (i / n) / r
  {
    MulAtLeast(n, r);
    SplitTwice(i, n, r, n * r);
  }

  /** The masks compute slot, offset and position by division and remainder. */
  lemma MasksAreArithmetic(m: Metrix, s: nat, r: nat, i: nat)
    requires m.Shape(s, r)
    ensures m.RootIdx(i) == (i / Pow2(s)) % Pow2(r)
    ensures m.PoolIdx(i) == i % Pow2(s)
    ensures m.FullIdx(i) == i % (m.usedBits + 1)
    ensures m.usedBits + 1 == Pow2(s) * Pow2(r)
  {
    hide Pow2, And, Or, Shr, Digits;
    ShrIsDivision(i, s);
    AndLowMask(Shr(i, s), r);
    AndLowMask(i, s);
    AndLowMask(i, s + r);
    Pow2Add(s, r);
  }

  /** (root_idx, pool_idx) is a bijection from the positions 0..usedBits onto slots x offsets. */
  lemma PositionsAreABijection(m: Metrix, s: nat, r: nat, i: nat, slot: nat, offset: nat)
    requires m.Shape(s, r)
    requires i <= m.usedBits && slot <= m.rootMask && offset <= m.poolMask
    ensures m.RootIdx(i) <= m.rootMask && m.PoolIdx(i) <= m.poolMask
    ensures Shl(slot, s) + offset <= m.usedBits
    ensures m.RootIdx(i) == slot && m.PoolIdx(i) == offset <==> i == Shl(slot, s) + offset
  {
    hide Pow2, And, Or, Shr, Digits;
    MasksAreArithmetic(m, s, r, i);
    ShlIsProduct(slot, s);
    SplitIsUnique(i, Pow2(s), Pow2(r), slot, offset);
  }

  lemma SplitIsUnique(i: nat, n: nat, k: nat, slot: nat, offset: nat)
    requires i < n * k && slot < k && offset < n
    ensures slot * n + offset < n * k
    ensures (i / n) % k == slot && i % n == offset <==> i == slot * n + offset
  {
    MulAtMost(slot + 1, k, n);
    Distribute(slot, n);
    SplitPosition(i, n, k);
    DivModUnique(i, n * k, 0, i);
    DivModUnique(slot * n + offset, n, slot, offset);
  }

  /** Masking undoes the wrap of size_t, because the ring size divides 2^64. */
  lemma MaskedWrap(m: Metrix, s: nat, r: nat, x: int)
    requires m.Shape(s, r)
    ensures m.FullIdx(Wrap(x)) == x % (m.usedBits + 1)
  {
    hide Pow2, And, Or, Shr, Digits;
    var t := SIZE_T_DIGITS - (s + r);
    AndLowMask(Wrap(x), s + r);
    Pow2Add(s + r, t);
    ModOfMultiple(x, Pow2(s + r), Pow2(t));
  }

  lemma ModOfMultiple(x: int, c: nat, d: nat)
    requires c > 0 && d > 0
    ensures c * d > 0
    ensures (x % (c * d)) % c == x % c
  {
    MulAtLeast(c, d);
    SplitTwice(x, c, d, c * d);
  }

  /** Two integers have the same remainder when they differ by a multiple of the modulus. */
  lemma ModShift(x: int, y: int, c: nat)
    requires c > 0
    ensures (x - y) % c == (x % c - y % c) % c
    ensures (x + y) % c == (x % c + y % c) % c
  {
    RemShift(x, y, c);
  }

  // ---------- iterators ----------

  /** The conversion of a size_t to a 32-bit int. */
  function CastInt(x: nat): int {
    var y := x % 0x1_0000_0000;
    if y >= 0x8000_0000 then y - 0x1_0000_0000 else y
  }

  predicate Less(m: Metrix, begin: nat, i: nat, j: nat) {
    m.FullIdx(Wrap(i - begin)) < m.FullIdx(Wrap(j - begin))
  }

  predicate Equal(m: Metrix, i: nat, j: nat) {
    m.FullIdx(i) == m.FullIdx(j)
  }

  function Difference(m: Metrix, begin: nat, i: nat, j: nat): int {
    CastInt(Wrap(m.FullIdx(Wrap(i - begin)) - m.FullIdx(Wrap(j - begin))))
  }

  /** An index stands for an absolute position when both mask to the same place. */
  ghost predicate StandsFor(m: Metrix, index: nat, position: nat) {
    m.FullIdx(index) == m.FullIdx(position)
  }

  /** Moving an iterator moves the position it stands for, even where the index wraps. */
  lemma IteratorMoves(m: Metrix, s: nat, r: nat, index: nat, p: nat, delta: int)
    requires m.Shape(s, r)
    requires StandsFor(m, index, p) && p + delta >= 0
    ensures StandsFor(m, Wrap(index + delta), p + delta)
  {
    hide Pow2, And, Or, Shr, Digits;
    var c := m.usedBits + 1;
    MasksAreArithmetic(m, s, r, index);
    MasksAreArithmetic(m, s, r, p);
    MasksAreArithmetic(m, s, r, p + delta);
    MaskedWrap(m, s, r, index + delta);
    ModShift(index, delta, c);
    ModShift(p, delta, c);
  }

  /** In every ring, the second index stands delta places behind whatever the first stands for. */
  ghost predicate Moves(from: nat, to: nat, delta: int) {
    forall m: Metrix, s: nat, r: nat, p: nat ::
      m.Shape(s, r) && StandsFor(m, from, p) && p + delta >= 0 ==> StandsFor(m, to, p + delta)
  }

  lemma MovesBy(index: nat, delta: int)
    ensures Moves(index, Wrap(index + delta), delta)
  {
    forall m: Metrix, s: nat, r: nat, p: nat | m.Shape(s, r) && StandsFor(m, index, p) && p + delta >= 0
      ensures StandsFor(m, Wrap(index + delta), p + delta)
    {
      IteratorMoves(m, s, r, index, p, delta);
    }
  }

  /** An iterator keeps an unmasked size_t index; `invalid` forces the next access to read. */
  class Iterator {
    var index: nat
    var invalid: bool

    constructor (position: nat)
      ensures index == position && invalid
    {
      index, invalid := position, true;
    }

    method Increment()
      modifies this
      ensures index == Wrap(old(index) + 1) && invalid
      ensures Moves(old(index), index, 1)
    {
      MovesBy(index, 1);
      invalid := true;
      index := Wrap(index + 1);
    }

    method Decrement()
      modifies this
      ensures index == Wrap(old(index) - 1) && invalid
      ensures Moves(old(index), index, -1)
    {
      MovesBy(index, -1);
      invalid := true;
      index := Wrap(index - 1);
    }

    method AddAssign(i: int)
      modifies this
      ensures index == Wrap(old(index) + i) && invalid
      ensures Moves(old(index), index, i)
    {
      MovesBy(index, i);
      invalid := true;
      index := Wrap(index + i);
    }
  }

  /** A masked position stands for the position. */
  lemma MaskedStandsFor(m: Metrix, s: nat, r: nat, p: nat)
    requires m.Shape(s, r)
    ensures StandsFor(m, m.FullIdx(p), p)
  {
    hide Pow2, And, Or, Shr, Digits;
    MasksAreArithmetic(m, s, r, p);
    MasksAreArithmetic(m, s, r, p % (m.usedBits + 1));
    RemIsMod(p, m.usedBits + 1);
    RemIsMod(Rem(p, m.usedBits + 1), m.usedBits + 1);
    RemRem(p, m.usedBits + 1);
    hide Rem;
  }

  /** Distance from the masked begin is the distance between absolute positions. */
  lemma DistanceFromBegin(m: Metrix, s: nat, r: nat, begin: nat, b: nat, i: nat, p: nat)
    requires m.Shape(s, r)
    requires StandsFor(m, begin, b) && StandsFor(m, i, p)
    requires b <= p <= b + m.usedBits
    ensures m.FullIdx(Wrap(i - begin)) == p - b
  {
    hide Pow2, And, Or, Shr, Digits;
    var c := m.usedBits + 1;
    MasksAreArithmetic(m, s, r, begin);
    MasksAreArithmetic(m, s, r, b);
    MasksAreArithmetic(m, s, r, i);
    MasksAreArithmetic(m, s, r, p);
    MaskedWrap(m, s, r, i - begin);
    ModShift(i, begin, c);
    ModShift(p, b, c);
    DivModUnique(p - b, c, 0, p - b);
  }

  /** Iterator comparison and difference agree with push order across wrap-around. The
      difference is exact exactly when it fits the int it is cast to. */
  lemma IteratorsAgreeWithPushOrder(m: Metrix, s: nat, r: nat, begin: nat, b: nat, i: nat, p: nat, j: nat, q: nat)
    requires m.Shape(s, r)
    requires StandsFor(m, begin, b) && StandsFor(m, i, p) && StandsFor(m, j, q)
    requires b <= p <= b + m.usedBits && b <= q <= b + m.usedBits
    ensures Less(m, begin, i, j) <==> p < q
    ensures Equal(m, i, j) <==> p == q
    ensures Difference(m, begin, i, j) == p - q <==> -0x8000_0000 <= p - q < 0x8000_0000
  {
    hide Pow2, And, Or, Shr, Digits;
    DistanceFromBegin(m, s, r, begin, b, i, p);
    DistanceFromBegin(m, s, r, begin, b, j, q);
    EqualIsDistance(m, s, r, b, i, p, j, q);
    CastOfWrap(p - q);
  }

  lemma WideRingShape(m: Metrix, s: nat, r: nat)
    requires s == 8 && r == 24
    requires m == Metrix(0x100, 0xFF, 0x100_0000, 0xFF_FFFF, 0xFFFF_FFFF, 8)
    ensures m.Shape(s, r)
  {
    Pow2Of8();
    Pow2Of32();
    hide Pow2;
    Pow2Add(8, 8);
    Pow2Add(8, 16);
    WrapOfSmall(0x100);
    hide Wrap;
  }

  /** Two readable positions 2^31 apart, in a ring of 2^32 places: the difference comes out negative. */
  lemma FarPositionsHaveNegativeDifference()
    ensures var m := Metrix(0x100, 0xFF, 0x100_0000, 0xFF_FFFF, 0xFFFF_FFFF, 8);
            m.Shape(8, 24) && 0x8000_0000 <= m.usedBits && Difference(m, 0, 0x8000_0000, 0) == -0x8000_0000
  {
    hide Pow2, And, Or, Shr, Digits;
    var m := Metrix(0x100, 0xFF, 0x100_0000, 0xFF_FFFF, 0xFFFF_FFFF, 8);
    WideRingShape(m, 8, 24);
    DistanceFromBegin(m, 8, 24, 0, 0, 0x8000_0000, 0x8000_0000);
    DistanceFromBegin(m, 8, 24, 0, 0, 0, 0);
    WrapOfSmall(0x8000_0000);
    hide Wrap;
  }

  lemma WrapOfSmall(x: nat)
    requires x < 0x1_0000_0000
    ensures Wrap(x) == x
  {
    Pow2Of64();
    hide Pow2;
  }

  lemma Pow2Of32()
    ensures Pow2(32) == 0x1_0000_0000
  {
    Pow2Of8();
    hide Pow2;
    Pow2Add(8, 8);
    Pow2Add(16, 16);
  }

  /** The int has the same residue modulo 2^32, and is in its range. */
  lemma CastIsResidue(x: nat)
    ensures -0x8000_0000 <= CastInt(x) < 0x8000_0000
    ensures (x - CastInt(x)) % 0x1_0000_0000 == 0
  {
  }

  lemma CastOfSmall(x: nat)
    ensures CastInt(x) == x <==> x < 0x8000_0000
  {
  }

  lemma CastOfWrap(d: int)
    ensures CastInt(Wrap(d)) == d <==> -0x8000_0000 <= d < 0x8000_0000
  {
    hide Pow2;
    Pow2Of64();
    ModOfMultiple(d, 0x1_0000_0000, 0x1_0000_0000);
  }

  lemma Pow2Of64()
    ensures Pow2(64) == 0x1_0000_0000 * 0x1_0000_0000
  {
    Pow2Of32();
    hide Pow2;
    Pow2Add(32, 32);
  }

  lemma EqualIsDistance(m: Metrix, s: nat, r: nat, b: nat, i: nat, p: nat, j: nat, q: nat)
    requires m.Shape(s, r)
    requires StandsFor(m, i, p) && StandsFor(m, j, q)
    requires b <= p <= b + m.usedBits && b <= q <= b + m.usedBits
    ensures Equal(m, i, j) <==> p == q
  {
    hide Pow2, And, Or, Shr, Digits;
    MasksAreArithmetic(m, s, r, p);
    MasksAreArithmetic(m, s, r, q);
    NearbyCongruent(p, q, m.usedBits + 1);
  }

  lemma NearbyCongruent(p: nat, q: nat, c: nat)
    requires p < q + c && q < p + c
    ensures p % c == q % c <==> p == q
  {
    RemInjective(p, q, c);
  }

  // ---------- validate ----------

  /** ring_pool::validate: true when the iterator is moved to begin. */
  predicate Reseats(m: Metrix, begin: nat, end: nat, index: nat) {
    if begin == end then false
    else
      var bpos := m.FullIdx(Wrap(begin - end));
      var ipos := m.FullIdx(Wrap(index - end));
      ipos > 0 && ipos < bpos
  }

  /** On a non-empty ring exactly the iterators that stand for no position of [b, e] are reseated. */
  lemma ValidateReseatsExactlyTheLost(m: Metrix, s: nat, r: nat, b: nat, e: nat, index: nat)
    requires m.Shape(s, r)
    requires b < e <= b + m.usedBits
    ensures Reseats(m, m.FullIdx(b), m.FullIdx(e), index) <==> forall p | b <= p <= e :: !StandsFor(m, index, p)
  {
    hide Pow2, And, Or, Shr, Digits;
    var c := m.usedBits + 1;
    MasksAreArithmetic(m, s, r, b);
    MasksAreArithmetic(m, s, r, e);
    MasksAreArithmetic(m, s, r, index);
    var begin: int, end: int := m.FullIdx(b), m.FullIdx(e);
    MaskedWrap(m, s, r, begin - end);
    MaskedWrap(m, s, r, index - end);
    NearbyCongruent(b, e, c);
    ModOfMod(begin - end, begin, e, c);
    DistanceBack(b, e, c);
    ModOfMod(index - end, index, e, c);
    var bpos, ipos := c - (e - b), (index - e) % c;
    forall p | b <= p <= e
      ensures StandsFor(m, index, p) <==> ipos == (if p == e then 0 else c - (e - p))
    {
      MasksAreArithmetic(m, s, r, p);
      SameClass(index, p, e, c);
    }
    if !(0 < ipos < bpos) {
      var p := if ipos == 0 then e else e - (c - ipos);
      assert b <= p <= e && StandsFor(m, index, p);
    }
  }

  lemma DistanceBack(b: nat, e: nat, c: nat)
    requires b < e < b + c
    ensures (b % c - e) % c == c - (e - b)
  {
    ModShift(b % c, e, c);
    ModShift(b, e, c);
    DivModUnique(b % c, c, 0, b % c);
    DivModUnique(b - e, c, -1, c - (e - b));
  }

  lemma ModOfMod(x: int, i: int, e: int, c: nat)
    requires c > 0 && x == i - e % c
    ensures x % c == (i - e) % c
  {
    ModShift(i, e % c, c);
    ModShift(i, e, c);
    DivModUnique(e % c, c, 0, e % c);
  }

  lemma SameClass(i: nat, p: nat, e: nat, c: nat)
    requires c > 0 && p <= e < p + c
    ensures i % c == p % c <==> (i - e) % c == if p == e then 0 else c - (e - p)
  {
    assert Rem(i, c) == Rem(p, c) <==> Rem(i - e, c) == if p == e then 0 else c - (e - p) by {
      hide Rem;
      RemSmall(p - e, c);
      RemShift(i, e, c);
      RemShift(p, e, c);
      RemSmall(Rem(i, c) - Rem(e, c), c);
      RemSmall(Rem(p, c) - Rem(e, c), c);
    }
  }
}

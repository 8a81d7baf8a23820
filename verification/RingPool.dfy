/** ring_pool and its pools as objects updated in place. Each method is one atomic region of the
    source and is tied to the step of RingProtocol it implements; the ghost field `st` is the
    protocol's state, to which Valid() ties every real field. */
module RingPool {
  import opened Bits
  import opened RingMetrix
  import P = RingProtocol

  /** mem_pool and file_pool; the file is an array like the memory block it mirrors. */
  class PoolObject<T> {
    const kind: P.Kind
    const store: array<T>
    var nCount: nat

    constructor (kind: P.Kind, nPoolSize: nat, zero: T)
      ensures this.kind == kind && nCount == 0
      ensures fresh(store) && store.Length == nPoolSize && store[..] == seq(nPoolSize, o => zero)
    {
      this.kind := kind;
      store := new T[nPoolSize](o => zero);
      nCount := 0;
    }

    ghost function View(): P.Pool<T>
      reads this, store
    {
      P.Pool(kind, store[..], nCount)
    }

    method Push(r: T) returns (full: bool)
      requires nCount < store.Length
      modifies `nCount, store
      ensures View() == old(View()).Push(r)
      ensures full <==> nCount == store.Length
    {
      store[nCount] := r;
      nCount := nCount + 1;
      full := nCount == store.Length;
    }

    method Assign(mp: PoolObject<T>)
      requires store.Length == mp.store.Length && store != mp.store
      modifies `nCount, store
      ensures View() == old(View()).AssignFrom(old(mp.View()))
    {
      var i := 0;
      while i < store.Length
        invariant 0 <= i <= store.Length
        invariant store[..i] == mp.store[..i] && mp.store[..] == old(mp.store[..])
        modifies store
      {
        store[i] := mp.store[i];
        i := i + 1;
      }
      nCount := mp.nCount;
      assert store[..] == store[..i] && mp.store[..] == mp.store[..i];
    }

    method Clear()
      modifies `nCount
      ensures View() == old(View()).Cleared()
    {
      nCount := 0;
    }

    method Get(i: nat) returns (r: T)
      requires i < store.Length
      ensures r == store[i]
    {
      r := store[i];
    }
  }

  lemma PoolSizeFits(m: Metrix, s: nat, r: nat)
    requires m.Shape(s, r)
    ensures m.poolMask + 1 == Pow2(s) && m.nRootSize == Pow2(r)
  {
  }

  /** No two slots share a pool or its storage. */
  ghost predicate Distinct<T>(root: seq<PoolObject<T>>) {
    forall i, j :: 0 <= i < j < |root| ==> root[i] != root[j] && root[i].store != root[j].store
  }

  lemma SwapKeepsDistinct<T>(root: seq<PoolObject<T>>, a: nat, b: nat)
    requires Distinct(root) && a < |root| && b < |root|
    ensures Distinct(root[a := root[b]][b := root[a]])
  {
  }

  lemma WriterHasRoom<T>(st: P.State<T>)
    requires P.Inv(st) && st.producer == P.Ready
    ensures P.Idx(st.currentPool, st.R) == st.currentPool
    ensures st.root[st.currentPool].count < st.N
  {
    P.IdxOfIdx(st.filled, st.R);
    hide P.Idx, P.Times;
  }

  lemma SwapSlotsDiffer<T>(st: P.State<T>)
    requires P.Inv(st)
    ensures st.nPool2Swap != st.nPool2Swap2
    ensures P.Idx(st.nPool2Swap, st.R) == st.nPool2Swap && P.Idx(st.nPool2Swap2, st.R) == st.nPool2Swap2
  {
    P.IdxInjective(st.swaps, st.swaps + st.M, st.R);
    P.IdxOfIdx(st.swaps, st.R);
    P.IdxOfIdx(st.swaps + st.M, st.R);
    hide P.Idx, P.Times;
  }

  lemma ReadOfCongruent<T>(st: P.State<T>, i: nat, p: nat)
    requires P.Inv(st) && st.Begin() <= p < st.End()
    requires P.Idx(i, P.Capacity(st.N, st.R)) == P.Idx(p, P.Capacity(st.N, st.R))
    ensures st.Read(i) == st.log[p]
  {
    P.ReadIsMasked(st, i);
    P.ReadIsMasked(st, p);
    assert P.Holds(st, p);
  }

  /** The constructor's loop: memory pools first, then file pools, all of them new. */
  method MakePools<T(0)>(N: nat, R: nat, M: nat, zero: T, ghost slots: seq<P.Pool<T>>)
    returns (pools: seq<PoolObject<T>>, ghost objects: set<object>)
    requires |slots| == R
    requires forall k :: 0 <= k < R ==> slots[k] == P.Pool(if k < M then P.Mem else P.File, seq(N, o => zero), 0)
    ensures fresh(objects) && |pools| == R && Distinct(pools)
    ensures forall k :: 0 <= k < R ==>
              pools[k] in objects && pools[k].store in objects && pools[k].View() == slots[k]
  {
    pools, objects := [], {};
    var i := 0;
    while i < R
      invariant 0 <= i <= R && |pools| == i && fresh(objects) && Distinct(pools)
      invariant forall k :: 0 <= k < i ==>
                  pools[k] in objects && pools[k].store in objects && pools[k].View() == slots[k]
      modifies {}
    {
      var pool := new PoolObject<T>(if i < M then P.Mem else P.File, N, zero);
      pools := pools + [pool];
      objects := objects + {pool, pool.store};
      i := i + 1;
    }
  }

  class RingPool<T(0)> {
    const metrix: Metrix
    var root: seq<PoolObject<T>>
    var currentPool: nat
    var nPool2Swap: nat
    var nPool2Swap2: nat
    var beginPos: nat
    var endPos: nat
    var tokens: nat
    var activate: bool
    var wakeup: bool
    ghost const s: nat
    ghost const r: nat
    ghost var st: P.State<T>
    ghost var Repr: set<object>

    /** The root's pools hold these values. */
    ghost predicate Mirrors(slots: seq<P.Pool<T>>)
      reads this, Repr
    {
      && this in Repr
      && |root| == |slots|
      && (forall k :: 0 <= k < |root| ==> root[k] in Repr && root[k].store in Repr && root[k].View() == slots[k])
      && Distinct(root)
    }

    ghost predicate Scalars()
      reads this
    {
      && currentPool == st.currentPool && nPool2Swap == st.nPool2Swap && nPool2Swap2 == st.nPool2Swap2
      && beginPos == st.beginPos && endPos == st.endPos
      && tokens == st.tokens && activate == st.activate && wakeup == st.wakeup
    }

    ghost predicate Masks()
      reads this
    {
      metrix.Shape(s, r) && st.N == Pow2(s) && st.R == Pow2(r)
    }

    ghost predicate Valid()
      reads this, Repr
    {
      Mirrors(st.root) && Scalars() && Masks() && st.Shape() && P.Inv(st)
    }

    /** A fresh ring: memory pools first, then file pools. There are as many memory pools as asked
        for, but at least two, and a token for each but one; a ring needs at least one file pool. */
    constructor (nMemPools: nat, nPoolSize: nat, nRootSize: nat, zero: T)
      requires nPoolSize < Pow2(SIZE_T_DIGITS) && nRootSize < Pow2(SIZE_T_DIGITS)
      requires PoolExponent(nPoolSize) <= SIZE_T_DIGITS
      requires var R := Pow2(RootExponent(nRootSize, PoolExponent(nPoolSize))); 2 < R && nMemPools < R
      ensures Valid() && fresh(Repr)
      ensures s == PoolExponent(nPoolSize) && r == RootExponent(nRootSize, s)
      ensures st == P.Init(Pow2(s), Pow2(r), st.M, zero)
      ensures st.M == if nMemPools < 2 then 2 else nMemPools
      ensures tokens == st.M - 1 && |root| == Pow2(r)
      ensures forall k :: 0 <= k < |root| ==> (root[k].kind == P.Mem <==> k < st.M)
      ensures forall k :: 0 <= k < |root| ==> root[k].nCount == 0 && root[k].store.Length == Pow2(s)
    {
      hide Pow2, And, Or, Digits, P.Inv, P.Idx, P.Times, P.Capacity;
      var m := BitMaskCalculator(nPoolSize, nRootSize);
      PoolSizeFits(m, PoolExponent(nPoolSize), RootExponent(nRootSize, PoolExponent(nPoolSize)));
      var nMem := if m.nRootSize < nMemPools then m.nRootSize else nMemPools;
      if nMem < 2 {
        nMem := 2;
      }
      ghost var init := P.Init(m.poolMask + 1, m.nRootSize, nMem, zero);
      var pools, objects := MakePools(m.poolMask + 1, m.nRootSize, nMem, zero, init.root);
      P.InitEstablishesInv(m.poolMask + 1, m.nRootSize, nMem, zero);
      metrix := m;
      root := pools;
      currentPool, nPool2Swap, nPool2Swap2 := 0, 0, nMem;
      beginPos, endPos := 0, 0;
      tokens, activate, wakeup := nMem - 1, false, false;
      s, r := PoolExponent(nPoolSize), RootExponent(nRootSize, PoolExponent(nPoolSize));
      st := init;
      Repr := {this} + objects;
      new;
      assert Mirrors(st.root);
      assert forall k :: 0 <= k < |root| ==> root[k].View() == st.root[k];
      hide Mirrors;
    }

    /** Masks and shifts compute the places the protocol speaks of. */
    lemma MaskedPlaces(i: nat)
      requires Masks() && st.Shape()
      ensures metrix.RootIdx(i) == P.Idx(P.Quotient(i, st.N), st.R)
      ensures And(i, metrix.rootMask) == P.Idx(i, st.R)
      ensures metrix.PoolIdx(i) == P.Idx(i, st.N)
      ensures Shl(i, metrix.rootMaskShift) == P.Times(i, st.N)
      ensures metrix.usedBits + 1 == P.Capacity(st.N, st.R)
    {
      MasksAreArithmetic(metrix, s, r, i);
      AndLowMask(i, r);
      ShlIsProduct(i, s);
    }

    lemma MaskedDistance(x: int)
      requires Masks() && st.Shape()
      ensures metrix.FullIdx(Wrap(x)) == P.Idx(x, P.Capacity(st.N, st.R))
    {
      MasksAreArithmetic(metrix, s, r, 0);
      MaskedWrap(metrix, s, r, x);
    }

    // ---------- push ----------

    method Write(point: T) returns (full: bool)
      requires Valid() && st.producer == P.Ready
      modifies Repr
      ensures Valid() && Repr == old(Repr) && st == P.Write(old(st), point)
      ensures full <==> st.producer == P.Filled
    {
      hide P.Inv, P.Idx, And, Pow2, P.Capacity, P.Times;
      MaskedPlaces(currentPool);
      WriterHasRoom(st);
      P.WriteKeepsInv(st, point);
      var pool := root[And(currentPool, metrix.rootMask)];
      full := pool.Push(point);
      st := P.Write(st, point);
    }

    method AdvanceSlot()
      requires Valid() && st.producer == P.Filled
      modifies this
      ensures Valid() && Repr == old(Repr) && st == P.AdvanceSlot(old(st))
    {
      hide P.Inv, P.Idx, And, Pow2, P.Capacity, P.Times;
      MaskedPlaces(currentPool + 1);
      P.AdvanceSlotKeepsInv(st);
      currentPool := And(currentPool + 1, metrix.rootMask);
      st := P.AdvanceSlot(st);
    }

    /** The semaphore lets the producer through only when a token is there. */
    method Acquire()
      requires Valid() && st.producer == P.Waiting && st.tokens > 0
      modifies this
      ensures Valid() && Repr == old(Repr) && st == P.Acquire(old(st))
    {
      hide P.Inv;
      P.ProducerFlagStepKeepsInv(st);
      tokens := tokens - 1;
      st := P.Acquire(st);
    }

    /** Resume, first half. */
    method SetActivate()
      requires Valid() && st.producer == P.Resuming
      modifies this
      ensures Valid() && Repr == old(Repr) && st == P.SetActivate(old(st))
    {
      hide P.Inv;
      P.ProducerFlagStepKeepsInv(st);
      activate := true;
      st := P.SetActivate(st);
    }

    /** Resume, second half. */
    method Wake()
      requires Valid() && st.producer == P.Waking
      modifies this
      ensures Valid() && Repr == old(Repr) && st == P.Wake(old(st))
    {
      hide P.Inv;
      P.ProducerFlagStepKeepsInv(st);
      wakeup := true;
      st := P.Wake(st);
    }

    method AdvanceEnd()
      requires Valid() && st.producer == P.Written
      modifies this
      ensures Valid() && Repr == old(Repr) && st == P.AdvanceEnd(old(st))
    {
      hide P.Inv, P.Idx, And, Pow2;
      MaskedDistance(endPos + 1);
      P.AdvanceEndKeepsInv(st);
      endPos := metrix.FullIdx(Wrap(endPos + 1));
      st := P.AdvanceEnd(st);
    }

    // ---------- the swapper thread ----------

    /** The loop's test of the activation flag: on to Step, or to sleep. */
    method Check() returns (active: bool)
      requires Valid() && st.swapper == P.Checking
      modifies `st
      ensures Valid() && Repr == old(Repr) && st == P.Check(old(st))
      ensures active <==> st.swapper == P.Stopping
      ensures !active <==> st.swapper == P.Sleeping
    {
      hide P.Inv;
      P.SwapperFlagStepKeepsInv(st, P.SwapperStep);
      active := activate;
      st := P.Check(st);
    }

    /** The condition variable lets the thread through only when the wake-up flag is up. */
    method WakeUp()
      requires Valid() && st.swapper == P.Sleeping && st.wakeup
      modifies this
      ensures Valid() && Repr == old(Repr) && st == P.WakeUp(old(st))
    {
      hide P.Inv;
      P.SwapperFlagStepKeepsInv(st, P.SwapperStep);
      wakeup := false;
      st := P.WakeUp(st);
    }

    /** Stop, first half. */
    method ClearActivate()
      requires Valid() && st.swapper == P.Stopping
      modifies this
      ensures Valid() && Repr == old(Repr) && st == P.ClearActivate(old(st))
    {
      hide P.Inv;
      P.SwapperFlagStepKeepsInv(st, P.SwapperStep);
      activate := false;
      st := P.ClearActivate(st);
    }

    /** Stop, second half. */
    method SelfWake()
      requires Valid() && st.swapper == P.SelfWaking
      modifies this
      ensures Valid() && Repr == old(Repr) && st == P.SelfWake(old(st))
    {
      hide P.Inv;
      P.SwapperFlagStepKeepsInv(st, P.SwapperStep);
      wakeup := true;
      st := P.SelfWake(st);
    }

    method IncrementBeginIter() returns (moved: bool)
      requires Valid() && st.swapper == P.Starting
      modifies this
      ensures Valid() && Repr == old(Repr) && st == P.AdvanceBegin(old(st))
      ensures moved <==> st.beginSlot == old(st.beginSlot) + 1
    {
      hide P.Inv, P.Idx, P.Times, P.Quotient, And, Shl, Shr, Pow2, P.Capacity;
      MaskedPlaces(beginPos);
      MaskedPlaces(nPool2Swap2 + 1);
      MaskedPlaces(P.Idx(nPool2Swap2 + 1, st.R));
      P.AdvanceBeginKeepsInv(st);
      var nStartPool := metrix.RootIdx(beginPos);
      moved := nPool2Swap2 == nStartPool;
      if moved {
        beginPos := Shl(And(nPool2Swap2 + 1, metrix.rootMask), metrix.rootMaskShift);
      }
      st := P.AdvanceBegin(st);
    }

    method Copy()
      requires Valid() && st.swapper == P.Copying
      modifies Repr
      ensures Valid() && Repr == old(Repr) && st == P.Copy(old(st))
    {
      hide P.Inv, P.Idx, And, Pow2, P.Capacity, P.Times;
      MaskedPlaces(nPool2Swap);
      MaskedPlaces(nPool2Swap2);
      SwapSlotsDiffer(st);
      P.CopyKeepsInv(st);
      var mp, fp := root[And(nPool2Swap, metrix.rootMask)], root[And(nPool2Swap2, metrix.rootMask)];
      assert mp.View() == st.root[nPool2Swap] && fp.View() == st.root[nPool2Swap2];
      fp.Assign(mp);
      st := P.Copy(st);
    }

    /** std::swap of two slots, then clear the pool now in the second. */
    method SwapAndClear(a: nat, b: nat, ghost slots: seq<P.Pool<T>>)
      requires Mirrors(slots) && a < |root| && b < |root| && a != b
      modifies `root, Repr - {this}
      ensures Mirrors(slots[a := slots[b]][b := slots[a].Cleared()])
      ensures Scalars() == old(Scalars()) && Masks() == old(Masks())
    {
      var mp, fp := root[a], root[b];
      SwapKeepsDistinct(root, a, b);
      root := root[a := fp][b := mp];
      root[b].Clear();
    }

    method Exchange()
      requires Valid() && st.swapper == P.Swapping
      modifies Repr
      ensures Valid() && Repr == old(Repr) && st == P.Exchange(old(st))
    {
      hide P.Inv, P.Idx, And, Pow2, P.Capacity, P.Times;
      MaskedPlaces(nPool2Swap + 1);
      MaskedPlaces(nPool2Swap2 + 1);
      SwapSlotsDiffer(st);
      P.ExchangeKeepsInv(st);
      ghost var slots := st.root;
      var mem, file := nPool2Swap, nPool2Swap2;
      nPool2Swap2 := And(nPool2Swap2 + 1, metrix.rootMask);
      nPool2Swap := And(nPool2Swap + 1, metrix.rootMask);
      st := P.Exchange(st);
      assert Scalars() && Masks();
      hide Scalars, Masks;
      SwapAndClear(mem, file, slots);
    }

    method Release()
      requires Valid() && st.swapper == P.Releasing
      modifies this
      ensures Valid() && Repr == old(Repr) && st == P.Release(old(st))
    {
      hide P.Inv;
      P.SwapperFlagStepKeepsInv(st, P.SwapperStep);
      tokens := tokens + 1;
      st := P.Release(st);
    }

    // ---------- readers ----------

    /** An index of any 64-bit value reads the record pushed at the position it stands for. */
    method Get(i: nat) returns (record: T)
      requires Valid()
      ensures record == st.Read(i)
      ensures forall p: nat ::
                st.Begin() <= p < st.End() && metrix.FullIdx(i) == metrix.FullIdx(p) ==> record == st.log[p]
    {
      MaskedPlaces(i);
      record := root[metrix.RootIdx(i)].Get(metrix.PoolIdx(i));
      forall p: nat | st.Begin() <= p < st.End() && metrix.FullIdx(i) == metrix.FullIdx(p)
        ensures record == st.log[p]
      {
        MasksAreArithmetic(metrix, s, r, i);
        MasksAreArithmetic(metrix, s, r, p);
        ReadOfCongruent(st, i, p);
      }
    }

    /** The number of readable records, cut to an int: exact exactly when it fits one. */
    method Size() returns (n: int)
      requires Valid()
      ensures 0 <= st.End() - st.Begin() == st.Size()
      ensures n == CastInt(st.Size())
      ensures n == st.End() - st.Begin() <==> st.End() - st.Begin() < 0x8000_0000
    {
      hide P.Inv, Mirrors, Pow2, And, CastInt, Wrap, P.Idx, P.Capacity, P.Times;
      MaskedDistance(endPos - beginPos);
      P.SizeOfInv(st);
      CastOfSmall(st.Size());
      n := CastInt(metrix.FullIdx(Wrap(endPos - beginPos)));
    }

    method Empty() returns (empty: bool)
      requires Valid()
      ensures empty <==> st.End() == st.Begin()
    {
      hide P.Inv, Mirrors;
      P.SizeOfInv(st);
      empty := beginPos == endPos;
    }

    lemma FullPlace(p: nat)
      requires Masks() && st.Shape()
      ensures metrix.FullIdx(p) == P.Idx(p, P.Capacity(st.N, st.R))
    {
      MasksAreArithmetic(metrix, s, r, p);
      MaskedPlaces(p);
      hide Pow2, And, Shl, Shr, Digits, P.Capacity;
    }

    lemma MaskedEnds()
      requires Valid()
      ensures 0 <= st.Begin() <= st.End()
      ensures beginPos == metrix.FullIdx(st.Begin()) && endPos == metrix.FullIdx(st.End())
    {
      hide P.Inv, Mirrors, Masks, Pow2, And, Shl, Shr, Digits, P.Idx, P.Capacity, P.Times;
      P.EndsAreMasked(st);
      FullPlace(st.Begin());
      FullPlace(st.End());
    }

    /** One place before the masked end, with wrap-around, is one place before the end. */
    lemma BeforeTheEnd()
      requires Valid() && st.End() != st.Begin()
      ensures 0 < st.End() && metrix.FullIdx(Wrap(endPos - 1)) == metrix.FullIdx(st.End() - 1)
    {
      hide P.Inv, Mirrors, Pow2, And, Shl, Shr, Digits, P.Idx, P.Capacity, P.Times, Wrap;
      MaskedEnds();
      MaskedStandsFor(metrix, s, r, st.End());
      IteratorMoves(metrix, s, r, endPos, st.End(), -1);
    }

    /** On a non-empty ring, one place before the masked end is the newest record. */
    method Recent() returns (i: nat)
      requires Valid()
      ensures st.End() != st.Begin() ==> 0 < st.End() && metrix.FullIdx(i) == metrix.FullIdx(st.End() - 1)
    {
      hide *;
      var empty := Empty();
      if empty {
        i := endPos;
      } else {
        BeforeTheEnd();
        i := Wrap(endPos - 1);
      }
    }

    lemma ReseatDecides(index: nat)
      requires Valid() && st.End() != st.Begin()
      ensures var bpos, ipos := metrix.FullIdx(Wrap(beginPos - endPos)), metrix.FullIdx(Wrap(index - endPos));
              0 < ipos < bpos <==> forall p: nat | st.Begin() <= p <= st.End() :: !StandsFor(metrix, index, p)
    {
      hide P.Inv, Pow2, And, P.Idx, P.Capacity, P.Times, StandsFor, Mirrors;
      P.SizeOfInv(st);
      MaskedPlaces(0);
      MaskedEnds();
      ValidateReseatsExactlyTheLost(metrix, s, r, st.Begin(), st.End(), index);
    }

    /** Reseats exactly the iterators that stand for no position from begin to end. */
    method Validate(it: Iterator) returns (moved: bool)
      requires Valid() && it !in Repr
      modifies it
      ensures Valid() && st == old(st)
      ensures if moved then it.index == beginPos && it.invalid
              else it.index == old(it.index) && it.invalid == old(it.invalid)
      ensures st.End() == st.Begin() ==> !moved
      ensures st.End() != st.Begin() ==>
                (moved <==> forall p: nat | st.Begin() <= p <= st.End() :: !StandsFor(metrix, old(it.index), p))
    {
      hide *;
      moved := false;
      var empty := Empty();
      if !empty {
        ReseatDecides(it.index);
        var bpos := metrix.FullIdx(Wrap(beginPos - endPos));
        var ipos := metrix.FullIdx(Wrap(it.index - endPos));
        if ipos > 0 && ipos < bpos {
          it.index, it.invalid := beginPos, true;
          moved := true;
        }
      }
    }
  }
}

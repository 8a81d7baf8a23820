/** The ring of memory and file pools as a protocol between one producer thread (ring_pool::push)
    and one swapper thread (cPosixThread::Run stepping ring_pool::_swap). Each step is one region
    the source makes atomic: a mutex-protected block, an access to an atomic flag, or a semaphore
    operation. Runs interleave the steps of the two threads arbitrarily. */
module RingProtocol {
  import Bits
  import RingMetrix

  datatype Kind = Mem | File

  /** A pool: fixed storage and the number of records pushed since it was last cleared. */
  datatype Pool<T> = Pool(kind: Kind, store: seq<T>, count: nat)
  {
    /** Stores at `count`. Writing past the storage is undefined in the source; it is shown
        never to happen, and leaves the storage alone here. */
    function Push(r: T): Pool<T> {
      this.(store := if count < |store| then store[count := r] else store, count := count + 1)
    }

    /** file_pool::assign: the whole storage and the count of a memory pool. */
    function AssignFrom(mp: Pool<T>): Pool<T> {
      this.(store := mp.store, count := mp.count)
    }

    function Cleared(): Pool<T> {
      this.(count := 0)
    }
  }

  /** Where each thread stands. */
  datatype ProducerAt = Ready | Filled | Waiting | Resuming | Waking | Written
  datatype SwapperAt = Checking | Sleeping | Stopping | SelfWaking | Starting | Copying | Swapping | Releasing

  datatype State<T> = State(
    N: nat,              // records in a pool
    R: nat,              // slots in the ring
    M: nat,              // memory pools
    root: seq<Pool<T>>,
    currentPool: nat,
    nPool2Swap: nat,
    nPool2Swap2: nat,
    beginPos: nat,
    endPos: nat,
    tokens: nat,         // the semaphore
    activate: bool,      // the thread's flags
    wakeup: bool,
    producer: ProducerAt,
    swapper: SwapperAt,
    // history, read by no step:
    log: seq<T>,         // every record ever pushed
    filled: nat,         // slots the producer has moved past
    swaps: nat,          // exchanges done
    beginSlot: nat)      // slots that begin has moved past
  {
    ghost predicate Shape() {
      && N > 0
      && 2 <= M < R
      && |root| == R
      && currentPool < R && nPool2Swap < R && nPool2Swap2 < R
      && (forall k :: 0 <= k < R ==> |root[k].store| == N)
    }

    /** Absolute position of the oldest readable record. */
    function Begin(): nat {
      Times(beginSlot, N)
    }

    /** Absolute end: a record counts once push has advanced the end. */
    function End(): int {
      if producer == Ready then |log| else |log| - 1
    }

    /** ring_pool::idx */
    function Read(i: nat): T
      requires Shape()
    {
      root[Idx(Quotient(i, N), R)].store[Idx(i, N)]
    }

    function Size(): nat
      requires Shape()
    {
      Idx(endPos - beginPos, Capacity(N, R))
    }
  }

  function Times(a: nat, n: nat): nat {
    a * n
  }

  function Quotient(i: nat, n: nat): nat
    requires n > 0
  {
    i / n
  }

  /** Place of i in a ring of r places. */
  function Idx(i: int, r: nat): (k: nat)
    requires r > 0
    ensures k < r
  {
    i % r
  }

  function Capacity(n: nat, r: nat): (c: nat)
    requires n > 0 && r > 0
    ensures c >= n && c >= r
  {
    assert n * r >= n && n * r >= r by { ProductAtLeast(n, r); }
    n * r
  }

  lemma ProductAtLeast(n: nat, r: nat)
    requires n > 0 && r > 0
    ensures n * r >= n && n * r >= r
  {
  }

  // ---------- steps of the producer ----------

  function Write<T>(st: State<T>, r: T): State<T>
    requires st.Shape() && st.producer == Ready
  {
    var pool := st.root[st.currentPool].Push(r);
    st.(root := st.root[st.currentPool := pool], log := st.log + [r],
        producer := if pool.count == st.N then Filled else Written)
  }

  function AdvanceSlot<T>(st: State<T>): State<T>
    requires st.Shape() && st.producer == Filled
  {
    st.(currentPool := Idx(st.currentPool + 1, st.R), filled := st.filled + 1, producer := Waiting)
  }

  function Acquire<T>(st: State<T>): State<T>
    requires st.Shape() && st.producer == Waiting && st.tokens > 0
  {
    st.(tokens := st.tokens - 1, producer := Resuming)
  }

  function SetActivate<T>(st: State<T>): State<T>
    requires st.Shape() && st.producer == Resuming
  {
    st.(activate := true, producer := Waking)
  }

  function Wake<T>(st: State<T>): State<T>
    requires st.Shape() && st.producer == Waking
  {
    st.(wakeup := true, producer := Written)
  }

  function AdvanceEnd<T>(st: State<T>): State<T>
    requires st.Shape() && st.producer == Written
  {
    st.(endPos := Idx(st.endPos + 1, Capacity(st.N, st.R)), producer := Ready)
  }

  // ---------- steps of the swapper ----------

  function Check<T>(st: State<T>): State<T>
    requires st.Shape() && st.swapper == Checking
  {
    st.(swapper := if st.activate then Stopping else Sleeping)
  }

  function WakeUp<T>(st: State<T>): State<T>
    requires st.Shape() && st.swapper == Sleeping && st.wakeup
  {
    st.(wakeup := false, swapper := Checking)
  }

  function ClearActivate<T>(st: State<T>): State<T>
    requires st.Shape() && st.swapper == Stopping
  {
    st.(activate := false, swapper := SelfWaking)
  }

  function SelfWake<T>(st: State<T>): State<T>
    requires st.Shape() && st.swapper == SelfWaking
  {
    st.(wakeup := true, swapper := Starting)
  }

  /** increment_begin_iter: begin leaves the slot that is about to be overwritten. */
  function AdvanceBegin<T>(st: State<T>): State<T>
    requires st.Shape() && st.swapper == Starting
  {
    if st.nPool2Swap2 == Idx(Quotient(st.beginPos, st.N), st.R) then
      st.(beginPos := Times(Idx(st.nPool2Swap2 + 1, st.R), st.N), beginSlot := st.beginSlot + 1,
          swapper := Copying)
    else
      st.(swapper := Copying)
  }

  function Copy<T>(st: State<T>): State<T>
    requires st.Shape() && st.swapper == Copying
  {
    var fp := st.root[st.nPool2Swap2].AssignFrom(st.root[st.nPool2Swap]);
    st.(root := st.root[st.nPool2Swap2 := fp], swapper := Swapping)
  }

  function Exchange<T>(st: State<T>): State<T>
    requires st.Shape() && st.swapper == Swapping
  {
    var mp, fp := st.root[st.nPool2Swap], st.root[st.nPool2Swap2];
    st.(root := st.root[st.nPool2Swap := fp][st.nPool2Swap2 := mp.Cleared()],
        nPool2Swap2 := Idx(st.nPool2Swap2 + 1, st.R), nPool2Swap := Idx(st.nPool2Swap + 1, st.R),
        swaps := st.swaps + 1, swapper := Releasing)
  }

  function Release<T>(st: State<T>): State<T>
    requires st.Shape() && st.swapper == Releasing
  {
    st.(tokens := st.tokens + 1, swapper := Checking)
  }

  // ---------- runs ----------

  datatype Step<T> = ProducerStep(record: T) | SwapperStep

  /** Each thread has at most one next step; the producer's carries the record it will push next. */
  ghost predicate Enabled<T>(st: State<T>, step: Step<T>) {
    && st.Shape()
    && match step
       case ProducerStep(_) => st.producer == Waiting ==> st.tokens > 0
       case SwapperStep => st.swapper == Sleeping ==> st.wakeup
  }

  ghost function Next<T>(st: State<T>, step: Step<T>): State<T>
    requires Enabled(st, step)
  {
    match step
    case ProducerStep(r) =>
      (match st.producer
       case Ready => Write(st, r)
       case Filled => AdvanceSlot(st)
       case Waiting => Acquire(st)
       case Resuming => SetActivate(st)
       case Waking => Wake(st)
       case Written => AdvanceEnd(st))
    case SwapperStep =>
      (match st.swapper
       case Checking => Check(st)
       case Sleeping => WakeUp(st)
       case Stopping => ClearActivate(st)
       case SelfWaking => SelfWake(st)
       case Starting => AdvanceBegin(st)
       case Copying => Copy(st)
       case Swapping => Exchange(st)
       case Releasing => Release(st))
  }

  /** The constructor: M memory pools, then file pools, M - 1 tokens, both threads at rest. */
  function Init<T>(N: nat, R: nat, M: nat, zero: T): State<T> {
    State(N, R, M, seq(R, k => Pool(if k < M then Mem else File, seq(N, o => zero), 0)),
          0, 0, M, 0, 0, if M > 0 then M - 1 else 0, false, false, Ready, Checking, [], 0, 0, 0)
  }

  ghost predicate CanRun<T>(st: State<T>, steps: seq<Step<T>>)
    decreases |steps|
  {
    steps == [] || (Enabled(st, steps[0]) && CanRun(Next(st, steps[0]), steps[1..]))
  }

  ghost function After<T>(st: State<T>, steps: seq<Step<T>>): State<T>
    requires CanRun(st, steps)
    decreases |steps|
  {
    if steps == [] then st else After(Next(st, steps[0]), steps[1..])
  }

  // ---------- the invariant ----------

  /** Tokens taken: one for each slot moved past, the last one pending while the producer waits. */
  function Acquired<T>(st: State<T>): int {
    if st.producer == Waiting then st.filled - 1 else st.filled
  }

  /** Activations posted. */
  function Resumed<T>(st: State<T>): int {
    if st.producer == Waiting || st.producer == Resuming then st.filled - 1 else st.filled
  }

  /** Swaps begun. */
  function Started<T>(st: State<T>): nat {
    if st.swapper in {SelfWaking, Starting, Copying, Swapping} then st.swaps + 1 else st.swaps
  }

  function Released<T>(st: State<T>): int {
    if st.swapper == Releasing then st.swaps - 1 else st.swaps
  }

  /** Records in the producer's current slot. */
  function Fill<T>(st: State<T>): int {
    |st.log| - Times(st.filled, st.N)
  }

  ghost predicate Flags<T>(st: State<T>) {
    && (st.swapper == Stopping ==> st.activate)
    && (st.producer in {Waiting, Resuming, Waking} ==> st.filled >= 1)
    && (st.swapper == Releasing ==> st.swaps >= 1)
    && st.tokens == st.M - 1 - Acquired(st) + Released(st)
    && Started(st) + (if st.activate then 1 else 0) <= Resumed(st)
    // a wake-up is never lost
    && (st.swapper == Sleeping && st.activate ==> st.wakeup || st.producer == Waking)
    // an idle swapper leaves a token behind
    && (!st.activate && st.swapper in {Checking, Sleeping} && st.producer != Resuming ==> st.tokens >= 1)
  }

  ghost predicate Positions<T>(st: State<T>)
    requires st.Shape()
  {
    && (match st.producer
        case Ready => 0 <= Fill(st) < st.N
        case Filled => Fill(st) == st.N
        case Written => 0 <= Fill(st) < st.N && |st.log| > 0
        case _ => Fill(st) == 0 && |st.log| > 0)
    && st.currentPool == Idx(st.filled, st.R)
    && st.nPool2Swap == Idx(st.swaps, st.R)
    && st.nPool2Swap2 == Idx(st.swaps + st.M, st.R)
    && st.beginPos == Times(Idx(st.beginSlot, st.R), st.N)
    && st.endPos == Idx(st.End(), Capacity(st.N, st.R))
    && var lost := st.swaps + st.M - st.R + (if st.swapper in {Copying, Swapping} then 1 else 0);
       st.beginSlot == if lost < 0 then 0 else lost
  }

  /** Number of records in absolute slot j of the memory window. */
  function CountOf<T>(st: State<T>, j: int): int {
    if j < st.filled then st.N else if j == st.filled then Fill(st) else 0
  }

  /** Memory pools at slots swaps .. swaps + M - 1, file pools everywhere else. */
  ghost predicate Pools<T>(st: State<T>)
    requires st.Shape()
  {
    && (forall j :: st.swaps <= j < st.swaps + st.M ==>
          st.root[Idx(j, st.R)].kind == Mem && st.root[Idx(j, st.R)].count == CountOf(st, j))
    && (forall j :: st.swaps + st.M <= j < st.swaps + st.R ==> st.root[Idx(j, st.R)].kind == File)
    && (st.swapper == Swapping ==> st.root[st.nPool2Swap2].store == st.root[st.nPool2Swap].store)
  }

  /** The record at absolute position p is where readers look for it. */
  ghost predicate Holds<T>(st: State<T>, p: nat)
    requires st.Shape() && p < |st.log|
  {
    st.Read(p) == st.log[p]
  }

  ghost predicate Records<T>(st: State<T>)
    requires st.Shape()
  {
    forall p :: st.Begin() <= p < |st.log| ==> Holds(st, p)
  }

  ghost predicate Inv<T>(st: State<T>) {
    st.Shape() && Flags(st) && Positions(st) && Pools(st) && Records(st)
  }

  // ---------- arithmetic of the ring ----------

  lemma IdxIsRem(j: int, r: nat)
    requires r > 0
    ensures Idx(j, r) == Bits.Rem(j, r)
  {
  }

  lemma IdxInjective(j: int, k: int, r: nat)
    requires j < k + r && k < j + r
    ensures Idx(j, r) == Idx(k, r) <==> j == k
  {
    hide Idx, Bits.Rem;
    IdxIsRem(j, r);
    IdxIsRem(k, r);
    Bits.RemInjective(j, k, r);
  }

  /** Sums and differences may be taken of the masked values. */
  lemma IdxShift(j: int, d: int, r: nat)
    requires r > 0
    ensures Idx(Idx(j, r) + d, r) == Idx(j + d, r)
  {
    hide Idx, Bits.Rem;
    IdxIsRem(j, r);
    IdxIsRem(j + d, r);
    IdxIsRem(Idx(j, r) + d, r);
    Bits.RemShift(Idx(j, r), d, r);
    Bits.RemShift(j, d, r);
    Bits.RemRem(j, r);
  }

  lemma IdxNext(j: int, r: nat)
    requires r > 0
    ensures Idx(Idx(j, r) + 1, r) == Idx(j + 1, r)
  {
    hide Idx;
    IdxShift(j, 1, r);
  }

  lemma IdxMinusOne(j: int, r: nat)
    requires r > 0
    ensures Idx(Idx(j, r) - 1, r) == Idx(j - 1, r)
  {
    hide Idx;
    IdxShift(j, -1, r);
  }

  lemma IdxOfIdx(j: int, r: nat)
    requires r > 0
    ensures Idx(Idx(j, r), r) == Idx(j, r)
  {
    hide Idx;
    IdxShift(j, 0, r);
  }

  /** Position p lies in absolute slot q exactly when q * n <= p < (q + 1) * n. */
  lemma InSlot(p: nat, q: nat, n: nat)
    requires n > 0
    ensures Times(q, n) <= p < Times(q, n) + n <==> Quotient(p, n) == q
    ensures Times(q + 1, n) == Times(q, n) + n
    ensures Quotient(p, n) == q ==> Idx(p, n) == p - Times(q, n)
  {
    RingMetrix.Distribute(q, n);
    if Times(q, n) <= p < Times(q, n) + n {
      Bits.DivModUnique(p, n, q, p - q * n);
    }
  }

  lemma TimesMonotone(a: nat, b: nat, n: nat)
    requires a <= b
    ensures Times(a, n) <= Times(b, n)
  {
    Bits.MulAtMost(a, b, n);
  }

  /** The slot of a readable position lies between begin's slot and the producer's. */
  lemma SlotOfReadable<T>(st: State<T>, p: nat) returns (q: nat)
    requires st.Shape() && Positions(st)
    requires st.Begin() <= p < |st.log|
    ensures q == Quotient(p, st.N)
    ensures st.beginSlot <= q <= st.filled
    ensures q == st.filled ==> Idx(p, st.N) < Fill(st)
  {
    hide Idx, Times, Quotient, Capacity;
    q := Quotient(p, st.N);
    InSlot(p, q, st.N);
    if q < st.beginSlot {
      TimesMonotone(q + 1, st.beginSlot, st.N);
    }
    if q > st.filled {
      InSlot(p, st.filled, st.N);
      TimesMonotone(st.filled + 1, q, st.N);
    }
  }

  // ---------- every step keeps the invariant ----------

  lemma WriteKeepsInv<T>(st: State<T>, r: T)
    requires Inv(st) && st.producer == Ready
    ensures Inv(Write(st, r))
  {
    hide Idx, Times, Quotient, Capacity;
    var st' := Write(st, r);
    var w := |st.log|;
    assert st.swaps <= st.filled < st.swaps + st.M;
    InSlot(w, st.filled, st.N);
    assert st.root[st.currentPool].count == Fill(st);
    forall j | st.swaps <= j < st.swaps + st.R && j != st.filled
      ensures Idx(j, st.R) != st.currentPool
    {
      IdxInjective(j, st.filled, st.R);
    }
    assert Holds(st', w);
    forall p: nat | st'.Begin() <= p < w
      ensures Holds(st', p)
    {
      assert Holds(st, p);
      var q := SlotOfReadable(st, p);
      IdxInjective(q, st.filled, st.R);
    }
  }

  lemma AdvanceSlotKeepsInv<T>(st: State<T>)
    requires Inv(st) && st.producer == Filled
    ensures Inv(AdvanceSlot(st))
  {
    hide Idx, Times, Quotient, Capacity;
    var st' := AdvanceSlot(st);
    IdxNext(st.filled, st.R);
    InSlot(0, st.filled, st.N);
    forall p: nat | st'.Begin() <= p < |st'.log|
      ensures Holds(st', p)
    {
      assert Holds(st, p);
    }
  }

  lemma AdvanceEndKeepsInv<T>(st: State<T>)
    requires Inv(st) && st.producer == Written
    ensures Inv(AdvanceEnd(st))
  {
    hide Idx, Times, Quotient, Capacity;
    var st' := AdvanceEnd(st);
    IdxNext(st.End(), Capacity(st.N, st.R));
    forall p: nat | st'.Begin() <= p < |st'.log|
      ensures Holds(st', p)
    {
      assert Holds(st, p);
    }
  }

  /** Steps that only move flags, tokens and the threads leave the ring alone. */
  lemma RingUntouched<T>(st: State<T>, st': State<T>)
    requires Inv(st)
    requires st' == st.(tokens := st'.tokens, activate := st'.activate, wakeup := st'.wakeup,
                        producer := st'.producer, swapper := st'.swapper)
    requires st'.swapper == Swapping ==> st.swapper == Swapping
    ensures Pools(st') && Records(st')
  {
    hide Idx, Times, Quotient, Capacity, Flags, Positions;
    forall p: nat | st'.Begin() <= p < |st'.log|
      ensures Holds(st', p)
    {
      assert Holds(st, p);
    }
  }

  lemma ProducerFlagStepKeepsInv<T>(st: State<T>)
    requires Inv(st)
    ensures st.producer == Waiting && st.tokens > 0 ==> Inv(Acquire(st))
    ensures st.producer == Resuming ==> Inv(SetActivate(st))
    ensures st.producer == Waking ==> Inv(Wake(st))
  {
    hide Idx, Times, Quotient, Capacity, Pools, Records;
    if st.producer == Waiting && st.tokens > 0 {
      RingUntouched(st, Acquire(st));
    } else if st.producer == Resuming {
      RingUntouched(st, SetActivate(st));
    } else if st.producer == Waking {
      RingUntouched(st, Wake(st));
    }
  }

  lemma SwapperFlagStepKeepsInv<T>(st: State<T>, step: Step<T>)
    requires Inv(st) && Enabled(st, step)
    requires step.SwapperStep? && st.swapper !in {Starting, Copying, Swapping}
    ensures Inv(Next(st, step))
  {
    hide Idx, Times, Quotient, Capacity, Pools, Records;
    RingUntouched(st, Next(st, step));
  }

  lemma AdvanceBeginKeepsInv<T>(st: State<T>)
    requires Inv(st) && st.swapper == Starting
    ensures Inv(AdvanceBegin(st))
  {
    hide Idx, Times, Quotient, Capacity, Positions, Pools, Flags, Records;
    AdvanceBeginKeepsPositions(st);
    AdvanceBeginKeepsPools(st);
    AdvanceBeginKeepsRecords(st);
  }

  lemma AdvanceBeginKeepsRecords<T>(st: State<T>)
    requires Inv(st) && st.swapper == Starting
    ensures Records(AdvanceBegin(st))
  {
    hide Idx, Times, Quotient, Capacity, Positions, Pools, Flags;
    var st' := AdvanceBegin(st);
    TimesMonotone(st.beginSlot, st'.beginSlot, st.N);
    forall p: nat | st'.Begin() <= p < |st'.log|
      ensures Holds(st', p)
    {
      assert Holds(st, p);
    }
  }

  lemma AdvanceBeginKeepsPools<T>(st: State<T>)
    requires Inv(st) && st.swapper == Starting
    ensures Pools(AdvanceBegin(st))
  {
    hide Idx, Times, Quotient, Capacity, Positions, Flags, Records;
  }

  /** begin is in the slot to be overwritten exactly when that slot has been used before. */
  lemma AdvanceBeginKeepsPositions<T>(st: State<T>)
    requires st.Shape() && Flags(st) && Positions(st) && st.swapper == Starting
    ensures Flags(AdvanceBegin(st)) && Positions(AdvanceBegin(st))
  {
    hide Idx, Times, Quotient, Capacity;
    var slot := Idx(st.beginSlot, st.R);
    InSlot(st.beginPos, slot, st.N);
    IdxOfIdx(st.beginSlot, st.R);
    assert Idx(Quotient(st.beginPos, st.N), st.R) == slot;
    var lost := st.swaps + st.M - st.R;
    IdxPlusR(lost, st.R);
    if lost < 0 {
      IdxInjective(lost + st.R, 0, st.R);
    }
    IdxNext(st.swaps + st.M, st.R);
    IdxPlusR(lost + 1, st.R);
  }

  lemma IdxPlusR(j: int, r: nat)
    requires r > 0
    ensures Idx(j + r, r) == Idx(j, r)
  {
    hide Idx, Bits.Rem;
    IdxIsRem(r, r);
    IdxIsRem(0, r);
    Bits.RemSmall(r, r);
    Bits.RemSmall(0, r);
    IdxShift(r, j, r);
    IdxShift(0, j, r);
  }

  lemma CopyKeepsInv<T>(st: State<T>)
    requires Inv(st) && st.swapper == Copying
    ensures Inv(Copy(st))
  {
    hide Idx, Times, Quotient, Capacity;
    var st' := Copy(st);
    var f := st.swaps + st.M;
    IdxInjective(st.swaps, f, st.R);
    assert st.root[st.nPool2Swap2].kind == File;
    forall j | st.swaps <= j < st.swaps + st.R && j != f
      ensures Idx(j, st.R) != st.nPool2Swap2
    {
      IdxInjective(j, f, st.R);
    }
    forall p: nat | st'.Begin() <= p < |st'.log|
      ensures Holds(st', p)
    {
      assert Holds(st, p);
      var q := SlotOfReadable(st, p);
      IdxInjective(q, f, st.R);
    }
  }

  lemma ExchangeKeepsInv<T>(st: State<T>)
    requires Inv(st) && st.swapper == Swapping
    ensures Inv(Exchange(st))
  {
    ExchangeKeepsPools(st);
    ExchangeKeepsRecords(st);
    hide Pools, Records;
    ExchangeKeepsPositions(st);
    hide Idx, Times, Quotient, Capacity, Flags, Positions;
  }

  lemma ExchangeKeepsPositions<T>(st: State<T>)
    requires st.Shape() && Flags(st) && Positions(st) && st.swapper == Swapping
    ensures Flags(Exchange(st)) && Positions(Exchange(st))
  {
    IdxNext(st.swaps, st.R);
    IdxNext(st.swaps + st.M, st.R);
    hide Idx, Times, Quotient, Capacity;
  }

  lemma ExchangeKeepsPools<T>(st: State<T>)
    requires Inv(st) && st.swapper == Swapping
    ensures Pools(Exchange(st))
  {
    hide Idx, Times, Quotient, Capacity, Records;
    var f := st.swaps + st.M;
    IdxInjective(st.swaps, f, st.R);
    IdxPlusR(st.swaps, st.R);
    assert st.filled <= f;
    assert st.root[st.nPool2Swap2].kind == File;
    forall j | st.swaps < j < st.swaps + st.R && j != f
      ensures Idx(j, st.R) != st.nPool2Swap2 && Idx(j, st.R) != st.nPool2Swap
    {
      IdxInjective(j, f, st.R);
      IdxInjective(j, st.swaps, st.R);
    }
  }

  lemma ExchangeKeepsRecords<T>(st: State<T>)
    requires Inv(st) && st.swapper == Swapping
    ensures Records(Exchange(st))
  {
    hide Idx, Times, Quotient, Capacity;
    var st' := Exchange(st);
    var f := st.swaps + st.M;
    assert st.filled <= f;
    forall p: nat | st'.Begin() <= p < |st'.log|
      ensures Holds(st', p)
    {
      assert Holds(st, p);
      var q := SlotOfReadable(st, p);
      IdxInjective(q, f, st.R);
      IdxInjective(q, st.swaps, st.R);
      assert q != f;
    }
  }

  lemma InitEstablishesInv<T>(N: nat, R: nat, M: nat, zero: T)
    requires N > 0 && 2 <= M < R
    ensures Inv(Init(N, R, M, zero))
  {
    var st := Init(N, R, M, zero);
    assert Times(0, N) == 0;
    forall j: nat | j < R
      ensures Idx(j, R) == j
    {
      Bits.DivModUnique(j, R, 0, j);
    }
    Bits.DivModUnique(0, Capacity(N, R), 0, 0);
    hide Idx, Times, Quotient, Capacity;
    assert Pools(st);
  }

  lemma StepKeepsInv<T>(st: State<T>, step: Step<T>)
    requires Inv(st) && Enabled(st, step)
    ensures Inv(Next(st, step))
  {
    hide Inv;
    match step
    case ProducerStep(r) =>
      match st.producer {
        case Ready => WriteKeepsInv(st, r);
        case Filled => AdvanceSlotKeepsInv(st);
        case Written => AdvanceEndKeepsInv(st);
        case _ => ProducerFlagStepKeepsInv(st);
      }
    case SwapperStep =>
      match st.swapper {
        case Starting => AdvanceBeginKeepsInv(st);
        case Copying => CopyKeepsInv(st);
        case Swapping => ExchangeKeepsInv(st);
        case _ => SwapperFlagStepKeepsInv(st, step);
      }
  }

  lemma {:induction false} RunKeepsInv<T>(st: State<T>, steps: seq<Step<T>>)
    requires Inv(st) && CanRun(st, steps)
    ensures Inv(After(st, steps))
    decreases |steps|
  {
    hide Inv;
    if steps == [] {
    } else {
      StepKeepsInv(st, steps[0]);
      RunKeepsInv(Next(st, steps[0]), steps[1..]);
    }
  }

  // ---------- what the invariant means ----------

  /** A state some run from a fresh ring leads to. */
  ghost predicate Reachable<T(!new)>(st: State<T>, zero: T) {
    exists steps :: ReachedBy(st, zero, steps)
  }

  ghost predicate ReachedBy<T>(st: State<T>, zero: T, steps: seq<Step<T>>) {
    && st.N > 0 && 2 <= st.M < st.R
    && CanRun(Init(st.N, st.R, st.M, zero), steps)
    && st == After(Init(st.N, st.R, st.M, zero), steps)
  }

  lemma ReachableInv<T(!new)>(st: State<T>, zero: T)
    requires Reachable(st, zero)
    ensures Inv(st)
  {
    hide Inv;
    var steps :| ReachedBy(st, zero, steps);
    InitEstablishesInv(st.N, st.R, st.M, zero);
    RunKeepsInv(Init(st.N, st.R, st.M, zero), steps);
  }

  /** Reading through a masked position is reading through the position itself. */
  lemma ReadIsMasked<T>(st: State<T>, p: nat)
    requires st.Shape()
    ensures st.Read(Idx(p, Capacity(st.N, st.R))) == st.Read(p)
  {
    RingMetrix.SplitPosition(p, st.N, st.R);
    IdxOfIdx(p / st.N, st.R);
  }

  /** Records between begin and end number at most one less than the ring has places. */
  lemma Occupancy<T>(st: State<T>)
    requires Inv(st)
    ensures st.Begin() <= st.End() <= st.Begin() + Capacity(st.N, st.R) - 1
    ensures st.End() - st.Begin() >= st.End()
         || st.End() - st.Begin() >= Times(st.R - st.M, st.N) - 1
  {
    hide Idx, Times, Quotient, Pools, Records;
    var N, R := st.N, st.R;
    var span := st.filled - st.beginSlot;
    assert Capacity(N, R) == Times(R, N) by { TimesIsCapacity(N, R); }
    InSlot(0, st.filled, N);
    InSlot(0, R - 1, N);
    if st.filled >= st.beginSlot {
      TimesAdd(span, st.beginSlot, N);
      if span <= R - 1 {
        TimesMonotone(span, R - 1, N);
      }
      TimesMonotone(0, span, N);
      if span >= R - st.M {
        TimesMonotone(R - st.M, span, N);
      }
    }
    if st.beginSlot > 0 {
      assert span >= R - st.M >= 1;
      TimesMonotone(1, span, N);
      InSlot(0, 0, N);
      assert Times(0, N) == 0 by { TimesZero(N); }
    } else {
      TimesZero(N);
    }
  }

  lemma TimesZero(n: nat)
    ensures Times(0, n) == 0
  {
  }

  lemma TimesIsCapacity(n: nat, r: nat)
    requires n > 0 && r > 0
    ensures Times(r, n) == Capacity(n, r)
  {
  }

  lemma TimesAdd(a: nat, b: nat, n: nat)
    ensures Times(a + b, n) == Times(a, n) + Times(b, n)
  {
  }

  /** Main result: in every reachable state every record between begin and end is the one pushed
      at that position, whichever pool now holds it. */
  lemma ReadersSeeThePushedRecords<T(!new)>(st: State<T>, zero: T, p: nat)
    requires Reachable(st, zero)
    requires st.Begin() <= p < st.End()
    ensures st.Shape() && st.End() <= |st.log|
    ensures st.Read(Idx(p, Capacity(st.N, st.R))) == st.log[p]
  {
    ReachableInv(st, zero);
    hide Idx, Times, Quotient, Capacity, Flags, Positions, Pools;
    ReadIsMasked(st, p);
    assert Holds(st, p);
  }

  /** size() and empty() read masked positions only, and are never ambiguous. */
  lemma SizeIsUnambiguous<T(!new)>(st: State<T>, zero: T)
    requires Reachable(st, zero)
    ensures st.Shape()
    ensures 0 <= st.End() - st.Begin() <= Capacity(st.N, st.R) - 1
    ensures st.Size() == st.End() - st.Begin()
    ensures st.beginPos == st.endPos <==> st.Begin() == st.End()
  {
    ReachableInv(st, zero);
    SizeOfInv(st);
  }

  lemma SizeOfInv<T>(st: State<T>)
    requires Inv(st)
    ensures st.Begin() <= st.End() <= st.Begin() + Capacity(st.N, st.R) - 1
    ensures st.Size() == st.End() - st.Begin()
    ensures st.beginPos == st.endPos <==> st.Begin() == st.End()
  {
    Occupancy(st);
    var c := Capacity(st.N, st.R);
    MaskedBegin(st);
    hide Times, Quotient, Capacity, Flags, Pools, Records;
    RingMetrix.ModOfMod(st.endPos - st.beginPos, st.endPos, st.Begin(), c);
    RingMetrix.ModShift(st.endPos, st.Begin(), c);
    RingMetrix.ModShift(st.End(), st.Begin(), c);
    IdxOfIdx(st.End(), c);
    Bits.DivModUnique(st.End() - st.Begin(), c, 0, st.End() - st.Begin());
    IdxInjective(st.End(), st.Begin(), c);
  }

  /** Both ends of the readable records are kept masked. */
  lemma EndsAreMasked<T>(st: State<T>)
    requires Inv(st)
    ensures 0 <= st.Begin() <= st.End()
    ensures st.beginPos == Idx(st.Begin(), Capacity(st.N, st.R)) && st.endPos == Idx(st.End(), Capacity(st.N, st.R))
  {
    hide Times, Idx, Capacity, Pools, Records, Flags;
    MaskedBegin(st);
    SizeOfInv(st);
  }

  lemma MaskedBegin<T>(st: State<T>)
    requires st.Shape() && Positions(st)
    ensures st.beginPos == Idx(st.Begin(), Capacity(st.N, st.R))
  {
    var p := st.beginSlot * st.N;
    RingMetrix.SplitPosition(p, st.N, st.R);
    Bits.DivModUnique(p, st.N, st.beginSlot, 0);
  }

  /** However the swapper lags, the most recent records stay readable: all of them, or at least
      as many as the file pools hold, less one. */
  lemma RecentRecordsStayReadable<T(!new)>(st: State<T>, zero: T, p: nat)
    requires Reachable(st, zero)
    requires p < st.End()
    requires st.End() - p <= Times(st.R - st.M, st.N) - 1
    ensures st.Begin() <= p && st.Shape() && st.End() <= |st.log|
    ensures st.Read(Idx(p, Capacity(st.N, st.R))) == st.log[p]
  {
    ReachableInv(st, zero);
    hide Inv, Times, Idx, Capacity;
    Occupancy(st);
    ReadersSeeThePushedRecords(st, zero, p);
  }

  /** recent() reads one place before the masked end. */
  lemma RecentIsTheNewest<T(!new)>(st: State<T>, zero: T)
    requires Reachable(st, zero)
    ensures st.Shape()
    ensures st.beginPos != st.endPos ==>
              0 < st.End() <= |st.log| && st.Read(Idx(st.endPos - 1, Capacity(st.N, st.R))) == st.log[st.End() - 1]
  {
    SizeIsUnambiguous(st, zero);
    if st.beginPos != st.endPos {
      ReachableInv(st, zero);
      hide Idx, Times, Quotient, Capacity, Flags, Pools, Records;
      IdxMinusOne(st.End(), Capacity(st.N, st.R));
      ReadersSeeThePushedRecords(st, zero, st.End() - 1);
    }
  }

  /** Both casts in _swap succeed, the pool copied is full, and no swap starts without a filled slot. */
  lemma SwapFindsItsPools<T(!new)>(st: State<T>, zero: T)
    requires Reachable(st, zero)
    ensures st.Shape()
    ensures Started(st) <= st.filled
    ensures st.swapper == Copying ==>
              && st.root[st.nPool2Swap].kind == Mem && st.root[st.nPool2Swap].count == st.N
              && st.root[st.nPool2Swap2].kind == File
  {
    ReachableInv(st, zero);
    hide Times, Idx;
  }

  /** The producer only ever writes into a memory pool with room, which no swap is touching. */
  lemma ProducerWritesIntoMemory<T(!new)>(st: State<T>, zero: T)
    requires Reachable(st, zero) && st.producer == Ready
    ensures st.Shape()
    ensures st.root[st.currentPool].kind == Mem && st.root[st.currentPool].count < st.N
    ensures st.swapper in {Copying, Swapping} ==> st.currentPool != st.nPool2Swap && st.currentPool != st.nPool2Swap2
  {
    ReachableInv(st, zero);
    hide Times, Idx;
    IdxInjective(st.filled, st.swaps, st.R);
    IdxInjective(st.filled, st.swaps + st.M, st.R);
  }

  // ---------- progress ----------

  /** Steps the swapper has left before it returns a token. */
  function StepsToToken<T>(st: State<T>): nat {
    match st.swapper
    case Releasing => 1
    case Swapping => 2
    case Copying => 3
    case Starting => 4
    case SelfWaking => 5
    case Stopping => 6
    case Checking => 7
    case Sleeping => 8
  }

  /** While the producer waits without a token the swapper can step, and each step brings the
      token closer: no wake-up is lost even when several Resume calls coalesce. */
  lemma WaitingProducerIsServed<T>(st: State<T>)
    requires Inv(st) && st.producer == Waiting && st.tokens == 0
    ensures st.activate || st.swapper in {SelfWaking, Starting, Copying, Swapping, Releasing}
    ensures Enabled(st, SwapperStep) && StepsToToken(st) <= 8
    ensures var st' := Next(st, SwapperStep);
            && st'.producer == Waiting
            && (st'.tokens > 0 <==> st.swapper == Releasing)
            && 1 + (if st'.tokens > 0 then 0 else StepsToToken(st')) == StepsToToken(st)
  {
    hide Idx, Times, Positions, Pools, Records;
  }

  /** k steps of the swapper alone can be taken, and leave a token. */
  ghost predicate ServedWithin<T>(st: State<T>, k: nat) {
    var steps := seq<Step<T>>(k, i => SwapperStep);
    CanRun(st, steps) && After(st, steps).tokens > 0
  }

  lemma ServedNow<T>(st: State<T>)
    requires st.tokens > 0
    ensures ServedWithin(st, 0)
  {
  }

  lemma ServedLater<T>(st: State<T>, k: nat)
    requires Enabled(st, SwapperStep) && ServedWithin(Next(st, SwapperStep), k)
    ensures ServedWithin(st, k + 1)
  {
    hide Next, Enabled;
    assert seq<Step<T>>(k + 1, i => SwapperStep)[1..] == seq<Step<T>>(k, i => SwapperStep);
  }

  /** From any reachable state with a waiting producer, at most eight steps of the swapper alone
      let the producer go on. */
  lemma {:induction false} TokenWithinEightSteps<T>(st: State<T>) returns (k: nat)
    requires Inv(st) && st.producer == Waiting
    ensures k <= 8 && ServedWithin(st, k)
    ensures k == if st.tokens > 0 then 0 else StepsToToken(st)
    decreases if st.tokens > 0 then 0 else StepsToToken(st)
  {
    if st.tokens > 0 {
      k := 0;
      ServedNow(st);
    } else {
      WaitingProducerIsServed(st);
      StepKeepsInv(st, SwapperStep);
      hide Inv, Next, Enabled, ServedWithin, StepsToToken;
      var rest := TokenWithinEightSteps(Next(st, SwapperStep));
      k := rest + 1;
      ServedLater(st, rest);
    }
  }

  // ---------- coalescing really happens ----------

  lemma {:induction false} RunsCompose<T>(st: State<T>, a: seq<Step<T>>, b: seq<Step<T>>)
    requires CanRun(st, a) && CanRun(After(st, a), b)
    ensures CanRun(st, a + b) && After(st, a + b) == After(After(st, a), b)
    decreases |a|
  {
    hide Next;
    if a == [] {
      assert a + b == b;
    } else {
      RunsCompose(Next(st, a[0]), a[1..], b);
      assert (a + b)[1..] == a[1..] + b;
    }
  }

  /** Extends a run by one step. */
  lemma Extend<T>(st: State<T>, run: seq<Step<T>>, step: Step<T>) returns (more: seq<Step<T>>, st': State<T>)
    requires CanRun(st, run) && Inv(After(st, run)) && Enabled(After(st, run), step)
    ensures CanRun(st, more) && After(st, more) == st' == Next(After(st, run), step) && Inv(st')
  {
    hide Next, Inv;
    var last := After(st, run);
    StepKeepsInv(last, step);
    assert [step][1..] == [];
    RunsCompose(st, run, [step]);
    more, st' := run + [step], Next(last, step);
  }

  /** With one record to a pool, a push fills a slot, takes a token and raises the flag. */
  lemma PushFillsASlot(st: State<int>, run: seq<Step<int>>) returns (more: seq<Step<int>>, st': State<int>)
    requires CanRun(st, run)
    requires var s := After(st, run); Inv(s) && s.N == 1 && s.producer == Ready && s.tokens > 0
    ensures CanRun(st, more) && st' == After(st, more) && Inv(st')
    ensures var s := After(st, run);
            && st'.N == s.N && st'.R == s.R && st'.M == s.M
            && st'.producer == Ready && st'.activate && st'.filled == s.filled + 1 && st'.tokens == s.tokens - 1
            && st'.swapper == s.swapper && st'.swaps == s.swaps
  {
    hide Idx, Times, Pools, Records;
    more, st' := Extend(st, run, ProducerStep(7));
    assert st'.producer == Filled by {
      assert Positions(st');
    }
    more, st' := Extend(st, more, ProducerStep(7));
    more, st' := Extend(st, more, ProducerStep(7));
    more, st' := Extend(st, more, ProducerStep(7));
    more, st' := Extend(st, more, ProducerStep(7));
    more, st' := Extend(st, more, ProducerStep(7));
  }

  /** Left alone, the swapper answers a raised flag with one swap and goes to sleep. */
  lemma SweepThenSleep(st: State<int>, run: seq<Step<int>>) returns (more: seq<Step<int>>, st': State<int>)
    requires CanRun(st, run)
    requires var s := After(st, run); Inv(s) && s.swapper == Checking && s.activate
    ensures CanRun(st, more) && st' == After(st, more)
    ensures var s := After(st, run);
            && st'.N == s.N && st'.R == s.R && st'.M == s.M
            && st'.producer == s.producer && st'.filled == s.filled
            && st'.swapper == Sleeping && !st'.activate && !st'.wakeup && st'.swaps == s.swaps + 1
  {
    hide Idx, Times, Flags, Positions, Pools, Records, CanRun, After;
    more, st' := StartsCopying(st, run);
    more, st' := Extend(st, more, SwapperStep);
    more, st' := Extend(st, more, SwapperStep);
    more, st' := Extend(st, more, SwapperStep);
    more, st' := Extend(st, more, SwapperStep);
    more, st' := Extend(st, more, SwapperStep);
    more, st' := Extend(st, more, SwapperStep);
  }

  /** The first half of a sweep: the flag is cleared before the copying starts. */
  lemma StartsCopying(st: State<int>, run: seq<Step<int>>) returns (more: seq<Step<int>>, st': State<int>)
    requires CanRun(st, run)
    requires var s := After(st, run); Inv(s) && s.swapper == Checking && s.activate
    ensures CanRun(st, more) && st' == After(st, more) && Inv(st')
    ensures var s := After(st, run);
            && st'.N == s.N && st'.R == s.R && st'.M == s.M
            && st'.producer == s.producer && st'.filled == s.filled
            && st'.swapper == Copying && !st'.activate && st'.wakeup && st'.swaps == s.swaps
  {
    hide Idx, Times, Flags, Positions, Pools, Records, CanRun, After;
    more, st' := Extend(st, run, SwapperStep);
    more, st' := Extend(st, more, SwapperStep);
    more, st' := Extend(st, more, SwapperStep);
    more, st' := Extend(st, more, SwapperStep);
  }

  /** The lag is real: two slots fill before the swapper looks, both Resume calls raise the one
      flag, and the swapper goes to sleep with a filled slot not yet swapped. */
  lemma ResumesCoalesce()
    ensures exists st: State<int> ::
              && Reachable(st, 0)
              && st.swapper == Sleeping && !st.wakeup && !st.activate
              && st.producer == Ready && st.swaps < st.filled
  {
    hide CanRun, After, Inv;
    var st := Init<int>(1, 4, 3, 0);
    InitEstablishesInv<int>(1, 4, 3, 0);
    EmptyRun(st);
    var run, s := PushFillsASlot(st, []);
    run, s := PushFillsASlot(st, run);
    run, s := SweepThenSleep(st, run);
    assert ReachedBy(s, 0, run);
  }

  lemma EmptyRun<T>(st: State<T>)
    ensures CanRun(st, []) && After(st, []) == st
  {
  }
}

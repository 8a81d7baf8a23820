/** barrier as a protocol over its steps: arrivals, timed or not, notifications of all sleepers,
    spurious wake-ups and time-outs, in any interleaving. */
module Barrier {

  type Thread = nat

  datatype State = State(
    cnt: nat,               // arrivals asked for
    counter: nat,
    asleep: set<Thread>,
    woken: set<Thread>,
    expired: set<Thread>,
    timed: set<Thread>,
    arrivals: nat,          // history: calls of wait, wait_for and wait_until
    passed: set<Thread>,    // history: threads that got through
    refused: set<Thread>)   // history: timed threads that returned false

  datatype Step = Arrive(t: Thread, isTimed: bool) | Rerun(t: Thread) | Spurious(t: Thread) | Expire(t: Thread)

  ghost predicate Enabled(st: State, step: Step) {
    match step
    case Arrive(t, _) => t !in st.asleep && t !in st.woken
    case Rerun(t) => t in st.woken
    case Spurious(t) => t in st.asleep
    case Expire(t) => t in st.asleep && t in st.timed
  }

  ghost function Next(st: State, step: Step): State
    requires Enabled(st, step)
  {
    match step
    case Arrive(t, isTimed) =>
      var st1 := st.(arrivals := st.arrivals + 1);
      if st.counter == 0 then st1.(passed := st.passed + {t})
      else if st.counter == 1 then
        st1.(counter := 0, asleep := {}, woken := st.woken + st.asleep, passed := st.passed + {t})
      else
        st1.(counter := st.counter - 1, asleep := st.asleep + {t},
             timed := if isTimed then st.timed + {t} else st.timed - {t})
    case Rerun(t) =>
      var st1 := st.(woken := st.woken - {t}, expired := st.expired - {t});
      if st.counter == 0 then st1.(passed := st.passed + {t})
      else if t in st.expired then st1.(refused := st.refused + {t})
      else st1.(asleep := st.asleep + {t})
    case Spurious(t) => st.(asleep := st.asleep - {t}, woken := st.woken + {t})
    case Expire(t) => st.(asleep := st.asleep - {t}, woken := st.woken + {t}, expired := st.expired + {t})
  }

  function Init(cnt: nat): State {
    State(cnt, cnt, {}, {}, {}, {}, 0, {}, {})
  }

  ghost predicate CanRun(st: State, steps: seq<Step>)
    decreases |steps|
  {
    steps == [] || (Enabled(st, steps[0]) && CanRun(Next(st, steps[0]), steps[1..]))
  }

  ghost function After(st: State, steps: seq<Step>): State
    requires CanRun(st, steps)
    decreases |steps|
  {
    if steps == [] then st else After(Next(st, steps[0]), steps[1..])
  }

  /** The counter is what is still missing; nobody has passed before it reached zero, nobody sleeps
      once it has; only timed waits are refused. */
  ghost predicate Inv(st: State) {
    && st.counter == (if st.arrivals < st.cnt then st.cnt - st.arrivals else 0)
    && (st.passed != {} ==> st.counter == 0)
    && (st.counter == 0 ==> st.asleep == {})
    && st.expired <= st.woken
    && st.asleep !! st.woken
    && st.expired <= st.timed
  }

  lemma StepKeepsInv(st: State, step: Step)
    requires Inv(st) && Enabled(st, step)
    ensures Inv(Next(st, step))
    ensures st.counter == 0 ==> Next(st, step).counter == 0
    ensures Next(st, step).refused != st.refused ==> step.Rerun? && step.t in st.timed && st.counter > 0
  {
  }

  /** Threads inside a wait: asleep, or woken and not yet run. */
  ghost function Inside(st: State): set<Thread> {
    st.asleep + st.woken
  }

  /** No thread is lost: one enters only by an arrival that neither finds the barrier open nor opens
      it, and leaves only by running, through an open barrier or refused when its time is up. */
  lemma ThreadsAreConserved(st: State, step: Step)
    requires Inv(st) && Enabled(st, step)
    ensures var (st', t) := (Next(st, step), step.t);
            && Inside(st') == (if step.Arrive? && st.counter > 1 then Inside(st) + {t}
                               else if step.Rerun? && (st.counter == 0 || t in st.expired) then Inside(st) - {t}
                               else Inside(st))
            && st'.passed == (if (step.Arrive? && st.counter <= 1) || (step.Rerun? && st.counter == 0)
                              then st.passed + {t} else st.passed)
            && st'.refused == (if step.Rerun? && st.counter > 0 && t in st.expired
                               then st.refused + {t} else st.refused)
            && st'.expired == (if step.Expire? then st.expired + {t} else if step.Rerun? then st.expired - {t}
                               else st.expired)
            && (step.Arrive? && st.counter > 1 ==> (t in st'.timed <==> step.isTimed))
  {
  }

  /** Every thread that ever arrived is inside, has passed or was refused. */
  ghost function Arrived(steps: seq<Step>): set<Thread> {
    set i | 0 <= i < |steps| && steps[i].Arrive? :: steps[i].t
  }

  lemma {:induction false} EveryArrivalIsAccountedFor(st: State, steps: seq<Step>)
    requires Inv(st) && CanRun(st, steps)
    ensures var st' := After(st, steps);
            Inside(st') + st'.passed + st'.refused == Inside(st) + st.passed + st.refused + Arrived(steps)
    decreases |steps|
  {
    if steps == [] {
    } else {
      var step, tail := steps[0], steps[1..];
      StepKeepsInv(st, step);
      ThreadsAreConserved(st, step);
      EveryArrivalIsAccountedFor(Next(st, step), tail);
      assert Arrived(steps) == (if step.Arrive? then {step.t} else {}) + Arrived(tail) by {
        assert steps == [step] + tail;
        forall t | t in Arrived(tail)
          ensures t in Arrived(steps)
        {
          var i :| 0 <= i < |tail| && tail[i].Arrive? && tail[i].t == t;
          assert steps[i + 1].t == t;
        }
      }
      hide Next, Inv;
    }
  }

  lemma {:induction false} RunKeepsInv(st: State, steps: seq<Step>)
    requires Inv(st) && CanRun(st, steps)
    ensures Inv(After(st, steps))
    ensures st.counter == 0 ==> After(st, steps).counter == 0
    ensures After(st, steps).cnt == st.cnt
    decreases |steps|
  {
    if steps == [] {
    } else {
      StepKeepsInv(st, steps[0]);
      RunKeepsInv(Next(st, steps[0]), steps[1..]);
    }
  }

  /** In every run: nobody gets through before cnt arrivals (timed ones counted, even those that
      gave up); from then on the barrier is open for good and nobody is left asleep. */
  lemma BarrierOpensExactlyAtCount(cnt: nat, steps: seq<Step>, more: seq<Step>)
    requires CanRun(Init(cnt), steps) && CanRun(After(Init(cnt), steps), more)
    ensures var st := After(Init(cnt), steps);
            && (st.passed != {} ==> st.arrivals >= cnt)
            && (st.counter == 0 <==> st.arrivals >= cnt)
            && (st.counter == 0 ==> st.asleep == {} && After(st, more).counter == 0 && After(st, more).asleep == {})
  {
    RunKeepsInv(Init(cnt), steps);
    RunKeepsInv(After(Init(cnt), steps), more);
  }

  /** Once the barrier is open every thread inside gets through when it runs, and every newcomer
      does at once. */
  lemma OpenBarrierLetsEveryoneThrough(st: State, step: Step)
    requires Inv(st) && st.counter == 0 && Enabled(st, step)
    ensures step.Arrive? || step.Rerun?
    ensures step.t in Next(st, step).passed && step.t !in Next(st, step).asleep
    ensures step.Rerun? ==> Next(st, step).woken == st.woken - {step.t}
  {
  }

  // ---------- the object ----------

  /** Each method is the part of wait, wait_for or wait_until that runs under the mutex. */
  class Barrier {
    var counter: nat
    ghost var st: State

    ghost predicate Valid()
      reads this
    {
      counter == st.counter && Inv(st)
    }

    constructor (cnt: nat)
      ensures Valid() && st == Init(cnt)
    {
      counter := cnt;
      st := Init(cnt);
    }

    method ArriveLocked(t: Thread, isTimed: bool) returns (through: bool, notifyAll: bool)
      requires Valid() && Enabled(st, Arrive(t, isTimed))
      modifies this
      ensures Valid() && st == Next(old(st), Arrive(t, isTimed))
      ensures through <==> t !in st.asleep
      ensures notifyAll <==> old(st).counter == 1
      ensures through ==> st.arrivals >= st.cnt
      ensures counter == if old(counter) == 0 then 0 else old(counter) - 1
      ensures notifyAll ==> st.woken == old(st).woken + old(st).asleep && st.asleep == {}
    {
      StepKeepsInv(st, Arrive(t, isTimed));
      through, notifyAll := false, false;
      if counter == 0 {
        through := true;
      } else {
        counter := counter - 1;
        if counter == 0 {
          through, notifyAll := true, true;
        }
      }
      st := Next(st, Arrive(t, isTimed));
    }

    /** A woken thread tests the condition again; a timed wait whose time is up returns the test. */
    method RerunLocked(t: Thread) returns (through: bool)
      requires Valid() && Enabled(st, Rerun(t))
      modifies this
      ensures Valid() && st == Next(old(st), Rerun(t))
      ensures through <==> counter == 0
      ensures through ==> st.arrivals >= st.cnt
    {
      StepKeepsInv(st, Rerun(t));
      through := 0 == counter;
      st := Next(st, Rerun(t));
    }
  }
}

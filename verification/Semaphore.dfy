/** semaphore as a protocol over its steps: posts, waits that sleep on the condition variable,
    notifications, spurious wake-ups and time-outs, in any interleaving. Each step is what one
    thread does while it holds the mutex. */
module Semaphore {

  type Thread = nat

  /** std::numeric_limits<unsigned int>::max() */
  const MAX: nat := 0xFFFF_FFFF

  datatype State = State(
    counter: nat,
    asleep: set<Thread>,    // blocked on the condition variable, not notified
    woken: set<Thread>,     // left the condition variable, not yet run again
    expired: set<Thread>,   // woken because their time was up
    timed: set<Thread>,     // inside wait_for or wait_until
    posted: nat,            // history: tokens the posts really added
    taken: nat)             // history: waits that succeeded

  datatype Step =
    | Post(inc: nat, notified: Thread)
    | Enter(t: Thread, isTimed: bool)
    | Rerun(t: Thread)
    | Spurious(t: Thread)
    | Expire(t: Thread)

  function Added(counter: nat, inc: nat): nat
    requires counter <= MAX
  {
    if inc < MAX - counter then inc else MAX - counter
  }

  ghost predicate Enabled(st: State, step: Step) {
    && st.counter <= MAX
    && match step
       case Post(_, t) => st.asleep != {} ==> t in st.asleep
       case Enter(t, _) => t !in st.asleep && t !in st.woken
       case Rerun(t) => t in st.woken
       case Spurious(t) => t in st.asleep
       case Expire(t) => t in st.asleep && t in st.timed
  }

  ghost function Next(st: State, step: Step): State
    requires Enabled(st, step)
  {
    match step
    case Post(inc, t) =>
      var st1 := st.(counter := st.counter + Added(st.counter, inc), posted := st.posted + Added(st.counter, inc));
      if st.asleep == {} then st1 else st1.(asleep := st.asleep - {t}, woken := st.woken + {t})
    case Enter(t, isTimed) =>
      if st.counter > 0 then st.(counter := st.counter - 1, taken := st.taken + 1)
      else st.(asleep := st.asleep + {t}, timed := if isTimed then st.timed + {t} else st.timed - {t})
    case Rerun(t) =>
      var st1 := st.(woken := st.woken - {t}, expired := st.expired - {t});
      if st.counter > 0 then st1.(counter := st.counter - 1, taken := st.taken + 1)
      else if t in st.expired then st1                       // returns false
      else st1.(asleep := st.asleep + {t})
    case Spurious(t) => st.(asleep := st.asleep - {t}, woken := st.woken + {t})
    case Expire(t) => st.(asleep := st.asleep - {t}, woken := st.woken + {t}, expired := st.expired + {t})
  }

  function Init(cnt: nat): State {
    State(cnt, {}, {}, {}, {}, 0, 0)
  }

  ghost predicate CanRun(st: State, steps: seq<Step>)
    decreases |steps|
  {
    steps == [] || (Enabled(st, steps[0]) && CanRun(Next(st, steps[0]), steps[1..]))
  }

  ghost function After(st: State, steps: seq<Step>): State
    requires CanRun(st, steps)
    decreases |steps|
  {
    if steps == [] then st else After(Next(st, steps[0]), steps[1..])
  }

  /** Tokens are conserved and the counter stays in range, in every run. */
  lemma {:induction false} TokensAreConserved(st: State, steps: seq<Step>)
    requires st.counter <= MAX && CanRun(st, steps)
    ensures After(st, steps).counter <= MAX
    ensures After(st, steps).counter + After(st, steps).taken + st.posted
         == st.counter + st.taken + After(st, steps).posted
    decreases |steps|
  {
    if steps == [] {
    } else {
      TokensAreConserved(Next(st, steps[0]), steps[1..]);
    }
  }

  /** A post adds its increment up to MAX, and wakes one sleeper if there is any. */
  lemma PostAddsAndWakes(st: State, inc: nat, t: Thread)
    requires Enabled(st, Post(inc, t))
    ensures var st' := Next(st, Post(inc, t));
            && st'.counter == (if st.counter + inc <= MAX then st.counter + inc else MAX)
            && st'.posted - st.posted == st'.counter - st.counter && st'.taken == st.taken
            && st'.asleep == st.asleep - {t}
            && st'.woken == (if st.asleep == {} then st.woken else st.woken + {t})
  {
  }

  /** Threads inside a wait: asleep, or woken and not yet run. */
  ghost function Inside(st: State): set<Thread> {
    st.asleep + st.woken
  }

  /** No thread is lost: one enters only without a token, and leaves only by running, with a token
      or because its time is up. */
  lemma ThreadsAreConserved(st: State, step: Step)
    requires st.asleep !! st.woken && Enabled(st, step)
    ensures var st' := Next(st, step);
            && st'.asleep !! st'.woken
            && Inside(st') == (if step.Enter? && st.counter == 0 then Inside(st) + {step.t}
                               else if step.Rerun? && (st.counter > 0 || step.t in st.expired)
                               then Inside(st) - {step.t}
                               else Inside(st))
            && (step.Enter? && st.counter == 0 ==> (step.t in st'.timed <==> step.isTimed))
  {
  }

  /** A thread whose time is up and that has not run since. */
  ghost predicate TimeIsUp(st: State, t: Thread) {
    t in st.expired && t in st.woken && t !in st.asleep
  }

  /** Whatever the other threads do, a thread whose time is up leaves the wait when it next runs,
      and takes a token exactly when there is one. */
  lemma {:induction false} ExpiredWaitLeaves(st: State, t: Thread, steps: seq<Step>)
    requires TimeIsUp(st, t) && CanRun(st, steps) && Rerun(t) !in steps
    ensures var st1 := After(st, steps);
            && TimeIsUp(st1, t)
            && (st1.counter <= MAX ==>
                  var st2 := Next(st1, Rerun(t));
                  && t !in st2.asleep && t !in st2.woken && t !in st2.expired
                  && st2.taken == (if st1.counter > 0 then st1.taken + 1 else st1.taken))
    decreases |steps|
  {
    if steps == [] {
    } else {
      assert steps[0] in steps;
      ExpiredWaitLeaves(Next(st, steps[0]), t, steps[1..]);
    }
  }

  lemma ExpireMakesTimeUp(st: State, t: Thread)
    requires Enabled(st, Expire(t))
    ensures TimeIsUp(Next(st, Expire(t)), t)
  {
  }

  ghost predicate PostsAtMost(steps: seq<Step>, bound: nat) {
    forall i :: 0 <= i < |steps| && steps[i].Post? ==> steps[i].inc <= bound
  }

  /** No token strands a sleeper: while someone sleeps, every token is matched by a woken thread. */
  ghost predicate NoneStranded(st: State) {
    && st.asleep !! st.woken
    && (st.asleep != {} ==> st.counter <= |st.woken|)
  }

  lemma StepStrandsNone(st: State, step: Step)
    requires NoneStranded(st) && Enabled(st, step) && (step.Post? ==> step.inc <= 1)
    ensures NoneStranded(Next(st, step))
  {
    var st' := Next(st, step);
    match step
    case Post(inc, t) =>
      if st.asleep != {} {
        assert |st.woken + {t}| == |st.woken| + 1;
      }
    case Enter(t, _) =>
    case Rerun(t) =>
      assert st.woken == (st.woken - {t}) + {t};
      assert |st.woken - {t}| == |st.woken| - 1;
    case Spurious(t) =>
      assert |st.woken + {t}| == |st.woken| + 1;
    case Expire(t) =>
      assert |st.woken + {t}| == |st.woken| + 1;
  }

  lemma {:induction false} RunStrandsNone(st: State, steps: seq<Step>)
    requires NoneStranded(st) && CanRun(st, steps) && PostsAtMost(steps, 1)
    ensures NoneStranded(After(st, steps))
    decreases |steps|
  {
    if steps == [] {
    } else {
      assert steps[0].Post? ==> steps[0].inc <= 1;
      StepStrandsNone(st, steps[0]);
      forall i | 0 <= i < |steps[1..]| && steps[1..][i].Post?
        ensures steps[1..][i].inc <= 1
      {
        assert steps[i + 1].Post?;
      }
      RunStrandsNone(Next(st, steps[0]), steps[1..]);
    }
  }

  /** post(2) with two sleepers wakes one of them and leaves a token the other never sees. */
  lemma LargePostStrandsASleeper()
    ensures var steps := [Enter(0, false), Enter(1, false), Post(2, 0), Rerun(0)];
            CanRun(Init(0), steps) && After(Init(0), steps).asleep == {1}
            && After(Init(0), steps).counter == 1 && After(Init(0), steps).woken == {}
  {
    var s1 := Next(Init(0), Enter(0, false));
    var s2 := Next(s1, Enter(1, false));
    var s3 := Next(s2, Post(2, 0));
    var s4 := Next(s3, Rerun(0));
    assert s4.asleep == {1} && s4.woken == {};
    var steps := [Enter(0, false), Enter(1, false), Post(2, 0), Rerun(0)];
    assert steps[1..] == [Enter(1, false), Post(2, 0), Rerun(0)];
    assert steps[1..][1..] == [Post(2, 0), Rerun(0)];
    assert steps[1..][1..][1..] == [Rerun(0)];
    assert steps[1..][1..][1..][1..] == [];
    assert CanRun(s4, []);
    assert CanRun(s3, [Rerun(0)]) && After(s3, [Rerun(0)]) == s4;
    assert CanRun(s2, [Post(2, 0), Rerun(0)]) && After(s2, [Post(2, 0), Rerun(0)]) == s4;
    assert CanRun(s1, steps[1..]) && After(s1, steps[1..]) == s4;
  }

  ghost predicate SafeWithPostsUpTo(bound: nat) {
    forall cnt: nat, steps ::
      cnt <= MAX && PostsAtMost(steps, bound) && CanRun(Init(cnt), steps) ==> NoneStranded(After(Init(cnt), steps))
  }

  /** Sleepers are safe in every run exactly when no post adds more than one token. */
  lemma SafeExactlyForSinglePosts(bound: nat)
    ensures SafeWithPostsUpTo(bound) <==> bound <= 1
  {
    if bound <= 1 {
      forall cnt: nat, steps | cnt <= MAX && PostsAtMost(steps, bound) && CanRun(Init(cnt), steps)
        ensures NoneStranded(After(Init(cnt), steps))
      {
        assert PostsAtMost(steps, 1);
        RunStrandsNone(Init(cnt), steps);
      }
    } else {
      LargePostStrandsASleeper();
      var steps := [Enter(0, false), Enter(1, false), Post(2, 0), Rerun(0)];
      assert PostsAtMost(steps, bound);
      assert !NoneStranded(After(Init(0), steps));
    }
  }

  // ---------- the object ----------

  /** Each method is the part of post or wait that runs under the mutex. */
  class Semaphore {
    var counter: nat
    ghost var st: State

    ghost predicate Valid()
      reads this
    {
      counter == st.counter <= MAX
    }

    constructor (cnt: nat)
      requires cnt <= MAX
      ensures Valid() && st == Init(cnt)
    {
      counter := cnt;
      st := Init(cnt);
    }

    method PostLocked(inc: nat, ghost notified: Thread)
      requires Valid() && inc <= MAX && Enabled(st, Post(inc, notified))
      modifies this
      ensures Valid() && st == Next(old(st), Post(inc, notified))
      ensures counter == if old(counter) + inc <= MAX then old(counter) + inc else MAX
    {
      var allowed := MAX - counter;
      counter := counter + if inc < allowed then inc else allowed;
      st := Next(st, Post(inc, notified));
    }

    /** A thread calls wait, wait_for or wait_until: through at once, or to sleep. */
    method EnterLocked(t: Thread, isTimed: bool) returns (through: bool)
      requires Valid() && Enabled(st, Enter(t, isTimed))
      modifies this
      ensures Valid() && st == Next(old(st), Enter(t, isTimed))
      ensures through <==> st.taken == old(st).taken + 1
      ensures if through then old(counter) == counter + 1 else old(counter) == counter == 0 && t in st.asleep
    {
      through := 0 < counter;
      if through {
        counter := counter - 1;
      }
      st := Next(st, Enter(t, isTimed));
    }

    /** A woken thread tests the condition again. */
    method RerunLocked(t: Thread) returns (through: bool)
      requires Valid() && Enabled(st, Rerun(t))
      modifies this
      ensures Valid() && st == Next(old(st), Rerun(t))
      ensures through <==> st.taken == old(st).taken + 1
      ensures if through then old(counter) == counter + 1 else old(counter) == counter == 0
      ensures t !in st.woken && (!through ==> (t in st.asleep <==> t !in old(st).expired || t in old(st).asleep))
    {
      through := 0 < counter;
      if through {
        counter := counter - 1;
      }
      st := Next(st, Rerun(t));
    }
  }
}

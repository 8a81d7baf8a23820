/** cHandle: reference counting outside the counted object. Handles, counters and targets are heap
    objects; `delete` is recorded as one more deletion. The ghost World knows which handles exist
    and which counter belongs to which target. */
module Handle {

  class Target {
    var deletions: nat

    constructor ()
      ensures deletions == 0
    {
      deletions := 0;
    }
  }

  class HandleCounter {
    var nlinks: int
    var deletions: nat

    constructor (nStartCounter: int)
      ensures nlinks == nStartCounter && deletions == 0
    {
      nlinks, deletions := nStartCounter, 0;
    }
  }

  /** The handles of S bound to t. */
  ghost function Bound(S: set<Handle>, t: Target): set<Handle>
    reads S
  {
    set h | h in S && h.obj == t
  }

  class World {
    ghost var handles: set<Handle>
    ghost var counters: map<Target, HandleCounter>

    /** The counter of t is the number of handles bound to it; t and its counter have been deleted
        exactly once if that number is zero, and not at all otherwise. */
    ghost predicate Counted(t: Target)
      requires t in counters
      reads this, handles, t, counters[t]
    {
      var n := |Bound(handles, t)|;
      && counters[t].nlinks == n
      && t.deletions == counters[t].deletions == (if n == 0 then 1 else 0)
    }

    ghost predicate Linked(h: Handle)
      reads this, h
    {
      h.obj != null ==> h.obj in counters && h.hcounter == counters[h.obj]
    }

    ghost predicate Valid()
      reads this, handles, counters.Keys, counters.Values
    {
      && (forall h :: h in handles ==> Linked(h))
      && (forall t :: t in counters ==> Counted(t))
      && (forall t, u :: t in counters && u in counters && counters[t] == counters[u] ==> t == u)
    }

    /** Never bound before. */
    ghost predicate Fresh(t: Target)
      reads this, t
    {
      t !in counters && t.deletions == 0
    }

    ghost constructor ()
      ensures Valid() && handles == {} && counters == map[]
    {
      handles, counters := {}, map[];
    }
  }

  class Handle {
    var obj: Target?
    var hcounter: HandleCounter?

    constructor (ptr: Target?, ghost w: World)
      requires w.Valid() && (ptr != null ==> w.Fresh(ptr))
      modifies w, w.counters.Keys, w.counters.Values
      ensures w.Valid() && w.handles == old(w.handles) + {this}
      ensures obj == ptr
      ensures w.counters.Keys == old(w.counters).Keys + (if ptr == null then {} else {ptr})
    {
      obj, hcounter := null, null;
      new;
      Join(w);
      Bind(ptr, w);
    }

    constructor Copy(o: Handle, ghost w: World)
      requires w.Valid() && o in w.handles
      modifies w, w.counters.Keys, w.counters.Values
      ensures w.Valid() && w.handles == old(w.handles) + {this} && w.counters == old(w.counters)
      ensures obj == o.obj
    {
      obj, hcounter := null, null;
      new;
      Join(w);
      Assign(o, w);
    }

    /** The conversion operator: the counter is shared when the cast succeeds. */
    constructor Convert(o: Handle, castSucceeds: bool, ghost w: World)
      requires w.Valid() && o in w.handles
      modifies w, w.counters.Values
      ensures w.Valid() && w.handles == old(w.handles) + {this} && w.counters == old(w.counters)
      ensures obj == if castSucceeds then o.obj else null
    {
      obj := if castSucceeds then o.obj else null;
      hcounter := o.hcounter;
      new;
      if obj != null && hcounter != null {
        assert o in Bound(w.handles, o.obj);
        Take(obj, hcounter, w);
      } else {
        assert obj == null by {
          assert w.Linked(o);
        }
        hcounter := null;
        Join(w);
      }
    }

    /** An unbound handle counts for nothing. */
    ghost method Join(w: World)
      requires w.Valid() && this !in w.handles && obj == null
      modifies w
      ensures w.Valid() && w.handles == old(w.handles) + {this} && w.counters == old(w.counters)
    {
      w.handles := w.handles + {this};
      forall t | t in w.counters
        ensures w.Counted(t)
      {
        assert old(w.Counted(t));
        assert Bound(w.handles, t) == old(Bound(w.handles, t));
      }
    }

    /** What Valid says about the other handles, before anything changes. */
    lemma WithoutThis(w: World)
      requires w.Valid() && this in w.handles
      ensures w.Linked(this)
      ensures forall t :: t in w.counters ==>
                && w.Counted(t)
                && |Bound(w.handles - {this}, t)| == |Bound(w.handles, t)| - (if t == obj then 1 else 0)
    {
      forall t | t in w.counters
        ensures w.Counted(t)
        ensures |Bound(w.handles - {this}, t)| == |Bound(w.handles, t)| - (if t == obj then 1 else 0)
      {
        assert Bound(w.handles - {this}, t) == Bound(w.handles, t) - {this};
        assert t == obj ==> this in Bound(w.handles, t);
      }
    }

    /** The handle lets go: it is no longer counted. Its fields are overwritten by the callers. */
    method Unbind(ghost w: World)
      requires w.Valid() && this in w.handles
      modifies this, w, w.counters.Keys, w.counters.Values
      ensures w.Valid() && w.handles == old(w.handles) - {this} && w.counters == old(w.counters)
      ensures forall t :: t in w.counters && t != old(obj) ==> t.deletions == old(t.deletions)
    {
      WithoutThis(w);
      ghost var rest := w.handles - {this};
      if obj != null {
        hcounter.nlinks := hcounter.nlinks - 1;
        if hcounter.nlinks == 0 {
          hcounter.deletions := hcounter.deletions + 1;
          hcounter := null;
          obj.deletions := obj.deletions + 1;
          obj := null;
        }
      }
      w.handles := rest;
    }

    lemma NotYet(w: World)
      requires w.Valid() && this !in w.handles
      ensures forall t :: t in w.counters ==> w.Counted(t)
    {
    }

    lemma WithThis(w: World, others: set<Handle>)
      requires this !in others && w.handles == others + {this}
      ensures forall t: Target :: |Bound(w.handles, t)| == |Bound(others, t)| + (if t == obj then 1 else 0)
    {
      forall t: Target
        ensures |Bound(w.handles, t)| == |Bound(others, t)| + (if t == obj then 1 else 0)
      {
        assert Bound(w.handles, t) == Bound(others, t) + (if t == obj then {this} else {});
      }
    }

    /** assign (objectptr, hcounterptr), for a handle that is not counted. */
    method Take(objectptr: Target?, hcounterptr: HandleCounter?, ghost w: World)
      requires w.Valid() && this !in w.handles
      requires objectptr != null ==>
                 objectptr in w.counters && hcounterptr == w.counters[objectptr] && Bound(w.handles, objectptr) != {}
      modifies this, w, w.counters.Values
      ensures w.Valid() && w.handles == old(w.handles) + {this} && w.counters == old(w.counters)
      ensures obj == objectptr
    {
      NotYet(w);
      obj := objectptr;
      ghost var others := w.handles;
      w.handles := w.handles + {this};
      if obj != null {
        hcounter := hcounterptr;
        hcounter.nlinks := hcounter.nlinks + 1;
      }
      WithThis(w, others);
    }

    method Assign(o: Handle, ghost w: World)
      requires w.Valid() && this in w.handles && o in w.handles
      modifies this, w, w.counters.Keys, w.counters.Values
      ensures w.Valid() && w.handles == old(w.handles) && w.counters == old(w.counters)
      ensures obj == old(o.obj)
    {
      if obj != o.obj {
        assert w.Linked(o);
        Unbind(w);
        assert o.obj != null ==> o in Bound(w.handles, o.obj);
        Take(o.obj, o.hcounter, w);
      }
    }

    /** A handle with a new counter is the first one bound to its target. */
    ghost method Found(w: World)
      requires w.Valid() && this !in w.handles && obj != null && w.Fresh(obj)
      requires hcounter != null && hcounter !in w.counters.Values && hcounter.nlinks == 1 && hcounter.deletions == 0
      modifies w
      ensures w.Valid() && w.handles == old(w.handles) + {this} && w.counters == old(w.counters)[obj := hcounter]
    {
      w.handles := w.handles + {this};
      w.counters := w.counters[obj := hcounter];
      assert Bound(w.handles, obj) == {this} by {
        forall h | h in old(w.handles)
          ensures h.obj != obj
        {
          assert old(w.Linked(h));
        }
      }
      forall t | t in w.counters
        ensures w.Counted(t)
      {
        if t != obj {
          assert old(w.Counted(t));
          assert Bound(w.handles, t) == old(Bound(w.handles, t));
        }
      }
      forall h | h in w.handles
        ensures w.Linked(h)
      {
        assert h != this ==> old(w.Linked(h));
      }
    }

    /** Second half of bind, for a handle that is not counted. */
    method Renew(ptr: Target?, ghost w: World)
      requires w.Valid() && this !in w.handles
      requires ptr != null ==> w.Fresh(ptr)
      modifies this, w
      ensures w.Valid() && w.handles == old(w.handles) + {this} && obj == ptr
      ensures if ptr == null then w.counters == old(w.counters)
              else hcounter != null && w.counters == old(w.counters)[ptr := hcounter]
    {
      obj := ptr;
      if obj == null {
        Join(w);
      } else {
        hcounter := new HandleCounter(1);
        Found(w);
      }
    }

    method Bind(ptr: Target?, ghost w: World)
      requires w.Valid() && this in w.handles
      requires ptr != null && ptr != obj ==> w.Fresh(ptr)
      modifies this, w, w.counters.Keys, w.counters.Values
      ensures w.Valid() && w.handles == old(w.handles)
      ensures obj == ptr
      ensures w.counters.Keys == old(w.counters).Keys + (if ptr == null then {} else {ptr})
      ensures forall t :: t in old(w.counters) ==> w.counters[t] == old(w.counters)[t]
    {
      if obj != ptr {
        Unbind(w);
        Renew(ptr, w);
      }
    }

    /** The destructor. */
    method Destroy(ghost w: World)
      requires w.Valid() && this in w.handles
      modifies this, w, w.counters.Keys, w.counters.Values
      ensures w.Valid() && w.handles == old(w.handles) - {this} && w.counters == old(w.counters)
    {
      Unbind(w);
    }
  }
}

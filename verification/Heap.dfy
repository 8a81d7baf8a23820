/** heap<Type, Comp>: a binary heap in a vector, ordered by a strict weak order. */
module Heap {

  ghost predicate StrictWeakOrder<T(!new)>(lt: (T, T) -> bool) {
    && (forall x :: !lt(x, x))
    && (forall x, y, z :: lt(x, y) && lt(y, z) ==> lt(x, z))
    && (forall x, y, z :: lt(x, z) ==> lt(x, y) || lt(y, z))
  }

  /** _ancestor_index */
  function Ancestor(k: nat): nat {
    if k == 0 then 0
    else if k % 2 == 1 then k / 2
    else (k - 1) / 2
  }

  /** _descendant_index: the left child. */
  function Descendant(k: nat): nat {
    2 * k + 1
  }

  lemma Family(j: nat, k: nat)
    ensures Ancestor(j) == k && j > 0 <==> j == Descendant(k) || j == Descendant(k) + 1
    ensures j > 0 ==> Ancestor(j) < j
  {
  }

  /** The tree is laid out level by level. */
  lemma LevelByLevel(k: nat)
    ensures Descendant(k) == 2 * k + 1 && Ancestor(2 * k + 1) == k == Ancestor(2 * k + 2) && Ancestor(0) == 0
  {
  }

  /** Entry j of the first n is not below its ancestor. */
  ghost predicate InOrder<T>(lt: (T, T) -> bool, s: seq<T>, j: nat)
    requires j < |s|
  {
    Family(j, Ancestor(j));
    j > 0 ==> !lt(s[j], s[Ancestor(j)])
  }

  ghost predicate HeapOrder<T>(lt: (T, T) -> bool, s: seq<T>, n: nat)
    requires n <= |s|
  {
    forall j :: 0 <= j < n ==> InOrder(lt, s, j)
  }

  /** Heap order everywhere but between `node` and its neighbours: in the upward direction only
      when `below` holds; the neighbours are in order among themselves. */
  ghost predicate AlmostHeap<T>(lt: (T, T) -> bool, s: seq<T>, n: nat, node: nat, above: bool, below: bool)
    requires node < n <= |s|
  {
    && (forall j :: 0 <= j < n && (j != node || above) && (Ancestor(j) != node || j == 0 || below) ==>
          InOrder(lt, s, j))
    && (forall j :: 0 < j < n && Ancestor(j) == node && node > 0 ==>
          (Family(node, Ancestor(node)); !lt(s[j], s[Ancestor(node)])))
  }

  function Swap<T>(s: seq<T>, i: nat, j: nat): (r: seq<T>)
    requires i < |s| && j < |s|
    ensures |r| == |s|
  {
    s[i := s[j]][j := s[i]]
  }

  lemma SwapKeepsTail<T>(s: seq<T>, i: nat, j: nat, n: nat)
    requires i < n <= |s| && j < n
    ensures |Swap(s, i, j)| == |s| && Swap(s, i, j)[n..] == s[n..]
  {
  }

  lemma SwapWithLast<T>(s: seq<T>, i: nat)
    requires i < |s|
    ensures |Swap(s, i, |s| - 1)| == |s| && Swap(s, i, |s| - 1)[|s| - 1..] == [s[i]]
  {
  }

  lemma SwapKeepsElements<T>(s: seq<T>, i: nat, j: nat)
    requires i < |s| && j < |s|
    ensures multiset(Swap(s, i, j)) == multiset(s)
  {
  }

  /** The first entry of a heap is a least one. */
  lemma {:induction false} RootIsLeast<T(!new)>(lt: (T, T) -> bool, s: seq<T>, n: nat, k: nat)
    requires StrictWeakOrder(lt) && n <= |s| && HeapOrder(lt, s, n) && k < n
    ensures !lt(s[k], s[0])
  {
    if k == 0 {
    } else {
      Family(k, Ancestor(k));
      assert InOrder(lt, s, k);
      RootIsLeast(lt, s, n, Ancestor(k));
    }
  }

  // ---------- steps of the two loops ----------

  lemma RiseKeepsAlmostHeap<T(!new)>(lt: (T, T) -> bool, s: seq<T>, n: nat, node: nat, below: bool)
    requires StrictWeakOrder(lt) && 0 < node < n <= |s| && Ancestor(node) < node
    requires AlmostHeap(lt, s, n, node, false, below) && lt(s[node], s[Ancestor(node)])
    ensures AlmostHeap(lt, Swap(s, node, Ancestor(node)), n, Ancestor(node), false, true)
  {
    var a := Ancestor(node);
    var r := Swap(s, node, a);
    Family(a, Ancestor(a));
    forall j | 0 <= j < n && j != a
      ensures InOrder(lt, r, j)
    {
      Family(j, Ancestor(j));
      if j == node {
      } else if Ancestor(j) == node {
        assert !lt(s[j], s[a]);
      } else {
        assert InOrder(lt, s, j);
      }
    }
    forall j | 0 < j < n && Ancestor(j) == a && a > 0
      ensures !lt(r[j], r[Ancestor(a)])
    {
      assert InOrder(lt, s, a) && InOrder(lt, s, a);
      if j != node {
        assert InOrder(lt, s, j);
      }
    }
  }

  lemma LesserChild<T(!new)>(lt: (T, T) -> bool, s: seq<T>, n: nat, node: nat)
    requires StrictWeakOrder(lt) && Descendant(node) < n <= |s|
    ensures var left := Descendant(node);
            var child := if left + 1 < n && lt(s[left + 1], s[left]) then left + 1 else left;
            && Ancestor(child) == node < child < n
            && forall j :: 0 < j < n && Ancestor(j) == node ==> !lt(s[j], s[child])
  {
    Family(Descendant(node), node);
    Family(Descendant(node) + 1, node);
    forall j: nat | 0 < j < n && Ancestor(j) == node
      ensures j == Descendant(node) || j == Descendant(node) + 1
    {
      Family(j, node);
    }
  }

  lemma SinkKeepsAlmostHeap<T(!new)>(lt: (T, T) -> bool, s: seq<T>, n: nat, node: nat, child: nat)
    requires StrictWeakOrder(lt) && node < child < n <= |s| && Ancestor(child) == node
    requires AlmostHeap(lt, s, n, node, true, false) && lt(s[child], s[node])
    requires forall j :: 0 < j < n && Ancestor(j) == node ==> !lt(s[j], s[child])
    ensures AlmostHeap(lt, Swap(s, node, child), n, child, true, false)
  {
    var r := Swap(s, node, child);
    forall j | 0 <= j < n && (Ancestor(j) != child || j == 0)
      ensures InOrder(lt, r, j)
    {
      Family(j, Ancestor(j));
      if Ancestor(j) != node && j != node {
        assert InOrder(lt, s, j);
      }
    }
    forall j | 0 < j < n && Ancestor(j) == child
      ensures !lt(r[j], r[node])
    {
      Family(j, child);
      assert InOrder(lt, s, j);
    }
  }

  lemma StopSinking<T(!new)>(lt: (T, T) -> bool, s: seq<T>, n: nat, node: nat, child: nat)
    requires StrictWeakOrder(lt) && node < child < n <= |s| && Ancestor(child) == node
    requires AlmostHeap(lt, s, n, node, true, false) && !lt(s[child], s[node])
    requires forall j :: 0 < j < n && Ancestor(j) == node ==> !lt(s[j], s[child])
    ensures HeapOrder(lt, s, n)
  {
    forall j | 0 <= j < n
      ensures InOrder(lt, s, j)
    {
      Family(j, Ancestor(j));
    }
  }

  lemma NoChildren<T>(lt: (T, T) -> bool, s: seq<T>, n: nat, node: nat)
    requires node < n <= |s| && Descendant(node) >= n
    requires AlmostHeap(lt, s, n, node, true, false)
    ensures HeapOrder(lt, s, n)
  {
    forall j | 0 <= j < n
      ensures InOrder(lt, s, j)
    {
      Family(j, node);
    }
  }

  // ---------- setting the loops up ----------

  lemma NewLeaf<T>(lt: (T, T) -> bool, s: seq<T>, val: T)
    requires HeapOrder(lt, s, |s|)
    ensures AlmostHeap(lt, s + [val], |s| + 1, |s|, false, false)
  {
    var r := s + [val];
    forall j | 0 <= j < |r| && j != |s|
      ensures InOrder(lt, r, j)
    {
      Family(j, Ancestor(j));
      assert InOrder(lt, s, j);
    }
    forall j | 0 < j < |r|
      ensures Ancestor(j) != |s|
    {
      Family(j, |s|);
    }
  }

  /** Swapping an entry with the last one disturbs only its own neighbourhood. */
  lemma ReplaceByLast<T(!new)>(lt: (T, T) -> bool, s: seq<T>, i: nat)
    requires StrictWeakOrder(lt) && i < |s| - 1 && HeapOrder(lt, s, |s|)
    ensures AlmostHeap(lt, Swap(s, i, |s| - 1), |s| - 1, i, false, false)
  {
    var n := |s| - 1;
    var r := Swap(s, i, n);
    forall j | 0 <= j < n && j != i && (Ancestor(j) != i || j == 0)
      ensures InOrder(lt, r, j)
    {
      Family(j, Ancestor(j));
      assert InOrder(lt, s, j);
    }
    forall j | 0 < j < n && Ancestor(j) == i && i > 0
      ensures Ancestor(i) < n && !lt(r[j], r[Ancestor(i)])
    {
      Family(j, i);
      Family(i, Ancestor(i));
      assert InOrder(lt, s, j) && InOrder(lt, s, i);
    }
  }

  lemma RootHasNoAncestor<T>(lt: (T, T) -> bool, s: seq<T>, n: nat)
    requires 0 < n <= |s| && AlmostHeap(lt, s, n, 0, false, false)
    ensures AlmostHeap(lt, s, n, 0, true, false)
  {
    assert InOrder(lt, s, 0);
  }

  lemma SettledIsAlmostHeap<T(!new)>(lt: (T, T) -> bool, s: seq<T>, n: nat, i: nat)
    requires StrictWeakOrder(lt) && i < n <= |s| && HeapOrder(lt, s, n)
    ensures AlmostHeap(lt, s, n, i, true, false)
  {
    forall j | 0 < j < n && Ancestor(j) == i && i > 0
      ensures Ancestor(i) < n && !lt(s[j], s[Ancestor(i)])
    {
      Family(j, i);
      Family(i, Ancestor(i));
      assert InOrder(lt, s, j) && InOrder(lt, s, i);
    }
  }

  lemma PrefixHeap<T>(lt: (T, T) -> bool, s: seq<T>, n: nat)
    requires n <= |s| && (HeapOrder(lt, s, n) || HeapOrder(lt, s, |s|))
    ensures HeapOrder(lt, s[..n], n)
  {
    forall j | 0 <= j < n
      ensures InOrder(lt, s[..n], j)
    {
      Family(j, Ancestor(j));
      assert InOrder(lt, s, j);
    }
  }

  // ---------- the heap ----------

  class Heap<T(!new)> {
    const lt: (T, T) -> bool
    var data: seq<T>

    ghost predicate Valid()
      reads this
    {
      StrictWeakOrder(lt) && HeapOrder(lt, data, |data|)
    }

    constructor (lt: (T, T) -> bool)
      requires StrictWeakOrder(lt)
      ensures Valid() && this.lt == lt && data == []
    {
      this.lt := lt;
      data := [];
    }

    /** _bubleup_heap: the entry at `start` rises until its ancestor is not above it. */
    method BubbleUp(start: nat, ghost n: nat) returns (node: nat)
      requires StrictWeakOrder(lt) && start < n <= |data|
      requires AlmostHeap(lt, data, n, start, false, false)
      modifies this
      ensures |data| == |old(data)| && data[n..] == old(data)[n..]
      ensures multiset(data) == multiset(old(data))
      ensures node <= start && data[node] == old(data)[start]
      ensures if node == start then data == old(data) && AlmostHeap(lt, data, n, start, true, false)
              else HeapOrder(lt, data, n)
    {
      node := start;
      var ancestor := Ancestor(node);
      while ancestor < node && lt(data[node], data[ancestor])
        invariant ancestor == Ancestor(node) && node <= start
        invariant |data| == |old(data)| && data[n..] == old(data)[n..]
        invariant multiset(data) == multiset(old(data))
        invariant data[node] == old(data)[start]
        invariant node == start ==> data == old(data)
        invariant AlmostHeap(lt, data, n, node, false, node != start)
        decreases node
      {
        RiseKeepsAlmostHeap(lt, data, n, node, node != start);
        SwapKeepsElements(data, node, ancestor);
        data := Swap(data, node, ancestor);
        node := ancestor;
        ancestor := Ancestor(node);
      }
      Family(node, ancestor);
    }

    /** _bubledown_heap: the entry at `start` sinks below its lesser children. */
    method BubbleDown(start: nat, n: nat)
      requires StrictWeakOrder(lt) && start < n <= |data|
      requires AlmostHeap(lt, data, n, start, true, false)
      modifies this
      ensures |data| == |old(data)| && data[n..] == old(data)[n..]
      ensures multiset(data) == multiset(old(data))
      ensures HeapOrder(lt, data, n)
    {
      hide StrictWeakOrder, AlmostHeap, HeapOrder, Swap, Ancestor;
      var node := start;
      var child := Descendant(node);
      while child < n
        invariant child == Descendant(node) && node < n
        invariant |data| == |old(data)| && data[n..] == old(data)[n..]
        invariant multiset(data) == multiset(old(data))
        invariant AlmostHeap(lt, data, n, node, true, false)
        decreases n - node
      {
        LesserChild(lt, data, n, node);
        if child + 1 < n && lt(data[child + 1], data[child]) {
          child := child + 1;
        }
        if lt(data[child], data[node]) {
          SinkKeepsAlmostHeap(lt, data, n, node, child);
          SwapKeepsElements(data, node, child);
          SwapKeepsTail(data, node, child, n);
          data := Swap(data, node, child);
          node := child;
          child := Descendant(node);
        } else {
          StopSinking(lt, data, n, node, child);
          return;
        }
      }
      NoChildren(lt, data, n, node);
    }

    method Insert(val: T) returns (i: nat)
      requires Valid()
      modifies this
      ensures Valid()
      ensures i < |data| && data[i] == val
      ensures multiset(data) == multiset(old(data)) + multiset{val}
    {
      data := data + [val];
      NewLeaf(lt, old(data), val);
      i := BubbleUp(|data| - 1, |data|);
      if i == |data| - 1 {
        NoChildren(lt, data, |data|, i);
      }
    }

    /** Removes the entry at i; an index out of range removes the last entry. */
    method Remove(i: nat)
      requires Valid() && data != []
      modifies this
      ensures Valid()
      ensures var e := if i < |old(data)| then old(data)[i] else old(data)[|old(data)| - 1];
              multiset(old(data)) == multiset(data) + multiset{e}
    {
      hide StrictWeakOrder, AlmostHeap, HeapOrder, Swap, Ancestor;
      ghost var whole := data;
      var n := |data| - 1;
      if i < |data| && i != n {
        ReplaceByLast(lt, data, i);
        SwapKeepsElements(data, i, n);
        SwapWithLast(data, i);
        data := Swap(data, i, n);
        var node := BubbleUp(i, n);
        if node != i {
          SettledIsAlmostHeap(lt, data, n, i);
        }
        BubbleDown(i, n);
        assert data[n..][0] == whole[i];
      }
      assert data == data[..n] + [data[n]];
      PrefixHeap(lt, data, n);
      data := data[..n];
    }

    method Peek() returns (r: T)
      requires Valid() && data != []
      ensures r == data[0]
      ensures forall x :: x in data ==> !lt(x, r)
    {
      r := data[0];
      forall k: nat | k < |data|
        ensures !lt(data[k], r)
      {
        RootIsLeast(lt, data, |data|, k);
      }
    }

    method Get() returns (r: T)
      requires Valid() && data != []
      modifies this
      ensures Valid()
      ensures GetStep(lt, old(data), data, r)
    {
      hide HeapOrder, AlmostHeap, StrictWeakOrder;
      r := Peek();
      ghost var whole := data;
      var n := |data| - 1;
      if 1 < |data| {
        ReplaceByLast(lt, data, 0);
        SwapKeepsElements(data, 0, n);
        data := Swap(data, 0, n);
        RootHasNoAncestor(lt, data, n);
        BubbleDown(0, n);
        assert data[n..][0] == whole[0];
      }
      assert data == data[..n] + [data[n]];
      PrefixHeap(lt, data, n);
      data := data[..n];
    }
  }

  // ---------- draining ----------

  /** What get promises: a least entry goes, the others stay. */
  ghost predicate GetStep<T>(lt: (T, T) -> bool, before: seq<T>, after: seq<T>, r: T) {
    && multiset(before) == multiset(after) + multiset{r}
    && forall x :: x in before ==> !lt(x, r)
  }

  lemma LeastInFront<T>(lt: (T, T) -> bool, before: seq<T>, after: seq<T>, out: seq<T>)
    requires out != [] && GetStep(lt, before, after, out[0]) && multiset(out[1..]) == multiset(after)
    requires forall i, j :: 0 <= i < j < |out[1..]| ==> !lt(out[1..][j], out[1..][i])
    ensures multiset(out) == multiset(before)
    ensures forall i, j :: 0 <= i < j < |out| ==> !lt(out[j], out[i])
  {
    var tail := out[1..];
    assert out == [out[0]] + tail;
    forall i, j | 0 <= i < j < |out|
      ensures !lt(out[j], out[i])
    {
      assert out[j] == tail[j - 1];
      if i == 0 {
        assert tail[j - 1] in multiset(tail);
        assert out[j] in multiset(before);
      } else {
        assert out[i] == tail[i - 1];
      }
    }
  }

  /** Repeated get drains a heap into a sorted permutation of its entries. */
  lemma {:induction false} DrainSorts<T(!new)>(lt: (T, T) -> bool, states: seq<seq<T>>, out: seq<T>)
    requires |states| == |out| + 1 && states[|out|] == []
    requires forall k :: 0 <= k < |out| ==> GetStep(lt, states[k], states[k + 1], out[k])
    ensures multiset(out) == multiset(states[0])
    ensures forall i, j :: 0 <= i < j < |out| ==> !lt(out[j], out[i])
  {
    if out == [] {
    } else {
      forall k | 0 <= k < |out| - 1
        ensures GetStep(lt, states[1..][k], states[1..][k + 1], out[1..][k])
      {
        assert GetStep(lt, states[k + 1], states[k + 2], out[k + 1]);
      }
      DrainSorts(lt, states[1..], out[1..]);
      assert GetStep(lt, states[0], states[1], out[0]);
      LeastInFront(lt, states[0], states[1], out);
    }
  }
}

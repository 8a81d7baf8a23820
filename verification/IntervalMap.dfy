/** interval_map<K, V>: a sorted list of entries stands for a total function K -> V; each entry
    gives the value from its key up to the next key. Keys offer only a strict order `lt` with a
    least element. std::map is a sequence sorted by key; an iterator is an index into it. */
module IntervalMap {

  datatype Entry<K, V> = Entry(key: K, value: V)

  // ---------- the order of keys ----------

  ghost predicate Ordered<K(!new)>(lt: (K, K) -> bool, least: K) {
    && (forall x :: !lt(x, x))
    && (forall x, y, z :: lt(x, y) && lt(y, z) ==> lt(x, z))
    && (forall x, y :: x == y || lt(x, y) || lt(y, x))
    && (forall x :: !lt(x, least))
  }

  ghost predicate Sorted<K, V>(lt: (K, K) -> bool, e: seq<Entry<K, V>>) {
    forall i, j :: 0 <= i < j < |e| ==> lt(e[i].key, e[j].key)
  }

  /** A representation covers every key: it starts at the least one. */
  ghost predicate Represents<K, V>(lt: (K, K) -> bool, least: K, e: seq<Entry<K, V>>) {
    |e| > 0 && e[0].key == least && Sorted(lt, e)
  }

  ghost predicate Canonical<K, V>(e: seq<Entry<K, V>>) {
    forall i :: 0 <= i < |e| - 1 ==> e[i].value != e[i + 1].value
  }

  /** std::map::lower_bound: the first entry whose key is not below k. */
  function LowerBound<K, V>(lt: (K, K) -> bool, e: seq<Entry<K, V>>, k: K): (n: nat)
    ensures n <= |e|
  {
    if e == [] then 0
    else if lt(e[|e| - 1].key, k) then |e|
    else LowerBound(lt, e[..|e| - 1], k)
  }

  /** std::map::upper_bound: the first entry whose key is above k. */
  function UpperBound<K, V>(lt: (K, K) -> bool, e: seq<Entry<K, V>>, k: K): (n: nat)
    ensures n <= |e|
  {
    if e == [] then 0
    else if !lt(k, e[|e| - 1].key) then |e|
    else UpperBound(lt, e[..|e| - 1], k)
  }

  lemma {:induction false} LowerBoundSplits<K(!new), V>(lt: (K, K) -> bool, least: K, e: seq<Entry<K, V>>, k: K)
    requires Ordered(lt, least) && Sorted(lt, e)
    ensures forall i :: 0 <= i < LowerBound(lt, e, k) ==> lt(e[i].key, k)
    ensures forall i :: LowerBound(lt, e, k) <= i < |e| ==> !lt(e[i].key, k)
  {
    if e == [] || lt(e[|e| - 1].key, k) {
    } else {
      LowerBoundSplits(lt, least, e[..|e| - 1], k);
    }
  }

  lemma {:induction false} UpperBoundSplits<K(!new), V>(lt: (K, K) -> bool, least: K, e: seq<Entry<K, V>>, k: K)
    requires Ordered(lt, least) && Sorted(lt, e)
    ensures forall i :: 0 <= i < UpperBound(lt, e, k) ==> !lt(k, e[i].key)
    ensures forall i :: UpperBound(lt, e, k) <= i < |e| ==> lt(k, e[i].key)
    ensures Represents(lt, least, e) ==> UpperBound(lt, e, k) > 0
  {
    if e == [] || !lt(k, e[|e| - 1].key) {
    } else {
      UpperBoundSplits(lt, least, e[..|e| - 1], k);
    }
  }

  lemma LowerBoundIs<K(!new), V>(lt: (K, K) -> bool, least: K, e: seq<Entry<K, V>>, k: K, n: nat)
    requires Ordered(lt, least) && Sorted(lt, e)
    requires n <= |e| && (n > 0 ==> lt(e[n - 1].key, k)) && (n < |e| ==> !lt(e[n].key, k))
    ensures LowerBound(lt, e, k) == n
  {
    LowerBoundSplits(lt, least, e, k);
  }

  /** operator[]: the value of the last entry not above k. */
  ghost function Lookup<K(!new), V>(lt: (K, K) -> bool, least: K, e: seq<Entry<K, V>>, k: K): V
    requires Ordered(lt, least) && Represents(lt, least, e)
  {
    UpperBoundSplits(lt, least, e, k);
    e[UpperBound(lt, e, k) - 1].value
  }

  /** The entry a lookup uses is the one whose interval contains k. */
  lemma LookupInInterval<K(!new), V>(lt: (K, K) -> bool, least: K, e: seq<Entry<K, V>>, k: K, i: nat)
    requires Ordered(lt, least) && Represents(lt, least, e)
    requires i < |e| && !lt(k, e[i].key) && (i + 1 < |e| ==> lt(k, e[i + 1].key))
    ensures Lookup(lt, least, e, k) == e[i].value
  {
    UpperBoundSplits(lt, least, e, k);
  }

  // ---------- assign, as an operation on representations ----------

  /** The result of assigning v to [begin, end): the entries below begin, at most one entry for v,
      at most one entry resuming the old value at end, and the entries above end. */
  ghost function Assigned<K(!new), V>(
    lt: (K, K) -> bool, least: K, e: seq<Entry<K, V>>, begin: K, end: K, v: V): seq<Entry<K, V>>
    requires Ordered(lt, least) && Represents(lt, least, e)
  {
    if !lt(begin, end) then e
    else
      var a := LowerBound(lt, e, begin);
      var after := Lookup(lt, least, e, end);
      Pieces(e[..a], Entry(begin, v), Entry(end, after), e[UpperBound(lt, e, end)..],
             a > 0 && e[a - 1].value == v, after == v)
  }

  ghost function Pieces<T>(h: seq<T>, x: T, y: T, t: seq<T>, dropX: bool, dropY: bool): seq<T> {
    h + (if dropX then [] else [x]) + (if dropY then [] else [y]) + t
  }

  /** Function update on an interval. */
  ghost function Updated<K, V>(lt: (K, K) -> bool, f: K -> V, begin: K, end: K, v: V): K -> V {
    k => if !lt(k, begin) && lt(k, end) then v else f(k)
  }

  /** What a representation means. */
  ghost predicate Denotes<K(!new), V>(lt: (K, K) -> bool, least: K, e: seq<Entry<K, V>>, f: K -> V)
    requires Ordered(lt, least) && Represents(lt, least, e)
  {
    forall k :: Lookup(lt, least, e, k) == f(k)
  }

  ghost predicate SameFunction<K(!new), V>(
    lt: (K, K) -> bool, least: K, c: seq<Entry<K, V>>, r: seq<Entry<K, V>>)
    requires Ordered(lt, least) && Represents(lt, least, c) && Represents(lt, least, r)
  {
    forall k :: Lookup(lt, least, c, k) == Lookup(lt, least, r, k)
  }

  lemma AssignedRepresents<K(!new), V>(
    lt: (K, K) -> bool, least: K, e: seq<Entry<K, V>>, begin: K, end: K, v: V)
    requires Ordered(lt, least) && Represents(lt, least, e)
    ensures Represents(lt, least, Assigned(lt, least, e, begin, end, v))
  {
    if lt(begin, end) {
      BoundsAgree(lt, least, e, begin, end);
      LowerBoundSplits(lt, least, e, begin);
      UpperBoundSplits(lt, least, e, end);
      var a, u := LowerBound(lt, e, begin), UpperBound(lt, e, end);
      var m := if a > 0 && e[a - 1].value == v then [] else [Entry(begin, v)];
      var after := Lookup(lt, least, e, end);
      var n := if after == v then [] else [Entry(end, after)];
      SortedAppend(lt, least, e[..a], m, n, e[u..], begin, end);
    }
  }

  /** Entries below begin, then begin, then end, then entries above end, are sorted, with or
      without the two in the middle. */
  lemma SortedAppend<K(!new), V>(
    lt: (K, K) -> bool, least: K, h: seq<Entry<K, V>>, m: seq<Entry<K, V>>, n: seq<Entry<K, V>>, t: seq<Entry<K, V>>,
    begin: K, end: K)
    requires Ordered(lt, least) && Sorted(lt, h) && Sorted(lt, t) && lt(begin, end)
    requires forall i :: 0 <= i < |h| ==> lt(h[i].key, begin)
    requires forall i :: 0 <= i < |t| ==> lt(end, t[i].key)
    requires m == [] || (|m| == 1 && m[0].key == begin)
    requires n == [] || (|n| == 1 && n[0].key == end)
    ensures Sorted(lt, h + m + n + t)
  {
    assert forall i :: 0 <= i < |h| ==> lt(h[i].key, end);
    assert forall i :: 0 <= i < |t| ==> lt(begin, t[i].key);
    assert forall i, j :: 0 <= i < |h| && 0 <= j < |t| ==> lt(h[i].key, t[j].key);
  }

  /** Canonical form is kept in all boundary and overlap cases. */
  lemma AssignedIsCanonical<K(!new), V>(
    lt: (K, K) -> bool, least: K, e: seq<Entry<K, V>>, begin: K, end: K, v: V)
    requires Ordered(lt, least) && Represents(lt, least, e) && Canonical(e)
    ensures Canonical(Assigned(lt, least, e, begin, end, v))
  {
    if lt(begin, end) {
      UpperBoundSplits(lt, least, e, end);
      var a, u := LowerBound(lt, e, begin), UpperBound(lt, e, end);
      var after := Lookup(lt, least, e, end);
      assert u < |e| ==> e[u].value != after;
      CanonicalPieces(e[..a], Entry(begin, v), Entry(end, after), e[u..], a > 0 && e[a - 1].value == v, after == v);
    }
  }

  lemma CanonicalPieces<K, V>(
    h: seq<Entry<K, V>>, x: Entry<K, V>, y: Entry<K, V>, t: seq<Entry<K, V>>, dropX: bool, dropY: bool)
    requires Canonical(h) && Canonical(t)
    requires dropX <==> h != [] && h[|h| - 1].value == x.value
    requires dropY <==> y.value == x.value
    requires t != [] ==> t[0].value != y.value
    ensures Canonical(Pieces(h, x, y, t, dropX, dropY))
  {
  }

  /** assign refines function update. */
  lemma AssignRefinesUpdate<K(!new), V>(
    lt: (K, K) -> bool, least: K, e: seq<Entry<K, V>>, f: K -> V, begin: K, end: K, v: V)
    requires Ordered(lt, least) && Represents(lt, least, e) && Denotes(lt, least, e, f)
    ensures Represents(lt, least, Assigned(lt, least, e, begin, end, v))
    ensures Denotes(lt, least, Assigned(lt, least, e, begin, end, v), Updated(lt, f, begin, end, v))
  {
    AssignedRepresents(lt, least, e, begin, end, v);
    if lt(begin, end) {
      forall k
        ensures Lookup(lt, least, Assigned(lt, least, e, begin, end, v), k) == Updated(lt, f, begin, end, v)(k)
      {
        LookupAfterAssign(lt, least, e, begin, end, v, k);
      }
    }
  }

  lemma NotBelow<K(!new)>(lt: (K, K) -> bool, least: K, x: K, y: K, z: K)
    requires Ordered(lt, least) && !lt(y, x) && lt(y, z)
    ensures lt(x, z)
  {
  }

  lemma LookupAfterAssign<K(!new), V>(
    lt: (K, K) -> bool, least: K, e: seq<Entry<K, V>>, begin: K, end: K, v: V, k: K)
    requires Ordered(lt, least) && Represents(lt, least, e) && lt(begin, end)
    ensures Represents(lt, least, Assigned(lt, least, e, begin, end, v))
    ensures Lookup(lt, least, Assigned(lt, least, e, begin, end, v), k)
         == if !lt(k, begin) && lt(k, end) then v else Lookup(lt, least, e, k)
  {
    AssignedRepresents(lt, least, e, begin, end, v);
    var r := Assigned(lt, least, e, begin, end, v);
    var j: nat;
    if lt(k, begin) {
      BelowAssigned(lt, least, e, begin, end, v, k);
      j := UpperBound(lt, e, k) - 1;
    } else if lt(k, end) {
      j := InsideAssigned(lt, least, e, begin, end, v, k);
    } else {
      j := AboveAssigned(lt, least, e, begin, end, v, k);
    }
    LookupInInterval(lt, least, r, k, j);
  }

  lemma PiecesAt<T>(h: seq<T>, x: T, y: T, t: seq<T>, dropX: bool, dropY: bool)
    ensures var r := Pieces(h, x, y, t, dropX, dropY);
            var mid := |h| + if dropX then 0 else 1;
            var rest := mid + if dropY then 0 else 1;
            && |r| == rest + |t|
            && (forall i :: 0 <= i < |h| ==> r[i] == h[i])
            && (!dropX ==> r[|h|] == x)
            && (!dropY ==> r[mid] == y)
            && (forall i :: rest <= i < |r| ==> r[i] == t[i - rest])
  {
  }

  /** Entry j of the assigned map is the one k falls into, and gives k the value w. */
  ghost predicate FallsInto<K, V>(lt: (K, K) -> bool, r: seq<Entry<K, V>>, j: nat, k: K, w: V) {
    && j < |r| && !lt(k, r[j].key) && (j + 1 < |r| ==> lt(k, r[j + 1].key))
    && r[j].value == w
  }

  /** The place of k among the entries, against the places of begin and end. */
  lemma PlaceOfKey<K(!new), V>(lt: (K, K) -> bool, least: K, e: seq<Entry<K, V>>, begin: K, end: K, k: K)
    requires Ordered(lt, least) && Represents(lt, least, e) && lt(begin, end)
    ensures var a, u, i := LowerBound(lt, e, begin), UpperBound(lt, e, end), UpperBound(lt, e, k);
            && i > 0 && Lookup(lt, least, e, k) == e[i - 1].value
            && (lt(k, begin) ==> i <= a && lt(k, end))
            && (!lt(k, begin) ==> a <= i)
            && (if lt(k, end) then i <= u else u <= i)
  {
    LowerBoundSplits(lt, least, e, begin);
    UpperBoundSplits(lt, least, e, end);
    UpperBoundSplits(lt, least, e, k);
    var a, u, i := LowerBound(lt, e, begin), UpperBound(lt, e, end), UpperBound(lt, e, k);
    if lt(k, begin) {
      NotBelow(lt, least, e[i - 1].key, k, begin);
    } else if i < a {
      assert false;
    }
    if lt(k, end) && u < i {
      NotBelow(lt, least, e[u].key, k, end);
      assert false;
    }
    if !lt(k, end) && i < u {
      NotBelow(lt, least, end, k, e[i].key);
      assert false;
    }
  }

  lemma BelowAssigned<K(!new), V>(
    lt: (K, K) -> bool, least: K, e: seq<Entry<K, V>>, begin: K, end: K, v: V, k: K)
    requires Ordered(lt, least) && Represents(lt, least, e) && lt(begin, end) && lt(k, begin)
    ensures UpperBound(lt, e, k) > 0
    ensures FallsInto(lt, Assigned(lt, least, e, begin, end, v), UpperBound(lt, e, k) - 1, k, Lookup(lt, least, e, k))
  {
    hide Ordered, Lookup;
    BoundsAgree(lt, least, e, begin, end);
    PlaceOfKey(lt, least, e, begin, end, k);
    UpperBoundSplits(lt, least, e, k);
    var a, u := LowerBound(lt, e, begin), UpperBound(lt, e, end);
    var after := Lookup(lt, least, e, end);
    var dropX, dropY := a > 0 && e[a - 1].value == v, after == v;
    PiecesAt(e[..a], Entry(begin, v), Entry(end, after), e[u..], dropX, dropY);
    hide Pieces, LowerBound, UpperBound;
  }

  /** A key at or above x and below y falls into x's interval. */
  lemma FallsInside<K, V>(
    lt: (K, K) -> bool, h: seq<Entry<K, V>>, x: Entry<K, V>, y: Entry<K, V>, t: seq<Entry<K, V>>,
    dropX: bool, dropY: bool, k: K) returns (j: nat)
    requires !lt(k, x.key) && lt(k, y.key) && (t != [] ==> lt(k, t[0].key))
    requires dropX ==> h != [] && h[|h| - 1].value == x.value && !lt(k, h[|h| - 1].key)
    ensures FallsInto(lt, Pieces(h, x, y, t, dropX, dropY), j, k, x.value)
  {
    PiecesAt(h, x, y, t, dropX, dropY);
    hide Pieces;
    j := if dropX then |h| - 1 else |h|;
  }

  /** A key at or above y falls into y's interval or into one of those behind: i of these start at
      or below it. */
  lemma FallsAbove<K, V>(
    lt: (K, K) -> bool, h: seq<Entry<K, V>>, x: Entry<K, V>, y: Entry<K, V>, t: seq<Entry<K, V>>,
    dropX: bool, dropY: bool, k: K, i: nat) returns (j: nat)
    requires i <= |t| && (i > 0 ==> !lt(k, t[i - 1].key)) && (i < |t| ==> lt(k, t[i].key))
    requires i == 0 ==> !lt(k, y.key) && !lt(k, x.key) && (h != [] ==> !lt(k, h[|h| - 1].key))
    requires dropX ==> h != [] && h[|h| - 1].value == x.value
    requires dropY ==> y.value == x.value
    ensures FallsInto(lt, Pieces(h, x, y, t, dropX, dropY), j, k, if i == 0 then y.value else t[i - 1].value)
  {
    PiecesAt(h, x, y, t, dropX, dropY);
    hide Pieces;
    j := |h| + (if dropX then 0 else 1) + (if dropY then 0 else 1) + i - 1;
  }

  lemma InsideAssigned<K(!new), V>(
    lt: (K, K) -> bool, least: K, e: seq<Entry<K, V>>, begin: K, end: K, v: V, k: K) returns (j: nat)
    requires Ordered(lt, least) && Represents(lt, least, e) && lt(begin, end) && !lt(k, begin) && lt(k, end)
    ensures FallsInto(lt, Assigned(lt, least, e, begin, end, v), j, k, v)
  {
    hide Ordered, Lookup;
    BoundsAgree(lt, least, e, begin, end);
    PlaceOfKey(lt, least, e, begin, end, k);
    UpperBoundSplits(lt, least, e, k);
    var a, u := LowerBound(lt, e, begin), UpperBound(lt, e, end);
    var after := Lookup(lt, least, e, end);
    hide Pieces, LowerBound, UpperBound, FallsInto;
    assert a > 0 ==> !lt(k, e[a - 1].key);
    assert u < |e| ==> lt(k, e[u].key);
    j := FallsInside(lt, e[..a], Entry(begin, v), Entry(end, after), e[u..],
                     a > 0 && e[a - 1].value == v, after == v, k);
  }

  lemma AboveAssigned<K(!new), V>(
    lt: (K, K) -> bool, least: K, e: seq<Entry<K, V>>, begin: K, end: K, v: V, k: K) returns (j: nat)
    requires Ordered(lt, least) && Represents(lt, least, e) && lt(begin, end) && !lt(k, begin) && !lt(k, end)
    ensures FallsInto(lt, Assigned(lt, least, e, begin, end, v), j, k, Lookup(lt, least, e, k))
  {
    hide Ordered, Lookup;
    BoundsAgree(lt, least, e, begin, end);
    PlaceOfKey(lt, least, e, begin, end, k);
    UpperBoundSplits(lt, least, e, k);
    var a, u := LowerBound(lt, e, begin), UpperBound(lt, e, end);
    var after := Lookup(lt, least, e, end);
    hide Pieces, LowerBound, UpperBound, FallsInto;
    var i := UpperBound(lt, e, k) - u;
    assert a > 0 ==> !lt(k, e[a - 1].key);
    if i == 0 {
      assert after == Lookup(lt, least, e, k);
    }
    j := FallsAbove(lt, e[..a], Entry(begin, v), Entry(end, after), e[u..],
                    a > 0 && e[a - 1].value == v, after == v, k, i);
  }

  // ---------- canonical form ----------

  /** Each boundary of a canonical map is a boundary of every map for the same function. */
  lemma BoundaryIsNeeded<K(!new), V>(
    lt: (K, K) -> bool, least: K, c: seq<Entry<K, V>>, r: seq<Entry<K, V>>, i: nat) returns (j: nat)
    requires Ordered(lt, least) && Represents(lt, least, c) && Represents(lt, least, r)
    requires Canonical(c) && i < |c|
    requires SameFunction(lt, least, c, r)
    ensures j < |r| && r[j].key == c[i].key
  {
    var k := c[i].key;
    UpperBoundSplits(lt, least, r, k);
    j := UpperBound(lt, r, k) - 1;
    if r[j].key != k {
      // a key before the boundary with the same entry in r but another value in c
      assert i > 0;
      var m := if lt(c[i - 1].key, r[j].key) then r[j].key else c[i - 1].key;
      LookupInInterval(lt, least, c, m, i - 1);
      LookupInInterval(lt, least, c, k, i);
      LookupInInterval(lt, least, r, m, j);
      LookupInInterval(lt, least, r, k, j);
      assert false;
    }
  }

  /** Canonical maps of the same function agree on their first n entries. */
  lemma {:induction false} CanonicalPrefix<K(!new), V>(
    lt: (K, K) -> bool, least: K, c: seq<Entry<K, V>>, r: seq<Entry<K, V>>, n: nat)
    requires Ordered(lt, least) && Represents(lt, least, c) && Represents(lt, least, r)
    requires Canonical(c) && Canonical(r)
    requires SameFunction(lt, least, c, r)
    requires n <= |c|
    ensures n <= |r| && c[..n] == r[..n]
  {
    if n == 0 {
    } else {
      var i := n - 1;
      CanonicalPrefix(lt, least, c, r, i);
      var j := BoundaryIsNeeded(lt, least, c, r, i);
      if j < i {
        assert false;
      }
      var j' := BoundaryIsNeeded(lt, least, r, c, i);
      if j' < i {
        assert false;
      }
      assert !lt(c[i].key, r[i].key) && !lt(r[i].key, c[i].key);
      LookupInInterval(lt, least, c, c[i].key, i);
      LookupInInterval(lt, least, r, r[i].key, i);
    }
  }

  /** Canonical maps that denote the same function have the same entries, however they were built. */
  lemma CanonicalIsUnique<K(!new), V>(
    lt: (K, K) -> bool, least: K, c: seq<Entry<K, V>>, r: seq<Entry<K, V>>)
    requires Ordered(lt, least) && Represents(lt, least, c) && Represents(lt, least, r)
    requires Canonical(c) && Canonical(r)
    requires SameFunction(lt, least, c, r)
    ensures c == r
  {
    CanonicalPrefix(lt, least, c, r, |c|);
    CanonicalPrefix(lt, least, r, c, |r|);
  }

  /** No representation of the same function has fewer entries than the canonical one. */
  lemma {:induction false} CanonicalIsMinimal<K(!new), V>(
    lt: (K, K) -> bool, least: K, c: seq<Entry<K, V>>, r: seq<Entry<K, V>>, n: nat) returns (j: nat)
    requires Ordered(lt, least) && Represents(lt, least, c) && Represents(lt, least, r)
    requires Canonical(c) && 0 < n <= |c|
    requires SameFunction(lt, least, c, r)
    ensures n - 1 <= j < |r| && r[j].key == c[n - 1].key
    ensures n == |c| ==> |c| <= |r|
  {
    j := BoundaryIsNeeded(lt, least, c, r, n - 1);
    if n <= 1 {
    } else {
      var i := CanonicalIsMinimal(lt, least, c, r, n - 1);
      assert lt(r[i].key, r[j].key);
    }
  }

  // ---------- runs ----------

  datatype Call<K, V> = Call(begin: K, end: K, value: V)

  ghost function Entries<K(!new), V>(lt: (K, K) -> bool, least: K, init: V, calls: seq<Call<K, V>>)
    : (e: seq<Entry<K, V>>)
    requires Ordered(lt, least)
    ensures Represents(lt, least, e)
  {
    if calls == [] then [Entry(least, init)]
    else
      var n := |calls| - 1;
      var e := Entries(lt, least, init, calls[..n]);
      AssignedRepresents(lt, least, e, calls[n].begin, calls[n].end, calls[n].value);
      Assigned(lt, least, e, calls[n].begin, calls[n].end, calls[n].value)
  }

  ghost function Meaning<K, V>(lt: (K, K) -> bool, init: V, calls: seq<Call<K, V>>): K -> V {
    if calls == [] then k => init
    else
      var n := |calls| - 1;
      Updated(lt, Meaning(lt, init, calls[..n]), calls[n].begin, calls[n].end, calls[n].value)
  }

  lemma {:induction false} RunDenotesItsUpdates<K(!new), V>(
    lt: (K, K) -> bool, least: K, init: V, calls: seq<Call<K, V>>)
    requires Ordered(lt, least)
    ensures Canonical(Entries(lt, least, init, calls))
    ensures Denotes(lt, least, Entries(lt, least, init, calls), Meaning(lt, init, calls))
  {
    if calls == [] {
    } else {
      var n := |calls| - 1;
      var e := Entries(lt, least, init, calls[..n]);
      RunDenotesItsUpdates(lt, least, init, calls[..n]);
      AssignedIsCanonical(lt, least, e, calls[n].begin, calls[n].end, calls[n].value);
      AssignRefinesUpdate(lt, least, e, Meaning(lt, init, calls[..n]), calls[n].begin, calls[n].end, calls[n].value);
    }
  }

  /** size depends on the function alone: runs with the same meaning end in the same entries. */
  lemma SameMeaningSameEntries<K(!new), V>(
    lt: (K, K) -> bool, least: K, init: V, calls: seq<Call<K, V>>, init': V, calls': seq<Call<K, V>>)
    requires Ordered(lt, least)
    requires forall k :: Meaning(lt, init, calls)(k) == Meaning(lt, init', calls')(k)
    ensures Entries(lt, least, init, calls) == Entries(lt, least, init', calls')
  {
    RunDenotesItsUpdates(lt, least, init, calls);
    RunDenotesItsUpdates(lt, least, init', calls');
    CanonicalIsUnique(lt, least, Entries(lt, least, init, calls), Entries(lt, least, init', calls'));
  }

  // ---------- the container ----------

  lemma InsertBeforeEnd<T>(e: seq<T>, a: nat, z: nat, u: nat, x: T, y: T)
    requires a <= z <= u <= |e|
    ensures var e' := e[..z] + [y] + e[u..];
            && e'[..a] + [x] + e'[a..] == e[..a] + [x] + e[a..z] + [y] + e[u..]
            && (a < z ==> e'[a := x] == e[..a] + [x] + e[a + 1..z] + [y] + e[u..])
  {
  }

  lemma EraseBetween<T>(h: seq<T>, x: T, m: seq<T>, y: T, t: seq<T>, dropX: bool, dropY: bool)
    ensures var e, left, right := h + [x] + m + [y] + t, |h|, |h| + 1 + |m|;
            && e[left] == x && e[right] == y
            && (left > 0 ==> e[left - 1] == h[left - 1])
            && e[..if dropX then left else left + 1] + e[if dropY then right + 1 else right..]
            == Pieces(h, x, y, t, dropX, dropY)
  {
  }

  lemma BoundsAgree<K(!new), V>(lt: (K, K) -> bool, least: K, e: seq<Entry<K, V>>, begin: K, end: K)
    requires Ordered(lt, least) && Represents(lt, least, e) && lt(begin, end)
    ensures var a, z, u := LowerBound(lt, e, begin), LowerBound(lt, e, end), UpperBound(lt, e, end);
            && a <= z <= u <= |e| && 0 < z
            && u == (if z < |e| && e[z].key == end then z + 1 else z)
            && (a < |e| && e[a].key == begin ==> a + 1 <= z)
            && (a == 0 ==> e[a].key == begin)
            && Lookup(lt, least, e, end) == e[u - 1].value
  {
    LowerBoundSplits(lt, least, e, begin);
    LowerBoundSplits(lt, least, e, end);
    UpperBoundSplits(lt, least, e, end);
    hide LowerBound, UpperBound;
    var a, z, u := LowerBound(lt, e, begin), LowerBound(lt, e, end), UpperBound(lt, e, end);
    if z < a {
      assert false;
    }
    if u < z {
      assert false;
    }
    if z < u {
      assert e[z].key == end;
      if z + 1 < u {
        assert false;
      }
    }
  }

  /** Making sure of an entry at end does not move the place of begin. */
  lemma LowerBoundUnmoved<K(!new), V>(
    lt: (K, K) -> bool, least: K, e: seq<Entry<K, V>>, begin: K, end: K, after: V)
    requires Ordered(lt, least) && Represents(lt, least, e) && lt(begin, end)
    ensures var z, u := LowerBound(lt, e, end), UpperBound(lt, e, end);
            var e' := e[..z] + [Entry(end, after)] + e[u..];
            && Sorted(lt, e')
            && LowerBound(lt, e', begin) == LowerBound(lt, e, begin) <= z
            && (e'[LowerBound(lt, e, begin)].key == begin ==> LowerBound(lt, e, begin) < z)
  {
    LowerBoundSplits(lt, least, e, begin);
    LowerBoundSplits(lt, least, e, end);
    UpperBoundSplits(lt, least, e, end);
    BoundsAgree(lt, least, e, begin, end);
    var z, u := LowerBound(lt, e, end), UpperBound(lt, e, end);
    var e' := e[..z] + [Entry(end, after)] + e[u..];
    LowerBoundIs(lt, least, e', begin, LowerBound(lt, e, begin));
  }

  class IntervalMap<K(==, !new), V(==)> {
    const lt: (K, K) -> bool
    const least: K
    var entries: seq<Entry<K, V>>

    ghost predicate Valid()
      reads this
    {
      Ordered(lt, least) && Represents(lt, least, entries) && Canonical(entries)
    }

    constructor (lt: (K, K) -> bool, least: K, val: V)
      requires Ordered(lt, least)
      ensures Valid() && this.lt == lt && this.least == least
      ensures entries == Entries(lt, least, val, []) == [Entry(least, val)]
    {
      this.lt, this.least := lt, least;
      entries := [Entry(least, val)];
    }

    /** std::map::insert: keeps the entry of an existing key. */
    method Insert(key: K, val: V) returns (it: nat, inserted: bool)
      requires Ordered(lt, least) && Sorted(lt, entries)
      modifies this
      ensures it == LowerBound(lt, old(entries), key)
      ensures inserted <==> !(it < |old(entries)| && old(entries)[it].key == key)
      ensures entries == if inserted then old(entries)[..it] + [Entry(key, val)] + old(entries)[it..] else old(entries)
    {
      LowerBoundSplits(lt, least, entries, key);
      it := LowerBound(lt, entries, key);
      inserted := it == |entries| || lt(key, entries[it].key);
      if inserted {
        entries := entries[..it] + [Entry(key, val)] + entries[it..];
      }
    }

    /** First half of assign: entries at both ends, the one at keyEnd resuming the old value. The
        entries between them, still to be erased, are m. */
    method InsertBounds(keyBegin: K, keyEnd: K, val: V) returns (left: nat, right: nat, ghost m: seq<Entry<K, V>>)
      requires Valid() && lt(keyBegin, keyEnd)
      modifies this
      ensures var e := old(entries);
              && left == LowerBound(lt, e, keyBegin) && right == left + 1 + |m|
              && entries == e[..left] + [Entry(keyBegin, val)] + m
                          + [Entry(keyEnd, Lookup(lt, least, e, keyEnd))] + e[UpperBound(lt, e, keyEnd)..]
    {
      hide Ordered, Sorted, Canonical, LowerBound, UpperBound, Lookup;
      ghost var e := entries;
      BoundsAgree(lt, least, e, keyBegin, keyEnd);
      ghost var a, z, u := LowerBound(lt, e, keyBegin), LowerBound(lt, e, keyEnd), UpperBound(lt, e, keyEnd);
      ghost var after := Lookup(lt, least, e, keyEnd);
      var inserted;
      right, inserted := Insert(keyEnd, val);
      if inserted {
        var it := right - 1;
        if entries[it].value != entries[right].value {
          entries := entries[right := entries[right].(value := entries[it].value)];
        }
      }
      assert entries == e[..z] + [Entry(keyEnd, after)] + e[u..];
      LowerBoundUnmoved(lt, least, e, keyBegin, keyEnd, after);
      InsertBeforeEnd(e, a, z, u, Entry(keyBegin, val), Entry(keyEnd, after));
      left, inserted := Insert(keyBegin, val);
      if inserted {
        right := right + 1;  // a map iterator stays with its entry
      } else {
        entries := entries[left := entries[left].(value := val)];
      }
      m := e[if inserted then a else a + 1..z];
    }

    /** Second half: erase what the new interval covers, and either bound that would repeat the
        value before it. */
    method EraseCovered(left0: nat, right0: nat, ghost h: seq<Entry<K, V>>, ghost x: Entry<K, V>,
                        ghost m: seq<Entry<K, V>>, ghost y: Entry<K, V>, ghost t: seq<Entry<K, V>>)
      requires left0 == |h| && right0 == |h| + 1 + |m|
      requires entries == h + [x] + m + [y] + t
      modifies this
      ensures entries == Pieces(h, x, y, t, |h| > 0 && h[|h| - 1].value == x.value, y.value == x.value)
    {
      hide Pieces;
      ghost var dropX, dropY := |h| > 0 && h[|h| - 1].value == x.value, y.value == x.value;
      EraseBetween(h, x, m, y, t, dropX, dropY);
      var left, right := left0, right0;
      var it := left;
      if it != 0 {
        it := it - 1;
        if entries[it].value != entries[left].value {
          it := left;
          left := left + 1;
        }
      } else {
        left := left + 1;
      }
      if right != |entries| && entries[it].value == entries[right].value {
        right := right + 1;
      }
      entries := entries[..left] + entries[right..];
    }

    method Assign(keyBegin: K, keyEnd: K, val: V) returns (changed: bool)
      requires Valid()
      modifies this
      ensures Valid()
      ensures changed <==> lt(keyBegin, keyEnd)
      ensures entries == Assigned(lt, least, old(entries), keyBegin, keyEnd, val)
    {
      hide Ordered, Sorted, Canonical, LowerBound, UpperBound, Lookup, Pieces;
      if !lt(keyBegin, keyEnd) {
        return false;
      }
      ghost var e := entries;
      AssignedRepresents(lt, least, e, keyBegin, keyEnd, val);
      AssignedIsCanonical(lt, least, e, keyBegin, keyEnd, val);
      var left, right, m := InsertBounds(keyBegin, keyEnd, val);
      BoundsAgree(lt, least, e, keyBegin, keyEnd);
      EraseCovered(left, right, e[..LowerBound(lt, e, keyBegin)], Entry(keyBegin, val), m,
                   Entry(keyEnd, Lookup(lt, least, e, keyEnd)), e[UpperBound(lt, e, keyEnd)..]);
      changed := true;
    }

    method Get(key: K) returns (v: V)
      requires Valid()
      ensures v == Lookup(lt, least, entries, key)
    {
      UpperBoundSplits(lt, least, entries, key);
      v := entries[UpperBound(lt, entries, key) - 1].value;
    }

    /** The size is the least number of entries that any map for the same function has. */
    method Size() returns (n: nat)
      requires Valid()
      ensures n == |entries|
      ensures forall r: seq<Entry<K, V>> ::
                Represents(lt, least, r) && SameFunction(lt, least, entries, r) ==> n <= |r|
    {
      n := |entries|;
      forall r: seq<Entry<K, V>> | Represents(lt, least, r) && SameFunction(lt, least, entries, r)
        ensures n <= |r|
      {
        var j := CanonicalIsMinimal(lt, least, entries, r, n);
      }
    }
  }
}

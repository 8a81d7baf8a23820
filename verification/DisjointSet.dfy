/** disjoint_set: lazily made singletons, union by rank, and a find that re-hangs only the node it
    was asked about. The forest stands for the equivalence closure of the joined pairs. */
module DisjointSet {
  import opened Bits

  /** parent is -1 until the element is first looked up. */
  datatype Point = Point(parent: int, rank: nat)

  // ---------- the forest ----------

  /** Parents are elements that have been looked up; ranks rise along links and are bounded. */
  ghost predicate Forest(c: seq<Point>) {
    forall x :: 0 <= x < |c| ==> Node(c, x)
  }

  ghost predicate Node(c: seq<Point>, x: nat)
    requires x < |c|
  {
    var p := c[x].parent;
    && -1 <= p < |c|
    && c[x].rank <= |c|
    && (p != -1 && p != x ==> c[p].parent != -1 && c[x].rank < c[p].rank)
  }

  ghost predicate IsRoot(c: seq<Point>, x: nat)
    requires x < |c|
  {
    c[x].parent == -1 || c[x].parent == x
  }

  ghost function Root(c: seq<Point>, x: nat): (r: nat)
    requires Forest(c) && x < |c|
    ensures r < |c| && IsRoot(c, r)
    ensures c[x].parent != -1 ==> c[r].parent == r
    decreases |c| - c[x].rank
  {
    assert Node(c, x);
    if IsRoot(c, x) then x
    else
      assert Node(c, c[x].parent);
      Root(c, c[x].parent)
  }

  /** Links from x to its root. */
  ghost function Depth(c: seq<Point>, x: nat): nat
    requires Forest(c) && x < |c|
    decreases |c| - c[x].rank
  {
    assert Node(c, x);
    if IsRoot(c, x) then 0
    else
      assert Node(c, c[x].parent);
      1 + Depth(c, c[x].parent)
  }

  ghost function Class(c: seq<Point>, r: nat): set<nat>
    requires Forest(c)
  {
    set x: nat | x < |c| && Root(c, x) == r
  }

  ghost function Roots(c: seq<Point>): set<nat>
    requires Forest(c)
  {
    set x: nat | x < |c| && IsRoot(c, x)
  }

  /** A root of rank k has at least 2^k elements below it. */
  ghost predicate Balanced(c: seq<Point>)
    requires Forest(c)
  {
    forall r :: 0 <= r < |c| && IsRoot(c, r) ==> Pow2(c[r].rank) <= |Class(c, r)|
  }

  // ---------- find ----------

  /** The forest after find: only the node asked about moves. */
  ghost function Found(c: seq<Point>, x: nat): seq<Point>
    requires Forest(c) && x < |c|
  {
    c[x := c[x].(parent := Root(c, x))]
  }

  lemma FindKeepsForest(c: seq<Point>, x: nat)
    requires Forest(c) && x < |c|
    ensures Forest(Found(c, x))
  {
    var d := Found(c, x);
    RootRank(c, x);
    forall y | 0 <= y < |d|
      ensures Node(d, y)
    {
      assert Node(c, y);
    }
  }

  lemma {:induction false} RootRank(c: seq<Point>, x: nat)
    requires Forest(c) && x < |c|
    ensures c[x].rank + Depth(c, x) <= c[Root(c, x)].rank
    decreases |c| - c[x].rank
  {
    assert Node(c, x);
    if IsRoot(c, x) {
    } else {
      assert Node(c, c[x].parent);
      RootRank(c, c[x].parent);
    }
  }

  /** Path compression of one node changes no element's root. */
  lemma {:induction false} FindKeepsRoots(c: seq<Point>, x: nat, y: nat)
    requires Forest(c) && x < |c| && y < |c|
    ensures Forest(Found(c, x))
    ensures Root(Found(c, x), y) == Root(c, y)
    decreases |c| - c[y].rank
  {
    FindKeepsForest(c, x);
    var d := Found(c, x);
    assert Node(c, y) && Node(d, y);
    if y == x {
      assert IsRoot(d, Root(c, x));
      assert Root(d, Root(c, x)) == Root(c, x);
    } else if !IsRoot(c, y) {
      assert Node(c, c[y].parent);
      FindKeepsRoots(c, x, c[y].parent);
    }
  }

  lemma FindKeepsClasses(c: seq<Point>, x: nat)
    requires Forest(c) && x < |c|
    ensures var d := Found(c, x);
            && Forest(d)
            && (forall y: nat :: y < |c| ==>
                  Root(d, y) == Root(c, y) && (IsRoot(d, y) <==> IsRoot(c, y)) && d[y].rank == c[y].rank)
            && (forall r: nat :: Class(d, r) == Class(c, r))
            && Roots(d) == Roots(c)
            && (Balanced(c) ==> Balanced(d))
  {
    FindKeepsForest(c, x);
    var d := Found(c, x);
    forall y: nat | y < |c|
      ensures Root(d, y) == Root(c, y) && (IsRoot(d, y) <==> IsRoot(c, y))
    {
      FindKeepsRoots(c, x, y);
      assert Node(c, y);
      if !IsRoot(c, y) {
        RootRank(c, y);
      }
    }
    forall r: nat
      ensures Class(d, r) == Class(c, r)
    {
    }
  }

  /** Depth is logarithmic: 2^depth never exceeds the number of elements. */
  lemma DepthIsLogarithmic(c: seq<Point>, x: nat)
    requires Forest(c) && Balanced(c) && x < |c|
    ensures Pow2(Depth(c, x)) <= |c|
  {
    var r := Root(c, x);
    RootRank(c, x);
    Pow2Monotone(Depth(c, x), c[r].rank);
    SubsetOfRange(Class(c, r), |c|);
  }

  lemma {:induction false} SubsetOfRange(s: set<nat>, n: nat)
    requires forall x :: x in s ==> x < n
    ensures |s| <= n
  {
    if n == 0 {
      assert s == {};
    } else {
      SubsetOfRange(s - {n - 1}, n - 1);
      assert |s| <= |s - {n - 1}| + 1;
    }
  }

  // ---------- join ----------

  /** Union by rank of two distinct roots. */
  ghost function Linked(c: seq<Point>, xroot: nat, yroot: nat): seq<Point>
    requires xroot < |c| && yroot < |c|
  {
    if c[xroot].rank < c[yroot].rank then c[xroot := c[xroot].(parent := yroot)]
    else if c[yroot].rank < c[xroot].rank then c[yroot := c[yroot].(parent := xroot)]
    else c[yroot := c[yroot].(parent := xroot)][xroot := c[xroot].(rank := c[xroot].rank + 1)]
  }

  /** The root that stays a root. */
  ghost function Winner(c: seq<Point>, xroot: nat, yroot: nat): nat
    requires xroot < |c| && yroot < |c|
  {
    if c[xroot].rank < c[yroot].rank then yroot else xroot
  }

  ghost predicate TwoRoots(c: seq<Point>, x: nat, y: nat) {
    Forest(c) && Balanced(c) && x < |c| && y < |c| && x != y && c[x].parent == x && c[y].parent == y
  }

  lemma LinkKeepsForest(c: seq<Point>, x: nat, y: nat)
    requires TwoRoots(c, x, y)
    ensures Forest(Linked(c, x, y))
  {
    var d := Linked(c, x, y);
    assert IsRoot(c, x);
    SubsetOfRange(Class(c, x), |c|);
    ExponentBelowPower(c[x].rank);
    forall z | 0 <= z < |d|
      ensures Node(d, z)
    {
      assert Node(c, z);
    }
  }

  lemma {:induction false} ExponentBelowPower(k: nat)
    ensures k < Pow2(k)
  {
    if k == 0 {
    } else {
      ExponentBelowPower(k - 1);
    }
  }

  /** Exactly the elements under the losing root move, to the winner. */
  lemma {:induction false} LinkMovesOneClass(c: seq<Point>, x: nat, y: nat, z: nat)
    requires TwoRoots(c, x, y) && z < |c|
    ensures Forest(Linked(c, x, y))
    ensures Root(Linked(c, x, y), z) == if Root(c, z) == x || Root(c, z) == y then Winner(c, x, y) else Root(c, z)
    decreases |c| - c[z].rank
  {
    LinkKeepsForest(c, x, y);
    var d := Linked(c, x, y);
    assert Node(c, z) && Node(d, z);
    assert Root(d, Winner(c, x, y)) == Winner(c, x, y);
    if IsRoot(c, z) {
    } else {
      assert Node(c, c[z].parent);
      LinkMovesOneClass(c, x, y, c[z].parent);
    }
  }

  lemma LinkKeepsBalance(c: seq<Point>, x: nat, y: nat)
    requires TwoRoots(c, x, y)
    ensures Forest(Linked(c, x, y)) && Balanced(Linked(c, x, y))
  {
    LinkedClasses(c, x, y);
    var d, w := Linked(c, x, y), Winner(c, x, y);
    hide Class, Root, Forest;
    assert IsRoot(c, x) && IsRoot(c, y);
    forall r | 0 <= r < |d| && IsRoot(d, r)
      ensures Pow2(d[r].rank) <= |Class(d, r)|
    {
      if r != w {
        assert IsRoot(c, r);
      }
    }
  }

  /** The two classes become one; no other class changes. */
  lemma LinkedClasses(c: seq<Point>, x: nat, y: nat)
    requires TwoRoots(c, x, y)
    ensures var d, w := Linked(c, x, y), Winner(c, x, y);
            && Forest(d)
            && Class(d, w) == Class(c, x) + Class(c, y) && Class(c, x) !! Class(c, y)
            && forall r: nat :: r < |d| && IsRoot(d, r) && r != w ==> Class(d, r) == Class(c, r)
  {
    LinkKeepsForest(c, x, y);
    var d, w := Linked(c, x, y), Winner(c, x, y);
    forall z: nat | z < |c|
      ensures Root(d, z) == if Root(c, z) == x || Root(c, z) == y then w else Root(c, z)
    {
      LinkMovesOneClass(c, x, y, z);
    }
    hide Root, Forest;
  }

  /** One root fewer. */
  lemma LinkDropsOneRoot(c: seq<Point>, x: nat, y: nat)
    requires TwoRoots(c, x, y)
    ensures Forest(Linked(c, x, y))
    ensures |Roots(Linked(c, x, y))| == |Roots(c)| - 1
  {
    LinkKeepsForest(c, x, y);
    var loser := if Winner(c, x, y) == x then y else x;
    assert Roots(Linked(c, x, y)) == Roots(c) - {loser};
    assert loser in Roots(c);
  }

  // ---------- the relation the forest stands for ----------

  type Pair = (nat, nat)

  /** One step: equal, or joined in either order. */
  ghost predicate Step(pairs: seq<Pair>, x: nat, y: nat) {
    x == y || (x, y) in pairs || (y, x) in pairs
  }

  ghost predicate IsPath(pairs: seq<Pair>, p: seq<nat>, x: nat, y: nat) {
    && |p| > 0 && p[0] == x && p[|p| - 1] == y
    && (forall i :: 0 <= i < |p| - 1 ==> Step(pairs, p[i], p[i + 1]))
  }

  /** The equivalence closure of the joined pairs. */
  ghost predicate Connected(pairs: seq<Pair>, x: nat, y: nat) {
    exists p :: IsPath(pairs, p, x, y)
  }

  lemma ConnectedByStep(pairs: seq<Pair>, x: nat, y: nat)
    requires Step(pairs, x, y)
    ensures Connected(pairs, x, y)
  {
    assert IsPath(pairs, [x, y], x, y);
  }

  lemma ConnectedTransitive(pairs: seq<Pair>, x: nat, y: nat, z: nat)
    requires Connected(pairs, x, y) && Connected(pairs, y, z)
    ensures Connected(pairs, x, z)
  {
    var p :| IsPath(pairs, p, x, y);
    var q :| IsPath(pairs, q, y, z);
    assert IsPath(pairs, p + q, x, z);
  }

  lemma ConnectedSymmetric(pairs: seq<Pair>, x: nat, y: nat)
    requires Connected(pairs, x, y)
    ensures Connected(pairs, y, x)
  {
    var p :| IsPath(pairs, p, x, y);
    var q := seq(|p|, i requires 0 <= i < |p| => p[|p| - 1 - i]);
    forall i | 0 <= i < |q| - 1
      ensures Step(pairs, q[i], q[i + 1])
    {
      assert Step(pairs, p[|p| - 2 - i], p[|p| - 2 - i + 1]);
    }
    assert IsPath(pairs, q, y, x);
  }

  ghost predicate IsEquivalence(rel: (nat, nat) -> bool) {
    && (forall x: nat :: rel(x, x))
    && (forall x: nat, y: nat :: rel(x, y) ==> rel(y, x))
    && (forall x: nat, y: nat, z: nat :: rel(x, y) && rel(y, z) ==> rel(x, z))
  }

  ghost predicate Relates(rel: (nat, nat) -> bool, pairs: seq<Pair>) {
    forall i :: 0 <= i < |pairs| ==> rel(pairs[i].0, pairs[i].1)
  }

  lemma {:induction false} PathIsRelated(rel: (nat, nat) -> bool, pairs: seq<Pair>, p: seq<nat>, x: nat, y: nat)
    requires IsEquivalence(rel) && Relates(rel, pairs) && IsPath(pairs, p, x, y)
    ensures rel(x, y)
  {
    if |p| == 1 {
    } else {
      assert Step(pairs, p[0], p[1]);
      assert IsPath(pairs, p[1..], p[1], y);
      PathIsRelated(rel, pairs, p[1..], p[1], y);
    }
  }

  lemma ConnectedIsAnEquivalence(pairs: seq<Pair>, rel: (nat, nat) -> bool)
    requires forall u: nat, v: nat :: rel(u, v) == Connected(pairs, u, v)
    ensures IsEquivalence(rel) && Relates(rel, pairs)
  {
    hide Connected;
    forall u: nat
      ensures rel(u, u)
    {
      ConnectedByStep(pairs, u, u);
    }
    forall u: nat, v: nat | rel(u, v)
      ensures rel(v, u)
    {
      ConnectedSymmetric(pairs, u, v);
    }
    forall u: nat, v: nat, w: nat | rel(u, v) && rel(v, w)
      ensures rel(u, w)
    {
      ConnectedTransitive(pairs, u, v, w);
    }
    forall i | 0 <= i < |pairs|
      ensures rel(pairs[i].0, pairs[i].1)
    {
      ConnectedByStep(pairs, pairs[i].0, pairs[i].1);
    }
  }

  /** Paths give the least equivalence: two elements are connected exactly when every equivalence
      that relates the joined pairs relates them. */
  lemma ConnectedIsTheClosure(pairs: seq<Pair>, x: nat, y: nat)
    ensures Connected(pairs, x, y)
       <==> forall rel: (nat, nat) -> bool :: IsEquivalence(rel) && Relates(rel, pairs) ==> rel(x, y)
  {
    if Connected(pairs, x, y) {
      var p :| IsPath(pairs, p, x, y);
      forall rel: (nat, nat) -> bool | IsEquivalence(rel) && Relates(rel, pairs)
        ensures rel(x, y)
      {
        PathIsRelated(rel, pairs, p, x, y);
      }
    } else {
      var connected := (u: nat, v: nat) => Connected(pairs, u, v);
      ConnectedIsAnEquivalence(pairs, connected);
      assert !connected(x, y);
    }
  }

  lemma ConnectedMonotone(pairs: seq<Pair>, pair: Pair, x: nat, y: nat)
    requires Connected(pairs, x, y)
    ensures Connected(pairs + [pair], x, y)
  {
    var p :| IsPath(pairs, p, x, y);
    assert IsPath(pairs + [pair], p, x, y);
  }

  /** The forest separates elements exactly as the joined pairs do. */
  ghost predicate Represents(c: seq<Point>, pairs: seq<Pair>)
    requires Forest(c)
  {
    && (forall i :: 0 <= i < |pairs| ==> pairs[i].0 < |c| && pairs[i].1 < |c|)
    && (forall x: nat, y: nat :: x < |c| && y < |c| ==> (Root(c, x) == Root(c, y) <==> Connected(pairs, x, y)))
  }

  /** Paths cannot leave a class that keeps every joined pair together. */
  lemma {:induction false} PathStaysInClass(c: seq<Point>, pairs: seq<Pair>, p: seq<nat>, x: nat, y: nat)
    requires Forest(c) && x < |c| && IsPath(pairs, p, x, y)
    requires forall i :: 0 <= i < |pairs| ==>
               pairs[i].0 < |c| && pairs[i].1 < |c| && Root(c, pairs[i].0) == Root(c, pairs[i].1)
    ensures y < |c| && Root(c, x) == Root(c, y)
  {
    if |p| <= 1 {
    } else {
      assert Step(pairs, p[0], p[1]);
      assert IsPath(pairs, p[1..], p[1], y);
      PathStaysInClass(c, pairs, p[1..], p[1], y);
    }
  }

  lemma FreshRepresents(n: nat)
    ensures var c := seq(n, i => Point(-1, 0)); Forest(c) && Balanced(c) && Represents(c, []) && |Roots(c)| == n
  {
    var c := seq(n, i => Point(-1, 0));
    forall r: nat | r < n
      ensures |Class(c, r)| >= 1
    {
      assert r in Class(c, r);
    }
    forall x: nat, y: nat | x < n && y < n
      ensures Root(c, x) == Root(c, y) <==> Connected([], x, y)
    {
      if x == y {
        ConnectedByStep([], x, y);
      } else if Connected([], x, y) {
        var p :| IsPath([], p, x, y);
        PathStaysInClass(c, [], p, x, y);
      }
    }
    AllBelow(Roots(c), n);
  }

  lemma {:induction false} AllBelow(s: set<nat>, n: nat)
    requires forall x: nat :: x in s <==> x < n
    ensures |s| == n
  {
    if n == 0 {
      assert s == {};
    } else {
      AllBelow(s - {n - 1}, n - 1);
    }
  }

  /** find leaves the relation alone. */
  lemma FindRepresents(c: seq<Point>, x: nat, pairs: seq<Pair>)
    requires Forest(c) && x < |c| && Represents(c, pairs)
    ensures Forest(Found(c, x)) && Represents(Found(c, x), pairs)
  {
    FindKeepsClasses(c, x);
  }

  /** Linking the roots of x and y adds exactly the pair (x, y) to the relation; when they share a
      root already, adding the pair changes nothing. */
  lemma LinkRepresents(c: seq<Point>, d: seq<Point>, pairs: seq<Pair>, x: nat, y: nat)
    requires Forest(c) && Forest(d) && |d| == |c| && x < |c| && y < |c| && Represents(c, pairs)
    requires exists w: nat {:trigger Merged(c, d, x, y, w)} :: Merged(c, d, x, y, w)
    ensures Represents(d, pairs + [(x, y)])
  {
    var w: nat :| Merged(c, d, x, y, w);
    var more := pairs + [(x, y)];
    forall i | 0 <= i < |more|
      ensures more[i].0 < |c| && more[i].1 < |c| && Root(d, more[i].0) == Root(d, more[i].1)
    {
      if i < |pairs| {
        assert more[i] == pairs[i];
        ConnectedByStep(pairs, pairs[i].0, pairs[i].1);
      }
    }
    forall u: nat, v: nat | u < |d| && v < |d|
      ensures Root(d, u) == Root(d, v) <==> Connected(more, u, v)
    {
      if Connected(more, u, v) {
        var p :| IsPath(more, p, u, v);
        PathStaysInClass(d, more, p, u, v);
      }
      if Root(d, u) == Root(d, v) {
        MergedConnected(c, d, pairs, x, y, w, u, v);
      }
    }
  }

  /** In d the classes of x and y are one, with root w; every other class is as in c. */
  ghost predicate Merged(c: seq<Point>, d: seq<Point>, x: nat, y: nat, w: nat)
    requires Forest(c) && Forest(d) && |d| == |c| && x < |c| && y < |c|
  {
    && (w == Root(c, x) || w == Root(c, y))
    && (forall z: nat :: z < |c| ==>
         Root(d, z) == if Root(c, z) == Root(c, x) || Root(c, z) == Root(c, y) then w else Root(c, z))
  }

  lemma MergedConnected(c: seq<Point>, d: seq<Point>, pairs: seq<Pair>, x: nat, y: nat, w: nat, u: nat, v: nat)
    requires Forest(c) && Forest(d) && |d| == |c| && x < |c| && y < |c| && Represents(c, pairs)
    requires Merged(c, d, x, y, w) && u < |c| && v < |c| && Root(d, u) == Root(d, v)
    ensures Connected(pairs + [(x, y)], u, v)
  {
    var more := pairs + [(x, y)];
    ConnectedByStep(more, x, y);
    ConnectedByStep(more, y, x);
    if Root(c, u) == Root(c, v) {
      ConnectedMonotone(pairs, (x, y), u, v);
    } else {
      var a, b := if Root(c, u) == Root(c, x) then x else y, if Root(c, v) == Root(c, x) then x else y;
      assert Root(c, u) == Root(c, a) && Root(c, b) == Root(c, v);
      ConnectedMonotone(pairs, (x, y), u, a);
      ConnectedMonotone(pairs, (x, y), b, v);
      ConnectedTransitive(more, u, a, b);
      ConnectedTransitive(more, u, b, v);
    }
  }

  lemma LinkMerges(c: seq<Point>, x: nat, y: nat)
    requires Forest(c) && x < |c| && y < |c| && TwoRoots(c, Root(c, x), Root(c, y))
    ensures var d := Linked(c, Root(c, x), Root(c, y));
            Forest(d) && Merged(c, d, x, y, Winner(c, Root(c, x), Root(c, y)))
  {
    LinkKeepsForest(c, Root(c, x), Root(c, y));
    forall z: nat | z < |c|
      ensures Root(Linked(c, Root(c, x), Root(c, y)), z)
           == if Root(c, z) == Root(c, x) || Root(c, z) == Root(c, y)
              then Winner(c, Root(c, x), Root(c, y)) else Root(c, z)
    {
      LinkMovesOneClass(c, Root(c, x), Root(c, y), z);
    }
  }

  /** The forest after join: both finds, then a link when the roots differ. */
  ghost function Joined(c: seq<Point>, x: nat, y: nat): (d: seq<Point>)
    requires Forest(c) && x < |c| && y < |c|
  {
    FindKeepsForest(c, x);
    FindKeepsForest(Found(c, x), y);
    var c2 := Found(Found(c, x), y);
    if Root(c, x) == Root(c, y) then c2 else Linked(c2, Root(c, x), Root(c, y))
  }

  /** join keeps the forest well formed and balanced, adds exactly the joined pair to the relation,
      and drops a root exactly when the pair was not connected before. */
  lemma JoinIsRight(c: seq<Point>, x: nat, y: nat, pairs: seq<Pair>)
    requires Forest(c) && Balanced(c) && Represents(c, pairs) && x < |c| && y < |c|
    ensures var d := Joined(c, x, y);
            && Forest(d) && Balanced(d) && Represents(d, pairs + [(x, y)])
            && |Roots(d)| == |Roots(c)| - if Connected(pairs, x, y) then 0 else 1
    ensures Forest(Found(c, x)) && Root(Found(c, x), y) == Root(c, y)
    ensures Root(c, x) == Root(c, y) <==> Connected(pairs, x, y)
  {
    FindKeepsClasses(c, x);
    FindKeepsClasses(Found(c, x), y);
    var c2 := Found(Found(c, x), y);
    assert Represents(c2, pairs);
    if Root(c, x) == Root(c, y) {
      assert Merged(c2, c2, x, y, Root(c, x));
      LinkRepresents(c2, c2, pairs, x, y);
    } else {
      var xroot, yroot := Root(c, x), Root(c, y);
      FoundRootIsSet(c, x, y);
      LinkKeepsBalance(c2, xroot, yroot);
      LinkDropsOneRoot(c2, xroot, yroot);
      LinkMerges(c2, x, y);
      LinkRepresents(c2, Linked(c2, xroot, yroot), pairs, x, y);
    }
  }

  /** After both finds neither root is unset. */
  lemma FoundRootIsSet(c: seq<Point>, x: nat, y: nat)
    requires Forest(c) && x < |c| && y < |c|
    ensures Forest(Found(c, x)) && Forest(Found(Found(c, x), y))
    ensures var d := Found(Found(c, x), y);
            d[Root(c, x)].parent == Root(c, x) && d[Root(c, y)].parent == Root(c, y)
  {
    FindKeepsClasses(c, x);
    FindKeepsClasses(Found(c, x), y);
    var d := Found(Found(c, x), y);
    assert Node(d, x) && Node(d, y);
    assert d[x].parent != -1 && d[y].parent != -1;
    assert Root(d, x) == Root(c, x) && Root(d, y) == Root(c, y);
  }

  // ---------- counting classes ----------

  ghost function ClassOf(pairs: seq<Pair>, n: nat, x: nat): set<nat> {
    set y: nat | y < n && Connected(pairs, x, y)
  }

  /** The classes of the relation on 0 .. n-1, singletons included. */
  ghost function Classes(pairs: seq<Pair>, n: nat): set<set<nat>> {
    set x: nat | x < n :: ClassOf(pairs, n, x)
  }

  /** There are as many classes as roots. */
  lemma ClassesAreRoots(c: seq<Point>, pairs: seq<Pair>)
    requires Forest(c) && Represents(c, pairs)
    ensures |Classes(pairs, |c|)| == |Roots(c)|
  {
    var n := |c|;
    forall x: nat | x < n
      ensures ClassOf(pairs, n, x) == Class(c, Root(c, x))
    {
    }
    forall r: nat | r in Roots(c)
      ensures r in Class(c, r)
    {
    }
    var f := (r: nat) => set y: nat | y < n && Connected(pairs, r, y);
    assert Classes(pairs, n) == Image(Roots(c), f) by {
      forall x: nat | x < n
        ensures ClassOf(pairs, n, x) == f(Root(c, x)) && Root(c, x) in Roots(c)
      {
        assert ClassOf(pairs, n, Root(c, x)) == Class(c, Root(c, x));
      }
    }
    ImageSize(Roots(c), f);
  }

  ghost function Image<A, B>(s: set<A>, f: A -> B): set<B> {
    set x | x in s :: f(x)
  }

  lemma {:induction false} ImageSize<A, B>(s: set<A>, f: A -> B)
    requires forall x, y :: x in s && y in s && f(x) == f(y) ==> x == y
    ensures |Image(s, f)| == |s|
  {
    if s == {} {
    } else {
      var a :| a in s;
      ImageSize(s - {a}, f);
      assert Image(s, f) == Image(s - {a}, f) + {f(a)};
    }
  }

  // ---------- the container ----------

  class DisjointSet {
    const cont: array<Point>
    var ngroups: int
    ghost var joined: seq<Pair>

    ghost predicate Valid()
      reads this, cont
    {
      var c := cont[..];
      Forest(c) && Balanced(c) && Represents(c, joined) && ngroups == |Roots(c)|
    }

    constructor (sz: nat)
      ensures Valid() && fresh(cont)
      ensures joined == [] && cont.Length == sz
    {
      cont := new Point[sz](i => Point(-1, 0));
      ngroups := sz;
      joined := [];
      new;
      FreshRepresents(sz);
      assert cont[..] == seq(sz, i => Point(-1, 0));
    }

    method Clear()
      modifies this, cont
      ensures Valid() && joined == []
    {
      ngroups := cont.Length;
      forall i | 0 <= i < cont.Length {
        cont[i] := Point(-1, 0);
      }
      joined := [];
      FreshRepresents(cont.Length);
      assert cont[..] == seq(cont.Length, i => Point(-1, 0));
    }

    /** Only for an element that is still unset or is a root. */
    method MakeSet(vx: nat) returns (r: nat)
      requires Valid() && vx < cont.Length && IsRoot(cont[..], vx)
      modifies cont
      ensures Valid() && r == vx
      ensures cont[..] == Found(old(cont[..]), vx)
    {
      FindKeepsClasses(cont[..], vx);
      FindRepresents(cont[..], vx, joined);
      ghost var next := Found(cont[..], vx);
      cont[vx] := cont[vx].(parent := vx);
      assert cont[..] == next;
      r := vx;
    }

    /** The root, in at most log2(n) rounds of the loop. */
    method Find(vx: nat) returns (parent: nat, ghost rounds: nat)
      requires Valid() && vx < cont.Length
      modifies cont
      ensures Valid() && cont[..] == Found(old(cont[..]), vx)
      ensures parent == Root(old(cont[..]), vx) == Root(cont[..], vx)
      ensures forall y: nat :: y < cont.Length ==> (Root(cont[..], y) == parent <==> Connected(joined, vx, y))
      ensures Pow2(rounds) <= cont.Length
    {
      ghost var c := cont[..];
      FindKeepsClasses(c, vx);
      FindRepresents(c, vx, joined);
      DepthIsLogarithmic(c, vx);
      assert Node(c, vx);
      rounds := 0;
      if cont[vx].parent == -1 {
        parent := MakeSet(vx);
      } else {
        parent := cont[vx].parent;
        assert Node(c, parent);
        while parent != cont[parent].parent
          invariant cont[..] == c && parent < |c| && c[parent].parent != -1
          invariant Root(c, parent) == Root(c, vx)
          invariant rounds + Depth(c, parent) <= Depth(c, vx)
          decreases Depth(c, parent)
        {
          assert Node(c, parent) && Node(c, c[parent].parent);
          parent := cont[parent].parent;
          rounds := rounds + 1;
        }
        Pow2Monotone(rounds, Depth(c, vx));
        cont[vx] := cont[vx].(parent := parent);
        assert cont[..] == Found(c, vx);
      }
    }

    method Join(vx: nat, vy: nat)
      requires Valid() && vx < cont.Length && vy < cont.Length
      modifies this, cont
      ensures Valid() && joined == old(joined) + [(vx, vy)]
      ensures cont[..] == Joined(old(cont[..]), vx, vy)
      ensures ngroups == old(ngroups) - if old(Connected(joined, vx, vy)) then 0 else 1
    {
      hide Balanced, Represents, Connected, Node;
      ghost var c0 := cont[..];
      var xroot, _ := Find(vx);
      var yroot, _ := Find(vy);
      ghost var c := cont[..];
      JoinIsRight(c0, vx, vy, joined);
      joined := joined + [(vx, vy)];
      if xroot == yroot {
        return;
      }
      if cont[xroot].rank < cont[yroot].rank {
        cont[xroot] := cont[xroot].(parent := yroot);
      } else if cont[yroot].rank < cont[xroot].rank {
        cont[yroot] := cont[yroot].(parent := xroot);
      } else {
        cont[yroot] := cont[yroot].(parent := xroot);
        cont[xroot] := cont[xroot].(rank := cont[xroot].rank + 1);
      }
      ngroups := ngroups - 1;
      assert cont[..] == Linked(c, xroot, yroot);
    }

    method NGroups() returns (n: int)
      requires Valid()
      ensures n == |Classes(joined, cont.Length)|
    {
      ClassesAreRoots(cont[..], joined);
      n := ngroups;
    }
  }
}

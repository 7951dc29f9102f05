/** The graph work inside `cascade_bumps`: the depth-first cycle diagnosis and the
    manifest-ordered topological sort. */
module FloorGraph {
  import opened Text

  type Graph = map<string, seq<string>>

  /** Every edge ends at a node. */
  ghost predicate Closed(g: Graph) {
    forall n, d {:trigger d in g[n]} :: n in g && d in g[n] ==> d in g
  }

  ghost predicate Edge(g: Graph, a: string, b: string) { a in g && b in g[a] }

  ghost predicate IsWalk(g: Graph, w: seq<string>) {
    w != [] && forall i :: 0 < i < |w| ==> Edge(g, w[i - 1], w[i])
  }

  /** A closed walk with at least one edge. */
  ghost predicate IsCycle(g: Graph, w: seq<string>) { |w| >= 2 && IsWalk(g, w) && w[0] == w[|w| - 1] }

  ghost predicate HasCycle(g: Graph) { exists w :: IsCycle(g, w) }

  /** Post-order list: what a node points at is finished before it. */
  ghost predicate PostOrder(g: Graph, done: seq<string>) {
    && AllDistinct(done)
    && forall i, d {:trigger d in g[done[i]]} :: 0 <= i < |done| && done[i] in g && d in g[done[i]] ==> d in done[..i]
  }

  lemma {:induction false} PostOrderDescends(g: Graph, done: seq<string>, w: seq<string>, i: nat)
    requires PostOrder(g, done) && IsWalk(g, w) && i < |done| && done[i] == w[0]
    ensures exists k :: 0 <= k <= i && done[k] == w[|w| - 1]
    ensures |w| >= 2 ==> exists k :: 0 <= k < i && done[k] == w[|w| - 1]
    decreases |w|
  {
    if |w| >= 2 {
      var t := w[1..];
      assert Edge(g, w[1 - 1], w[1]);
      assert w[1] in done[..i];
      var k :| 0 <= k < i && done[k] == w[1];
      forall j | 0 < j < |t| ensures Edge(g, t[j - 1], t[j]) {
        assert Edge(g, w[j + 1 - 1], w[j + 1]);
      }
      PostOrderDescends(g, done, t, k);
    }
  }

  /** A post-order of all nodes certifies that no cycle exists. */
  lemma PostOrderMeansAcyclic(g: Graph, done: seq<string>)
    requires Closed(g) && PostOrder(g, done) && forall n :: n in g ==> n in done
    ensures !HasCycle(g)
  {
    forall w ensures !IsCycle(g, w) {
      if IsCycle(g, w) {
        assert Edge(g, w[1 - 1], w[1]);
        var i :| 0 <= i < |done| && done[i] == w[0];
        PostOrderDescends(g, done, w, i);
      }
    }
  }

  lemma {:induction false} DistinctFits(s: seq<string>, bag: set<string>)
    requires AllDistinct(s) && forall x :: x in s ==> x in bag
    ensures |s| <= |bag|
  {
    if s != [] {
      var t := s[..|s| - 1];
      forall x | x in t ensures x in bag - {s[|s| - 1]} {
        var i :| 0 <= i < |t| && t[i] == x;
        assert s[i] == x && s[i] in s;
      }
      DistinctFits(t, bag - {s[|s| - 1]});
      assert s[|s| - 1] in s;
    }
  }

  /** The active path is a walk of unfinished names, and the finished ones stand in post-order. */
  ghost predicate Searching(g: Graph, active: seq<string>, visited: set<string>, done: seq<string>) {
    && Closed(g)
    && AllDistinct(active) && (forall n :: n in active ==> n in g && n !in visited)
    && (active != [] ==> IsWalk(g, active))
    && PostOrder(g, done) && (forall n :: n in visited <==> n in done)
    && (forall n :: n in done ==> n in g)
  }

  lemma EnterNode(g: Graph, active: seq<string>, visited: set<string>, done: seq<string>, name: string)
    requires Searching(g, active, visited, done) && name in g && name !in active && name !in visited
    requires active != [] ==> Edge(g, active[|active| - 1], name)
    ensures Searching(g, active + [name], visited, done) && |active| + 1 <= |g.Keys|
  {
    PushPath(g, active, name);
    DistinctFits(active + [name], g.Keys);
  }

  lemma LeaveNode(g: Graph, active: seq<string>, visited: set<string>, done: seq<string>, name: string)
    requires Searching(g, active + [name], visited, done) && forall d :: d in g[name] ==> d in visited
    ensures Searching(g, active, visited + {name}, done + [name])
  {
    var path := active + [name];
    assert path[|active|] == name && name in path;
    forall n | n in active ensures n in path && n != name {
      var i :| 0 <= i < |active| && active[i] == n;
      assert path[i] == n;
    }
    forall i | 0 < i < |active| ensures Edge(g, active[i - 1], active[i]) {
      assert Edge(g, path[i - 1], path[i]);
    }
    assert AllDistinct(active) by { assert forall i :: 0 <= i < |active| ==> active[i] == path[i]; }
    FinishNode(g, done, name);
  }

  /** The state of the nested `visit` closure: finished names and the active path. */
  class CycleFinder {
    const edges: Graph
    var visited: set<string>
    var active: seq<string>
    ghost var done: seq<string>

    ghost predicate Valid() reads this { Searching(edges, active, visited, done) }

    constructor (edges: Graph)
      requires Closed(edges)
      ensures Valid() && this.edges == edges && visited == {} && active == []
    {
      this.edges := edges;
      visited, active, done := {}, [], [];
    }

    /** Depth-first visit: a cycle is reported exactly as found on the active path, and without
        one the name and everything below it are finished and the path is restored. */
    method Visit(name: string) returns (cycle: Option<seq<string>>)
      requires Valid() && name in edges
      requires active != [] ==> Edge(edges, active[|active| - 1], name)
      modifies this
      decreases |edges.Keys| - |active|
      ensures cycle.None? ==> Valid() && active == old(active) && name in visited && old(visited) <= visited
      ensures cycle.Some? ==> IsCycle(edges, cycle.value) && AllDistinct(cycle.value[1..])
    {
      if name in active {
        var i := IndexOf(active, name);
        ClosesCycle(edges, active, name, i);
        return Some(active[i..] + [name]);
      }
      if name in visited { return None; }
      EnterNode(edges, active, visited, done, name);
      active := active + [name];
      for k := 0 to |edges[name]|
        invariant Valid() && active == old(active) + [name] && old(visited) <= visited
        invariant forall j :: 0 <= j < k ==> edges[name][j] in visited
      {
        assert edges[name][k] in edges[name];
        var found := Visit(edges[name][k]);
        if found.Some? { return found; }
      }
      LeaveNode(edges, old(active), visited, done, name);
      active := active[..|active| - 1];
      visited := visited + {name};
      done := done + [name];
      cycle := None;
    }

    /** `for name in sources: visit(name)` */
    method FindCycle(names: seq<string>) returns (cycle: Option<seq<string>>)
      requires Valid() && active == [] && forall n :: n in names <==> n in edges
      modifies this
      ensures cycle.Some? <==> HasCycle(edges)
      ensures cycle.Some? ==> IsCycle(edges, cycle.value) && AllDistinct(cycle.value[1..])
      ensures cycle.None? ==> PostOrder(edges, done) && forall n :: n in edges <==> n in done
    {
      cycle := None;
      for k := 0 to |names|
        invariant Valid() && active == [] && cycle.None?
        invariant forall j :: 0 <= j < k ==> names[j] in visited
      {
        assert names[k] in names;
        cycle := Visit(names[k]);
        if cycle.Some? { return; }
      }
      PostOrderMeansAcyclic(edges, done);
    }
  }

  method IndexOf(s: seq<string>, x: string) returns (i: nat)
    requires x in s
    ensures i < |s| && s[i] == x && x !in s[..i]
  {
    i := 0;
    while s[i] != x
      invariant i < |s| && x !in s[..i] && x in s[i..]
      decreases |s| - i
    {
      assert s[i..] == [s[i]] + s[i + 1..];
      i := i + 1;
    }
  }

  /** An edge back into the active path closes a cycle that repeats no other name. */
  lemma ClosesCycle(g: Graph, active: seq<string>, name: string, i: nat)
    requires AllDistinct(active) && IsWalk(g, active) && Edge(g, active[|active| - 1], name)
    requires i < |active| && active[i] == name
    ensures IsCycle(g, active[i..] + [name]) && AllDistinct((active[i..] + [name])[1..])
  {
    var w := active[i..] + [name];
    forall j | 0 < j < |w| ensures Edge(g, w[j - 1], w[j]) {
      assert w[j - 1] == active[i + j - 1];
      if j < |w| - 1 { assert w[j] == active[i + j]; }
    }
    forall j | 0 <= j < |w| - 1 ensures w[1..][j] == if j < |w| - 2 then active[i + 1 + j] else active[i] {}
  }

  lemma PushPath(g: Graph, active: seq<string>, name: string)
    requires AllDistinct(active) && name !in active
      && (active != [] ==> IsWalk(g, active) && Edge(g, active[|active| - 1], name))
    ensures AllDistinct(active + [name]) && IsWalk(g, active + [name])
  {
    var p := active + [name];
    forall j | 0 < j < |p| ensures Edge(g, p[j - 1], p[j]) {
      if j < |active| { assert Edge(g, active[j - 1], active[j]); }
    }
  }

  lemma FinishNode(g: Graph, done: seq<string>, name: string)
    requires PostOrder(g, done) && name !in done && (name in g ==> forall d :: d in g[name] ==> d in done)
    ensures PostOrder(g, done + [name])
  {
    var next := done + [name];
    forall i, d | 0 <= i < |next| && next[i] in g && d in g[next[i]] ensures d in next[..i] {
      if i < |done| { assert next[..i] == done[..i] && d in g[done[i]]; } else { assert next[..i] == done; }
    }
  }

  // ---------- topological order with manifest-order ties ----------

  /** Edges into n from the listed nodes, with multiplicity: what the `incoming` dict stores. */
  ghost function Pending(g: Graph, nodes: seq<string>, n: string): nat {
    if nodes == [] then 0
    else
      var m := nodes[|nodes| - 1];
      Pending(g, nodes[..|nodes| - 1], n) + if m in g then multiset(g[m])[n] else 0
  }

  lemma {:induction false} PendingZero(g: Graph, nodes: seq<string>, n: string)
    ensures Pending(g, nodes, n) == 0 <==> forall m :: m in nodes ==> !Edge(g, m, n)
  {
    if nodes != [] {
      var m, init := nodes[|nodes| - 1], nodes[..|nodes| - 1];
      PendingZero(g, init, n);
      assert Edge(g, m, n) <==> m in g && multiset(g[m])[n] > 0;
      assert nodes == init + [m] && m in nodes;
      if Pending(g, nodes, n) == 0 {
        forall x | x in nodes ensures !Edge(g, x, n) { assert x in init || x == m; }
      } else if Pending(g, init, n) == 0 {
        assert Edge(g, m, n);
      } else {
        var x :| x in init && Edge(g, x, n);
        assert x in nodes;
      }
    }
  }

  lemma {:induction false} PendingWithout(g: Graph, nodes: seq<string>, k: nat, n: string)
    requires k < |nodes| && nodes[k] in g
    ensures Pending(g, nodes, n) == Pending(g, nodes[..k] + nodes[k + 1..], n) + multiset(g[nodes[k]])[n]
  {
    var last := |nodes| - 1;
    if k == last {
      assert nodes[..k] + nodes[k + 1..] == nodes[..last];
    } else {
      PendingWithout(g, nodes[..last], k, n);
      var cut := nodes[..k] + nodes[k + 1..];
      assert cut[..|cut| - 1] == nodes[..last][..k] + nodes[..last][k + 1..];
    }
  }

  ghost predicate Before(names: seq<string>, a: string, b: string) {
    exists i, j :: 0 <= i < j < |names| && names[i] == a && names[j] == b
  }

  /** Every predecessor of n is already placed. */
  ghost predicate Ready(g: Graph, placed: seq<string>, n: string) { forall m :: Edge(g, m, n) ==> m in placed }

  ghost predicate IsTopological(g: Graph, names: seq<string>, order: seq<string>) {
    && AllDistinct(order) && (forall n :: n in order <==> n in names)
    && forall i :: 0 <= i < |order| ==> Ready(g, order[..i], order[i])
  }

  /** At every place stands the first name in manifest order that was ready. */
  ghost predicate TakesFirstReady(g: Graph, names: seq<string>, order: seq<string>) {
    forall i, n :: 0 <= i < |order| && n in names && n !in order[..i] && Before(names, n, order[i]) ==>
      !Ready(g, order[..i], n)
  }

  /** Against any other topological order, ours is smaller in manifest order where they first differ. */
  lemma LeastTopological(g: Graph, names: seq<string>, order: seq<string>, other: seq<string>, k: nat)
    requires AllDistinct(names) && IsTopological(g, names, order) && TakesFirstReady(g, names, order)
    requires IsTopological(g, names, other)
    requires k < |order| && k < |other| && order[..k] == other[..k] && order[k] != other[k]
    ensures Before(names, order[k], other[k])
  {
    var a, b := order[k], other[k];
    assert a in names && b in names by { assert a in order && b in other; }
    assert b !in order[..k] by { assert forall i :: 0 <= i < k ==> other[i] != b; }
    assert Ready(g, order[..k], b);
    assert !Before(names, b, a);
    var i :| 0 <= i < |names| && names[i] == a;
    var j :| 0 <= j < |names| && names[j] == b;
    assert i < j;
  }

  ghost predicate InManifestOrder(names: seq<string>, left: seq<string>) {
    AllDistinct(left) && forall i, j :: 0 <= i < j < |left| ==> Before(names, left[i], left[j])
  }

  ghost predicate Split(names: seq<string>, left: seq<string>, order: seq<string>) {
    (forall n :: n in names <==> n in left || n in order) && forall n :: n in left ==> n !in order
  }

  ghost predicate Counts(g: Graph, left: seq<string>, count: map<string, int>) {
    (forall n :: n in count <==> n in left) && forall n :: n in count ==> count[n] == Pending(g, left, n)
  }

  ghost predicate Placed(g: Graph, names: seq<string>, order: seq<string>) {
    && AllDistinct(order) && TakesFirstReady(g, names, order)
    && forall i :: 0 <= i < |order| ==> Ready(g, order[..i], order[i])
  }

  /** The loop state: names left in dict order, their counts, names placed. */
  ghost predicate Sorting(g: Graph, names: seq<string>, left: seq<string>, count: map<string, int>,
                          order: seq<string>) {
    InManifestOrder(names, left) && Split(names, left, order) && Counts(g, left, count) && Placed(g, names, order)
  }

  lemma ZeroMeansReady(g: Graph, names: seq<string>, left: seq<string>, count: map<string, int>, order: seq<string>,
                       n: string)
    requires Sorting(g, names, left, count, order) && n in left && forall m :: m in g ==> m in names
    ensures count[n] == 0 <==> Ready(g, order, n)
  {
    PendingZero(g, left, n);
    if Ready(g, order, n) {
      forall m | m in left ensures !Edge(g, m, n) {}
    }
  }

  /** In an acyclic graph the loop always has a name to take. */
  lemma {:induction false} SomeReady(g: Graph, names: seq<string>, left: seq<string>, order: seq<string>,
                                     done: seq<string>, top: nat)
    requires PostOrder(g, done) && top <= |done| && left != []
    requires forall m :: m in g ==> m in left || m in order
    requires forall n :: n in left ==> n in done[..top] && n in g
    ensures exists n :: n in left && Ready(g, order, n)
    decreases top
  {
    assert left[0] in done[..top];
    var x := done[top - 1];
    assert done[..top] == done[..top - 1] + [x];
    if x in left {
      forall i | 0 <= i < top ensures !Edge(g, done[i], x) {
        assert x !in done[..i];
      }
      assert Ready(g, order, x);
    } else {
      SomeReady(g, names, left, order, done, top - 1);
    }
  }

  /** `incoming[dependent] += 1` for every edge, or `-= 1` for the edges of one placed name. */
  method Count(count0: map<string, int>, dependents: seq<string>, step: int) returns (count: map<string, int>)
    requires forall d :: d in dependents ==> d in count0
    ensures count.Keys == count0.Keys
    ensures forall n :: n in count ==> count[n] == count0[n] + step * multiset(dependents)[n]
  {
    count := count0;
    for k := 0 to |dependents|
      invariant count.Keys == count0.Keys
      invariant forall n :: n in count ==> count[n] == count0[n] + step * multiset(dependents[..k])[n]
    {
      TakeOneMore(dependents, k);
      assert dependents[k] in dependents;
      MulNext(step, multiset(dependents[..k])[dependents[k]]);
      count := count[dependents[k] := count[dependents[k]] + step];
    }
    assert dependents[..|dependents|] == dependents;
  }

  lemma MulNext(step: int, k: int)
    ensures step * (k + 1) == step * k + step
  {
  }

  method IncomingCounts(g: Graph, names: seq<string>) returns (count: map<string, int>)
    requires Closed(g) && forall n :: n in names <==> n in g
    ensures forall n :: n in count <==> n in names
    ensures forall n :: n in count ==> count[n] == Pending(g, names, n)
  {
    count := map n | n in names :: 0;
    for i := 0 to |names|
      invariant forall n :: n in count <==> n in names
      invariant forall n :: n in count ==> count[n] == Pending(g, names[..i], n)
    {
      TakeOneMore(names, i);
      assert names[i] in names;
      count := Count(count, g[names[i]], 1);
    }
    assert names[..|names|] == names;
  }

  lemma StillPlaced(g: Graph, names: seq<string>, order: seq<string>, x: string)
    requires Placed(g, names, order) && x !in order && Ready(g, order, x)
    requires forall n :: n in names && n !in order && Before(names, n, x) ==> !Ready(g, order, n)
    ensures Placed(g, names, order + [x])
  {
    var next := order + [x];
    forall i | 0 <= i < |next| ensures Ready(g, next[..i], next[i]) {
      if i < |order| { assert next[..i] == order[..i]; } else { assert next[..i] == order; }
    }
    forall i, n | 0 <= i < |next| && n in names && n !in next[..i] && Before(names, n, next[i])
      ensures !Ready(g, next[..i], n)
    {
      if i < |order| { assert next[..i] == order[..i]; } else { assert next[..i] == order; }
    }
  }

  /** The first zero count is the first ready name in manifest order. */
  lemma FirstZeroIsFirstReady(g: Graph, names: seq<string>, left: seq<string>, count: map<string, int>,
                              order: seq<string>, k: nat, n: string)
    requires Sorting(g, names, left, count, order) && k < |left| && AllDistinct(names)
    requires forall m :: m in g ==> m in names
    requires forall i :: 0 <= i < k ==> count[left[i]] != 0
    requires n in names && n !in order && Before(names, n, left[k])
    ensures !Ready(g, order, n)
  {
    forall j | k <= j < |left| ensures left[j] != n {
      assert j == k || Before(names, left[k], left[j]);
    }
    ZeroMeansReady(g, names, left, count, order, n);
  }

  lemma RemoveOne(names: seq<string>, left: seq<string>, order: seq<string>, k: nat)
    requires k < |left| && InManifestOrder(names, left) && Split(names, left, order)
    ensures InManifestOrder(names, left[..k] + left[k + 1..])
    ensures Split(names, left[..k] + left[k + 1..], order + [left[k]])
    ensures forall n :: n in left[..k] + left[k + 1..] <==> n in left && n != left[k]
  {
    var rest := left[..k] + left[k + 1..];
    forall n ensures n in rest <==> n in left && n != left[k] {
      assert left == left[..k] + [left[k]] + left[k + 1..];
      assert left[k] !in left[..k] && left[k] !in left[k + 1..];
    }
    forall i, j | 0 <= i < j < |rest| ensures rest[i] != rest[j] && Before(names, rest[i], rest[j]) {
      assert rest[i] == left[if i < k then i else i + 1] && rest[j] == left[if j < k then j else j + 1];
    }
  }

  lemma CountsAfter(g: Graph, left: seq<string>, count: map<string, int>, k: nat, count': map<string, int>)
    requires k < |left| && left[k] in g && Counts(g, left, count)
    requires forall n :: n in count' <==> n in left[..k] + left[k + 1..]
    requires forall n :: n in count' ==> n in count && count'[n] == count[n] - multiset(g[left[k]])[n]
    ensures Counts(g, left[..k] + left[k + 1..], count')
  {
    forall n | n in count' ensures count'[n] == Pending(g, left[..k] + left[k + 1..], n) {
      PendingWithout(g, left, k, n);
    }
  }

  lemma PlaceName(g: Graph, names: seq<string>, left: seq<string>, count: map<string, int>, order: seq<string>, k: nat,
                  count': map<string, int>)
    requires Sorting(g, names, left, count, order) && k < |left| && AllDistinct(names)
    requires forall n :: n in names <==> n in g
    requires count[left[k]] == 0 && forall i :: 0 <= i < k ==> count[left[i]] != 0
    requires count'.Keys == count.Keys - {left[k]}
    requires forall n :: n in count' ==> count'[n] == count[n] - multiset(g[left[k]])[n]
    ensures Sorting(g, names, left[..k] + left[k + 1..], count', order + [left[k]])
  {
    RemoveOne(names, left, order, k);
    CountsAfter(g, left, count, k, count');
    PlaceReady(g, names, left, count, order, k);
  }

  lemma PlaceReady(g: Graph, names: seq<string>, left: seq<string>, count: map<string, int>, order: seq<string>, k: nat)
    requires Sorting(g, names, left, count, order) && k < |left| && AllDistinct(names)
    requires forall n :: n in names <==> n in g
    requires count[left[k]] == 0 && forall i :: 0 <= i < k ==> count[left[i]] != 0
    ensures Placed(g, names, order + [left[k]])
  {
    ZeroMeansReady(g, names, left, count, order, left[k]);
    forall n | n in names && n !in order && Before(names, n, left[k]) ensures !Ready(g, order, n) {
      FirstZeroIsFirstReady(g, names, left, count, order, k, n);
    }
    StillPlaced(g, names, order, left[k]);
  }

  lemma BeforeIsStrict(names: seq<string>, a: string, b: string)
    requires AllDistinct(names)
    ensures Before(names, b, a) ==> a != b && !Before(names, a, b)
  {
  }

  /** The Kahn loop: never short of a ready name, and always taking the first in manifest order. */
  method TopologicalOrder(g: Graph, names: seq<string>, ghost done: seq<string>) returns (order: seq<string>)
    requires Closed(g) && AllDistinct(names) && forall n :: n in names <==> n in g
    requires PostOrder(g, done) && forall n :: n in g <==> n in done
    ensures IsTopological(g, names, order) && TakesFirstReady(g, names, order)
  {
    var count := IncomingCounts(g, names);
    var left := names;
    order := [];
    while left != []
      invariant Sorting(g, names, left, count, order)
      decreases |left|
    {
      assert done[..|done|] == done;
      SomeReady(g, names, left, order, done, |done|);
      ghost var some :| some in left && Ready(g, order, some);
      ZeroMeansReady(g, names, left, count, order, some);
      var k := FirstZero(left, count);
      var name := left[k];
      PendingZero(g, left, name);
      forall d | d in g[name] ensures d in count - {name} {
        assert Edge(g, name, d) && d in names;
        PlacedBefore(g, names, left, count, order, name, d);
      }
      var next := Count(count - {name}, g[name], -1);
      PlaceName(g, names, left, count, order, k, next);
      left, count, order := left[..k] + left[k + 1..], next, order + [name];
    }
  }

  lemma PlacedBefore(g: Graph, names: seq<string>, left: seq<string>, count: map<string, int>, order: seq<string>,
                     m: string, d: string)
    requires Sorting(g, names, left, count, order) && m in left && Edge(g, m, d) && d in names
    requires Pending(g, left, m) == 0
    ensures d in left && d != m
  {
    PendingZero(g, left, m);
    forall i | 0 <= i < |order| ensures order[i] != d {
      assert Ready(g, order[..i], order[i]);
      assert forall x :: x in order[..i] ==> x in order;
    }
  }

  /** `next(name for name, count in incoming.items() if count == 0)` */
  method FirstZero(left: seq<string>, count: map<string, int>) returns (k: nat)
    requires forall n :: n in left ==> n in count
    requires exists n :: n in left && count[n] == 0
    ensures k < |left| && count[left[k]] == 0 && forall i :: 0 <= i < k ==> count[left[i]] != 0
  {
    k := 0;
    while count[left[k]] != 0
      invariant k < |left| && forall i :: 0 <= i < k ==> count[left[i]] != 0
      invariant exists i :: k <= i < |left| && count[left[i]] == 0
      decreases |left| - k
    {
      k := k + 1;
    }
  }
}

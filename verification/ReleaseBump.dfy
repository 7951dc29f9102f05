/** The coordinated release bump: plan the floor-rewrite closure, bump each member upstream
    first, sync the anchor's pins, bump the anchor. */
module ReleaseBump {
  import opened Text
  import opened FloorGraph
  import opened Versions

  /** A `name>=X.Y.Z,<upper"` entry; `dist` is the text before `>=`. */
  datatype Floor = Floor(dist: string, min: Version)

  datatype Package = Package(name: string, dist: string, version: Version, floors: seq<Floor>)

  function Bump(v: Version): Version { v.(patch := v.patch + 1) }

  /** The floor pattern is searched unanchored, so it matches any entry whose name ends with dist. */
  predicate Matches(dist: string, f: Floor) {
    EndsWith(f.dist, dist)
  }

  predicate Carries(p: Package, dist: string) { exists f :: f in p.floors && Matches(dist, f) }

  function Rewrite(floors: seq<Floor>, dist: string, v: Version): (r: seq<Floor>)
    ensures |r| == |floors|
    ensures forall i :: 0 <= i < |r| ==> r[i].dist == floors[i].dist
  {
    seq(|floors|, i requires 0 <= i < |floors| => if Matches(dist, floors[i]) then floors[i].(min := v) else floors[i])
  }

  lemma RewriteChangesMatching(floors: seq<Floor>, dist: string, v: Version)
    ensures Rewrite(floors, dist, v) != floors <==> exists f :: f in floors && Matches(dist, f) && f.min != v
  {
    var r := Rewrite(floors, dist, v);
    if f :| f in floors && Matches(dist, f) && f.min != v {
      var i :| 0 <= i < |floors| && floors[i] == f;
      assert r[i] != floors[i];
    } else {
      assert forall i :: 0 <= i < |floors| ==> floors[i] in floors && r[i] == floors[i];
    }
  }

  function Names(m: seq<Package>): (r: seq<string>)
    ensures |r| == |m| && forall i :: 0 <= i < |m| ==> r[i] == m[i].name
  {
    seq(|m|, i requires 0 <= i < |m| => m[i].name)
  }

  /** Dependents of p in manifest order: those carrying its floor, or only those a bump would rewrite. */
  function Downstream(m: seq<Package>, p: Package, onlyRewritten: bool): seq<string> {
    if m == [] then []
    else
      var q := m[|m| - 1];
      var hit := q.name != p.name && Carries(q, p.dist)
        && (onlyRewritten ==> Rewrite(q.floors, p.dist, Bump(p.version)) != q.floors);
      Downstream(m[..|m| - 1], p, onlyRewritten) + if hit then [q.name] else []
  }

  lemma {:induction false} DownstreamExact(m: seq<Package>, p: Package, only: bool, d: string)
    ensures d in Downstream(m, p, only) <==>
              exists q :: q in m && q.name == d && d != p.name && Carries(q, p.dist)
                && (only ==> Rewrite(q.floors, p.dist, Bump(p.version)) != q.floors)
  {
    if m != [] {
      DownstreamExact(m[..|m| - 1], p, only, d);
      assert m == m[..|m| - 1] + [m[|m| - 1]];
    }
  }

  ghost predicate IsGraphOf(m: seq<Package>, g: Graph, only: bool) {
    && (forall n :: n in g <==> n in Names(m))
    && forall i :: 0 <= i < |m| ==> m[i].name in g && g[m[i].name] == Downstream(m, m[i], only)
  }

  method Dependents(m: seq<Package>, p: Package) returns (all: seq<string>, changed: seq<string>)
    ensures all == Downstream(m, p, false) && changed == Downstream(m, p, true)
  {
    all, changed := [], [];
    for j := 0 to |m|
      invariant all == Downstream(m[..j], p, false) && changed == Downstream(m[..j], p, true)
    {
      TakeOneMore(m, j);
      var q := m[j];
      if q.name != p.name && Carries(q, p.dist) {
        all := all + [q.name];
        if Rewrite(q.floors, p.dist, Bump(p.version)) != q.floors { changed := changed + [q.name]; }
      }
    }
    assert m[..|m|] == m;
  }

  ghost predicate GraphSoFar(m: seq<Package>, i: nat, g: Graph, only: bool) {
    && i <= |m| && (forall n :: n in g <==> n in Names(m))
    && forall j :: 0 <= j < i ==> m[j].name in g && g[m[j].name] == Downstream(m, m[j], only)
  }

  lemma AddNode(m: seq<Package>, i: nat, g: Graph, only: bool)
    requires AllDistinct(Names(m)) && GraphSoFar(m, i, g, only) && i < |m|
    ensures GraphSoFar(m, i + 1, g[m[i].name := Downstream(m, m[i], only)], only)
  {
    assert Names(m)[i] == m[i].name;
    var h := g[m[i].name := Downstream(m, m[i], only)];
    forall j | 0 <= j < i + 1 ensures m[j].name in h && h[m[j].name] == Downstream(m, m[j], only) {
      assert Names(m)[j] == m[j].name;
    }
  }

  method Graphs(m: seq<Package>) returns (edges: Graph, rewrites: Graph)
    requires AllDistinct(Names(m))
    ensures IsGraphOf(m, edges, false) && IsGraphOf(m, rewrites, true)
  {
    edges := map n | n in Names(m) :: [];
    rewrites := map n | n in Names(m) :: [];
    for i := 0 to |m|
      invariant GraphSoFar(m, i, edges, false) && GraphSoFar(m, i, rewrites, true)
    {
      var all, changed := Dependents(m, m[i]);
      AddNode(m, i, edges, false);
      AddNode(m, i, rewrites, true);
      edges, rewrites := edges[m[i].name := all], rewrites[m[i].name := changed];
    }
  }

  lemma GraphEdges(m: seq<Package>, g: Graph, only: bool, i: nat, d: string)
    requires AllDistinct(Names(m)) && IsGraphOf(m, g, only) && i < |m|
    ensures Edge(g, m[i].name, d) <==>
              exists j :: 0 <= j < |m| && m[j].name == d && d != m[i].name && Carries(m[j], m[i].dist)
                && (only ==> Rewrite(m[j].floors, m[i].dist, Bump(m[i].version)) != m[j].floors)
  {
    DownstreamExact(m, m[i], only, d);
    assert forall j :: 0 <= j < |m| ==> m[j] in m;
  }

  lemma GraphClosed(m: seq<Package>, g: Graph, only: bool)
    requires AllDistinct(Names(m)) && IsGraphOf(m, g, only)
    ensures Closed(g)
  {
    forall n, d | n in g && d in g[n] ensures d in g {
      var i :| 0 <= i < |m| && Names(m)[i] == n;
      GraphEdges(m, g, only, i, d);
      var j :| 0 <= j < |m| && m[j].name == d;
      assert Names(m)[j] == d;
    }
  }

  lemma RewritesAreEdges(m: seq<Package>, edges: Graph, rewrites: Graph, a: string, b: string)
    requires AllDistinct(Names(m)) && IsGraphOf(m, edges, false) && IsGraphOf(m, rewrites, true)
    requires Edge(rewrites, a, b)
    ensures Edge(edges, a, b)
  {
    var i :| 0 <= i < |m| && Names(m)[i] == a;
    GraphEdges(m, rewrites, true, i, b);
    GraphEdges(m, edges, false, i, b);
  }

  // ---------- the plan ----------

  /** Some chain of rewrites leads from a drifted name to n. */
  ghost predicate Reached(rewrites: Graph, drifted: seq<string>, n: string) {
    exists w :: IsWalk(rewrites, w) && w[0] in drifted && w[|w| - 1] == n
  }

  lemma ReachedSeed(rewrites: Graph, drifted: seq<string>, n: string)
    requires n in drifted
    ensures Reached(rewrites, drifted, n)
  {
    var w := [n];
    assert IsWalk(rewrites, w) && w[0] in drifted && w[|w| - 1] == n;
  }

  lemma ReachedStep(rewrites: Graph, drifted: seq<string>, a: string, b: string)
    requires Reached(rewrites, drifted, a) && Edge(rewrites, a, b)
    ensures Reached(rewrites, drifted, b)
  {
    var w :| IsWalk(rewrites, w) && w[0] in drifted && w[|w| - 1] == a;
    var v := w + [b];
    forall i | 0 < i < |v| ensures Edge(rewrites, v[i - 1], v[i]) {
      if i < |w| { assert Edge(rewrites, w[i - 1], w[i]); }
    }
    assert IsWalk(rewrites, v) && v[0] in drifted && v[|v| - 1] == b;
  }

  ghost predicate RewriteClosed(rewrites: Graph, planned: set<string>) {
    forall a, b :: a in planned && Edge(rewrites, a, b) ==> b in planned
  }

  lemma {:induction false} WalkStaysInside(rewrites: Graph, planned: set<string>, w: seq<string>)
    requires RewriteClosed(rewrites, planned) && IsWalk(rewrites, w) && w[0] in planned
    ensures w[|w| - 1] in planned
    decreases |w|
  {
    if |w| > 1 {
      var v := w[..|w| - 1];
      forall i | 0 < i < |v| ensures Edge(rewrites, v[i - 1], v[i]) { assert Edge(rewrites, w[i - 1], w[i]); }
      WalkStaysInside(rewrites, planned, v);
      assert Edge(rewrites, w[|w| - 2], w[|w| - 1]);
    }
  }

  /** The closure pass before position i: sound, and closed at the places passed. */
  ghost predicate Closing(rewrites: Graph, drifted: seq<string>, order: seq<string>, i: nat, planned: set<string>) {
    && i <= |order| && (forall n :: n in drifted ==> n in planned)
    && (forall n :: n in planned ==> Reached(rewrites, drifted, n))
    && forall j, b :: 0 <= j < i && order[j] in planned && Edge(rewrites, order[j], b) ==> b in planned
  }

  lemma CloseStep(edges: Graph, rewrites: Graph, names: seq<string>, drifted: seq<string>, order: seq<string>, i: nat,
                  planned: set<string>)
    requires IsTopological(edges, names, order) && Closing(rewrites, drifted, order, i, planned) && i < |order|
    requires order[i] in rewrites && forall a, b :: Edge(rewrites, a, b) ==> Edge(edges, a, b)
    ensures order[i] in planned ==>
      Closing(rewrites, drifted, order, i + 1, planned + (set d | d in rewrites[order[i]]))
    ensures order[i] !in planned ==> Closing(rewrites, drifted, order, i + 1, planned)
  {
    var x := order[i];
    if x in planned {
      var grown := planned + (set d | d in rewrites[x]);
      forall n | n in grown ensures Reached(rewrites, drifted, n) {
        if n !in planned {
          assert Edge(rewrites, x, n);
          ReachedStep(rewrites, drifted, x, n);
        }
      }
      forall j, b | 0 <= j < i + 1 && order[j] in grown && Edge(rewrites, order[j], b) ensures b in grown {
        assert Ready(edges, order[..j], order[j]) && x !in order[..j];
        assert !Edge(edges, x, order[j]);
        assert !Edge(rewrites, x, order[j]) && order[j] in planned;
      }
    }
  }

  /** `for name in order: if name in planned: planned.update(rewrites[name])` */
  method Close(ghost edges: Graph, rewrites: Graph, ghost names: seq<string>, drifted: seq<string>, order: seq<string>)
    returns (planned: set<string>)
    requires IsTopological(edges, names, order) && forall n :: n in names <==> n in rewrites
    requires forall a, b :: Edge(rewrites, a, b) ==> Edge(edges, a, b)
    ensures forall n :: n in planned <==> Reached(rewrites, drifted, n)
    ensures RewriteClosed(rewrites, planned)
  {
    planned := set n | n in drifted;
    forall n | n in planned ensures Reached(rewrites, drifted, n) { ReachedSeed(rewrites, drifted, n); }
    for i := 0 to |order|
      invariant Closing(rewrites, drifted, order, i, planned)
    {
      assert order[i] in order;
      CloseStep(edges, rewrites, names, drifted, order, i, planned);
      if order[i] in planned {
        planned := planned + (set d | d in rewrites[order[i]]);
      }
    }
    assert RewriteClosed(rewrites, planned) by {
      forall a, b | a in planned && Edge(rewrites, a, b) ensures b in planned {
        assert a in order;
        var j :| 0 <= j < |order| && order[j] == a;
      }
    }
    forall n | Reached(rewrites, drifted, n) ensures n in planned {
      var w :| IsWalk(rewrites, w) && w[0] in drifted && w[|w| - 1] == n;
      WalkStaysInside(rewrites, planned, w);
    }
  }

  function Keep(order: seq<string>, planned: set<string>): seq<string> {
    if order == [] then []
    else Keep(order[..|order| - 1], planned) + if order[|order| - 1] in planned then [order[|order| - 1]] else []
  }

  lemma {:induction false} KeepMembers(order: seq<string>, planned: set<string>)
    ensures forall n :: n in Keep(order, planned) <==> n in order && n in planned
  {
    if order != [] {
      KeepMembers(order[..|order| - 1], planned);
      assert order == order[..|order| - 1] + [order[|order| - 1]];
    }
  }

  lemma {:induction false} KeepExact(order: seq<string>, planned: set<string>)
    requires AllDistinct(order)
    ensures AllDistinct(Keep(order, planned))
    ensures forall n :: n in Keep(order, planned) <==> n in order && n in planned
    ensures forall i, j :: 0 <= i < j < |Keep(order, planned)| ==>
      Before(order, Keep(order, planned)[i], Keep(order, planned)[j])
  {
    if order != [] {
      var n := |order| - 1;
      var init := order[..n];
      KeepExact(init, planned);
      var r := Keep(order, planned);
      assert order == init + [order[n]];
      forall i, j | 0 <= i < j < |r| ensures Before(order, r[i], r[j]) && r[i] != r[j] {
        if j < |Keep(init, planned)| {
          assert Before(init, r[i], r[j]);
          var a, b :| 0 <= a < b < |init| && init[a] == r[i] && init[b] == r[j];
          assert order[a] == r[i] && order[b] == r[j];
        } else {
          assert r[i] in Keep(init, planned);
          var a :| 0 <= a < |init| && init[a] == r[i];
          assert order[a] == r[i] && order[n] == r[j];
        }
      }
    }
  }

  datatype Plan = Ordered(names: seq<string>) | Cyclic(cycle: seq<string>)

  /** `cascade_bumps`. The ghost results name the graphs and the full order behind the plan. */
  method CascadeBumps(m: seq<Package>, drifted: seq<string>)
    returns (plan: Plan, ghost edges: Graph, ghost rewrites: Graph, ghost order: seq<string>,
      ghost planned: set<string>)
    requires AllDistinct(Names(m))
    ensures IsGraphOf(m, edges, false) && IsGraphOf(m, rewrites, true)
    ensures plan.Cyclic? <==> HasCycle(edges)
    ensures plan.Cyclic? ==> IsCycle(edges, plan.cycle) && AllDistinct(plan.cycle[1..])
    ensures plan.Ordered? ==> IsTopological(edges, Names(m), order) && TakesFirstReady(edges, Names(m), order)
    ensures plan.Ordered? ==> plan.names == Keep(order, planned) && RewriteClosed(rewrites, planned)
    ensures plan.Ordered? ==> forall n :: n in planned <==> Reached(rewrites, drifted, n)
    ensures plan.Ordered? ==> AllDistinct(plan.names) && forall n :: n in plan.names ==> n in Names(m)
    ensures plan.Ordered? ==> forall n :: n in drifted && n in Names(m) ==> n in plan.names
    ensures plan.Cyclic? ==> |plan.cycle| >= 2 && plan.cycle[0] == plan.cycle[|plan.cycle| - 1]
  {
    var e, r := Graphs(m);
    edges, rewrites, order, planned := e, r, [], {};
    GraphClosed(m, e, false);
    forall a, b | Edge(r, a, b) ensures Edge(e, a, b) { RewritesAreEdges(m, e, r, a, b); }
    var finder := new CycleFinder(e);
    var cycle := finder.FindCycle(Names(m));
    if cycle.Some? {
      plan := Cyclic(cycle.value);
    } else {
      var o := TopologicalOrder(e, Names(m), finder.done);
      order := o;
      var all := Close(e, r, Names(m), drifted, o);
      planned := all;
      plan := Ordered(Keep(o, all));
      KeepExact(o, all);
      forall n | n in drifted ensures n in all { ReachedSeed(r, drifted, n); }
    }
  }

  // ---------- the run ----------

  function Bumped(m: seq<Package>, k: nat): (r: seq<Package>)
    requires k < |m|
    ensures |r| == |m| && forall i :: 0 <= i < |m| ==> r[i].name == m[i].name && r[i].dist == m[i].dist
  {
    seq(|m|, i requires 0 <= i < |m| =>
      if m[i].name == m[k].name then m[i].(version := Bump(m[k].version))
      else m[i].(floors := Rewrite(m[i].floors, m[k].dist, Bump(m[k].version))))
  }

  function Find(m: seq<Package>, name: string): (k: nat)
    ensures k < |m| ==> m[k].name == name
    ensures k >= |m| ==> name !in Names(m)
  {
    if m == [] then 0
    else if m[0].name == name then 0
    else
      var k := Find(m[1..], name);
      assert forall i :: 1 <= i < |m| ==> Names(m)[i] == Names(m[1..])[i - 1];
      1 + k
  }

  /** release_prepare on each name in turn; a name outside the manifest changes nothing. */
  function Run(m: seq<Package>, names: seq<string>): (r: seq<Package>)
    ensures |r| == |m| && forall i :: 0 <= i < |m| ==> r[i].name == m[i].name && r[i].dist == m[i].dist
  {
    if names == [] then m
    else
      var s := Run(m, names[..|names| - 1]);
      var k := Find(s, names[|names| - 1]);
      if k < |s| then Bumped(s, k) else s
  }

  lemma {:induction false} FloorDistsKept(m: seq<Package>, names: seq<string>, q: nat)
    requires q < |m|
    ensures |Run(m, names)[q].floors| == |m[q].floors|
    ensures forall i :: 0 <= i < |m[q].floors| ==> Run(m, names)[q].floors[i].dist == m[q].floors[i].dist
  {
    if names != [] { FloorDistsKept(m, names[..|names| - 1], q); }
  }

  lemma CarriesSame(a: Package, b: Package, dist: string)
    requires |a.floors| == |b.floors| && forall i :: 0 <= i < |a.floors| ==> a.floors[i].dist == b.floors[i].dist
    requires Carries(a, dist)
    ensures Carries(b, dist)
  {
    var i :| 0 <= i < |a.floors| && Matches(dist, a.floors[i]);
    assert b.floors[i] in b.floors;
  }

  lemma FloorNamesKept(m: seq<Package>, names: seq<string>, q: nat, dist: string)
    requires q < |m|
    ensures Carries(Run(m, names)[q], dist) <==> Carries(m[q], dist)
  {
    FloorDistsKept(m, names, q);
    var s := Run(m, names)[q];
    if Carries(s, dist) { CarriesSame(s, m[q], dist); }
    if Carries(m[q], dist) { CarriesSame(m[q], s, dist); }
  }

  /** Every package named once is bumped exactly once, and no other version moves. */
  lemma {:induction false} VersionsAfter(m: seq<Package>, names: seq<string>, q: nat)
    requires AllDistinct(Names(m)) && AllDistinct(names) && q < |m|
    ensures Run(m, names)[q].version == if m[q].name in names then Bump(m[q].version) else m[q].version
    ensures var v, w := m[q].version, Run(m, names)[q].version;
      v.major == w.major && v.minor == w.minor && w.patch == v.patch + if m[q].name in names then 1 else 0
  {
    if names != [] {
      var n := |names| - 1;
      var last := names[n];
      VersionsAfter(m, names[..n], q);
      assert names == names[..n] + [last] && last !in names[..n];
      var s := Run(m, names[..n]);
      var k := Find(s, last);
      assert Names(s) == Names(m);
      if k < |s| && s[q].name == last { assert Names(m)[k] == Names(m)[q]; }
      if k >= |s| { assert Names(s)[q] == m[q].name; }
    }
  }

  /** What the planner hands to the run: the kept part of a topological order, less the anchor. */
  ghost predicate IsPlan(m: seq<Package>, edges: Graph, rewrites: Graph, order: seq<string>, planned: set<string>,
                         anchor: string, members: seq<string>) {
    && AllDistinct(Names(m)) && IsGraphOf(m, edges, false) && IsGraphOf(m, rewrites, true)
    && IsTopological(edges, Names(m), order) && RewriteClosed(rewrites, planned)
    && members == Keep(order, planned - {anchor})
  }

  lemma SamePlaceInPlan(order: seq<string>, members: seq<string>, i: nat, j: nat)
    requires AllDistinct(order) && i < |members| && j < |members| && Before(order, members[i], members[j])
    requires forall a, b :: 0 <= a < b < |members| ==> Before(order, members[a], members[b])
    ensures i < j
  {
    BeforeIsStrict(order, members[i], members[j]);
  }

  lemma MembersOfPlan(m: seq<Package>, edges: Graph, rewrites: Graph, order: seq<string>, planned: set<string>,
                      anchor: string, members: seq<string>)
    requires IsPlan(m, edges, rewrites, order, planned, anchor, members)
    ensures AllDistinct(members)
    ensures forall n :: n in members <==> n in Names(m) && n in planned && n != anchor
    ensures forall i, j :: 0 <= i < |members| && 0 <= j < |members| && Edge(edges, members[i], members[j]) ==> i < j
  {
    KeepExact(order, planned - {anchor});
    forall i, j | 0 <= i < |members| && 0 <= j < |members| && Edge(edges, members[i], members[j]) ensures i < j {
      assert members[i] in members && members[j] in members;
      var b :| 0 <= b < |order| && order[b] == members[j];
      assert Ready(edges, order[..b], order[b]);
      var a :| 0 <= a < b && order[a] == members[i];
      SamePlaceInPlan(order, members, i, j);
    }
  }

  /** A floor changed by an early part of the run belongs to a planned package. */
  lemma {:induction false} ChangedMeansPlanned(m: seq<Package>, edges: Graph, rewrites: Graph, order: seq<string>,
                                               planned: set<string>, anchor: string, members: seq<string>, i: nat,
                                               q: nat)
    requires IsPlan(m, edges, rewrites, order, planned, anchor, members) && i <= |members| && q < |m|
    requires Run(m, members[..i])[q].floors != m[q].floors
    ensures m[q].name in planned
  {
    if i > 0 {
      var s := Run(m, members[..i - 1]);
      var k := StepOfPlan(m, edges, rewrites, order, planned, anchor, members, i - 1);
      TakeOneMore(members, i - 1);
      LastBumps(m, members[..i], members[..i - 1], members[i - 1], k);
      if s[q].floors != m[q].floors {
        ChangedMeansPlanned(m, edges, rewrites, order, planned, anchor, members, i - 1, q);
      } else {
        FirstRewriteIsEdge(m, rewrites, s, k, q);
        PlannedBelow(m, edges, rewrites, order, planned, anchor, members, i - 1, m[q].name);
      }
    }
  }

  /** Whatever a member's bump would rewrite in the manifest is planned. */
  lemma PlannedBelow(m: seq<Package>, edges: Graph, rewrites: Graph, order: seq<string>, planned: set<string>,
                     anchor: string, members: seq<string>, i: nat, d: string)
    requires IsPlan(m, edges, rewrites, order, planned, anchor, members) && i < |members|
    requires Edge(rewrites, members[i], d)
    ensures d in planned
  {
    MembersOfPlan(m, edges, rewrites, order, planned, anchor, members);
    assert members[i] in members;
  }

  /** Step i of a plan bumps the package of that name, which still has its initial version. */
  lemma StepOfPlan(m: seq<Package>, edges: Graph, rewrites: Graph, order: seq<string>, planned: set<string>,
                   anchor: string, members: seq<string>, i: nat) returns (k: nat)
    requires IsPlan(m, edges, rewrites, order, planned, anchor, members) && i < |members|
    ensures k < |m| && m[k].name == members[i] && Run(m, members[..i])[k].version == m[k].version
    ensures Find(Run(m, members[..i]), members[i]) == k
  {
    MembersOfPlan(m, edges, rewrites, order, planned, anchor, members);
    assert members[i] in members;
    k := BumperVersion(m, members, i);
  }

  lemma LastBumps(m: seq<Package>, names: seq<string>, early: seq<string>, last: string, k: nat)
    requires names == early + [last] && k < |m| && Find(Run(m, early), last) == k
    ensures Run(m, names) == Bumped(Run(m, early), k)
  {
    assert names[..|names| - 1] == early;
  }

  lemma RunNames(m: seq<Package>, names: seq<string>)
    ensures Names(Run(m, names)) == Names(m)
  {
  }

  lemma {:induction false} FindsNamed(s: seq<Package>, k: nat)
    requires AllDistinct(Names(s)) && k < |s|
    ensures Find(s, s[k].name) == k
  {
    assert Names(s)[k] == s[k].name;
    var f := Find(s, s[k].name);
    assert f < |s| && Names(s)[f] == s[k].name;
  }

  /** Just before its own bump a member still has its initial version. */
  lemma BumperVersion(m: seq<Package>, members: seq<string>, i: nat) returns (k: nat)
    requires AllDistinct(Names(m)) && AllDistinct(members) && i < |members| && members[i] in Names(m)
    ensures k < |m| && m[k].name == members[i] && Find(Run(m, members[..i]), members[i]) == k
    ensures Run(m, members[..i])[k].version == m[k].version
  {
    var early := members[..i];
    k :| 0 <= k < |m| && Names(m)[k] == members[i];
    RunNames(m, early);
    FindsNamed(Run(m, early), k);
    assert members[i] !in early;
    VersionsAfter(m, early, k);
  }

  lemma FirstRewriteIsEdge(m: seq<Package>, rewrites: Graph, s: seq<Package>, k: nat, q: nat)
    requires AllDistinct(Names(m)) && IsGraphOf(m, rewrites, true) && |s| == |m| && k < |m| && q < |m|
    requires s[k].version == m[k].version && s[k].dist == m[k].dist && s[k].name == m[k].name
    requires s[q].floors == m[q].floors && s[q].name == m[q].name && Bumped(s, k)[q].floors != s[q].floors
    ensures Edge(rewrites, m[k].name, m[q].name)
  {
    RewriteChangesMatching(m[q].floors, m[k].dist, Bump(m[k].version));
    GraphEdges(m, rewrites, true, k, m[q].name);
  }

  /** The step theorem: whenever bumping a member rewrites another package's floor, that package is
      the anchor or is bumped later in the same run. */
  lemma RewriteBeforeBump(m: seq<Package>, edges: Graph, rewrites: Graph, order: seq<string>, planned: set<string>,
                          anchor: string, members: seq<string>, i: nat, q: nat)
    requires IsPlan(m, edges, rewrites, order, planned, anchor, members) && i < |members| && q < |m|
    requires Run(m, members[..i + 1])[q].floors != Run(m, members[..i])[q].floors
    ensures m[q].name == anchor || exists j :: i < j < |members| && members[j] == m[q].name
  {
    var s := Run(m, members[..i]);
    var k := StepOfPlan(m, edges, rewrites, order, planned, anchor, members, i);
    TakeOneMore(members, i);
    LastBumps(m, members[..i + 1], members[..i], members[i], k);
    if Run(m, members[..i + 1])[q].floors != m[q].floors {
      ChangedMeansPlanned(m, edges, rewrites, order, planned, anchor, members, i + 1, q);
    } else {
      ChangedMeansPlanned(m, edges, rewrites, order, planned, anchor, members, i, q);
    }
    RewriteChangesMatching(s[q].floors, m[k].dist, Bump(m[k].version));
    FloorNamesKept(m, members[..i], q, m[k].dist);
    GraphEdges(m, edges, false, k, m[q].name);
    assert Names(m)[q] == m[q].name;
    if m[q].name != anchor {
      DependentsLater(m, edges, rewrites, order, planned, anchor, members, i, m[q].name);
    }
  }

  /** A planned package that carries a floor on a member is a later member, unless it is the anchor. */
  lemma DependentsLater(m: seq<Package>, edges: Graph, rewrites: Graph, order: seq<string>, planned: set<string>,
                        anchor: string, members: seq<string>, i: nat, d: string)
    requires IsPlan(m, edges, rewrites, order, planned, anchor, members) && i < |members|
    requires d in planned && d != anchor && d in Names(m) && Edge(edges, members[i], d)
    ensures exists j :: i < j < |members| && members[j] == d
  {
    MembersOfPlan(m, edges, rewrites, order, planned, anchor, members);
    assert d in members;
    var j :| 0 <= j < |members| && members[j] == d;
    assert Edge(edges, members[i], members[j]);
  }

  /** Step i of the run changes the floors of package q. */
  ghost predicate Moves(m: seq<Package>, members: seq<string>, i: nat, q: nat)
    requires i < |members| && q < |m|
  {
    Run(m, members[..i + 1])[q].floors != Run(m, members[..i])[q].floors
  }

  ghost predicate MovesPrecedeBumps(m: seq<Package>, members: seq<string>, anchor: string) {
    && AllDistinct(Names(m)) && AllDistinct(members) && anchor !in members
    && forall i, q :: 0 <= i < |members| && 0 <= q < |m| && Moves(m, members, i, q) && m[q].name != anchor ==>
         exists j :: i < j < |members| && members[j] == m[q].name
  }

  lemma PlanMovesPrecedeBumps(m: seq<Package>, edges: Graph, rewrites: Graph, order: seq<string>, planned: set<string>,
                              anchor: string, members: seq<string>)
    requires IsPlan(m, edges, rewrites, order, planned, anchor, members)
    ensures MovesPrecedeBumps(m, members, anchor)
  {
    MembersOfPlan(m, edges, rewrites, order, planned, anchor, members);
    forall i, q | 0 <= i < |members| && 0 <= q < |m| && Moves(m, members, i, q) && m[q].name != anchor
      ensures exists j :: i < j < |members| && members[j] == m[q].name
    {
      RewriteBeforeBump(m, edges, rewrites, order, planned, anchor, members, i, q);
    }
  }

  lemma OwnBumpMovesNothing(m: seq<Package>, members: seq<string>, j: nat, q: nat)
    requires j < |members| && q < |m| && members[j] == m[q].name
    ensures !Moves(m, members, j, q)
  {
    var s := Run(m, members[..j]);
    TakeOneMore(members, j);
    assert Names(s)[q] == members[j];
  }

  lemma MovesOnlyLater(m: seq<Package>, anchor: string, members: seq<string>, j: nat, i: nat, q: nat)
    requires MovesPrecedeBumps(m, members, anchor)
    requires j <= i < |members| && q < |m| && members[j] == m[q].name
    ensures !Moves(m, members, i, q)
  {
    assert members[j] in members;
    if i == j { OwnBumpMovesNothing(m, members, j, q); }
  }

  /** Package q holds the same floors after the first i members and after the first j. */
  ghost predicate SameFloors(m: seq<Package>, members: seq<string>, i: nat, j: nat, q: nat)
    requires i <= |members| && j <= |members| && q < |m|
  {
    Run(m, members[..i])[q].floors == Run(m, members[..j])[q].floors
  }

  lemma SameFloorsJoin(m: seq<Package>, members: seq<string>, i: nat, k: nat, j: nat, q: nat)
    requires i <= |members| && k <= |members| && j <= |members| && q < |m|
    requires SameFloors(m, members, i, k, q) && SameFloors(m, members, k, j, q)
    ensures SameFloors(m, members, i, j, q)
  {
  }

  lemma StillAt(m: seq<Package>, anchor: string, members: seq<string>, j: nat, k: nat, next: nat, q: nat)
    requires MovesPrecedeBumps(m, members, anchor)
    requires j <= k < |members| && next == k + 1 && q < |m| && members[j] == m[q].name
    ensures SameFloors(m, members, next, k, q)
  {
    MovesOnlyLater(m, anchor, members, j, k, q);
  }

  /** So after its own bump a member's floors never move again. */
  lemma {:induction false} SettledOnceBumped(m: seq<Package>, anchor: string, members: seq<string>, j: nat, i: nat,
                                             q: nat)
    requires MovesPrecedeBumps(m, members, anchor)
    requires j <= i <= |members| && q < |m| && j < |members| && members[j] == m[q].name
    ensures SameFloors(m, members, i, j, q)
    decreases i
  {
    if i > j {
      var k := i - 1;
      SettledOnceBumped(m, anchor, members, j, k, q);
      StillAt(m, anchor, members, j, k, i, q);
      SameFloorsJoin(m, members, i, k, j, q);
    }
  }

  /** And a package that is not bumped has no floor changed at all. */
  lemma {:induction false} UnbumpedUntouched(m: seq<Package>, anchor: string, members: seq<string>, i: nat, q: nat)
    requires MovesPrecedeBumps(m, members, anchor)
    requires i <= |members| && q < |m| && m[q].name !in members && m[q].name != anchor
    ensures Run(m, members[..i])[q] == m[q]
  {
    if i > 0 {
      UnbumpedUntouched(m, anchor, members, i - 1, q);
      VersionsAfter(m, members[..i], q);
      assert !Moves(m, members, i - 1, q);
    }
  }

  /** Package q's floors are as they were when it was bumped, or as at the start if it was not. */
  ghost predicate CleanAt(m: seq<Package>, members: seq<string>, final: seq<Package>, q: nat)
    requires |final| == |m| && q < |m|
  {
    && (m[q].name !in members ==> final[q] == m[q])
    && (forall j :: 0 <= j < |members| && members[j] == m[q].name ==>
          final[q].floors == Run(m, members[..j])[q].floors && final[q].version == Bump(m[q].version))
  }

  ghost predicate Clean(m: seq<Package>, members: seq<string>, a: nat, final: seq<Package>)
    requires |final| == |m|
  {
    forall q :: 0 <= q < |m| && q != a ==> CleanAt(m, members, final, q)
  }

  lemma CleanBeforeAnchor(m: seq<Package>, anchor: string, members: seq<string>, q: nat)
    requires MovesPrecedeBumps(m, members, anchor) && q < |m| && m[q].name != anchor
    ensures m[q].name !in members ==> Run(m, members)[q] == m[q]
    ensures forall j :: 0 <= j < |members| && members[j] == m[q].name ==>
              Run(m, members)[q].floors == Run(m, members[..j])[q].floors
                && Run(m, members)[q].version == Bump(m[q].version)
  {
    assert members[..|members|] == members;
    if m[q].name !in members {
      UnbumpedUntouched(m, anchor, members, |members|, q);
    }
    forall j | 0 <= j < |members| && members[j] == m[q].name
      ensures Run(m, members)[q].floors == Run(m, members[..j])[q].floors
        && Run(m, members)[q].version == Bump(m[q].version)
    {
      assert members[j] in members;
      VersionsAfter(m, members, q);
      SettledOnceBumped(m, anchor, members, j, |members|, q);
    }
  }

  /** What floor x of package q holds once the members are bumped, read off the initial manifest: the bumped version of
      the last member that matches it, q's own bump apart, or what it held. */
  function Settled(m: seq<Package>, members: seq<string>, q: nat, x: nat): Version
    requires q < |m| && x < |m[q].floors|
  {
    if members == [] then m[q].floors[x].min
    else
      var last := members[|members| - 1];
      var k := Find(m, last);
      if k < |m| && last != m[q].name && Matches(m[k].dist, m[q].floors[x]) then Bump(m[k].version)
      else Settled(m, members[..|members| - 1], q, x)
  }

  /** The run leaves every floor at its settled version. */
  lemma {:induction false} RunSettles(m: seq<Package>, members: seq<string>, q: nat, x: nat)
    requires AllDistinct(Names(m)) && AllDistinct(members) && q < |m| && x < |m[q].floors|
    ensures |Run(m, members)[q].floors| == |m[q].floors|
    ensures Run(m, members)[q].floors[x] == m[q].floors[x].(min := Settled(m, members, q, x))
  {
    if members != [] {
      var n := |members| - 1;
      var early, last := members[..n], members[n];
      var s := Run(m, early);
      RunSettles(m, early, q, x);
      FloorDistsKept(m, members, q);
      RunNames(m, early);
      SamePlace(m, s, last);
      if Find(m, last) < |m| {
        var k := BumperVersion(m, members, n);
        assert Names(m)[k] == last && Names(m)[q] == m[q].name;
      }
    }
  }

  /** The anchor's own bump leaves the floors of q at what they then hold. */
  ghost predicate AnchorLeaves(m: seq<Package>, members: seq<string>, a: nat, q: nat)
    requires a < |m| && q < |m|
  {
    forall x :: 0 <= x < |m[q].floors| && Matches(m[a].dist, m[q].floors[x]) ==>
      Settled(m, members, q, x) == Bump(m[a].version)
  }

  lemma AnchorStep(m: seq<Package>, anchor: string, members: seq<string>, a: nat, q: nat)
    requires MovesPrecedeBumps(m, members, anchor) && a < |m| && m[a].name == anchor && q < |m| && q != a
    ensures CleanAt(m, members, Bumped(Run(m, members), a), q) <==> AnchorLeaves(m, members, a, q)
  {
    var s := Run(m, members);
    assert Names(m)[q] != Names(m)[a];
    CleanBeforeAnchor(m, anchor, members, q);
    VersionsAfter(m, members, a);
    RewriteFixesIff(s[q].floors, s[a].dist, Bump(s[a].version));
    FloorDistsKept(m, members, q);
    forall x | 0 <= x < |m[q].floors| ensures s[q].floors[x] == m[q].floors[x].(min := Settled(m, members, q, x)) {
      RunSettles(m, members, q, x);
    }
    if m[q].name in members { var j :| 0 <= j < |members| && members[j] == m[q].name; }
  }

  lemma RewriteFixesIff(floors: seq<Floor>, dist: string, v: Version)
    ensures Rewrite(floors, dist, v) == floors <==>
              forall x :: 0 <= x < |floors| && Matches(dist, floors[x]) ==> floors[x].min == v
  {
    RewriteChangesMatching(floors, dist, v);
    assert forall x :: 0 <= x < |floors| ==> floors[x] in floors;
  }

  /** The whole-run theorem: members in plan order, then the anchor. The result is clean exactly when every floor that
      matches the anchor is, by the initial manifest, going to hold the anchor's next version anyway. */
  lemma RunIsClean(m: seq<Package>, edges: Graph, rewrites: Graph, order: seq<string>, planned: set<string>,
                   anchor: string, members: seq<string>, a: nat)
    requires IsPlan(m, edges, rewrites, order, planned, anchor, members) && a < |m| && m[a].name == anchor
    ensures Clean(m, members, a, Bumped(Run(m, members), a)) <==>
              forall q :: 0 <= q < |m| && q != a ==> AnchorLeaves(m, members, a, q)
  {
    PlanMovesPrecedeBumps(m, edges, rewrites, order, planned, anchor, members);
    forall q | 0 <= q < |m| && q != a
      ensures CleanAt(m, members, Bumped(Run(m, members), a), q) <==> AnchorLeaves(m, members, a, q)
    {
      AnchorStep(m, anchor, members, a, q);
    }
  }

  /** Package i is matched by floor x of package q. */
  predicate Owns(m: seq<Package>, i: nat, q: nat, x: nat)
    requires i < |m| && q < |m| && x < |m[q].floors|
  {
    Matches(m[i].dist, m[q].floors[x])
  }

  /** No floor matches two packages. */
  ghost predicate OneOwner(m: seq<Package>) {
    forall q, x, i, j | 0 <= q < |m| && 0 <= x < |m[q].floors| && 0 <= i < |m| && 0 <= j < |m| ::
      Owns(m, i, q, x) && Owns(m, j, q, x) ==> i == j
  }

  lemma {:induction false} OwnedFloorSettles(m: seq<Package>, members: seq<string>, a: nat, q: nat, x: nat)
    requires OneOwner(m) && a < |m| && q < |m| && x < |m[q].floors| && m[a].name !in members
    requires Matches(m[a].dist, m[q].floors[x])
    ensures Settled(m, members, q, x) == m[q].floors[x].min
  {
    if members != [] {
      var k := Find(m, members[|members| - 1]);
      assert Owns(m, a, q, x);
      assert k < |m| ==> m[k].name in members && (Owns(m, k, q, x) ==> k == a);
      OwnedFloorSettles(m, members[..|members| - 1], a, q, x);
    }
  }

  /** Where no floor matches two packages, the run is clean iff no other package holds a floor on the anchor at
      anything but its next version. */
  lemma RunIsCleanWhenOwned(m: seq<Package>, edges: Graph, rewrites: Graph, order: seq<string>, planned: set<string>,
                            anchor: string, members: seq<string>, a: nat)
    requires IsPlan(m, edges, rewrites, order, planned, anchor, members) && a < |m| && m[a].name == anchor
      && OneOwner(m)
    ensures Clean(m, members, a, Bumped(Run(m, members), a)) <==>
              forall q, f :: 0 <= q < |m| && q != a && f in m[q].floors && Matches(m[a].dist, f) ==>
                f.min == Bump(m[a].version)
  {
    RunIsClean(m, edges, rewrites, order, planned, anchor, members, a);
    MembersOfPlan(m, edges, rewrites, order, planned, anchor, members);
    forall q, x | 0 <= q < |m| && q != a && 0 <= x < |m[q].floors| && Matches(m[a].dist, m[q].floors[x])
      ensures Settled(m, members, q, x) == m[q].floors[x].min && m[q].floors[x] in m[q].floors
    {
      OwnedFloorSettles(m, members, a, q, x);
    }
    if forall q :: 0 <= q < |m| && q != a ==> AnchorLeaves(m, members, a, q) {
      forall q, f | 0 <= q < |m| && q != a && f in m[q].floors && Matches(m[a].dist, f)
        ensures f.min == Bump(m[a].version)
      {
        var x :| 0 <= x < |m[q].floors| && m[q].floors[x] == f;
        assert AnchorLeaves(m, members, a, q);
      }
    }
  }

  /** A run that is not clean, for every two packages of which the second requires the anchor at its current version:
      the second is bumped first, and the anchor's bump then moves its floor. */
  lemma FloorOnAnchorDrifts(m: seq<Package>)
    requires |m| == 2 && m[0].name != m[1].name && m[1].floors == [Floor(m[0].dist, m[0].version)]
    requires !EndsWith(m[0].dist, m[1].dist)
    ensures !Clean(m, [m[1].name], 0, Bumped(Run(m, [m[1].name]), 0))
  {
    var b := m[1].name;
    assert [b][..0] == [] && Run(m, []) == m;
    assert m[1..][0].name == b && Find(m[1..], b) == 0 && Find(m, b) == 1;
    var s := Bumped(m, 1);
    assert Run(m, [b]) == s;
    assert s[1].floors == m[1].floors;
    assert m[0].dist[0..] == m[0].dist;
    assert Bumped(s, 0)[1].floors[0].min == Bump(m[0].version);
    assert !CleanAt(m, [b], Bumped(s, 0), 1) by { assert [b][0] == b; }
  }

  /** What `cascade_bumps` returns for the drifted names where it does not refuse. */
  ghost predicate Planned(m: seq<Package>, drifted: seq<string>, edges: Graph, rewrites: Graph, order: seq<string>,
                          planned: set<string>) {
    && IsGraphOf(m, edges, false) && IsGraphOf(m, rewrites, true)
    && IsTopological(edges, Names(m), order) && RewriteClosed(rewrites, planned)
    && forall n :: n in planned <==> Reached(rewrites, drifted, n)
  }

  /** Two packages of which only the second carries a floor, on the first at its current version. */
  ghost predicate HangsOnAnchor(m: seq<Package>) {
    && |m| == 2 && m[0].name != m[1].name && m[1].floors == [Floor(m[0].dist, m[0].version)]
    && !EndsWith(m[0].dist, m[1].dist) && !Carries(m[0], m[1].dist)
  }

  /** The only edge such a manifest can have leads from the first package to the second. */
  lemma OnlyEdge(m: seq<Package>, g: Graph, only: bool, x: string, y: string)
    requires HangsOnAnchor(m) && IsGraphOf(m, g, only) && Edge(g, x, y)
    ensures x == m[0].name && y == m[1].name
  {
    TwoNames(m);
    var i: nat :| i < |m| && Names(m)[i] == x;
    GraphEdges(m, g, only, i, y);
    CarriesFirst(m, i, y);
  }

  lemma TwoNames(m: seq<Package>)
    requires HangsOnAnchor(m)
    ensures AllDistinct(Names(m)) && forall n :: n in Names(m) <==> n == m[0].name || n == m[1].name
  {
    assert Names(m) == [m[0].name, m[1].name];
  }

  lemma CarriesFirst(m: seq<Package>, i: nat, y: string)
    requires HangsOnAnchor(m) && i < |m|
    requires exists j :: 0 <= j < |m| && m[j].name == y && y != m[i].name && Carries(m[j], m[i].dist)
    ensures i == 0 && y == m[1].name
  {
    var j :| 0 <= j < |m| && m[j].name == y && y != m[i].name && Carries(m[j], m[i].dist);
    assert i == 1 ==> j == 0;
  }

  lemma HangingIsAcyclic(m: seq<Package>, edges: Graph)
    requires HangsOnAnchor(m) && IsGraphOf(m, edges, false)
    ensures !HasCycle(edges)
  {
    forall w ensures !IsCycle(edges, w) {
      if IsCycle(edges, w) {
        assert Edge(edges, w[1 - 1], w[1]);
        OnlyEdge(m, edges, false, w[0], w[1]);
        if |w| > 2 {
          assert Edge(edges, w[2 - 1], w[2]);
          OnlyEdge(m, edges, false, w[1], w[2]);
        }
      }
    }
  }

  lemma OnlySecondReached(m: seq<Package>, rewrites: Graph, n: string)
    requires HangsOnAnchor(m) && IsGraphOf(m, rewrites, true)
    ensures Reached(rewrites, [m[1].name], n) <==> n == m[1].name
  {
    ReachedSeed(rewrites, [m[1].name], m[1].name);
    if w :| IsWalk(rewrites, w) && w[0] in [m[1].name] && w[|w| - 1] == n {
      if |w| > 1 {
        assert Edge(rewrites, w[1 - 1], w[1]);
        OnlyEdge(m, rewrites, true, w[0], w[1]);
      }
    }
  }

  /** The failing run is one the command makes: when the second package has drifted the planner does not refuse, plans
      exactly that package before the anchor, and the run it hands over ends unclean. */
  lemma FloorOnAnchorIsRun(m: seq<Package>, edges: Graph, rewrites: Graph, order: seq<string>, planned: set<string>)
    requires HangsOnAnchor(m) && IsGraphOf(m, edges, false)
    ensures !HasCycle(edges)
    ensures Planned(m, [m[1].name], edges, rewrites, order, planned) ==>
      IsPlan(m, edges, rewrites, order, planned, m[0].name, [m[1].name])
    ensures !Clean(m, [m[1].name], 0, Bumped(Run(m, [m[1].name]), 0))
  {
    HangingIsAcyclic(m, edges);
    FloorOnAnchorDrifts(m);
    if Planned(m, [m[1].name], edges, rewrites, order, planned) { SecondIsPlanned(m, edges, rewrites, order, planned); }
  }

  lemma SecondIsPlanned(m: seq<Package>, edges: Graph, rewrites: Graph, order: seq<string>, planned: set<string>)
    requires HangsOnAnchor(m) && Planned(m, [m[1].name], edges, rewrites, order, planned)
    ensures IsPlan(m, edges, rewrites, order, planned, m[0].name, [m[1].name])
  {
    forall n ensures n in planned <==> n == m[1].name { OnlySecondReached(m, rewrites, n); }
    TwoNames(m);
    KeepExact(order, planned - {m[0].name});
    OnlyElement(Keep(order, planned - {m[0].name}), m[1].name);
  }

  lemma OnlyElement(s: seq<string>, x: string)
    requires AllDistinct(s) && forall n :: n in s <==> n == x
    ensures s == [x]
  {
    DistinctFits(s, {x});
    assert x in s;
  }

  /** The smallest such manifest: b requires `a>=1.0.0`. */
  lemma FloorOnAnchorExample()
    ensures var v := Version(1, 0, 0);
            var m := [Package("a", "a", v, []), Package("b", "b", v, [Floor("a", v)])];
            HangsOnAnchor(m) && !Clean(m, ["b"], 0, Bumped(Run(m, ["b"]), 0))
  {
    var v := Version(1, 0, 0);
    assert !EndsWith("a", "b") by { assert "a"[0..][0] == 'a'; }
    FloorOnAnchorDrifts([Package("a", "a", v, []), Package("b", "b", v, [Floor("a", v)])]);
  }

  // ---------- the command ----------

  /** `plan_bumps`: members in plan order, and whether the anchor follows. */
  function PlanBumps(cascaded: seq<string>, anchor: string): (r: (seq<string>, bool))
    ensures forall n :: n in r.0 <==> n in cascaded && n != anchor
    ensures r.1 <==> cascaded != []
  {
    var members := Keep(cascaded, (set n | n in cascaded) - {anchor});
    KeepMembers(cascaded, (set n | n in cascaded) - {anchor});
    assert cascaded != [] ==> cascaded[0] in cascaded;
    (members, anchor in cascaded || members != [])
  }

  lemma {:induction false} KeepTwice(order: seq<string>, planned: set<string>, inner: set<string>)
    ensures Keep(Keep(order, planned), inner) == Keep(order, planned * inner)
  {
    if order != [] {
      var n := |order| - 1;
      KeepTwice(order[..n], planned, inner);
      var k := Keep(order[..n], planned);
      assert (k + [order[n]])[..|k|] == k && k + [] == k;
    }
  }

  lemma {:induction false} KeepAgrees(order: seq<string>, s: set<string>, t: set<string>)
    requires forall n :: n in order ==> (n in s <==> n in t)
    ensures Keep(order, s) == Keep(order, t)
  {
    if order != [] { KeepAgrees(order[..|order| - 1], s, t); }
  }

  lemma PlannedMembers(order: seq<string>, planned: set<string>, anchor: string)
    requires AllDistinct(order)
    ensures PlanBumps(Keep(order, planned), anchor).0 == Keep(order, planned - {anchor})
  {
    var cascaded := Keep(order, planned);
    var inner := (set n | n in cascaded) - {anchor};
    KeepTwice(order, planned, inner);
    KeepExact(order, planned);
    KeepAgrees(order, planned * inner, planned - {anchor});
  }

  /** The last package with this distribution, as a dict built in manifest order keeps it. */
  function FindDist(m: seq<Package>, dist: string): (k: nat)
    ensures k < |m| ==> m[k].dist == dist
    ensures k >= |m| ==> forall i :: 0 <= i < |m| ==> m[i].dist != dist
  {
    if m == [] then 0
    else if m[|m| - 1].dist == dist then |m| - 1
    else
      var k := FindDist(m[..|m| - 1], dist);
      if k < |m| - 1 then k else |m|
  }

  /** How the preparation of a package goes: refused by the checks that stand before every write, failed by the lock
      update that stands after them, or done. */
  datatype Fate = Refused | FailedLate | Passed

  /** The package's own files and the floors of the others get written. */
  predicate Written(m: seq<Package>, name: string, fate: string -> Fate) { fate(name) != Refused && name in Names(m) }

  predicate Preparable(m: seq<Package>, name: string, fate: string -> Fate) { fate(name) == Passed && name in Names(m) }

  /** Member k is the first whose preparation does not succeed. */
  ghost predicate FirstFailed(m: seq<Package>, members: seq<string>, fate: string -> Fate, k: nat) {
    k < |members| && !Preparable(m, members[k], fate) && forall j :: 0 <= j < k ==> Preparable(m, members[j], fate)
  }

  /** The manifest where member k was the first to fail: the members before it, and itself if it failed late. */
  ghost predicate FailedAt(m: seq<Package>, members: seq<string>, fate: string -> Fate, m': seq<Package>) {
    exists k: nat :: FirstFailed(m, members, fate, k)
      && m' == Run(m, members[..if Written(m, members[k], fate) then k + 1 else k])
  }

  ghost predicate AllPreparable(m: seq<Package>, members: seq<string>, fate: string -> Fate) {
    forall n :: n in members ==> Preparable(m, n, fate)
  }

  lemma RunOneMore(m: seq<Package>, members: seq<string>, i: nat)
    requires i < |members|
    ensures Run(m, members[..i + 1]) == Run(Run(m, members[..i]), [members[i]])
    ensures Names(Run(m, members[..i])) == Names(m)
  {
    var names := members[..i + 1];
    assert names[..i] == members[..i] && names[i] == members[i];
    assert [members[i]][..0] == [];
  }

  lemma PreparableOneMore(m: seq<Package>, members: seq<string>, fate: string -> Fate, i: nat)
    requires i < |members| && AllPreparable(m, members[..i], fate)
    ensures Preparable(m, members[i], fate) ==> AllPreparable(m, members[..i + 1], fate)
    ensures !Preparable(m, members[i], fate) ==>
      FirstFailed(m, members, fate, i) && !AllPreparable(m, members, fate)
  {
    TakeOneMore(members, i);
    assert members[i] in members;
    forall j | 0 <= j < i ensures Preparable(m, members[j], fate) { assert members[j] in members[..i]; }
  }

  ghost predicate StackKnown(m: seq<Package>, stackMembers: seq<string>) {
    forall d :: d in stackMembers ==> FindDist(m, d) < |m|
  }

  /** The pins are the stack members, each at its present version. */
  ghost predicate PinsHold(m: seq<Package>, pins: map<string, Version>, stackMembers: seq<string>) {
    && (forall d :: d in pins <==> d in stackMembers)
    && forall d :: d in pins ==> FindDist(m, d) < |m| && pins[d] == m[FindDist(m, d)].version
  }

  /** After the anchor's own bump: every stack member but the anchor is pinned at its present version. */
  ghost predicate PinsCurrent(m: seq<Package>, pins: map<string, Version>, stackMembers: seq<string>,
                              anchor: string) {
    forall d :: d in stackMembers ==>
      && d in pins && FindDist(m, d) < |m|
      && (m[FindDist(m, d)].name != anchor ==> pins[d] == m[FindDist(m, d)].version)
  }

  /** The anchor's bump moves no other version, so the pins written before it stay current. */
  lemma AnchorKeepsPins(m: seq<Package>, pins: map<string, Version>, stackMembers: seq<string>, k: nat)
    requires PinsHold(m, pins, stackMembers) && k < |m|
    ensures PinsCurrent(Bumped(m, k), pins, stackMembers, m[k].name)
  {
    SameDist(m, Bumped(m, k));
  }

  /** Where a run that failed has stopped: at the first member that fails, at the pins, or at the anchor; the steps
      before it are done, that step is done if it failed late, and nothing else is. */
  ghost predicate Stopped(m: seq<Package>, pins: map<string, Version>, members: seq<string>, anchor: string,
                          stackMembers: seq<string>, fate: string -> Fate,
                          m': seq<Package>, pins': map<string, Version>) {
    || (pins' == pins && FailedAt(m, members, fate, m'))
    || (&& AllPreparable(m, members, fate) && !StackKnown(m, stackMembers)
        && m' == Run(m, members) && pins' == pins)
    || (&& AllPreparable(m, members, fate) && StackKnown(m, stackMembers) && !Preparable(m, anchor, fate)
        && PinsHold(Run(m, members), pins', stackMembers)
        && m' == if Written(m, anchor, fate) then Run(Run(m, members), [anchor]) else Run(m, members))
  }

  /** Every step of the run passes and every name it looks up is in the manifest. */
  ghost predicate Runnable(m: seq<Package>, members: seq<string>, anchor: string, stackMembers: seq<string>,
                           fate: string -> Fate) {
    AllPreparable(m, members, fate) && Preparable(m, anchor, fate) && StackKnown(m, stackMembers)
  }

  datatype Outcome = Nothing | CycleFound(cycle: seq<string>) | StepFailed | Done(members: seq<string>)

  /** The checkout the scripts write to: every package's version and floors, and the anchor's pins. */
  class Workspace {
    var manifest: seq<Package>
    var pins: map<string, Version>

    /** release_prepare: bump one package and rewrite every other package's floor on it. The uvx-pin and changelog
        checks run before any write, `uv lock` after all of them. */
    method Prepare(name: string, fate: Fate) returns (ok: bool)
      modifies this`manifest
      ensures ok <==> fate == Passed && name in Names(old(manifest))
      ensures manifest == if fate != Refused && name in Names(old(manifest)) then Run(old(manifest), [name])
                          else old(manifest)
      ensures ok ==>
        && Find(old(manifest), name) < |old(manifest)|
        && manifest == Bumped(old(manifest), Find(old(manifest), name))
    {
      var k := Find(manifest, name);
      FindDecides(manifest, name);
      if k >= |manifest| || fate == Refused { return false; }
      var version := Bump(manifest[k].version);
      var dist := manifest[k].dist;
      var next: seq<Package> := [];
      for i := 0 to |manifest|
        invariant next == Bumped(manifest, k)[..i]
      {
        var p := manifest[i];
        if p.name == name {
          next := next + [p.(version := version)];
        } else {
          next := next + [p.(floors := Rewrite(p.floors, dist, version))];
        }
      }
      assert Bumped(manifest, k)[..|manifest|] == Bumped(manifest, k);
      assert [name][..0] == [] && Run(manifest, []) == manifest;
      manifest := next;
      ok := fate == Passed;
    }

    /** stack_pins.py sync: the anchor pins every stack member at its current version, or nothing is written. */
    method SyncPins(members: seq<string>) returns (ok: bool)
      modifies this`pins
      ensures ok <==> StackKnown(manifest, members)
      ensures ok ==> PinsHold(manifest, pins, members)
      ensures !ok ==> pins == old(pins)
    {
      var found: map<string, Version> := map[];
      for i := 0 to |members|
        invariant forall d :: d in found <==> d in members[..i]
        invariant forall d :: d in found ==>
          FindDist(manifest, d) < |manifest| && found[d] == manifest[FindDist(manifest, d)].version
      {
        var k := FindDist(manifest, members[i]);
        assert members[i] in members;
        if k >= |manifest| { return false; }
        found := found[members[i] := manifest[k].version];
      }
      pins := found;
      ok := true;
    }

    /** Each member in turn, stopping at the first that fails. */
    method PrepareAll(members: seq<string>, fate: string -> Fate) returns (ok: bool)
      modifies this`manifest
      ensures ok <==> AllPreparable(old(manifest), members, fate)
      ensures ok ==> manifest == Run(old(manifest), members)
      ensures !ok ==> FailedAt(old(manifest), members, fate, manifest)
    {
      for i := 0 to |members|
        invariant manifest == Run(old(manifest), members[..i])
        invariant AllPreparable(old(manifest), members[..i], fate)
      {
        RunOneMore(old(manifest), members, i);
        ok := Prepare(members[i], fate(members[i]));
        PreparableOneMore(old(manifest), members, fate, i);
        if !ok {
          assert FirstFailed(old(manifest), members, fate, i);
          return;
        }
      }
      assert members[..|members|] == members;
      ok := true;
    }

    /** Bump every member, sync the pins to what they became, bump the anchor. */
    method Execute(members: seq<string>, anchor: string, stackMembers: seq<string>, fate: string -> Fate)
      returns (ok: bool)
      modifies this
      ensures ok <==> Runnable(old(manifest), members, anchor, stackMembers, fate)
      ensures !ok ==> Stopped(old(manifest), old(pins), members, anchor, stackMembers, fate, manifest, pins)
      ensures ok ==> Find(old(manifest), anchor) < |old(manifest)|
      ensures ok ==> manifest == Bumped(Run(old(manifest), members), Find(old(manifest), anchor))
      ensures ok ==> PinsCurrent(manifest, pins, stackMembers, anchor)
    {
      ok := PrepareAll(members, fate);
      if !ok { return; }
      LookupsAgree(old(manifest), members, stackMembers);
      ok := SyncPins(stackMembers);
      if !ok { return; }
      ghost var synced := manifest;
      ok := Prepare(anchor, fate(anchor));
      if !ok { return; }
      AnchorKeepsPins(synced, pins, stackMembers, Find(synced, anchor));
    }

    /** The command without --dry-run: plan, bump members, sync pins, bump the anchor. */
    method BumpDrifted(drifted: seq<string>, anchor: string, stackMembers: seq<string>, fate: string -> Fate)
      returns (outcome: Outcome, ghost edges: Graph, ghost rewrites: Graph, ghost order: seq<string>,
        ghost planned: set<string>)
      requires AllDistinct(Names(manifest))
      modifies this
      ensures IsGraphOf(old(manifest), edges, false) && IsGraphOf(old(manifest), rewrites, true)
      ensures outcome.CycleFound? <==> HasCycle(edges)
      ensures outcome.CycleFound? ==> IsCycle(edges, outcome.cycle)
      ensures outcome.CycleFound? || outcome.Nothing? ==> manifest == old(manifest) && pins == old(pins)
      ensures outcome.Nothing? <==> !HasCycle(edges) && forall n :: n in drifted ==> n !in Names(old(manifest))
      ensures outcome.StepFailed? ==>
        Stopped(old(manifest), old(pins), Keep(order, planned - {anchor}), anchor, stackMembers, fate, manifest, pins)
      ensures outcome.Done? ==> IsPlan(old(manifest), edges, rewrites, order, planned, anchor, outcome.members)
      ensures outcome.Done? ==> forall n :: n in planned <==> Reached(rewrites, drifted, n)
      ensures outcome.Done? ==> Find(old(manifest), anchor) < |old(manifest)|
      ensures outcome.Done? ==> manifest == Bumped(Run(old(manifest), outcome.members), Find(old(manifest), anchor))
      ensures outcome.Done? ==> PinsCurrent(manifest, pins, stackMembers, anchor)
    {
      var plan;
      plan, edges, rewrites, order, planned := CascadeBumps(manifest, drifted);
      if plan.Cyclic? { outcome := CycleFound(plan.cycle); return; }
      var (members, bumpAnchor) := PlanBumps(plan.names, anchor);
      PlannedMembers(order, planned, anchor);
      NothingPlanned(manifest, drifted, rewrites, planned, order);
      if members == [] && !bumpAnchor { outcome := Nothing; return; }
      var ok := Execute(members, anchor, stackMembers, fate);
      outcome := if ok then Done(members) else StepFailed;
    }
  }

  /** Nothing is planned exactly if no drifted name is a package. */
  lemma NothingPlanned(m: seq<Package>, drifted: seq<string>, rewrites: Graph, planned: set<string>, order: seq<string>)
    requires IsGraphOf(m, rewrites, true) && forall n :: n in order <==> n in Names(m)
    requires forall n :: n in planned <==> Reached(rewrites, drifted, n)
    ensures Keep(order, planned) == [] <==> forall n :: n in drifted ==> n !in Names(m)
  {
    KeepMembers(order, planned);
    forall n | n in drifted ensures n in planned { ReachedSeed(rewrites, drifted, n); }
    if Keep(order, planned) != [] {
      var n := Keep(order, planned)[0];
      assert n in Keep(order, planned);
      var w :| IsWalk(rewrites, w) && w[0] in drifted && w[|w| - 1] == n;
      if |w| > 1 { assert Edge(rewrites, w[1 - 1], w[1]); }
      assert w[0] in Names(m);
    } else {
      forall n | n in drifted ensures n !in Names(m) { assert n in planned ==> n !in order; }
    }
  }

  lemma FindDecides(s: seq<Package>, name: string)
    ensures Find(s, name) < |s| <==> name in Names(s)
  {
    var k := Find(s, name);
    if k < |s| { assert Names(s)[k] == name; }
  }

  /** Nothing the later steps do moves a name or a distribution, so lookups agree throughout. */
  lemma LookupsAgree(m: seq<Package>, names: seq<string>, stackMembers: seq<string>)
    ensures Names(Run(m, names)) == Names(m) && forall n :: Find(Run(m, names), n) == Find(m, n)
    ensures StackKnown(Run(m, names), stackMembers) <==> StackKnown(m, stackMembers)
  {
    RunNames(m, names);
    forall n ensures Find(Run(m, names), n) == Find(m, n) { SamePlace(m, Run(m, names), n); }
    SameDist(m, Run(m, names));
  }

  lemma SamePlace(m: seq<Package>, s: seq<Package>, name: string)
    requires Names(m) == Names(s)
    ensures Find(m, name) == Find(s, name)
    decreases |m|
  {
    if m != [] {
      assert Names(m)[0] == m[0].name && Names(s)[0] == s[0].name;
      assert Names(m[1..]) == Names(m)[1..] && Names(s[1..]) == Names(s)[1..];
      SamePlace(m[1..], s[1..], name);
    }
  }

  lemma SameDist(m: seq<Package>, s: seq<Package>)
    requires |m| == |s| && forall i :: 0 <= i < |m| ==> m[i].dist == s[i].dist
    ensures forall d :: FindDist(m, d) == FindDist(s, d)
  {
    forall d ensures FindDist(m, d) == FindDist(s, d) { SameDistAt(m, s, d); }
  }

  lemma {:induction false} SameDistAt(m: seq<Package>, s: seq<Package>, d: string)
    requires |m| == |s| && forall i :: 0 <= i < |m| ==> m[i].dist == s[i].dist
    ensures FindDist(m, d) == FindDist(s, d)
  {
    if m != [] { SameDistAt(m[..|m| - 1], s[..|s| - 1], d); }
  }
}

/** Greedy colouring of the conflict graph, highest degree first. */
module Colouring {
  import opened Text

  type Adjacency = map<string, set<string>>

  /** An edge counts when it has two different ends and both are branches. */
  ghost predicate Joins(e: seq<string>, branches: seq<string>, a: string, b: string) {
    |e| == 2 && e[0] in branches && e[1] in branches && e[0] != e[1]
      && ((e[0] == a && e[1] == b) || (e[0] == b && e[1] == a))
  }

  ghost predicate Adjacent(branches: seq<string>, edges: seq<seq<string>>, a: string, b: string) {
    exists e :: e in edges && Joins(e, branches, a, b)
  }

  ghost predicate IsAdjacency(adj: Adjacency, branches: seq<string>, edges: seq<seq<string>>) {
    && (forall a :: a in adj <==> a in branches)
    && (forall a, b :: a in adj ==> (b in adj[a] <==> Adjacent(branches, edges, a, b)))
  }

  lemma NextEdge(branches: seq<string>, edges: seq<seq<string>>, e: seq<string>)
    ensures forall a, b :: Adjacent(branches, edges + [e], a, b) <==>
      Adjacent(branches, edges, a, b) || Joins(e, branches, a, b)
  {
    assert forall x :: x in edges + [e] <==> x in edges || x == e;
  }

  function WithEdge(adj: Adjacency, a: string, b: string): Adjacency
    requires a in adj && b in adj && a != b
  {
    adj[a := adj[a] + {b}][b := adj[b] + {a}]
  }

  lemma AddEdge(adj: Adjacency, branches: seq<string>, edges: seq<seq<string>>, e: seq<string>)
    requires IsAdjacency(adj, branches, edges)
    ensures |e| == 2 && e[0] in adj && e[1] in adj && e[0] != e[1] ==>
      IsAdjacency(WithEdge(adj, e[0], e[1]), branches, edges + [e])
    ensures !(|e| == 2 && e[0] in adj && e[1] in adj && e[0] != e[1]) ==> IsAdjacency(adj, branches, edges + [e])
  {
    NextEdge(branches, edges, e);
  }

  method BuildAdjacency(branches: seq<string>, edges: seq<seq<string>>) returns (adj: Adjacency)
    ensures IsAdjacency(adj, branches, edges)
  {
    adj := map b | b in branches :: {};
    for i := 0 to |edges|
      invariant IsAdjacency(adj, branches, edges[..i])
    {
      var e := edges[i];
      TakeOneMore(edges, i);
      AddEdge(adj, branches, edges[..i], e);
      if |e| != 2 { continue; }
      if e[0] in adj && e[1] in adj && e[0] != e[1] {
        adj := WithEdge(adj, e[0], e[1]);
      }
    }
    assert edges[..|edges|] == edges;
  }

  // ---------- the greedy choice ----------

  /** The colours less than c. */
  ghost function Below(c: nat): (s: set<nat>)
    ensures forall k :: k in s <==> 0 <= k < c
    ensures |s| == c
  {
    if c == 0 then {} else Below(c - 1) + {c - 1}
  }

  lemma SubsetSize<T>(a: set<T>, b: set<T>)
    requires a <= b
    ensures |a| <= |b|
  {
    assert b == a + (b - a);
  }

  lemma {:induction false} ImageFits(ns: set<string>, colours: map<string, nat>)
    requires forall n :: n in ns ==> n in colours
    ensures |set n | n in ns :: colours[n]| <= |ns|
  {
    if ns != {} {
      var x :| x in ns;
      ImageFits(ns - {x}, colours);
      assert (set n | n in ns :: colours[n]) == (set n | n in ns - {x} :: colours[n]) + {colours[x]};
    } else {
      assert (set n | n in ns :: colours[n]) == {};
    }
  }

  function Used(near: set<string>, colours: map<string, nat>): set<nat> {
    set n | n in near && n in colours :: colours[n]
  }

  lemma UsedFits(near: set<string>, colours: map<string, nat>)
    ensures |Used(near, colours)| <= |near|
  {
    var known := set n | n in near && n in colours;
    assert Used(near, colours) == set n | n in known :: colours[n];
    ImageFits(known, colours);
    SubsetSize(known, near);
  }

  /** c is the least colour no coloured member of `near` has. */
  ghost predicate IsLeastUnused(near: set<string>, colours: map<string, nat>, c: nat) {
    c !in Used(near, colours) && Below(c) <= Used(near, colours)
  }

  /** `while colour in used: colour += 1` stops, at most at the number of neighbours. */
  method LeastUnused(near: set<string>, colours: map<string, nat>) returns (colour: nat)
    ensures IsLeastUnused(near, colours, colour) && colour <= |near|
  {
    var used := Used(near, colours);
    UsedFits(near, colours);
    colour := 0;
    while colour in used
      invariant Below(colour) <= used
      decreases |used| - colour
    {
      SubsetSize(Below(colour + 1), used);
      colour := colour + 1;
    }
    SubsetSize(Below(colour), used);
  }

  /** The colour of a is within its degree and every smaller colour is met nearby. */
  ghost predicate Snug(adj: Adjacency, colours: map<string, nat>, a: string)
    requires a in colours
  {
    a in adj && colours[a] <= |adj[a]| && Below(colours[a]) <= Used(adj[a], colours)
  }

  ghost predicate Proper(adj: Adjacency, colours: map<string, nat>) {
    forall a, b :: a in colours && b in colours && a in adj && b in adj[a] ==> colours[a] != colours[b]
  }

  ghost predicate Greedy(adj: Adjacency, colours: map<string, nat>) {
    Proper(adj, colours) && forall a :: a in colours ==> Snug(adj, colours, a)
  }

  function Earlier(colours: map<string, nat>, order: seq<string>, i: nat): map<string, nat>
    requires i <= |order|
  {
    map n | n in order[..i] && n in colours :: colours[n]
  }

  /** Each name got the least colour unused by the neighbours coloured before it. */
  ghost predicate InTurn(adj: Adjacency, order: seq<string>, colours: map<string, nat>, i: nat)
    requires i <= |order|
  {
    forall k :: 0 <= k < i ==> ColouredInTurn(adj, order, colours, k)
  }

  ghost predicate ColouredInTurn(adj: Adjacency, order: seq<string>, colours: map<string, nat>, k: nat)
    requires k < |order|
  {
    order[k] in colours && order[k] in adj
      && IsLeastUnused(adj[order[k]], Earlier(colours, order, k), colours[order[k]])
  }

  ghost predicate Simple(adj: Adjacency) {
    (forall x, y :: x in adj && y in adj && y in adj[x] ==> x in adj[y]) && forall x :: x in adj ==> x !in adj[x]
  }

  lemma ColourNext(adj: Adjacency, colours: map<string, nat>, a: string, c: nat)
    requires Greedy(adj, colours) && a in adj && a !in colours && Simple(adj)
    requires IsLeastUnused(adj[a], colours, c) && c <= |adj[a]|
    ensures Greedy(adj, colours[a := c])
  {
    var next := colours[a := c];
    forall x | x in next ensures Snug(adj, next, x) { SnugNext(adj, colours, a, c, x); }
    ProperNext(adj, colours, a, c);
  }

  lemma SnugNext(adj: Adjacency, colours: map<string, nat>, a: string, c: nat, x: string)
    requires a in adj && a !in colours && IsLeastUnused(adj[a], colours, c) && c <= |adj[a]|
    requires x == a || (x in colours && Snug(adj, colours, x))
    ensures Snug(adj, colours[a := c], x)
  {
    UsedGrows(adj[x], colours, a, c);
  }

  lemma UsedGrows(near: set<string>, colours: map<string, nat>, a: string, c: nat)
    requires a !in colours
    ensures Used(near, colours) <= Used(near, colours[a := c])
  {
    forall n | n in near && n in colours ensures colours[n] in Used(near, colours[a := c]) {
      assert colours[a := c][n] == colours[n];
    }
  }

  lemma ProperNext(adj: Adjacency, colours: map<string, nat>, a: string, c: nat)
    requires Proper(adj, colours) && a in adj && a !in colours && Simple(adj) && (forall n :: n in colours ==> n in adj)
    requires c !in Used(adj[a], colours)
    ensures Proper(adj, colours[a := c])
  {
    forall n | n in adj[a] && n in colours ensures colours[n] != c { assert colours[n] in Used(adj[a], colours); }
  }

  lemma TurnNext(adj: Adjacency, order: seq<string>, colours: map<string, nat>, i: nat, c: nat)
    requires i < |order| && AllDistinct(order) && order[i] in adj && InTurn(adj, order, colours, i)
    requires (forall n :: n in colours <==> n in order[..i]) && IsLeastUnused(adj[order[i]], colours, c)
    ensures InTurn(adj, order, colours[order[i] := c], i + 1)
  {
    var next := colours[order[i] := c];
    assert Earlier(next, order, i) == colours;
    forall k | 0 <= k < i ensures ColouredInTurn(adj, order, next, k) {
      assert ColouredInTurn(adj, order, colours, k);
      EarlierStays(colours, order, k, order[i], c);
    }
  }

  lemma EarlierStays(colours: map<string, nat>, order: seq<string>, k: nat, a: string, c: nat)
    requires k <= |order| && a !in order[..k]
    ensures Earlier(colours[a := c], order, k) == Earlier(colours, order, k)
  {
  }

  function Degree(adj: Adjacency, a: string): nat { if a in adj then |adj[a]| else 0 }

  predicate DegreeLe(adj: Adjacency, a: string, b: string) {
    Degree(adj, a) > Degree(adj, b) || (Degree(adj, a) == Degree(adj, b) && Le(a, b))
  }

  lemma DegreeOrderIsTotal(adj: Adjacency)
    ensures TotalPreorder((a, b) => DegreeLe(adj, a, b))
  {
    LeIsTotalPreorder();
    var le := (a, b) => DegreeLe(adj, a, b);
    forall a, b, c | le(a, b) && le(b, c) ensures le(a, c) {
      if Degree(adj, a) == Degree(adj, c) { LeTransitive(a, b, c); }
    }
    forall a, b ensures le(a, b) || le(b, a) { LeTotal(a, b); }
  }

  lemma PrefixOneMore(order: seq<string>, i: nat)
    requires i < |order| && AllDistinct(order)
    ensures order[i] in order && order[i] !in order[..i]
    ensures forall n :: n in order[..i + 1] <==> n in order[..i] || n == order[i]
  {
    TakeOneMore(order, i);
  }

  method Colour(adj: Adjacency, order: seq<string>) returns (colours: map<string, nat>)
    requires AllDistinct(order) && (forall n :: n in order ==> n in adj) && Simple(adj)
    ensures Greedy(adj, colours) && InTurn(adj, order, colours, |order|) && forall n :: n in colours <==> n in order
  {
    colours := map[];
    for i := 0 to |order|
      invariant Greedy(adj, colours) && InTurn(adj, order, colours, i)
      invariant forall n :: n in colours <==> n in order[..i]
    {
      var branch := order[i];
      PrefixOneMore(order, i);
      var colour := LeastUnused(adj[branch], colours);
      ColourNext(adj, colours, branch, colour);
      TurnNext(adj, order, colours, i, colour);
      colours := colours[branch := colour];
    }
    assert order[..|order|] == order;
  }

  // ---------- the classes ----------

  ghost predicate IsClassing(classes: map<nat, seq<string>>, colours: map<string, nat>, names: seq<string>) {
    && (forall c, n :: c in classes && n in classes[c] <==> n in names && n in colours && colours[n] == c)
    && (forall c :: c in classes ==> AllDistinct(classes[c]) && classes[c] != [])
  }

  lemma SortedClasses(classes: map<nat, seq<string>>, colours: map<string, nat>, names: seq<string>)
    requires IsClassing(classes, colours, names)
    ensures IsClassing(map c | c in classes :: Sort(classes[c], Le), colours, names)
    ensures forall c :: c in classes ==> StrictlySorted(Sort(classes[c], Le))
  {
    LeIsTotalPreorder();
    forall c | c in classes
      ensures StrictlySorted(Sort(classes[c], Le)) && forall x :: x in Sort(classes[c], Le) <==> x in classes[c]
    {
      SortedDistinct(classes[c]);
    }
    forall c | c in classes ensures Sort(classes[c], Le) != [] { SortKeeps(classes[c], Le); }
  }

  lemma SortedDistinct(s: seq<string>)
    requires AllDistinct(s)
    ensures StrictlySorted(Sort(s, Le)) && forall x :: x in Sort(s, Le) <==> x in s
  {
    var r := Sort(s, Le);
    LeIsTotalPreorder();
    SortSorts(s, Le);
    SortKeeps(s, Le);
    forall x ensures x in r <==> x in s { SortMembers(s, Le, x); }
    forall i, j | 0 <= i < j < |r| ensures r[i] != r[j] {
      if r[i] == r[j] {
        MultiplicityTwo(r, i, j);
        DistinctMultiplicity(s, r[i]);
      }
    }
  }

  function WithMember(classes: map<nat, seq<string>>, c: nat, n: string): map<nat, seq<string>> {
    classes[c := (if c in classes then classes[c] else []) + [n]]
  }

  lemma ClassingNext(classes: map<nat, seq<string>>, colours: map<string, nat>, names: seq<string>, n: string)
    requires IsClassing(classes, colours, names) && n in colours && n !in names
    ensures IsClassing(WithMember(classes, colours[n], n), colours, names + [n])
  {
    var c := colours[n];
    var old0 := if c in classes then classes[c] else [];
    assert n !in old0;
  }

  method Classes(colours: map<string, nat>, order: seq<string>) returns (classes: map<nat, seq<string>>)
    requires AllDistinct(order) && forall n :: n in order ==> n in colours
    ensures IsClassing(classes, colours, order) && forall c :: c in classes ==> StrictlySorted(classes[c])
  {
    classes := map[];
    for i := 0 to |order|
      invariant IsClassing(classes, colours, order[..i])
    {
      var n := order[i];
      TakeOneMore(order, i);
      assert n in order;
      assert n !in order[..i];
      ClassingNext(classes, colours, order[..i], n);
      classes := WithMember(classes, colours[n], n);
    }
    assert order[..|order|] == order;
    SortedClasses(classes, colours, order);
    classes := map c | c in classes :: Sort(classes[c], Le);
  }

  ghost predicate WithinSomeDegree(adj: Adjacency, c: nat) { exists n :: n in adj && c <= |adj[n]| }

  /** Colours in use leave no gap, and no class number exceeds every degree. */
  lemma NoGaps(adj: Adjacency, colours: map<string, nat>, classes: map<nat, seq<string>>, names: seq<string>, c: nat)
    requires Greedy(adj, colours) && IsClassing(classes, colours, names) && (forall n :: n in colours <==> n in names)
    requires c in classes
    ensures (forall d :: d in Below(c) ==> d in classes) && WithinSomeDegree(adj, c)
  {
    var n := classes[c][0];
    assert n in classes[c];
    assert Snug(adj, colours, n) && colours[n] == c;
    forall d | d in Below(c) ensures d in classes {
      assert d in Used(adj[n], colours);
      var b :| b in adj[n] && b in colours && colours[b] == d;
      HasClass(classes, colours, names, b);
    }
  }

  lemma HasClass(classes: map<nat, seq<string>>, colours: map<string, nat>, names: seq<string>, n: string)
    requires IsClassing(classes, colours, names) && n in names && n in colours
    ensures colours[n] in classes && n in classes[colours[n]]
  {
  }

  lemma EveryoneClassed(classes: map<nat, seq<string>>, colours: map<string, nat>, names: seq<string>)
    requires IsClassing(classes, colours, names) && forall n :: n in names ==> n in colours
    ensures forall n :: n in names ==> exists c :: c in classes && n in classes[c]
  {
    forall n | n in names ensures exists c :: c in classes && n in classes[c] { HasClass(classes, colours, names, n); }
  }

  lemma SameColourNoEdge(adj: Adjacency, colours: map<string, nat>, branches: seq<string>, edges: seq<seq<string>>,
                         a: string, b: string)
    requires IsAdjacency(adj, branches, edges) && Greedy(adj, colours)
    requires a in colours && b in colours && colours[a] == colours[b]
    ensures !Adjacent(branches, edges, a, b)
  {
    assert Snug(adj, colours, a);
    assert b in adj[a] <==> Adjacent(branches, edges, a, b);
  }

  lemma InClass(classes: map<nat, seq<string>>, colours: map<string, nat>, names: seq<string>, c: nat, n: string)
    requires IsClassing(classes, colours, names) && c in classes && n in classes[c]
    ensures n in colours && colours[n] == c
  {
  }

  /** `colour_classes`: a partition of the branches into sorted, gap-free classes without inner edges;
      names are coloured by falling degree, each with the least colour its coloured neighbours leave. */
  method ColourClasses(branches: seq<string>, edges: seq<seq<string>>)
    returns (classes: map<nat, seq<string>>, ghost adj: Adjacency, ghost order: seq<string>,
      ghost colours: map<string, nat>)
    ensures IsAdjacency(adj, branches, edges) && Greedy(adj, colours)
    ensures HighestDegreeFirst(adj, order) && AllDistinct(order) && InTurn(adj, order, colours, |order|)
    ensures forall n :: (n in colours <==> n in branches) && (n in order <==> n in branches)
    ensures IsClassing(classes, colours, order) && forall c :: c in classes ==> StrictlySorted(classes[c])
    ensures forall c :: c in classes ==> WithinSomeDegree(adj, c) && forall d :: d in Below(c) ==> d in classes
    ensures forall c, a, b :: c in classes && a in classes[c] && b in classes[c] ==> !Adjacent(branches, edges, a, b)
    ensures forall c, a :: c in classes && a in classes[c] ==> MetInEach(branches, edges, classes, a, c)
  {
    var names := SortedSet(branches);
    SortedSetLists(branches);
    var built := BuildAdjacency(branches, edges);
    adj := built;
    var le := (a, b) => DegreeLe(built, a, b);
    var listed := Sort(names, le);
    DegreeOrderIsTotal(adj);
    SortSorts(names, le);
    SortKeeps(names, le);
    OrderOf(names, listed);
    order := listed;
    var chosen := Colour(built, listed);
    colours := chosen;
    classes := Classes(chosen, listed);
    forall c | c in classes ensures WithinSomeDegree(adj, c) && forall d :: d in Below(c) ==> d in classes {
      NoGaps(adj, chosen, classes, listed, c);
    }
    forall c, a, b | c in classes && a in classes[c] && b in classes[c] ensures !Adjacent(branches, edges, a, b) {
      InClass(classes, chosen, listed, c, a);
      InClass(classes, chosen, listed, c, b);
      SameColourNoEdge(adj, chosen, branches, edges, a, b);
    }
    forall c, a | c in classes && a in classes[c] ensures MetInEach(branches, edges, classes, a, c) {
      MetBelow(adj, chosen, classes, listed, branches, edges, c, a);
    }
    DegreesFall(adj, listed, le);
  }

  /** Names stand by falling number of neighbours, equal ones by name. */
  ghost predicate HighestDegreeFirst(adj: Adjacency, order: seq<string>) {
    forall i, j :: 0 <= i < j < |order| ==> NoLowerDegree(adj, order[i], order[j])
  }

  ghost predicate NoLowerDegree(adj: Adjacency, a: string, b: string) {
    && a in adj && b in adj
    && (|adj[a]| > |adj[b]| || (|adj[a]| == |adj[b]| && Le(a, b)))
  }

  lemma DegreesFall(adj: Adjacency, order: seq<string>, le: (string, string) -> bool)
    requires SortedBy(order, le) && (forall a, b :: le(a, b) <==> DegreeLe(adj, a, b))
    requires forall n :: n in order ==> n in adj
    ensures HighestDegreeFirst(adj, order)
  {
    forall i, j | 0 <= i < j < |order| ensures NoLowerDegree(adj, order[i], order[j]) {
      assert order[i] in order && order[j] in order && le(order[i], order[j]);
    }
  }

  /** Whoever has colour c has a neighbour of every smaller colour. */
  lemma MetBelow(adj: Adjacency, colours: map<string, nat>, classes: map<nat, seq<string>>, names: seq<string>,
                 branches: seq<string>, edges: seq<seq<string>>, c: nat, a: string)
    requires IsAdjacency(adj, branches, edges) && Greedy(adj, colours) && IsClassing(classes, colours, names)
    requires (forall n :: n in colours <==> n in names) && c in classes && a in classes[c]
    ensures MetInEach(branches, edges, classes, a, c)
  {
    InClass(classes, colours, names, c, a);
    assert Snug(adj, colours, a);
    forall d: nat | d < c ensures d in classes && MeetsSome(branches, edges, a, classes[d]) {
      var b := UsedBy(adj[a], colours, c, d);
      HasClass(classes, colours, names, b);
      assert Adjacent(branches, edges, a, b);
    }
  }

  lemma UsedBy(near: set<string>, colours: map<string, nat>, c: nat, d: nat) returns (b: string)
    requires Below(c) <= Used(near, colours) && d < c
    ensures b in near && b in colours && colours[b] == d
  {
    assert d in Below(c);
    b :| b in near && b in colours && colours[b] == d;
  }

  /** Every class before c holds a neighbour of a. */
  ghost predicate MetInEach(branches: seq<string>, edges: seq<seq<string>>, classes: map<nat, seq<string>>, a: string,
                            c: nat) {
    forall d: nat :: d < c ==> d in classes && MeetsSome(branches, edges, a, classes[d])
  }

  ghost predicate MeetsSome(branches: seq<string>, edges: seq<seq<string>>, a: string, names: seq<string>) {
    exists b :: b in names && Adjacent(branches, edges, a, b)
  }

  lemma OrderOf(names: seq<string>, order: seq<string>)
    requires StrictlySorted(names) && multiset(order) == multiset(names)
    ensures AllDistinct(order) && forall n :: n in order <==> n in names
  {
    assert forall n :: n in order <==> n in multiset(order);
    assert forall n :: n in names <==> n in multiset(names);
    forall i, j | 0 <= i < j < |order| ensures order[i] != order[j] {
      if order[i] == order[j] {
        MultiplicityTwo(order, i, j);
        DistinctMultiplicity(names, order[i]);
      }
    }
  }
}

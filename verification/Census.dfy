/** Which unmerged branches may land together: path overlaps, containment, landing probes, colour classes. */
module Census {
  import opened Text
  import Colouring

  /** A repository path by its components. */
  type Path = seq<string>

  type Pair = (string, string)

  type Footprints = map<string, set<Path>>

  function Ordered(a: string, b: string): Pair { if Le(a, b) then (a, b) else (b, a) }

  lemma OrderedEither(a: string, b: string)
    ensures Ordered(a, b) == Ordered(b, a)
  {
    LeTotal(a, b);
    if Le(a, b) && Le(b, a) { LeAntisymmetric(a, b); }
  }

  // ---------- path overlap ----------

  predicate IsAncestor(p: Path, q: Path) { 0 < |p| < |q| && q[..|p|] == p }

  ghost predicate Overlap(p: Path, q: Path) { p == q || IsAncestor(p, q) || IsAncestor(q, p) }

  /** The all-pairs definition: some path of a equals, contains or lies inside some path of b. */
  ghost predicate Touch(f: Footprints, a: string, b: string) {
    a in f && b in f && exists p, q :: p in f[a] && q in f[b] && Overlap(p, q)
  }

  type Owners = map<Path, set<string>>

  predicate OwnedBy(owners: Owners, p: Path, b: string) { p in owners && b in owners[p] }

  ghost predicate IsOwners(f: Footprints, owners: Owners) {
    forall p, b :: OwnedBy(owners, p, b) <==> b in f && p in f[b]
  }

  function Own(owners: Owners, p: Path, b: string): Owners {
    owners[p := (if p in owners then owners[p] else {}) + {b}]
  }

  lemma OwnAdds(owners: Owners, path: Path, branch: string)
    ensures forall p, b :: OwnedBy(Own(owners, path, branch), p, b) <==>
      OwnedBy(owners, p, b) || (p == path && b == branch)
  {
  }

  method AddOwner(owners0: Owners, branch: string, paths: set<Path>) returns (owners: Owners)
    ensures forall p, b :: OwnedBy(owners, p, b) <==> OwnedBy(owners0, p, b) || (b == branch && p in paths)
  {
    owners := owners0;
    var rest := paths;
    while rest != {}
      invariant rest <= paths
      invariant forall p, b :: OwnedBy(owners, p, b) <==> OwnedBy(owners0, p, b) || (b == branch && p in paths - rest)
      decreases rest
    {
      var path :| path in rest;
      rest := rest - {path};
      OwnAdds(owners, path, branch);
      owners := Own(owners, path, branch);
    }
    assert paths - rest == paths;
  }

  method BuildOwners(f: Footprints) returns (owners: Owners)
    ensures IsOwners(f, owners)
  {
    owners := map[];
    var rest := f.Keys;
    while rest != {}
      invariant rest <= f.Keys
      invariant forall p, b :: OwnedBy(owners, p, b) <==> b in f.Keys - rest && p in f[b]
      decreases rest
    {
      var branch :| branch in rest;
      rest := rest - {branch};
      owners := AddOwner(owners, branch, f[branch]);
    }
    assert f.Keys - rest == f.Keys;
  }

  function OwnersAt(owners: Owners, p: Path): set<string> { if p in owners then owners[p] else {} }

  /** Both members of the pair own `path`. */
  predicate SameAt(owners: Owners, path: Path, pr: Pair) {
    pr.0 != pr.1 && Le(pr.0, pr.1) && pr.0 in OwnersAt(owners, path) && pr.1 in OwnersAt(owners, path)
  }

  /** One member owns `path`, the other a directory that contains it. */
  ghost predicate NestedAt(owners: Owners, path: Path, pr: Pair) {
    exists left :: left in OwnersAt(owners, path) && NestedUnder(owners, path, left, 0, pr)
  }

  ghost predicate NestedUnder(owners: Owners, path: Path, left: string, from: nat, pr: Pair) {
    exists k :: from < k < |path| && UnderParent(owners, path[..k], left, pr)
  }

  ghost predicate UnderParent(owners: Owners, parent: Path, left: string, pr: Pair) {
    exists right :: right in OwnersAt(owners, parent) && left != right && pr == Ordered(left, right)
  }

  /** `for parent in path.parents`, deepest first, the empty one skipped. */
  method NestedPairs(owners: Owners, path: Path, left: string) returns (pairs: set<Pair>)
    ensures forall pr :: pr in pairs <==> NestedUnder(owners, path, left, 0, pr)
  {
    pairs := {};
    var k := |path|;
    while k > 1
      invariant 0 <= k <= |path| && (k == 0 ==> path == [])
      invariant forall pr :: pr in pairs <==> NestedUnder(owners, path, left, if k == 0 then 0 else k - 1, pr)
    {
      k := k - 1;
      var found := set right | right in OwnersAt(owners, path[..k]) && left != right :: Ordered(left, right);
      assert forall pr :: pr in found <==> UnderParent(owners, path[..k], left, pr);
      forall pr
        ensures NestedUnder(owners, path, left, k - 1, pr) <==>
          NestedUnder(owners, path, left, k, pr) || UnderParent(owners, path[..k], left, pr)
      {
      }
      pairs := pairs + found;
    }
  }

  method PairsAt(owners: Owners, path: Path) returns (pairs: set<Pair>)
    ensures forall pr :: pr in pairs <==> SameAt(owners, path, pr) || NestedAt(owners, path, pr)
  {
    pairs := {};
    var ordered := SortedKeys(OwnersAt(owners, path));
    ghost var same, nested: set<Pair> := {}, {};
    for index := 0 to |ordered|
      invariant pairs == same + nested
      invariant forall pr :: pr in same <==>
        exists i, j :: 0 <= i < index && i < j < |ordered| && pr == (ordered[i], ordered[j])
      invariant forall pr :: pr in nested <==>
        exists left :: left in ordered[..index] && NestedUnder(owners, path, left, 0, pr)
    {
      var left := ordered[index];
      var later := set j | index < j < |ordered| :: (left, ordered[j]);
      var under := NestedPairs(owners, path, left);
      TakeOneMore(ordered, index);
      same, nested := same + later, nested + under;
      pairs := pairs + later + under;
    }
    assert ordered[..|ordered|] == ordered;
    forall pr ensures pr in same <==> SameAt(owners, path, pr) { PairOfListing(ordered, OwnersAt(owners, path), pr); }
  }

  lemma PairOfListing(ordered: seq<string>, names: set<string>, pr: Pair)
    requires StrictlySorted(ordered) && forall x :: x in ordered <==> x in names
    ensures (exists i, j :: 0 <= i < |ordered| && i < j < |ordered| && pr == (ordered[i], ordered[j]))
       <==> pr.0 != pr.1 && Le(pr.0, pr.1) && pr.0 in names && pr.1 in names
  {
    if pr.0 != pr.1 && Le(pr.0, pr.1) && pr.0 in names && pr.1 in names {
      var i :| 0 <= i < |ordered| && ordered[i] == pr.0;
      var j :| 0 <= j < |ordered| && ordered[j] == pr.1;
      if j < i { LeAntisymmetric(pr.0, pr.1); }
      assert pr == (ordered[i], ordered[j]);
    }
  }

  /** `_footprint_pairs`: the indexed scan finds exactly the pairs of branches that touch. */
  method FootprintPairs(f: Footprints) returns (pairs: set<Pair>)
    ensures forall pr :: pr in pairs <==> pr.0 != pr.1 && Le(pr.0, pr.1) && Touch(f, pr.0, pr.1)
  {
    var owners := BuildOwners(f);
    pairs := {};
    var rest := owners.Keys;
    while rest != {}
      invariant rest <= owners.Keys
      invariant forall pr :: pr in pairs <==>
        exists path :: path in owners.Keys - rest && (SameAt(owners, path, pr) || NestedAt(owners, path, pr))
      decreases rest
    {
      var path :| path in rest;
      rest := rest - {path};
      var found := PairsAt(owners, path);
      pairs := pairs + found;
    }
    assert owners.Keys - rest == owners.Keys;
    forall pr ensures pr in pairs <==> pr.0 != pr.1 && Le(pr.0, pr.1) && Touch(f, pr.0, pr.1) {
      IndexedIsBruteForce(f, owners, pr);
    }
  }

  lemma IndexedIsBruteForce(f: Footprints, owners: Owners, pr: Pair)
    requires IsOwners(f, owners)
    ensures (exists path :: path in owners && (SameAt(owners, path, pr) || NestedAt(owners, path, pr)))
       <==> pr.0 != pr.1 && Le(pr.0, pr.1) && Touch(f, pr.0, pr.1)
  {
    forall p, b ensures b in OwnersAt(owners, p) <==> b in f && p in f[b] {
      assert OwnedBy(owners, p, b) <==> b in f && p in f[b];
    }
    if path :| path in owners && (SameAt(owners, path, pr) || NestedAt(owners, path, pr)) {
      if SameAt(owners, path, pr) {
        assert Overlap(path, path);
      } else {
        var left :| left in OwnersAt(owners, path) && NestedUnder(owners, path, left, 0, pr);
        var k :| 0 < k < |path| && UnderParent(owners, path[..k], left, pr);
        var right :| right in OwnersAt(owners, path[..k]) && left != right && pr == Ordered(left, right);
        LeTotal(left, right);
        assert Overlap(path, path[..k]) && Overlap(path[..k], path);
      }
    }
    if pr.0 != pr.1 && Le(pr.0, pr.1) && Touch(f, pr.0, pr.1) {
      var p, q :| p in f[pr.0] && q in f[pr.1] && Overlap(p, q);
      assert pr.0 in OwnersAt(owners, p) && pr.1 in OwnersAt(owners, q);
      if p == q {
        assert SameAt(owners, p, pr);
      } else if IsAncestor(q, p) {
      } else {
        OrderedEither(pr.0, pr.1);
      }
    }
  }

  // ---------- containment ----------

  type Containment = map<string, seq<string>>

  ghost predicate Contained(c: Containment, a: string, b: string) { (a in c && b in c[a]) || (b in c && a in c[b]) }

  ghost predicate FromAncestor(c: Containment, candidates: set<string>, ancestor: string, pr: Pair) {
    exists d :: ancestor in candidates && ancestor in c && d in c[ancestor] && d in candidates
      && d != ancestor && pr == Ordered(ancestor, d)
  }

  /** `_containment_pairs` */
  method ContainmentPairs(c: Containment, candidates: set<string>) returns (pairs: set<Pair>)
    ensures forall pr :: pr in pairs <==>
              pr.0 != pr.1 && Le(pr.0, pr.1) && pr.0 in candidates && pr.1 in candidates && Contained(c, pr.0, pr.1)
  {
    pairs := {};
    var rest := c.Keys;
    while rest != {}
      invariant rest <= c.Keys
      invariant forall pr :: pr in pairs <==> exists a :: a in c.Keys - rest && FromAncestor(c, candidates, a, pr)
      decreases rest
    {
      var ancestor :| ancestor in rest;
      rest := rest - {ancestor};
      if ancestor !in candidates { continue; }
      var found: set<Pair> := set d | d in c[ancestor] && d in candidates && d != ancestor :: Ordered(ancestor, d);
      assert forall pr :: pr in found <==> FromAncestor(c, candidates, ancestor, pr);
      pairs := pairs + found;
    }
    assert c.Keys - rest == c.Keys;
    forall pr
      ensures pr in pairs <==>
        pr.0 != pr.1 && Le(pr.0, pr.1) && pr.0 in candidates && pr.1 in candidates && Contained(c, pr.0, pr.1)
    {
      SomeAncestor(c, candidates, pr);
    }
  }

  lemma SomeAncestor(c: Containment, candidates: set<string>, pr: Pair)
    ensures (exists a :: a in c && FromAncestor(c, candidates, a, pr))
       <==> pr.0 != pr.1 && Le(pr.0, pr.1) && pr.0 in candidates && pr.1 in candidates && Contained(c, pr.0, pr.1)
  {
    if a :| a in c && FromAncestor(c, candidates, a, pr) {
      var d :| a in candidates && a in c && d in c[a] && d in candidates && d != a && pr == Ordered(a, d);
      LeTotal(a, d);
    }
    if pr.0 != pr.1 && Le(pr.0, pr.1) && pr.0 in candidates && pr.1 in candidates && Contained(c, pr.0, pr.1) {
      OrderedEither(pr.0, pr.1);
      var ancestor := if pr.0 in c && pr.1 in c[pr.0] then pr.0 else pr.1;
      assert FromAncestor(c, candidates, ancestor, pr);
    }
  }

  // ---------- directory aliases ----------

  type Alias = (Path, Path)

  /** Directory renames read in both directions. */
  function Destinations(aliases: set<Alias>, dir: Path): set<Path> {
    (set a | a in aliases && a.0 == dir :: a.1) + (set a | a in aliases && a.1 == dir :: a.0)
  }

  lemma DestinationsExact(aliases: set<Alias>, dir: Path, d: Path)
    ensures d in Destinations(aliases, dir) <==> (dir, d) in aliases || (d, dir) in aliases
  {
  }

  /** q is p with one of its containing directories (the root included) replaced by an alias of it. */
  ghost predicate Moved(aliases: set<Alias>, p: Path, q: Path) {
    exists k, d :: 0 <= k < |p| && d in Destinations(aliases, p[..k]) && q == d + p[k..]
  }

  method ExpandPath(aliases: set<Alias>, path: Path) returns (moved: set<Path>)
    ensures forall q :: q in moved <==> Moved(aliases, path, q)
  {
    moved := {};
    var k := |path|;
    while k > 0
      invariant 0 <= k <= |path|
      invariant forall q :: q in moved <==>
        exists j, d :: k <= j < |path| && d in Destinations(aliases, path[..j]) && q == d + path[j..]
    {
      k := k - 1;
      moved := moved + set d | d in Destinations(aliases, path[..k]) :: d + path[k..];
    }
  }

  /** One footprint: every original path stays, and only original paths are moved, never moved ones again. */
  method ExpandOne(aliases: set<Alias>, paths: set<Path>) returns (expanded: set<Path>)
    ensures forall q :: q in expanded <==> q in paths || exists p :: p in paths && Moved(aliases, p, q)
  {
    expanded := paths;
    var rest := paths;
    while rest != {}
      invariant rest <= paths
      invariant forall q :: q in expanded <==> q in paths || exists p :: p in paths - rest && Moved(aliases, p, q)
      decreases rest
    {
      var path :| path in rest;
      rest := rest - {path};
      var moved := ExpandPath(aliases, path);
      expanded := expanded + moved;
    }
    assert paths - rest == paths;
  }

  /** `_expand_directory_aliases` */
  method ExpandDirectoryAliases(f: Footprints, aliases: set<Alias>) returns (g: Footprints)
    ensures g.Keys == f.Keys
    ensures forall b, q :: b in f ==> (q in g[b] <==> q in f[b] || exists p :: p in f[b] && Moved(aliases, p, q))
  {
    g := f;
    var rest := f.Keys;
    while rest != {}
      invariant rest <= f.Keys && g.Keys == f.Keys
      invariant forall b :: b in rest ==> g[b] == f[b]
      invariant forall b, q :: b in f.Keys - rest ==>
        (q in g[b] <==> q in f[b] || exists p :: p in f[b] && Moved(aliases, p, q))
      decreases rest
    {
      var branch :| branch in rest;
      rest := rest - {branch};
      var expanded := ExpandOne(aliases, f[branch]);
      g := g[branch := expanded];
    }
    assert f.Keys - rest == f.Keys;
  }

  /** Why the aliases are there: two branches that touch the same relative path under the old and the
      new name of a renamed directory touch after expansion, so the pair reaches the merge probe. */
  lemma AliasedPathsTouch(f: Footprints, g: Footprints, aliases: set<Alias>, a: string, b: string, old0: Path,
                          new0: Path, tail: Path)
    requires a in f && b in f && g.Keys == f.Keys && tail != [] && (old0, new0) in aliases
    requires forall x, q :: x in f ==> (q in g[x] <==> q in f[x] || exists p :: p in f[x] && Moved(aliases, p, q))
    requires old0 + tail in f[a] && new0 + tail in f[b]
    ensures Touch(g, a, b)
  {
    var p, q := old0 + tail, new0 + tail;
    assert p[..|old0|] == old0 && p[|old0|..] == tail;
    assert new0 in Destinations(aliases, p[..|old0|]);
    assert Moved(aliases, p, q);
    assert q in g[a] && q in g[b] && Overlap(q, q);
  }

  // ---------- probing one pair ----------

  datatype Status = Conflict | Clean | SyntheticFailed

  /** The merge results git would give: landing second on top of first (None when the synthetic commit
      cannot be made), and merging the two tips directly. */
  datatype Probe = Probe(landing: (string, string) -> Option<bool>, direct: (string, string) -> bool)

  predicate Says(o: Option<bool>, verdict: bool) { o.Some? && o.value == verdict }

  predicate BothOrdersClean(p: Probe, a: string, b: string) {
    p.landing(a, b).Some? && !p.landing(a, b).value && p.landing(b, a).Some? && !p.landing(b, a).value
  }

  predicate Observed(p: Probe, a: string, b: string) {
    (p.landing(a, b).Some? && p.landing(a, b).value) || (p.landing(b, a).Some? && p.landing(b, a).value)
      || (p.landing(a, b).None? && p.landing(b, a).None? && p.direct(a, b))
  }

  /** `_conflicts`: never clean unless both landing orders were tried and came out clean. */
  method Conflicts(p: Probe, left: string, right: string) returns (status: Status, observed: bool)
    ensures status == Clean <==> BothOrdersClean(p, left, right)
    ensures status == SyntheticFailed <==> p.landing(left, right).None? || p.landing(right, left).None?
    ensures observed <==> Observed(p, left, right)
    ensures status == Conflict ==> observed
  {
    var leftFirst, rightFirst := p.landing(left, right), p.landing(right, left);
    observed := Says(leftFirst, true) || Says(rightFirst, true);
    var unavailable := leftFirst.None? || rightFirst.None?;
    if leftFirst.None? && rightFirst.None? { observed := p.direct(left, right); }
    if unavailable { return SyntheticFailed, observed; }
    status := if observed then Conflict else Clean;
  }

  // ---------- the census graph ----------

  ghost predicate IsContainmentPair(c: Containment, candidates: set<string>, pr: Pair) {
    pr.0 != pr.1 && Le(pr.0, pr.1) && pr.0 in candidates && pr.1 in candidates && Contained(c, pr.0, pr.1)
  }

  ghost predicate IsTouchPair(f: Footprints, pr: Pair) { pr.0 != pr.1 && Le(pr.0, pr.1) && Touch(f, pr.0, pr.1) }

  /** The pairs that go to git: touching, not already related by containment. */
  ghost predicate Probed(c: Containment, candidates: set<string>, f: Footprints, pr: Pair) {
    IsTouchPair(f, pr) && !IsContainmentPair(c, candidates, pr)
  }

  /** The edge sets of `build_census`: conflicts are the containment pairs and the observed conflicts,
      unknowns the pairs with an order that could not be tried. */
  method Edges(c: Containment, candidates: set<string>, f: Footprints, p: Probe)
    returns (conflict: set<Pair>, unknown: set<Pair>)
    ensures forall pr :: pr in conflict <==>
              IsContainmentPair(c, candidates, pr) || (Probed(c, candidates, f, pr) && Observed(p, pr.0, pr.1))
    ensures forall pr :: pr in unknown <==>
              Probed(c, candidates, f, pr) && (p.landing(pr.0, pr.1).None? || p.landing(pr.1, pr.0).None?)
  {
    var dependency := ContainmentPairs(c, candidates);
    var touching := FootprintPairs(f);
    conflict, unknown := dependency, {};
    var todo := touching - dependency;
    var rest := todo;
    while rest != {}
      invariant rest <= todo
      invariant forall pr :: pr in conflict <==> pr in dependency || (pr in todo - rest && Observed(p, pr.0, pr.1))
      invariant forall pr :: pr in unknown <==>
        pr in todo - rest && (p.landing(pr.0, pr.1).None? || p.landing(pr.1, pr.0).None?)
      decreases rest
    {
      var pr :| pr in rest;
      rest := rest - {pr};
      var status, observed := Conflicts(p, pr.0, pr.1);
      if observed { conflict := conflict + {pr}; }
      if status == Conflict {
        conflict := conflict + {pr};
      } else if status == SyntheticFailed {
        unknown := unknown + {pr};
      }
    }
    assert todo - rest == todo;
  }

  method EdgeList(pairs: set<Pair>) returns (edges: seq<seq<string>>)
    ensures forall e :: e in edges <==> |e| == 2 && (e[0], e[1]) in pairs
  {
    edges := [];
    var rest := pairs;
    while rest != {}
      invariant rest <= pairs
      invariant forall e :: e in edges <==> |e| == 2 && (e[0], e[1]) in pairs - rest
      decreases rest
    {
      var pr :| pr in rest;
      rest := rest - {pr};
      assert forall e: seq<string> :: |e| == 2 && (e[0], e[1]) == pr <==> e == [pr.0, pr.1];
      edges := edges + [[pr.0, pr.1]];
    }
    assert pairs - rest == pairs;
  }

  /** What one colour class promises for two of its branches. */
  ghost predicate SafeTogether(c: Containment, f: Footprints, p: Probe, a: string, b: string) {
    !Contained(c, a, b) && (!Touch(f, a, b) || BothOrdersClean(p, a, b))
  }

  /** The graph and colouring part of `build_census`: any two candidates of one colour class are unrelated
      by containment, and either share no path or nested path or merged cleanly in both landing orders. And no
      candidate waits for a later class without need: in each earlier one stands a candidate it must not land with. */
  method ColourCensus(c: Containment, candidates: seq<string>, f: Footprints, p: Probe)
    returns (classes: map<nat, seq<string>>)
    requires forall b :: b in candidates <==> b in f
    ensures forall b :: b in candidates ==> exists k :: k in classes && b in classes[k]
    ensures forall k, b :: k in classes && b in classes[k] ==> b in candidates
    ensures forall k, a, b :: k in classes && a in classes[k] && b in classes[k] && a != b ==>
      SafeTogether(c, f, p, a, b)
    ensures forall k :: k in classes ==> classes[k] != []
    ensures forall k, a :: k in classes && a in classes[k] ==> Waits(c, f, p, classes, a, k)
  {
    var edges := AllEdges(c, candidates, f, p);
    ghost var adj, order, colours;
    classes, adj, order, colours := Colouring.ColourClasses(candidates, edges);
    Colouring.EveryoneClassed(classes, colours, order);
    forall k, b | k in classes && b in classes[k] ensures b in candidates {
      Colouring.InClass(classes, colours, order, k, b);
    }
    ClassesAreSafe(c, candidates, f, p, edges, classes, colours, order);
    forall k, a | k in classes && a in classes[k] ensures Waits(c, f, p, classes, a, k) {
      WaitsForEdges(c, candidates, f, p, edges, classes, a, k);
    }
  }

  /** The edge list handed to the colouring: it joins every pair that must not share a class, and no other. */
  method AllEdges(c: Containment, candidates: seq<string>, f: Footprints, p: Probe) returns (edges: seq<seq<string>>)
    ensures Covers(c, (set x | x in candidates), f, p, edges) && OnlyUnsafe(c, candidates, f, p, edges)
  {
    var names := set b | b in candidates;
    var conflict, unknown := Edges(c, names, f, p);
    var conflictEdges := EdgeList(conflict);
    var unknownEdges := EdgeList(unknown);
    edges := conflictEdges + unknownEdges;
    EdgesCover(c, names, f, p, conflict, unknown, edges);
    AllEdgesUnsafe(c, candidates, f, p, conflict, unknown, edges);
  }

  ghost predicate OnlyUnsafe(c: Containment, candidates: seq<string>, f: Footprints, p: Probe,
                             edges: seq<seq<string>>) {
    forall a, b :: Colouring.Adjacent(candidates, edges, a, b) ==> a != b && !SafeTogether(c, f, p, a, b)
  }

  /** In every class before k stands a candidate that `a` must not land with. */
  ghost predicate Waits(c: Containment, f: Footprints, p: Probe, classes: map<nat, seq<string>>, a: string, k: nat) {
    forall d: nat :: d < k ==> d in classes && UnsafeWithSome(c, f, p, a, classes[d])
  }

  ghost predicate UnsafeWithSome(c: Containment, f: Footprints, p: Probe, a: string, names: seq<string>) {
    exists b :: b in names && a != b && !SafeTogether(c, f, p, a, b)
  }

  lemma WaitsForEdges(c: Containment, candidates: seq<string>, f: Footprints, p: Probe, edges: seq<seq<string>>,
                      classes: map<nat, seq<string>>, a: string, k: nat)
    requires OnlyUnsafe(c, candidates, f, p, edges) && Colouring.MetInEach(candidates, edges, classes, a, k)
    ensures Waits(c, f, p, classes, a, k)
  {
    forall d: nat | d < k ensures d in classes && UnsafeWithSome(c, f, p, a, classes[d]) {
      var b :| b in classes[d] && Colouring.Adjacent(candidates, edges, a, b);
    }
  }

  lemma AllEdgesUnsafe(c: Containment, candidates: seq<string>, f: Footprints, p: Probe, conflict: set<Pair>,
                       unknown: set<Pair>, edges: seq<seq<string>>)
    requires ExactEdges(c, (set x | x in candidates), f, p, conflict, unknown)
    requires forall e :: e in edges ==> |e| == 2 && ((e[0], e[1]) in conflict || (e[0], e[1]) in unknown)
    ensures OnlyUnsafe(c, candidates, f, p, edges)
  {
    forall a, b | Colouring.Adjacent(candidates, edges, a, b) ensures a != b && !SafeTogether(c, f, p, a, b) {
      EdgeIsUnsafe(c, candidates, f, p, conflict, unknown, edges, a, b);
    }
  }

  ghost predicate ExactEdges(c: Containment, names: set<string>, f: Footprints, p: Probe, conflict: set<Pair>,
                             unknown: set<Pair>) {
    && (forall pr :: pr in conflict <==>
          IsContainmentPair(c, names, pr) || (Probed(c, names, f, pr) && Observed(p, pr.0, pr.1)))
    && (forall pr :: pr in unknown <==>
          Probed(c, names, f, pr) && (p.landing(pr.0, pr.1).None? || p.landing(pr.1, pr.0).None?))
  }

  lemma SafeIsSymmetric(c: Containment, f: Footprints, p: Probe, a: string, b: string)
    ensures SafeTogether(c, f, p, a, b) <==> SafeTogether(c, f, p, b, a)
  {
    forall x, y ensures Overlap(x, y) <==> Overlap(y, x) {}
  }

  /** Only pairs that must not land together are joined. */
  lemma EdgeIsUnsafe(c: Containment, candidates: seq<string>, f: Footprints, p: Probe, conflict: set<Pair>,
                     unknown: set<Pair>, edges: seq<seq<string>>, a: string, b: string)
    requires ExactEdges(c, (set x | x in candidates), f, p, conflict, unknown)
    requires forall e :: e in edges ==> |e| == 2 && ((e[0], e[1]) in conflict || (e[0], e[1]) in unknown)
    requires Colouring.Adjacent(candidates, edges, a, b)
    ensures a != b && !SafeTogether(c, f, p, a, b)
  {
    var e :| e in edges && Colouring.Joins(e, candidates, a, b);
    var pr := (e[0], e[1]);
    assert pr in conflict || pr in unknown;
    SafeIsSymmetric(c, f, p, a, b);
  }

  lemma ClassesAreSafe(c: Containment, candidates: seq<string>, f: Footprints, p: Probe, edges: seq<seq<string>>,
                       classes: map<nat, seq<string>>, colours: map<string, nat>, order: seq<string>)
    requires Colouring.IsClassing(classes, colours, order) && forall n :: n in colours ==> n in candidates
    requires Covers(c, (set x | x in candidates), f, p, edges)
    requires forall k, a, b :: k in classes && a in classes[k] && b in classes[k] ==>
      !Colouring.Adjacent(candidates, edges, a, b)
    ensures forall k, a, b :: k in classes && a in classes[k] && b in classes[k] && a != b ==>
      SafeTogether(c, f, p, a, b)
  {
    forall k, a, b | k in classes && a in classes[k] && b in classes[k] && a != b ensures SafeTogether(c, f, p, a, b) {
      Colouring.InClass(classes, colours, order, k, a);
      Colouring.InClass(classes, colours, order, k, b);
      NoEdgeIsSafe(c, candidates, f, p, edges, a, b);
    }
  }

  /** Every pair that must not share a class is an edge. */
  ghost predicate Covers(c: Containment, candidates: set<string>, f: Footprints, p: Probe, edges: seq<seq<string>>) {
    forall pr: Pair ::
      IsContainmentPair(c, candidates, pr) || (Probed(c, candidates, f, pr) && !BothOrdersClean(p, pr.0, pr.1)) ==>
      [pr.0, pr.1] in edges
  }

  lemma EdgesCover(c: Containment, candidates: set<string>, f: Footprints, p: Probe, conflict: set<Pair>,
                   unknown: set<Pair>, edges: seq<seq<string>>)
    requires forall pr :: pr in conflict <==>
              IsContainmentPair(c, candidates, pr) || (Probed(c, candidates, f, pr) && Observed(p, pr.0, pr.1))
    requires forall pr :: pr in unknown <==>
              Probed(c, candidates, f, pr) && (p.landing(pr.0, pr.1).None? || p.landing(pr.1, pr.0).None?)
    requires forall e :: |e| == 2 && ((e[0], e[1]) in conflict || (e[0], e[1]) in unknown) ==> e in edges
    ensures Covers(c, candidates, f, p, edges)
  {
    forall pr: Pair | IsContainmentPair(c, candidates, pr)
      || (Probed(c, candidates, f, pr) && !BothOrdersClean(p, pr.0, pr.1))
      ensures [pr.0, pr.1] in edges
    {
      assert pr in conflict || pr in unknown;
      var e := [pr.0, pr.1];
      assert (e[0], e[1]) == pr;
    }
  }

  lemma NoEdgeIsSafe(c: Containment, candidates: seq<string>, f: Footprints, p: Probe, edges: seq<seq<string>>,
                     a: string, b: string)
    requires a in candidates && b in candidates && a != b && Covers(c, (set x | x in candidates), f, p, edges)
    requires !Colouring.Adjacent(candidates, edges, a, b)
    ensures SafeTogether(c, f, p, a, b)
  {
    LeTotal(a, b);
    var pr := Ordered(a, b);
    var e := [pr.0, pr.1];
    assert Colouring.Joins(e, candidates, a, b);
    assert e !in edges;
  }

}

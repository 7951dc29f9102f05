/** The paths a landing census counts as touched by each candidate, renamed ones under all their names. */
module Footprint {
  import opened Text
  import opened Census

  /** What git reports of one candidate: its merge base, the paths it changed since, and its own renames. */
  datatype Change = Change(base: string, paths: set<Path>, renames: set<Alias>)

  type Changes = map<string, Change>

  /** The renames git finds on the integration branch since a given base. */
  type Renames = string -> set<Alias>

  function Parent(p: Path): Path { if p == [] then [] else p[..|p| - 1] }

  predicate MovesDir(renames: set<Alias>, dir: Alias) {
    exists r :: r in renames && Parent(r.0) != Parent(r.1) && dir == (Parent(r.0), Parent(r.1))
  }

  function MovedDirs(renames: set<Alias>): (dirs: set<Alias>)
    ensures forall d :: d in dirs <==> MovesDir(renames, d)
  {
    set r | r in renames && Parent(r.0) != Parent(r.1) :: (Parent(r.0), Parent(r.1))
  }

  /** `q` is a name of the file `p`: its own, or the one a rename of the file or of a directory above it gives. */
  ghost predicate Known(renames: set<Alias>, p: Path, q: Path) {
    q == p || (p, q) in renames || (q, p) in renames || Moved(MovedDirs(renames), p, q)
  }

  ghost predicate KnownIn(paths: set<Path>, renames: set<Alias>, q: Path) {
    exists p :: p in paths && Known(renames, p, q)
  }

  ghost predicate Renamed(paths: set<Path>, renames: set<Alias>, q: Path) {
    exists r :: r in renames && (r.0 in paths || r.1 in paths) && (q == r.0 || q == r.1)
  }

  /** The loop over the integration branch's renames, for one branch: the paths asked about are the original
      ones throughout, whatever has been added. */
  method WithAliases(original: set<Path>, renames: set<Alias>) returns (paths: set<Path>)
    ensures forall q :: q in paths <==> KnownIn(original, renames, q)
  {
    paths := original;
    var dirs: set<Alias> := {};
    var rest := renames;
    while rest != {}
      invariant rest <= renames
      invariant forall q :: q in paths <==> q in original || Renamed(original, renames - rest, q)
      invariant forall d :: d in dirs <==> MovesDir(renames - rest, d)
      decreases rest
    {
      var r :| r in rest;
      rest := rest - {r};
      if r.0 in original || r.1 in original { paths := paths + {r.0, r.1}; }
      if Parent(r.0) != Parent(r.1) { dirs := dirs + {(Parent(r.0), Parent(r.1))}; }
    }
    assert renames - rest == renames;
    assert dirs == MovedDirs(renames);
    var expanded := ExpandOne(dirs, original);
    paths := paths + expanded;
    forall q ensures q in paths <==> KnownIn(original, renames, q) { NamesOf(original, renames, q); }
  }

  lemma NamesOf(original: set<Path>, renames: set<Alias>, q: Path)
    ensures KnownIn(original, renames, q) <==>
      q in original || Renamed(original, renames, q) || exists p :: p in original && Moved(MovedDirs(renames), p, q)
  {
    if q in original { assert Known(renames, q, q); }
    if r :| r in renames && (r.0 in original || r.1 in original) && (q == r.0 || q == r.1) {
      var p := if r.0 in original then r.0 else r.1;
      assert r == (r.0, r.1);
      assert q == p || Known(renames, p, q);
      assert Known(renames, p, p);
    }
    if p :| p in original && Moved(MovedDirs(renames), p, q) { assert Known(renames, p, q); }
    if p :| p in original && Known(renames, p, q) && q != p && !Moved(MovedDirs(renames), p, q) {
      var r := if (p, q) in renames then (p, q) else (q, p);
      assert r in renames && (r.0 in original || r.1 in original);
    }
  }

  /** A directory some candidate moved. */
  predicate Moves(candidates: seq<string>, changes: Changes, dir: Alias) {
    exists b :: b in candidates && b in changes && MovesDir(changes[b].renames, dir)
  }

  /** `q` is a name of the changed path `p`: the integration branch's renames first, then the candidates'. */
  ghost predicate Named(integration: Renames, own: set<Alias>, change: Change, p: Path, q: Path) {
    exists x :: Known(integration(change.base), p, x) && (q == x || Moved(own, x, q))
  }

  ghost predicate OwnDirs(candidates: seq<string>, changes: Changes, own: set<Alias>) {
    forall d :: d in own <==> Moves(candidates, changes, d)
  }

  /** The footprint of every candidate holds exactly the names of the paths it changed. */
  ghost predicate AllNames(candidates: seq<string>, changes: Changes, integration: Renames, own: set<Alias>,
                           f: Footprints)
    requires forall b :: b in candidates ==> b in changes
  {
    && (forall b :: b in f <==> b in candidates)
    && (forall b, q :: b in candidates ==>
          (q in f[b] <==> exists p :: p in changes[b].paths && Named(integration, own, changes[b], p, q)))
  }

  /** Footprints as the loop over candidates leaves them, before the candidates' own directories are applied. */
  ghost predicate AllKnown(candidates: seq<string>, changes: Changes, integration: Renames, f: Footprints)
    requires forall b :: b in candidates ==> b in changes
  {
    && (forall b :: b in f <==> b in candidates)
    && (forall b, q :: b in candidates ==>
          (q in f[b] <==> KnownIn(changes[b].paths, integration(changes[b].base), q)))
  }

  /** The footprint part of `build_census`; the renames since a base are read once and kept. */
  method BuildFootprints(candidates: seq<string>, changes: Changes, integration: Renames)
    returns (f: Footprints, own: set<Alias>)
    requires forall b :: b in candidates ==> b in changes
    ensures OwnDirs(candidates, changes, own)
    ensures AllNames(candidates, changes, integration, own, f)
  {
    f, own := map[], {};
    var byBase: map<string, set<Alias>> := map[];
    for i := 0 to |candidates|
      invariant forall base :: base in byBase ==> byBase[base] == integration(base)
      invariant OwnDirs(candidates[..i], changes, own)
      invariant AllKnown(candidates[..i], changes, integration, f)
    {
      var b := candidates[i];
      var change := changes[b];
      if change.base !in byBase { byBase := byBase[change.base := integration(change.base)]; }
      var paths := WithAliases(change.paths, byBase[change.base]);
      TakeOneMore(candidates, i);
      own := own + MovedDirs(change.renames);
      f := f[b := paths];
    }
    assert candidates[..|candidates|] == candidates;
    ghost var known := f;
    f := ExpandDirectoryAliases(f, own);
    NamesComplete(candidates, changes, integration, own, known, f);
  }

  lemma NamesComplete(candidates: seq<string>, changes: Changes, integration: Renames, own: set<Alias>,
                      known: Footprints, f: Footprints)
    requires forall b :: b in candidates ==> b in changes
    requires AllKnown(candidates, changes, integration, known) && f.Keys == known.Keys
    requires forall b, q :: b in known ==>
      (q in f[b] <==> q in known[b] || exists p :: p in known[b] && Moved(own, p, q))
    ensures AllNames(candidates, changes, integration, own, f)
  {
    forall b, q | b in candidates
      ensures q in f[b] <==> exists p :: p in changes[b].paths && Named(integration, own, changes[b], p, q)
    {
      var change := changes[b];
      var renames := integration(change.base);
      if q in f[b] {
        var x :| x in known[b] && (q == x || Moved(own, x, q));
        var p :| p in change.paths && Known(renames, p, x);
        assert Named(integration, own, change, p, q);
      }
      if p :| p in change.paths && Named(integration, own, change, p, q) {
        var x :| Known(renames, p, x) && (q == x || Moved(own, x, q));
        assert KnownIn(change.paths, renames, x);
        assert x in known[b];
      }
    }
  }

  /** Some name of a path `a` changed equals, contains or lies inside some name of a path `b` changed. */
  ghost predicate Meet(changes: Changes, integration: Renames, own: set<Alias>, a: string, b: string) {
    && a in changes && b in changes
    && exists p, q, x, y :: (p in changes[a].paths && q in changes[b].paths
        && Named(integration, own, changes[a], p, x) && Named(integration, own, changes[b], q, y) && Overlap(x, y))
  }

  lemma TouchIsMeet(candidates: seq<string>, changes: Changes, integration: Renames, own: set<Alias>, f: Footprints,
                    a: string, b: string)
    requires forall n :: n in candidates ==> n in changes
    requires AllNames(candidates, changes, integration, own, f) && a in candidates && b in candidates
    ensures Touch(f, a, b) <==> Meet(changes, integration, own, a, b)
  {
    if Touch(f, a, b) {
      var x, y :| x in f[a] && y in f[b] && Overlap(x, y);
      var p :| p in changes[a].paths && Named(integration, own, changes[a], p, x);
      var q :| q in changes[b].paths && Named(integration, own, changes[b], q, y);
    }
    if Meet(changes, integration, own, a, b) {
      var p, q, x, y :| p in changes[a].paths && q in changes[b].paths
        && Named(integration, own, changes[a], p, x) && Named(integration, own, changes[b], q, y) && Overlap(x, y);
      assert x in f[a] && y in f[b];
    }
  }

  /** Two candidates that can share a class: neither contains the other, and their changes are apart or merge cleanly
      whichever lands first. */
  ghost predicate MayLand(changes: Changes, integration: Renames, own: set<Alias>, c: Containment, p: Probe,
                          a: string, b: string) {
    !Contained(c, a, b) && (!Meet(changes, integration, own, a, b) || BothOrdersClean(p, a, b))
  }

  /** `build_census` from what git reports of each candidate to its colour classes. Two candidates of one class
      are unrelated by containment, and either merged cleanly in both landing orders or changed no path that is,
      under any of its names, the same as or nested with one the other changed. */
  method CensusClasses(candidates: seq<string>, changes: Changes, integration: Renames, c: Containment, p: Probe)
    returns (classes: map<nat, seq<string>>, ghost own: set<Alias>)
    requires forall b :: b in candidates ==> b in changes
    ensures OwnDirs(candidates, changes, own)
    ensures forall b :: b in candidates ==> exists k :: k in classes && b in classes[k]
    ensures forall k, b :: k in classes && b in classes[k] ==> b in candidates
    ensures forall k, a, b :: k in classes && a in classes[k] && b in classes[k] && a != b ==>
      MayLand(changes, integration, own, c, p, a, b)
    ensures forall k, a, d: nat :: k in classes && a in classes[k] && d < k ==>
      d in classes && BarredBySome(changes, integration, own, c, p, a, classes[d])
    ensures AllMayLand(candidates, changes, integration, own, c, p) ==> classes.Keys <= {0}
  {
    var f, dirs := BuildFootprints(candidates, changes, integration);
    own := dirs;
    classes := ColourCensus(c, candidates, f, p);
    SafeIsMayLand(candidates, changes, integration, own, c, p, f);
    forall k, a, d: nat | k in classes && a in classes[k] && d < k
      ensures d in classes && BarredBySome(changes, integration, own, c, p, a, classes[d])
    {
      assert Waits(c, f, p, classes, a, k) && a in candidates;
      BarredWhereUnsafe(candidates, changes, integration, own, c, p, f, a, classes[d]);
    }
    OneClass(candidates, changes, integration, own, c, p, classes);
  }

  ghost predicate AllMayLand(candidates: seq<string>, changes: Changes, integration: Renames, own: set<Alias>,
                             c: Containment, p: Probe) {
    forall a, b :: a in candidates && b in candidates && a != b ==> MayLand(changes, integration, own, c, p, a, b)
  }

  /** Some of `names` must not land with `a`. */
  ghost predicate BarredBySome(changes: Changes, integration: Renames, own: set<Alias>, c: Containment, p: Probe,
                               a: string, names: seq<string>) {
    exists b :: b in names && a != b && !MayLand(changes, integration, own, c, p, a, b)
  }

  lemma BarredWhereUnsafe(candidates: seq<string>, changes: Changes, integration: Renames, own: set<Alias>,
                          c: Containment, p: Probe, f: Footprints, a: string, names: seq<string>)
    requires forall x, y :: x in candidates && y in candidates ==>
      (SafeTogether(c, f, p, x, y) <==> MayLand(changes, integration, own, c, p, x, y))
    requires a in candidates && (forall b :: b in names ==> b in candidates) && UnsafeWithSome(c, f, p, a, names)
    ensures BarredBySome(changes, integration, own, c, p, a, names)
  {
    var b :| b in names && a != b && !SafeTogether(c, f, p, a, b);
  }

  lemma SafeIsMayLand(candidates: seq<string>, changes: Changes, integration: Renames, own: set<Alias>,
                      c: Containment, p: Probe, f: Footprints)
    requires forall n :: n in candidates ==> n in changes
    requires AllNames(candidates, changes, integration, own, f)
    ensures forall a, b :: a in candidates && b in candidates ==>
      (SafeTogether(c, f, p, a, b) <==> MayLand(changes, integration, own, c, p, a, b))
  {
    forall a, b | a in candidates && b in candidates
      ensures SafeTogether(c, f, p, a, b) <==> MayLand(changes, integration, own, c, p, a, b)
    {
      TouchIsMeet(candidates, changes, integration, own, f, a, b);
    }
  }

  /** Candidates any two of which may land together need one class only. */
  lemma OneClass(candidates: seq<string>, changes: Changes, integration: Renames, own: set<Alias>, c: Containment,
                 p: Probe, classes: map<nat, seq<string>>)
    requires forall k :: k in classes ==> classes[k] != []
    requires forall k, b :: k in classes && b in classes[k] ==> b in candidates
    requires forall k, a, d: nat :: k in classes && a in classes[k] && d < k ==>
      d in classes && BarredBySome(changes, integration, own, c, p, a, classes[d])
    ensures AllMayLand(candidates, changes, integration, own, c, p) ==> classes.Keys <= {0}
  {
    forall k | k in classes && k > 0 ensures !AllMayLand(candidates, changes, integration, own, c, p) {
      var a := classes[k][0];
      assert a in classes[k];
      assert BarredBySome(changes, integration, own, c, p, a, classes[0]);
    }
  }

  /** Why aliases are read in both directions and across candidates: a candidate that changed a file meets one
      that changed it under another name, whether the file itself or a directory above it was renamed, and
      whether on the integration branch since either base or by any candidate. */
  lemma RenamesMeet(candidates: seq<string>, changes: Changes, integration: Renames, own: set<Alias>,
                    a: string, b: string, p: Path, q: Path)
    requires a in changes && b in changes && OwnDirs(candidates, changes, own)
    requires p in changes[a].paths && q in changes[b].paths
    requires Known(integration(changes[a].base), p, q)
      || exists n :: n in candidates && n in changes && Moved(MovedDirs(changes[n].renames), p, q)
    ensures Meet(changes, integration, own, a, b) && Meet(changes, integration, own, b, a)
  {
    assert Known(integration(changes[a].base), p, p) && Known(integration(changes[b].base), q, q);
    if !Known(integration(changes[a].base), p, q) {
      var n :| n in candidates && n in changes && Moved(MovedDirs(changes[n].renames), p, q);
      forall dir | dir in MovedDirs(changes[n].renames) ensures dir in own { assert Moves(candidates, changes, dir); }
      MovedByMore(MovedDirs(changes[n].renames), own, p, q);
    }
    NamesMeet(changes, integration, own, a, b, p, q, q);
  }

  lemma MovedByMore(dirs: set<Alias>, more: set<Alias>, p: Path, q: Path)
    requires dirs <= more && Moved(dirs, p, q)
    ensures Moved(more, p, q)
  {
    var k, d :| 0 <= k < |p| && d in Destinations(dirs, p[..k]) && q == d + p[k..];
    assert d in Destinations(more, p[..k]);
  }

  lemma NamesMeet(changes: Changes, integration: Renames, own: set<Alias>, a: string, b: string,
                  p: Path, q: Path, x: Path)
    requires a in changes && b in changes && p in changes[a].paths && q in changes[b].paths
    requires Named(integration, own, changes[a], p, x) && Named(integration, own, changes[b], q, x)
    ensures Meet(changes, integration, own, a, b) && Meet(changes, integration, own, b, a)
  {
    assert Overlap(x, x);
  }
}

/** wb_live_state_guard.py: the file-list cache keyed by directory mtimes, and the per-test comparison of
    live-state snapshots. */
module LiveState {
  import opened Text

  /** Components below the watched root, which is []. */
  type Path = seq<string>

  datatype Stat = Stat(size: nat, mtime: int)

  /** A watched tree: each directory with its mtime, each file with its size and mtime. */
  datatype Tree = Tree(dirs: map<Path, int>, files: map<Path, Stat>)

  function Up(p: Path): Path
    requires p != []
  {
    p[..|p| - 1]
  }

  ghost predicate WellFormed(t: Tree) {
    && (forall p :: p in t.dirs && p != [] ==> Up(p) in t.dirs)
    && (forall p :: p in t.files ==> p != [] && Up(p) in t.dirs && p !in t.dirs)
  }

  // ---------- tree steps under any clock ----------

  /** `now` is what the clock reads at that step; nothing is asked of the order of these readings. */
  datatype Step =
    | Create(path: Path, stat: Stat, now: int)
    | Delete(path: Path, now: int)
    | Write(path: Path, stat: Stat)
    | Mkdir(path: Path, now: int)
    | Rmdir(path: Path, now: int)
    | Rename(src: Path, dst: Path, now: int)

  predicate Free(t: Tree, p: Path) { p !in t.dirs && p !in t.files }

  ghost predicate Enabled(t: Tree, s: Step) {
    match s
    case Create(p, _, _) => p != [] && Free(t, p) && Up(p) in t.dirs
    case Delete(p, _) => p in t.files
    case Write(p, _) => p in t.files
    case Mkdir(p, _) => Free(t, p) && (p != [] ==> Up(p) in t.dirs)
    case Rmdir(p, _) =>
      && p in t.dirs
      && (forall q :: q in t.dirs && q != [] ==> Up(q) != p) && (forall q :: q in t.files && q != [] ==> Up(q) != p)
    case Rename(a, b, _) => a != [] && !Free(t, a) && b != [] && Free(t, b) && Up(b) in t.dirs && !(a <= b)
  }

  /** A path after `src` has been moved to `dst`. */
  function Moved(p: Path, src: Path, dst: Path): Path {
    if src <= p then dst + p[|src|..] else p
  }

  /** Where a moved path came from. */
  function Back(q: Path, src: Path, dst: Path): Path {
    if dst <= q then src + q[|dst|..] else q
  }

  /** Moves everything at or below `src` to `dst`, where nothing was. */
  function Move<V>(m: map<Path, V>, src: Path, dst: Path): map<Path, V> {
    map q | q in (set p | p in m :: Moved(p, src, dst)) && Back(q, src, dst) in m :: m[Back(q, src, dst)]
  }

  function Stamp(dirs: map<Path, int>, p: Path, now: int): map<Path, int> {
    if p in dirs then dirs[p := now] else dirs
  }

  /** Every change to a directory's entries stamps that directory, and a new directory, with the time of the step. */
  ghost function Apply(t: Tree, s: Step): Tree {
    if !Enabled(t, s) then t
    else
      match s
      case Create(p, stat, now) => Tree(Stamp(t.dirs, Up(p), now), t.files[p := stat])
      case Delete(p, now) => Tree(if p == [] then t.dirs else Stamp(t.dirs, Up(p), now), t.files - {p})
      case Write(p, stat) => t.(files := t.files[p := stat])
      case Mkdir(p, now) => Tree((if p == [] then t.dirs else Stamp(t.dirs, Up(p), now))[p := now], t.files)
      case Rmdir(p, now) => Tree((if p == [] then t.dirs else Stamp(t.dirs, Up(p), now)) - {p}, t.files)
      case Rename(a, b, now) => Renamed(t, a, b, now)
  }

  function Renamed(t: Tree, a: Path, b: Path, now: int): Tree
    requires a != [] && b != []
  {
    Tree(Stamp(Stamp(Move(t.dirs, a, b), Up(a), now), Up(b), now), Move(t.files, a, b))
  }

  ghost function Run(t: Tree, steps: seq<Step>): Tree
    decreases |steps|
  {
    if steps == [] then t else Run(Apply(t, steps[0]), steps[1..])
  }

  /** Every step that stamps a directory does so later than `since`; the stamps may be shared and come in any order. */
  ghost predicate Later(steps: seq<Step>, since: int) {
    forall i :: 0 <= i < |steps| && !steps[i].Write? ==> steps[i].now > since
  }

  /** No directory is stamped later than `since`. */
  ghost predicate AllBy(times: map<Path, int>, since: int) { forall p :: p in times ==> times[p] <= since }

  /** `b` comes from `a` by steps stamped later than every time the signature records. */
  ghost predicate Reached(signature: map<Path, int>, a: Tree, b: Tree) {
    exists since, steps :: AllBy(signature, since) && Later(steps, since) && Run(a, steps) == b
  }

  // ---------- what an old timestamp proves ----------

  /** The directory and everything above it carry times no later than `since`. */
  ghost predicate Old(t: Tree, p: Path, since: int) {
    forall k :: 0 <= k <= |p| ==> p[..k] in t.dirs && t.dirs[p[..k]] <= since
  }

  ghost predicate SameEntries(a: Tree, b: Tree, p: Path) {
    forall n: string :: (p + [n] in a.dirs <==> p + [n] in b.dirs) && (p + [n] in a.files <==> p + [n] in b.files)
  }

  /** A directory that looks old has been there, unstamped and with the same entries, since `a`. */
  ghost predicate Kept(a: Tree, b: Tree, p: Path) {
    p in a.dirs && p in b.dirs && a.dirs[p] == b.dirs[p] && SameEntries(a, b, p)
  }

  lemma {:induction false} PrefixIsDir(t: Tree, p: Path, k: nat)
    requires WellFormed(t) && !Free(t, p) && k < |p|
    ensures p[..k] in t.dirs
  {
    if k < |p| - 1 {
      PrefixIsDir(t, Up(p), k);
      assert Up(p)[..k] == p[..k];
    } else {
      assert p[..k] == Up(p);
    }
  }

  /** A free path has nothing below it. */
  lemma NothingBelow(t: Tree, b: Path, p: Path)
    requires WellFormed(t) && Free(t, b)
    ensures b <= p ==> Free(t, p)
  {
    if b <= p {
      assert p[..|b|] == b && (|b| == |p| ==> b == p);
      if !Free(t, p) && |b| < |p| { PrefixIsDir(t, p, |b|); }
    }
  }

  lemma MoveExact<V>(m: map<Path, V>, src: Path, dst: Path, q: Path)
    requires forall p :: p in m ==> !(dst <= p)
    ensures q in Move(m, src, dst) <==> Back(q, src, dst) in m && (src <= q ==> dst <= q)
    ensures q in Move(m, src, dst) ==> Move(m, src, dst)[q] == m[Back(q, src, dst)]
  {
    var p := Back(q, src, dst);
    if dst <= q {
      assert p[|src|..] == q[|dst|..] && dst + q[|dst|..] == q;
      assert p in m ==> Moved(p, src, dst) == q;
    } else if !(src <= q) {
      assert p in m ==> Moved(p, src, dst) == q;
    } else {
      forall x | x in m ensures Moved(x, src, dst) != q { assert src <= x ==> dst <= Moved(x, src, dst); }
    }
  }

  /** The tree after a rename, path by path. */
  ghost predicate RenamedAt(t: Tree, s: Step, q: Path)
    requires s.Rename? && s.src != [] && s.dst != []
  {
    var r, p := Apply(t, s), Back(q, s.src, s.dst);
    var stays := s.src <= q ==> s.dst <= q;
    && (q in r.dirs <==> p in t.dirs && stays)
    && (q in r.files <==> p in t.files && stays)
    && (q in r.dirs ==> r.dirs[q] == if q == Up(s.src) || q == Up(s.dst) then s.now else t.dirs[p])
  }

  lemma RenameExact(t: Tree, s: Step, q: Path)
    requires WellFormed(t) && s.Rename? && Enabled(t, s)
    ensures RenamedAt(t, s, q)
  {
    DestinationIsEmpty(t, s.dst);
    RenamedExact(t, s.src, s.dst, s.now, q);
  }

  lemma RenamedExact(t: Tree, src: Path, dst: Path, now: int, q: Path)
    requires src != [] && dst != []
    requires (forall p :: p in t.dirs ==> !(dst <= p)) && forall p :: p in t.files ==> !(dst <= p)
    ensures var r, p, stays := Renamed(t, src, dst, now), Back(q, src, dst), src <= q ==> dst <= q;
      && (q in r.dirs <==> p in t.dirs && stays)
      && (q in r.files <==> p in t.files && stays)
      && (q in r.dirs ==> r.dirs[q] == if q == Up(src) || q == Up(dst) then now else t.dirs[p])
  {
    MoveExact(t.dirs, src, dst, q);
    MoveExact(t.files, src, dst, q);
    StampTwice(Move(t.dirs, src, dst), Up(src), Up(dst), now, q);
  }

  lemma DestinationIsEmpty(t: Tree, b: Path)
    requires WellFormed(t) && Free(t, b)
    ensures (forall p :: p in t.dirs ==> !(b <= p)) && forall p :: p in t.files ==> !(b <= p)
  {
    forall p | p in t.dirs ensures !(b <= p) { NothingBelow(t, b, p); }
    forall p | p in t.files ensures !(b <= p) { NothingBelow(t, b, p); }
  }

  lemma StampTwice(dirs: map<Path, int>, a: Path, b: Path, now: int, q: Path)
    ensures var r := Stamp(Stamp(dirs, a, now), b, now);
            (q in r <==> q in dirs) && (q in r ==> r[q] == if q == a || q == b then now else dirs[q])
  {
  }

  lemma BackUp(q: Path, src: Path, dst: Path)
    requires |dst| < |q| && dst <= q
    ensures dst <= Up(q) && Back(Up(q), src, dst) == Up(Back(q, src, dst))
  {
    assert Up(q)[|dst|..] == q[|dst|..][..|q| - |dst| - 1];
  }

  lemma RenameWellFormed(t: Tree, s: Step)
    requires WellFormed(t) && s.Rename? && Enabled(t, s)
    ensures WellFormed(Apply(t, s))
  {
    var r := Apply(t, s);
    forall q | q in r.dirs.Keys + r.files.Keys
      ensures q != [] ==> Up(q) in r.dirs
      ensures q in r.files ==> q != [] && q !in r.dirs
    {
      RenameExact(t, s, q);
      if q != [] {
        RenameExact(t, s, Up(q));
        if s.dst <= q && |s.dst| < |q| {
          BackUp(q, s.src, s.dst);
        } else if s.dst <= q {
          assert q == s.dst;
          assert !(s.src <= Up(q)) && !(s.dst <= Up(q));
        } else {
          assert !(s.dst <= Up(q));
          assert Up(q) <= q;
          assert !(s.src <= Up(q));
        }
      }
    }
  }

  lemma StepWellFormed(t: Tree, s: Step)
    requires WellFormed(t)
    ensures WellFormed(Apply(t, s))
  {
    if Enabled(t, s) {
      if s.Rename? { RenameWellFormed(t, s); } else { PlainStepWellFormed(t, s); }
    }
  }

  lemma PlainStepWellFormed(t: Tree, s: Step)
    requires WellFormed(t) && Enabled(t, s) && !s.Rename?
    ensures WellFormed(Apply(t, s))
  {
    var r := Apply(t, s);
    forall p | p in r.dirs && p != [] ensures Up(p) in r.dirs {}
    forall p | p in r.files ensures p != [] && Up(p) in r.dirs && p !in r.dirs {}
  }

  /** One step leaves every directory that still looks old, and its entries, as they were. */
  lemma StepKeepsOld(t: Tree, s: Step, since: int, p: Path)
    requires WellFormed(t) && (s.Write? || s.now > since) && Old(Apply(t, s), p, since)
    ensures Old(t, p, since) && Kept(t, Apply(t, s), p)
  {
    var r := Apply(t, s);
    assert p[..|p|] == p;
    if !Enabled(t, s) {
    } else if s.Rename? {
      RenameKeepsOld(t, s, since, p);
    } else {
      forall k | 0 <= k <= |p| ensures p[..k] in t.dirs && t.dirs[p[..k]] <= since {
        assert p[..k] in r.dirs && r.dirs[p[..k]] <= since;
      }
      forall n: string
        ensures (p + [n] in t.dirs <==> p + [n] in r.dirs) && (p + [n] in t.files <==> p + [n] in r.files)
      {
        assert Up(p + [n]) == p;
      }
    }
  }

  /** What looks old after a rename, and everything above it, is neither side of the rename. */
  lemma OldIsElsewhere(t: Tree, s: Step, since: int, p: Path, k: nat)
    requires WellFormed(t) && s.Rename? && s.now > since && Enabled(t, s) && Old(Apply(t, s), p, since)
    requires k <= |p|
    ensures p[..k] != Up(s.src) && p[..k] != Up(s.dst)
    ensures !(s.dst <= p[..k]) && !(s.src <= p[..k])
    ensures p[..k] in t.dirs && t.dirs[p[..k]] == Apply(t, s).dirs[p[..k]]
  {
    RenameExact(t, s, p[..k]);
    if s.dst <= p[..k] {
      var j := |s.dst| - 1;
      assert p[..j] == Up(s.dst);
      RenameExact(t, s, p[..j]);
    }
  }

  lemma RenameKeepsOld(t: Tree, s: Step, since: int, p: Path)
    requires WellFormed(t) && s.Rename? && s.now > since && Enabled(t, s) && Old(Apply(t, s), p, since)
    ensures Old(t, p, since) && Kept(t, Apply(t, s), p)
  {
    var r := Apply(t, s);
    assert p[..|p|] == p;
    forall k | 0 <= k <= |p|
      ensures p[..k] != Up(s.src) && p[..k] != Up(s.dst)
      ensures !(s.dst <= p[..k]) && !(s.src <= p[..k])
      ensures p[..k] in t.dirs && t.dirs[p[..k]] == r.dirs[p[..k]]
    {
      OldIsElsewhere(t, s, since, p, k);
    }
    forall n: string
      ensures (p + [n] in t.dirs <==> p + [n] in r.dirs) && (p + [n] in t.files <==> p + [n] in r.files)
    {
      RenameExact(t, s, p + [n]);
      assert Up(p + [n]) == p;
    }
  }

  /** Over any run stamped later than `since`, a directory that looks no younger than `since` was there all along with
      the same entries. */
  lemma {:induction false} RunKeepsOld(t: Tree, steps: seq<Step>, since: int, p: Path)
    requires WellFormed(t) && Later(steps, since) && Old(Run(t, steps), p, since)
    ensures Old(t, p, since) && Kept(t, Run(t, steps), p)
    decreases |steps|
  {
    assert p[..|p|] == p;
    if steps != [] {
      StepWellFormed(t, steps[0]);
      LaterRest(steps, since);
      RunKeepsOld(Apply(t, steps[0]), steps[1..], since, p);
      StepKeepsOld(t, steps[0], since, p);
    }
  }

  lemma LaterRest(steps: seq<Step>, since: int)
    requires steps != [] && Later(steps, since)
    ensures Later(steps[1..], since) && (steps[0].Write? || steps[0].now > since)
  {
    var rest := steps[1..];
    assert forall i :: 0 <= i < |rest| ==> rest[i] == steps[i + 1];
  }

  lemma {:induction false} RunWellFormed(t: Tree, steps: seq<Step>)
    requires WellFormed(t)
    ensures WellFormed(Run(t, steps))
    decreases |steps|
  {
    if steps != [] {
      StepWellFormed(t, steps[0]);
      RunWellFormed(Apply(t, steps[0]), steps[1..]);
    }
  }

  lemma AllOld(t: Tree, since: int, p: Path)
    requires WellFormed(t) && p in t.dirs && AllBy(t.dirs, since)
    ensures Old(t, p, since)
  {
    forall k | 0 <= k <= |p| ensures p[..k] in t.dirs {
      assert p[..|p|] == p;
      if k < |p| { PrefixIsDir(t, p, k); }
    }
  }

  /** Two trees with the root and equal listings in every directory of one hold the same paths. */
  lemma {:induction false} SameListingsSamePaths(a: Tree, b: Tree, p: Path)
    requires WellFormed(a) && WellFormed(b) && [] in a.dirs && [] in b.dirs
    requires forall q :: q in b.dirs ==> Kept(a, b, q)
    ensures (p in a.dirs <==> p in b.dirs) && (p in a.files <==> p in b.files)
    decreases |p|
  {
    if p != [] {
      SameListingsSamePaths(a, b, Up(p));
      assert Up(p) + [p[|p| - 1]] == p;
    }
  }

  /** If the signature now is the one taken at `a`, the paths now are those of any tree on the way: `mid` was
      reached from `a` and `b` from `mid`, by steps stamped later than what the signature records. The one exception is
      a root that is not there. */
  lemma SameSignatureSamePaths(a: Tree, mid: Tree, b: Tree)
    requires WellFormed(a) && Reached(a.dirs, a, mid) && Reached(a.dirs, mid, b)
    requires a.dirs == b.dirs && [] in a.dirs
    ensures a.files.Keys == mid.files.Keys == b.files.Keys && mid.dirs.Keys == a.dirs.Keys
  {
    var since, there :| AllBy(a.dirs, since) && Later(there, since) && Run(a, there) == mid;
    var from, back :| AllBy(a.dirs, from) && Later(back, from) && Run(mid, back) == b;
    var both := if since <= from then since else from;
    RunWellFormed(a, there);
    RunWellFormed(mid, back);
    RunAppends(a, there, back);
    forall q | q in b.dirs ensures Kept(mid, b, q) && Kept(a, b, q) {
      AllOld(b, both, q);
      RunKeepsOld(mid, back, both, q);
      RunKeepsOld(a, there + back, both, q);
    }
    SameKeys(mid, b);
    SameKeys(a, b);
  }

  lemma SameKeys(a: Tree, b: Tree)
    requires WellFormed(a) && WellFormed(b) && [] in a.dirs && [] in b.dirs
    requires forall q :: q in b.dirs ==> Kept(a, b, q)
    ensures a.files.Keys == b.files.Keys && a.dirs.Keys == b.dirs.Keys
  {
    forall p ensures (p in a.dirs <==> p in b.dirs) && (p in a.files <==> p in b.files) {
      SameListingsSamePaths(a, b, p);
    }
  }

  // ---------- when the signature is a key ----------

  /** The signature determines the files over every run stamped later than `since`. */
  ghost predicate KeyAfter(t: Tree, since: int) {
    forall steps :: Later(steps, since) && Run(t, steps).dirs == t.dirs ==> Run(t, steps).files.Keys == t.files.Keys
  }

  /** The key theorem, exactly: it does iff no directory of the tree is stamped later than `since`. */
  lemma SignatureIsKeyIff(t: Tree, since: int)
    requires WellFormed(t)
    ensures KeyAfter(t, since) <==> AllBy(t.dirs, since)
  {
    if AllBy(t.dirs, since) {
      forall steps | Later(steps, since) && Run(t, steps).dirs == t.dirs
        ensures Run(t, steps).files.Keys == t.files.Keys
      {
        UnchangedSignature(t, steps, since);
      }
    }
    if !AllBy(t.dirs, since) {
      var p :| p in t.dirs && t.dirs[p] > since;
      var steps := UnseenCreate(t, p, since);
      assert Later(steps, since);
    }
  }

  lemma UnchangedSignature(t: Tree, steps: seq<Step>, since: int)
    requires WellFormed(t) && AllBy(t.dirs, since) && Later(steps, since) && Run(t, steps).dirs == t.dirs
    ensures Run(t, steps).files.Keys == t.files.Keys
  {
    var b := Run(t, steps);
    RunWellFormed(t, steps);
    if [] in t.dirs {
      assert Run(b, []) == b;
      assert Later([], since);
      assert Reached(t.dirs, t, b) && Reached(t.dirs, b, b);
      SameSignatureSamePaths(t, b, b);
    } else {
      FilesNeedRoot(t);
      FilesNeedRoot(b);
    }
  }

  lemma FilesNeedRoot(t: Tree)
    requires WellFormed(t)
    ensures t.files.Keys == {} || [] in t.dirs
  {
    if p :| p in t.files {
      PrefixIsDir(t, p, 0);
      assert p[..0] == [];
    }
  }

  /** A file created at the very tick a directory is stamped with leaves no trace in the signature. */
  lemma UnseenCreate(t: Tree, p: Path, since: int) returns (steps: seq<Step>)
    requires WellFormed(t) && p in t.dirs && t.dirs[p] > since
    ensures Later(steps, since) && Run(t, steps).dirs == t.dirs && Run(t, steps).files.Keys != t.files.Keys
  {
    var n := FreshName(set q | q in t.dirs.Keys + t.files.Keys && q != [] :: q[|q| - 1]);
    var f := p + [n];
    assert f[|f| - 1] == n && Up(f) == p;
    assert Free(t, f);
    steps := [Create(f, Stat(0, 0), t.dirs[p])];
    assert steps[1..] == [];
    var b := Apply(t, steps[0]);
    assert b.dirs == t.dirs;
    assert f in b.files && f !in t.files;
  }

  lemma FreshName(names: set<string>) returns (n: string)
    ensures forall m :: m in names ==> |m| < |n|
    decreases |names|
  {
    n := "x";
    if m :| m in names {
      var longer := FreshName(names - {m});
      n := longer + m + "x";
    }
  }

  lemma {:induction false} RunAppends(t: Tree, a: seq<Step>, b: seq<Step>)
    ensures Run(t, a + b) == Run(Run(t, a), b)
    decreases |a|
  {
    if a == [] {
      assert a + b == b;
    } else {
      RunAppends(Apply(t, a[0]), a[1..], b);
      assert (a + b)[1..] == a[1..] + b;
    }
  }

  // ---------- walking the tree ----------

  ghost predicate ChildOf(q: Path, p: Path) { q != [] && Up(q) == p }

  method InSomeOrder(entries: set<Path>) returns (r: seq<Path>)
    ensures AllDistinct(r) && forall q :: q in r <==> q in entries
  {
    r := [];
    var rest := entries;
    while rest != {}
      invariant rest <= entries && AllDistinct(r) && forall q :: q in r <==> q in entries - rest
      decreases rest
    {
      var q :| q in rest;
      assert forall i :: 0 <= i < |r| ==> r[i] in r;
      r, rest := r + [q], rest - {q};
    }
  }

  /** `os.scandir`: the subdirectories and the files of one directory, in any order. */
  method Scan(t: Tree, p: Path) returns (dirs: seq<Path>, files: seq<Path>)
    ensures ChildrenOf(t, dirs, p)
    ensures AllDistinct(files) && forall q :: q in files <==> q in t.files && ChildOf(q, p)
  {
    dirs := InSomeOrder(set q | q in t.dirs && q != [] && Up(q) == p);
    files := InSomeOrder(set q | q in t.files && q != [] && Up(q) == p);
  }

  /** `p` lies at or below something still to visit. */
  ghost predicate Ahead(stack: seq<Path>, p: Path) { exists i :: 0 <= i < |stack| && stack[i] <= p }

  /** Pending directories, no one at or below another. */
  ghost predicate Antichain(t: Tree, stack: seq<Path>) {
    && (forall i :: 0 <= i < |stack| ==> stack[i] in t.dirs)
    && forall i, j :: 0 <= i < |stack| && 0 <= j < |stack| && i != j ==> !(stack[i] <= stack[j])
  }

  /** The walk so far: visited and pending directories split the tree, and pending subtrees do not overlap. */
  ghost predicate Walking(t: Tree, stack: seq<Path>, done: set<Path>) {
    && Antichain(t, stack)
    && forall p :: p in done <==> p in t.dirs && !Ahead(stack, p)
  }

  ghost predicate ChildrenOf(t: Tree, children: seq<Path>, c: Path) {
    AllDistinct(children) && forall q :: q in children <==> q in t.dirs && ChildOf(q, c)
  }

  lemma WalkStarts(t: Tree)
    requires [] in t.dirs
    ensures Walking(t, [[]], {})
  {
    forall p ensures Ahead([[]], p) { assert [[]][0] <= p; }
  }

  lemma StepAntichain(t: Tree, rest: seq<Path>, c: Path, children: seq<Path>)
    requires Antichain(t, rest + [c]) && ChildrenOf(t, children, c)
    ensures Antichain(t, rest + children)
  {
    var n, stack, next := |rest|, rest + [c], rest + children;
    assert forall i :: 0 <= i < n ==> next[i] == stack[i] && next[i] == rest[i];
    assert stack[n] == c;
    forall k | n <= k < |next| ensures next[k] in t.dirs && c <= next[k] && |next[k]| == |c| + 1 {
      assert next[k] == children[k - n] && next[k] in children;
    }
    forall i, j | 0 <= i < |next| && 0 <= j < |next| && i != j ensures !(next[i] <= next[j]) {
      if i < n && j < n {
        assert !(stack[i] <= stack[j]);
      } else if i < n {
        assert !(stack[i] <= stack[n]) && !(stack[n] <= stack[i]);
        if next[i] <= next[j] { PrefixesCompare(next[i], c, next[j]); }
      } else if j < n {
        assert !(stack[n] <= stack[j]);
        PrefixTransitive(c, next[i], next[j]);
      } else {
        assert next[i] != next[j];
      }
    }
  }

  lemma PrefixTransitive(a: Path, b: Path, p: Path)
    ensures a <= b && b <= p ==> a <= p
  {
  }

  lemma PrefixesCompare(a: Path, b: Path, p: Path)
    requires a <= p && b <= p
    ensures a <= b || b <= a
  {
    assert a == p[..|a|] && b == p[..|b|];
  }

  lemma AheadAppends(a: seq<Path>, b: seq<Path>, p: Path)
    ensures Ahead(a + b, p) <==> Ahead(a, p) || Ahead(b, p)
  {
    var s := a + b;
    if Ahead(s, p) {
      var i :| 0 <= i < |s| && s[i] <= p;
      assert if i < |a| then a[i] <= p else b[i - |a|] <= p;
    }
    if Ahead(a, p) {
      var i :| 0 <= i < |a| && a[i] <= p;
      assert s[i] <= p;
    }
    if Ahead(b, p) {
      var i :| 0 <= i < |b| && b[i] <= p;
      assert s[|a| + i] <= p;
    }
  }

  lemma ChildrenAhead(t: Tree, c: Path, children: seq<Path>, p: Path)
    requires WellFormed(t) && ChildrenOf(t, children, c) && p in t.dirs
    ensures Ahead(children, p) <==> c <= p && p != c
  {
    if Ahead(children, p) {
      var i :| 0 <= i < |children| && children[i] <= p;
      assert children[i] in children;
    }
    if c <= p && p != c {
      ChildAbove(t, c, p);
      var k :| 0 <= k < |children| && children[k] == p[..|c| + 1];
      assert children[k] <= p;
    }
  }

  /** Visiting `c` takes exactly `c` off what lies ahead. */
  lemma StepAhead(t: Tree, rest: seq<Path>, c: Path, children: seq<Path>, p: Path)
    requires WellFormed(t) && Antichain(t, rest + [c]) && ChildrenOf(t, children, c) && p in t.dirs
    ensures Ahead(rest + children, p) <==> Ahead(rest + [c], p) && p != c
  {
    AheadAppends(rest, [c], p);
    AheadAppends(rest, children, p);
    ChildrenAhead(t, c, children, p);
    assert Ahead([c], p) <==> c <= p by { assert [c][0] == c; }
    var stack := rest + [c];
    assert stack[|rest|] == c;
    forall i | 0 <= i < |rest| ensures !(rest[i] <= c) { assert !(stack[i] <= stack[|rest|]) && stack[i] == rest[i]; }
  }

  /** Below a directory, the first component leads to one of its subdirectories. */
  lemma ChildAbove(t: Tree, c: Path, p: Path)
    requires WellFormed(t) && p in t.dirs && c <= p && c != p
    ensures |c| < |p| && p[..|c| + 1] in t.dirs && ChildOf(p[..|c| + 1], c)
  {
    assert p[..|p|] == p && p[..|c|] == c;
    if |c| + 1 < |p| { PrefixIsDir(t, p, |c| + 1); }
    assert Up(p[..|c| + 1]) == c;
  }

  lemma WalkStep(t: Tree, stack: seq<Path>, done: set<Path>, children: seq<Path>)
    requires WellFormed(t) && Walking(t, stack, done) && stack != []
    requires ChildrenOf(t, children, stack[|stack| - 1])
    ensures stack[|stack| - 1] in t.dirs && stack[|stack| - 1] !in done
    ensures Walking(t, stack[..|stack| - 1] + children, done + {stack[|stack| - 1]})
  {
    var c, rest := stack[|stack| - 1], stack[..|stack| - 1];
    assert stack == rest + [c];
    assert stack[|stack| - 1] <= c;
    StepAntichain(t, rest, c, children);
    assert Ahead(stack, c);
    forall p | p in t.dirs ensures Ahead(rest + children, p) <==> Ahead(stack, p) && p != c {
      StepAhead(t, rest, c, children, p);
    }
    assert forall p :: p in t.dirs ==> (p in done + {c} <==> p in done || p == c);
  }

  lemma WalkEnds(t: Tree, done: set<Path>)
    requires Walking(t, [], done)
    ensures done == t.dirs.Keys
  {
    assert forall p :: !Ahead([], p);
  }

  ghost predicate Copies(r: map<Path, int>, dirs: map<Path, int>, done: set<Path>) {
    r.Keys == done && forall p :: p in r ==> p in dirs && r[p] == dirs[p]
  }

  lemma CopyStep(r: map<Path, int>, dirs: map<Path, int>, done: set<Path>, c: Path)
    requires Copies(r, dirs, done) && c in dirs
    ensures Copies(r[c := dirs[c]], dirs, done + {c})
  {
  }

  lemma CopyAll(r: map<Path, int>, dirs: map<Path, int>)
    requires Copies(r, dirs, dirs.Keys)
    ensures r == dirs
  {
  }

  /** `_wb_dir_signature` on a tree that holds still: every directory with its mtime. The sorted tuple of pairs is
      represented by the map it lists. */
  method DirSignature(t: Tree) returns (r: map<Path, int>)
    requires WellFormed(t) && [] in t.dirs
    ensures r == t.dirs
  {
    r := map[];
    var stack: seq<Path> := [[]];
    ghost var done: set<Path> := {};
    WalkStarts(t);
    while stack != []
      invariant Walking(t, stack, done) && Copies(r, t.dirs, done)
      decreases t.dirs.Keys - done
    {
      var current := stack[|stack| - 1];
      var dirs, files := Scan(t, current);
      WalkStep(t, stack, done, dirs);
      stack := stack[..|stack| - 1] + dirs;
      CopyStep(r, t.dirs, done, current);
      r := r[current := t.dirs[current]];
      done := done + {current};
    }
    WalkEnds(t, done);
    CopyAll(r, t.dirs);
  }

  /** `_wb_enumerate_watched_files` on a tree that holds still. */
  method EnumerateWatchedFiles(t: Tree) returns (found: seq<Path>)
    requires WellFormed(t) && [] in t.dirs
    ensures forall f :: f in found <==> f in t.files
  {
    found := [];
    var stack: seq<Path> := [[]];
    ghost var done: set<Path> := {};
    WalkStarts(t);
    while stack != []
      invariant Walking(t, stack, done)
      invariant forall f :: f in found <==> f in t.files && Up(f) in done
      decreases t.dirs.Keys - done
    {
      var current := stack[|stack| - 1];
      var dirs, files := Scan(t, current);
      WalkStep(t, stack, done, dirs);
      stack := stack[..|stack| - 1] + dirs;
      found := found + files;
      done := done + {current};
    }
    WalkEnds(t, done);
  }

  // ---------- the cache ----------

  datatype Entry = Entry(signature: map<Path, int>, found: seq<Path>)

  ghost predicate ListsFiles(found: seq<Path>, t: Tree) { forall f :: f in found <==> f in t.files }

  ghost predicate Backed(e: Entry, signed: Tree, listed: Tree) {
    && WellFormed(signed) && [] in signed.dirs && Reached(signed.dirs, signed, listed)
    && e.signature == signed.dirs && ListsFiles(e.found, listed)
  }

  lemma HitIsFresh(e: Entry, signed: Tree, listed: Tree, now: Tree)
    requires Backed(e, signed, listed) && Reached(e.signature, listed, now) && e.signature == now.dirs
    ensures ListsFiles(e.found, now)
  {
    SameSignatureSamePaths(signed, listed, now);
    forall f ensures f in listed.files <==> f in now.files { assert f in listed.files.Keys <==> f in now.files.Keys; }
  }

  class WatchedFileCache {
    var entries: map<string, Entry>
    /** The trees whose signature and whose listing each entry holds. */
    ghost var signed: map<string, Tree>
    ghost var listed: map<string, Tree>

    ghost predicate Valid() reads this {
      && entries.Keys == signed.Keys == listed.Keys
      && forall key :: key in entries ==> Backed(entries[key], signed[key], listed[key])
    }

    constructor ()
      ensures Valid() && entries == map[]
    {
      entries, signed, listed := map[], map[], map[];
    }

    /** Remember a listing. */
    method Store(key: string, e: Entry, ghost now: Tree, ghost later: Tree)
      requires Valid() && Backed(e, now, later)
      modifies this
      ensures Valid() && listed == old(listed)[key := later] && entries == old(entries)[key := e]
    {
      entries := entries[key := e];
      signed, listed := signed[key := now], listed[key := later];
    }

    /** `_wb_cached_watched_files`: the signature is read while the tree is `now`; a miss lists the tree it has
        become by then, `later`. All that is asked of the clock is that changes after a signature was read are stamped
        later than the times it records. If the tree holds still, the answer is always a fresh listing. */
    method CachedWatchedFiles(key: string, now: Tree, later: Tree) returns (found: seq<Path>)
      requires Valid() && WellFormed(now) && [] in now.dirs && Reached(now.dirs, now, later) && [] in later.dirs
      requires key in listed ==> Reached(entries[key].signature, listed[key], now)
      modifies this
      ensures Valid() && key in listed && Reached(entries[key].signature, listed[key], later)
      ensures listed == old(listed) || listed == old(listed)[key := later]
      ensures ListsFiles(found, now) || ListsFiles(found, later)
      ensures key in old(entries) && old(entries)[key].signature == now.dirs ==>
        entries == old(entries) && found == old(entries)[key].found
    {
      var signature := DirSignature(now);
      if key in entries && entries[key].signature == signature {
        HitIsFresh(entries[key], signed[key], listed[key], now);
        ReachedChains(signature, listed[key], now, later);
        return entries[key].found;
      }
      ReachedWellFormed(now.dirs, now, later);
      found := EnumerateWatchedFiles(later);
      Store(key, Entry(signature, found), now, later);
    }
  }

  lemma ReachedWellFormed(signature: map<Path, int>, a: Tree, b: Tree)
    requires WellFormed(a) && Reached(signature, a, b)
    ensures WellFormed(b) && Reached(signature, b, b)
  {
    var since, steps :| AllBy(signature, since) && Later(steps, since) && Run(a, steps) == b;
    RunWellFormed(a, steps);
    assert Run(b, []) == b && Later([], since);
  }

  lemma ReachedChains(signature: map<Path, int>, a: Tree, b: Tree, c: Tree)
    requires Reached(signature, a, b) && Reached(signature, b, c)
    ensures Reached(signature, a, c)
  {
    var s, x :| AllBy(signature, s) && Later(x, s) && Run(a, x) == b;
    var u, y :| AllBy(signature, u) && Later(y, u) && Run(b, y) == c;
    var both := if s <= u then s else u;
    RunAppends(a, x, y);
    assert AllBy(signature, both) && Later(x + y, both);
  }

  // ---------- snapshots, test by test ----------

  type Snapshot = map<string, Stat>

  datatype Change = Added(rel: string) | Removed(rel: string) | Modified(rel: string)

  /** What is said about one path. */
  function ChangeAt(before: Snapshot, after: Snapshot, rel: string): Option<Change> {
    if rel in after && rel !in before then Some(Added(rel))
    else if rel in before && rel !in after then Some(Removed(rel))
    else if rel in before && before[rel] != after[rel] then Some(Modified(rel))
    else None
  }

  ghost predicate IsDiff(before: Snapshot, after: Snapshot, changes: seq<Change>) {
    forall c :: c in changes <==> ChangeAt(before, after, c.rel) == Some(c)
  }

  /** `_wb_diff_live_state`: exactly the differences, so none iff nothing changed. */
  method DiffLiveState(before: Snapshot, after: Snapshot) returns (changes: seq<Change>)
    ensures IsDiff(before, after, changes)
    ensures changes == [] <==> before == after
  {
    changes := [];
    var added := SortedKeys(after.Keys - before.Keys);
    for i := 0 to |added|
      invariant forall c :: c in changes <==> c.Added? && c.rel in added[..i]
    {
      changes := changes + [Added(added[i])];
      TakeOneMore(added, i);
    }
    assert added[..|added|] == added;
    var removed := SortedKeys(before.Keys - after.Keys);
    for i := 0 to |removed|
      invariant forall c :: c in changes <==> (c.Added? && c.rel in added) || (c.Removed? && c.rel in removed[..i])
    {
      changes := changes + [Removed(removed[i])];
      TakeOneMore(removed, i);
    }
    assert removed[..|removed|] == removed;
    var kept := SortedKeys(before.Keys * after.Keys);
    for i := 0 to |kept|
      invariant forall c :: c in changes <==>
        || (c.Added? && c.rel in added) || (c.Removed? && c.rel in removed)
        || (c.Modified? && c.rel in kept[..i] && ChangeAt(before, after, c.rel) == Some(c))
    {
      var rel := kept[i];
      assert rel in kept;
      TakeOneMore(kept, i);
      if before[rel] != after[rel] { changes := changes + [Modified(rel)]; }
    }
    assert kept[..|kept|] == kept;
    NoChangeMeansEqual(before, after, changes);
  }

  lemma NoChangeMeansEqual(before: Snapshot, after: Snapshot, changes: seq<Change>)
    requires IsDiff(before, after, changes)
    ensures changes == [] <==> before == after
  {
    forall rel ensures changes == [] ==> ChangeAt(before, after, rel).None? {
      var c := ChangeAt(before, after, rel);
      assert c.Some? ==> c.value.rel == rel && c.value in changes;
    }
    if changes == [] {
      forall rel ensures rel in before <==> rel in after { assert ChangeAt(before, after, rel).None?; }
      forall rel | rel in before ensures before[rel] == after[rel] { assert ChangeAt(before, after, rel).None?; }
      assert before == after;
    }
    if changes != [] {
      assert changes[0] in changes;
      assert ChangeAt(before, after, changes[0].rel).Some?;
    }
  }

  /** One test as the guard sees it at teardown. */
  datatype Test = Test(id: string, marked: bool, others: bool, after: Snapshot)

  class Session {
    var last: Snapshot
    var leaks: seq<string>
    var warns: seq<string>

    constructor (start: Snapshot)
      ensures last == start && leaks == [] && warns == []
    {
      last, leaks, warns := start, [], [];
    }

    /** `pytest_runtest_teardown`: the baseline advances whatever the verdict. */
    method Teardown(t: Test)
      modifies this
      ensures last == t.after
      ensures leaks == old(leaks) + Blame(old(last), t, false)
      ensures warns == old(warns) + Blame(old(last), t, true)
    {
      var before := last;
      last := t.after;
      var diff := DiffLiveState(before, t.after);
      if diff == [] { return; }
      if t.marked { return; }
      if !t.others {
        leaks := leaks + [t.id];
      } else {
        warns := warns + [t.id];
      }
    }

    method RunTests(tests: seq<Test>)
      modifies this
      ensures last == End(old(last), tests)
      ensures leaks == old(leaks) + Blamed(old(last), tests, false)
      ensures warns == old(warns) + Blamed(old(last), tests, true)
    {
      for i := 0 to |tests|
        invariant last == End(old(last), tests[..i])
        invariant leaks == old(leaks) + Blamed(old(last), tests[..i], false)
        invariant warns == old(warns) + Blamed(old(last), tests[..i], true)
      {
        BlamedAppends(old(last), tests[..i], tests[i], false);
        BlamedAppends(old(last), tests[..i], tests[i], true);
        Teardown(tests[i]);
        TakeOneMore(tests, i);
      }
      assert tests[..|tests|] == tests;
    }
  }

  function End(start: Snapshot, tests: seq<Test>): Snapshot {
    if tests == [] then start else tests[|tests| - 1].after
  }

  /** An unmarked test that changed the live state while other sessions were (or were not) running. */
  function Blame(before: Snapshot, t: Test, others: bool): seq<string> {
    if t.after != before && !t.marked && t.others == others then [t.id] else []
  }

  function Blamed(start: Snapshot, tests: seq<Test>, others: bool): seq<string>
    decreases |tests|
  {
    if tests == [] then [] else Blame(start, tests[0], others) + Blamed(tests[0].after, tests[1..], others)
  }

  lemma {:induction false} BlamedAppends(start: Snapshot, tests: seq<Test>, t: Test, others: bool)
    ensures Blamed(start, tests + [t], others) == Blamed(start, tests, others) + Blame(End(start, tests), t, others)
    decreases |tests|
  {
    var all := tests + [t];
    if tests == [] {
      assert all[1..] == [];
    } else {
      BlamedAppends(tests[0].after, tests[1..], t, others);
      assert all[0] == tests[0] && all[1..] == tests[1..] + [t];
      JoinThree(Blame(start, tests[0], others), Blamed(tests[0].after, tests[1..], others),
                Blame(End(start, tests), t, others));
    }
  }

  /** Test i, unless marked, left the live state as it found it. */
  ghost predicate LeftAlone(start: Snapshot, tests: seq<Test>, i: nat)
    requires i < |tests|
  {
    !tests[i].marked ==> tests[i].after == End(start, tests[..i])
  }

  ghost predicate AllLeftAlone(start: Snapshot, tests: seq<Test>) {
    forall i :: 0 <= i < |tests| ==> LeftAlone(start, tests, i)
  }

  /** A session with no leak and no warning changed the live state only in marked tests. */
  lemma {:induction false} QuietSession(start: Snapshot, tests: seq<Test>)
    ensures Blamed(start, tests, false) == [] && Blamed(start, tests, true) == [] <==> AllLeftAlone(start, tests)
    decreases |tests|
  {
    if tests != [] {
      QuietSession(tests[0].after, tests[1..]);
      FirstThenRest(start, tests);
    }
  }

  lemma FirstThenRest(start: Snapshot, tests: seq<Test>)
    requires tests != []
    ensures AllLeftAlone(start, tests) <==>
      (!tests[0].marked ==> tests[0].after == start) && AllLeftAlone(tests[0].after, tests[1..])
  {
    var rest := tests[1..];
    assert tests[..0] == [];
    assert LeftAlone(start, tests, 0) <==> (!tests[0].marked ==> tests[0].after == start);
    forall i | 0 <= i < |rest| ensures LeftAlone(tests[0].after, rest, i) <==> LeftAlone(start, tests, i + 1) {
      assert tests[..i + 1] == [tests[0]] + rest[..i] && rest[i] == tests[i + 1];
    }
    if AllLeftAlone(tests[0].after, rest) && LeftAlone(start, tests, 0) {
      forall i | 0 <= i < |tests| ensures LeftAlone(start, tests, i) {
        if i > 0 { assert LeftAlone(tests[0].after, rest, i - 1); }
      }
    }
  }
}

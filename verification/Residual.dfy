/** Connected components of the file-overlap graph among landing residuals:
    a union-find with path halving over one mutable parent map. */
module Residual {
  import opened Text

  datatype Class = Conflicting | Identical | Clean

  datatype Row = Row(branch: string, cls: Class, files: seq<string>, conflictFiles: seq<string>,
                     patchId: Option<string>, ins: nat)

  datatype Component = Component(id: nat, members: seq<string>, hubs: seq<string>, files: seq<string>,
                                 ins: nat, conflicting: nat)

  function Paths(row: Row): seq<string> { row.files + row.conflictFiles }

  /** The class a branch gets from one merge-tree call and its numstat. */
  function Classify(files: seq<string>, conflictFiles: seq<string>): (c: Class)
    ensures c == Identical <==> files == [] && conflictFiles == []
    ensures c == Conflicting <==> conflictFiles != []
  {
    if conflictFiles != [] then Conflicting else if files == [] then Identical else Clean
  }

  // ---------- the graph ----------

  ghost predicate Shares(a: Row, b: Row) { exists p :: p in Paths(a) && p in Paths(b) }

  ghost predicate Adjacent(rows: seq<Row>, a: string, b: string) {
    exists x, y :: x in rows && y in rows && x.branch == a && y.branch == b && Shares(x, y)
  }

  ghost predicate Chain(rows: seq<Row>, a: string, c: seq<string>, b: string)
    decreases |c|
  {
    if c == [] then a == b else Adjacent(rows, a, c[0]) && Chain(rows, c[0], c[1..], b)
  }

  /** A chain of rows, each sharing a path with the next, leads from a to b. */
  ghost predicate Linked(rows: seq<Row>, a: string, b: string) {
    exists c :: Chain(rows, a, c, b)
  }

  lemma LinkedSelf(rows: seq<Row>, a: string)
    ensures Linked(rows, a, a)
  {
    assert Chain(rows, a, [], a);
  }

  lemma LinkedStep(rows: seq<Row>, a: string, b: string)
    requires Adjacent(rows, a, b)
    ensures Linked(rows, a, b)
  {
    assert Chain(rows, b, [], b);
    assert [b][1..] == [] && Chain(rows, a, [b], b);
  }

  lemma {:induction false} ChainJoin(rows: seq<Row>, a: string, c: seq<string>, b: string, e: seq<string>, d: string)
    requires Chain(rows, a, c, b) && Chain(rows, b, e, d)
    ensures Chain(rows, a, c + e, d)
    decreases |c|
  {
    if c == [] {
      assert c + e == e;
    } else {
      ChainJoin(rows, c[0], c[1..], b, e, d);
      assert (c + e)[1..] == c[1..] + e;
    }
  }

  lemma LinkedTransitive(rows: seq<Row>, a: string, b: string, d: string)
    requires Linked(rows, a, b) && Linked(rows, b, d)
    ensures Linked(rows, a, d)
  {
    var c :| Chain(rows, a, c, b);
    var e :| Chain(rows, b, e, d);
    ChainJoin(rows, a, c, b, e, d);
  }

  lemma {:induction false} ChainReversed(rows: seq<Row>, a: string, c: seq<string>, b: string)
    requires Chain(rows, a, c, b)
    ensures Linked(rows, b, a)
    decreases |c|
  {
    if c == [] {
      LinkedSelf(rows, a);
    } else {
      ChainReversed(rows, c[0], c[1..], b);
      LinkedStep(rows, c[0], a);
      LinkedTransitive(rows, b, c[0], a);
    }
  }

  lemma LinkedSymmetric(rows: seq<Row>, a: string, b: string)
    requires Linked(rows, a, b)
    ensures Linked(rows, b, a)
  {
    var c :| Chain(rows, a, c, b);
    ChainReversed(rows, a, c, b);
  }

  // ---------- the union-find ----------

  function Up(p: map<string, string>, x: string): string { if x in p then p[x] else x }

  /** The node reached from x by k double steps up. */
  ghost function Grand(p: map<string, string>, x: string, k: nat): string {
    if k == 0 then x else Up(p, Up(p, Grand(p, x, k - 1)))
  }

  /** What the parent map, the root map and the rank say about one node. */
  ghost predicate Hangs(parent: map<string, string>, root: map<string, string>, rank: map<string, nat>, x: string)
    requires x in parent && root.Keys == parent.Keys && rank.Keys == parent.Keys
  {
    && parent[x] in parent && root[x] in parent
    && root[parent[x]] == root[x] && parent[root[x]] == root[x]
    && (parent[x] == x ==> root[x] == x)
    && (parent[x] != x ==> rank[parent[x]] < rank[x])
  }

  ghost predicate IsForest(parent: map<string, string>, root: map<string, string>, rank: map<string, nat>) {
    && root.Keys == parent.Keys && rank.Keys == parent.Keys
    && forall x {:trigger Hangs(parent, root, rank, x)} :: x in parent ==> Hangs(parent, root, rank, x)
  }

  /** Climbing from x reaches its root and stays there: a forest has no cycle. */
  lemma {:induction false} ClimbEndsAtRoot(parent: map<string, string>, root: map<string, string>,
                                           rank: map<string, nat>, x: string) returns (k: nat)
    requires IsForest(parent, root, rank) && x in parent
    ensures forall m: nat :: m >= k ==> Grand(parent, x, m) == root[x]
    decreases rank[x]
  {
    NodeHangs(parent, root, rank, x);
    if parent[x] == x {
      k := 0;
      StayAtRoot(parent, x, x, 0);
    } else {
      var g := parent[parent[x]];
      NodeHangs(parent, root, rank, parent[x]);
      k := ClimbEndsAtRoot(parent, root, rank, g);
      GrandShift(parent, x, k);
      k := k + 1;
      assert Grand(parent, x, k) == root[x];
      StayAtRoot(parent, x, root[x], k);
    }
  }

  lemma {:induction false} GrandShift(p: map<string, string>, x: string, k: nat)
    ensures Grand(p, x, k + 1) == Grand(p, Up(p, Up(p, x)), k)
  {
    if k == 0 {
      assert Grand(p, x, 0) == x;
    } else {
      GrandShift(p, x, k - 1);
    }
  }

  lemma {:induction false} StayAtRoot(p: map<string, string>, x: string, r: string, k: nat)
    requires Up(p, r) == r && Grand(p, x, k) == r
    ensures forall m: nat :: m >= k ==> Grand(p, x, m) == r
  {
    forall m: nat | m >= k ensures Grand(p, x, m) == r { StayAt(p, x, r, k, m); }
  }

  lemma {:induction false} StayAt(p: map<string, string>, x: string, r: string, k: nat, m: nat)
    requires Up(p, r) == r && Grand(p, x, k) == r && m >= k
    ensures Grand(p, x, m) == r
  {
    if m > k { StayAt(p, x, r, k, m - 1); }
  }

  /** Double step k of the climb from `name` through p0 is a single step in `parent`. */
  ghost predicate Rehung(p0: map<string, string>, parent: map<string, string>, name: string, k: nat) {
    Up(parent, Grand(p0, name, k)) == Grand(p0, name, k + 1)
  }

  ghost predicate OnClimb(p0: map<string, string>, name: string, x: string) {
    exists k: nat :: x == Grand(p0, name, k)
  }

  ghost predicate RanksAbove(p0: map<string, string>, rank: map<string, nat>, name: string, k: nat, r: string) {
    r in rank && Grand(p0, name, k) in rank && rank[Grand(p0, name, k)] > rank[r]
  }

  /** Where a halving climb from `name` stands after n double steps, having started from p0. */
  ghost predicate Climbing(p0: map<string, string>, parent: map<string, string>, root: map<string, string>,
                           rank: map<string, nat>, name: string, r: string, n: nat)
  {
    && name in p0 && parent.Keys == p0.Keys == root.Keys == rank.Keys
    && r in parent && root[r] == root[name] && r == Grand(p0, name, n)
    && (forall x {:trigger rank[x]} :: x in p0 && rank[x] <= rank[r] ==> parent[x] == p0[x])
    && (forall k: nat {:trigger RanksAbove(p0, rank, name, k, r)} :: k < n ==> RanksAbove(p0, rank, name, k, r))
    && (forall k: nat {:trigger Rehung(p0, parent, name, k)} :: k < n ==> Rehung(p0, parent, name, k))
    && (forall x {:trigger OnClimb(p0, name, x)} :: x in parent && parent[x] != p0[x] ==> OnClimb(p0, name, x))
  }

  lemma NodeHangs(parent: map<string, string>, root: map<string, string>, rank: map<string, nat>, x: string)
    requires IsForest(parent, root, rank) && x in parent
    ensures Hangs(parent, root, rank, x) && Hangs(parent, root, rank, parent[x]) && Hangs(parent, root, rank, root[x])
  {
    assert Hangs(parent, root, rank, x);
  }

  lemma HalvingKeepsForest(parent: map<string, string>, root: map<string, string>, rank: map<string, nat>, r: string,
                           g: string)
    requires IsForest(parent, root, rank) && r in parent && parent[r] != r && g == Up(parent, parent[r])
    ensures g in parent && IsForest(parent[r := g], root, rank)
    ensures rank[g] < rank[r] && root[g] == root[r]
  {
    NodeHangs(parent, root, rank, r);
    NodeHangs(parent, root, rank, parent[r]);
    var q := parent[r := g];
    forall x | x in q ensures Hangs(q, root, rank, x) {
      assert Hangs(parent, root, rank, x);
    }
  }

  lemma HalvingClimbs(p0: map<string, string>, parent: map<string, string>, root: map<string, string>,
                      rank: map<string, nat>, name: string, r: string, n: nat, g: string)
    requires IsForest(parent, root, rank) && r in parent && parent[r] != r && g == Up(parent, parent[r])
    requires Climbing(p0, parent, root, rank, name, r, n)
    ensures Climbing(p0, parent[r := g], root, rank, name, g, n + 1)
  {
    var q := parent[r := g];
    NodeHangs(parent, root, rank, r);
    HalvingKeepsForest(parent, root, rank, r, g);
    assert p0[r] == parent[r] && rank[parent[r]] < rank[r] && p0[parent[r]] == g;
    assert Grand(p0, name, n + 1) == g;
    forall k: nat | k < n + 1 ensures RanksAbove(p0, rank, name, k, g) {
      if k < n { assert RanksAbove(p0, rank, name, k, r); }
    }
    forall k: nat | k < n + 1 ensures Rehung(p0, q, name, k) {
      if k < n {
        assert RanksAbove(p0, rank, name, k, r);
        assert Rehung(p0, parent, name, k);
      }
    }
    forall x | x in q && q[x] != p0[x] ensures OnClimb(p0, name, x) {
      if x != r { assert OnClimb(p0, name, x); }
    }
  }

  /** Everything rooted at ra is now rooted at rb. */
  ghost function Merged(root: map<string, string>, ra: string, rb: string): map<string, string> {
    map x | x in root :: if root[x] == ra then rb else root[x]
  }

  ghost function Lifted(root: map<string, string>, rank: map<string, nat>, ra: string, rb: string): map<string, nat>
    requires root.Keys == rank.Keys && rb in rank
  {
    map x | x in rank :: if root[x] == ra then rank[x] + rank[rb] + 1 else rank[x]
  }

  lemma HangKeepsForest(parent: map<string, string>, root: map<string, string>, rank: map<string, nat>, ra: string,
                        rb: string)
    requires IsForest(parent, root, rank) && ra in parent && rb in parent && parent[ra] == ra
      && parent[rb] == rb && ra != rb
    ensures IsForest(parent[ra := rb], Merged(root, ra, rb), Lifted(root, rank, ra, rb))
  {
    var q, s, k := parent[ra := rb], Merged(root, ra, rb), Lifted(root, rank, ra, rb);
    NodeHangs(parent, root, rank, ra);
    NodeHangs(parent, root, rank, rb);
    forall x | x in q ensures Hangs(q, s, k, x) {
      NodeHangs(parent, root, rank, x);
    }
  }

  lemma SameTree(parent: map<string, string>, root: map<string, string>, r: string)
    requires r in parent && parent[r] == r
    ensures parent[r := r] == parent && Merged(root, r, r) == root
  {
  }

  class Forest {
    var parent: map<string, string>
    ghost var root: map<string, string>
    ghost var rank: map<string, nat>

    ghost predicate Valid() reads this { IsForest(parent, root, rank) }

    constructor (names: seq<string>)
      ensures Valid()
      ensures parent == root == (map n | n in names :: n)
    {
      parent := map n | n in names :: n;
      root := map n | n in names :: n;
      rank := map n | n in names :: 0;
    }

    /** Path halving: every second node on the climb is re-hung on its grandparent, nothing else
        moves, no root changes, and the root of `name` comes back. */
    method Find(name: string) returns (r: string)
      requires Valid() && name in parent
      modifies this`parent
      ensures Valid() && parent.Keys == old(parent.Keys)
      ensures name in root && r == root[name] && r in parent && parent[r] == r
      ensures forall k: nat :: Rehung(old(parent), parent, name, k)
      ensures forall x :: x in parent && parent[x] != old(parent)[x] ==> OnClimb(old(parent), name, x)
    {
      ghost var n: nat := 0;
      r := name;
      while parent[r] != r
        invariant Valid() && Climbing(old(parent), parent, root, rank, name, r, n)
        decreases rank[r]
      {
        NodeHangs(parent, root, rank, r);
        ghost var g := parent[parent[r]];
        HalvingKeepsForest(parent, root, rank, r, g);
        HalvingClimbs(old(parent), parent, root, rank, name, r, n, g);
        parent := parent[r := parent[parent[r]]];
        r, n := parent[r], n + 1;
      }
      NodeHangs(parent, root, rank, r);
      forall k: nat ensures Rehung(old(parent), parent, name, k) {
        if k >= n { StayAtRoot(old(parent), name, r, n); }
      }
    }

    /** `parent[find(a)] = find(b)`: the trees of a and b become one, all others stay. */
    method Union(a: string, b: string)
      requires Valid() && a in parent && b in parent
      modifies this
      ensures Valid() && parent.Keys == old(parent.Keys)
      ensures a in old(root) && b in old(root) && root == Merged(old(root), old(root)[a], old(root)[b])
    {
      var rb := Find(b);
      var ra := Find(a);
      NodeHangs(parent, root, rank, b);
      ghost var merged := Merged(root, ra, rb);
      if ra == rb {
        SameTree(parent, root, ra);
      } else {
        HangKeepsForest(parent, root, rank, ra, rb);
        rank := Lifted(root, rank, ra, rb);
      }
      parent := parent[ra := rb];
      root := merged;
    }
  }

  // ---------- rows to members ----------

  function Key(row: Row): string {
    if row.patchId.Some? && row.patchId.value != "" then row.patchId.value else row.branch
  }

  /** The earliest non-identical row of each key, in order. */
  function FirstPerKey(rows: seq<Row>): (r: seq<Row>)
  {
    if rows == [] then []
    else
      var p, last := FirstPerKey(rows[..|rows| - 1]), rows[|rows| - 1];
      if last.cls == Identical || (exists q :: q in p && Key(q) == Key(last)) then p else p + [last]
  }

  method Representatives(rows: seq<Row>) returns (reps: seq<Row>)
    ensures reps == FirstPerKey(rows)
  {
    var keys: set<string> := {};
    reps := [];
    for i := 0 to |rows|
      invariant reps == FirstPerKey(rows[..i])
      invariant forall k :: k in keys <==> exists q :: q in reps && Key(q) == k
    {
      TakeOneMore(rows, i);
      if rows[i].cls != Identical && Key(rows[i]) !in keys {
        reps := reps + [rows[i]];
        keys := keys + {Key(rows[i])};
      }
    }
    assert rows[..|rows|] == rows;
  }

  /** Row i is represented by itself or an earlier row with its key. */
  ghost predicate Represented(rows: seq<Row>, reps: seq<Row>, i: nat)
    requires i < |rows|
  {
    exists k :: 0 <= k <= i && rows[k] in reps && Key(rows[k]) == Key(rows[i])
  }

  ghost predicate KeysDiffer(reps: seq<Row>) {
    forall i, j :: 0 <= i < j < |reps| ==> Key(reps[i]) != Key(reps[j])
  }

  lemma {:induction false} FirstPerKeyApart(rows: seq<Row>)
    ensures KeysDiffer(FirstPerKey(rows)) && forall q :: q in FirstPerKey(rows) ==> q.cls != Identical
  {
    if rows != [] {
      FirstPerKeyApart(rows[..|rows| - 1]);
    }
  }

  lemma {:induction false} FirstPerKeyCovers(rows: seq<Row>, i: nat)
    requires i < |rows| && rows[i].cls != Identical
    ensures Represented(rows, FirstPerKey(rows), i)
  {
    var n := |rows| - 1;
    if i < n {
      assert rows[..n][i] == rows[i];
      FirstPerKeyCovers(rows[..n], i);
    } else {
      LastRepresented(rows);
    }
  }

  /** Exactly one row stands for each key of a non-identical row, and it is the earliest. */
  lemma FirstPerKeyExact(rows: seq<Row>)
    ensures KeysDiffer(FirstPerKey(rows)) && forall q :: q in FirstPerKey(rows) ==> q.cls != Identical
    ensures forall i :: 0 <= i < |rows| && rows[i].cls != Identical ==> Represented(rows, FirstPerKey(rows), i)
  {
    FirstPerKeyApart(rows);
    forall i | 0 <= i < |rows| && rows[i].cls != Identical ensures Represented(rows, FirstPerKey(rows), i) {
      FirstPerKeyCovers(rows, i);
    }
  }

  lemma LastRepresented(rows: seq<Row>)
    requires rows != [] && rows[|rows| - 1].cls != Identical
    ensures Represented(rows, FirstPerKey(rows), |rows| - 1)
  {
    var n := |rows| - 1;
    var init := rows[..n];
    var p := FirstPerKey(init);
    if q :| q in p && Key(q) == Key(rows[n]) {
      FirstPerKeySubset(init, q);
      var m :| 0 <= m < n && init[m] == q;
      assert rows[m] == q;
    } else {
      assert FirstPerKey(rows) == p + [rows[n]];
    }
  }

  lemma {:induction false} FirstPerKeySubset(rows: seq<Row>, q: Row)
    requires q in FirstPerKey(rows)
    ensures q in rows
  {
    if q in FirstPerKey(rows[..|rows| - 1]) { FirstPerKeySubset(rows[..|rows| - 1], q); }
  }

  // ---------- which work is kept ----------

  ghost predicate HasPatch(row: Row) { row.patchId.Some? && row.patchId.value != "" }

  /** Two rows stand for one piece of work: the same patch, the same branch where neither has a patch, or a branch
      whose name is the other's patch id. */
  ghost predicate SameWork(a: Row, b: Row) {
    if HasPatch(a) && HasPatch(b) then a.patchId == b.patchId
    else if HasPatch(a) then a.patchId == Some(b.branch)
    else if HasPatch(b) then b.patchId == Some(a.branch)
    else a.branch == b.branch
  }

  lemma KeyIsWork(a: Row, b: Row)
    ensures Key(a) == Key(b) <==> SameWork(a, b)
  {
  }

  /** Row k is the first non-identical one of its work. */
  ghost predicate FirstOfWork(rows: seq<Row>, k: nat) {
    && k < |rows| && rows[k].cls != Identical
    && forall i :: 0 <= i < k && rows[i].cls != Identical ==> !SameWork(rows[i], rows[k])
  }

  ghost predicate Kept(rows: seq<Row>, x: Row) { exists k: nat :: FirstOfWork(rows, k) && rows[k] == x }

  /** What is kept, told by patch ids and branches alone: the first row of each piece of work, once. */
  lemma RepresentativesExact(rows: seq<Row>)
    ensures forall x :: x in FirstPerKey(rows) <==> Kept(rows, x)
    ensures forall i, j :: 0 <= i < j < |FirstPerKey(rows)| ==> !SameWork(FirstPerKey(rows)[i], FirstPerKey(rows)[j])
  {
    var reps := FirstPerKey(rows);
    FirstPerKeyExact(rows);
    forall i, j | 0 <= i < j < |reps| ensures !SameWork(reps[i], reps[j]) { KeyIsWork(reps[i], reps[j]); }
    forall x ensures x in reps <==> Kept(rows, x) { KeptExact(rows, x); }
  }

  lemma {:induction false} KeptExact(rows: seq<Row>, x: Row)
    ensures x in FirstPerKey(rows) <==> Kept(rows, x)
  {
    if rows != [] {
      var init, last := rows[..|rows| - 1], rows[|rows| - 1];
      InitAndLast(rows);
      KeptExact(init, x);
      KeptGrows(init, last, x);
      if last.cls != Identical { LastIsFirst(init, last); }
      LastKept(init, last);
    }
  }

  lemma LastKept(init: seq<Row>, last: Row)
    ensures var p := FirstPerKey(init);
      FirstPerKey(init + [last]) ==
        if last.cls == Identical || (exists q :: q in p && Key(q) == Key(last)) then p else p + [last]
  {
    assert (init + [last])[..|init|] == init;
  }

  lemma KeptGrows(init: seq<Row>, last: Row, x: Row)
    ensures Kept(init + [last], x) <==> Kept(init, x) || (x == last && FirstOfWork(init + [last], |init|))
  {
    var rows := init + [last];
    forall k: nat | k < |init| ensures FirstOfWork(rows, k) <==> FirstOfWork(init, k) {
      assert forall i :: 0 <= i <= k ==> rows[i] == init[i];
    }
    if Kept(rows, x) {
      var k: nat :| FirstOfWork(rows, k) && rows[k] == x;
      assert k < |init| ==> init[k] == x;
    }
    if Kept(init, x) {
      var k: nat :| FirstOfWork(init, k) && init[k] == x;
      assert rows[k] == x;
    }
  }

  /** The last row starts a new piece of work exactly if no kept row has its key. */
  lemma LastIsFirst(init: seq<Row>, last: Row)
    requires last.cls != Identical
    ensures FirstOfWork(init + [last], |init|) <==> !exists q :: q in FirstPerKey(init) && Key(q) == Key(last)
  {
    var rows := init + [last];
    if q :| q in FirstPerKey(init) && Key(q) == Key(last) {
      FirstPerKeySubset(init, q);
      FirstPerKeyApart(init);
      var i :| 0 <= i < |init| && init[i] == q;
      KeyIsWork(q, last);
      assert rows[i] == q;
    } else {
      forall i | 0 <= i < |init| && rows[i].cls != Identical ensures !SameWork(rows[i], last) {
        assert rows[i] == init[i];
        FirstPerKeyCovers(init, i);
        KeyIsWork(rows[i], last);
      }
    }
  }

  /** Row a has row b's patch, or no patch and a branch named like it. */
  ghost predicate Bears(a: Row, b: Row) {
    a.patchId == b.patchId || (!HasPatch(a) && Some(a.branch) == b.patchId)
  }

  /** No other row uses row k's branch as its branch or its patch id. */
  ghost predicate NameAlone(rows: seq<Row>, k: nat)
    requires k < |rows|
  {
    forall i :: 0 <= i < |rows| && i != k ==>
      rows[i].branch != rows[k].branch && rows[i].patchId != Some(rows[k].branch)
  }

  /** No patch is counted twice, and none is lost: a row with a patch id has a kept row with that patch no later, or
      one without a patch whose branch bears its name; a row without one is kept where nothing else bears its name. */
  lemma OneRowPerPatch(rows: seq<Row>, k: nat)
    requires k < |rows| && rows[k].cls != Identical
    ensures forall i, j :: 0 <= i < j < |FirstPerKey(rows)| && HasPatch(FirstPerKey(rows)[i]) ==>
      FirstPerKey(rows)[i].patchId != FirstPerKey(rows)[j].patchId
    ensures HasPatch(rows[k]) ==> exists i :: 0 <= i <= k && rows[i] in FirstPerKey(rows) && Bears(rows[i], rows[k])
    ensures !HasPatch(rows[k]) && NameAlone(rows, k) ==> rows[k] in FirstPerKey(rows)
  {
    RepresentativesExact(rows);
    FirstPerKeyCovers(rows, k);
    var i :| 0 <= i <= k && rows[i] in FirstPerKey(rows) && Key(rows[i]) == Key(rows[k]);
    KeyIsWork(rows[i], rows[k]);
  }

  /** The one way a patch goes uncounted: an earlier row without a patch whose branch is named like it. */
  lemma PatchNameTaken(a: Row, b: Row)
    requires a.cls != Identical && b.cls != Identical && !HasPatch(a) && b.patchId == Some(a.branch) && a.branch != ""
    ensures FirstPerKey([a, b]) == [a]
  {
    assert [a, b][..1] == [a] && [a][..0] == [];
    KeyIsWork(a, b);
    assert FirstPerKey([a]) == [a];
    assert a in FirstPerKey([a]);
  }

  predicate BranchLe(a: Row, b: Row) { Le(a.branch, b.branch) }

  function Members(rows: seq<Row>): seq<Row> { Sort(FirstPerKey(rows), BranchLe) }

  function Branches(rows: seq<Row>): (r: seq<string>)
    ensures |r| == |rows| && forall i :: 0 <= i < |r| ==> r[i] == rows[i].branch
  {
    seq(|rows|, i requires 0 <= i < |rows| => rows[i].branch)
  }

  // ---------- linking ----------

  ghost predicate Owned(rows: seq<Row>, owners: map<string, string>) {
    forall p :: p in owners ==> exists x :: x in rows && x.branch == owners[p] && p in Paths(x)
  }

  ghost predicate Sound(rows: seq<Row>, root: map<string, string>) {
    forall a, b :: a in root && b in root && root[a] == root[b] ==> Linked(rows, a, b)
  }

  ghost predicate Joined(x: Row, count: nat, owners: map<string, string>, root: map<string, string>)
    requires count <= |Paths(x)|
  {
    forall k :: 0 <= k < count ==>
      Paths(x)[k] in owners && owners[Paths(x)[k]] in root && x.branch in root
      && root[x.branch] == root[owners[Paths(x)[k]]]
  }

  lemma UnionSound(rows: seq<Row>, root: map<string, string>, a: string, b: string, root': map<string, string>)
    requires Sound(rows, root) && a in root && b in root && Adjacent(rows, a, b)
    requires root' == Merged(root, root[a], root[b])
    ensures Sound(rows, root')
  {
    LinkedStep(rows, a, b);
    forall x, y | x in root' && y in root' && root'[x] == root'[y] ensures Linked(rows, x, y) {
      ToB(rows, root, a, b, x);
      ToB(rows, root, a, b, y);
      if root'[x] == root[b] {
        LinkedSymmetric(rows, y, b);
        LinkedTransitive(rows, x, b, y);
      }
    }
  }

  lemma ToB(rows: seq<Row>, root: map<string, string>, a: string, b: string, x: string)
    requires Sound(rows, root) && a in root && b in root && x in root && Linked(rows, a, b)
    ensures root[x] == root[a] || root[x] == root[b] ==> Linked(rows, x, b)
  {
    if root[x] == root[a] { LinkedTransitive(rows, x, a, b); }
  }

  /** Rows before i are fully joined to the owners of their paths, row i for its first k paths. */
  ghost predicate Progress(rows: seq<Row>, i: nat, k: nat, owners: map<string, string>, root: map<string, string>) {
    && i <= |rows| && (i < |rows| ==> k <= |Paths(rows[i])|)
    && Owned(rows, owners) && Sound(rows, root)
    && (forall x :: x in rows[..i] ==> Joined(x, |Paths(x)|, owners, root))
    && (i < |rows| ==> Joined(rows[i], k, owners, root))
  }

  lemma JoinedAfter(x: Row, k: nat, owners: map<string, string>, root: map<string, string>,
                    owners': map<string, string>, root': map<string, string>)
    requires k <= |Paths(x)| && Joined(x, k, owners, root)
    requires forall p :: p in owners ==> p in owners' && owners'[p] == owners[p]
    requires root'.Keys == root.Keys
    requires forall a, b :: a in root && b in root && root[a] == root[b] ==> root'[a] == root'[b]
    ensures Joined(x, k, owners', root')
  {
    forall j | 0 <= j < k
      ensures Paths(x)[j] in owners' && owners'[Paths(x)[j]] in root' && x.branch in root'
      ensures root'[x.branch] == root'[owners'[Paths(x)[j]]]
    {
      var p := Paths(x)[j];
      assert p in owners && root[x.branch] == root[owners[p]];
    }
  }

  lemma PriorJoined(prior: seq<Row>, owners: map<string, string>, root: map<string, string>,
                    owners': map<string, string>, root': map<string, string>)
    requires forall x :: x in prior ==> Joined(x, |Paths(x)|, owners, root)
    requires forall p :: p in owners ==> p in owners' && owners'[p] == owners[p]
    requires root'.Keys == root.Keys
    requires forall a, b :: a in root && b in root && root[a] == root[b] ==> root'[a] == root'[b]
    ensures forall x :: x in prior ==> Joined(x, |Paths(x)|, owners', root')
  {
    forall x | x in prior ensures Joined(x, |Paths(x)|, owners', root') {
      JoinedAfter(x, |Paths(x)|, owners, root, owners', root');
    }
  }

  lemma ClaimPath(rows: seq<Row>, i: nat, k: nat, owners: map<string, string>, root: map<string, string>)
    requires i < |rows| && k < |Paths(rows[i])| && Progress(rows, i, k, owners, root)
    requires Paths(rows[i])[k] !in owners && rows[i].branch in root
    ensures Progress(rows, i, k + 1, owners[Paths(rows[i])[k] := rows[i].branch], root)
  {
    var owners' := owners[Paths(rows[i])[k] := rows[i].branch];
    PriorJoined(rows[..i], owners, root, owners', root);
    JoinedAfter(rows[i], k, owners, root, owners', root);
  }

  lemma OwnerAdjacent(rows: seq<Row>, row: Row, path: string, owners: map<string, string>)
    requires Owned(rows, owners) && path in owners && row in rows && path in Paths(row)
    ensures Adjacent(rows, row.branch, owners[path])
  {
    var owner :| owner in rows && owner.branch == owners[path] && path in Paths(owner);
    assert Shares(row, owner);
  }

  lemma JoinOwner(rows: seq<Row>, i: nat, k: nat, owners: map<string, string>, root: map<string, string>)
    requires i < |rows| && k < |Paths(rows[i])| && Progress(rows, i, k, owners, root)
    requires Paths(rows[i])[k] in owners && rows[i].branch in root && owners[Paths(rows[i])[k]] in root
    ensures Progress(rows, i, k + 1, owners, Merged(root, root[rows[i].branch], root[owners[Paths(rows[i])[k]]]))
  {
    var row, path := rows[i], Paths(rows[i])[k];
    var root' := Merged(root, root[row.branch], root[owners[path]]);
    OwnerAdjacent(rows, row, path, owners);
    UnionSound(rows, root, row.branch, owners[path], root');
    MergedKeeps(root, root[row.branch], root[owners[path]]);
    PriorJoined(rows[..i], owners, root, owners, root');
    JoinedAfter(row, k, owners, root, owners, root');
    JoinedNext(row, k, owners, root');
  }

  /** Merging keeps names together that were together, and joins the two trees. */
  lemma MergedKeeps(root: map<string, string>, ra: string, rb: string)
    ensures var m := Merged(root, ra, rb);
            && m.Keys == root.Keys
            && (forall a, b :: a in root && b in root && root[a] == root[b] ==> m[a] == m[b])
            && forall a, b :: a in root && b in root && root[a] == ra && root[b] == rb ==> m[a] == m[b]
  {
  }

  lemma JoinedNext(x: Row, k: nat, owners: map<string, string>, root: map<string, string>)
    requires k < |Paths(x)| && Joined(x, k, owners, root)
    requires Paths(x)[k] in owners && owners[Paths(x)[k]] in root && x.branch in root
    requires root[x.branch] == root[owners[Paths(x)[k]]]
    ensures Joined(x, k + 1, owners, root)
  {
  }

  lemma OwnerKnown(rows: seq<Row>, owners: map<string, string>, names: set<string>, path: string)
    requires Owned(rows, owners) && path in owners && forall x :: x in rows ==> x.branch in names
    ensures owners[path] in names
  {
  }

  /** One row: claim its unowned paths, join the owner of every other. */
  method Absorb(f: Forest, rows: seq<Row>, i: nat, owners0: map<string, string>) returns (owners: map<string, string>)
    requires f.Valid() && i < |rows| && forall x :: x in rows ==> x.branch in f.parent.Keys
    requires Progress(rows, i, 0, owners0, f.root)
    modifies f
    ensures f.Valid() && f.parent.Keys == old(f.parent.Keys)
    ensures Progress(rows, i + 1, 0, owners, f.root)
  {
    owners := owners0;
    var paths := Paths(rows[i]);
    for k := 0 to |paths|
      invariant f.Valid() && f.parent.Keys == old(f.parent.Keys)
      invariant Progress(rows, i, k, owners, f.root)
    {
      if paths[k] in owners {
        OwnerKnown(rows, owners, f.parent.Keys, paths[k]);
        JoinOwner(rows, i, k, owners, f.root);
        f.Union(rows[i].branch, owners[paths[k]]);
      } else {
        ClaimPath(rows, i, k, owners, f.root);
        owners := owners[paths[k] := rows[i].branch];
      }
    }
    TakeOneMore(rows, i);
  }

  /** After every row is absorbed, two branches have one root iff a chain of shared paths links them. */
  method Link(rows: seq<Row>) returns (f: Forest)
    ensures fresh(f) && f.Valid() && f.parent.Keys == (set x | x in rows :: x.branch)
    ensures forall a, b :: a in f.root && b in f.root ==> (f.root[a] == f.root[b] <==> Linked(rows, a, b))
  {
    f := new Forest(Branches(rows));
    assert forall x :: x in rows ==> x.branch in Branches(rows) by {
      forall x | x in rows ensures x.branch in Branches(rows) {
        var i :| 0 <= i < |rows| && rows[i] == x;
        assert Branches(rows)[i] == x.branch;
      }
    }
    forall a | a in f.root ensures Linked(rows, a, a) { LinkedSelf(rows, a); }
    var owners: map<string, string> := map[];
    for i := 0 to |rows|
      invariant fresh(f) && f.Valid() && f.parent.Keys == (set x | x in rows :: x.branch)
      invariant Progress(rows, i, 0, owners, f.root)
    {
      owners := Absorb(f, rows, i, owners);
    }
    assert rows[..|rows|] == rows;
    forall a, b | a in f.root && b in f.root && Linked(rows, a, b) ensures f.root[a] == f.root[b] {
      var c :| Chain(rows, a, c, b);
      ChainOneRoot(rows, owners, f.root, a, c, b);
    }
  }

  lemma {:induction false} ChainOneRoot(rows: seq<Row>, owners: map<string, string>, root: map<string, string>,
                                        a: string, c: seq<string>, b: string)
    requires Chain(rows, a, c, b) && a in root
    requires forall x :: x in rows ==> Joined(x, |Paths(x)|, owners, root)
    ensures b in root && root[a] == root[b]
    decreases |c|
  {
    if c != [] {
      var x, y :| x in rows && y in rows && x.branch == a && y.branch == c[0] && Shares(x, y);
      var p :| p in Paths(x) && p in Paths(y);
      var i :| 0 <= i < |Paths(x)| && Paths(x)[i] == p;
      var j :| 0 <= j < |Paths(y)| && Paths(y)[j] == p;
      ChainOneRoot(rows, owners, root, c[0], c[1..], b);
    }
  }

  // ---------- grouping ----------

  /** The rows whose branch has root r, in order. */
  ghost function Select(rows: seq<Row>, root: map<string, string>, r: string): seq<Row> {
    if rows == [] then []
    else
      var n := |rows| - 1;
      var b := rows[n].branch;
      Select(rows[..n], root, r) + if b in root && root[b] == r then [rows[n]] else []
  }

  lemma {:induction false} SelectMembers(rows: seq<Row>, root: map<string, string>, r: string, x: Row)
    ensures x in Select(rows, root, r) <==> x in rows && x.branch in root && root[x.branch] == r
  {
    if rows != [] {
      var n := |rows| - 1;
      SelectMembers(rows[..n], root, r, x);
      assert rows == rows[..n] + [rows[n]];
    }
  }

  lemma SelectNext(rows: seq<Row>, row: Row, root: map<string, string>, k: string)
    requires row.branch in root
    ensures Select(rows + [row], root, k) == Select(rows, root, k) + if root[row.branch] == k then [row] else []
  {
    assert (rows + [row])[..|rows|] == rows;
  }

  lemma {:induction false} SelectNone(rows: seq<Row>, root: map<string, string>, r: string)
    requires forall x :: x in rows ==> x.branch in root && root[x.branch] != r
    ensures Select(rows, root, r) == []
  {
    if rows != [] { SelectNone(rows[..|rows| - 1], root, r); }
  }

  ghost function Selector(done: seq<Row>, root: map<string, string>): string -> seq<Row> {
    k => Select(done, root, k)
  }

  /** The groups are what `select` gives for each key, none empty. */
  ghost predicate Groups(select: string -> seq<Row>, order: seq<string>, byRoot: map<string, seq<Row>>) {
    && AllDistinct(order)
    && (forall k :: k in byRoot <==> k in order)
    && (forall k :: k in byRoot ==> byRoot[k] == select(k) && byRoot[k] != [])
  }

  lemma GroupsNext(select: string -> seq<Row>, more: string -> seq<Row>, order: seq<string>,
                   byRoot: map<string, seq<Row>>, r: string, group: seq<Row>)
    requires Groups(select, order, byRoot) && more(r) == group != [] && forall k :: k != r ==> more(k) == select(k)
    ensures r in byRoot ==> Groups(more, order, byRoot[r := group])
    ensures r !in byRoot ==> Groups(more, order + [r], byRoot[r := group])
  {
  }

  ghost predicate GroupedSoFar(done: seq<Row>, root: map<string, string>, order: seq<string>,
                               byRoot: map<string, seq<Row>>) {
    && Groups(Selector(done, root), order, byRoot)
    && (forall x :: x in done ==> x.branch in root && root[x.branch] in byRoot)
  }

  lemma GroupStep(done: seq<Row>, row: Row, root: map<string, string>, order: seq<string>,
                  byRoot: map<string, seq<Row>>, r: string)
    requires GroupedSoFar(done, root, order, byRoot) && row.branch in root && root[row.branch] == r
    ensures r in byRoot ==> GroupedSoFar(done + [row], root, order, byRoot[r := byRoot[r] + [row]])
    ensures r !in byRoot ==> GroupedSoFar(done + [row], root, order + [r], byRoot[r := [row]])
  {
    SelectorNext(done, row, root);
    var select, more := Selector(done, root), Selector(done + [row], root);
    if r in byRoot {
      GroupsNext(select, more, order, byRoot, r, byRoot[r] + [row]);
    } else {
      NotYetSelected(done, root, byRoot, r);
      GroupsNext(select, more, order, byRoot, r, [row]);
    }
  }

  lemma SelectorNext(done: seq<Row>, row: Row, root: map<string, string>)
    requires row.branch in root
    ensures var select, more, r := Selector(done, root), Selector(done + [row], root), root[row.branch];
            more(r) == select(r) + [row] && forall k :: k != r ==> more(k) == select(k)
  {
    forall k ensures Selector(done + [row], root)(k) ==
      Selector(done, root)(k) + if root[row.branch] == k then [row] else []
    {
      SelectNext(done, row, root, k);
    }
  }

  lemma NotYetSelected(done: seq<Row>, root: map<string, string>, byRoot: map<string, seq<Row>>, r: string)
    requires r !in byRoot && forall x :: x in done ==> x.branch in root && root[x.branch] in byRoot
    ensures Selector(done, root)(r) == []
  {
    forall x | x in done ensures root[x.branch] != r { assert root[x.branch] in byRoot; }
    SelectNone(done, root, r);
  }

  /** `groups[find(row["branch"])].append(row)`, with the dict's insertion order kept in `keys`. */
  method Group(f: Forest, rows: seq<Row>) returns (groups: seq<seq<Row>>, ghost keys: seq<string>)
    requires f.Valid() && forall x :: x in rows ==> x.branch in f.parent.Keys
    modifies f`parent
    ensures f.Valid() && AllDistinct(keys) && |groups| == |keys|
    ensures forall g :: 0 <= g < |keys| ==> groups[g] == Select(rows, f.root, keys[g]) && groups[g] != []
    ensures forall x :: x in rows ==> x.branch in f.root && f.root[x.branch] in keys
  {
    var order: seq<string> := [];
    var byRoot: map<string, seq<Row>> := map[];
    for i := 0 to |rows|
      invariant f.Valid() && f.parent.Keys == old(f.parent.Keys)
      invariant GroupedSoFar(rows[..i], f.root, order, byRoot)
    {
      var r := f.Find(rows[i].branch);
      TakeOneMore(rows, i);
      GroupStep(rows[..i], rows[i], f.root, order, byRoot, r);
      if r in byRoot {
        byRoot := byRoot[r := byRoot[r] + [rows[i]]];
      } else {
        order, byRoot := order + [r], byRoot[r := [rows[i]]];
      }
    }
    assert rows[..|rows|] == rows;
    keys := order;
    groups := seq(|order|, g requires 0 <= g < |order| && order[g] in byRoot => byRoot[order[g]]);
  }

  // ---------- weights are conserved by grouping ----------

  ghost function Weigh(rows: seq<Row>, w: Row -> nat): nat {
    if rows == [] then 0 else Weigh(rows[..|rows| - 1], w) + w(rows[|rows| - 1])
  }

  ghost function Total(groups: seq<seq<Row>>, w: Row -> nat): nat {
    if groups == [] then 0 else Weigh(groups[0], w) + Total(groups[1..], w)
  }

  ghost function Selections(rows: seq<Row>, root: map<string, string>, keys: seq<string>): (s: seq<seq<Row>>)
    ensures |s| == |keys| && forall i :: 0 <= i < |s| ==> s[i] == Select(rows, root, keys[i])
  {
    seq(|keys|, i requires 0 <= i < |keys| => Select(rows, root, keys[i]))
  }

  lemma {:induction false} OneMoreRow(rows: seq<Row>, root: map<string, string>, keys: seq<string>, w: Row -> nat)
    requires rows != [] && rows[|rows| - 1].branch in root && AllDistinct(keys)
    ensures Total(Selections(rows, root, keys), w)
         == Total(Selections(rows[..|rows| - 1], root, keys), w)
            + if root[rows[|rows| - 1].branch] in keys then w(rows[|rows| - 1]) else 0
  {
    if keys != [] {
      var n, r := |rows| - 1, root[rows[|rows| - 1].branch];
      OneMoreRow(rows, root, keys[1..], w);
      FirstSelection(rows, root, keys, w);
      FirstSelection(rows[..n], root, keys, w);
      SelectOneMore(rows, root, keys[0], w);
      forall i | 0 <= i < |keys| - 1 ensures keys[1..][i] == keys[i + 1] && keys[i + 1] != keys[0] {}
      assert r in keys <==> r == keys[0] || r in keys[1..] by { assert keys == [keys[0]] + keys[1..]; }
    }
  }

  lemma FirstSelection(rows: seq<Row>, root: map<string, string>, keys: seq<string>, w: Row -> nat)
    requires keys != []
    ensures Total(Selections(rows, root, keys), w)
         == Weigh(Select(rows, root, keys[0]), w) + Total(Selections(rows, root, keys[1..]), w)
  {
    assert Selections(rows, root, keys)[1..] == Selections(rows, root, keys[1..]);
  }

  lemma SelectOneMore(rows: seq<Row>, root: map<string, string>, key: string, w: Row -> nat)
    requires rows != [] && rows[|rows| - 1].branch in root
    ensures Weigh(Select(rows, root, key), w)
         == Weigh(Select(rows[..|rows| - 1], root, key), w)
            + if root[rows[|rows| - 1].branch] == key then w(rows[|rows| - 1]) else 0
  {
    var a, last := Select(rows[..|rows| - 1], root, key), rows[|rows| - 1];
    assert (a + [last])[..|a|] == a && a + [] == a;
  }

  lemma {:induction false} GroupingConserves(rows: seq<Row>, root: map<string, string>, keys: seq<string>,
                                             w: Row -> nat)
    requires AllDistinct(keys) && forall x :: x in rows ==> x.branch in root && root[x.branch] in keys
    ensures Total(Selections(rows, root, keys), w) == Weigh(rows, w)
  {
    if rows == [] {
      NoRows(root, keys, w);
    } else {
      OneMoreRow(rows, root, keys, w);
      GroupingConserves(rows[..|rows| - 1], root, keys, w);
    }
  }

  lemma {:induction false} NoRows(root: map<string, string>, keys: seq<string>, w: Row -> nat)
    ensures Total(Selections([], root, keys), w) == 0
  {
    if keys != [] {
      NoRows(root, keys[1..], w);
      assert Selections([], root, keys)[1..] == Selections([], root, keys[1..]);
    }
  }

  predicate GroupLe(a: seq<Row>, b: seq<Row>) {
    |a| > |b| || (|a| == |b| && Le(Head(a), Head(b)))
  }

  function Head(a: seq<Row>): string { if a == [] then "" else a[0].branch }

  lemma GroupLeIsTotalPreorder()
    ensures TotalPreorder(GroupLe)
  {
    LeIsTotalPreorder();
    forall a, b ensures GroupLe(a, b) || GroupLe(b, a) { LeTotal(Head(a), Head(b)); }
    forall a, b, c | GroupLe(a, b) && GroupLe(b, c) ensures GroupLe(a, c) {
      if |a| == |b| == |c| { LeTransitive(Head(a), Head(b), Head(c)); }
    }
  }

  lemma {:induction false} InsertTotal(g: seq<Row>, groups: seq<seq<Row>>, w: Row -> nat)
    ensures Total(Insert(g, groups, GroupLe), w) == Weigh(g, w) + Total(groups, w)
  {
    if groups != [] && !GroupLe(g, groups[0]) {
      InsertTotal(g, groups[1..], w);
      var rest := Insert(g, groups[1..], GroupLe);
      assert ([groups[0]] + rest)[1..] == rest;
    } else {
      assert ([g] + groups)[1..] == groups;
    }
  }

  lemma {:induction false} SortTotal(groups: seq<seq<Row>>, w: Row -> nat)
    ensures Total(Sort(groups, GroupLe), w) == Total(groups, w)
  {
    if groups != [] {
      SortTotal(groups[1..], w);
      InsertTotal(groups[0], Sort(groups[1..], GroupLe), w);
    }
  }

  // ---------- the report ----------

  ghost function Touching(rows: seq<Row>, path: string): nat {
    Weigh(rows, (x: Row) => if path in Paths(x) then 1 else 0)
  }

  ghost predicate Summarises(c: Component, group: seq<Row>) {
    && c.members == Sort(Branches(group), Le)
    && StrictlySorted(c.files) && (forall p :: p in c.files <==> Touching(group, p) > 0)
    && StrictlySorted(c.hubs) && (forall p :: p in c.hubs <==> Touching(group, p) > 1)
    && c.ins == Weigh(group, (x: Row) => x.ins)
    && c.conflicting == Weigh(group, (x: Row) => if x.cls == Conflicting then 1 else 0)
  }

  lemma {:induction false} TouchedBySome(rows: seq<Row>, path: string)
    ensures Touching(rows, path) > 0 <==> exists x :: x in rows && path in Paths(x)
  {
    if rows != [] {
      var n := |rows| - 1;
      TouchedBySome(rows[..n], path);
      assert rows == rows[..n] + [rows[n]];
    }
  }

  /** The `touched` counter after some rows, and after k distinct paths of the next one. */
  ghost predicate Counted(group: seq<Row>, i: nat, done: seq<string>, touched: map<string, nat>) {
    && i <= |group|
    && (forall p :: p in touched ==>
      touched[p] == Touching(group[..i], p) + (if p in done then 1 else 0) && touched[p] > 0)
    && (forall p :: p !in touched ==> Touching(group[..i], p) == 0 && p !in done)
  }

  lemma CountedRow(group: seq<Row>, i: nat, done: seq<string>, touched: map<string, nat>)
    requires i < |group| && Counted(group, i, done, touched) && forall p :: p in done <==> p in Paths(group[i])
    ensures Counted(group, i + 1, [], touched)
  {
    TakeOneMore(group, i);
  }

  method CountTouched(group: seq<Row>) returns (touched: map<string, nat>)
    ensures forall p :: p in touched <==> Touching(group, p) > 0
    ensures forall p :: p in touched ==> touched[p] == Touching(group, p)
  {
    touched := map[];
    for i := 0 to |group|
      invariant Counted(group, i, [], touched)
    {
      var own := Distinct(Paths(group[i]));
      for k := 0 to |own|
        invariant Counted(group, i, own[..k], touched)
      {
        var path := own[k];
        TakeOneMore(own, k);
        touched := touched[path := (if path in touched then touched[path] else 0) + 1];
      }
      assert own[..|own|] == own;
      CountedRow(group, i, own, touched);
    }
    assert group[..|group|] == group;
  }

  method Summarise(group: seq<Row>, id: nat) returns (c: Component)
    ensures c.id == id && Summarises(c, group)
  {
    var touched := CountTouched(group);
    var ins, conflicting := 0, 0;
    for i := 0 to |group|
      invariant ins == Weigh(group[..i], (x: Row) => x.ins)
      invariant conflicting == Weigh(group[..i], (x: Row) => if x.cls == Conflicting then 1 else 0)
    {
      TakeOneMore(group, i);
      ins := ins + group[i].ins;
      conflicting := conflicting + if group[i].cls == Conflicting then 1 else 0;
    }
    assert group[..|group|] == group;
    var files := SortedKeys(touched.Keys);
    var hubs := SortedKeys(set p | p in touched && touched[p] > 1);
    c := Component(id, Sort(Branches(group), Le), hubs, files, ins, conflicting);
  }

  ghost function TotalIns(comps: seq<Component>): nat {
    if comps == [] then 0 else comps[0].ins + TotalIns(comps[1..])
  }

  lemma {:induction false} TotalInsOfGroups(comps: seq<Component>, groups: seq<seq<Row>>)
    requires |comps| == |groups| && forall i :: 0 <= i < |comps| ==> Summarises(comps[i], groups[i])
    ensures TotalIns(comps) == Total(groups, (x: Row) => x.ins)
  {
    if comps != [] { TotalInsOfGroups(comps[1..], groups[1..]); }
  }

  ghost predicate LinkClass(rows: seq<Row>, g: seq<Row>) {
    && g != []
    && (forall x :: x in g ==> x in rows)
    && (forall x, y :: x in g && y in rows ==> (y in g <==> Linked(rows, x.branch, y.branch)))
  }

  ghost predicate Apart(rows: seq<Row>, g: seq<Row>, h: seq<Row>) {
    forall x, y :: x in g && y in h ==> !Linked(rows, x.branch, y.branch) && !Linked(rows, y.branch, x.branch)
  }

  ghost predicate InSome(groups: seq<seq<Row>>, x: Row) { exists g :: g in groups && x in g }

  /** The groups are the classes of `Linked`: nonempty, jointly exhaustive, closed under links and
      with no link between different groups. */
  ghost predicate LinkClasses(rows: seq<Row>, groups: seq<seq<Row>>) {
    && (forall g :: g in groups ==> LinkClass(rows, g))
    && (forall x :: x in rows ==> InSome(groups, x))
    && (forall i, j :: 0 <= i < j < |groups| ==> Apart(rows, groups[i], groups[j]))
  }

  lemma SelectionsAreLinkClasses(rows: seq<Row>, root: map<string, string>, keys: seq<string>, groups: seq<seq<Row>>)
    requires AllDistinct(keys) && groups == Selections(rows, root, keys)
    requires forall g :: 0 <= g < |groups| ==> groups[g] != []
    requires forall x :: x in rows ==> x.branch in root && root[x.branch] in keys
    requires forall a, b :: a in root && b in root ==> (root[a] == root[b] <==> Linked(rows, a, b))
    ensures LinkClasses(rows, groups)
  {
    forall g | 0 <= g < |groups| ensures LinkClass(rows, groups[g]) { SelectionIsClass(rows, root, keys[g]); }
    forall i, j | 0 <= i < j < |groups| ensures Apart(rows, groups[i], groups[j]) {
      SelectionsApart(rows, root, keys[i], keys[j]);
    }
    forall x | x in rows ensures InSome(groups, x) {
      var g :| 0 <= g < |keys| && keys[g] == root[x.branch];
      SelectMembers(rows, root, keys[g], x);
      assert groups[g] in groups;
    }
  }

  lemma SelectionIsClass(rows: seq<Row>, root: map<string, string>, k: string)
    requires Select(rows, root, k) != [] && forall x :: x in rows ==> x.branch in root
    requires forall a, b :: a in root && b in root ==> (root[a] == root[b] <==> Linked(rows, a, b))
    ensures LinkClass(rows, Select(rows, root, k))
  {
    forall x ensures x in Select(rows, root, k) <==> x in rows && x.branch in root && root[x.branch] == k {
      SelectMembers(rows, root, k, x);
    }
  }

  lemma SelectionsApart(rows: seq<Row>, root: map<string, string>, k: string, l: string)
    requires k != l
    requires forall a, b :: a in root && b in root ==> (root[a] == root[b] <==> Linked(rows, a, b))
    ensures Apart(rows, Select(rows, root, k), Select(rows, root, l))
  {
    forall x, y | x in Select(rows, root, k) && y in Select(rows, root, l)
      ensures !Linked(rows, x.branch, y.branch) && !Linked(rows, y.branch, x.branch)
    {
      SelectMembers(rows, root, k, x);
      SelectMembers(rows, root, l, y);
    }
  }

  lemma ApartIsDistinct(rows: seq<Row>, g: seq<Row>, h: seq<Row>)
    requires Apart(rows, g, h) && g != []
    ensures g != h
  {
    if g == h { LinkedSelf(rows, g[0].branch); }
  }

  lemma SortedLinkClasses(rows: seq<Row>, groups: seq<seq<Row>>)
    requires LinkClasses(rows, groups)
    ensures LinkClasses(rows, Sort(groups, GroupLe))
  {
    var sorted := Sort(groups, GroupLe);
    forall g ensures g in sorted <==> g in groups { SortMembers(groups, GroupLe, g); }
    forall x | x in rows ensures InSome(sorted, x) {
      assert InSome(groups, x);
      var g :| g in groups && x in g;
      assert g in sorted;
    }
    forall i, j | 0 <= i < j < |sorted| ensures Apart(rows, sorted[i], sorted[j]) {
      SortedStayApart(rows, groups, i, j);
    }
  }

  lemma SortedStayApart(rows: seq<Row>, groups: seq<seq<Row>>, i: nat, j: nat)
    requires LinkClasses(rows, groups) && i < j < |Sort(groups, GroupLe)|
    ensures Apart(rows, Sort(groups, GroupLe)[i], Sort(groups, GroupLe)[j])
  {
    var sorted := Sort(groups, GroupLe);
    SortMembers(groups, GroupLe, sorted[i]);
    SortMembers(groups, GroupLe, sorted[j]);
    var a :| 0 <= a < |groups| && groups[a] == sorted[i];
    var b :| 0 <= b < |groups| && groups[b] == sorted[j];
    if a == b {
      MultiplicityTwo(sorted, i, j);
      SortKeeps(groups, GroupLe);
      forall k, l | 0 <= k < l < |groups| ensures groups[k] != groups[l] {
        assert groups[k] in groups;
        ApartIsDistinct(rows, groups[k], groups[l]);
      }
      DistinctMultiplicity(groups, sorted[i]);
    }
  }

  lemma ClassesTouchDifferentFiles(rows: seq<Row>, g: seq<Row>, h: seq<Row>, p: string)
    requires LinkClass(rows, g) && LinkClass(rows, h) && Apart(rows, g, h) && Touching(g, p) > 0
    ensures Touching(h, p) == 0
  {
    TouchedBySome(g, p);
    TouchedBySome(h, p);
    if Touching(h, p) > 0 {
      var x :| x in g && p in Paths(x);
      var y :| y in h && p in Paths(y);
      assert Shares(x, y);
      LinkedStep(rows, x.branch, y.branch);
    }
  }

  lemma FilesDisjoint(rows: seq<Row>, groups: seq<seq<Row>>, comps: seq<Component>)
    requires LinkClasses(rows, groups) && |comps| == |groups|
    requires forall i :: 0 <= i < |comps| ==> Summarises(comps[i], groups[i])
    ensures forall i, j, p :: 0 <= i < j < |comps| && p in comps[i].files ==> p !in comps[j].files
  {
    forall i, j, p | 0 <= i < j < |comps| && p in comps[i].files ensures p !in comps[j].files {
      assert groups[i] in groups && groups[j] in groups;
      ClassesTouchDifferentFiles(rows, groups[i], groups[j], p);
    }
  }

  method SummariseAll(groups: seq<seq<Row>>) returns (comps: seq<Component>)
    ensures AllSummarised(comps, groups)
  {
    comps := [];
    for i := 0 to |groups|
      invariant |comps| == i
      invariant forall k :: 0 <= k < i ==> comps[k].id == k && Summarises(comps[k], groups[k])
    {
      var c := Summarise(groups[i], i);
      comps := comps + [c];
    }
  }

  /** Each row's class is the one its merge gave it. */
  ghost predicate Classified(rows: seq<Row>) { forall x :: x in rows ==> x.cls == Classify(x.files, x.conflictFiles) }

  /** Leaving out identical rows leaves no component without a file. */
  lemma GroupTouchesSome(rows: seq<Row>, group: seq<Row>, c: Component)
    requires Classified(rows) && LinkClass(Members(rows), group) && Summarises(c, group)
    ensures c.files != []
  {
    var x := group[0];
    SortMembers(FirstPerKey(rows), BranchLe, x);
    FirstPerKeyApart(rows);
    FirstPerKeySubset(rows, x);
    TouchedBySome(group, Paths(x)[0]);
    assert Paths(x)[0] in c.files;
  }

  lemma GroupsHoldKept(rows: seq<Row>, groups: seq<seq<Row>>)
    requires LinkClasses(Members(rows), groups)
    ensures forall x :: InSome(groups, x) <==> Kept(rows, x)
  {
    RepresentativesExact(rows);
    forall x ensures InSome(groups, x) <==> Kept(rows, x) {
      SortMembers(FirstPerKey(rows), BranchLe, x);
      if InSome(groups, x) {
        var g :| g in groups && x in g;
        assert LinkClass(Members(rows), g);
      }
    }
  }

  /** Larger groups come first, equal ones by their first branch. */
  ghost predicate LargestFirst(groups: seq<seq<Row>>) {
    forall i, j :: 0 <= i < j < |groups| ==> NoSmaller(groups[i], groups[j])
  }

  ghost predicate NoSmaller(g: seq<Row>, h: seq<Row>) {
    g != [] && h != [] && (|g| > |h| || (|g| == |h| && Le(g[0].branch, h[0].branch)))
  }

  ghost predicate AllSummarised(comps: seq<Component>, groups: seq<seq<Row>>) {
    |comps| == |groups| && forall i :: 0 <= i < |comps| ==> comps[i].id == i && Summarises(comps[i], groups[i])
  }

  lemma OrderedGroups(members: seq<Row>, found: seq<seq<Row>>)
    requires LinkClasses(members, found)
    ensures LinkClasses(members, Sort(found, GroupLe)) && LargestFirst(Sort(found, GroupLe))
  {
    var groups: seq<seq<Row>> := Sort(found, GroupLe);
    SortedLinkClasses(members, found);
    GroupLeIsTotalPreorder();
    SortSorts(found, GroupLe);
    forall i, j | 0 <= i < j < |groups| ensures NoSmaller(groups[i], groups[j]) {
      assert groups[i] in groups && groups[j] in groups;
      assert LinkClass(members, groups[i]) && LinkClass(members, groups[j]) && GroupLe(groups[i], groups[j]);
    }
  }

  lemma InsertionsConserved(members: seq<Row>, root: map<string, string>, keys: seq<string>, found: seq<seq<Row>>,
                            comps: seq<Component>)
    requires AllDistinct(keys) && forall x :: x in members ==> x.branch in root && root[x.branch] in keys
    requires found == Selections(members, root, keys) && AllSummarised(comps, Sort(found, GroupLe))
    ensures TotalIns(comps) == Weigh(members, (x: Row) => x.ins)
  {
    TotalInsOfGroups(comps, Sort(found, GroupLe));
    GroupingConserves(members, root, keys, (x: Row) => x.ins);
    SortTotal(found, (x: Row) => x.ins);
  }

  lemma AllTouchSome(rows: seq<Row>, groups: seq<seq<Row>>, comps: seq<Component>)
    requires LinkClasses(Members(rows), groups) && AllSummarised(comps, groups)
    ensures Classified(rows) ==> forall i :: 0 <= i < |comps| ==> comps[i].files != []
  {
    forall i | Classified(rows) && 0 <= i < |comps| ensures comps[i].files != [] {
      assert groups[i] in groups;
      GroupTouchesSome(rows, groups[i], comps[i]);
    }
  }

  /** The groups of the rows that share a root, in insertion order. */
  method LinkedGroups(members: seq<Row>)
    returns (groups: seq<seq<Row>>, ghost root: map<string, string>, ghost keys: seq<string>)
    ensures LinkClasses(members, groups) && groups == Selections(members, root, keys)
    ensures AllDistinct(keys) && forall x :: x in members ==> x.branch in root && root[x.branch] in keys
  {
    var f := Link(members);
    groups, keys := Group(f, members);
    root := f.root;
    assert groups == Selections(members, root, keys);
    SelectionsAreLinkClasses(members, root, keys, groups);
  }

  /** The whole of `_components`. The ghost result shows which rows stand behind each component. */
  method Components(rows: seq<Row>) returns (comps: seq<Component>, ghost groups: seq<seq<Row>>)
    ensures LinkClasses(Members(rows), groups) && LargestFirst(groups)
    ensures forall x :: InSome(groups, x) <==> Kept(rows, x)
    ensures AllSummarised(comps, groups)
    ensures forall i, j, p :: 0 <= i < j < |comps| && p in comps[i].files ==> p !in comps[j].files
    ensures TotalIns(comps) == Weigh(Members(rows), (x: Row) => x.ins)
    ensures Classified(rows) ==> forall i :: 0 <= i < |comps| ==> comps[i].files != []
  {
    var reps := Representatives(rows);
    var members := Sort(reps, BranchLe);
    var found, root, keys := LinkedGroups(members);
    OrderedGroups(members, found);
    comps := SummariseAll(Sort(found, GroupLe));
    groups := Sort(found, GroupLe);
    GroupsHoldKept(rows, groups);
    FilesDisjoint(members, groups, comps);
    InsertionsConserved(members, root, keys, found, comps);
    AllTouchSome(rows, groups, comps);
  }
}

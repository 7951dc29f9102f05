/** Reachability over a process table: descendants of a timed-out run, and the processes of one lane. */
module Processes {
  import opened Text

  /** One ps row: pid, parent pid, resident size, command. */
  datatype Row = Row(pid: int, ppid: int, rss: int, command: string)

  ghost predicate Child(rows: seq<Row>, parent: int, pid: int) {
    exists r :: r in rows && r.pid == pid && r.ppid == parent
  }

  /** w walks down from its first pid; every later pid is outside `avoid`. */
  ghost predicate Walk(rows: seq<Row>, avoid: set<int>, w: seq<int>) {
    w != [] && forall i :: 0 < i < |w| ==> Child(rows, w[i - 1], w[i]) && w[i] !in avoid
  }

  /** Some walk leads from a pid in `from` to q. */
  ghost predicate Reaches(rows: seq<Row>, from: set<int>, avoid: set<int>, q: int) {
    exists w :: Walk(rows, avoid, w) && w[0] in from && w[|w| - 1] == q
  }

  lemma ReachesStart(rows: seq<Row>, from: set<int>, avoid: set<int>, q: int)
    requires q in from
    ensures Reaches(rows, from, avoid, q)
  {
    var w := [q];
    assert Walk(rows, avoid, w) && w[0] in from && w[|w| - 1] == q;
  }

  lemma ReachesNext(rows: seq<Row>, from: set<int>, avoid: set<int>, p: int, q: int)
    requires Reaches(rows, from, avoid, p) && Child(rows, p, q) && q !in avoid
    ensures Reaches(rows, from, avoid, q)
  {
    var w :| Walk(rows, avoid, w) && w[0] in from && w[|w| - 1] == p;
    var v := w + [q];
    assert Walk(rows, avoid, v) && v[0] in from && v[|v| - 1] == q;
  }

  /** Everything in `inside` only has children inside or avoided. */
  ghost predicate ClosedDown(rows: seq<Row>, avoid: set<int>, inside: set<int>) {
    forall p, q :: p in inside && Child(rows, p, q) && q !in avoid ==> q in inside
  }

  lemma {:induction false} ReachedIsInside(rows: seq<Row>, from: set<int>, avoid: set<int>, inside: set<int>,
                                           w: seq<int>)
    requires ClosedDown(rows, avoid, inside) && (forall q :: q in from ==> q in inside) && Walk(rows, avoid, w)
      && w[0] in from
    ensures w[|w| - 1] in inside
    decreases |w|
  {
    if |w| == 1 {
      var q := w[0];
      assert q in from;
      assert q in inside;
    } else {
      var v := w[..|w| - 1];
      forall i | 0 < i < |v| ensures Child(rows, v[i - 1], v[i]) && v[i] !in avoid {
        assert Child(rows, w[i - 1], w[i]) && w[i] !in avoid;
      }
      ReachedIsInside(rows, from, avoid, inside, v);
      assert v[|v| - 1] == w[|w| - 2] && Child(rows, w[|w| - 2], w[|w| - 1]);
    }
  }

  lemma ClosedMeansAll(rows: seq<Row>, from: set<int>, avoid: set<int>, inside: set<int>)
    requires ClosedDown(rows, avoid, inside) && (forall q :: q in from ==> q in inside)
    requires forall q :: q in inside ==> Reaches(rows, from, avoid, q)
    ensures forall q :: q in inside <==> Reaches(rows, from, avoid, q)
  {
    forall q | Reaches(rows, from, avoid, q) ensures q in inside {
      var w :| Walk(rows, avoid, w) && w[0] in from && w[|w| - 1] == q;
      ReachedIsInside(rows, from, avoid, inside, w);
    }
  }

  // ---------- descendants of a run ----------

  /** Rows the reader keeps: positive pid, parent not negative. */
  function Usable(rows: seq<Row>): (r: seq<Row>)
    ensures forall x :: x in r <==> x in rows && x.pid > 0 && x.ppid >= 0
  {
    if rows == [] then []
    else
      var last := rows[|rows| - 1];
      assert rows == rows[..|rows| - 1] + [last];
      Usable(rows[..|rows| - 1]) + if last.pid > 0 && last.ppid >= 0 then [last] else []
  }

  ghost predicate ChildMap(rows: seq<Row>, children: map<int, set<int>>) {
    forall p, q :: p in children && q in children[p] <==> Child(rows, p, q)
  }

  lemma NextChild(rows: seq<Row>, r: Row)
    ensures forall p, q :: Child(rows + [r], p, q) <==> Child(rows, p, q) || (p == r.ppid && q == r.pid)
  {
    forall p, q ensures Child(rows + [r], p, q) <==> Child(rows, p, q) || (p == r.ppid && q == r.pid) {
      if Child(rows, p, q) { var x :| x in rows && x.pid == q && x.ppid == p; assert x in rows + [r]; }
      if p == r.ppid && q == r.pid { assert r in rows + [r]; }
    }
  }

  function WithChild(children: map<int, set<int>>, r: Row): map<int, set<int>> {
    children[r.ppid := (if r.ppid in children then children[r.ppid] else {}) + {r.pid}]
  }

  lemma AddChild(rows: seq<Row>, children: map<int, set<int>>, r: Row)
    requires ChildMap(rows, children)
    ensures ChildMap(rows + [r], WithChild(children, r))
  {
    NextChild(rows, r);
    var next := WithChild(children, r);
    forall p, q ensures p in next && q in next[p] <==> Child(rows, p, q) || (p == r.ppid && q == r.pid) {
      assert p in children && q in children[p] <==> Child(rows, p, q);
    }
  }

  /** `children.setdefault(ppid, set()).add(pid)` over the usable rows. */
  method ChildSets(rows: seq<Row>) returns (children: map<int, set<int>>)
    ensures ChildMap(Usable(rows), children)
  {
    children := map[];
    for i := 0 to |rows|
      invariant ChildMap(Usable(rows[..i]), children)
    {
      TakeOneMore(rows, i);
      var r := rows[i];
      if r.pid <= 0 || r.ppid < 0 {
        assert Usable(rows[..i + 1]) == Usable(rows[..i]);
        continue;
      }
      assert Usable(rows[..i + 1]) == Usable(rows[..i]) + [r];
      AddChild(Usable(rows[..i]), children, r);
      children := WithChild(children, r);
    }
    assert rows[..|rows|] == rows;
  }

  /** The worklist between two pops, or inside the visit of `current` with `rest` children to go. */
  ghost predicate Exploring(rows: seq<Row>, root: int, self: int, found: set<int>, pending: seq<int>) {
    && root !in found && self !in found
    && (forall q :: q in found ==> Reaches(rows, {root}, {self}, q))
    && (forall p :: p in pending ==> p in found || p == root)
    && (forall p, q :: (p in found || p == root) && p !in pending && Child(rows, p, q) && q != self ==>
      q in found || q == root)
  }

  function Pids(rows: seq<Row>): set<int> { set i | 0 <= i < |rows| :: rows[i].pid }

  /** One pop: every new child of `parent` is found and pushed. */
  method Visit(ghost rows: seq<Row>, children: set<int>, parent: int, root: int, self: int, found0: set<int>,
               pending0: seq<int>)
    returns (found: set<int>, pending: seq<int>)
    requires Exploring(rows, root, self, found0, pending0 + [parent])
    requires forall q :: q in children <==> Child(rows, parent, q)
    requires parent in found0 || parent == root
    ensures Exploring(rows, root, self, found, pending)
    ensures found == found0 + (children - {root, self})
    ensures found == found0 ==> pending == pending0
  {
    found, pending := found0, pending0;
    var rest := children;
    if parent == root { ReachesStart(rows, {root}, {self}, root); }
    while rest != {}
      invariant rest <= children
      invariant found == found0 + (children - rest - {root, self})
      invariant forall q :: q in found ==> Reaches(rows, {root}, {self}, q)
      invariant pending0 <= pending && forall p :: p in pending ==> p in found || p == root
      invariant forall p :: p in found && p !in found0 ==> p in pending
      invariant found == found0 ==> pending == pending0
      decreases rest
    {
      SomeMember(rest);
      var child :| child in rest;
      rest := rest - {child};
      if child in found || child == root || child == self { continue; }
      ReachesNext(rows, {root}, {self}, parent, child);
      found := found + {child};
      pending := pending + [child];
    }
    forall p, q | (p in found || p == root) && p !in pending && Child(rows, p, q) && q != self
      ensures q in found || q == root
    {
      if p != parent {
        assert p in found0 || p == root;
        assert p !in pending0 + [parent] by { assert forall x :: x in pending0 ==> x in pending; }
      }
    }
  }

  /** `_descendants_from_process_table` on one snapshot: exactly the pids other than root and self that
      some downward walk from root reaches without stepping on self, parent cycles included. */
  method Descendants(rows: seq<Row>, root: int, self: int) returns (found: set<int>)
    ensures forall q :: q in found <==> q != root && q != self && Reaches(Usable(rows), {root}, {self}, q)
  {
    var children := ChildSets(rows);
    ghost var usable := Usable(rows);
    found := {};
    var pending := [root];
    while pending != []
      invariant Exploring(usable, root, self, found, pending) && found <= Pids(usable)
      decreases Pids(usable) - found, |pending|
    {
      var parent := pending[|pending| - 1];
      pending := pending[..|pending| - 1];
      var own := if parent in children then children[parent] else {};
      ghost var before := found;
      forall q | q in own ensures q in Pids(usable) {}
      found, pending := Visit(usable, own, parent, root, self, found, pending);
      assert before <= found;
    }
    ghost var inside := found + {root};
    ReachesStart(usable, {root}, {self}, root);
    ClosedMeansAll(usable, {root}, {self}, inside);
  }

  // ---------- the processes of one lane ----------

  const OWN_NAME := "measure_lane_host_cost"

  predicate Matches(needles: seq<string>, command: string) { exists n :: n in needles && Contains(command, n) }

  /** Excluded pids and every run of the measuring script itself. */
  function Blocked(rows: seq<Row>, exclude: set<int>): set<int> {
    exclude + set i | 0 <= i < |rows| && Contains(rows[i].command, OWN_NAME) :: rows[i].pid
  }

  lemma BlockedExact(rows: seq<Row>, exclude: set<int>, pid: int)
    ensures pid in Blocked(rows, exclude) <==>
      pid in exclude || exists i :: 0 <= i < |rows| && rows[i].pid == pid && IsOwnRun(rows[i].command)
  {
    forall i | 0 <= i < |rows| ensures Contains(rows[i].command, OWN_NAME) <==> IsOwnRun(rows[i].command) {
      ContainsExact(rows[i].command, OWN_NAME);
    }
  }

  /** The command line has the measuring script's name in it. */
  ghost predicate IsOwnRun(command: string) { Around(command, "measure_lane_host_cost") }

  function Seeds(rows: seq<Row>, needles: seq<string>, blocked: set<int>): set<int> {
    set i | 0 <= i < |rows| && rows[i].pid !in blocked && Matches(needles, rows[i].command) :: rows[i].pid
  }

  /** The rows of the selected pids, in table order. */
  function KeepRows(rows: seq<Row>, selected: set<int>): (r: seq<Row>)
    ensures forall x :: x in r <==> x in rows && x.pid in selected
  {
    if rows == [] then []
    else
      var last := rows[|rows| - 1];
      assert rows == rows[..|rows| - 1] + [last];
      KeepRows(rows[..|rows| - 1], selected) + if last.pid in selected then [last] else []
  }

  method ChildLists(rows: seq<Row>) returns (children: map<int, seq<int>>)
    ensures ListMap(rows, children)
  {
    children := map[];
    for i := 0 to |rows|
      invariant ListMap(rows[..i], children)
    {
      TakeOneMore(rows, i);
      AddToList(rows[..i], children, rows[i]);
      children := WithListed(children, rows[i]);
    }
    assert rows[..|rows|] == rows;
  }

  ghost predicate ListMap(rows: seq<Row>, children: map<int, seq<int>>) {
    forall p, q :: p in children && q in children[p] <==> Child(rows, p, q)
  }

  function WithListed(children: map<int, seq<int>>, r: Row): map<int, seq<int>> {
    children[r.ppid := (if r.ppid in children then children[r.ppid] else []) + [r.pid]]
  }

  lemma AddToList(rows: seq<Row>, children: map<int, seq<int>>, r: Row)
    requires ListMap(rows, children)
    ensures ListMap(rows + [r], WithListed(children, r))
  {
    NextChild(rows, r);
    var next := WithListed(children, r);
    forall p, q ensures p in next && q in next[p] <==> Child(rows, p, q) || (p == r.ppid && q == r.pid) {
      assert p in children && q in children[p] <==> Child(rows, p, q);
    }
  }

  function MatchingPids(rows: seq<Row>, needles: seq<string>, blocked: set<int>): (r: seq<int>)
    ensures forall q :: q in r <==> q in Seeds(rows, needles, blocked)
  {
    if rows == [] then []
    else
      var init, last := rows[..|rows| - 1], rows[|rows| - 1];
      MatchingPids(init, needles, blocked)
      + if last.pid !in blocked && Matches(needles, last.command) then [last.pid] else []
  }

  /** The stack and the visited set between two pops. */
  ghost predicate Selecting(rows: seq<Row>, seeds: set<int>, blocked: set<int>, selected: set<int>, pending: seq<int>) {
    && (forall q :: q in selected ==> Reaches(rows, seeds, blocked, q) && q !in blocked)
    && (forall q :: q in pending ==> Reaches(rows, seeds, blocked, q) && q !in blocked)
    && (forall q :: q in seeds ==> q in selected || q in pending)
    && (forall p, q :: p in selected && Child(rows, p, q) && q !in blocked ==> q in selected || q in pending)
  }

  function Unseen(children: seq<int>, blocked: set<int>, visited: set<int>): (r: seq<int>)
    ensures forall q :: q in r <==> q in children && q !in blocked && q !in visited
  {
    if children == [] then []
    else
      assert children == [children[0]] + children[1..];
      (if children[0] !in blocked && children[0] !in visited then [children[0]] else []) +
        Unseen(children[1..], blocked, visited)
  }

  lemma SelectOne(rows: seq<Row>, seeds: set<int>, blocked: set<int>, selected: set<int>, rest: seq<int>, pid: int,
                  own: seq<int>)
    requires Selecting(rows, seeds, blocked, selected, rest + [pid])
    requires forall q :: q in own <==> Child(rows, pid, q)
    ensures pid in selected ==> Selecting(rows, seeds, blocked, selected, rest)
    ensures Selecting(rows, seeds, blocked, selected + {pid}, rest + Unseen(own, blocked, selected + {pid}))
  {
    var all := rest + [pid];
    assert pid in all && forall q :: q in all <==> q in rest || q == pid;
    var next := rest + Unseen(own, blocked, selected + {pid});
    assert forall q :: q in next <==> q in rest || q in Unseen(own, blocked, selected + {pid});
    forall q | q in Unseen(own, blocked, selected + {pid}) ensures Reaches(rows, seeds, blocked, q) {
      ReachesNext(rows, seeds, blocked, pid, q);
    }
  }

  /** The pending/visited loop. */
  method SelectReachable(rows: seq<Row>, children: map<int, seq<int>>, first: seq<int>, blocked: set<int>,
                         ghost seeds: set<int>)
    returns (selected: set<int>)
    requires ListMap(rows, children)
    requires forall q :: q in first <==> q in seeds
    requires forall q :: q in seeds ==> q !in blocked && q in Pids(rows)
    ensures forall q :: q in selected <==> Reaches(rows, seeds, blocked, q)
  {
    var pending := first;
    selected := {};
    forall q | q in seeds ensures Reaches(rows, seeds, blocked, q) { ReachesStart(rows, seeds, blocked, q); }
    while pending != []
      invariant Selecting(rows, seeds, blocked, selected, pending)
      invariant selected <= Pids(rows) && forall q :: q in pending ==> q in Pids(rows)
      decreases Pids(rows) - selected, |pending|
    {
      var pid, rest := pending[|pending| - 1], pending[..|pending| - 1];
      assert pending == rest + [pid] && pid in pending;
      var own := if pid in children then children[pid] else [];
      SelectOne(rows, seeds, blocked, selected, rest, pid, own);
      forall q | q in own ensures q in Pids(rows) {}
      pending := rest;
      if pid in blocked || pid in selected { continue; }
      selected := selected + {pid};
      pending := rest + Unseen(own, blocked, selected);
    }
    ClosedMeansAll(rows, seeds, blocked, selected);
  }

  /** `lane_processes`; None stands for the ValueError on unusable needles. Otherwise the answer is, in
      table order, exactly the rows reached from an unblocked needle match through unblocked pids. */
  method LaneProcesses(rows: seq<Row>, needles: seq<string>, exclude: set<int>)
    returns (lane: Option<seq<Row>>, ghost selected: set<int>)
    ensures lane.None? <==> needles == [] || exists n :: n in needles && !Visible(n)
    ensures lane.Some? ==> lane.value == KeepRows(rows, selected)
    ensures lane.Some? ==> forall q :: q in selected <==>
              Reaches(rows, Seeds(rows, needles, Blocked(rows, exclude)), Blocked(rows, exclude), q)
  {
    selected := {};
    if needles == [] || exists n :: n in needles && !Visible(n) { return None, {}; }
    var blocked := Blocked(rows, exclude);
    var children := ChildLists(rows);
    var first := MatchingPids(rows, needles, blocked);
    var found := SelectReachable(rows, children, first, blocked, Seeds(rows, needles, blocked));
    selected := found;
    lane := Some(KeepRows(rows, found));
  }
}

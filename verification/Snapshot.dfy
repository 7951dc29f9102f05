/** The CURRENT_TASK.json cache: a content fingerprint of handoff_state, the freshness decision
    keyed on it, and why a snapshot that is served is the one a fresh projection would give. */
module Snapshot {
  import opened Text

  /** One handoff_state row: its revision counter, its timestamp, and everything else it holds. */
  datatype Row = Row(revision: nat, updatedAt: nat, status: string, taskRef: string, worktree: string, branch: string,
                     plan: string)

  type Table = map<string, Row>

  datatype Fingerprint = Fingerprint(count: nat, revisions: nat, newest: Option<nat>)

  ghost function SumRevisions(t: Table): nat {
    if t == map[] then 0 else var k :| k in t; t[k].revision + SumRevisions(t - {k})
  }

  lemma {:induction false} SumWithout(t: Table, k: string)
    requires k in t
    ensures SumRevisions(t) == t[k].revision + SumRevisions(t - {k})
  {
    var p :| p in t && SumRevisions(t) == t[p].revision + SumRevisions(t - {p});
    if p != k {
      SumWithout(t - {p}, k);
      SumWithout(t - {k}, p);
      assert t - {p} - {k} == t - {k} - {p};
    }
  }

  ghost predicate IsNewest(t: Table, newest: Option<nat>) {
    match newest
    case None => t == map[]
    case Some(u) => (exists k :: k in t && t[k].updatedAt == u) && forall k :: k in t ==> t[k].updatedAt <= u
  }

  lemma {:induction false} NewestExists(t: Table) returns (newest: Option<nat>)
    ensures IsNewest(t, newest)
    decreases |t|
  {
    if t == map[] {
      newest := None;
    } else {
      var k :| k in t;
      var rest := NewestExists(t - {k});
      newest := if rest.Some? && rest.value > t[k].updatedAt then rest else Some(t[k].updatedAt);
      assert forall j :: j in t ==> j == k || j in t - {k};
      if newest == rest {
        var j :| j in t - {k} && t[j].updatedAt == rest.value;
        assert j in t;
      }
    }
  }

  ghost function FingerprintOf(t: Table): (f: Fingerprint)
    ensures f.count == |t| && f.revisions == SumRevisions(t) && IsNewest(t, f.newest)
  {
    assert exists n :: IsNewest(t, n) by { var n := NewestExists(t); }
    var n :| IsNewest(t, n);
    Fingerprint(|t|, SumRevisions(t), n)
  }

  // ---------- writes ----------

  datatype Write = Insert(key: string, row: Row) | Update(key: string, row: Row) | Delete(key: string)

  /** One committed write under a clock reading now: an insert of a new key, an update that raises
      the revision by one, or a delete. */
  ghost predicate Writes(t: Table, w: Write, now: nat, t': Table) {
    match w
    case Insert(k, r) => k !in t && r.updatedAt == now && t' == t[k := r]
    case Update(k, r) => k in t && r.revision == t[k].revision + 1 && r.updatedAt == now && t' == t[k := r]
    case Delete(k) => k in t && t' == t - {k}
  }

  datatype Stamped = Stamped(write: Write, now: nat)

  /** A run of writes whose stamps are all at least `since`, in any order and shared as they like. */
  ghost predicate LooseRun(t: Table, ws: seq<Stamped>, since: nat, t': Table)
    decreases |ws|
  {
    if ws == [] then t' == t
    else
      ws[0].now >= since && exists m :: Writes(t, ws[0].write, ws[0].now, m) && LooseRun(m, ws[1..], since, t')
  }

  /** After such a run, what is older than `since` was there, unchanged, at the start. */
  lemma {:induction false} OldRowsUntouched(t: Table, ws: seq<Stamped>, since: nat, t': Table)
    requires LooseRun(t, ws, since, t')
    ensures forall k :: k in t' && t'[k].updatedAt < since ==> k in t && t[k] == t'[k]
    decreases |ws|
  {
    if ws != [] {
      var m :| Writes(t, ws[0].write, ws[0].now, m) && LooseRun(m, ws[1..], since, t');
      OldRowsUntouched(m, ws[1..], since, t');
    }
  }

  lemma SubmapOfSameSize(t: Table, t': Table)
    requires |t'| == |t| && forall k :: k in t' ==> k in t && t[k] == t'[k]
    ensures t' == t
  {
    assert t'.Keys <= t.Keys;
    SubsetOfSameSize(t'.Keys, t.Keys);
  }

  lemma SubsetOfSameSize(a: set<string>, b: set<string>)
    requires a <= b && |a| == |b|
    ensures a == b
  {
    assert b == a + (b - a);
    assert |b| == |a| + |b - a|;
  }

  /** No row is stamped at or after `since`. */
  ghost predicate AllBefore(t: Table, since: nat) { forall k :: k in t ==> t[k].updatedAt < since }

  /** Writes stamped later than every row of the starting table cannot bring its fingerprint back with other rows. */
  lemma UnchangedFingerprintUnchangedTable(t: Table, ws: seq<Stamped>, since: nat, t': Table)
    requires AllBefore(t, since) && LooseRun(t, ws, since, t')
    ensures FingerprintOf(t) == FingerprintOf(t') <==> t == t'
  {
    if FingerprintOf(t) == FingerprintOf(t') {
      OldRowsUntouched(t, ws, since, t');
      SubmapOfSameSize(t, t');
    }
  }

  /** The fingerprint determines the table over every run of writes stamped `since` or later. */
  ghost predicate KeyFrom(t: Table, since: nat) {
    forall ws, t' :: LooseRun(t, ws, since, t') && FingerprintOf(t) == FingerprintOf(t') ==> t == t'
  }

  /** The cache-key theorem, exactly: the fingerprint is a key for what is written from `since` on iff `since` is
      later than every row the table holds. An empty table needs nothing of the clock. */
  lemma FingerprintIsKeyIff(t: Table, since: nat)
    ensures KeyFrom(t, since) <==> AllBefore(t, since)
  {
    if AllBefore(t, since) {
      forall ws, t' | LooseRun(t, ws, since, t') && FingerprintOf(t) == FingerprintOf(t') ensures t == t' {
        UnchangedFingerprintUnchangedTable(t, ws, since, t');
      }
    }
    if !AllBefore(t, since) {
      var newest := FingerprintOf(t).newest.value;
      var k :| k in t && t[k].updatedAt == newest;
      var ws, t' := SharedTickCollides(t, k, since);
      assert LooseRun(t, ws, since, t') && FingerprintOf(t) == FingerprintOf(t') && t != t';
    }
  }

  lemma UpdateRaisesSum(t: Table, k: string, r: Row)
    requires k in t && r.revision == t[k].revision + 1
    ensures SumRevisions(t[k := r]) == SumRevisions(t) + 1
  {
    var t' := t[k := r];
    SumWithout(t, k);
    SumWithout(t', k);
    assert t - {k} == t' - {k};
  }

  /** Under any clock at all, a single write always moves the fingerprint. */
  lemma EveryWriteMovesFingerprint(t: Table, w: Write, now: nat, t': Table)
    requires Writes(t, w, now, t')
    ensures FingerprintOf(t) != FingerprintOf(t')
  {
    match w
    case Insert(k, r) =>
    case Update(k, r) => UpdateRaisesSum(t, k, r);
    case Delete(k) => assert t == t'[k := t[k]];
  }

  /** In any table that holds a row, two writes at the tick of its newest row can cancel: the row is deleted and
      comes back with other content. */
  lemma SharedTickCollides(t: Table, k: string, since: nat) returns (ws: seq<Stamped>, t': Table)
    requires k in t && FingerprintOf(t).newest == Some(t[k].updatedAt) && since <= t[k].updatedAt
    ensures LooseRun(t, ws, since, t') && FingerprintOf(t) == FingerprintOf(t') && t != t'
  {
    var now := t[k].updatedAt;
    var other := t[k].(taskRef := t[k].taskRef + "'");
    var m := t - {k};
    t' := t[k := other];
    assert t' == m[k := other];
    var back := [Stamped(Insert(k, other), now)];
    ws := [Stamped(Delete(k), now)] + back;
    assert ws[1..] == back && back[1..] == [];
    assert Writes(t, Delete(k), now, m) && Writes(m, Insert(k, other), now, t');
    assert LooseRun(t', back[1..], since, t');
    assert LooseRun(m, back, since, t');
    SameFingerprint(t, k, other);
    assert |t[k].taskRef| != |other.taskRef|;
  }

  /** Only the revision and the timestamp of a row reach the fingerprint. */
  lemma SameFingerprint(t: Table, k: string, r: Row)
    requires k in t && r.revision == t[k].revision && r.updatedAt == t[k].updatedAt
    ensures FingerprintOf(t[k := r]) == FingerprintOf(t)
  {
    var t' := t[k := r];
    SumWithout(t, k);
    SumWithout(t', k);
    assert t - {k} == t' - {k};
    assert t'.Keys == t.Keys;
    assert forall j :: j in t ==> t'[j].updatedAt == t[j].updatedAt;
  }

  /** The stored form `count:sum:newest`, with empty text when the table has no row. */
  function Render(count: nat, revisions: nat, newest: string): string {
    Decimal(count) + [':'] + (Decimal(revisions) + [':'] + newest)
  }

  /** Distinct triples never render alike, whatever the timestamp text contains. */
  lemma RenderInjective(c: nat, r: nat, u: string, c': nat, r': nat, u': string)
    requires Render(c, r, u) == Render(c', r', u')
    ensures c == c' && r == r' && u == u'
  {
    SplitAtSeparator(Decimal(c), Decimal(r) + [':'] + u, Decimal(c'), Decimal(r') + [':'] + u', ':');
    SplitAtSeparator(Decimal(r), u, Decimal(r'), u', ':');
    ParseOfDecimal(c);
    ParseOfDecimal(c');
    ParseOfDecimal(r);
    ParseOfDecimal(r');
  }

  // ---------- the freshness decision ----------

  const MAX_STALENESS := 900
  const SCHEMA_VERSION := 2

  /** One entry of `tasks`, or `active`; fields are absent when not text. */
  datatype Entry = NotObject | Entry(path: Option<string>, status: Option<string>, taskRef: Option<string>,
                                     branch: Option<string>, plan: Option<string>)

  datatype Shape = NoTask | Single(active: Entry) | Ambiguous(tasks: Option<seq<Entry>>) | OtherShape

  datatype Payload<F> = Payload(stamp: Option<F>, dbPath: Option<string>, projectionDir: Option<string>,
                                schemaVersion: int, shape: Shape)

  /** What the hook reads from the machine. None stands for a failed read. */
  datatype Observed<F> = Observed(fingerprint: Option<F>, snapMtime: Option<nat>, now: nat,
                                  mainExists: Option<bool>, projections: Option<seq<nat>>, authority: Option<seq<nat>>)

  predicate Given(s: Option<string>) { s.Some? && s.value != "" }

  function Max(s: seq<nat>): (m: nat)
    requires s != []
    ensures m in s && forall x :: x in s ==> x <= m
  {
    if |s| == 1 then s[0]
    else
      var m := Max(s[1..]);
      assert s == [s[0]] + s[1..];
      if m >= s[0] then m else s[0]
  }

  function StampedFresh<F(==)>(p: Payload<F>, o: Observed<F>): bool
    requires p.stamp.Some?
  {
    if !Given(p.dbPath) then false
    else if o.fingerprint.None? || o.fingerprint.value != p.stamp.value then false
    else if o.snapMtime.None? then false
    else if o.now - o.snapMtime.value > MAX_STALENESS then false
    else if Given(p.projectionDir) then
      o.projections.Some? && (o.projections.value == [] || o.snapMtime.value >= Max(o.projections.value))
    else true
  }

  function LegacyFresh<F>(p: Payload<F>, o: Observed<F>): bool {
    if o.snapMtime.None? || !Given(p.dbPath) || !Given(p.projectionDir) then false
    else if o.mainExists != Some(true) then false
    else if o.authority.None? || o.authority.value == [] then false
    else o.snapMtime.value >= Max(o.authority.value)
  }

  /** No file of the list is newer than the snapshot. */
  ghost predicate NoneNewer(files: seq<nat>, snap: nat) { forall x :: x in files ==> x <= snap }

  /** A stamped snapshot: its database is the one read, holds the stamped fingerprint, the snapshot is at most fifteen
      minutes old and no projection is newer. */
  ghost predicate StampedCurrent<F>(p: Payload<F>, o: Observed<F>) {
    && Given(p.dbPath) && o.fingerprint.Some? && o.fingerprint == p.stamp
    && o.snapMtime.Some? && o.now <= o.snapMtime.value + 900
    && (Given(p.projectionDir) ==> o.projections.Some? && NoneNewer(o.projections.value, o.snapMtime.value))
  }

  /** A snapshot without a stamp: the named database exists and nothing that could have changed is newer. */
  ghost predicate LegacyCurrent<F>(p: Payload<F>, o: Observed<F>) {
    && Given(p.dbPath) && Given(p.projectionDir) && o.snapMtime.Some? && o.mainExists == Some(true)
    && o.authority.Some? && o.authority.value != [] && NoneNewer(o.authority.value, o.snapMtime.value)
  }

  function FreshEnough<F(==)>(p: Payload<F>, o: Observed<F>): (r: bool)
    ensures r <==> if p.stamp.Some? then StampedCurrent(p, o) else LegacyCurrent(p, o)
  {
    if p.stamp.Some? then StampedFresh(p, o) else LegacyFresh(p, o)
  }

  // ---------- answering from the snapshot ----------

  datatype Context = Context(taskRef: Option<string>, worktree: Option<string>, branch: Option<string>, primary: string,
                             plan: Option<string>, ambiguityNote: bool)

  /** The environment a hook runs in. */
  datatype Env = Env(primary: Option<string>, want: Option<string>, laneId: string, activePin: string, valveOff: bool)

  predicate IsLive(status: Option<string>) {
    status == Some("in_progress") || status == Some("review") || status == Some("blocked")
  }

  predicate IsTerminal(status: Option<string>) { status == Some("done") }

  function NonEmpty(s: Option<string>): (r: Option<string>)
    ensures r == if s == Some("") then None else s
  {
    if Given(s) then s else None
  }

  function ContextFromEntry(e: Entry, primary: string, note: bool): (c: Option<Context>)
    ensures c.Some? <==> e.Entry? && IsLive(e.status)
  {
    if e.NotObject? || !IsLive(e.status) then None
    else Some(Context(NonEmpty(e.taskRef), NonEmpty(e.path), NonEmpty(e.branch), primary, NonEmpty(e.plan), note))
  }

  /** The entry names this worktree. */
  predicate ForHere(e: Entry, want: string, canon: string -> Option<string>) {
    e.Entry? && Given(e.path) && canon(e.path.value) == Some(want)
  }

  ghost function LiveHere(tasks: seq<Entry>, want: string, canon: string -> Option<string>): seq<Entry> {
    if tasks == [] then []
    else
      var e := tasks[|tasks| - 1];
      LiveHere(tasks[..|tasks| - 1], want, canon) + if ForHere(e, want, canon) && IsLive(e.status) then [e] else []
  }

  /** Some entry for this worktree has a status that is neither live nor terminal. */
  ghost predicate UnknownHere(tasks: seq<Entry>, want: string, canon: string -> Option<string>) {
    exists e :: e in tasks && ForHere(e, want, canon) && !IsLive(e.status) && !IsTerminal(e.status)
  }

  /** What the scan must answer: the one live entry for this worktree, if there is exactly one, no
      unknown status stands beside it, no lane is bound and the env pin agrees. */
  ghost function ScanAnswer(tasks: seq<Entry>, env: Env, primary: string,
                            canon: string -> Option<string>): Option<Context> {
    if env.want.None? then None
    else
      var live := LiveHere(tasks, env.want.value, canon);
      if UnknownHere(tasks, env.want.value, canon) || env.laneId != "" || |live| != 1 then None
      else if env.activePin != "" && live[0].Entry? && live[0].taskRef != Some(env.activePin) then None
      else ContextFromEntry(live[0], primary, !env.valveOff)
  }

  method ScanAmbiguous(tasks: seq<Entry>, env: Env, primary: string, canon: string -> Option<string>)
    returns (answer: Option<Context>)
    ensures answer == ScanAnswer(tasks, env, primary, canon)
  {
    if env.want.None? { return None; }
    var want := env.want.value;
    var live: seq<Entry>, terminal: seq<Entry> := [], [];
    for i := 0 to |tasks|
      invariant live == LiveHere(tasks[..i], want, canon)
      invariant !UnknownHere(tasks[..i], want, canon)
      invariant forall e :: e in live ==> e.Entry? && IsLive(e.status)
    {
      var e := tasks[i];
      TakeOneMore(tasks, i);
      if !ForHere(e, want, canon) { continue; }
      if IsLive(e.status) {
        live := live + [e];
      } else if IsTerminal(e.status) {
        terminal := terminal + [e];
      } else {
        assert e in tasks;
        return None;
      }
    }
    assert tasks[..|tasks|] == tasks;
    if env.laneId != "" { return None; }
    if |live| > 1 { return None; }
    if |live| == 1 {
      if env.activePin != "" && live[0].taskRef != Some(env.activePin) { return None; }
      return ContextFromEntry(live[0], primary, !env.valveOff);
    }
    answer := None;
  }

  /** The live tasks of this worktree, as the scan collects them. */
  lemma {:induction false} LiveHereExact(tasks: seq<Entry>, want: string, canon: string -> Option<string>)
    ensures forall e :: e in LiveHere(tasks, want, canon) <==> e in tasks && ForHere(e, want, canon) && IsLive(e.status)
  {
    if tasks != [] {
      LiveHereExact(tasks[..|tasks| - 1], want, canon);
      assert tasks == tasks[..|tasks| - 1] + [tasks[|tasks| - 1]];
    }
  }

  /** Whatever is answered for an ambiguous workspace is a live task of this very worktree. */
  lemma ScanAnswersOwnLiveTask(tasks: seq<Entry>, env: Env, primary: string, canon: string -> Option<string>)
    requires ScanAnswer(tasks, env, primary, canon).Some?
    ensures exists e :: e in tasks && e.Entry? && IsLive(e.status)
              && env.want.Some? && ForHere(e, env.want.value, canon)
              && ScanAnswer(tasks, env, primary, canon).value.taskRef == NonEmpty(e.taskRef)
              && (env.activePin != "" ==> e.taskRef == Some(env.activePin))
  {
    LiveHereExact(tasks, env.want.value, canon);
    var live := LiveHere(tasks, env.want.value, canon);
    assert live[0] in live;
  }

  /** Entry k names this worktree and is in progress, in review or blocked. */
  ghost predicate LiveAt(tasks: seq<Entry>, want: string, canon: string -> Option<string>, k: nat) {
    && k < |tasks| && tasks[k].Entry? && tasks[k].path.Some? && tasks[k].path.value != ""
    && canon(tasks[k].path.value) == Some(want)
    && tasks[k].status in [Some("in_progress"), Some("review"), Some("blocked")]
  }

  /** Entry k alone answers: no lane is bound, no other entry of this worktree is live and none has a status that is
      neither live nor done, and a pin names this very task. */
  ghost predicate Selects(tasks: seq<Entry>, env: Env, canon: string -> Option<string>, k: nat) {
    && env.laneId == "" && env.want.Some? && LiveAt(tasks, env.want.value, canon, k)
    && (forall j: nat :: j < |tasks| && j != k && ForHere(tasks[j], env.want.value, canon) ==>
          tasks[j].status == Some("done"))
    && (env.activePin == "" || tasks[k].taskRef == Some(env.activePin))
  }

  /** When an ambiguous workspace is answered, and with what. */
  lemma ScanAnswerIff(tasks: seq<Entry>, env: Env, primary: string, canon: string -> Option<string>)
    ensures ScanAnswer(tasks, env, primary, canon).Some? <==> exists k: nat :: Selects(tasks, env, canon, k)
    ensures forall k: nat :: Selects(tasks, env, canon, k) ==>
      && ScanAnswer(tasks, env, primary, canon) == ContextFromEntry(tasks[k], primary, !env.valveOff)
      && ScanAnswer(tasks, env, primary, canon).value.ambiguityNote == !env.valveOff
  {
    if env.want.Some? {
      var want := env.want.value;
      var live := LiveHere(tasks, want, canon);
      forall k: nat | Selects(tasks, env, canon, k) ensures live == [tasks[k]] && !UnknownHere(tasks, want, canon) {
        OnlyLive(tasks, want, canon, k);
        SelectedHidesNone(tasks, env, canon, k);
      }
      if ScanAnswer(tasks, env, primary, canon).Some? {
        var k := LiveSingle(tasks, want, canon);
        SingleSelects(tasks, env, canon, k);
      }
    }
  }

  lemma SelectedHidesNone(tasks: seq<Entry>, env: Env, canon: string -> Option<string>, k: nat)
    requires Selects(tasks, env, canon, k)
    ensures !UnknownHere(tasks, env.want.value, canon)
  {
    forall e | e in tasks && ForHere(e, env.want.value, canon) ensures IsLive(e.status) || IsTerminal(e.status) {
      var j: nat :| j < |tasks| && tasks[j] == e;
    }
  }

  lemma SingleSelects(tasks: seq<Entry>, env: Env, canon: string -> Option<string>, k: nat)
    requires env.want.Some? && env.laneId == "" && LiveAt(tasks, env.want.value, canon, k)
    requires !UnknownHere(tasks, env.want.value, canon) && LiveHere(tasks, env.want.value, canon) == [tasks[k]]
    requires forall j: nat :: LiveAt(tasks, env.want.value, canon, j) ==> j == k
    requires env.activePin == "" || tasks[k].taskRef == Some(env.activePin)
    ensures Selects(tasks, env, canon, k)
  {
    forall j: nat | j < |tasks| && j != k && ForHere(tasks[j], env.want.value, canon)
      ensures tasks[j].status == Some("done")
    {
      assert tasks[j] in tasks && !LiveAt(tasks, env.want.value, canon, j);
    }
  }

  lemma {:induction false} OnlyLive(tasks: seq<Entry>, want: string, canon: string -> Option<string>, k: nat)
    requires LiveAt(tasks, want, canon, k) && forall j: nat :: LiveAt(tasks, want, canon, j) ==> j == k
    ensures LiveHere(tasks, want, canon) == [tasks[k]]
    decreases |tasks|
  {
    var n := |tasks| - 1;
    var init := tasks[..n];
    forall j: nat | j < n ensures LiveAt(init, want, canon, j) <==> LiveAt(tasks, want, canon, j) {}
    if k < n {
      OnlyLive(init, want, canon, k);
      assert !LiveAt(tasks, want, canon, n);
    } else {
      NoneLive(init, want, canon);
    }
  }

  lemma {:induction false} NoneLive(tasks: seq<Entry>, want: string, canon: string -> Option<string>)
    requires forall j: nat :: !LiveAt(tasks, want, canon, j)
    ensures LiveHere(tasks, want, canon) == []
    decreases |tasks|
  {
    if tasks != [] {
      var n := |tasks| - 1;
      forall j: nat | j < n ensures !LiveAt(tasks[..n], want, canon, j) {
        assert !LiveAt(tasks, want, canon, j) && tasks[..n][j] == tasks[j];
      }
      NoneLive(tasks[..n], want, canon);
      assert !LiveAt(tasks, want, canon, n);
    }
  }

  /** A single live entry stands at one place only. */
  lemma {:induction false} LiveSingle(tasks: seq<Entry>, want: string, canon: string -> Option<string>) returns (k: nat)
    requires |LiveHere(tasks, want, canon)| == 1
    ensures LiveAt(tasks, want, canon, k) && LiveHere(tasks, want, canon) == [tasks[k]]
    ensures forall j: nat :: LiveAt(tasks, want, canon, j) ==> j == k
    decreases |tasks|
  {
    var n := |tasks| - 1;
    var init := tasks[..n];
    forall j: nat | j < n ensures LiveAt(init, want, canon, j) <==> LiveAt(tasks, want, canon, j) {
      assert init[j] == tasks[j];
    }
    if LiveAt(tasks, want, canon, n) {
      k := n;
      EmptyMeansNone(init, want, canon);
    } else {
      k := LiveSingle(init, want, canon);
    }
  }

  lemma {:induction false} EmptyMeansNone(tasks: seq<Entry>, want: string, canon: string -> Option<string>)
    requires LiveHere(tasks, want, canon) == []
    ensures forall j: nat :: !LiveAt(tasks, want, canon, j)
    decreases |tasks|
  {
    if tasks != [] {
      var n := |tasks| - 1;
      EmptyMeansNone(tasks[..n], want, canon);
      forall j: nat ensures !LiveAt(tasks, want, canon, j) {
        if j < n { assert tasks[..n][j] == tasks[j]; assert !LiveAt(tasks[..n], want, canon, j); }
      }
    }
  }

  ghost function Answer<F>(p: Payload<F>, env: Env, canon: string -> Option<string>): Option<Context> {
    if env.primary.None? || p.schemaVersion != SCHEMA_VERSION then None
    else match p.shape
      case NoTask => Some(Context(None, None, None, env.primary.value, None, false))
      case Single(active) => ContextFromEntry(active, env.primary.value, false)
      case Ambiguous(tasks) => if tasks.None? then None else ScanAnswer(tasks.value, env, env.primary.value, canon)
      case OtherShape => None
  }

  /** The payload holds this entry. */
  ghost predicate Holds<F>(p: Payload<F>, e: Entry) {
    (p.shape.Single? && p.shape.active == e) || (p.shape.Ambiguous? && p.shape.tasks.Some? && e in p.shape.tasks.value)
  }

  /** Nothing in an answer is invented: it repeats the nonempty fields of one live entry of the payload, or says that
      there is no task because the payload says so. */
  lemma AnswerRepeatsLiveEntry<F>(p: Payload<F>, env: Env, canon: string -> Option<string>)
    requires Answer(p, env, canon).Some?
    ensures var c := Answer(p, env, canon).value;
      && env.primary == Some(c.primary) && p.schemaVersion == 2
      && if p.shape.NoTask? then c.taskRef.None? && c.worktree.None? && c.branch.None? && c.plan.None?
         else exists e :: Holds(p, e) && e.Entry? && IsLive(e.status) && c.taskRef == NonEmpty(e.taskRef)
                && c.worktree == NonEmpty(e.path) && c.branch == NonEmpty(e.branch) && c.plan == NonEmpty(e.plan)
  {
    match p.shape
    case NoTask =>
    case Single(active) => assert Holds(p, active);
    case Ambiguous(tasks) =>
      LiveHereExact(tasks.value, env.want.value, canon);
      var live := LiveHere(tasks.value, env.want.value, canon);
      assert live[0] in live;
      assert Holds(p, live[0]);
  }

  /** `_try_load_active_task_from_snapshot`; a snapshot that could not be read or parsed is None. */
  method TryLoad<F(==)>(snapshot: Option<Payload<F>>, o: Observed<F>, env: Env, canon: string -> Option<string>)
    returns (answer: Option<Context>)
    ensures answer ==
      if snapshot.Some? && FreshEnough(snapshot.value, o) then Answer(snapshot.value, env, canon) else None
  {
    if env.primary.None? || snapshot.None? { return None; }
    var p := snapshot.value;
    if !FreshEnough(p, o) { return None; }
    if p.schemaVersion != SCHEMA_VERSION { return None; }
    match p.shape {
      case NoTask => answer := Some(Context(None, None, None, env.primary.value, None, false));
      case Single(active) => answer := ContextFromEntry(active, env.primary.value, false);
      case Ambiguous(tasks) =>
        if tasks.None? { return None; }
        answer := ScanAmbiguous(tasks.value, env, env.primary.value, canon);
      case OtherShape => answer := None;
    }
  }

  // ---------- runs of the whole system ----------

  /** handoff_state, the snapshot file, and the table it was last projected from. */
  datatype World = World(table: Table, snapshot: Option<Payload<Fingerprint>>, published: Table)

  /** The writer projects the rows it reads and stamps their fingerprint. */
  ghost predicate Projects(project: Table -> Payload<Fingerprint>) {
    forall t :: project(t).stamp == Some(FingerprintOf(t))
  }

  datatype Event = Commit(write: Write, now: nat) | Publish | RemoveSnapshot

  /** All that is asked of the clock: a commit is stamped later than the rows last published. */
  ghost predicate Step(project: Table -> Payload<Fingerprint>, w: World, e: Event, w': World) {
    match e
    case Commit(write, now) =>
      && (w.snapshot.Some? ==> AllBefore(w.published, now))
      && Writes(w.table, write, now, w'.table) && w' == w.(table := w'.table)
    case Publish => w' == w.(snapshot := Some(project(w.table)), published := w.table)
    case RemoveSnapshot => w' == w.(snapshot := None)
  }

  ghost predicate IsRun(project: Table -> Payload<Fingerprint>, ws: seq<World>, es: seq<Event>) {
    |ws| == |es| + 1 && forall i :: 0 <= i < |es| ==> Step(project, ws[i], es[i], ws[i + 1])
  }

  /** Some row of the table is stamped at `u` or later. */
  ghost predicate Reaches(t: Table, u: nat) { exists j :: j in t && u <= t[j].updatedAt }

  /** Every row of `t` no newer than the published ones is still as it was published. */
  ghost predicate OldAsPublished(published: Table, t: Table) {
    forall k :: k in t && Reaches(published, t[k].updatedAt) ==> k in published && published[k] == t[k]
  }

  /** The snapshot on disk is the projection of the table last published, and what is no newer than that table is as
      it was then. */
  ghost predicate Inv(project: Table -> Payload<Fingerprint>, w: World) {
    w.snapshot.Some? ==> w.snapshot == Some(project(w.published)) && OldAsPublished(w.published, w.table)
  }

  lemma StepKeepsInv(project: Table -> Payload<Fingerprint>, w: World, e: Event, w': World)
    requires Inv(project, w) && Step(project, w, e, w')
    ensures Inv(project, w')
  {
    if e.Commit? && w.snapshot.Some? {
      assert !Reaches(w.published, e.now);
    }
  }

  lemma {:induction false} RunKeepsInv(project: Table -> Payload<Fingerprint>, ws: seq<World>, es: seq<Event>, i: nat)
    requires IsRun(project, ws, es) && Inv(project, ws[0]) && i < |ws|
    ensures Inv(project, ws[i])
  {
    if i > 0 {
      RunKeepsInv(project, ws, es, i - 1);
      StepKeepsInv(project, ws[i - 1], es[i - 1], ws[i - 1 + 1]);
    }
  }

  /** Commits stamped later than the rows of `published` leave what is no newer than those as it was. */
  lemma {:induction false} CommitsLater(project: Table -> Payload<Fingerprint>, ws: seq<World>, es: seq<Event>,
                                        published: Table, i: nat, j: nat)
    requires IsRun(project, ws, es) && i <= j < |ws| && OldAsPublished(published, ws[i].table)
    requires forall n :: i <= n < j && es[n].Commit? ==> AllBefore(published, es[n].now)
    ensures OldAsPublished(published, ws[j].table)
    decreases j
  {
    if i < j {
      CommitsLater(project, ws, es, published, i, j - 1);
      CommitLater(project, ws[j - 1], es[j - 1], ws[j - 1 + 1], published);
    }
  }

  lemma CommitLater(project: Table -> Payload<Fingerprint>, w: World, e: Event, w': World, published: Table)
    requires Step(project, w, e, w') && OldAsPublished(published, w.table)
    requires e.Commit? ==> AllBefore(published, e.now)
    ensures OldAsPublished(published, w'.table)
  {
    if e.Commit? { assert !Reaches(published, e.now); }
  }

  /** A table with the fingerprint of the published one, and old rows as published, is that table. */
  lemma SameAsPublished(published: Table, t: Table)
    requires OldAsPublished(published, t) && FingerprintOf(published) == FingerprintOf(t)
    ensures published == t
  {
    forall k | k in t ensures k in published && published[k] == t[k] {
      assert IsNewest(published, FingerprintOf(published).newest);
      assert Reaches(published, t[k].updatedAt);
    }
    SubmapOfSameSize(published, t);
  }

  /** The cache theorem: whenever the hook reads the snapshot file (at i) and the fingerprint after it (at j), with
      any steps between, a snapshot it accepts answers exactly as a projection of the rows stored at j would. */
  lemma ServedIsCurrent(project: Table -> Payload<Fingerprint>, ws: seq<World>, es: seq<Event>, i: nat, j: nat,
                        o: Observed<Fingerprint>, env: Env, canon: string -> Option<string>)
    requires Projects(project) && IsRun(project, ws, es) && i <= j < |ws|
    requires ws[0].snapshot.None?
    requires ws[i].snapshot.Some? && FreshEnough(ws[i].snapshot.value, o)
    requires o.fingerprint == Some(FingerprintOf(ws[j].table))
    requires forall n :: i <= n < j && es[n].Commit? ==> AllBefore(ws[i].published, es[n].now)
    ensures ws[i].snapshot.value == project(ws[j].table)
    ensures Answer(ws[i].snapshot.value, env, canon) == Answer(project(ws[j].table), env, canon)
  {
    RunKeepsInv(project, ws, es, i);
    CommitsLater(project, ws, es, ws[i].published, i, j);
    SameAsPublished(ws[i].published, ws[j].table);
  }
}

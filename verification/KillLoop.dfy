/** The bounded cleanup loop after a pytest timeout: which processes are signalled, for every sequence
    of process-table snapshots, marker scans and kill results. */
module KillLoop {
  import opened Text

  datatype Result = Sent | Gone | Refused

  /** One os.kill call: in which round, on whom, with what result, and whether the round's marker scan
      named the pid. */
  datatype Call = Call(round: nat, pid: int, result: Result, marked: bool)

  const ROUNDS := 60

  function Union(snapshots: nat -> set<int>, n: nat): set<int> {
    if n == 0 then {} else Union(snapshots, n - 1) + snapshots(n - 1)
  }

  /** A pid no marker scan names is not signalled again once a kill succeeded or found it gone. */
  ghost predicate NeverAgain(log: seq<Call>) {
    forall j, k :: 0 <= j < k < |log| && log[j].pid == log[k].pid && log[j].result != Refused ==>
      log[j].marked || log[k].marked
  }

  ghost predicate Handled(log: seq<Call>, pid: int) {
    exists k :: 0 <= k < |log| && log[k].pid == pid && log[k].result != Refused
  }

  /** Every call on pid but the last was refused: it is not signalled again once killed or found gone. */
  ghost predicate OnlyLastEffective(log: seq<Call>, pid: int) {
    forall j, k :: 0 <= j < k < |log| && log[j].pid == pid && log[k].pid == pid ==> log[j].result == Refused
  }

  /** From position `start` of the log on, a call is marked exactly if that round's marker scan named its pid. */
  ghost predicate MarkedFrom(log: seq<Call>, start: nat, scanned: set<int>) {
    forall k :: start <= k < |log| ==> (log[k].marked <==> log[k].pid in scanned)
  }

  /** No marker scan of the first `rounds` rounds names the pid. */
  ghost predicate NeverScanned(scans: nat -> set<int>, rounds: nat, pid: int) {
    forall r: nat :: r < rounds ==> pid !in scans(r)
  }

  /** From position `start` of the log on, `pid` was signalled with this result. */
  ghost predicate Called(log: seq<Call>, start: nat, pid: int, result: Result) {
    exists k :: start <= k < |log| && log[k].pid == pid && log[k].result == result
  }

  /** The loop's three sets in fallback mode. `seen` is fallback_snapshot. */
  class Reaper {
    const self: int
    const fallback: bool
    var seen: set<int>
    var pending: set<int>
    var signalled: set<int>
    ghost var log: seq<Call>

    ghost predicate Valid() reads this {
      && pending * signalled == {} && pending + signalled == seen
      && (!fallback ==> seen == {})
      && (forall pid :: pid in signalled ==> Handled(log, pid))
      && (forall k :: 0 <= k < |log| && log[k].result != Refused && !log[k].marked ==> log[k].pid in signalled)
      && (forall k :: 0 <= k < |log| ==> log[k].pid != self)
      && NeverAgain(log)
    }

    /** The pre-kill snapshot opens the pending set when the first marker scan found nobody. */
    constructor (self: int, firstScan: set<int>, firstSnapshot: set<int>)
      ensures Valid() && this.self == self && fallback == (firstScan == {}) && log == [] && signalled == {}
      ensures seen == pending == if firstScan == {} then firstSnapshot else {}
    {
      this.self := self;
      fallback := firstScan == {};
      seen := if firstScan == {} then firstSnapshot else {};
      pending := if firstScan == {} then firstSnapshot else {};
      signalled, log := {}, [];
    }

    /** One target of a round. A handled pending pid moves to signalled; a refused one stays. */
    method Signal(round: nat, pid: int, result: Result, ghost marked: bool)
      requires Valid() && pid != self && (marked || pid in pending)
      modifies this`pending, this`signalled, this`log
      ensures Valid() && log == old(log) + [Call(round, pid, result, marked)]
      ensures pending == if result == Refused then old(pending) else old(pending) - {pid}
      ensures signalled == if result != Refused && pid in old(pending) then old(signalled) + {pid} else old(signalled)
    {
      assert pid in pending && pid in signalled ==> pid in pending * signalled;
      assert marked || (fallback && pid !in signalled);
      log := log + [Call(round, pid, result, marked)];
      assert log[|log| - 1].pid == pid;
      forall p | Handled(old(log), p) ensures Handled(log, p) {
        var k :| 0 <= k < |old(log)| && old(log)[k].pid == p && old(log)[k].result != Refused;
        assert log[k] == old(log)[k];
      }
      match result {
        case Gone =>
          if fallback && pid in pending {
            pending := pending - {pid};
            signalled := signalled + {pid};
          }
        case Refused =>
        case Sent =>
          if fallback && pid in pending {
            pending := pending - {pid};
            signalled := signalled + {pid};
          }
      }
    }

    /** One of the sixty rounds; true when there was nothing left to signal. */
    method Round(round: nat, scanned: set<int>, snapshot: set<int>, kill: int -> Result) returns (finished: bool)
      requires Valid()
      modifies this
      ensures Valid()
      ensures var extra := if fallback then snapshot else {};
              var targets := old(pending) + (extra - old(signalled));
              && seen == old(seen) + extra
              && (finished <==> scanned + targets == {}) && (finished ==> scanned == {} && pending == {})
              && pending == (set p | p in targets && (p == self || kill(p) == Refused))
              && signalled == old(signalled) + (targets - pending)
              && forall p :: p in scanned + targets && p != self ==> Called(log, |old(log)|, p, kill(p))
      ensures Extends(log, old(log), round, scanned)
    {
      var pids := scanned;
      if fallback {
        seen := seen + snapshot;
        pending := pending + (snapshot - signalled);
        pids := pids + pending;
      }
      if pids == {} { return true; }
      SignalAll(round, pids, scanned, kill);
      finished := false;
    }

    /** `for pid in pids`, in whatever order the set yields them. */
    method SignalAll(round: nat, pids: set<int>, ghost scanned: set<int>, kill: int -> Result)
      requires Valid() && pids == scanned + pending
      modifies this`pending, this`signalled, this`log
      ensures Valid()
      ensures pending == set p | p in old(pending) && (p == self || kill(p) == Refused)
      ensures signalled == old(signalled) + (old(pending) - pending)
      ensures forall p :: p in pids && p != self ==> Called(log, |old(log)|, p, kill(p))
      ensures Extends(log, old(log), round, scanned)
    {
      var rest := pids;
      while rest != {}
        invariant Valid() && rest <= pids
        invariant PartWay(old(pending), old(signalled), pending, signalled, rest, self, kill)
        invariant forall p :: p in pids - rest && p != self ==> Called(log, |old(log)|, p, kill(p))
        invariant Extends(log, old(log), round, scanned)
        decreases rest
      {
        SomeMember(rest);
        var pid :| pid in rest;
        rest := rest - {pid};
        if pid != self {
          ghost var was := log;
          ghost var open, closed := pending, signalled;
          Signal(round, pid, kill(pid), pid in scanned);
          PartWayNext(old(pending), old(signalled), open, closed, rest, self, kill, pid);
          CalledMore(was, |old(log)|, log[|log| - 1]);
        }
      }
    }

    /** The loop: at most sixty rounds, leaving early only with no seen descendant pending. Of a fresh reaper's calls
        on a pid that only process-table snapshots name, all but the last were refused. */
    method Reap(scans: nat -> set<int>, snapshots: nat -> set<int>, kill: nat -> int -> Result)
      returns (early: bool, rounds: nat)
      requires Valid()
      modifies this
      ensures Valid() && rounds <= 60
      ensures fallback ==> seen == old(seen) + Union(snapshots, rounds)
      ensures early ==>
        rounds > 0 && scans(rounds - 1) == {} && pending == {} && forall pid :: pid in seen ==> Handled(log, pid)
      ensures !early ==>
        rounds == 60 && OnlyRefused(pending, self, kill(59))
      ensures old(log) == [] ==> forall pid :: NeverScanned(scans, rounds, pid) ==> OnlyLastEffective(log, pid)
    {
      rounds := 0;
      while rounds < ROUNDS
        invariant Valid() && rounds <= ROUNDS
        invariant fallback ==> seen == old(seen) + Union(snapshots, rounds)
        invariant RefusedSoFar(pending, self, kill, rounds)
        invariant TracedFresh(old(log), log, scans, rounds)
      {
        ghost var was := log;
        UnionOneMore(old(seen), snapshots, rounds);
        early := Round(rounds, scans(rounds), snapshots(rounds), kill(rounds));
        TracedFreshMore(old(log), was, log, scans, rounds);
        rounds := rounds + 1;
        if early {
          if old(log) == [] { UnscannedHandledOnce(log, scans, rounds); }
          return;
        }
      }
      early := false;
      if old(log) == [] { UnscannedHandledOnce(log, scans, rounds); }
    }
  }

  /** Whoever is still pending was refused by the last round's kill, the loop's own process apart. */
  ghost predicate OnlyRefused(pending: set<int>, self: int, kill: int -> Result) {
    forall pid :: pid in pending ==> pid == self || kill(pid) == Refused
  }

  ghost predicate RefusedSoFar(pending: set<int>, self: int, kill: nat -> int -> Result, rounds: nat) {
    rounds > 0 ==> OnlyRefused(pending, self, kill(rounds - 1))
  }

  ghost predicate TracedFresh(start: seq<Call>, log: seq<Call>, scans: nat -> set<int>, rounds: nat) {
    start == [] ==> Traced(log, scans, rounds)
  }

  lemma TracedFreshMore(start: seq<Call>, was: seq<Call>, log: seq<Call>, scans: nat -> set<int>, rounds: nat)
    requires TracedFresh(start, was, scans, rounds) && Extends(log, was, rounds, scans(rounds))
    ensures TracedFresh(start, log, scans, rounds + 1)
  {
    if start == [] { TracedMore(was, log, scans, rounds); }
  }

  lemma UnionOneMore(seen: set<int>, snapshots: nat -> set<int>, n: nat)
    ensures seen + Union(snapshots, n) + snapshots(n) == seen + Union(snapshots, n + 1)
  {
  }

  /** The calls added since `was` are of this round, marked where the scan named their pid. */
  ghost predicate Extends(log: seq<Call>, was: seq<Call>, round: nat, scanned: set<int>) {
    was <= log && (forall k :: |was| <= k < |log| ==> log[k].round == round) && MarkedFrom(log, |was|, scanned)
  }

  /** The pending and handled sets while the targets in `rest` are still to come. */
  ghost predicate PartWay(pending0: set<int>, signalled0: set<int>, pending: set<int>, signalled: set<int>,
                          rest: set<int>, self: int, kill: int -> Result) {
    && pending == (set p | p in pending0 && (p in rest || p == self || kill(p) == Refused))
    && forall p :: p in signalled <==> p in signalled0 || (p in pending0 && p !in pending)
  }

  lemma PartWayNext(pending0: set<int>, signalled0: set<int>, pending: set<int>, signalled: set<int>,
                    rest: set<int>, self: int, kill: int -> Result, pid: int)
    requires PartWay(pending0, signalled0, pending, signalled, rest + {pid}, self, kill) && pid !in rest && pid != self
    ensures var open := if kill(pid) == Refused then pending else pending - {pid};
            var closed := if kill(pid) != Refused && pid in pending then signalled + {pid} else signalled;
            PartWay(pending0, signalled0, open, closed, rest, self, kill)
  {
  }

  /** Every marked call names a pid its round's scan named. */
  ghost predicate Traced(log: seq<Call>, scans: nat -> set<int>, rounds: nat) {
    forall k :: 0 <= k < |log| ==> log[k].round < rounds && (log[k].marked <==> log[k].pid in scans(log[k].round))
  }

  lemma TracedMore(was: seq<Call>, log: seq<Call>, scans: nat -> set<int>, rounds: nat)
    requires Traced(was, scans, rounds) && was <= log
    requires Extends(log, was, rounds, scans(rounds))
    ensures Traced(log, scans, rounds + 1)
  {
    assert forall k :: 0 <= k < |was| ==> log[k] == was[k];
  }

  lemma UnscannedHandledOnce(log: seq<Call>, scans: nat -> set<int>, rounds: nat)
    requires NeverAgain(log) && Traced(log, scans, rounds)
    ensures forall pid :: NeverScanned(scans, rounds, pid) ==> OnlyLastEffective(log, pid)
  {
    forall pid | NeverScanned(scans, rounds, pid) ensures OnlyLastEffective(log, pid) {
      assert forall k :: 0 <= k < |log| && log[k].pid == pid ==> !log[k].marked;
    }
  }

  lemma CalledMore(log: seq<Call>, start: nat, c: Call)
    requires start <= |log|
    ensures Called(log + [c], start, c.pid, c.result)
    ensures forall p, r :: Called(log, start, p, r) ==> Called(log + [c], start, p, r)
  {
    var more := log + [c];
    assert more[|log|] == c;
    forall p, r | Called(log, start, p, r) ensures Called(more, start, p, r) {
      var k :| start <= k < |log| && log[k].pid == p && log[k].result == r;
      assert more[k] == log[k];
    }
  }
}

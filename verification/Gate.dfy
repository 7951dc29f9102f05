/** The landing gate: reading failing ids out of two pytest logs, binding them to the supplied id
    files, and the composite verdict. Line recognition is a parameter: every statement holds for any
    recogniser of pytest's lines. */
module Gate {
  import opened Text
  import opened FailureIds

  /** The log-line patterns, each applied to one line. `status` gives the text after FAILED or ERROR;
      `counts` lists the number-word pairs of a terminal counts line. */
  datatype Patterns = Patterns(visible: string -> string, isHeader: string -> bool, isCounts: string -> bool,
                               noTestsRan: string -> bool, counts: string -> seq<(nat, string)>,
                               status: string -> Option<Option<string>>, isInternal: string -> bool,
                               isLauncher: string -> bool, collecting: string -> Option<string>,
                               setup: string -> Option<string>)

  // ---------- single lines ----------

  function NonSummaryErrorId(p: Patterns, line: string): Option<string> {
    if p.collecting(line).Some? then NodeId(p.collecting(line).value)
    else if p.setup(line).Some? then NodeId(p.setup(line).value)
    else None
  }

  predicate IsErrorLine(line: string) { StartsWith(line, "ERROR") }

  predicate Skipped(p: Patterns, line: string) { line == "" || p.isCounts(line) }

  /** None: not a status line. Some(None): a status line without a node id. */
  function StatusId(p: Patterns, line: string): Option<Option<string>> {
    var explicit := if IsErrorLine(line) then NonSummaryErrorId(p, line) else None;
    if explicit.Some? then Some(explicit)
    else match p.status(p.visible(line))
      case None => None
      case Some(None) => Some(None)
      case Some(Some(rest)) => Some(NodeId(rest))
  }

  /** In the summary region this line lists x as failing. */
  predicate Lists(p: Patterns, line: string, x: string) {
    var l := p.visible(line);
    !Skipped(p, l) && StatusId(p, l) == Some(Some(x))
  }

  predicate Malformed(p: Patterns, line: string) {
    var l := p.visible(line);
    !Skipped(p, l) && StatusId(p, l) == Some(None)
  }

  /** The id an `ERROR collecting` or `ERROR at setup of` line names, the first of the two forms that fits. */
  ghost predicate NamesError(p: Patterns, l: string, x: string) {
    if p.collecting(l).Some? then NodeId(p.collecting(l).value) == Some(x)
    else p.setup(l).Some? && NodeId(p.setup(l).value) == Some(x)
  }

  /** What it takes for a line of the summary to list x: it is neither blank nor a counts line; a line that begins with
      ERROR and names an error that way lists that; any other must be a status line whose text reads as x. */
  lemma ListsIff(p: Patterns, line: string, x: string)
    ensures var l := p.visible(line);
      Lists(p, line, x) <==>
        && l != "" && !p.isCounts(l)
        && if |l| >= 5 && l[..5] == "ERROR" && (exists e :: NamesError(p, l, e)) then NamesError(p, l, x)
           else exists rest :: p.status(p.visible(l)) == Some(Some(rest)) && NodeId(rest) == Some(x)
  {
    var l := p.visible(line);
    forall e ensures NonSummaryErrorId(p, l) == Some(e) <==> NamesError(p, l, e) {}
    if NonSummaryErrorId(p, l).Some? { assert NamesError(p, l, NonSummaryErrorId(p, l).value); }
  }

  /** A status line that yields no id. */
  lemma MalformedIff(p: Patterns, line: string)
    ensures var l := p.visible(line);
      Malformed(p, line) <==>
        && l != "" && !p.isCounts(l)
        && !(|l| >= 5 && l[..5] == "ERROR" && exists e :: NamesError(p, l, e))
        && p.status(p.visible(l)).Some?
        && (p.status(p.visible(l)).value.Some? ==> NodeId(p.status(p.visible(l)).value.value).None?)
  {
    var l := p.visible(line);
    forall e ensures NonSummaryErrorId(p, l) == Some(e) <==> NamesError(p, l, e) {}
    if NonSummaryErrorId(p, l).Some? { assert NamesError(p, l, NonSummaryErrorId(p, l).value); }
  }

  lemma NodeIdIsClean(given: string)
    requires NodeId(given).Some?
    ensures Strip(NodeId(given).value) == NodeId(given).value && Visible(NodeId(given).value)
  {
    NodeIdLooksRight(Strip(given), 0);
    var id := NodeId(given).value;
    NodeIdEnds(id);
    assert StripLeft(id) == id && StripRight(id) == id;
  }

  lemma {:induction false} NodeIdLooksRight(s: string, start: nat)
    requires start <= |s| && NodeIdAfter(s, start).Some?
    ensures LooksLikeNodeId(NodeIdAfter(s, start).value)
    decreases |s| - start
  {
    var i := FindDash(s, start);
    if i < |s| && !LooksLikeNodeId(StripRight(s[..i])) { NodeIdLooksRight(s, i + 3); }
  }

  lemma ListedIsClean(p: Patterns, line: string, x: string)
    requires StatusId(p, line) == Some(Some(x)) || NonSummaryErrorId(p, line) == Some(x)
    ensures Strip(x) == x && Visible(x)
  {
    if NonSummaryErrorId(p, line) == Some(x) {
      NodeIdIsClean(if p.collecting(line).Some? then p.collecting(line).value else p.setup(line).value);
    } else {
      NodeIdIsClean(p.status(p.visible(line)).value.value);
    }
  }

  // ---------- the summary region ----------

  datatype Region = Region(ids: seq<string>, errored: seq<string>, malformed: bool)

  function ReadLine(p: Patterns, r: Region, line: string): Region {
    var l := p.visible(line);
    if Skipped(p, l) || StatusId(p, l).None? then r
    else if StatusId(p, l).value.None? then r.(malformed := true)
    else
      var id := StatusId(p, l).value.value;
      if id in r.ids then r
      else Region(r.ids + [id], if IsErrorLine(l) then r.errored + [id] else r.errored, r.malformed)
  }

  function RegionOf(p: Patterns, lines: seq<string>): Region {
    if lines == [] then Region([], [], false) else ReadLine(p, RegionOf(p, lines[..|lines| - 1]), lines[|lines| - 1])
  }

  method IdsFromSummaryRegion(p: Patterns, lines: seq<string>) returns (r: Region)
    ensures r == RegionOf(p, lines)
  {
    var ids: seq<string>, errored: seq<string>, malformed := [], [], false;
    var seen: set<string> := {};
    for i := 0 to |lines|
      invariant Region(ids, errored, malformed) == RegionOf(p, lines[..i])
      invariant forall x :: x in seen <==> x in ids
    {
      TakeOneMore(lines, i);
      var l := p.visible(lines[i]);
      if Skipped(p, l) { continue; }
      var id := StatusId(p, l);
      if id.None? { continue; }
      if id.value.None? { malformed := true; continue; }
      if id.value.value in seen { continue; }
      seen := seen + {id.value.value};
      ids := ids + [id.value.value];
      if IsErrorLine(l) { errored := errored + [id.value.value]; }
    }
    assert lines[..|lines|] == lines;
    r := Region(ids, errored, malformed);
  }

  ghost predicate ListedIn(p: Patterns, lines: seq<string>, x: string) {
    exists line :: line in lines && Lists(p, line, x)
  }

  /** The first line that lists x begins with ERROR. */
  ghost predicate FirstListedAsError(p: Patterns, lines: seq<string>, x: string) {
    if lines == [] then false
    else if ListedIn(p, lines[..|lines| - 1], x) then FirstListedAsError(p, lines[..|lines| - 1], x)
    else Lists(p, lines[|lines| - 1], x) && IsErrorLine(p.visible(lines[|lines| - 1]))
  }

  ghost predicate AnyMalformed(p: Patterns, lines: seq<string>) { exists line :: line in lines && Malformed(p, line) }

  /** The region's ids are the listed ones without repeats; an id is errored iff its first listing is. */
  lemma {:induction false} RegionExact(p: Patterns, lines: seq<string>)
    ensures AllDistinct(RegionOf(p, lines).ids)
    ensures forall x :: x in RegionOf(p, lines).ids <==> ListedIn(p, lines, x)
    ensures RegionOf(p, lines).malformed <==> AnyMalformed(p, lines)
    ensures forall x :: x in RegionOf(p, lines).errored <==> FirstListedAsError(p, lines, x)
    ensures forall x :: x in RegionOf(p, lines).errored ==> x in RegionOf(p, lines).ids
  {
    if lines != [] {
      var init, last := lines[..|lines| - 1], lines[|lines| - 1];
      RegionExact(p, init);
      ReadLineExact(p, RegionOf(p, init), last);
      assert lines == init + [last];
      OneMoreListed(p, init, last);
    }
  }

  lemma ReadLineExact(p: Patterns, r: Region, line: string)
    requires AllDistinct(r.ids) && forall x :: x in r.errored ==> x in r.ids
    ensures var s := ReadLine(p, r, line);
      && AllDistinct(s.ids) && (s.malformed <==> r.malformed || Malformed(p, line))
      && (forall x :: x in s.ids <==> x in r.ids || Lists(p, line, x))
      && (forall x :: x in s.errored <==>
            x in r.errored || (x !in r.ids && Lists(p, line, x) && IsErrorLine(p.visible(line))))
  {
  }

  lemma OneMoreListed(p: Patterns, init: seq<string>, last: string)
    ensures forall x :: ListedIn(p, init + [last], x) <==> ListedIn(p, init, x) || Lists(p, last, x)
    ensures AnyMalformed(p, init + [last]) <==> AnyMalformed(p, init) || Malformed(p, last)
  {
    var lines := init + [last];
    assert forall line :: line in lines <==> line in init || line == last;
    assert last in lines;
  }

  // ---------- one whole log ----------

  /** Sum of the last failed and the last error(s) count a terminal line announces. */
  function LastCount(counts: seq<(nat, string)>, words: set<string>): nat {
    if counts == [] then 0
    else if counts[|counts| - 1].1 in words then counts[|counts| - 1].0
    else LastCount(counts[..|counts| - 1], words)
  }

  function Announced(p: Patterns, line: string): Option<nat> {
    var l := p.visible(line);
    if !p.isCounts(l) then None
    else if p.noTestsRan(l) then Some(0)
    else Some(LastCount(p.counts(l), {"failed"}) + LastCount(p.counts(l), {"error", "errors"}))
  }

  /** `_announced_failure_count` with its overwriting loop. */
  method AnnouncedFailureCount(p: Patterns, line: string) returns (n: Option<nat>)
    ensures n == Announced(p, line)
    ensures forall k: nat :: n == Some(k) <==> Announces(p, line, k)
  {
    forall k: nat ensures Announced(p, line) == Some(k) <==> Announces(p, line, k) { AnnouncedIff(p, line, k); }
    var l := p.visible(line);
    if !p.isCounts(l) { return None; }
    if p.noTestsRan(l) { return Some(0); }
    var failed, errors := 0, 0;
    var counts := p.counts(l);
    for i := 0 to |counts|
      invariant failed == LastCount(counts[..i], {"failed"}) && errors == LastCount(counts[..i], {"error", "errors"})
    {
      TakeOneMore(counts, i);
      if counts[i].1 == "failed" { failed := counts[i].0; }
      else if counts[i].1 in {"error", "errors"} { errors := counts[i].0; }
    }
    assert counts[..|counts|] == counts;
    n := Some(failed + errors);
  }

  /** Pair k is the last one named `a` or `b`. */
  ghost predicate LastNamed(counts: seq<(nat, string)>, a: string, b: string, k: nat) {
    && k < |counts| && (counts[k].1 == a || counts[k].1 == b)
    && forall j :: k < j < |counts| ==> counts[j].1 != a && counts[j].1 != b
  }

  /** n is what the last pair named `a` or `b` counts, 0 where there is none. */
  ghost predicate CountsLast(counts: seq<(nat, string)>, a: string, b: string, n: nat) {
    || (exists k: nat :: LastNamed(counts, a, b, k) && counts[k].0 == n)
    || (n == 0 && forall j :: 0 <= j < |counts| ==> counts[j].1 != a && counts[j].1 != b)
  }

  /** The line announces n failures: the last failed count and the last error count together. */
  ghost predicate Announces(p: Patterns, line: string, n: nat) {
    var l := p.visible(line);
    && p.isCounts(l)
    && if p.noTestsRan(l) then n == 0
       else exists failed: nat, errors: nat :: n == failed + errors
              && CountsLast(p.counts(l), "failed", "failed", failed)
              && CountsLast(p.counts(l), "error", "errors", errors)
  }

  lemma {:induction false} LastCountExact(counts: seq<(nat, string)>, words: set<string>, a: string, b: string)
    requires words == {a, b}
    ensures CountsLast(counts, a, b, LastCount(counts, words))
  {
    if counts != [] {
      var init, k := counts[..|counts| - 1], |counts| - 1;
      LastCountExact(init, words, a, b);
      if counts[k].1 == a || counts[k].1 == b {
        assert LastNamed(counts, a, b, k);
      } else if i: nat :| LastNamed(init, a, b, i) && init[i].0 == LastCount(init, words) {
        assert LastNamed(counts, a, b, i);
      } else {
        assert forall j :: 0 <= j < k ==> counts[j] == init[j];
      }
    }
  }

  /** Only one number is announced. */
  lemma CountsOnce(counts: seq<(nat, string)>, a: string, b: string, m: nat, n: nat)
    requires CountsLast(counts, a, b, m) && CountsLast(counts, a, b, n)
    ensures m == n
  {
    if k: nat :| LastNamed(counts, a, b, k) && counts[k].0 == m {
      if j: nat :| LastNamed(counts, a, b, j) && counts[j].0 == n {
        assert j == k;
      }
    }
  }

  lemma AnnouncedIff(p: Patterns, line: string, n: nat)
    ensures Announced(p, line) == Some(n) <==> Announces(p, line, n)
  {
    var counts := p.counts(p.visible(line));
    LastCountExact(counts, {"failed"}, "failed", "failed");
    LastCountExact(counts, {"error", "errors"}, "error", "errors");
    if Announces(p, line, n) && !p.noTestsRan(p.visible(line)) {
      var failed: nat, errors: nat :| n == failed + errors && CountsLast(counts, "failed", "failed", failed)
        && CountsLast(counts, "error", "errors", errors);
      CountsOnce(counts, "failed", "failed", failed, LastCount(counts, {"failed"}));
      CountsOnce(counts, "error", "errors", errors, LastCount(counts, {"error", "errors"}));
    }
  }

  function Visibles(p: Patterns, lines: seq<string>): (v: seq<string>)
    ensures |v| == |lines| && forall i :: 0 <= i < |v| ==> v[i] == p.visible(lines[i])
  {
    seq(|lines|, i requires 0 <= i < |lines| => p.visible(lines[i]))
  }

  /** Last line that is not empty. */
  function LastLine(lines: seq<string>): Option<string> {
    if lines == [] then None
    else if lines[|lines| - 1] != "" then Some(lines[|lines| - 1])
    else LastLine(lines[..|lines| - 1])
  }

  function NonEmptyLines(lines: seq<string>): seq<string> {
    if lines == [] then []
    else NonEmptyLines(lines[..|lines| - 1]) + if lines[|lines| - 1] != "" then [lines[|lines| - 1]] else []
  }

  /** Line k is the last one that is not empty. */
  ghost predicate LastVisible(lines: seq<string>, k: nat) {
    k < |lines| && lines[k] != "" && forall j :: k < j < |lines| ==> lines[j] == ""
  }

  lemma {:induction false} LastLineExact(lines: seq<string>)
    ensures LastLine(lines).None? <==> forall j :: 0 <= j < |lines| ==> lines[j] == ""
    ensures forall k: nat :: LastVisible(lines, k) ==> LastLine(lines) == Some(lines[k])
  {
    if lines != [] {
      var init := lines[..|lines| - 1];
      LastLineExact(init);
      forall k: nat | LastVisible(lines, k) ensures LastLine(lines) == Some(lines[k]) {
        if k < |init| { assert LastVisible(init, k) && init[k] == lines[k]; }
      }
      assert forall j :: 0 <= j < |init| ==> init[j] == lines[j];
    }
  }

  lemma NonEmptyLast(s: seq<string>, l: string)
    ensures NonEmptyLines(s + [l]) == NonEmptyLines(s) + if l == "" then [] else [l]
  {
    assert (s + [l])[..|s|] == s;
  }

  /** Leaving out the empty lines respects concatenation. */
  lemma {:induction false} NonEmptyJoins(a: seq<string>, b: seq<string>)
    ensures NonEmptyLines(a + b) == NonEmptyLines(a) + NonEmptyLines(b)
    decreases |b|
  {
    if b == [] {
      assert a + b == a;
    } else {
      var init, l := b[..|b| - 1], b[|b| - 1];
      InitAndLast(b);
      NonEmptyJoins(a, init);
      JoinThree(a, init, [l]);
      NonEmptyLast(a + init, l);
      JoinThree(NonEmptyLines(a), NonEmptyLines(init), if l == "" then [] else [l]);
    }
  }

  function LastHeader(p: Patterns, lines: seq<string>): (h: Option<nat>)
    ensures h.Some? ==>
      h.value < |lines| && p.isHeader(lines[h.value]) && forall i :: h.value < i < |lines| ==> !p.isHeader(lines[i])
    ensures h.None? ==> forall i :: 0 <= i < |lines| ==> !p.isHeader(lines[i])
  {
    if lines == [] then None
    else if p.isHeader(lines[|lines| - 1]) then Some(|lines| - 1)
    else LastHeader(p, lines[..|lines| - 1])
  }

  function AppendUnique(s: seq<string>, x: Option<string>): seq<string> {
    if x.Some? && x.value !in s then s + [x.value] else s
  }

  /** What `read` makes of the first n lines, once each. */
  function Collect(read: string -> Option<string>, lines: seq<string>, n: nat): seq<string>
    requires n <= |lines|
  {
    if n == 0 then [] else AppendUnique(Collect(read, lines, n - 1), read(lines[n - 1]))
  }

  function ErrorReader(p: Patterns): string -> Option<string> { line => NonSummaryErrorId(p, line) }

  /** Explicit collection and setup errors of the first n lines. */
  function EarlyErrors(p: Patterns, lines: seq<string>, n: nat): seq<string>
    requires n <= |lines|
  {
    Collect(ErrorReader(p), lines, n)
  }

  function FirstInternal(p: Patterns, lines: seq<string>): Option<string> {
    if lines == [] then None
    else if FirstInternal(p, lines[..|lines| - 1]).Some? then FirstInternal(p, lines[..|lines| - 1])
    else if p.isInternal(lines[|lines| - 1]) then Some(lines[|lines| - 1])
    else None
  }

  lemma AppendedUnique(s: seq<string>, x: Option<string>)
    requires AllDistinct(s)
    ensures AllDistinct(AppendUnique(s, x))
    ensures forall y :: y in AppendUnique(s, x) <==> y in s || x == Some(y)
  {
    assert forall i :: 0 <= i < |s| ==> s[i] in s;
  }

  /** One of the first n lines reads as x. */
  ghost predicate Reported(read: string -> Option<string>, lines: seq<string>, n: nat, x: string)
    requires n <= |lines|
  {
    exists i :: 0 <= i < n && read(lines[i]) == Some(x)
  }

  ghost predicate ListsReported(read: string -> Option<string>, lines: seq<string>, n: nat, s: seq<string>)
    requires n <= |lines|
  {
    AllDistinct(s) && forall x :: x in s <==> Reported(read, lines, n, x)
  }

  lemma {:induction false} CollectExact(read: string -> Option<string>, lines: seq<string>, n: nat)
    requires n <= |lines|
    ensures ListsReported(read, lines, n, Collect(read, lines, n))
  {
    if n > 0 {
      CollectExact(read, lines, n - 1);
      AppendedUnique(Collect(read, lines, n - 1), read(lines[n - 1]));
      forall x ensures Reported(read, lines, n, x) <==>
        Reported(read, lines, n - 1, x) || read(lines[n - 1]) == Some(x) {}
    }
  }

  /** One of the first n lines reports x as an explicit error. */
  ghost predicate ReportedEarly(p: Patterns, lines: seq<string>, n: nat, x: string)
    requires n <= |lines|
  {
    exists i :: 0 <= i < n && NonSummaryErrorId(p, lines[i]) == Some(x)
  }

  /** The explicit errors are those of the first n lines, once each. */
  lemma EarlyErrorsExact(p: Patterns, lines: seq<string>, n: nat)
    requires n <= |lines|
    ensures AllDistinct(EarlyErrors(p, lines, n))
    ensures forall x :: x in EarlyErrors(p, lines, n) <==> ReportedEarly(p, lines, n, x)
  {
    CollectExact(ErrorReader(p), lines, n);
    forall x ensures Reported(ErrorReader(p), lines, n, x) <==> ReportedEarly(p, lines, n, x) {
      ReadsErrors(p, lines, n, x);
    }
  }

  lemma ReadsErrors(p: Patterns, lines: seq<string>, n: nat, x: string)
    requires n <= |lines|
    ensures Reported(ErrorReader(p), lines, n, x) <==> ReportedEarly(p, lines, n, x)
  {
    assert forall i :: 0 <= i < n ==> ErrorReader(p)(lines[i]) == NonSummaryErrorId(p, lines[i]);
  }

  /** Line i is an internal error and no line before it is. */
  ghost predicate FirstInternalAt(p: Patterns, lines: seq<string>, i: nat) {
    i < |lines| && p.isInternal(lines[i]) && forall j :: 0 <= j < i ==> !p.isInternal(lines[j])
  }

  lemma {:induction false} FirstInternalExact(p: Patterns, lines: seq<string>)
    ensures FirstInternal(p, lines).None? <==> forall i :: 0 <= i < |lines| ==> !p.isInternal(lines[i])
    ensures FirstInternal(p, lines).Some? ==>
              exists i: nat :: FirstInternalAt(p, lines, i) && lines[i] == FirstInternal(p, lines).value
  {
    if lines != [] {
      var init, last := lines[..|lines| - 1], lines[|lines| - 1];
      FirstInternalExact(p, init);
      assert lines == init + [last];
      if FirstInternal(p, init).Some? {
        var i: nat :| FirstInternalAt(p, init, i) && init[i] == FirstInternal(p, init).value;
        StaysFirst(p, init, last, i);
      } else {
        assert p.isInternal(last) ==> FirstInternalAt(p, lines, |init|);
      }
    }
  }

  lemma StaysFirst(p: Patterns, init: seq<string>, last: string, i: nat)
    requires FirstInternalAt(p, init, i)
    ensures FirstInternalAt(p, init + [last], i) && (init + [last])[i] == init[i]
  {
  }

  function Joined(lines: seq<string>): string {
    if lines == [] then "" else if |lines| == 1 then lines[0] else lines[0] + " | " + Joined(lines[1..])
  }

  function Launchers(p: Patterns, lines: seq<string>): seq<string> {
    if lines == [] then [] else (if p.isLauncher(lines[0]) then [lines[0]] else []) + Launchers(p, lines[1..])
  }

  /** Launcher diagnostics among the last three nonempty lines of a log that did not finish. */
  function LauncherReason(p: Patterns, visible: seq<string>, finished: bool): Option<string> {
    var tail := NonEmptyLines(visible);
    var hits := Launchers(p, if |tail| > 3 then tail[|tail| - 3..] else tail);
    if finished || hits == [] then None else Some(Joined(hits))
  }

  lemma {:induction false} JoinedConcatenates(a: seq<string>, b: seq<string>)
    requires a != [] && b != []
    ensures Joined(a + b) == Joined(a) + " | " + Joined(b)
    ensures forall l :: Joined([l]) == l
    decreases |a|
  {
    if |a| == 1 {
      assert (a + b)[1..] == b;
    } else {
      JoinedConcatenates(a[1..], b);
      assert (a + b)[1..] == a[1..] + b;
      JoinThree(a[0] + " | ", Joined(a[1..]) + " | ", Joined(b));
      JoinThree(a[0] + " | ", Joined(a[1..]), " | ");
    }
  }

  /** The launcher lines are those of the given lines that the pattern recognises. */
  lemma {:induction false} LaunchersExact(p: Patterns, lines: seq<string>, l: string)
    ensures l in Launchers(p, lines) <==> l in lines && p.isLauncher(l)
  {
    if lines != [] {
      LaunchersExact(p, lines[1..], l);
      FirstAndRest(lines);
    }
  }

  lemma FirstAndRest(lines: seq<string>)
    requires lines != []
    ensures lines == [lines[0]] + lines[1..]
    ensures forall l :: l in lines <==> l == lines[0] || l in lines[1..]
  {
  }

  lemma {:induction false} LaunchersJoin(p: Patterns, a: seq<string>, b: seq<string>)
    ensures Launchers(p, a + b) == Launchers(p, a) + Launchers(p, b)
    decreases |a|
  {
    if a == [] {
      assert a + b == b;
    } else {
      LaunchersJoin(p, a[1..], b);
      assert (a + b)[1..] == a[1..] + b;
      JoinThree(if p.isLauncher(a[0]) then [a[0]] else [], Launchers(p, a[1..]), Launchers(p, b));
    }
  }

  /** A log that did not finish has a launcher diagnostic exactly if one of the last three nonempty lines, or of all of
      them where there are fewer, is one; it is made of those that are. */
  lemma LauncherReasonIff(p: Patterns, visible: seq<string>, finished: bool, before: seq<string>, tail: seq<string>)
    requires NonEmptyLines(visible) == before + tail
    requires |tail| <= 3 && (|tail| < 3 ==> before == [])
    ensures LauncherReason(p, visible, finished) ==
      if !finished && (exists l :: l in tail && p.isLauncher(l)) then Some(Joined(Launchers(p, tail))) else None
  {
    assert (if |before + tail| > 3 then (before + tail)[|before + tail| - 3..] else before + tail) == tail;
    forall l ensures l in Launchers(p, tail) <==> l in tail && p.isLauncher(l) { LaunchersExact(p, tail, l); }
    if Launchers(p, tail) != [] { assert Launchers(p, tail)[0] in tail; }
  }

  function AppendAll(s: seq<string>, xs: seq<string>): seq<string> {
    if xs == [] then s else AppendUnique(AppendAll(s, xs[..|xs| - 1]), Some(xs[|xs| - 1]))
  }

  datatype Extraction = Extraction(extracted: bool, ids: seq<string>, errored: seq<string>, reason: Option<string>)

  function Finished(p: Patterns, visible: seq<string>): bool {
    LastLine(visible).Some? && p.isCounts(LastLine(visible).value)
  }

  function SummaryRegion(p: Patterns, visible: seq<string>): seq<string> {
    if LastHeader(p, visible).None? then [] else visible[LastHeader(p, visible).value + 1..]
  }

  function Extract(p: Patterns, lines: seq<string>): Extraction {
    var visible := Visibles(p, lines);
    var header := LastHeader(p, visible);
    var finished := Finished(p, visible);
    var announced := if finished then Announced(p, LastLine(visible).value) else None;
    var early := EarlyErrors(p, visible, if header.Some? then header.value else |visible|);
    var launcher := LauncherReason(p, visible, finished);
    Concluded(p, visible, header, finished, announced, early, ReasonOf(FirstInternal(p, visible), launcher))
  }

  function ReasonOf(inner: Option<string>, launcher: Option<string>): Option<string> {
    if inner.None? && launcher.Some? then Some("raw log fallback: " + launcher.value) else inner
  }

  /** What the pieces read from a log amount to. */
  function Concluded(p: Patterns, visible: seq<string>, header: Option<nat>, finished: bool, announced: Option<nat>,
                     early: seq<string>, reason: Option<string>): Extraction
    requires header.Some? ==> header.value < |visible|
  {
    if header.None? then
      if finished && announced == Some(0) && early == [] && reason.None? then Extraction(true, [], [], None)
      else Extraction(false, [], early, reason)
    else
      Summarised(RegionOf(p, visible[header.value + 1..]), finished, announced, early, reason)
  }

  function Summarised(region: Region, finished: bool, announced: Option<nat>, early: seq<string>,
                      reason: Option<string>): Extraction {
    var errored := AppendAll(early, region.errored);
    if region.malformed || !finished || announced != Some(|region.ids|) then Extraction(false, [], errored, reason)
    else Extraction(true, region.ids, errored, reason)
  }

  method FindHeader(p: Patterns, visible: seq<string>) returns (header: Option<nat>)
    ensures header == LastHeader(p, visible)
  {
    header := None;
    for i := 0 to |visible|
      invariant header == LastHeader(p, visible[..i])
    {
      TakeOneMore(visible, i);
      if p.isHeader(visible[i]) { header := Some(i); }
    }
    assert visible[..|visible|] == visible;
  }

  lemma NextInternal(p: Patterns, visible: seq<string>, i: nat)
    requires i < |visible|
    ensures FirstInternal(p, visible[..i + 1]) ==
            if FirstInternal(p, visible[..i]).None? && p.isInternal(visible[i]) then Some(visible[i])
            else FirstInternal(p, visible[..i])
  {
    TakeOneMore(visible, i);
  }

  /** How many of the first i lines stand before the header. */
  function Upto(header: Option<nat>, i: nat): nat { if header.Some? && header.value < i then header.value else i }

  lemma CollectNext(read: string -> Option<string>, lines: seq<string>, n: nat)
    requires n < |lines|
    ensures Collect(read, lines, n + 1) == AppendUnique(Collect(read, lines, n), read(lines[n]))
  {
  }

  /** The one pass over all lines: the first internal error anywhere, explicit errors before the header. */
  method ScanErrors(p: Patterns, visible: seq<string>, header: Option<nat>)
    returns (errored: seq<string>, reason: Option<string>)
    requires header.Some? ==> header.value < |visible|
    ensures errored == EarlyErrors(p, visible, Upto(header, |visible|))
    ensures reason == FirstInternal(p, visible)
    ensures AllDistinct(errored)
    ensures forall x :: x in errored <==> ReportedEarly(p, visible, Upto(header, |visible|), x)
    ensures reason.None? <==> forall i :: 0 <= i < |visible| ==> !p.isInternal(visible[i])
    ensures reason.Some? ==> exists i: nat :: FirstInternalAt(p, visible, i) && visible[i] == reason.value
  {
    errored, reason := [], None;
    for i := 0 to |visible|
      invariant reason == FirstInternal(p, visible[..i])
      invariant errored == EarlyErrors(p, visible, Upto(header, i))
    {
      NextInternal(p, visible, i);
      if p.isInternal(visible[i]) && reason.None? { reason := Some(visible[i]); }
      if header.None? || i < header.value {
        CollectNext(ErrorReader(p), visible, i);
        errored := AppendUnique(errored, NonSummaryErrorId(p, visible[i]));
      }
    }
    assert visible[..|visible|] == visible;
    EarlyErrorsExact(p, visible, Upto(header, |visible|));
    FirstInternalExact(p, visible);
  }

  method AppendEach(errored: seq<string>, more: seq<string>) returns (all: seq<string>)
    ensures all == AppendAll(errored, more)
  {
    all := errored;
    for k := 0 to |more|
      invariant all == AppendAll(errored, more[..k])
    {
      TakeOneMore(more, k);
      all := AppendUnique(all, Some(more[k]));
    }
    assert more[..|more|] == more;
  }

  /** `_extract_from_lines` */
  method ExtractFromLines(p: Patterns, lines: seq<string>) returns (e: Extraction)
    ensures e == Extract(p, lines)
  {
    var visible := Visibles(p, lines);
    var header := FindHeader(p, visible);
    var finished := Finished(p, visible);
    var announced: Option<nat> := None;
    if finished { announced := AnnouncedFailureCount(p, LastLine(visible).value); }
    var errored, reason := ScanErrors(p, visible, header);
    var launcher := LauncherReason(p, visible, finished);
    if reason.None? && launcher.Some? { reason := Some("raw log fallback: " + launcher.value); }
    e := Conclude(p, visible, header, finished, announced, errored, reason);
  }

  method Conclude(p: Patterns, visible: seq<string>, header: Option<nat>, finished: bool, announced: Option<nat>,
                  errored: seq<string>, reason: Option<string>) returns (e: Extraction)
    requires header.Some? ==> header.value < |visible|
    ensures e == Concluded(p, visible, header, finished, announced, errored, reason)
  {
    if header.None? {
      if finished && announced == Some(0) && errored == [] && reason.None? { return Extraction(true, [], [], None); }
      return Extraction(false, [], errored, reason);
    }
    e := ReadSummary(p, visible, header.value, finished, announced, errored, reason);
  }

  /** The second half of the extraction: the summary region after the header at `header`. */
  method ReadSummary(p: Patterns, visible: seq<string>, header: nat, finished: bool, announced: Option<nat>,
                     early: seq<string>, reason: Option<string>) returns (e: Extraction)
    requires header < |visible|
    ensures e == Summarised(RegionOf(p, visible[header + 1..]), finished, announced, early, reason)
  {
    var region := IdsFromSummaryRegion(p, visible[header + 1..]);
    var errored := AppendEach(early, region.errored);
    if region.malformed || !finished || announced.None? || announced != Some(|region.ids|) {
      return Extraction(false, [], errored, reason);
    }
    e := Extraction(true, region.ids, errored, reason);
  }

  lemma {:induction false} EarlyErrorsClean(p: Patterns, lines: seq<string>, n: nat)
    requires n <= |lines|
    ensures CleanTexts(EarlyErrors(p, lines, n))
  {
    if n > 0 {
      EarlyErrorsClean(p, lines, n - 1);
      var id := NonSummaryErrorId(p, lines[n - 1]);
      if id.Some? { ListedIsClean(p, lines[n - 1], id.value); }
    }
  }

  lemma {:induction false} AppendAllMembers(s: seq<string>, xs: seq<string>)
    ensures forall x :: x in AppendAll(s, xs) <==> x in s || x in xs
  {
    if xs != [] {
      AppendAllMembers(s, xs[..|xs| - 1]);
      assert xs == xs[..|xs| - 1] + [xs[|xs| - 1]];
    }
  }

  /** Everything read from a log is clean text. */
  ghost predicate CleanTexts(xs: seq<string>) { forall x :: x in xs ==> Strip(x) == x && Visible(x) }

  lemma RegionClean(p: Patterns, region: seq<string>)
    ensures CleanTexts(RegionOf(p, region).ids) && CleanTexts(RegionOf(p, region).errored)
  {
    RegionExact(p, region);
    forall x | ListedIn(p, region, x) ensures Strip(x) == x && Visible(x) {
      var line :| line in region && Lists(p, line, x);
      ListedIsClean(p, p.visible(line), x);
    }
  }

  /** What an extraction says about the summary region `region` of a log. */
  ghost predicate Faithful(p: Patterns, e: Extraction, region: seq<string>) {
    && CleanTexts(e.errored) && CleanTexts(e.ids)
    && (e.extracted ==> e.ids == RegionOf(p, region).ids)
    && (e.extracted ==>
          AllDistinct(e.ids) && (forall x :: x in e.ids <==> ListedIn(p, region, x)) && !AnyMalformed(p, region))
    && forall x :: FirstListedAsError(p, region, x) ==> x in e.errored
  }

  lemma SummarisedFaithful(p: Patterns, region: seq<string>, finished: bool, announced: Option<nat>, early: seq<string>,
                           reason: Option<string>)
    requires CleanTexts(early)
    ensures Faithful(p, Summarised(RegionOf(p, region), finished, announced, early, reason), region)
  {
    RegionExact(p, region);
    RegionClean(p, region);
    AppendAllMembers(early, RegionOf(p, region).errored);
  }

  lemma ConcludedExact(p: Patterns, visible: seq<string>, header: Option<nat>, finished: bool, announced: Option<nat>,
                       early: seq<string>, reason: Option<string>, e: Extraction, region: seq<string>)
    requires (header.Some? ==> header.value < |visible|) && CleanTexts(early)
    requires e == Concluded(p, visible, header, finished, announced, early, reason)
    requires region == if header.None? then [] else visible[header.value + 1..]
    ensures Faithful(p, e, region)
    ensures e.extracted ==> finished && announced == Some(|e.ids|)
  {
    if header.Some? {
      SummarisedFaithful(p, visible[header.value + 1..], finished, announced, early, reason);
    } else {
      NothingListed(p);
    }
  }

  lemma NothingListed(p: Patterns)
    ensures RegionOf(p, []) == Region([], [], false)
    ensures (forall x :: !ListedIn(p, [], x) && !FirstListedAsError(p, [], x)) && !AnyMalformed(p, [])
  {
    RegionExact(p, []);
  }

  /** What an extraction's lists hold, in terms of the log's own lines. */
  lemma ExtractExact(p: Patterns, lines: seq<string>)
    ensures Faithful(p, Extract(p, lines), SummaryRegion(p, Visibles(p, lines)))
    ensures var e, visible := Extract(p, lines), Visibles(p, lines);
            e.extracted ==> Finished(p, visible) && Announced(p, LastLine(visible).value) == Some(|e.ids|)
  {
    var visible := Visibles(p, lines);
    var header := LastHeader(p, visible);
    var finished := Finished(p, visible);
    var announced := if finished then Announced(p, LastLine(visible).value) else None;
    var n := if header.Some? then header.value else |visible|;
    var early := EarlyErrors(p, visible, n);
    var reason := ReasonOf(FirstInternal(p, visible), LauncherReason(p, visible, finished));
    EarlyErrorsClean(p, visible, n);
    ConcludedExact(p, visible, header, finished, announced, early, reason, Extract(p, lines),
                   SummaryRegion(p, visible));
  }

  // ---------- binding ----------

  datatype Binding = Bound | Mismatch | Unmeasured

  datatype SideData = SideData(ids: seq<string>, binding: Binding, errored: seq<string>, reason: Option<string>)

  /** One side's texts as snapshots, split into lines; None when the file was not given or not read. */
  datatype SideText = SideText(raw: Option<seq<string>>, ids: Option<seq<string>>)

  /** `_failure_data_bound_from_text` */
  function FailureData(p: Patterns, side: SideText): SideData {
    if side.raw.None? then SideData([], Unmeasured, [], None)
    else
      var e := Extract(p, side.raw.value);
      if !e.extracted || side.ids.None? then SideData([], Unmeasured, e.errored, e.reason)
      else SideData(e.ids, if NormIds(e.ids) != NormIds(side.ids.value) then Mismatch else Bound, e.errored, e.reason)
  }

  /** Both id lists, stripped and with checkouts replaced, name the same failures. */
  ghost predicate SameIds(a: seq<string>, b: seq<string>) { forall x :: x in NormIds(a) <==> x in NormIds(b) }

  /** A side's ids file is bound to its log exactly if the log could be extracted and both list the same ids. */
  lemma BindingExact(p: Patterns, side: SideText)
    ensures var d := FailureData(p, side);
      && (d.binding == Bound <==> Binds(p, side))
      && (d.binding == Mismatch <==> side.raw.Some? && side.ids.Some? && Extract(p, side.raw.value).extracted
                                     && !SameIds(Extract(p, side.raw.value).ids, side.ids.value))
  {
    if side.raw.Some? && side.ids.Some? {
      var e := Extract(p, side.raw.value);
      assert NormIds(e.ids) == NormIds(side.ids.value) <==> SameIds(e.ids, side.ids.value);
    }
  }

  ghost predicate Binds(p: Patterns, side: SideText) {
    && side.raw.Some? && side.ids.Some? && Extract(p, side.raw.value).extracted
    && SameIds(Extract(p, side.raw.value).ids, side.ids.value)
  }

  predicate SuiteExecuted(p: Patterns, lines: seq<string>) {
    var last := LastLine(Visibles(p, lines));
    last.Some? && p.isCounts(last.value) && !p.noTestsRan(last.value) && ExecutedCount(p.counts(last.value)) > 0
  }

  function ExecutedCount(counts: seq<(nat, string)>): nat {
    if counts == [] then 0
    else
      var ran := counts[0].1 in {"passed", "failed", "error", "errors", "xfailed", "xpassed"};
      (if ran then counts[0].0 else 0) + ExecutedCount(counts[1..])
  }

  /** A count of passed, failed, errored or unexpectedly ended tests; skipped, deselected and warned ones are none. */
  ghost predicate CountsARun(pair: (nat, string)) {
    pair.0 > 0 && (pair.1 == "passed" || pair.1 == "failed" || pair.1 == "error" || pair.1 == "errors"
                   || pair.1 == "xfailed" || pair.1 == "xpassed")
  }

  /** The last line counts some test that ran. */
  ghost predicate SomeTestRan(p: Patterns, lines: seq<string>) {
    var last := LastLine(Visibles(p, lines));
    && last.Some? && p.isCounts(last.value) && !p.noTestsRan(last.value)
    && exists k :: 0 <= k < |p.counts(last.value)| && CountsARun(p.counts(last.value)[k])
  }

  lemma {:induction false} ExecutedIff(counts: seq<(nat, string)>)
    ensures ExecutedCount(counts) > 0 <==> exists k :: 0 <= k < |counts| && CountsARun(counts[k])
  {
    if counts != [] {
      ExecutedIff(counts[1..]);
      assert forall k :: 0 <= k < |counts| - 1 ==> counts[1..][k] == counts[k + 1];
      if k :| 0 <= k < |counts| && CountsARun(counts[k]) && k > 0 { assert counts[1..][k - 1] == counts[k]; }
    }
  }

  lemma ExecutedExact(p: Patterns, lines: seq<string>)
    ensures SuiteExecuted(p, lines) <==> SomeTestRan(p, lines)
  {
    var last := LastLine(Visibles(p, lines));
    if last.Some? { ExecutedIff(p.counts(last.value)); }
  }

  predicate SideIs(p: Patterns, side: SideText, binding: Binding) {
    side.raw.Some? && FailureData(p, side).binding == binding
  }

  predicate SomeSideIs(p: Patterns, sides: seq<SideText>, binding: Binding) {
    exists side :: side in sides && SideIs(p, side, binding)
  }

  function BoundMeasurement(p: Patterns, measured: string, sides: seq<SideText>): string {
    if SomeSideIs(p, sides, Mismatch) then "ids_mismatched"
    else if SomeSideIs(p, sides, Unmeasured) then "incomplete"
    else measured
  }

  /** `_measurement_with_id_binding`: the two sides in order, those with a raw log only. */
  method WithIdBinding(p: Patterns, measured: string, sides: seq<SideText>) returns (outcome: string)
    ensures outcome == BoundMeasurement(p, measured, sides)
  {
    var mismatched, unmeasured := false, false;
    for i := 0 to |sides|
      invariant mismatched <==> SomeSideIs(p, sides[..i], Mismatch)
      invariant unmeasured <==> SomeSideIs(p, sides[..i], Unmeasured)
    {
      NextSide(p, sides, i);
      if sides[i].raw.None? { continue; }
      var status := FailureData(p, sides[i]).binding;
      if status == Mismatch { mismatched := true; } else if status == Unmeasured { unmeasured := true; }
    }
    assert sides[..|sides|] == sides;
    if mismatched { return "ids_mismatched"; }
    if unmeasured { return "incomplete"; }
    outcome := measured;
  }

  lemma NextSide(p: Patterns, sides: seq<SideText>, i: nat)
    requires i < |sides|
    ensures forall st :: SomeSideIs(p, sides[..i + 1], st) <==> SomeSideIs(p, sides[..i], st) || SideIs(p, sides[i], st)
  {
    TakeOneMore(sides, i);
  }

  // ---------- the verdict ----------

  function OutcomeName(d: DiffOutcome): string {
    match d
    case ZeroRegression => "zero_regression"
    case Regressed => "regressed"
    case IdsNotMeasured => "ids_not_measured"
    case Errored => "errored"
  }

  /** The outcomes of the probes this model takes as given. */
  datatype Probes = Probes(freshness: string, environment: string, measured: string, scope: string)

  datatype Report = Report(outcome: string, mergeable: bool, measurement: string, diff: Diff)

  function FirstUnmet(pairs: seq<(string, string)>): string
    requires pairs != []
  {
    if pairs[0].0 != pairs[0].1 || |pairs| == 1 then pairs[0].0 else FirstUnmet(pairs[1..])
  }

  /** `gate_report` over the five named outcomes. */
  function Verdict(freshness: string, env: string, measure: string, scope: string, diff: string): (r: (string, bool))
    ensures r.1 <==>
      && freshness == "current" && env == "consistent" && measure == "complete"
      && scope == "comparable" && diff == "zero_regression"
    ensures r.0 == if freshness != "current" then freshness else if env != "consistent" then env
                   else if measure != "complete" then measure else if scope != "comparable" then scope else diff
  {
    var last := [(diff, "zero_regression")];
    var scoped := [(scope, "comparable")] + last;
    var measured := [(measure, "complete")] + scoped;
    var placed := [(env, "consistent")] + measured;
    var pairs := [(freshness, "current")] + placed;
    assert pairs[1..] == placed && placed[1..] == measured && measured[1..] == scoped && scoped[1..] == last;
    assert FirstUnmet(last) == diff && FirstUnmet(scoped) == if scope != "comparable" then scope else diff;
    assert FirstUnmet(measured) == if measure != "complete" then measure else FirstUnmet(scoped);
    assert FirstUnmet(placed) == if env != "consistent" then env else FirstUnmet(measured);
    var ok := freshness == "current" && env == "consistent" && measure == "complete" && diff == "zero_regression";
    (FirstUnmet(pairs), ok && scope == "comparable")
  }

  ghost function ReportOf(p: Patterns, baseline: SideText, subject: SideText, probes: Probes): Report {
    var measurement := BoundMeasurement(p, probes.measured, [baseline, subject]);
    var diff := DiffOf(p, baseline, subject);
    var verdict := Verdict(probes.freshness, probes.environment, measurement, probes.scope, OutcomeName(diff.outcome));
    Report(verdict.0, verdict.1, measurement, diff)
  }

  /** The differential of the two sides; a side whose ids are not bound counts as listing none. */
  ghost function DiffOf(p: Patterns, baseline: SideText, subject: SideText): Diff {
    var b, s := FailureData(p, baseline), FailureData(p, subject);
    var executed := s.binding == Bound && subject.raw.Some? && SuiteExecuted(p, subject.raw.value);
    var baselineIds := if b.binding == Bound then b.ids else [];
    var subjectIds := if s.binding == Bound then s.ids else [];
    FailureIdDiff(baselineIds, subjectIds, executed, b.errored, s.errored, s.reason)
  }

  lemma ReportMergeable(p: Patterns, baseline: SideText, subject: SideText, probes: Probes)
    ensures ReportOf(p, baseline, subject, probes).mergeable <==>
      && probes.freshness == "current" && probes.environment == "consistent" && probes.scope == "comparable"
      && BoundMeasurement(p, probes.measured, [baseline, subject]) == "complete"
      && DiffOf(p, baseline, subject).outcome == ZeroRegression
  {
  }

  lemma DiffWhenBound(p: Patterns, baseline: SideText, subject: SideText)
    requires baseline.raw.Some? && subject.raw.Some?
    requires FailureData(p, baseline).binding == Bound && FailureData(p, subject).binding == Bound
    ensures DiffOf(p, baseline, subject).outcome == ZeroRegression <==>
      NothingNew(Extract(p, baseline.raw.value), Extract(p, subject.raw.value), SuiteExecuted(p, subject.raw.value))
  {
    var b, s := Extract(p, baseline.raw.value), Extract(p, subject.raw.value);
    ExtractExact(p, baseline.raw.value);
    ExtractExact(p, subject.raw.value);
    ZeroRegressionOfExtractions(b, s, SuiteExecuted(p, subject.raw.value));
    BoundIsExtracted(p, baseline);
    BoundIsExtracted(p, subject);
  }

  lemma BoundIsExtracted(p: Patterns, side: SideText)
    requires side.raw.Some? && FailureData(p, side).binding == Bound
    ensures var d, e := FailureData(p, side), Extract(p, side.raw.value);
            e.extracted && d.ids == e.ids && d.errored == e.errored && d.reason == e.reason
  {
  }

  lemma BothBound(p: Patterns, baseline: SideText, subject: SideText, measured: string)
    requires baseline.raw.Some? && subject.raw.Some?
    ensures BoundMeasurement(p, measured, [baseline, subject]) == "complete" <==>
              measured == "complete" && FailureData(p, baseline).binding == Bound
                && FailureData(p, subject).binding == Bound
  {
    TwoSides(p, baseline, subject, Mismatch);
    TwoSides(p, baseline, subject, Unmeasured);
  }

  lemma TwoSides(p: Patterns, baseline: SideText, subject: SideText, st: Binding)
    ensures SomeSideIs(p, [baseline, subject], st) <==> SideIs(p, baseline, st) || SideIs(p, subject, st)
  {
    assert forall side :: side in [baseline, subject] <==> side == baseline || side == subject;
  }

  lemma CleanIds(ids: seq<string>)
    requires forall x :: x in ids ==> Strip(x) == x && Visible(x)
    ensures forall x :: x in Cleaned(ids) <==> x in ids
    ensures NormIds(ids) == {} <==> ids == []
  {
    forall x | x in ids ensures x in Cleaned(ids) { assert Strip(x) == x; }
    if ids != [] {
      assert ids[0] in ids && Normalize(ids[0]) in NormIds(ids);
    } else {
      assert Cleaned(ids) == {};
    }
  }

  /** An id the subject lists is covered when the baseline has it as FAILED, up to the checkout token. */
  ghost predicate Covered(x: string, baseline: Extraction) {
    exists b :: b in baseline.ids && Normalize(b) == Normalize(x) && Normalize(b) !in NormIds(baseline.errored)
  }

  /** Nothing errored in the subject, its failures are covered, and where it lists none, tests ran. */
  ghost predicate NothingNew(b: Extraction, s: Extraction, executed: bool) {
    && s.errored == [] && !HasReason(StripReason(s.reason)) && (s.ids == [] ==> executed)
    && forall x :: x in s.ids ==> Covered(x, b)
  }

  /** All four probes pass, both logs yield the ids supplied with them, nothing errored in the subject, and each of its
      failures is covered; where it lists none, tests ran. */
  ghost predicate Mergeable(p: Patterns, baseline: SideText, subject: SideText, probes: Probes) {
    && probes == Probes("current", "consistent", "complete", "comparable")
    && baseline.raw.Some? && subject.raw.Some?
    && FailureData(p, baseline).binding == Bound && FailureData(p, subject).binding == Bound
    && NothingNew(Extract(p, baseline.raw.value), Extract(p, subject.raw.value),
                  SuiteExecuted(p, subject.raw.value))
  }

  /** The verdict, exactly: which pairs of logs and probe outcomes are mergeable. */
  lemma MergeableIff(p: Patterns, baseline: SideText, subject: SideText, probes: Probes)
    requires probes.measured == "complete" ==> baseline.raw.Some? && subject.raw.Some?
    ensures ReportOf(p, baseline, subject, probes).mergeable <==> Mergeable(p, baseline, subject, probes)
  {
    ReportMergeable(p, baseline, subject, probes);
    if baseline.raw.Some? && subject.raw.Some? {
      BothBound(p, baseline, subject, probes.measured);
      if FailureData(p, baseline).binding == Bound && FailureData(p, subject).binding == Bound {
        DiffWhenBound(p, baseline, subject);
      }
    } else {
      NotBoth(p, baseline, subject, probes.measured);
    }
  }

  /** `_run_gate_report`: rebinds each side's ids when its binding failed, then combines the probes. Measurement is
      complete only where both logs were given. */
  method RunGateReport(p: Patterns, baseline: SideText, subject: SideText, probes: Probes) returns (report: Report)
    requires probes.measured == "complete" ==> baseline.raw.Some? && subject.raw.Some?
    ensures report == ReportOf(p, baseline, subject, probes)
    ensures report.mergeable <==> Mergeable(p, baseline, subject, probes)
    ensures ReportSays(p, baseline, subject, report.diff) && OutcomeSays(report, probes)
  {
    var measurement := WithIdBinding(p, probes.measured, [baseline, subject]);
    var b, s := FailureData(p, baseline), FailureData(p, subject);
    var baselineIds, subjectIds := b.ids, s.ids;
    if b.binding != Bound { baselineIds := []; }
    if s.binding != Bound { subjectIds := []; }
    var executed := s.binding == Bound && subject.raw.Some? && SuiteExecuted(p, subject.raw.value);
    var diff := FailureIdDiff(baselineIds, subjectIds, executed, b.errored, s.errored, s.reason);
    var verdict := Verdict(probes.freshness, probes.environment, measurement, probes.scope, OutcomeName(diff.outcome));
    report := Report(verdict.0, verdict.1, measurement, diff);
    MergeableIff(p, baseline, subject, probes);
    ReportIsExact(p, baseline, subject);
  }

  /** The first probe that is not in order names the outcome; if all are, the differential does. */
  ghost predicate OutcomeSays(r: Report, probes: Probes) {
    if probes.freshness != "current" then r.outcome == probes.freshness
    else if probes.environment != "consistent" then r.outcome == probes.environment
    else if r.measurement != "complete" then r.outcome == r.measurement
    else if probes.scope != "comparable" then r.outcome == probes.scope
    else
      && (r.outcome == "zero_regression" <==> r.diff.outcome == ZeroRegression)
      && (r.outcome == "regressed" <==> r.diff.outcome == Regressed)
      && (r.outcome == "ids_not_measured" <==> r.diff.outcome == IdsNotMeasured)
      && (r.outcome == "errored" <==> r.diff.outcome == Errored)
  }

  /** The differential of a report, on the ids of the sides whose ids file matches their log. */
  ghost predicate ReportSays(p: Patterns, baseline: SideText, subject: SideText, d: Diff) {
    var b, s := FailureData(p, baseline), FailureData(p, subject);
    var executed := s.binding == Bound && subject.raw.Some? && SomeTestRan(p, subject.raw.value);
    DiffSays(d, if b.binding == Bound then b.ids else [], if s.binding == Bound then s.ids else [], executed,
             b.errored, s.errored, s.reason)
  }

  lemma ReportIsExact(p: Patterns, baseline: SideText, subject: SideText)
    ensures ReportSays(p, baseline, subject, DiffOf(p, baseline, subject))
  {
    var b, s := FailureData(p, baseline), FailureData(p, subject);
    var executed := s.binding == Bound && subject.raw.Some? && SuiteExecuted(p, subject.raw.value);
    if subject.raw.Some? { ExecutedExact(p, subject.raw.value); }
    DiffExact(if b.binding == Bound then b.ids else [], if s.binding == Bound then s.ids else [], executed,
              b.errored, s.errored, s.reason);
  }

  lemma ZeroRegressionOfExtractions(b: Extraction, s: Extraction, executed: bool)
    requires forall x :: x in b.ids || x in s.ids || x in s.errored ==> Strip(x) == x && Visible(x)
    ensures FailureIdDiff(b.ids, s.ids, executed, b.errored, s.errored, s.reason).outcome == ZeroRegression <==>
      NothingNew(b, s, executed)
  {
    CleanIds(b.ids);
    CleanIds(s.ids);
    CleanIds(s.errored);
    ZeroRegressionIff(b.ids, s.ids, executed, b.errored, s.errored, s.reason);
    forall x ensures Covered(x, b) <==>
      exists c :: c in Cleaned(b.ids) && Normalize(c) == Normalize(x) && Normalize(c) !in NormIds(b.errored) {}
    assert s.ids != [] ==> s.ids[0] in Cleaned(s.ids);
  }

  lemma NotBoth(p: Patterns, baseline: SideText, subject: SideText, measured: string)
    requires measured != "complete"
    ensures BoundMeasurement(p, measured, [baseline, subject]) != "complete"
  {
  }

  /** An internal error line is never blank, as pytest's `INTERNALERROR` prefix makes it. */
  ghost predicate InternalsShow(p: Patterns) { forall l :: p.isInternal(l) ==> Visible(l) }

  /** No line of the log is an internal error, and none before the summary (none at all without one) names a test or
      file that failed to be collected, set up or torn down. */
  ghost predicate NothingBroke(p: Patterns, log: seq<string>) {
    && (forall i :: 0 <= i < |log| ==> !p.isInternal(log[i]))
    && forall i :: 0 <= i < |log| && (LastHeader(p, log).Some? ==> i < LastHeader(p, log).value) ==>
         NonSummaryErrorId(p, log[i]).None?
  }

  lemma NoReasonNoInternal(inner: Option<string>, launcher: Option<string>)
    requires inner.Some? ==> Visible(inner.value)
    requires !HasReason(StripReason(ReasonOf(inner, launcher)))
    ensures inner.None?
  {
  }

  lemma CleanExtractionMeansNothingBroke(p: Patterns, lines: seq<string>)
    requires InternalsShow(p) && Extract(p, lines).errored == [] && !HasReason(StripReason(Extract(p, lines).reason))
    ensures NothingBroke(p, Visibles(p, lines))
  {
    var log := Visibles(p, lines);
    var header, finished := LastHeader(p, log), Finished(p, log);
    var n := if header.Some? then header.value else |log|;
    var early, reason := EarlyErrors(p, log, n), ReasonOf(FirstInternal(p, log), LauncherReason(p, log, finished));
    var announced := if finished then Announced(p, LastLine(log).value) else None;
    EarlyErrorsExact(p, log, n);
    FirstInternalExact(p, log);
    ConcludedKeeps(p, log, header, finished, announced, early, reason);
    assert Extract(p, lines) == Concluded(p, log, header, finished, announced, early, reason);
    forall i | 0 <= i < n ensures NonSummaryErrorId(p, log[i]).None? {
      var id := NonSummaryErrorId(p, log[i]);
      assert id.Some? ==> ReportedEarly(p, log, n, id.value);
    }
    NoReasonNoInternal(FirstInternal(p, log), LauncherReason(p, log, finished));
  }

  /** The explicit errors and the reason of a log survive to its extraction. */
  lemma ConcludedKeeps(p: Patterns, log: seq<string>, header: Option<nat>, finished: bool, announced: Option<nat>,
                       early: seq<string>, reason: Option<string>)
    requires header.Some? ==> header.value < |log|
    ensures var e := Concluded(p, log, header, finished, announced, early, reason);
            e.reason == reason && (e.errored == [] ==> early == [])
  {
    if header.Some? {
      var more := RegionOf(p, log[header.value + 1..]).errored;
      AppendAllMembers(early, more);
      assert early != [] ==> early[0] in AppendAll(early, more);
    }
  }

  /** One failure the subject lists is a FAILED one of the baseline's own summary, up to the checkout token. */
  ghost predicate KnownFailure(p: Patterns, region: seq<string>, x: string) {
    exists b :: ListedIn(p, region, b) && Normalize(b) == Normalize(x) && !FirstListedAsError(p, region, b)
  }

  // ---------- status lines ----------

  /** The id a line lists. */
  function Lister(p: Patterns): string -> Option<string> {
    line =>
      var l := p.visible(line);
      if Skipped(p, l) || StatusId(p, l).None? then None else StatusId(p, l).value
  }

  /** How many of the first n lines read as something. */
  ghost function ReadCount(read: string -> Option<string>, lines: seq<string>, n: nat): nat
    requires n <= |lines|
  {
    if n == 0 then 0 else ReadCount(read, lines, n - 1) + if read(lines[n - 1]).Some? then 1 else 0
  }

  /** Number of lines of the summary that list an id. */
  ghost function StatusLines(p: Patterns, region: seq<string>): nat { ReadCount(Lister(p), region, |region|) }

  /** No repeats are collected, so there are as many as lines read only if no line repeats an earlier one. */
  lemma {:induction false} NoRepeats(read: string -> Option<string>, lines: seq<string>, n: nat)
    requires n <= |lines|
    ensures |Collect(read, lines, n)| <= ReadCount(read, lines, n)
    ensures |Collect(read, lines, n)| == ReadCount(read, lines, n) ==>
      forall i, j :: 0 <= j < i < n && read(lines[i]).Some? ==> read(lines[j]) != read(lines[i])
  {
    if n > 0 {
      NoRepeats(read, lines, n - 1);
      CollectExact(read, lines, n - 1);
      var x := read(lines[n - 1]);
      if x.Some? && |Collect(read, lines, n)| == ReadCount(read, lines, n) {
        assert !Reported(read, lines, n - 1, x.value);
      }
    }
  }

  lemma {:induction false} RegionCollects(p: Patterns, lines: seq<string>, n: nat)
    requires n <= |lines|
    ensures RegionOf(p, lines[..n]).ids == Collect(Lister(p), lines, n)
  {
    if n > 0 {
      var k := n - 1;
      RegionCollects(p, lines, k);
      LineCollects(p, RegionOf(p, lines[..k]), lines[k]);
      RegionNext(p, lines, k, n);
      CollectNextTo(Lister(p), lines, k, n);
    } else {
      assert lines[..0] == [];
    }
  }

  lemma CollectNextTo(read: string -> Option<string>, lines: seq<string>, n: nat, next: nat)
    requires n < |lines| && next == n + 1
    ensures Collect(read, lines, next) == AppendUnique(Collect(read, lines, n), read(lines[n]))
  {
  }

  lemma RegionNext(p: Patterns, lines: seq<string>, n: nat, next: nat)
    requires n < |lines| && next == n + 1
    ensures RegionOf(p, lines[..next]) == ReadLine(p, RegionOf(p, lines[..n]), lines[n])
  {
    TakeOneMore(lines, n);
  }

  lemma LineCollects(p: Patterns, r: Region, line: string)
    ensures ReadLine(p, r, line).ids == AppendUnique(r.ids, Lister(p)(line))
  {
  }

  lemma {:induction false} FirstListing(p: Patterns, lines: seq<string>, i: nat, x: string)
    requires i < |lines| && Lists(p, lines[i], x) && IsErrorLine(p.visible(lines[i]))
    requires forall j :: 0 <= j < i ==> !Lists(p, lines[j], x)
    ensures FirstListedAsError(p, lines, x)
    decreases |lines|
  {
    var init := lines[..|lines| - 1];
    if i < |lines| - 1 {
      assert init[i] == lines[i] && init[i] in init;
      assert forall j :: 0 <= j < i ==> init[j] == lines[j];
      FirstListing(p, init, i, x);
      assert ListedIn(p, init, x);
    } else {
      forall line | line in init ensures !Lists(p, line, x) {
        var j :| 0 <= j < |init| && init[j] == line;
        assert lines[j] == line;
      }
    }
  }

  /** No status line of the summary begins with ERROR. */
  ghost predicate NoErrorLines(p: Patterns, region: seq<string>) {
    forall i, x :: 0 <= i < |region| && Lists(p, region[i], x) ==> !IsErrorLine(p.visible(region[i]))
  }

  /** With as many distinct ids as status lines and none first listed as an error, there is no ERROR line. */
  lemma TightMeansNoErrors(p: Patterns, region: seq<string>)
    requires |RegionOf(p, region).ids| == StatusLines(p, region)
    requires forall x :: !FirstListedAsError(p, region, x)
    ensures NoErrorLines(p, region)
  {
    assert region[..|region|] == region;
    RegionCollects(p, region, |region|);
    NoRepeats(Lister(p), region, |region|);
    forall i, x | 0 <= i < |region| && Lists(p, region[i], x) ensures !IsErrorLine(p.visible(region[i])) {
      ListedOnce(p, region, i, x);
    }
  }

  lemma ListedOnce(p: Patterns, region: seq<string>, i: nat, x: string)
    requires i < |region| && Lists(p, region[i], x) && !FirstListedAsError(p, region, x)
    requires forall i, j :: 0 <= j < i < |region| && Lister(p)(region[i]).Some? ==>
      Lister(p)(region[j]) != Lister(p)(region[i])
    ensures !IsErrorLine(p.visible(region[i]))
  {
    forall line ensures Lists(p, line, x) <==> Lister(p)(line) == Some(x) { ListsIsLister(p, line, x); }
    assert forall j :: 0 <= j < i ==> Lister(p)(region[j]) != Lister(p)(region[i]);
    if IsErrorLine(p.visible(region[i])) { FirstListing(p, region, i, x); }
  }

  lemma ListsIsLister(p: Patterns, line: string, x: string)
    ensures Lists(p, line, x) <==> Lister(p)(line) == Some(x)
  {
  }

  // ---------- what a mergeable verdict means ----------

  /** Every id the subject's summary lists, failed or errored, is a FAILED id of the baseline modulo the checkout token
      and is listed there. */
  ghost predicate AllKnown(p: Patterns, baseline: seq<string>, subject: seq<string>) {
    var region := SummaryRegion(p, Visibles(p, baseline));
    forall x :: ListedIn(p, SummaryRegion(p, Visibles(p, subject)), x) ==>
      Covered(x, Extract(p, baseline)) && KnownFailure(p, region, x)
  }

  /** No status line of the log is unreadable; an ERROR line can only repeat an id already listed as FAILED, and where
      the log announces as many failures as it has status lines there is none; the announced count is the number of
      distinct listed ids; an empty list comes with proof that tests ran. */
  ghost predicate Reconciles(p: Patterns, lines: seq<string>) {
    var log := Visibles(p, lines);
    var region, ids := SummaryRegion(p, log), Extract(p, lines).ids;
    && !AnyMalformed(p, region) && (forall x :: !FirstListedAsError(p, region, x))
    && AllDistinct(ids) && (forall x :: x in ids <==> ListedIn(p, region, x))
    && Finished(p, log) && Announces(p, LastLine(log).value, |ids|)
    && (Announces(p, LastLine(log).value, StatusLines(p, region)) ==> NoErrorLines(p, region))
    && (ids == [] ==> SomeTestRan(p, lines))
  }

  /** What `mergeable` says about the two logs themselves. Beside that, nothing broke outside the subject's summary. */
  lemma MergeableMeans(p: Patterns, baseline: SideText, subject: SideText, probes: Probes)
    requires probes.measured == "complete" ==> baseline.raw.Some? && subject.raw.Some?
    requires ReportOf(p, baseline, subject, probes).mergeable
    ensures baseline.raw.Some? && subject.raw.Some? && probes.measured == "complete"
    ensures AllKnown(p, baseline.raw.value, subject.raw.value)
    ensures Reconciles(p, subject.raw.value)
    ensures InternalsShow(p) ==> NothingBroke(p, Visibles(p, subject.raw.value))
  {
    MergeableIff(p, baseline, subject, probes);
    ExtractExact(p, baseline.raw.value);
    ExtractExact(p, subject.raw.value);
    if InternalsShow(p) { CleanExtractionMeansNothingBroke(p, subject.raw.value); }
    var sLog := Visibles(p, subject.raw.value);
    var region := SummaryRegion(p, sLog);
    forall x | ListedIn(p, region, x)
      ensures Covered(x, Extract(p, baseline.raw.value))
      ensures KnownFailure(p, SummaryRegion(p, Visibles(p, baseline.raw.value)), x)
    {
      assert x in Extract(p, subject.raw.value).ids;
      CoveredIsKnown(p, baseline.raw.value, x);
    }
    AnnouncedIff(p, LastLine(sLog).value, |Extract(p, subject.raw.value).ids|);
    AnnouncedIff(p, LastLine(sLog).value, StatusLines(p, region));
    ExecutedExact(p, subject.raw.value);
    if Announced(p, LastLine(sLog).value) == Some(StatusLines(p, region)) { TightMeansNoErrors(p, region); }
  }

  lemma CoveredIsKnown(p: Patterns, lines: seq<string>, x: string)
    requires Extract(p, lines).extracted && Covered(x, Extract(p, lines))
    ensures KnownFailure(p, SummaryRegion(p, Visibles(p, lines)), x)
  {
    ExtractExact(p, lines);
    var e, region := Extract(p, lines), SummaryRegion(p, Visibles(p, lines));
    CleanIds(e.errored);
    var b :| b in e.ids && Normalize(b) == Normalize(x) && Normalize(b) !in NormIds(e.errored);
    assert b in Cleaned(e.errored) ==> Normalize(b) in NormIds(e.errored);
    assert ListedIn(p, region, b);
  }
}

/** Failure ids: checkout-token normalisation and the differential between two runs. */
module FailureIds {
  import opened Text

  const TOKEN := "[CHECKOUT]"

  /** Length of the match of `\[workbay(?:-wb-[^\]]*)?\]` at the start of s, 0 for none. */
  function MatchLength(s: string): (n: nat)
    ensures n <= |s| && (n > 0 ==> n >= 9 && s[0] == '[' && s[n - 1] == ']')
  {
    if !StartsWith(s, "[workbay") then 0
    else if StartsWith(s[8..], "]") then 9
    else if StartsWith(s[8..], "-wb-") && ']' in s[12..] then 12 + FirstClose(s[12..]) + 1
    else 0
  }

  function FirstClose(s: string): (i: nat)
    requires ']' in s
    ensures i < |s| && s[i] == ']' && ']' !in s[..i]
  {
    if s[0] == ']' then 0
    else
      assert s == [s[0]] + s[1..];
      var i := FirstClose(s[1..]);
      assert s[..i + 1] == [s[0]] + s[1..][..i];
      i + 1
  }

  /** `normalize_failure_id`: leftmost, non-overlapping replacement. */
  function Normalize(s: string): string
    decreases |s|
  {
    if s == "" then ""
    else if MatchLength(s) > 0 then TOKEN + Normalize(s[MatchLength(s)..])
    else [s[0]] + Normalize(s[1..])
  }

  ghost predicate HasMatch(s: string) { exists i :: 0 <= i <= |s| && MatchLength(s[i..]) > 0 }

  lemma StartsByOne(s: string, w: string)
    requires s != "" && w != ""
    ensures StartsWith(s, w) <==> s[0] == w[0] && StartsWith(s[1..], w[1..])
    ensures StartsWith(s, w) ==> s[|w|..] == s[1..][|w| - 1..]
  {
    assert w == [w[0]] + w[1..];
    if |w| <= |s| { assert s[..|w|] == [s[0]] + s[1..][..|w| - 1]; }
  }

  /** Replacement neither makes nor removes a leading word without an opening bracket. */
  lemma {:induction false} NormalizeKeepsWord(s: string, w: string)
    requires '[' !in w
    ensures StartsWith(Normalize(s), w) <==> StartsWith(s, w)
    ensures StartsWith(s, w) ==> Normalize(s)[|w|..] == Normalize(s[|w|..])
  {
    if w == "" {
      assert s[0..] == s && Normalize(s)[0..] == Normalize(s);
    } else if s != "" && MatchLength(s) == 0 {
      NormalizeKeepsWord(s[1..], w[1..]);
      assert Normalize(s)[1..] == Normalize(s[1..]);
      StartsByOne(s, w);
      StartsByOne(Normalize(s), w);
    } else {
      var n := Normalize(s);
      assert s != "" ==> n[0] == s[0] == '[';
      assert w[0] in w;
      StartsAt(s, w, 0);
      StartsAt(n, w, 0);
    }
  }

  lemma {:induction false} NormalizeKeepsClose(s: string)
    ensures ']' in Normalize(s) <==> ']' in s
    decreases |s|
  {
    if s == "" {
    } else if MatchLength(s) > 0 {
      assert TOKEN[9] == ']' && Normalize(s)[9] == ']';
      assert s[MatchLength(s) - 1] == ']';
    } else {
      NormalizeKeepsClose(s[1..]);
      assert s == [s[0]] + s[1..];
    }
  }

  lemma KeptCharStartsNoMatch(s: string)
    requires s != "" && MatchLength(s) == 0
    ensures MatchLength([s[0]] + Normalize(s[1..])) == 0
  {
    var t := s[1..];
    var n := [s[0]] + Normalize(t);
    assert n[1..] == Normalize(t);
    if StartsWith(n, "[workbay") {
      assert n[..8][0] == n[0] && "[workbay"[0] == '[';
      assert n[1..][..7] == n[..8][1..] == "workbay";
      NormalizeKeepsWord(t, "workbay");
      assert s[..8] == [s[0]] + t[..7] == "[workbay";
      var u := t[7..];
      assert s[8..] == u && n[8..] == Normalize(t)[7..] == Normalize(u);
      NormalizeKeepsWord(u, "]");
      NormalizeKeepsWord(u, "-wb-");
      if StartsWith(u, "-wb-") {
        assert s[12..] == u[4..] && n[12..] == Normalize(u)[4..] == Normalize(u[4..]);
        NormalizeKeepsClose(u[4..]);
      }
    }
  }

  lemma TokenStartsNoMatch(rest: string, i: nat)
    requires i < |TOKEN|
    ensures MatchLength((TOKEN + rest)[i..]) == 0
  {
    var s := (TOKEN + rest)[i..];
    StartsAt(s, "[workbay", 0);
    StartsAt(s, "[workbay", 1);
    assert s[0] == TOKEN[i] && (i == 0 ==> s[1] == TOKEN[1]);
  }

  lemma NoMatchInFront(head: string, tail: string)
    requires !HasMatch(tail) && forall i :: 0 <= i < |head| ==> MatchLength((head + tail)[i..]) == 0
    ensures !HasMatch(head + tail)
  {
    forall i | 0 <= i <= |head + tail| ensures MatchLength((head + tail)[i..]) == 0 {
      if i >= |head| { assert (head + tail)[i..] == tail[i - |head|..]; }
    }
  }

  /** The result holds no further match. */
  lemma {:induction false} NormalizedHasNoMatch(s: string)
    ensures !HasMatch(Normalize(s))
    decreases |s|
  {
    var k := MatchLength(s);
    if s == "" {
      assert forall i :: 0 <= i <= |""| ==> ""[i..] == "";
    } else if k > 0 {
      NormalizedHasNoMatch(s[k..]);
      forall i | 0 <= i < |TOKEN| ensures MatchLength((TOKEN + Normalize(s[k..]))[i..]) == 0 {
        TokenStartsNoMatch(Normalize(s[k..]), i);
      }
      NoMatchInFront(TOKEN, Normalize(s[k..]));
    } else {
      NormalizedHasNoMatch(s[1..]);
      KeptCharStartsNoMatch(s);
      assert Normalize(s)[0..] == Normalize(s);
      NoMatchInFront([s[0]], Normalize(s[1..]));
    }
  }

  lemma {:induction false} NoMatchNoChange(s: string)
    requires !HasMatch(s)
    ensures Normalize(s) == s
    decreases |s|
  {
    if s != "" {
      assert s[0..] == s;
      forall i | 0 <= i <= |s| - 1 ensures MatchLength(s[1..][i..]) == 0 { assert s[1..][i..] == s[i + 1..]; }
      NoMatchNoChange(s[1..]);
      assert s == [s[0]] + s[1..];
    }
  }

  lemma NormalizeIdempotent(s: string)
    ensures Normalize(Normalize(s)) == Normalize(s)
  {
    NormalizedHasNoMatch(s);
    NoMatchNoChange(Normalize(s));
  }

  /** Exactly the texts without a checkout parameter are left alone. */
  lemma NormalizeFixesIff(s: string)
    ensures Normalize(s) == s <==> !HasMatch(s)
  {
    if !HasMatch(s) { NoMatchNoChange(s); } else { NormalizedHasNoMatch(s); }
  }

  // ---------- what is replaced, letter by letter ----------

  /** Where a checkout parameter starts: `[workbay]`, or `[workbay-wb-` with a closing bracket somewhere after. */
  lemma MatchExact(s: string)
    ensures MatchLength(s) > 0 <==>
      StartsWith(s, "[workbay]") || (StartsWith(s, "[workbay-wb-") && ']' in s[12..])
  {
    SplitStart(s, "[workbay", "]");
    SplitStart(s, "[workbay", "-wb-");
    assert "[workbay" + "]" == "[workbay]" && "[workbay" + "-wb-" == "[workbay-wb-";
    if StartsWith(s, "[workbay-wb-") { assert s[8..][4..] == s[12..]; }
  }

  lemma SplitStart(s: string, a: string, b: string)
    ensures StartsWith(s, a + b) <==> StartsWith(s, a) && StartsWith(s[|a|..], b)
  {
    if |a| + |b| <= |s| {
      assert s[..|a| + |b|] == s[..|a|] + s[|a|..][..|b|];
      if s[..|a| + |b|] == a + b { assert s[..|a|] == (a + b)[..|a|] == a; }
    }
  }

  /** Each parameter becomes the token, whichever checkout it names, and everything else stays. */
  lemma NormalizeReads(tag: string, c: char, rest: string)
    ensures Normalize("[workbay]" + rest) == "[CHECKOUT]" + Normalize(rest)
    ensures ']' !in tag ==> Normalize("[workbay-wb-" + tag + "]" + rest) == "[CHECKOUT]" + Normalize(rest)
    ensures !StartsWith([c] + rest, "[workbay]") && !StartsWith([c] + rest, "[workbay-wb-") ==>
      Normalize([c] + rest) == [c] + Normalize(rest)
  {
    var plain := "[workbay]" + rest;
    assert plain[..9] == "[workbay]";
    MatchExact(plain);
    SplitStart(plain, "[workbay", "]");
    assert "[workbay" + "]" == "[workbay]";
    assert plain[9..] == rest;
    if ']' !in tag { TaggedReads(tag, rest); }
    MatchExact([c] + rest);
    assert ([c] + rest)[1..] == rest;
  }

  lemma TaggedReads(tag: string, rest: string)
    requires ']' !in tag
    ensures Normalize("[workbay-wb-" + tag + "]" + rest) == "[CHECKOUT]" + Normalize(rest)
  {
    var s := "[workbay-wb-" + tag + "]" + rest;
    assert s[..12] == "[workbay-wb-" && s[12..] == tag + "]" + rest;
    SplitStart(s, "[workbay", "-wb-");
    assert "[workbay" + "-wb-" == "[workbay-wb-";
    assert s[..9][8] == '-';
    SplitStart(s, "[workbay", "]");
    CloseAfter(tag, rest);
    StartsAt(s[8..], "]", 0);
    assert s[8..][0] == '-';
    assert s[12 + |tag| + 1..] == rest;
  }

  lemma CloseAfter(tag: string, rest: string)
    requires ']' !in tag
    ensures ']' in tag + "]" + rest && FirstClose(tag + "]" + rest) == |tag|
  {
    var s := tag + "]" + rest;
    assert s[|tag|] == ']';
    assert s[..|tag|] == tag;
    var before := s[..FirstClose(s)];
    assert forall k :: 0 <= k < |before| ==> before[k] != ']';
    assert forall k :: 0 <= k < |before| ==> before[k] == s[k];
  }

  // ---------- the differential ----------

  /** The stripped, nonblank entries. */
  function Cleaned(ids: seq<string>): set<string> { set i | i in ids && Visible(i) :: Strip(i) }

  function NormSet(ids: set<string>): set<string> { set i | i in ids :: Normalize(i) }

  /** `normalize_failure_ids`, as the set its sorted list enumerates. */
  function NormIds(ids: seq<string>): set<string> { NormSet(Cleaned(ids)) }

  datatype DiffOutcome = ZeroRegression | Regressed | IdsNotMeasured | Errored

  datatype Diff = Diff(outcome: DiffOutcome, added: set<string>, fixed: set<string>, persistent: set<string>,
                       baselineRaw: nat, subjectRaw: nat, baselineCount: nat, subjectCount: nat, collapsed: int,
                       errored: set<string>, erroredInBoth: set<string>, reason: Option<string>)

  /** The ids left for the FAILED differential once errored ones are set aside. */
  function FailedOnly(ids: seq<string>, errored: seq<string>): set<string> {
    set i | i in Cleaned(ids) && Normalize(i) !in NormIds(errored)
  }

  function StripReason(reason: Option<string>): Option<string> {
    if reason.Some? then Some(Strip(reason.value)) else None
  }

  predicate HasReason(reason: Option<string>) { reason.Some? && reason.value != "" }

  function FailureIdDiff(baseline: seq<string>, subject: seq<string>, executed: bool,
                         baselineErrored: seq<string>, subjectErrored: seq<string>, subjectReason: Option<string>): Diff
  {
    DiffSets(FailedOnly(baseline, baselineErrored), FailedOnly(subject, subjectErrored), executed,
             NormIds(baselineErrored), NormIds(subjectErrored), StripReason(subjectReason))
  }

  /** The differential on the raw FAILED ids of the two sides and their normalised errored ids. */
  function DiffSets(baseRaw: set<string>, subjRaw: set<string>, executed: bool,
                    baseErrors: set<string>, subjErrors: set<string>, reason: Option<string>): Diff
  {
    var base, subj := NormSet(baseRaw), NormSet(subjRaw);
    var isErrored := subjErrors != {} || HasReason(reason);
    if baseRaw == {} && subjRaw == {} then
      Diff(if isErrored then Errored else if executed then ZeroRegression else IdsNotMeasured,
           {}, {}, {}, 0, 0, 0, 0, 0,
           subjErrors, subjErrors * baseErrors, reason)
    else if subjRaw == {} && !executed then
      Diff(if isErrored then Errored else IdsNotMeasured, {}, {}, {}, |baseRaw|, 0, |base|, 0, |baseRaw| - |base|,
           subjErrors, subjErrors * baseErrors, reason)
    else
      Diff(if isErrored then Errored else if subj - base != {} then Regressed else ZeroRegression,
           subj - base, base - subj, base * subj, |baseRaw|, |subjRaw|, |base|, |subj|,
           |baseRaw + subjRaw| - |NormSet(baseRaw + subjRaw)|, subjErrors, subjErrors * baseErrors, reason)
  }

  ghost predicate InjectiveOn(ids: set<string>) {
    forall a, b :: a in ids && b in ids && Normalize(a) == Normalize(b) ==> a == b
  }

  lemma {:induction false} ImageSize(ids: set<string>)
    ensures |NormSet(ids)| <= |ids|
    ensures |NormSet(ids)| == |ids| <==> InjectiveOn(ids)
  {
    if ids == {} {
      assert NormSet(ids) == {};
    } else {
      var x :| x in ids;
      var rest := ids - {x};
      ImageSize(rest);
      assert NormSet(ids) == NormSet(rest) + {Normalize(x)};
      if Normalize(x) in NormSet(rest) {
        var y :| y in rest && Normalize(y) == Normalize(x);
        assert NormSet(ids) == NormSet(rest);
        assert !InjectiveOn(ids);
      } else {
        assert InjectiveOn(ids) <==> InjectiveOn(rest);
      }
    }
  }

  lemma SplitUnion(base: set<string>, subj: set<string>)
    ensures (subj - base) + (base - subj) + base * subj == base + subj
    ensures (subj - base) * (base - subj) == {} && (subj - base) * (base * subj) == {}
      && (base - subj) * (base * subj) == {}
  {
  }

  /** Added, fixed and persistent split what is compared; collapsed counts what normalisation merged. */
  ghost predicate Partitions(d: Diff, baseRaw: set<string>, subjRaw: set<string>, executed: bool) {
    && d.added * d.fixed == {} && d.added * d.persistent == {} && d.fixed * d.persistent == {}
    && (subjRaw != {} || executed ==> d.added + d.fixed + d.persistent == NormSet(baseRaw) + NormSet(subjRaw))
    && d.collapsed >= 0 && (d.collapsed == 0 <==> InjectiveOn(baseRaw + subjRaw))
    && d.subjectRaw == |subjRaw| && d.subjectCount == |NormSet(subjRaw)|
    && d.baselineRaw == |baseRaw| && d.baselineCount == |NormSet(baseRaw)|
  }

  lemma SetsPartition(baseRaw: set<string>, subjRaw: set<string>, executed: bool,
                      baseErrors: set<string>, subjErrors: set<string>, reason: Option<string>)
    ensures Partitions(DiffSets(baseRaw, subjRaw, executed, baseErrors, subjErrors, reason), baseRaw, subjRaw, executed)
  {
    ImageSize(baseRaw + subjRaw);
    assert NormSet({}) == {};
    if subjRaw == {} { assert baseRaw + subjRaw == baseRaw; }
    SplitUnion(NormSet(baseRaw), NormSet(subjRaw));
  }

  /** Whenever ids are compared, added, fixed and persistent split the union of the two normalised sets,
      and `collapsed` counts exactly what normalisation merged. */
  lemma DiffPartitions(baseline: seq<string>, subject: seq<string>, executed: bool, baselineErrored: seq<string>,
                       subjectErrored: seq<string>, reason: Option<string>)
    ensures Partitions(FailureIdDiff(baseline, subject, executed, baselineErrored, subjectErrored, reason),
                       FailedOnly(baseline, baselineErrored), FailedOnly(subject, subjectErrored), executed)
  {
    SetsPartition(FailedOnly(baseline, baselineErrored), FailedOnly(subject, subjectErrored), executed,
                  NormIds(baselineErrored), NormIds(subjectErrored), StripReason(reason));
  }

  lemma ZeroOnSets(baseRaw: set<string>, subjRaw: set<string>, executed: bool,
                   baseErrors: set<string>, subjErrors: set<string>, reason: Option<string>)
    ensures DiffSets(baseRaw, subjRaw, executed, baseErrors, subjErrors, reason).outcome == ZeroRegression <==>
              && subjErrors == {} && !HasReason(reason) && (subjRaw == {} ==> executed)
              && forall i :: i in subjRaw ==> Normalize(i) in NormSet(baseRaw)
  {
    var added := NormSet(subjRaw) - NormSet(baseRaw);
    forall i | i in subjRaw && Normalize(i) !in NormSet(baseRaw) ensures added != {} {
      assert Normalize(i) in NormSet(subjRaw);
      assert Normalize(i) in added;
    }
    forall x | x in added ensures exists i :: i in subjRaw && Normalize(i) !in NormSet(baseRaw) {
      var i :| i in subjRaw && Normalize(i) == x;
    }
    assert added == {} <==> forall x :: x !in added;
  }

  /** A side lists a failure that normalises to x and is no error there. */
  ghost predicate FailsAs(ids: seq<string>, errored: seq<string>, x: string) {
    exists i :: i in Cleaned(ids) && Normalize(i) == x && Normalize(i) !in NormIds(errored)
  }

  /** The ids can be compared: the subject lists a failure, or its suite is known to have run. */
  ghost predicate Compared(subject: seq<string>, errored: seq<string>, executed: bool) {
    executed || exists x :: FailsAs(subject, errored, x)
  }

  /** What a differential reports, id by id: added are the failures of the subject alone, fixed those of the baseline
      alone, persistent those of both; and which outcome follows. */
  ghost predicate DiffSays(d: Diff, baseline: seq<string>, subject: seq<string>, executed: bool,
                           baselineErrored: seq<string>, subjectErrored: seq<string>, reason: Option<string>) {
    var compared := Compared(subject, subjectErrored, executed);
    && (forall x :: x in d.added <==>
          FailsAs(subject, subjectErrored, x) && !FailsAs(baseline, baselineErrored, x))
    && (forall x :: x in d.fixed <==>
          compared && FailsAs(baseline, baselineErrored, x) && !FailsAs(subject, subjectErrored, x))
    && (forall x :: x in d.persistent <==>
          FailsAs(subject, subjectErrored, x) && FailsAs(baseline, baselineErrored, x))
    && (d.outcome == Errored <==> NormIds(subjectErrored) != {} || HasReason(StripReason(reason)))
    && (d.outcome == IdsNotMeasured <==> d.outcome != Errored && !compared)
    && (d.outcome == Regressed <==> d.outcome != Errored && d.added != {})
    && (forall x :: x in d.errored <==> x in NormIds(subjectErrored))
    && (forall x :: x in d.erroredInBoth <==> x in NormIds(subjectErrored) && x in NormIds(baselineErrored))
    && d.reason == StripReason(reason)
  }

  lemma DiffExact(baseline: seq<string>, subject: seq<string>, executed: bool, baselineErrored: seq<string>,
                  subjectErrored: seq<string>, reason: Option<string>)
    ensures DiffSays(FailureIdDiff(baseline, subject, executed, baselineErrored, subjectErrored, reason),
                     baseline, subject, executed, baselineErrored, subjectErrored, reason)
  {
    var base, subj := FailedOnly(baseline, baselineErrored), FailedOnly(subject, subjectErrored);
    forall x ensures x in NormSet(base) <==> FailsAs(baseline, baselineErrored, x) {
      InBaseline(baseline, baselineErrored, x);
    }
    forall x ensures x in NormSet(subj) <==> FailsAs(subject, subjectErrored, x) {
      InBaseline(subject, subjectErrored, x);
    }
    EmptyImage(base);
    EmptyImage(subj);
    SetsExact(base, subj, executed, NormIds(baselineErrored), NormIds(subjectErrored), StripReason(reason));
  }

  lemma EmptyImage(ids: set<string>)
    ensures NormSet(ids) == {} <==> ids == {}
  {
    if i :| i in ids { assert Normalize(i) in NormSet(ids); }
  }

  lemma SetsExact(baseRaw: set<string>, subjRaw: set<string>, executed: bool,
                  baseErrors: set<string>, subjErrors: set<string>, reason: Option<string>)
    ensures var d := DiffSets(baseRaw, subjRaw, executed, baseErrors, subjErrors, reason);
            var base, subj := NormSet(baseRaw), NormSet(subjRaw);
      && (forall x :: x in d.added <==> x in subj && x !in base)
      && (forall x :: x in d.fixed <==> (executed || subj != {}) && x in base && x !in subj)
      && (forall x :: x in d.persistent <==> x in subj && x in base)
      && (d.outcome == Errored <==> subjErrors != {} || HasReason(reason))
      && (d.outcome == IdsNotMeasured <==> d.outcome != Errored && !executed && subj == {})
      && (d.outcome == Regressed <==> d.outcome != Errored && d.added != {})
      && d.errored == subjErrors && d.erroredInBoth == subjErrors * baseErrors && d.reason == reason
  {
    EmptyImage(baseRaw);
    EmptyImage(subjRaw);
  }

  /** The one outcome that lets a merge through, exactly. */
  lemma ZeroRegressionIff(baseline: seq<string>, subject: seq<string>, executed: bool, baselineErrored: seq<string>,
                          subjectErrored: seq<string>, reason: Option<string>)
    ensures FailureIdDiff(baseline, subject, executed, baselineErrored, subjectErrored, reason).outcome
              == ZeroRegression <==>
              && NormIds(subjectErrored) == {} && !HasReason(StripReason(reason))
              && (Cleaned(subject) == {} ==> executed)
              && forall i :: i in Cleaned(subject) ==> FailsAs(baseline, baselineErrored, Normalize(i))
  {
    var baseRaw, subjRaw := FailedOnly(baseline, baselineErrored), FailedOnly(subject, subjectErrored);
    ZeroOnSets(baseRaw, subjRaw, executed, NormIds(baselineErrored), NormIds(subjectErrored), StripReason(reason));
    if NormIds(subjectErrored) == {} { assert subjRaw == Cleaned(subject); }
    forall i | i in Cleaned(subject)
      ensures Normalize(i) in NormSet(baseRaw) <==> FailsAs(baseline, baselineErrored, Normalize(i))
    {
      InBaseline(baseline, baselineErrored, Normalize(i));
    }
  }

  lemma InBaseline(baseline: seq<string>, errored: seq<string>, x: string)
    ensures x in NormSet(FailedOnly(baseline, errored)) <==> FailsAs(baseline, errored, x)
  {
    if b :| b in Cleaned(baseline) && Normalize(b) == x && Normalize(b) !in NormIds(errored) {
      assert b in FailedOnly(baseline, errored);
    }
  }

  // ---------- node ids ----------

  const DASH := " - "

  /** Index of the next dash at or after start, |s| when there is none. */
  function FindDash(s: string, start: nat): (i: nat)
    requires start <= |s|
    ensures start <= i <= |s|
    ensures i < |s| ==> StartsWith(s[i..], DASH)
    ensures forall j :: start <= j < i ==> !StartsWith(s[j..], DASH)
    decreases |s| - start
  {
    if start == |s| || StartsWith(s[start..], DASH) then start else FindDash(s, start + 1)
  }

  function BaseEnd(s: string): (n: nat)
    ensures n <= |s| && '[' !in s[..n] && (n < |s| ==> s[n] == '[')
  {
    if s == "" || s[0] == '[' then 0
    else
      var n := BaseEnd(s[1..]);
      assert s[..n + 1] == [s[0]] + s[1..][..n];
      n + 1
  }

  function Segment(s: string): (n: nat)
    ensures n <= |s| && forall i :: 0 <= i < n ==> s[i] != ':' && !IsSpace(s[i])
  {
    if s == "" || s[0] == ':' || IsSpace(s[0]) then 0 else 1 + Segment(s[1..])
  }

  /** Colon-free, space-free segments joined by `::`. */
  predicate IsBase(s: string)
    decreases |s|
  {
    var n := Segment(s);
    n > 0 && (n == |s| || (StartsWith(s[n..], "::") && IsBase(s[n + 2..])))
  }

  predicate LooksLikeNodeId(s: string) {
    var n := BaseEnd(s);
    var base, params := s[..n], s[n..];
    && s != "" && IsBase(base)
    && (params == "" || (|params| >= 2 && params[|params| - 1] == ']' && '\n' !in params))
    && (Contains(base, "::") || Contains(base, "/") || Contains(base, "\\") || EndsWith(base, ".py"))
  }

  ghost predicate IsPart(s: string) { s != "" && forall i :: 0 <= i < |s| ==> s[i] != ':' && !IsSpace(s[i]) }

  ghost function JoinParts(parts: seq<string>): string
    requires parts != []
  {
    if |parts| == 1 then parts[0] else parts[0] + ("::" + JoinParts(parts[1..]))
  }

  ghost predicate MadeOfParts(s: string) {
    exists parts :: parts != [] && (forall i :: 0 <= i < |parts| ==> IsPart(parts[i])) && s == JoinParts(parts)
  }

  /** A base is one or more parts without space or colon, joined by double colons. */
  lemma {:induction false} BaseExact(s: string)
    ensures IsBase(s) <==> MadeOfParts(s)
    decreases |s|
  {
    if IsBase(s) { BaseSplits(s); }
    if MadeOfParts(s) {
      var parts :| parts != [] && (forall i :: 0 <= i < |parts| ==> IsPart(parts[i])) && s == JoinParts(parts);
      PartsMakeBase(parts);
    }
  }

  lemma {:induction false} BaseSplits(s: string)
    requires IsBase(s)
    ensures MadeOfParts(s)
    decreases |s|
  {
    var n := Segment(s);
    if n == |s| {
      assert s[..n] == s;
      assert JoinParts([s]) == s && forall i :: 0 <= i < |[s]| ==> IsPart([s][i]);
    } else {
      var first, rest := s[..n], s[n + 2..];
      BaseSplits(rest);
      CutAtColons(s, n);
      PartInFront(first, rest);
    }
  }

  lemma CutAtColons(s: string, n: nat)
    requires n <= |s| && StartsWith(s[n..], "::")
    ensures n + 2 <= |s| && s == s[..n] + ("::" + s[n + 2..])
  {
  }

  lemma PartInFront(first: string, rest: string)
    requires IsPart(first) && MadeOfParts(rest)
    ensures MadeOfParts(first + ("::" + rest))
  {
    var parts :| parts != [] && (forall i :: 0 <= i < |parts| ==> IsPart(parts[i])) && rest == JoinParts(parts);
    var all := [first] + parts;
    assert all[1..] == parts;
    assert forall i :: 0 <= i < |all| ==> IsPart(all[i]);
  }

  lemma {:induction false} PartsMakeBase(parts: seq<string>)
    requires parts != [] && forall i :: 0 <= i < |parts| ==> IsPart(parts[i])
    ensures IsBase(JoinParts(parts))
    decreases |parts|
  {
    var s, first := JoinParts(parts), parts[0];
    if |parts| == 1 {
      SegmentOf(first, "");
      assert first + "" == first;
    } else {
      var rest := JoinParts(parts[1..]);
      PartsMakeBase(parts[1..]);
      SegmentOf(first, "::" + rest);
      assert s[|first|..] == "::" + rest;
      assert s[|first|..][..2] == "::" && s[|first| + 2..] == rest;
    }
  }

  lemma {:induction false} SegmentOf(part: string, rest: string)
    requires forall i :: 0 <= i < |part| ==> part[i] != ':' && !IsSpace(part[i])
    requires rest == "" || rest[0] == ':'
    ensures Segment(part + rest) == |part|
  {
    if part == "" {
      assert part + rest == rest;
    } else {
      assert (part + rest)[1..] == part[1..] + rest && (part + rest)[0] == part[0];
      SegmentOf(part[1..], rest);
    }
  }

  ghost predicate IsParams(s: string) {
    s == "" || (|s| >= 2 && s[0] == '[' && s[|s| - 1] == ']' && '\n' !in s)
  }

  /** The base names a test by a double colon, or a file by a separator or its ending. */
  ghost predicate NamesATest(base: string) {
    Contains(base, "::") || '/' in base || '\\' in base || EndsWith(base, ".py")
  }

  /** A node id, exactly: parts joined by double colons that name a test, and perhaps a bracket of parameters. */
  lemma NodeIdExact(base: string, params: string)
    requires '[' !in base && (params == "" || params[0] == '[')
    ensures LooksLikeNodeId(base + params) <==> MadeOfParts(base) && IsParams(params) && NamesATest(base)
  {
    var s := base + params;
    if params == "" { BareIsWhole(base); } else { BaseEndIs(base, params); }
    assert s[..|base|] == base && s[|base|..] == params;
    BaseExact(base);
    OneLetter(base, '/');
    OneLetter(base, '\\');
    assert ['/'] == "/" && ['\\'] == "\\";
  }

  lemma BareIsWhole(base: string)
    requires '[' !in base
    ensures BaseEnd(base + "") == |base|
  {
    assert base + "" == base;
    WholeIsBase(base);
  }

  lemma OneLetter(s: string, c: char)
    ensures Contains(s, [c]) <==> c in s
  {
    if c in s {
      var i :| 0 <= i < |s| && s[i] == c;
      assert s[i..][..1] == [c];
    }
    if i :| 0 <= i <= |s| && StartsWith(s[i..], [c]) { assert s[i..][..1][0] == s[i]; }
  }

  /** Dash by dash, jumping past each: the first prefix that looks like a node id, else the whole. */
  function Search(s: string, start: nat, looks: string -> bool): Option<string>
    requires start <= |s|
    decreases |s| - start
  {
    var i := FindDash(s, start);
    if i == |s| then (if looks(s) then Some(s) else None)
    else if looks(StripRight(s[..i])) then Some(StripRight(s[..i]))
    else Search(s, i + 3, looks)
  }

  function NodeIdAfter(s: string, start: nat): Option<string>
    requires start <= |s|
  {
    Search(s, start, LooksLikeNodeId)
  }

  function NodeId(rest: string): Option<string> { NodeIdAfter(Strip(rest), 0) }

  method NodeIdFromStatusRest(given: string) returns (id: Option<string>)
    ensures id == NodeId(given)
  {
    var rest := Strip(given);
    if rest == "" { return None; }
    if FindDash(rest, 0) == |rest| {
      return if LooksLikeNodeId(rest) then Some(rest) else None;
    }
    var start := 0;
    while true
      invariant start <= |rest| && NodeIdAfter(rest, 0) == NodeIdAfter(rest, start)
      decreases |rest| - start
    {
      var i := FindDash(rest, start);
      if i == |rest| { break; }
      var candidate := StripRight(rest[..i]);
      if LooksLikeNodeId(candidate) { return Some(candidate); }
      start := i + 3;
    }
    id := if LooksLikeNodeId(rest) then Some(rest) else None;
  }

  lemma {:induction false} BaseHasNoSpace(s: string)
    requires IsBase(s)
    ensures forall i :: 0 <= i < |s| ==> !IsSpace(s[i])
    decreases |s|
  {
    var n := Segment(s);
    if n < |s| {
      StartsAt(s[n..], "::", 0);
      StartsAt(s[n..], "::", 1);
      BaseHasNoSpace(s[n + 2..]);
      forall i | n <= i < |s| ensures !IsSpace(s[i]) {
        if i >= n + 2 { assert s[i] == s[n + 2..][i - n - 2]; } else { assert s[i] == s[n..][i - n] == ':'; }
      }
    }
  }

  lemma NodeIdEnds(id: string)
    requires LooksLikeNodeId(id)
    ensures id != "" && !IsSpace(id[0]) && !IsSpace(id[|id| - 1])
    ensures |id| >= 2 && id[|id| - 1] == '-' ==> id[|id| - 2] != ' '
  {
    var n := BaseEnd(id);
    BaseHasNoSpace(id[..n]);
    assert id[0] == id[..n][0];
    if n == |id| { assert id[..n] == id; } else { assert id[|id| - 1] == id[n..][|id| - n - 1] == ']'; }
  }

  lemma {:induction false} StripRightOnTail(a: string, m: string)
    requires StripRight(m) != ""
    ensures StripRight(a + m) == a + StripRight(m)
    decreases |m|
  {
    if m != "" && IsSpace(m[|m| - 1]) {
      StripRightOnTail(a, m[..|m| - 1]);
      assert (a + m)[..|a + m| - 1] == a + m[..|m| - 1];
    }
  }

  /** The dash-by-dash search meets, at a dash of the id itself, a prefix that passes for a node id. */
  predicate MetEarlier(id: string, start: nat, looks: string -> bool)
    requires start <= |id|
    decreases |id| - start
  {
    var i := FindDash(id, start);
    i < |id| && (looks(StripRight(id[..i])) || (i + 3 <= |id| && MetEarlier(id, i + 3, looks)))
  }

  /** An id that is followed by `end` on its line; no dash straddles the end of the id. */
  ghost predicate Ends(id: string, end: string) {
    && id != "" && !IsSpace(id[|id| - 1]) && (|id| >= 2 && id[|id| - 1] == '-' ==> id[|id| - 2] != ' ')
    && end != "" && end[0] == ' '
  }

  lemma DashInside(id: string, end: string, j: nat)
    requires Ends(id, end) && j < |id|
    ensures StartsWith((id + end)[j..], DASH) <==> StartsWith(id[j..], DASH)
    ensures StartsWith(id[j..], DASH) ==> j + 3 <= |id|
  {
    var rest := id + end;
    if j + 3 <= |id| {
      assert rest[j..][..3] == id[j..][..3];
    } else {
      StartsAt(rest[j..], DASH, 0);
      StartsAt(rest[j..], DASH, 1);
      assert rest[j..][0] == id[j];
      assert j + 2 == |id| ==> rest[j..][1] == id[j + 1];
    }
  }

  /** On the line, the search finds the id's own dashes and then what `end` offers. */
  lemma {:induction false} DashesAgree(id: string, end: string, start: nat)
    requires Ends(id, end) && start <= |id|
    ensures FindDash(id, start) < |id| ==> FindDash(id + end, start) == FindDash(id, start) <= |id| - 3
    ensures FindDash(id, start) == |id| ==> FindDash(id + end, start) == FindDash(id + end, |id|)
    decreases |id| - start
  {
    if start < |id| {
      DashInside(id, end, start);
      DashesAgree(id, end, start + 1);
    }
  }

  /** From k on, the search finds in `rest` the dash it finds in the id, or what it finds from the end of the id. */
  ghost predicate SameDash(id: string, rest: string, k: nat)
    requires k <= |id| <= |rest|
  {
    if FindDash(id, k) < |id| then FindDash(rest, k) == FindDash(id, k) <= |id| - 3
    else FindDash(rest, k) == FindDash(rest, |id|)
  }

  lemma SearchStep(s: string, start: nat, looks: string -> bool)
    requires start <= |s| && FindDash(s, start) + 3 <= |s|
    ensures var i := FindDash(s, start);
            Search(s, start, looks) ==
            if looks(StripRight(s[..i])) then Some(StripRight(s[..i])) else Search(s, i + 3, looks)
  {
  }

  lemma SearchFrom(s: string, a: nat, b: nat, looks: string -> bool)
    requires a <= |s| && b <= |s| && FindDash(s, a) == FindDash(s, b)
    ensures Search(s, a, looks) == Search(s, b, looks)
  {
  }

  /** The search meets a prefix of the id, or goes on at the end of the id. */
  lemma {:induction false} SearchPassesId(id: string, rest: string, start: nat, looks: string -> bool)
    requires start <= |id| <= |rest| && rest[..|id|] == id && forall k :: 0 <= k <= |id| ==> SameDash(id, rest, k)
    ensures MetEarlier(id, start, looks) ==>
      Search(rest, start, looks).Some? && |Search(rest, start, looks).value| < |id|
    ensures !MetEarlier(id, start, looks) ==> Search(rest, start, looks) == Search(rest, |id|, looks)
    decreases |id| - start
  {
    var i := FindDash(id, start);
    assert SameDash(id, rest, start);
    if i < |id| {
      assert rest[..i] == id[..i];
      StripRightShortens(id[..i]);
      SearchStep(rest, start, looks);
      if !looks(StripRight(id[..i])) { SearchPassesId(id, rest, i + 3, looks); }
    } else {
      SearchFrom(rest, start, |id|, looks);
    }
  }

  lemma {:induction false} StripRightShortens(s: string)
    ensures |StripRight(s)| <= |s|
    decreases |s|
  {
    if s != "" && IsSpace(s[|s| - 1]) { StripRightShortens(s[..|s| - 1]); }
  }

  lemma LineStrips(id: string, message: string)
    requires id != "" && !IsSpace(id[0])
    ensures Strip(id + DASH + message) == id + if StripRight(message) != "" then DASH + StripRight(message) else " -"
  {
    StartsVisible(id + DASH + message);
    if StripRight(message) != "" {
      StripRightOnTail(id + DASH, message);
      JoinThree(id, DASH, StripRight(message));
    } else {
      StripsBlank(id + DASH, message);
      DashStrips(id);
    }
  }

  lemma StartsVisible(s: string)
    requires s != "" && !IsSpace(s[0])
    ensures Strip(s) == StripRight(s)
  {
  }

  lemma DashStrips(id: string)
    ensures StripRight(id + DASH) == id + " -"
  {
    StripsOneSpace(id + " -");
    assert id + DASH == (id + " -") + " ";
  }

  lemma StripsOneSpace(s: string)
    requires s != "" && !IsSpace(s[|s| - 1])
    ensures StripRight(s + " ") == s
  {
    assert (s + " ")[..|s|] == s;
  }

  lemma {:induction false} StripsBlank(a: string, m: string)
    requires StripRight(m) == ""
    ensures StripRight(a + m) == StripRight(a)
    decreases |m|
  {
    if m == "" {
      assert a + m == a;
    } else {
      StripsBlank(a, m[..|m| - 1]);
      assert (a + m)[..|a + m| - 1] == a + m[..|m| - 1];
    }
  }

  /** What the search answers from the end of the id on. */
  lemma SearchAtEnd(id: string, end: string)
    requires LooksLikeNodeId(id) && Ends(id, end)
    ensures StartsWith(end, DASH) ==> NodeIdAfter(id + end, |id|) == Some(id)
    ensures end == " -" ==> NodeIdAfter(id + end, |id|).None?
  {
    var rest := id + end;
    assert rest[|id|..] == end;
    if StartsWith(end, DASH) {
      assert rest[..|id|] == id && StripRight(id) == id;
    }
    if end == " -" {
      assert rest[|id|..] == " -" && rest[|id| + 1..] == "-" && rest[|id| + 2..] == "";
      assert FindDash(rest, |id| + 2) == |rest|;
      assert FindDash(rest, |id| + 1) == |rest|;
      TrailingDashIsNoId(rest);
    }
  }

  lemma TrailingDashIsNoId(s: string)
    requires |s| >= 2 && s[|s| - 1] == '-' && s[|s| - 2] == ' '
    ensures !LooksLikeNodeId(s)
  {
    var n := BaseEnd(s);
    if n == |s| {
      assert s[..n] == s;
      if IsBase(s) { BaseHasNoSpace(s); }
    } else {
      assert s[n..][|s| - n - 1] == '-';
    }
  }

  /** A status line's id is read back exactly when a message follows it and the search does not first meet a prefix of
      the id that looks like a node id itself; dashes inside the id's brackets do no other harm. */
  lemma NodeIdRoundTripIff(id: string, message: string)
    requires LooksLikeNodeId(id)
    ensures NodeId(id + DASH + message) == Some(id) <==>
      StripRight(message) != "" && !MetEarlier(id, 0, LooksLikeNodeId)
  {
    NodeIdEnds(id);
    LineStrips(id, message);
    var end := if StripRight(message) != "" then DASH + StripRight(message) else " -";
    assert StripRight(message) != "" ==> end[..3] == DASH;
    forall k | 0 <= k <= |id| ensures SameDash(id, id + end, k) { DashesAgree(id, end, k); }
    SearchPassesId(id, id + end, 0, LooksLikeNodeId);
    SearchAtEnd(id, end);
  }

  /** An id cut short: where a prefix that looks like a node id, without a dash of its own, ends at a dash of a longer
      id, every status line of the longer one reads as the prefix. */
  lemma PrefixIsRead(prefix: string, rest: string, message: string)
    requires LooksLikeNodeId(prefix) && LooksLikeNodeId(prefix + DASH + rest) && !Contains(prefix, DASH)
    ensures NodeId(prefix + DASH + rest + DASH + message) == Some(prefix)
  {
    var id := prefix + DASH + rest;
    NodeIdEnds(prefix);
    NodeIdEnds(id);
    LineStrips(id, message);
    var tail := if StripRight(message) != "" then DASH + StripRight(message) else " -";
    JoinThree(prefix + DASH, rest, tail);
    FirstDashIs(prefix, rest + tail);
    FirstFound(id + tail, prefix, LooksLikeNodeId);
  }

  lemma FirstFound(line: string, prefix: string, looks: string -> bool)
    requires |prefix| < |line| && line[..|prefix|] == prefix && FindDash(line, 0) == |prefix|
    requires StripRight(prefix) == prefix && looks(prefix)
    ensures Search(line, 0, looks) == Some(prefix)
  {
  }

  lemma FirstDashIs(prefix: string, rest: string)
    requires !Contains(prefix, DASH)
    requires prefix != "" && !IsSpace(prefix[|prefix| - 1])
    requires |prefix| >= 2 && prefix[|prefix| - 1] == '-' ==> prefix[|prefix| - 2] != ' '
    ensures FindDash(prefix + DASH + rest, 0) == |prefix|
  {
    var s := prefix + DASH + rest;
    assert s[|prefix|..][..3] == DASH;
    forall j | 0 <= j < |prefix| ensures !StartsWith(s[j..], DASH) {
      assert s[j..][0] == prefix[j];
      if j + 3 <= |prefix| {
        assert s[j..][..3] == prefix[j..][..3];
      } else if j + 2 == |prefix| {
        assert s[j..][1] == prefix[j + 1];
      }
    }
  }

  /** Such ids: a parametrised one whose parameters go on with a dash after what could have closed them. */
  lemma DashedIdIsCutShort(base: string, x: string, y: string, message: string)
    requires LooksLikeNodeId(base) && '[' !in base && ' ' !in x && '\n' !in x && '\n' !in y
    ensures var short := base + "[" + x + "]"; var id := short + DASH + y + "]";
      LooksLikeNodeId(id) && NodeId(id + DASH + message) == Some(short) && short != id
  {
    var short, rest := base + "[" + x + "]", y + "]";
    BracketedLooks(base, "[" + x + "]");
    BracketedLooks(base, "[" + x + "]" + DASH + rest);
    assert base + ("[" + x + "]") == short;
    assert base + ("[" + x + "]" + DASH + rest) == short + DASH + rest == short + DASH + y + "]";
    BareIsBase(base);
    BaseHasNoSpace(base);
    NoSpaceNoDash(short);
    PrefixIsRead(short, rest, message);
    assert |short + DASH + rest| > |short|;
  }

  lemma NoSpaceNoDash(s: string)
    requires ' ' !in s
    ensures !Contains(s, DASH)
  {
    forall i | 0 <= i <= |s| ensures !StartsWith(s[i..], DASH) { StartsAt(s[i..], DASH, 0); }
  }

  lemma BareIsBase(base: string)
    requires LooksLikeNodeId(base) && '[' !in base
    ensures BaseEnd(base) == |base| && IsBase(base)
  {
    assert base[..|base|] == base;
  }

  lemma BracketedLooks(base: string, params: string)
    requires LooksLikeNodeId(base) && '[' !in base
    requires |params| >= 2 && params[0] == '[' && params[|params| - 1] == ']' && '\n' !in params
    ensures LooksLikeNodeId(base + params)
  {
    var s := base + params;
    BareIsBase(base);
    assert base[..|base|] == base;
    BaseEndIs(base, params);
    assert s[..|base|] == base && s[|base|..] == params;
  }

  /** For one, `t.py::f[x] - y]` under any message. */
  lemma DashedIdExample(message: string)
    ensures LooksLikeNodeId("t.py::f[x] - y]") && NodeId("t.py::f[x] - y]" + DASH + message) == Some("t.py::f[x]")
  {
    PlainLooks();
    assert "t.py::f" + "[" + "x" + "]" == "t.py::f[x]";
    assert "t.py::f[x]" + DASH + "y" + "]" == "t.py::f[x] - y]";
    SpelledOut("t.py::f", "x", "y", "t.py::f[x]", "t.py::f[x] - y]", message);
  }

  lemma SpelledOut(base: string, x: string, y: string, short: string, id: string, message: string)
    requires LooksLikeNodeId(base) && '[' !in base && ' ' !in x && '\n' !in x && '\n' !in y
    requires short == base + "[" + x + "]" && id == short + DASH + y + "]"
    ensures LooksLikeNodeId(id) && NodeId(id + DASH + message) == Some(short)
  {
    DashedIdIsCutShort(base, x, y, message);
  }

  lemma {:induction false} BaseEndIs(base: string, params: string)
    requires '[' !in base && params != "" && params[0] == '['
    ensures BaseEnd(base + params) == |base|
  {
    if base == "" {
      assert base + params == params;
    } else {
      assert (base + params)[1..] == base[1..] + params && (base + params)[0] == base[0];
      BaseEndIs(base[1..], params);
    }
  }

  lemma PlainLooks()
    ensures LooksLikeNodeId("t.py::f")
  {
    var s := "t.py::f";
    SegmentsMakeBase(s);
    WholeIsBase(s);
    assert StartsWith(s[4..], "::");
  }

  lemma {:induction false} WholeIsBase(s: string)
    requires '[' !in s
    ensures BaseEnd(s) == |s| && s[..|s|] == s
  {
    if s != "" { WholeIsBase(s[1..]); }
  }

  lemma SegmentsMakeBase(s: string)
    requires s == "t.py::f"
    ensures IsBase(s)
  {
    assert s[1..] == ".py::f" && s[1..][1..] == "py::f" && s[1..][1..][1..] == "y::f" && s[1..][1..][1..][1..] == "::f";
    assert Segment("::f") == 0;
    assert Segment("y::f") == 1;
    assert Segment("py::f") == 2;
    assert Segment(".py::f") == 3;
    assert Segment(s) == 4;
    assert s[4..] == "::f" && s[6..] == "f";
    assert "f"[1..] == "" && Segment("f") == 1;
  }
}

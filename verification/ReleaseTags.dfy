/** scripts/release_public.py: reading release tags and finding the ones that outrank the current line. */
module ReleaseTags {
  import opened Text
  import opened Versions

  /** The family of the bare `vX.Y.Z` line. */
  const MONOREPO_FAMILY := ""

  const REMOVED_DECLARED := "removed"

  const RETIRED_FAMILIES := ["workbay-stack"]

  datatype Result<+T> = Ok(value: T) | Err

  // ---------- tag names ----------

  datatype Tag = Tag(family: string, version: string)

  function TagName(t: Tag): string {
    if t.family == MONOREPO_FAMILY then "v" + t.version else t.family + "-v" + t.version
  }

  /** Where the last `-` of a tag stands. */
  function LastDash(s: string): (r: Option<nat>)
    ensures r.None? ==> '-' !in s
    ensures r.Some? ==> r.value < |s| && s[r.value] == '-' && '-' !in s[r.value + 1..]
  {
    if s == "" then None
    else if s[|s| - 1] == '-' then Some(|s| - 1)
    else
      var r := LastDash(s[..|s| - 1]);
      assert s == s[..|s| - 1] + [s[|s| - 1]];
      assert r.Some? ==> s[r.value + 1..] == s[..|s| - 1][r.value + 1..] + [s[|s| - 1]];
      r
  }

  predicate IsRelease(t: Tag) { VersionTriple(t.version).Some? }

  /** `_parse_tag`: the bare form is tried first; the version holds no dash, so the `-v` is at the last one. */
  function ParseTag(name: string): Option<Tag> {
    if name != "" && name[0] == 'v' && VersionTriple(name[1..]).Some? then Some(Tag(MONOREPO_FAMILY, name[1..]))
    else
      var dash := LastDash(name);
      if dash.Some? && dash.value > 0 && dash.value + 1 < |name| && name[dash.value + 1] == 'v'
         && VersionTriple(name[dash.value + 2..]).Some?
      then Some(Tag(name[..dash.value], name[dash.value + 2..])) else None
  }

  lemma ReleaseHasNoDash(version: string)
    ensures VersionTriple(version).Some? ==> '-' !in version
  {
    TriplePlain(version);
  }

  lemma DashIsNoVersion(s: string, i: nat)
    requires i < |s| && s[i] == '-'
    ensures VersionTriple(s).None?
  {
    ReleaseHasNoDash(s);
  }

  lemma LastDashIs(s: string, i: nat)
    requires i < |s| && s[i] == '-' && forall k :: i < k < |s| ==> s[k] != '-'
    ensures LastDash(s) == Some(i)
  {
  }

  lemma NameReadsBack(t: Tag)
    requires IsRelease(t)
    ensures ParseTag(TagName(t)) == Some(t)
  {
    var name := TagName(t);
    ReleaseHasNoDash(t.version);
    if t.family == MONOREPO_FAMILY {
      assert name[1..] == t.version;
    } else {
      PackageNameReads(t.family, t.version);
    }
  }

  lemma PackageNameReads(family: string, version: string)
    requires family != "" && VersionTriple(version).Some? && '-' !in version
    ensures ParseTag(family + "-v" + version) == Some(Tag(family, version))
  {
    var name, d := family + "-v" + version, |family|;
    assert name[d + 1..] == "v" + version && name[d + 2..] == version && name[..d] == family;
    DashIsNoVersion(name[1..], d - 1);
    LastDashIs(name, d);
  }

  lemma ReadNameIsName(name: string)
    ensures ParseTag(name).Some? ==> IsRelease(ParseTag(name).value) && name == TagName(ParseTag(name).value)
  {
    if ParseTag(name).Some? {
      if name[0] == 'v' && VersionTriple(name[1..]).Some? {
        assert name == "v" + name[1..];
      } else {
        var d := LastDash(name).value;
        assert |name[..d]| == d && name == name[..d] + "-v" + name[d + 2..];
      }
    }
  }

  /** Every release tag name reads back as its family and version, and no other name reads as that tag. */
  lemma TagRoundTrip(t: Tag, name: string)
    requires IsRelease(t)
    ensures ParseTag(name) == Some(t) <==> name == TagName(t)
  {
    NameReadsBack(t);
    ReadNameIsName(name);
  }

  // ---------- the detector ----------

  /** Name-only detection, or detection limited to commits older than `baseline`; a tag whose commit cannot be read
      has no date. */
  datatype Dating = Undated | Dated(commit: string -> Option<int>, baseline: int)

  datatype StaleTag = StaleTag(tag: string, package: string, version: string, declared: string, committed: Option<int>)

  /** `version` is a release later than `declared`. */
  predicate Outranks(version: string, declared: string) {
    && VersionTriple(version).Some? && VersionTriple(declared).Some?
    && Below(VersionTriple(declared).value, VersionTriple(version).value)
  }

  /** The tag belongs to a family in scope. */
  predicate InScope(declared: map<string, string>, tag: string) {
    ParseTag(tag).Some? && ParseTag(tag).value.family in declared
  }

  /** The tag's family is retired. */
  predicate Retired(declared: map<string, string>, tag: string) {
    InScope(declared, tag) && declared[ParseTag(tag).value.family] == REMOVED_DECLARED
  }

  /** The tag is above its family's line, or its family has none: its date is read if dates are used. */
  predicate Suspect(declared: map<string, string>, tag: string) {
    InScope(declared, tag)
    && var t := ParseTag(tag).value;
       declared[t.family] == REMOVED_DECLARED || Outranks(t.version, declared[t.family])
  }

  predicate Offends(declared: map<string, string>, dating: Dating, tag: string) {
    && Suspect(declared, tag)
    && (Retired(declared, tag) || dating.Undated? ||
        (dating.commit(tag).Some? && dating.commit(tag).value < dating.baseline))
  }

  /** A tag whose family has a declared version that cannot be compared. */
  predicate Unauditable(declared: map<string, string>, tag: string) {
    InScope(declared, tag)
    && var current := declared[ParseTag(tag).value.family];
       current != REMOVED_DECLARED && VersionTriple(current).None?
  }

  /** A tag on which the detector gives up. */
  predicate Blocks(declared: map<string, string>, dating: Dating, tag: string) {
    || Unauditable(declared, tag)
    || (dating.Dated? && Suspect(declared, tag) && dating.commit(tag).None?)
  }

  function Flag(declared: map<string, string>, dating: Dating, tag: string): StaleTag
    requires InScope(declared, tag)
  {
    var t := ParseTag(tag).value;
    StaleTag(tag, t.family, t.version, declared[t.family], if dating.Dated? then dating.commit(tag) else None)
  }

  predicate KeyLe(a: StaleTag, b: StaleTag) {
    if a.package == b.package then !Below(Triple(b), Triple(a)) else Le(a.package, b.package)
  }

  function Triple(s: StaleTag): Version {
    if VersionTriple(s.version).Some? then VersionTriple(s.version).value else Version(0, 0, 0)
  }

  lemma KeyLeIsTotalPreorder()
    ensures TotalPreorder(KeyLe)
  {
    forall a, b ensures KeyLe(a, b) || KeyLe(b, a) { LeTotal(a.package, b.package); }
    forall a, b, c | KeyLe(a, b) && KeyLe(b, c) ensures KeyLe(a, c) {
      if a.package != b.package && b.package != c.package {
        LeTransitive(a.package, b.package, c.package);
        if a.package == c.package { LeAntisymmetric(a.package, b.package); }
      }
    }
  }

  ghost predicate FlagsOnly(found: seq<StaleTag>, declared: map<string, string>, tags: seq<string>, dating: Dating) {
    forall s <- found :: s.tag in tags && Offends(declared, dating, s.tag) && s == Flag(declared, dating, s.tag)
  }

  ghost predicate FlagsAll(found: seq<StaleTag>, declared: map<string, string>, tags: seq<string>, dating: Dating) {
    forall t <- tags :: Offends(declared, dating, t) ==> Flag(declared, dating, t) in found
  }

  datatype Judgement = Pass | Offender | GiveUp

  /** One turn of the detector's loop. */
  method JudgeTag(declared: map<string, string>, tag: string, dating: Dating) returns (j: Judgement)
    ensures j == GiveUp <==> Blocks(declared, dating, tag)
    ensures j == Offender <==> !Blocks(declared, dating, tag) && Offends(declared, dating, tag)
  {
    var parsed := ParseTag(tag);
    if parsed.None? { return Pass; }
    var t := parsed.value;
    if t.family !in declared { return Pass; }
    var version := VersionTriple(t.version);
    if version.None? { return Pass; }
    var current := declared[t.family];
    if current == REMOVED_DECLARED {
      return if dating.Dated? && dating.commit(tag).None? then GiveUp else Offender;
    }
    var line := VersionTriple(current);
    if line.None? { return GiveUp; }
    if !Below(line.value, version.value) { return Pass; }
    if dating.Dated? {
      if dating.commit(tag).None? { return GiveUp; }
      if dating.commit(tag).value >= dating.baseline { return Pass; }
    }
    j := Offender;
  }

  /** The offenders among the tags, in the order of the tags. */
  function Flagged(declared: map<string, string>, tags: seq<string>, dating: Dating): seq<StaleTag> {
    if tags == [] then []
    else
      var last := tags[|tags| - 1];
      Flagged(declared, tags[..|tags| - 1], dating)
      + if Offends(declared, dating, last) then [Flag(declared, dating, last)] else []
  }

  lemma {:induction false} FlaggedExact(declared: map<string, string>, tags: seq<string>, dating: Dating, s: StaleTag)
    ensures s in Flagged(declared, tags, dating) <==>
              s.tag in tags && Offends(declared, dating, s.tag) && s == Flag(declared, dating, s.tag)
  {
    if tags != [] {
      FlaggedExact(declared, tags[..|tags| - 1], dating, s);
      assert tags == tags[..|tags| - 1] + [tags[|tags| - 1]];
    }
  }

  ghost predicate AnyBlocks(declared: map<string, string>, dating: Dating, tags: seq<string>) {
    exists t :: t in tags && Blocks(declared, dating, t)
  }

  lemma FlaggedOneMore(declared: map<string, string>, tags: seq<string>, dating: Dating, i: nat)
    requires i < |tags|
    ensures Blocks(declared, dating, tags[i]) ==> AnyBlocks(declared, dating, tags)
    ensures AnyBlocks(declared, dating, tags[..i + 1]) <==>
      AnyBlocks(declared, dating, tags[..i]) || Blocks(declared, dating, tags[i])
    ensures Flagged(declared, tags[..i + 1], dating) == Flagged(declared, tags[..i], dating)
              + if Offends(declared, dating, tags[i]) then [Flag(declared, dating, tags[i])] else []
  {
    TakeOneMore(tags, i);
    forall t ensures t in tags[..i + 1] <==> t in tags[..i] || t == tags[i] {}
    assert tags[i] in tags;
  }

  method StaleHigherTags(declared: map<string, string>, tags: seq<string>, dating: Dating)
    returns (r: Result<seq<StaleTag>>)
    ensures r.Err? <==> AnyBlocks(declared, dating, tags)
    ensures r.Ok? ==> FlagsOnly(r.value, declared, tags, dating) && FlagsAll(r.value, declared, tags, dating)
    ensures r.Ok? ==> SortedBy(r.value, KeyLe)
  {
    var offenders: seq<StaleTag> := [];
    for i := 0 to |tags|
      invariant !AnyBlocks(declared, dating, tags[..i])
      invariant offenders == Flagged(declared, tags[..i], dating)
    {
      var tag := tags[i];
      FlaggedOneMore(declared, tags, dating, i);
      var judged := JudgeTag(declared, tag, dating);
      if judged == GiveUp { return Err; }
      if judged == Offender { offenders := offenders + [Flag(declared, dating, tag)]; }
    }
    assert tags[..|tags|] == tags;
    SortedFlags(declared, tags, dating);
    r := Ok(Sort(offenders, KeyLe));
  }

  lemma SortedFlags(declared: map<string, string>, tags: seq<string>, dating: Dating)
    ensures var r := Sort(Flagged(declared, tags, dating), KeyLe);
            FlagsOnly(r, declared, tags, dating) && FlagsAll(r, declared, tags, dating) && SortedBy(r, KeyLe)
  {
    var found := Flagged(declared, tags, dating);
    KeyLeIsTotalPreorder();
    SortSorts(found, KeyLe);
    forall s ensures s in Sort(found, KeyLe) <==>
      s.tag in tags && Offends(declared, dating, s.tag) && s == Flag(declared, dating, s.tag)
    {
      SortMembers(found, KeyLe, s);
      FlaggedExact(declared, tags, dating, s);
    }
  }

  // ---------- the local audit ----------

  predicate IsBare(tag: string) { ParseTag(tag).Some? && ParseTag(tag).value.family == MONOREPO_FAMILY }

  /** A bare tag published at or after the baseline. */
  predicate CurrentLine(tag: string, dating: Dating)
    requires dating.Dated?
  {
    IsBare(tag) && dating.commit(tag).Some? && dating.commit(tag).value >= dating.baseline
  }

  /** The highest current-line release, none when there is no current line. */
  ghost predicate IsCeiling(tags: seq<string>, dating: Dating, c: Option<string>)
    requires dating.Dated?
  {
    match c
    case None => forall t <- tags :: !CurrentLine(t, dating)
    case Some(text) =>
      && VersionTriple(text).Some? && text == TextOf(VersionTriple(text).value)
      && (exists t :: t in tags && CurrentLine(t, dating)
            && VersionTriple(ParseTag(t).value.version) == VersionTriple(text))
      && forall t <- tags :: CurrentLine(t, dating) ==> !Outranks(ParseTag(t).value.version, text)
  }

  /** Fails iff the date of a bare tag cannot be read. */
  method MonorepoCurrentCeiling(tags: seq<string>, dating: Dating) returns (c: Result<Option<string>>)
    requires dating.Dated?
    ensures c.Err? <==> exists t :: t in tags && IsBare(t) && dating.commit(t).None?
    ensures c.Ok? ==> IsCeiling(tags, dating, c.value)
  {
    var best: Option<Version> := None;
    for i := 0 to |tags|
      invariant forall j :: 0 <= j < i && IsBare(tags[j]) ==> dating.commit(tags[j]).Some?
      invariant best.None? ==> forall j :: 0 <= j < i ==> !CurrentLine(tags[j], dating)
      invariant best.Some? ==> exists j :: 0 <= j < i && CurrentLine(tags[j], dating)
                                 && VersionTriple(ParseTag(tags[j]).value.version) == best
      invariant best.Some? ==> forall j :: 0 <= j < i && CurrentLine(tags[j], dating) ==>
                                 !Below(best.value, VersionTriple(ParseTag(tags[j]).value.version).value)
    {
      if !IsBare(tags[i]) { continue; }
      if dating.commit(tags[i]).None? {
        assert tags[i] in tags;
        return Err;
      }
      if dating.commit(tags[i]).value < dating.baseline { continue; }
      var triple := VersionTriple(ParseTag(tags[i]).value.version);
      if best.None? || Below(best.value, triple.value) { best := triple; }
    }
    if best.None? {
      return Ok(None);
    }
    TripleOfText(best.value);
    c := Ok(Some(TextOf(best.value)));
  }

  /** Only the current-line tags decide the ceiling. */
  lemma CeilingDecided(a: seq<string>, b: seq<string>, dating: Dating, c: Option<string>, d: Option<string>)
    requires dating.Dated? && IsCeiling(a, dating, c) && IsCeiling(b, dating, d)
    requires forall t :: CurrentLine(t, dating) ==> (t in a <==> t in b)
    ensures c == d
  {
  }

  /** `_audit_declared`: the release packages, the retired families, and the monorepo ceiling if any. */
  function Declared(packages: map<string, string>, ceiling: Option<string>): map<string, string> {
    var named := Retire(packages, RETIRED_FAMILIES);
    if ceiling.Some? then named[MONOREPO_FAMILY := ceiling.value] else named
  }

  /** Every family the audit covers, and against what: the ceiling for bare tags, nothing for the retired family, and
      the declared version for every other package. */
  lemma DeclaredExact(packages: map<string, string>, ceiling: Option<string>, family: string, current: string)
    ensures
      var covered := family in Declared(packages, ceiling) && Declared(packages, ceiling)[family] == current;
      covered <==>
        if family == "" && ceiling.Some? then current == ceiling.value
        else if family == "workbay-stack" then current == "removed"
        else family in packages && packages[family] == current
  {
    assert family in RETIRED_FAMILIES <==> family == "workbay-stack";
  }

  function Retire(declared: map<string, string>, families: seq<string>): (r: map<string, string>)
    ensures forall f :: f in r <==> f in declared || f in families
    ensures forall f :: f in r ==> r[f] == if f in families then REMOVED_DECLARED else declared[f]
  {
    if families == [] then declared
    else Retire(declared, families[..|families| - 1])[families[|families| - 1] := REMOVED_DECLARED]
  }

  /** What git answers about commit dates: that of the rebrand baseline, and that of each tag's commit. */
  datatype History = History(baseline: Option<int>, commit: string -> Option<int>)

  /** The audit's answer: an error if a date it needs cannot be read or a family cannot be compared, else the offenders
      against the packages, the retired families and the ceiling of these very tags. */
  ghost predicate IsAudit(packages: map<string, string>, tags: seq<string>, h: History, r: Result<seq<StaleTag>>) {
    if h.baseline.None? || (exists t :: t in tags && IsBare(t) && h.commit(t).None?) then r.Err?
    else
      var dating := Dated(h.commit, h.baseline.value);
      exists c :: IsCeiling(tags, dating, c) && AuditWith(Declared(packages, c), tags, dating, r)
  }

  ghost predicate AuditWith(declared: map<string, string>, tags: seq<string>, dating: Dating,
                            r: Result<seq<StaleTag>>) {
    && (r.Err? <==> exists t :: t in tags && Blocks(declared, dating, t))
    && (r.Ok? ==> FlagsOnly(r.value, declared, tags, dating) && FlagsAll(r.value, declared, tags, dating))
  }

  /** `audit_stale_tags`; `packages` maps each release package to its declared version. */
  method AuditStaleTags(packages: map<string, string>, tags: seq<string>, h: History)
    returns (r: Result<seq<StaleTag>>)
    ensures IsAudit(packages, tags, h, r)
    ensures r.Ok? ==> SortedBy(r.value, KeyLe)
  {
    if h.baseline.None? { return Err; }
    var dating := Dated(h.commit, h.baseline.value);
    var ceiling := MonorepoCurrentCeiling(tags, dating);
    if ceiling.Err? { return Err; }
    r := StaleHigherTags(Declared(packages, ceiling.value), tags, dating);
    assert AuditWith(Declared(packages, ceiling.value), tags, dating, r);
  }

  function TagsOf(found: seq<StaleTag>): (r: seq<string>)
    ensures |r| == |found| && forall i :: 0 <= i < |r| ==> r[i] == found[i].tag
  {
    seq(|found|, i requires 0 <= i < |found| => found[i].tag)
  }

  lemma TagsOfFound(found: seq<StaleTag>, declared: map<string, string>, tags: seq<string>, dating: Dating, t: string)
    requires FlagsOnly(found, declared, tags, dating) && FlagsAll(found, declared, tags, dating)
    ensures t in TagsOf(found) <==> t in tags && Offends(declared, dating, t)
  {
    if t in tags && Offends(declared, dating, t) {
      var i :| 0 <= i < |found| && found[i] == Flag(declared, dating, t);
      assert TagsOf(found)[i] == t;
    }
  }

  /** The ceiling and the offenders behind an audit that found `found`. */
  lemma AuditFound(packages: map<string, string>, tags: seq<string>, h: History, found: seq<StaleTag>)
    returns (c: Option<string>)
    requires IsAudit(packages, tags, h, Ok(found))
    ensures h.baseline.Some? && forall t :: t in tags && IsBare(t) ==> h.commit(t).Some?
    ensures var dating := Dated(h.commit, h.baseline.value);
      && IsCeiling(tags, dating, c)
      && (forall t :: t in tags ==> !Blocks(Declared(packages, c), dating, t))
      && (forall t :: t in TagsOf(found) <==> t in tags && Offends(Declared(packages, c), dating, t))
  {
    var dating := Dated(h.commit, h.baseline.value);
    c :| IsCeiling(tags, dating, c) && AuditWith(Declared(packages, c), tags, dating, Ok(found));
    forall t ensures t in TagsOf(found) <==> t in tags && Offends(Declared(packages, c), dating, t) {
      TagsOfFound(found, Declared(packages, c), tags, dating, t);
    }
  }

  /** Deleting any of the offenders leaves the ceiling, and so the verdict on every other tag, where it was: a
      second audit finds exactly the offenders that remain. */
  lemma AuditAfterDeleting(packages: map<string, string>, tags: seq<string>, left: seq<string>, h: History,
                           first: seq<StaleTag>, second: Result<seq<StaleTag>>)
    requires MONOREPO_FAMILY !in packages
    requires IsAudit(packages, tags, h, Ok(first)) && IsAudit(packages, left, h, second)
    requires forall t :: t in left ==> t in tags
    requires forall t :: t in tags && t !in left ==> t in TagsOf(first)
    ensures second.Ok?
    ensures forall t :: t in TagsOf(second.value) <==> t in TagsOf(first) && t in left
  {
    var c := AuditFound(packages, tags, h, first);
    var dating := Dated(h.commit, h.baseline.value);
    var d :| IsCeiling(left, dating, d) && AuditWith(Declared(packages, d), left, dating, second);
    CurrentLineStays(packages, tags, left, dating, c, TagsOf(first));
    CeilingDecided(tags, left, dating, c, d);
    var e := AuditFound(packages, left, h, second.value);
    CeilingDecided(tags, left, dating, c, e);
  }

  /** No offender belongs to the current line, so deleting offenders leaves the current line alone. */
  lemma CurrentLineStays(packages: map<string, string>, tags: seq<string>, left: seq<string>, dating: Dating,
                         c: Option<string>, found: seq<string>)
    requires dating.Dated? && MONOREPO_FAMILY !in packages && IsCeiling(tags, dating, c)
    requires forall t :: t in found ==> Offends(Declared(packages, c), dating, t)
    requires forall t :: t in left ==> t in tags
    requires forall t :: t in tags && t !in left ==> t in found
    ensures forall t :: CurrentLine(t, dating) ==> (t in tags <==> t in left)
  {
    assert MONOREPO_FAMILY !in RETIRED_FAMILIES;
    forall t | CurrentLine(t, dating) ensures !Offends(Declared(packages, c), dating, t) {
      if c.Some? { assert c.value != REMOVED_DECLARED by { RemovedIsNoVersion(); } }
    }
  }

  lemma RemovedIsNoVersion()
    ensures VersionTriple(REMOVED_DECLARED).None?
  {
    assert REMOVED_DECLARED[0] == 'r';
    TriplePlain(REMOVED_DECLARED);
  }
}

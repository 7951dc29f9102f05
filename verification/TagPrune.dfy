/** scripts/prune_stale_tags.py and the publish run of scripts/release_public.py: what the mirror and the local
    clone hold after every outcome. */
module TagPrune {
  import opened Text
  import opened Versions
  import opened ReleaseTags

  datatype Outcome = Done(exit: int) | Raised

  /** How the world answers one interaction: tags other people have deleted from the mirror by then, whether a read of
      the mirror succeeds, whether a delete times out, which raises, and else its exit status; `removed` is what a
      delete that did not succeed has removed all the same. */
  datatype Reply = Reply(gone: set<string>, readable: bool, timedOut: bool, exit: int, removed: set<string>)

  predicate Succeeds(r: Reply) { !r.timedOut && r.exit == 0 }

  /** A delete that gets this reply removes the tag. */
  ghost predicate Falls(tag: string, r: Reply) { (!r.timedOut && r.exit == 0) || tag in r.removed }

  class Clone {
    var mirror: set<string>
    var local: seq<string>
    var tick: nat
    const world: nat -> Reply

    constructor (mirror: set<string>, local: seq<string>, world: nat -> Reply)
      ensures this.mirror == mirror && this.local == local && this.world == world
    {
      this.mirror, this.local, this.world, tick := mirror, local, world, 0;
    }

    /** Deleted by someone else at some point of the run. */
    ghost predicate Elsewhere(tag: string) { exists k: nat :: tag in world(k).gone }

    /** Every read of the mirror and every delete succeeds. */
    ghost predicate Smooth() { forall k: nat :: world(k).readable && Succeeds(world(k)) }

    /** The n interactions from the given one on can be read, when they are reads. */
    ghost predicate Readable(start: nat, n: nat) {
      forall k: nat :: start <= k < start + n ==> world(k).readable
    }

    /** From the given interaction on every delete succeeds. */
    ghost predicate Deletes(start: nat) { forall k: nat :: start <= k ==> Succeeds(world(k)) }

    /** Nothing is added to the mirror, and only `tags` are removed from it here. */
    twostate predicate Shrinks(tags: seq<string>)
      reads this
    {
      && mirror <= old(mirror)
      && forall t :: t in old(mirror) && t !in mirror ==> t in tags || Elsewhere(t)
    }

    /** `tag in _mirror_tag_set(remote)`, none when the mirror cannot be read. */
    method OnMirror(tag: string) returns (r: Option<bool>)
      modifies this`mirror, this`tick
      ensures Shrinks([]) && mirror == old(mirror) - world(old(tick)).gone && tick == old(tick) + 1
      ensures r == if world(old(tick)).readable then Some(tag in mirror) else None
    {
      var reply := world(tick);
      tick := tick + 1;
      mirror := mirror - reply.gone;
      r := if reply.readable then Some(tag in mirror) else None;
    }

    /** `git push --delete`: on success the tag is gone, on failure it may be. */
    method PushDelete(tag: string) returns (o: Outcome)
      modifies this`mirror, this`tick
      ensures Shrinks([tag]) && tick == old(tick) + 1
      ensures var r := world(old(tick));
        && (o == Raised <==> r.timedOut) && (o.Done? ==> o.exit == r.exit)
        && (tag in mirror <==> tag in old(mirror) && tag !in r.gone && tag !in r.removed && !Succeeds(r))
    {
      var reply := world(tick);
      tick := tick + 1;
      mirror := mirror - reply.gone;
      if Succeeds(reply) || tag in reply.removed { mirror := mirror - {tag}; }
      o := if reply.timedOut then Raised else Done(reply.exit);
    }

    /** The tags of the list that a fresh read of the mirror shows; none when a read fails. */
    method PresentOnMirror(tags: seq<string>) returns (r: Option<seq<string>>)
      modifies this`mirror, this`tick
      ensures Shrinks([])
      ensures r.Some? ==> forall t :: t in r.value ==> t in tags && t in old(mirror)
      ensures r.Some? ==> forall t :: t in tags && t in mirror ==> t in r.value
      ensures r.Some? <==> Readable(old(tick), |tags|)
      ensures r.Some? ==> tick == old(tick) + |tags|
    {
      var present: seq<string> := [];
      for i := 0 to |tags|
        invariant Shrinks([]) && tick == old(tick) + i && Readable(old(tick), i)
        invariant forall t :: t in present ==> t in tags && t in old(mirror)
        invariant forall j :: 0 <= j < i && tags[j] in mirror ==> tags[j] in present
      {
        var seen := OnMirror(tags[i]);
        if seen.None? { return None; }
        if seen.value { present := present + [tags[i]]; }
      }
      r := Some(present);
    }

    /** `_delete_mirror_tags`. */
    method DeleteMirrorTags(tags: seq<string>) returns (o: Outcome)
      modifies this`mirror, this`tick
      ensures Shrinks(tags)
      ensures o == Done(0) ==> forall t :: t in tags ==> t !in mirror
      ensures o.Done? && o.exit != 0 ==> exists t :: t in tags && t in mirror
      ensures Readable(old(tick), |tags|) && Deletes(old(tick) + |tags|) ==> o == Done(0)
    {
      var present := PresentOnMirror(tags);
      if present.None? { return Raised; }
      for i := 0 to |present.value|
        invariant Shrinks(tags) && tick >= old(tick) + |tags|
        invariant forall j :: 0 <= j < i ==> present.value[j] !in mirror
        invariant forall t :: t in tags && t in mirror ==> t in present.value
      {
        var tag := present.value[i];
        var deleted := PushDelete(tag);
        if deleted.Raised? { return Raised; }
        if deleted.exit == 0 { continue; }
        var seen := OnMirror(tag);
        if seen.None? { return Raised; }
        if !seen.value { continue; }
        return deleted;
      }
      o := Done(0);
    }

    /** `_delete_local_tags`: a `git tag -d` that fails or times out may still have removed some of the tags. */
    method DeleteLocalTags(tags: seq<string>) returns (o: Outcome)
      modifies this`local, this`tick
      ensures local == Without(old(local), set t | t in tags && t !in local)
      ensures o == Done(0) ==> forall t :: t in tags ==> t !in local
      ensures o == Raised <==> tags != [] && world(old(tick)).timedOut
      ensures tick == old(tick) + if tags == [] then 0 else 1
      ensures o.Done? ==> o.exit == if tags == [] then 0 else world(old(tick)).exit
      ensures tags != [] ==>
        forall t :: t in local <==> t in old(local) && !(t in tags && Falls(t, world(old(tick))))
    {
      if tags == [] {
        assert (set t | t in tags && t !in local) == {};
        WithoutNone(local);
        return Done(0);
      }
      var reply := world(tick);
      tick := tick + 1;
      var dropped := set t | t in tags && (Succeeds(reply) || t in reply.removed);
      ghost var was := local;
      local := Without(local, dropped);
      WithoutExact(was, dropped);
      WithoutSame(was, dropped, set t | t in tags && t !in local);
      o := if reply.timedOut then Raised else Done(reply.exit);
    }

    /** `_execute_prune`: the mirror first; the local tags stay while the mirror still carries one of them. */
    method ExecutePrune(tags: seq<string>) returns (o: Outcome)
      requires forall t :: t in tags ==> t in local
      modifies this
      ensures Shrinks(tags)
      ensures local == Without(old(local), set t | t in tags && t !in local)
      ensures forall t :: t in tags && t in mirror ==> t in local
      ensures o == Done(0) ==> forall t :: t in tags ==> t !in mirror && t !in local
      ensures Smooth() ==> o == Done(0)
    {
      WithoutNone(local);
      assert (set t | t in tags && t !in local) == {};
      var first := DeleteMirrorTags(tags);
      if first.Raised? { return Raised; }
      if first.exit != 0 {
        var remaining := PresentOnMirror(tags);
        if remaining.None? { return Raised; }
        if remaining.value != [] { return first; }
      }
      o := DeleteLocalTags(tags);
    }

    /** The confirmed `--execute` run: audit the local clone, then prune what the audit found. Whatever happens, every
        offender the mirror still carries is found again by the next audit; after full success it finds none. */
    method Prune(packages: map<string, string>, h: History)
      returns (o: Outcome, ghost found: Result<seq<StaleTag>>)
      requires MONOREPO_FAMILY !in packages
      modifies this
      ensures IsAudit(packages, old(local), h, found)
      ensures found.Err? ==> o.Raised? && unchanged(this)
      ensures found.Ok? ==>
        && Shrinks(TagsOf(found.value))
        && (forall t :: t in old(local) && t !in TagsOf(found.value) ==> t in local)
        && (forall t :: t in TagsOf(found.value) && t in mirror ==> t in local)
        && (Smooth() ==> o == Done(0))
        && forall second :: IsAudit(packages, local, h, second) ==> Leftovers(found.value, second, local, o)
    {
      var audit := AuditStaleTags(packages, local, h);
      found := audit;
      if audit.Err? { return Raised, found; }
      ghost var was := local;
      var tags := TagsOf(audit.value);
      o := ExecutePrune(tags);
      WithoutExact(was, set t | t in tags && t !in local);
      assert PrunedTo(audit.value, was, local);
      NextAudit(packages, was, local, h, audit.value, o);
    }
  }

  /** `left` is `tags` with some of the found offenders deleted. */
  ghost predicate PrunedTo(found: seq<StaleTag>, tags: seq<string>, left: seq<string>) {
    && (forall t :: t in left ==> t in tags)
    && forall t :: t in tags && t !in left ==> t in TagsOf(found)
  }

  lemma NextAudit(packages: map<string, string>, tags: seq<string>, left: seq<string>, h: History,
                  found: seq<StaleTag>, o: Outcome)
    requires MONOREPO_FAMILY !in packages
    requires IsAudit(packages, tags, h, Ok(found)) && PrunedTo(found, tags, left)
    requires o == Done(0) ==> forall t :: t in TagsOf(found) ==> t !in left
    ensures forall second :: IsAudit(packages, left, h, second) ==> Leftovers(found, second, left, o)
  {
    forall second | IsAudit(packages, left, h, second) ensures Leftovers(found, second, left, o) {
      AuditAfterDeleting(packages, tags, left, h, found, second);
      FoundIsTagged(second.value);
    }
  }

  lemma FoundIsTagged(found: seq<StaleTag>)
    ensures found != [] ==> exists t :: t in TagsOf(found)
  {
    if found != [] { assert TagsOf(found)[0] in TagsOf(found); }
  }

  /** What the next audit reports: the offenders that are still local, and none after full success. */
  ghost predicate Leftovers(first: seq<StaleTag>, second: Result<seq<StaleTag>>, local: seq<string>, o: Outcome) {
    && second.Ok?
    && (forall t :: t in TagsOf(second.value) <==> t in TagsOf(first) && t in local)
    && (o == Done(0) ==> second.value == [])
  }

  // ---------- publishing ----------

  /** The release being published: the monorepo tag, the released packages and their declared versions. */
  datatype Plan = Plan(monorepoTag: string, drifted: bool, packages: seq<string>, versions: map<string, string>)

  ghost predicate ValidPlan(p: Plan) {
    forall q :: q in p.packages ==> q in p.versions && q != ""
  }

  /** How each step of a publish run goes; a failing tag push may still have landed some tags. */
  datatype Steps = Steps(readable: bool, exportOk: bool, checkExit: int, pushOk: bool, tagsOk: bool,
                         landed: set<string>, originExit: int)

  function PackageTag(p: Plan, package: string): string
    requires package in p.versions
  {
    package + "-v" + p.versions[package]
  }

  /** The tags a tag-sync pushes. */
  function SyncTags(p: Plan): (r: seq<string>)
    requires ValidPlan(p)
    ensures forall t :: t in r <==> t == p.monorepoTag || exists q :: q in p.packages && t == PackageTag(p, q)
  {
    var packages := seq(|p.packages|, i requires 0 <= i < |p.packages| =>
      assert p.packages[i] in p.packages; PackageTag(p, p.packages[i]));
    assert forall i :: 0 <= i < |packages| ==> packages[i] == PackageTag(p, p.packages[i]);
    packages + [p.monorepoTag]
  }

  /** What the mirror guard compares against: the released line, nothing for a retired family, and the version
      part of the monorepo tag for the bare family. */
  function GuardDeclared(p: Plan): map<string, string>
    requires ValidPlan(p)
  {
    var named := Retire(map q | q in p.packages :: p.versions[q], RETIRED_FAMILIES);
    var mono := ParseTag(p.monorepoTag);
    if mono.Some? then named[MONOREPO_FAMILY := mono.value.version] else named
  }

  /** No release tag of the family outranks `version`. */
  ghost predicate Highest(tags: set<string>, family: string, version: string) {
    forall t :: t in tags && ParseTag(t).Some? && ParseTag(t).value.family == family ==>
      !Outranks(ParseTag(t).value.version, version)
  }

  /** The mirror after a sync that landed `pushed`. */
  ghost predicate Synced(p: Plan, before: set<string>, after: set<string>)
    requires ValidPlan(p)
  {
    && before <= after
    && forall t :: t in after ==> t in before || t in SyncTags(p)
  }

  /** The guard found nothing on the mirror. */
  ghost predicate Guarded(p: Plan, mirror: set<string>)
    requires ValidPlan(p)
  {
    forall t :: t in mirror ==> !Offends(GuardDeclared(p), Undated, t) && !Unauditable(GuardDeclared(p), t)
  }

  /** The monorepo tag has the bare shape `vX.Y.Z`. */
  predicate BareTag(p: Plan) {
    ParseTag(p.monorepoTag).Some? && ParseTag(p.monorepoTag).value.family == MONOREPO_FAMILY
  }

  /** Released versions are three-part. */
  ghost predicate ThreePart(p: Plan)
    requires ValidPlan(p)
  {
    forall q :: q in p.packages ==> VersionTriple(p.versions[q]).Some?
  }

  lemma SyncTagReads(p: Plan, t: string)
    requires ValidPlan(p) && ThreePart(p) && t in SyncTags(p) && t != p.monorepoTag
    ensures ParseTag(t).Some? && ParseTag(t).value.family in p.packages
    ensures ParseTag(t).value.version == p.versions[ParseTag(t).value.family]
  {
    var q :| q in p.packages && t == PackageTag(p, q);
    NameReadsBack(Tag(q, p.versions[q]));
  }

  /** After a guarded sync a released package's version is the highest of its family on the mirror, except exactly
      when the monorepo tag itself is a higher tag of that family. */
  lemma GuardedSyncIsHighest(p: Plan, before: set<string>, after: set<string>, package: string)
    requires ValidPlan(p) && ThreePart(p) && Guarded(p, before) && Synced(p, before, after) && package in p.packages
    requires p.monorepoTag in after
    ensures Highest(after, package, p.versions[package]) <==>
      !(&& ParseTag(p.monorepoTag).Some? && ParseTag(p.monorepoTag).value.family == package
        && Outranks(ParseTag(p.monorepoTag).value.version, p.versions[package]))
  {
    forall t | t in after && t != p.monorepoTag && ParseTag(t).Some? && ParseTag(t).value.family == package
      ensures !Outranks(ParseTag(t).value.version, p.versions[package])
    {
      if t in before { GuardedTag(p, before, package, t); } else { SyncTagReads(p, t); }
    }
  }

  /** What the guard says about one tag of a released family on the mirror. */
  lemma GuardedTag(p: Plan, mirror: set<string>, package: string, t: string)
    requires ValidPlan(p) && ThreePart(p) && Guarded(p, mirror) && package in p.packages && t in mirror
    requires ParseTag(t).Some? && ParseTag(t).value.family == package
    ensures !Outranks(ParseTag(t).value.version, p.versions[package])
  {
    var declared := GuardDeclared(p);
    assert InScope(declared, t);
    assert declared[package] == REMOVED_DECLARED || declared[package] == p.versions[package];
  }

  /** A monorepo tag of the bare shape keeps the guard's promise for every released family and for its own. */
  lemma GuardKeepsPromise(p: Plan, before: set<string>, after: set<string>)
    requires ValidPlan(p) && ThreePart(p) && Guarded(p, before) && Synced(p, before, after)
    requires p.monorepoTag in after && BareTag(p)
    ensures forall q :: q in p.packages ==> Highest(after, q, p.versions[q])
    ensures Highest(after, MONOREPO_FAMILY, ParseTag(p.monorepoTag).value.version)
  {
    forall q | q in p.packages ensures Highest(after, q, p.versions[q]) { GuardedSyncIsHighest(p, before, after, q); }
    var version := ParseTag(p.monorepoTag).value.version;
    forall t | t in after && ParseTag(t).Some? && ParseTag(t).value.family == MONOREPO_FAMILY
      ensures !Outranks(ParseTag(t).value.version, version)
    {
      if t in before {
        assert InScope(GuardDeclared(p), t);
        ReadNameIsName(p.monorepoTag);
        assert VersionTriple(version).Some? && GuardDeclared(p)[MONOREPO_FAMILY] == version;
      } else if t != p.monorepoTag {
        SyncTagReads(p, t);
      }
    }
  }

  /** The guard reads only the version part of the monorepo tag: for any package, a monorepo tag shaped like a higher
      tag of it would slip past and top its family. */
  lemma PackageShapedMonorepoTagSlipsPast(package: string, released: string, higher: string)
    requires package != "" && Outranks(higher, released)
    ensures var p := Plan(TagName(Tag(package, higher)), false, [package], map[package := released]);
      ValidPlan(p) && ThreePart(p) && Guarded(p, {}) && !Highest((set t | t in SyncTags(p)), package, released)
  {
    var p := Plan(TagName(Tag(package, higher)), false, [package], map[package := released]);
    NameReadsBack(Tag(package, higher));
    assert p.monorepoTag in (set t | t in SyncTags(p));
  }

  // ---------- which monorepo tags the release plan suggests ----------

  /** The names `git tag -l 'v[0-9]*'` lists. */
  predicate LikeVersion(name: string) { |name| >= 2 && name[0] == 'v' && IsDigit(name[1]) }

  /** Where the first dot stands, or the length. */
  function FirstDot(s: string): (n: nat)
    ensures n <= |s| && '.' !in s[..n] && (n < |s| ==> s[n] == '.')
  {
    if s == "" || s[0] == '.' then 0
    else
      var n := FirstDot(s[1..]);
      assert s[..n + 1] == [s[0]] + s[1..][..n];
      n + 1
  }

  function AfterDot(s: string): string { if FirstDot(s) < |s| then s[FirstDot(s) + 1..] else "" }

  function IntText(n: int): string { if n < 0 then "-" + Decimal(-n) else Decimal(n) }

  /** The text is the number's digits, after a minus sign if it is negative. */
  lemma IntTextReads(n: int)
    ensures n >= 0 ==> AllDigits(IntText(n)) && ParseDecimal(IntText(n)) == n
    ensures n < 0 ==> exists digits ::
      IntText(n) == "-" + digits && AllDigits(digits) && ParseDecimal(digits) == -n
  {
    ParseOfDecimal(if n < 0 then -n else n);
  }

  /** `next_monorepo_tag` of scripts/release.sh: the latest listed tag with one added to what stands after its second
      dot. `value` is what the shell makes of that text as a number, none when it gives up. */
  function NextMonorepoTag(latest: Option<string>, value: string -> Option<int>): string
    requires latest.Some? ==> LikeVersion(latest.value)
  {
    if latest.None? then "v0.1.0"
    else
      var text := latest.value[1..];
      var rest := AfterDot(text);
      var patch := value(AfterDot(rest));
      if patch.None? then ""
      else "v" + text[..FirstDot(text)] + "." + rest[..FirstDot(rest)] + "." + IntText(patch.value + 1)
  }

  lemma FirstSuggestion(value: string -> Option<int>)
    ensures NextMonorepoTag(None, value) == "v" + TextOf(Version(0, 1, 0))
  {
    assert Decimal(0) == "0" && Decimal(1) == "1";
  }

  /** Whatever tags the clone holds, a suggested tag starts with `v` and a digit. */
  lemma SuggestionIsLikeVersion(latest: Option<string>, value: string -> Option<int>)
    requires latest.Some? ==> LikeVersion(latest.value)
    ensures NextMonorepoTag(latest, value) != "" ==> LikeVersion(NextMonorepoTag(latest, value))
  {
    if latest.Some? {
      var text := latest.value[1..];
      assert FirstDot(text) > 0;
      assert text[..FirstDot(text)][0] == text[0] == latest.value[1];
    }
  }

  /** The family a name like a version belongs to is the bare one or itself like a version. */
  lemma FamilyIsLikeVersion(name: string)
    requires LikeVersion(name) && ParseTag(name).Some?
    ensures var family := ParseTag(name).value.family; family == MONOREPO_FAMILY || LikeVersion(family)
  {
    ReadNameIsName(name);
    var family := ParseTag(name).value.family;
    if family != MONOREPO_FAMILY {
      assert name[0] == family[0];
      assert name[1] == if |family| == 1 then '-' else family[1];
    }
  }

  /** With a suggested monorepo tag the guard keeps its promise for every package whose name is not itself like a
      version; no such package is exposed to what the guard does not read. */
  lemma SuggestedTagKeepsPromise(p: Plan, before: set<string>, after: set<string>, package: string)
    requires ValidPlan(p) && ThreePart(p) && Guarded(p, before) && Synced(p, before, after) && package in p.packages
    requires p.monorepoTag in after && LikeVersion(p.monorepoTag) && !LikeVersion(package)
    ensures Highest(after, package, p.versions[package])
  {
    GuardedSyncIsHighest(p, before, after, package);
    if ParseTag(p.monorepoTag).Some? { FamilyIsLikeVersion(p.monorepoTag); }
  }

  lemma {:induction false} FirstDotOf(a: string, rest: string)
    requires '.' !in a
    ensures FirstDot(a + "." + rest) == |a|
  {
    var s := a + "." + rest;
    if a == "" {
      assert s[0] == '.';
    } else {
      assert s[0] == a[0] && a[0] in a;
      assert s[1..] == a[1..] + "." + rest;
      FirstDotOf(a[1..], rest);
    }
  }

  lemma SplitsAtDot(a: string, rest: string)
    requires '.' !in a
    ensures var s := a + "." + rest; s[..FirstDot(s)] == a && AfterDot(s) == rest
  {
    FirstDotOf(a, rest);
    var s := a + "." + rest;
    assert s[..|a|] == a && s[|a| + 1..] == rest;
  }

  /** Of a tag with two dots the suggestion raises what follows the second. */
  lemma SuggestionRaisesLast(head: string, minor: string, patch: string, value: string -> Option<int>)
    requires |head| >= 2 && head[0] == 'v' && IsDigit(head[1]) && '.' !in head && '.' !in minor
    requires value(patch).Some?
    ensures LikeVersion(head + "." + (minor + "." + patch))
    ensures NextMonorepoTag(Some(head + "." + (minor + "." + patch)), value)
         == head + "." + (minor + "." + IntText(value(patch).value + 1))
  {
    var name := head + "." + (minor + "." + patch);
    assert '.' !in head[1..];
    assert name[1..] == head[1..] + "." + (minor + "." + patch);
    SplitsAtDot(head[1..], minor + "." + patch);
    SplitsAtDot(minor, patch);
    var last := IntText(value(patch).value + 1);
    assert "v" + head[1..] == head;
    JoinThree(head + ".", minor, ".");
    JoinThree(head + ".", minor + ".", last);
  }

  /** Of a release tag of any family whose name holds no dot, the suggestion is the next patch of that family. */
  lemma SuggestionIsNextPatch(family: string, v: Version, value: string -> Option<int>)
    requires family == MONOREPO_FAMILY || (LikeVersion(family) && '.' !in family)
    requires value(Decimal(v.patch)) == Some(v.patch)
    ensures LikeVersion(TagName(Tag(family, TextOf(v))))
    ensures NextMonorepoTag(Some(TagName(Tag(family, TextOf(v)))), value)
         == TagName(Tag(family, TextOf(v.(patch := v.patch + 1))))
  {
    var head := (if family == MONOREPO_FAMILY then "v" else family + "-v") + Decimal(v.major);
    var minor, patch, next := Decimal(v.minor), Decimal(v.patch), Decimal(v.patch + 1);
    assert '.' !in Decimal(v.major) && '.' !in minor && '.' !in head;
    assert IsDigit(head[1]) by { assert family == MONOREPO_FAMILY ==> head[1] == Decimal(v.major)[0]; }
    SuggestionRaisesLast(head, minor, patch, value);
    NameByHead(family, v, head);
    NameByHead(family, v.(patch := v.patch + 1), head);
  }

  lemma NameByHead(family: string, v: Version, head: string)
    requires head == (if family == MONOREPO_FAMILY then "v" else family + "-v") + Decimal(v.major)
    ensures TagName(Tag(family, TextOf(v))) == head + "." + (Decimal(v.minor) + "." + Decimal(v.patch))
  {
  }

  /** A package named like a version is exposed: its own latest tag makes the plan suggest the tag after it, which the
      guard lets through and which tops the package's released version. */
  lemma PackageLikeVersionIsExposed(package: string, v: Version, released: string, value: string -> Option<int>)
    requires LikeVersion(package) && '.' !in package && value(Decimal(v.patch)) == Some(v.patch)
    requires Outranks(TextOf(v.(patch := v.patch + 1)), released)
    ensures LikeVersion(TagName(Tag(package, TextOf(v))))
    ensures var suggested := NextMonorepoTag(Some(TagName(Tag(package, TextOf(v)))), value);
            var p := Plan(suggested, false, [package], map[package := released]);
      ValidPlan(p) && ThreePart(p) && Guarded(p, {}) && !Highest((set t | t in SyncTags(p)), package, released)
  {
    SuggestionIsNextPatch(package, v, value);
    PackageShapedMonorepoTagSlipsPast(package, released, TextOf(v.(patch := v.patch + 1)));
  }

  lemma NothingFlagged(found: seq<StaleTag>, declared: map<string, string>, tags: seq<string>)
    requires FlagsAll(found, declared, tags, Undated) && FlagsOnly(found, declared, tags, Undated)
    ensures found == [] <==> forall t :: t in tags ==> !Offends(declared, Undated, t)
  {
    if found != [] { assert found[0] in found; }
  }

  /** What must hold before anything is exported: a tag to publish, no payload drift, a readable mirror, and a
      guard that could compare every family and found nothing higher, unless that is overridden. */
  ghost predicate Cleared(p: Plan, allowHigher: bool, mirror: set<string>, s: Steps)
    requires ValidPlan(p)
  {
    && p.monorepoTag != "" && !p.drifted && s.readable
    && (forall t :: t in mirror ==> !Unauditable(GuardDeclared(p), t))
    && (allowHigher || Guarded(p, mirror))
  }

  /** The guard has a version it cannot compare with some tag on the mirror. */
  ghost predicate Incomparable(p: Plan, mirror: set<string>, s: Steps)
    requires ValidPlan(p)
  {
    p.monorepoTag != "" && !p.drifted && s.readable && exists t :: t in mirror && Unauditable(GuardDeclared(p), t)
  }

  class Publisher {
    var mirror: set<string>
    var mainPushed: bool

    constructor (mirror: set<string>)
      ensures this.mirror == mirror && !mainPushed
    {
      this.mirror, mainPushed := mirror, false;
    }

    /** `_execute`. `listing` is the order in which the mirror lists its tags. */
    method Publish(p: Plan, allowHigher: bool, listing: seq<string>, s: Steps) returns (o: Outcome)
      requires ValidPlan(p) && forall t :: t in listing <==> t in mirror
      modifies this
      ensures var pushed := Cleared(p, allowHigher, old(mirror), s) && s.exportOk && s.checkExit == 0 && s.pushOk;
        && mainPushed == (old(mainPushed) || pushed)
        && mirror == old(mirror) + (if pushed then set t | t in SyncTags(p) && (s.tagsOk || t in s.landed) else {})
        && (o == Done(0) <==> pushed && s.tagsOk && s.originExit == 0)
      ensures !Cleared(p, allowHigher, old(mirror), s) ==>
        o == if Incomparable(p, old(mirror), s) then Raised else Done(1)
      ensures Cleared(p, allowHigher, old(mirror), s) ==>
        && (o == Raised <==> !s.exportOk || (s.checkExit == 0 && !(s.pushOk && s.tagsOk)))
        && (o.Done? ==> o.exit == if s.checkExit != 0 then s.checkExit else s.originExit)
      ensures Synced(p, old(mirror), mirror)
      ensures o == Done(0) && !allowHigher && ThreePart(p) && BareTag(p) ==>
        && (forall q :: q in p.packages ==> PackageTag(p, q) in mirror && Highest(mirror, q, p.versions[q]))
        && p.monorepoTag in mirror && Highest(mirror, MONOREPO_FAMILY, ParseTag(p.monorepoTag).value.version)
      ensures o == Done(0) && !allowHigher && ThreePart(p) && LikeVersion(p.monorepoTag) ==>
        forall q :: q in p.packages && !LikeVersion(q) ==> Highest(mirror, q, p.versions[q])
    {
      if p.monorepoTag == "" { return Done(1); }
      if p.drifted { return Done(1); }
      if !s.readable { return Done(1); }
      var higher := StaleHigherTags(GuardDeclared(p), listing, Undated);
      if higher.Err? { return Raised; }
      NothingFlagged(higher.value, GuardDeclared(p), listing);
      if higher.value != [] {
        if !allowHigher { return Done(1); }
      }
      assert Cleared(p, allowHigher, mirror, s);
      if !s.exportOk { return Raised; }
      if s.checkExit != 0 { return Done(s.checkExit); }
      if !s.pushOk { return Raised; }
      mainPushed := true;
      var tags := SyncTags(p);
      mirror := mirror + set t | t in tags && (s.tagsOk || t in s.landed);
      if !s.tagsOk { return Raised; }
      if s.originExit != 0 { return Done(s.originExit); }
      if !allowHigher && ThreePart(p) {
        if BareTag(p) { GuardKeepsPromise(p, old(mirror), mirror); }
        if LikeVersion(p.monorepoTag) {
          forall q | q in p.packages && !LikeVersion(q) ensures Highest(mirror, q, p.versions[q]) {
            SuggestedTagKeepsPromise(p, old(mirror), mirror, q);
          }
        }
      }
      o := Done(0);
    }
  }

  /** A tag list with some names deleted. */
  function Without(tags: seq<string>, dropped: set<string>): seq<string> {
    if tags == [] then []
    else Without(tags[..|tags| - 1], dropped) + (if tags[|tags| - 1] in dropped then [] else [tags[|tags| - 1]])
  }

  lemma {:induction false} WithoutExact(tags: seq<string>, dropped: set<string>)
    ensures forall t :: t in Without(tags, dropped) <==> t in tags && t !in dropped
  {
    if tags != [] {
      WithoutExact(tags[..|tags| - 1], dropped);
      assert tags == tags[..|tags| - 1] + [tags[|tags| - 1]];
    }
  }

  lemma {:induction false} WithoutNone(tags: seq<string>)
    ensures Without(tags, {}) == tags
  {
    if tags != [] {
      WithoutNone(tags[..|tags| - 1]);
      assert tags == tags[..|tags| - 1] + [tags[|tags| - 1]];
    }
  }

  lemma {:induction false} WithoutSame(tags: seq<string>, a: set<string>, b: set<string>)
    requires forall t :: t in tags ==> (t in a <==> t in b)
    ensures Without(tags, a) == Without(tags, b)
  {
    if tags != [] {
      assert tags == tags[..|tags| - 1] + [tags[|tags| - 1]];
      WithoutSame(tags[..|tags| - 1], a, b);
    }
  }
}

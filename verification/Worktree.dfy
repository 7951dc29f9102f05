/** scripts/worktree_reachability.py, `_uncommitted_paths` and `inspect_worktree`: does a working tree hold
    bytes that no commit has? */
module Worktree {
  import opened Text

  // ---------- git status records ----------

  const NUL := '\0'

  /** `[f for f in text.split("\0") if f]`. */
  function Fields(text: string): seq<string> {
    FieldsFrom("", text)
  }

  /** `open` is the field being read. */
  function FieldsFrom(open: string, text: string): seq<string>
    decreases |text|
  {
    if text == "" then (if open == "" then [] else [open])
    else if text[0] == NUL then (if open == "" then [] else [open]) + FieldsFrom("", text[1..])
    else FieldsFrom(open + [text[0]], text[1..])
  }

  lemma {:induction false} FieldReads(open: string, f: string, rest: string)
    requires NUL !in f && open + f != ""
    ensures FieldsFrom(open, f + [NUL] + rest) == [open + f] + Fields(rest)
    decreases |f|
  {
    var text := f + [NUL] + rest;
    if f == "" {
      assert text[1..] == rest && open + f == open;
    } else {
      assert text[1..] == f[1..] + [NUL] + rest;
      assert open + [f[0]] + f[1..] == open + f;
      FieldReads(open + [f[0]], f[1..], rest);
    }
  }

  /** One porcelain v1 record: two status letters, and for a rename or copy the source path. */
  datatype Change = Change(x: char, y: char, path: string, source: Option<string>)

  predicate Moves(x: char, y: char) { x == 'R' || x == 'C' || y == 'R' || y == 'C' }

  ghost predicate WellFormed(c: Change) {
    && c.x != NUL && c.y != NUL && NUL !in c.path
    && (c.source.Some? <==> Moves(c.x, c.y))
    && (c.source.Some? ==> c.source.value != "" && NUL !in c.source.value)
  }

  function RecordFields(c: Change): seq<string> {
    [[c.x, c.y, ' '] + c.path] + (if c.source.Some? then [c.source.value] else [])
  }

  /** What `git status --porcelain=v1 -z` prints. */
  function StatusText(changes: seq<Change>): string {
    if changes == [] then "" else RecordText(changes[0]) + StatusText(changes[1..])
  }

  function RecordText(c: Change): string {
    [c.x, c.y, ' '] + c.path + ['\0'] + (if c.source.Some? then c.source.value + ['\0'] else "")
  }

  function AllFields(changes: seq<Change>): seq<string> {
    if changes == [] then [] else RecordFields(changes[0]) + AllFields(changes[1..])
  }

  lemma {:induction false} FieldsOfStatus(changes: seq<Change>)
    requires forall i :: 0 <= i < |changes| ==> WellFormed(changes[i])
    ensures Fields(StatusText(changes)) == AllFields(changes)
  {
    if changes != [] {
      FieldsOfStatus(changes[1..]);
      RecordReads(changes[0], StatusText(changes[1..]));
    }
  }

  lemma RecordReads(c: Change, rest: string)
    requires WellFormed(c)
    ensures Fields(RecordText(c) + rest) == RecordFields(c) + Fields(rest)
  {
    var entry := [c.x, c.y, ' '] + c.path;
    assert NUL !in entry;
    if c.source.Some? {
      var source := c.source.value;
      FieldReads("", source, rest);
      FieldReads("", entry, source + [NUL] + rest);
      assert "" + source == source && "" + entry == entry;
      assert RecordText(c) + rest == entry + [NUL] + (source + [NUL] + rest);
    } else {
      FieldReads("", entry, rest);
      assert "" + entry == entry;
      assert RecordText(c) + rest == entry + [NUL] + rest;
    }
  }

  /** The paths a field list names: a rename or copy code swallows the field after it. */
  function PathsOf(fields: seq<string>): seq<string> {
    if fields == [] then []
    else
      var code, rel := Slice(fields[0], 0, 2), Slice(fields[0], 3, |fields[0]|);
      [rel] + (if ('R' in code || 'C' in code) && |fields| > 1 then PathsOf(fields[2..]) else PathsOf(fields[1..]))
  }

  function From(fields: seq<string>, i: nat): seq<string> { if i <= |fields| then fields[i..] else [] }

  lemma RecordPeels(fields: seq<string>, i: nat)
    requires i < |fields|
    ensures var code, rel := Slice(fields[i], 0, 2), Slice(fields[i], 3, |fields[i]|);
            PathsOf(From(fields, i)) ==
              [rel] + PathsOf(From(fields, if 'R' in code || 'C' in code then i + 2 else i + 1))
  {
    var left := fields[i..];
    assert left[0] == fields[i] && left[1..] == fields[i + 1..];
    assert |left| > 1 ==> left[2..] == fields[i + 2..];
  }

  method UncommittedPaths(status: string) returns (paths: seq<string>)
    ensures paths == PathsOf(Fields(status))
  {
    var fields := Fields(status);
    paths := [];
    var i: nat := 0;
    assert From(fields, 0) == fields;
    while i < |fields|
      invariant paths + PathsOf(From(fields, i)) == PathsOf(fields)
    {
      var entry := fields[i];
      var code, rel := Slice(entry, 0, 2), Slice(entry, 3, |entry|);
      RecordPeels(fields, i);
      JoinThree(paths, [rel], PathsOf(From(fields, i + 1)));
      JoinThree(paths, [rel], PathsOf(From(fields, i + 2)));
      paths := paths + [rel];
      if 'R' in code || 'C' in code { i := i + 1; }
      i := i + 1;
    }
  }

  lemma PathsOfOne(c: Change, rest: seq<string>)
    requires WellFormed(c)
    ensures PathsOf(RecordFields(c) + rest) == [c.path] + PathsOf(rest)
  {
    var fields, entry := RecordFields(c) + rest, [c.x, c.y, ' '] + c.path;
    assert fields[0] == entry;
    assert entry[0..2] == [c.x, c.y] && entry[3..|entry|] == c.path;
    assert fields[|RecordFields(c)|..] == rest;
  }

  lemma {:induction false} PathsOfRecords(changes: seq<Change>)
    requires forall i :: 0 <= i < |changes| ==> WellFormed(changes[i])
    ensures PathsOf(AllFields(changes)) == seq(|changes|, i requires 0 <= i < |changes| => changes[i].path)
  {
    if changes != [] {
      PathsOfRecords(changes[1..]);
      PathsOfOne(changes[0], AllFields(changes[1..]));
    }
  }

  /** Every path git reports comes back once, in order, and no rename source is taken for a path. */
  lemma StatusRoundTrip(changes: seq<Change>)
    requires forall i :: 0 <= i < |changes| ==> WellFormed(changes[i])
    ensures PathsOf(Fields(StatusText(changes))) == seq(|changes|, i requires 0 <= i < |changes| => changes[i].path)
  {
    FieldsOfStatus(changes);
    PathsOfRecords(changes);
  }

  // ---------- scoring ----------

  datatype Status = CLEAN | RECOVERABLE | UNREACHABLE | UNKNOWN

  datatype Origin = FromTree | FromIndex

  datatype Item = Item(path: string, blob: string, origin: Origin)

  /** One `ls-files` record: its whitespace-separated fields before the tab, and the path after it. */
  datatype IndexRecord = IndexRecord(parts: seq<string>, path: string)

  /** What git and the file system answer about one working tree. */
  datatype Tree = Tree(
    paths: seq<string>,
    hash: map<string, string>,
    unmerged: seq<IndexRecord>,
    cached: set<string>,
    stageZero: map<string, seq<IndexRecord>>,
    artifacts: set<string>)

  /** Some commit reaches this blob, under any path. */
  ghost predicate Committed(blobs: map<string, set<string>>, sha: string) {
    exists p :: p in blobs && sha in blobs[p]
  }

  predicate Usable(r: IndexRecord) { |r.parts| == 3 }

  predicate IsUnmerged(t: Tree, path: string) {
    exists i :: 0 <= i < |t.unmerged| && Usable(t.unmerged[i]) && t.unmerged[i].path == path
  }

  /** A path is unmerged when `git ls-files -u` lists it in a record of the full three parts. */
  lemma UnmergedIff(t: Tree, path: string)
    ensures IsUnmerged(t, path) <==> exists r :: r in t.unmerged && |r.parts| == 3 && r.path == path
  {
  }

  /** A conflicted file whose bytes are a re-merge of its own stages. */
  predicate Regenerable(t: Tree, path: string) {
    path in t.paths && path in t.hash && IsUnmerged(t, path) && path in t.artifacts
  }

  /** The index holds `sha` at `path`: an unmerged stage, or a stage-0 entry of a staged path that differs from
      the working file. */
  ghost predicate InIndex(t: Tree, path: string, sha: string) {
    || (exists i :: 0 <= i < |t.unmerged| && Usable(t.unmerged[i])
          && t.unmerged[i].path == path && t.unmerged[i].parts[1] == sha)
    || (&& path in t.paths && path in t.cached && path in t.stageZero && !IsUnmerged(t, path)
        && exists i :: Lists(t, path, i, sha))
  }

  ghost predicate Lists(t: Tree, path: string, i: nat, sha: string)
    requires path in t.stageZero
  {
    && i < |t.stageZero[path]| && Usable(t.stageZero[path][i])
    && t.stageZero[path][i].path == path && t.stageZero[path][i].parts[1] == sha
    && !(path in t.hash && t.hash[path] == sha)
  }

  /** The working file at `path` has content that git cannot regenerate from the index stages. */
  ghost predicate InTree(t: Tree, path: string, sha: string) {
    && path in t.paths && path in t.hash && t.hash[path] == sha
    && !Regenerable(t, path)
  }

  /** Content that removing the tree would discard. */
  ghost predicate AtStake(t: Tree, item: Item) {
    match item.origin
    case FromTree => InTree(t, item.path, item.blob)
    case FromIndex => InIndex(t, item.path, item.blob)
  }

  method StagedBlobs(t: Tree) returns (staged: set<(string, string)>)
    ensures forall path, sha :: (path, sha) in staged <==> InIndex(t, path, sha)
  {
    staged := {};
    for i := 0 to |t.unmerged|
      invariant forall path, sha :: (path, sha) in staged <==>
        exists j :: 0 <= j < i && Usable(t.unmerged[j]) && t.unmerged[j].path == path && t.unmerged[j].parts[1] == sha
    {
      var r := t.unmerged[i];
      if Usable(r) { staged := staged + {(r.path, r.parts[1])}; }
    }
    ghost var stages := staged;
    for k := 0 to |t.paths|
      invariant forall path, sha :: (path, sha) in staged <==>
        (path, sha) in stages || (path in t.paths[..k] && FromStageZero(t, path, sha))
    {
      var rel := t.paths[k];
      TakeOneMore(t.paths, k);
      if IsUnmerged(t, rel) || rel !in t.cached || rel !in t.stageZero { continue; }
      ghost var before := staged;
      var records := t.stageZero[rel];
      for i := 0 to |records|
        invariant forall path, sha :: (path, sha) in staged <==>
          (path, sha) in before || (path == rel && exists j: nat :: j < i && Lists(t, rel, j, sha))
      {
        var r := records[i];
        if Usable(r) && r.path == rel && !(rel in t.hash && t.hash[rel] == r.parts[1]) {
          staged := staged + {(rel, r.parts[1])};
          assert Lists(t, rel, i, r.parts[1]);
        }
      }
    }
    assert t.paths[..|t.paths|] == t.paths;
  }

  ghost predicate FromStageZero(t: Tree, path: string, sha: string) {
    path in t.cached && path in t.stageZero && !IsUnmerged(t, path) && exists i :: Lists(t, path, i, sha)
  }

  class Inspection {
    const blobs: map<string, set<string>>
    var unreachable: seq<Item>
    var recoverable: seq<Item>
    var derived: seq<string>
    var allBlobs: Option<set<string>>

    ghost predicate Valid() reads this {
      && (forall i :: i in unreachable ==> !Committed(blobs, i.blob))
      && (forall i :: i in recoverable ==> Committed(blobs, i.blob))
      && (allBlobs.Some? ==> forall sha :: sha in allBlobs.value <==> Committed(blobs, sha))
    }

    ghost predicate Scored(item: Item) reads this { item in unreachable || item in recoverable }

    constructor (blobs: map<string, set<string>>)
      ensures Valid() && this.blobs == blobs && unreachable == [] && recoverable == [] && derived == []
    {
      this.blobs := blobs;
      unreachable, recoverable, derived, allBlobs := [], [], [], None;
    }

    method Score(item: Item)
      requires Valid()
      modifies this
      ensures Valid() && derived == old(derived)
      ensures Committed(blobs, item.blob) ==>
        recoverable == old(recoverable) + [item] && unreachable == old(unreachable)
      ensures !Committed(blobs, item.blob) ==>
        unreachable == old(unreachable) + [item] && recoverable == old(recoverable)
    {
      if item.path in blobs && item.blob in blobs[item.path] {
        recoverable := recoverable + [item];
        return;
      }
      if allBlobs.None? {
        var all := set p, sha | p in blobs && sha in blobs[p] :: sha;
        assert forall sha :: sha in all <==> Committed(blobs, sha);
        allBlobs := Some(all);
      }
      if item.blob in allBlobs.value {
        recoverable := recoverable + [item];
      } else {
        unreachable := unreachable + [item];
      }
    }

    /** `inspect_worktree`; None is a path that is no directory. Where there is one, removal loses something iff
        the answer is UNREACHABLE. A missing one is never reported clean or recoverable. */
    method Inspect(dir: Option<Tree>) returns (status: Status)
      requires Valid() && unreachable == [] && recoverable == [] && derived == []
      modifies this
      ensures Valid()
      ensures status == UNKNOWN <==> dir.None?
      ensures forall item :: Scored(item) <==> dir.Some? && AtStake(dir.value, item)
      ensures forall p :: p in derived <==> dir.Some? && Regenerable(dir.value, p)
      ensures status == UNREACHABLE <==>
        dir.Some? && exists item :: AtStake(dir.value, item) && !Committed(blobs, item.blob)
      ensures status == CLEAN <==>
        dir.Some? && dir.value.paths == [] && !exists path, sha :: InIndex(dir.value, path, sha)
    {
      if dir.None? { return UNKNOWN; }
      status := InspectTree(dir.value);
    }

    method InspectTree(t: Tree) returns (status: Status)
      requires Valid() && unreachable == [] && recoverable == [] && derived == []
      modifies this
      ensures Valid()
      ensures forall item :: Scored(item) <==> AtStake(t, item)
      ensures forall p :: p in derived <==> Regenerable(t, p)
      ensures status == UNREACHABLE <==> exists item :: AtStake(t, item) && !Committed(blobs, item.blob)
      ensures status == CLEAN <==> t.paths == [] && !exists path, sha :: InIndex(t, path, sha)
      ensures status != UNKNOWN
    {
      var staged := StagedBlobs(t);
      if t.paths == [] && staged == {} {
        return CLEAN;
      }
      if t.paths == [] {
        var pair :| pair in staged;
        assert InIndex(t, pair.0, pair.1);
      }
      for k := 0 to |t.paths|
        invariant Valid()
        invariant forall item :: Scored(item) <==>
          item.origin == FromTree && item.path in t.paths[..k] && InTree(t, item.path, item.blob)
        invariant forall p :: p in derived <==> p in t.paths[..k] && Regenerable(t, p)
      {
        var rel := t.paths[k];
        TakeOneMore(t.paths, k);
        if rel !in t.hash { continue; }
        if IsUnmerged(t, rel) && rel in t.artifacts {
          derived := derived + [rel];
          continue;
        }
        Score(Item(rel, t.hash[rel], FromTree));
      }
      assert t.paths[..|t.paths|] == t.paths;
      ghost var regenerable := derived;
      var rest := staged;
      while rest != {}
        invariant Valid() && rest <= staged && derived == regenerable
        invariant forall item :: Scored(item) <==>
          if item.origin == FromTree then InTree(t, item.path, item.blob)
          else (item.path, item.blob) in staged - rest
        decreases rest
      {
        var pair :| pair in rest;
        rest := rest - {pair};
        Score(Item(pair.0, pair.1, FromIndex));
      }
      assert staged - rest == staged;
      status := if unreachable != [] then UNREACHABLE else RECOVERABLE;
      if unreachable != [] { assert Scored(unreachable[0]); }
    }
  }
}

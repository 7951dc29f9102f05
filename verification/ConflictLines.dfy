/** scripts/worktree_reachability.py, `_normalize_conflict_lines` and the artifact test built on it:
    labels are dropped from conflict markers, but only where the conflict grammar admits a marker.
    A text is its list of lines (`str.splitlines`). */
module ConflictLines {

  import opened Text

  datatype Place = Outside | Ours | Base | Theirs

  const OPENER := "<<<<<<<"
  const DIVIDER := "|||||||"
  const MIDDLE := "======="
  const CLOSER := ">>>>>>>"

  /** The markers git writes a label after; `=======` is always bare. */
  predicate IsLabelled(token: string) { token == OPENER || token == DIVIDER || token == CLOSER }

  /** Exactly seven marker characters, then the end of the line or a space and a label. */
  function Token(line: string): (t: Option<string>) {
    if |line| >= 7 && (IsLabelled(line[..7]) || line[..7] == MIDDLE) && (|line| > 7 ==> line[7] == ' ')
    then Some(line[..7]) else None
  }

  /** A line is a marker t exactly if it is t alone or t followed by a space and anything. */
  lemma TokenExact(line: string, t: string)
    ensures Token(line) == Some(t) <==>
      && t in ["<<<<<<<", "|||||||", "=======", ">>>>>>>"]
      && (line == t || exists l :: line == t + " " + l)
  {
    if Token(line) == Some(t) {
      assert IsLabelled(t) || t == MIDDLE;
      if |line| == 7 {
        assert line[..7] == line;
      } else {
        assert line == line[..7] + " " + line[8..];
      }
    }
    if t in ["<<<<<<<", "|||||||", "=======", ">>>>>>>"] && (line == t || exists l :: line == t + " " + l) {
      assert IsLabelled(t) || t == MIDDLE;
      assert line[..7] == t;
    }
  }

  predicate Structural(line: string, at: Place) {
    match Token(line)
    case None => false
    case Some(t) =>
      || (t == OPENER && at == Outside)
      || (t == DIVIDER && at == Ours)
      || (t == MIDDLE && (at == Ours || at == Base))
      || (t == CLOSER && at == Theirs)
  }

  function After(line: string, at: Place): Place {
    if !Structural(line, at) then at
    else if Token(line).value == OPENER then Ours
    else if Token(line).value == DIVIDER then Base
    else if Token(line).value == MIDDLE then Theirs
    else Outside
  }

  /** The marker whose label is dropped when `line` is met at `at`. */
  function Relabelled(line: string, at: Place): Option<string> {
    if Structural(line, at) && IsLabelled(Token(line).value) then Token(line) else None
  }

  function Shown(line: string, at: Place): string {
    if Relabelled(line, at).Some? then Relabelled(line, at).value else line
  }

  /** Where the walk stands after `lines`. */
  function Walk(lines: seq<string>, at: Place): Place {
    if lines == [] then at else Walk(lines[1..], After(lines[0], at))
  }

  function Normal(lines: seq<string>, at: Place): (r: seq<string>)
    ensures |r| == |lines|
  {
    if lines == [] then [] else [Shown(lines[0], at)] + Normal(lines[1..], After(lines[0], at))
  }

  lemma {:induction false} WalkAppends(a: seq<string>, b: seq<string>, at: Place)
    ensures Walk(a + b, at) == Walk(b, Walk(a, at))
    ensures Normal(a + b, at) == Normal(a, at) + Normal(b, Walk(a, at))
  {
    if a == [] {
      assert a + b == b;
    } else {
      assert (a + b)[1..] == a[1..] + b;
      WalkAppends(a[1..], b, After(a[0], at));
    }
  }

  method NormalizeConflictLines(lines: seq<string>) returns (out: seq<string>)
    ensures out == Normal(lines, Outside)
  {
    out := [];
    var state := Outside;
    for i := 0 to |lines|
      invariant out == Normal(lines[..i], Outside) && state == Walk(lines[..i], Outside)
    {
      var line := lines[i];
      var token := Token(line);
      var structural := true;
      ghost var was := state;
      if token == Some(OPENER) && state == Outside {
        state := Ours;
      } else if token == Some(DIVIDER) && state == Ours {
        state := Base;
      } else if token == Some(MIDDLE) && (state == Ours || state == Base) {
        state := Theirs;
      } else if token == Some(CLOSER) && state == Theirs {
        state := Outside;
      } else {
        structural := false;
      }
      var shown := if structural && token.Some? && IsLabelled(token.value) then token.value else line;
      out := out + [shown];
      assert shown == Shown(line, was) && state == After(line, was);
      TakeOneMore(lines, i);
      WalkAppends(lines[..i], [line], Outside);
      assert Normal([line], was) == [shown];
    }
    assert lines[..|lines|] == lines;
  }

  // ---------- what the normal form keeps and what it hides ----------

  /** A dropped label leaves a bare marker that stands in the same place. */
  lemma BareStays(line: string, at: Place)
    ensures After(Shown(line, at), at) == After(line, at)
    ensures Shown(Shown(line, at), at) == Shown(line, at)
    ensures Relabelled(Shown(line, at), at) == Relabelled(line, at)
  {
    if Relabelled(line, at).Some? {
      var t := line[..7];
      assert t[..7] == t;
      assert Token(t) == Token(line);
    }
  }

  lemma {:induction false} NormalIdempotent(lines: seq<string>, at: Place)
    ensures Normal(Normal(lines, at), at) == Normal(lines, at)
  {
    if lines != [] {
      BareStays(lines[0], at);
      NormalIdempotent(lines[1..], After(lines[0], at));
    }
  }

  /** Line i is a labelled marker of kind `token` where the grammar admits it. */
  ghost predicate MarkerAt(lines: seq<string>, i: nat, token: string)
    requires i < |lines|
  {
    Relabelled(lines[i], Walk(lines[..i], Outside)) == Some(token)
  }

  /** The two texts agree except in the labels of structural markers of the same kind. */
  ghost predicate SameButLabels(a: seq<string>, b: seq<string>) {
    && |a| == |b|
    && forall i :: 0 <= i < |a| && a[i] != b[i] ==> exists t :: MarkerAt(a, i, t) && MarkerAt(b, i, t)
  }

  lemma {:induction false} NormalAt(lines: seq<string>, i: nat, at: Place)
    requires i < |lines|
    ensures Normal(lines, at)[i] == Shown(lines[i], Walk(lines[..i], at))
  {
    if i > 0 {
      NormalAt(lines[1..], i - 1, After(lines[0], at));
      assert lines[1..][..i - 1] == lines[..i][1..];
    }
  }

  /** Lines shown alike at one place lead to the same place and were relabelled alike. */
  lemma ShownDecides(x: string, y: string, at: Place)
    requires Shown(x, at) == Shown(y, at)
    ensures After(x, at) == After(y, at) && Relabelled(x, at) == Relabelled(y, at)
  {
    BareStays(x, at);
    BareStays(y, at);
  }

  lemma {:induction false} EqualNormalsWalkTogether(a: seq<string>, b: seq<string>, i: nat, at: Place)
    requires Normal(a, at) == Normal(b, at) && i <= |a|
    ensures |a| == |b| && Walk(a[..i], at) == Walk(b[..i], at)
  {
    assert |a| == |Normal(a, at)| && |b| == |Normal(b, at)|;
    if i > 0 {
      assert Normal(a, at)[0] == Normal(b, at)[0];
      ShownDecides(a[0], b[0], at);
      var next := After(a[0], at);
      assert Normal(a, at)[1..] == Normal(a[1..], next) && Normal(b, at)[1..] == Normal(b[1..], next);
      EqualNormalsWalkTogether(a[1..], b[1..], i - 1, next);
      assert a[..i][1..] == a[1..][..i - 1] && b[..i][1..] == b[1..][..i - 1];
    }
  }

  lemma {:induction false} SameButLabelsWalkTogether(a: seq<string>, b: seq<string>, i: nat)
    requires SameButLabels(a, b) && i <= |a|
    ensures Walk(a[..i], Outside) == Walk(b[..i], Outside)
  {
    if i > 0 {
      var j := i - 1;
      SameButLabelsWalkTogether(a, b, j);
      var at := Walk(a[..j], Outside);
      assert a[..i] == a[..j] + [a[j]] && b[..i] == b[..j] + [b[j]];
      WalkAppends(a[..j], [a[j]], Outside);
      WalkAppends(b[..j], [b[j]], Outside);
      if a[j] != b[j] {
        var t :| MarkerAt(a, j, t) && MarkerAt(b, j, t);
        assert After(a[j], at) == After(b[j], at);
      }
    }
  }

  /** The kernel: two texts normalise alike iff they differ only in labels of structural markers. */
  lemma NormalKernel(a: seq<string>, b: seq<string>)
    ensures Normal(a, Outside) == Normal(b, Outside) <==> SameButLabels(a, b)
  {
    if Normal(a, Outside) == Normal(b, Outside) {
      EqualNormalsWalkTogether(a, b, 0, Outside);
      forall i | 0 <= i < |a| && a[i] != b[i] ensures exists t :: MarkerAt(a, i, t) && MarkerAt(b, i, t) {
        EqualNormalsWalkTogether(a, b, i, Outside);
        NormalAt(a, i, Outside);
        NormalAt(b, i, Outside);
        var at := Walk(a[..i], Outside);
        ShownDecides(a[i], b[i], at);
        assert MarkerAt(a, i, Relabelled(a[i], at).value) && MarkerAt(b, i, Relabelled(a[i], at).value);
      }
    }
    if SameButLabels(a, b) {
      var m, n := Normal(a, Outside), Normal(b, Outside);
      forall i | 0 <= i < |a| ensures m[i] == n[i] {
        SameButLabelsWalkTogether(a, b, i);
        NormalAt(a, i, Outside);
        NormalAt(b, i, Outside);
      }
      assert m == n;
    }
  }

  /** A change to a line that is not a structural labelled marker is never hidden: content and `=======` lines
      are compared verbatim. */
  lemma EditsShow(a: seq<string>, b: seq<string>, i: nat)
    requires i < |a| && |a| == |b| && a[i] != b[i]
    requires Relabelled(a[i], Walk(a[..i], Outside)).None? || Token(b[i]) != Token(a[i])
    ensures Normal(a, Outside) != Normal(b, Outside)
  {
    NormalKernel(a, b);
  }

  // ---------- regenerating a conflict with other labels ----------

  /** A merged file as git writes it: plain stretches and conflict blocks. */
  datatype Piece =
    | Plain(lines: seq<string>)
    | Block(ours: seq<string>, base: Option<seq<string>>, theirs: seq<string>)

  /** The label written after a marker, or none. */
  function Marker(token: string, name: Option<string>): string {
    if name.Some? then token + " " + name.value else token
  }

  datatype Labels = Labels(ours: Option<string>, base: Option<string>, theirs: Option<string>)

  function Write(p: Piece, l: Labels): seq<string> {
    match p
    case Plain(lines) => lines
    case Block(ours, base, theirs) =>
      [Marker(OPENER, l.ours)] + (ours + Rest(base, theirs, l))
  }

  /** A block after its ours section. */
  function Rest(base: Option<seq<string>>, theirs: seq<string>, l: Labels): seq<string> {
    if base.Some? then [Marker(DIVIDER, l.base)] + (base.value + Last(theirs, l)) else Last(theirs, l)
  }

  function Last(theirs: seq<string>, l: Labels): seq<string> { [MIDDLE] + (theirs + [Marker(CLOSER, l.theirs)]) }

  function WriteAll(doc: seq<Piece>, tags: seq<Labels>): seq<string>
    requires |tags| == |doc|
  {
    if doc == [] then [] else Write(doc[0], tags[0]) + WriteAll(doc[1..], tags[1..])
  }

  ghost predicate Content(lines: seq<string>, at: Place) {
    forall i :: 0 <= i < |lines| ==> !Structural(lines[i], at)
  }

  /** No stretch of content reads as a marker where it stands. */
  ghost predicate Unambiguous(p: Piece) {
    match p
    case Plain(lines) => Content(lines, Outside)
    case Block(ours, base, theirs) =>
      Content(ours, Ours) && (base.Some? ==> Content(base.value, Base)) && Content(theirs, Theirs)
  }

  lemma {:induction false} ContentStays(lines: seq<string>, at: Place)
    requires Content(lines, at)
    ensures Walk(lines, at) == at && Normal(lines, at) == lines
  {
    if lines != [] { ContentStays(lines[1..], at); }
  }

  lemma MarkerToken(token: string, name: Option<string>)
    requires IsLabelled(token)
    ensures Token(Marker(token, name)) == Some(token)
  {
    assert Marker(token, name)[..7] == token;
  }

  const BARE := Labels(None, None, None)

  /** A marker, the content it opens, and what follows. */
  lemma SectionNormal(head: string, body: seq<string>, tail: seq<string>, at: Place)
    requires Content(body, After(head, at))
    ensures Walk([head] + (body + tail), at) == Walk(tail, After(head, at))
    ensures Normal([head] + (body + tail), at) == [Shown(head, at)] + (body + Normal(tail, After(head, at)))
  {
    var inside := After(head, at);
    assert ([head] + (body + tail))[1..] == body + tail;
    ContentStays(body, inside);
    WalkAppends(body, tail, inside);
  }

  lemma TheirsCloses(theirs: seq<string>, name: Option<string>, at: Place)
    requires Content(theirs, Theirs) && (at == Ours || at == Base)
    ensures Walk([MIDDLE] + (theirs + [Marker(CLOSER, name)]), at) == Outside
    ensures Normal([MIDDLE] + (theirs + [Marker(CLOSER, name)]), at) == [MIDDLE] + (theirs + [CLOSER])
  {
    var closer := Marker(CLOSER, name);
    MarkerToken(CLOSER, name);
    assert MIDDLE[..7] == MIDDLE;
    SectionNormal(MIDDLE, theirs, [closer], at);
    assert Normal([closer], Theirs) == [CLOSER] && Walk([closer], Theirs) == Outside;
  }

  lemma RestCloses(base: Option<seq<string>>, theirs: seq<string>, l: Labels)
    requires base.Some? ==> Content(base.value, Base)
    requires Content(theirs, Theirs)
    ensures Walk(Rest(base, theirs, l), Ours) == Outside
    ensures Normal(Rest(base, theirs, l), Ours) == Rest(base, theirs, BARE)
  {
    if base.Some? {
      MarkerToken(DIVIDER, l.base);
      TheirsCloses(theirs, l.theirs, Base);
      SectionNormal(Marker(DIVIDER, l.base), base.value, Last(theirs, l), Ours);
    } else {
      TheirsCloses(theirs, l.theirs, Ours);
    }
  }

  lemma PieceNormal(p: Piece, l: Labels)
    requires Unambiguous(p)
    ensures Walk(Write(p, l), Outside) == Outside && Normal(Write(p, l), Outside) == Write(p, BARE)
  {
    match p
    case Plain(lines) => ContentStays(lines, Outside);
    case Block(ours, base, theirs) =>
      MarkerToken(OPENER, l.ours);
      RestCloses(base, theirs, l);
      SectionNormal(Marker(OPENER, l.ours), ours, Rest(base, theirs, l), Outside);
  }

  /** Whatever labels git wrote after the markers, the normal form is the file written with bare markers. */
  lemma {:induction false} LabelsForgotten(doc: seq<Piece>, tags: seq<Labels>)
    requires |tags| == |doc| && forall i :: 0 <= i < |doc| ==> Unambiguous(doc[i])
    ensures Normal(WriteAll(doc, tags), Outside) == WriteAll(doc, seq(|doc|, i => BARE))
  {
    var bare := seq(|doc|, i => BARE);
    if doc != [] {
      PieceNormal(doc[0], tags[0]);
      LabelsForgotten(doc[1..], tags[1..]);
      WalkAppends(Write(doc[0], tags[0]), WriteAll(doc[1..], tags[1..]), Outside);
      assert bare[1..] == seq(|doc| - 1, i => BARE);
    }
  }

  // ---------- when labels are invisible, exactly ----------

  const NAMED := Labels(Some(""), Some(""), Some(""))

  function Each(doc: seq<Piece>, l: Labels): seq<Labels> { seq(|doc|, i => l) }

  /** Line i of the written file is a marker git wrote, in either labelling. */
  ghost predicate Written(doc: seq<Piece>, i: nat) {
    var bare, named := WriteAll(doc, Each(doc, BARE)), WriteAll(doc, Each(doc, NAMED));
    i < |bare| && i < |named| && bare[i] != named[i]
  }

  /** Two lines that differ at most in the label of a marker. */
  ghost predicate Twins(x: string, y: string) {
    x == y || (Token(x).Some? && Token(x) == Token(y) && IsLabelled(Token(x).value))
  }

  ghost predicate AllTwins(a: seq<string>, b: seq<string>) {
    |a| == |b| && forall i :: 0 <= i < |a| ==> Twins(a[i], b[i])
  }

  lemma TwinsJoin(a: seq<string>, b: seq<string>, c: seq<string>, d: seq<string>)
    requires AllTwins(a, b) && AllTwins(c, d)
    ensures AllTwins(a + c, b + d)
  {
  }

  lemma MarkersAreTwins(token: string, a: Option<string>, b: Option<string>)
    requires IsLabelled(token)
    ensures AllTwins([Marker(token, a)], [Marker(token, b)])
  {
    MarkerToken(token, a);
    MarkerToken(token, b);
  }

  lemma PieceTwins(p: Piece, a: Labels, b: Labels)
    ensures AllTwins(Write(p, a), Write(p, b))
  {
    match p
    case Plain(lines) =>
    case Block(ours, base, theirs) =>
      MarkersAreTwins(OPENER, a.ours, b.ours);
      MarkersAreTwins(DIVIDER, a.base, b.base);
      MarkersAreTwins(CLOSER, a.theirs, b.theirs);
      TwinsJoin(theirs, theirs, [Marker(CLOSER, a.theirs)], [Marker(CLOSER, b.theirs)]);
      TwinsJoin([MIDDLE], [MIDDLE], theirs + [Marker(CLOSER, a.theirs)], theirs + [Marker(CLOSER, b.theirs)]);
      if base.Some? {
        TwinsJoin(base.value, base.value, Last(theirs, a), Last(theirs, b));
        TwinsJoin([Marker(DIVIDER, a.base)], [Marker(DIVIDER, b.base)],
                  base.value + Last(theirs, a), base.value + Last(theirs, b));
      }
      TwinsJoin(ours, ours, Rest(base, theirs, a), Rest(base, theirs, b));
      TwinsJoin([Marker(OPENER, a.ours)], [Marker(OPENER, b.ours)],
                ours + Rest(base, theirs, a), ours + Rest(base, theirs, b));
  }

  /** However it is labelled, a document is written as twin lines. */
  lemma {:induction false} DocTwins(doc: seq<Piece>, a: seq<Labels>, b: seq<Labels>)
    requires |a| == |doc| && |b| == |doc|
    ensures AllTwins(WriteAll(doc, a), WriteAll(doc, b))
  {
    if doc != [] {
      PieceTwins(doc[0], a[0], b[0]);
      DocTwins(doc[1..], a[1..], b[1..]);
      TwinsJoin(Write(doc[0], a[0]), Write(doc[0], b[0]), WriteAll(doc[1..], a[1..]), WriteAll(doc[1..], b[1..]));
    }
  }

  lemma {:induction false} TwinsWalkTogether(a: seq<string>, b: seq<string>, i: nat)
    requires AllTwins(a, b) && i <= |a|
    ensures Walk(a[..i], Outside) == Walk(b[..i], Outside)
  {
    if i > 0 {
      var j := i - 1;
      TwinsWalkTogether(a, b, j);
      assert a[..i] == a[..j] + [a[j]] && b[..i] == b[..j] + [b[j]];
      WalkAppends(a[..j], [a[j]], Outside);
      WalkAppends(b[..j], [b[j]], Outside);
      assert Twins(a[j], b[j]);
    }
  }

  /** Where the bare and the empty-named writing agree, `a` agrees with them. */
  ghost predicate Follows(bare: seq<string>, named: seq<string>, a: seq<string>) {
    |bare| == |named| == |a| && forall i :: 0 <= i < |a| && bare[i] == named[i] ==> a[i] == bare[i]
  }

  lemma FollowsJoin(b: seq<string>, n: seq<string>, a: seq<string>, b': seq<string>, n': seq<string>, a': seq<string>)
    requires Follows(b, n, a) && Follows(b', n', a')
    ensures Follows(b + b', n + n', a + a')
  {
  }

  lemma MarkerFollows(token: string, name: Option<string>)
    ensures Follows([Marker(token, None)], [Marker(token, Some(""))], [Marker(token, name)])
  {
    assert |Marker(token, None)| == |token| && |Marker(token, Some(""))| == |token| + 1;
  }

  lemma PieceFollows(p: Piece, l: Labels)
    ensures Follows(Write(p, BARE), Write(p, NAMED), Write(p, l))
  {
    match p
    case Plain(lines) =>
    case Block(ours, base, theirs) =>
      MarkerFollows(OPENER, l.ours);
      RestFollows(base, theirs, l);
      FollowsJoin(ours, ours, ours, Rest(base, theirs, BARE), Rest(base, theirs, NAMED), Rest(base, theirs, l));
      FollowsJoin([Marker(OPENER, None)], [Marker(OPENER, Some(""))], [Marker(OPENER, l.ours)],
                  ours + Rest(base, theirs, BARE), ours + Rest(base, theirs, NAMED), ours + Rest(base, theirs, l));
  }

  lemma RestFollows(base: Option<seq<string>>, theirs: seq<string>, l: Labels)
    ensures Follows(Rest(base, theirs, BARE), Rest(base, theirs, NAMED), Rest(base, theirs, l))
  {
    MarkerFollows(DIVIDER, l.base);
    MarkerFollows(CLOSER, l.theirs);
    FollowsJoin(theirs, theirs, theirs, [Marker(CLOSER, None)], [Marker(CLOSER, Some(""))], [Marker(CLOSER, l.theirs)]);
    FollowsJoin([MIDDLE], [MIDDLE], [MIDDLE], theirs + [Marker(CLOSER, None)], theirs + [Marker(CLOSER, Some(""))],
                theirs + [Marker(CLOSER, l.theirs)]);
    if base.Some? {
      var b := base.value;
      FollowsJoin(b, b, b, Last(theirs, BARE), Last(theirs, NAMED), Last(theirs, l));
      FollowsJoin([Marker(DIVIDER, None)], [Marker(DIVIDER, Some(""))], [Marker(DIVIDER, l.base)],
                  b + Last(theirs, BARE), b + Last(theirs, NAMED), b + Last(theirs, l));
    }
  }

  lemma {:induction false} DocFollows(doc: seq<Piece>, a: seq<Labels>)
    requires |a| == |doc|
    ensures Follows(WriteAll(doc, Each(doc, BARE)), WriteAll(doc, Each(doc, NAMED)), WriteAll(doc, a))
  {
    if doc != [] {
      var bare, named := Each(doc, BARE), Each(doc, NAMED);
      assert bare[1..] == Each(doc[1..], BARE) && named[1..] == Each(doc[1..], NAMED);
      PieceFollows(doc[0], a[0]);
      DocFollows(doc[1..], a[1..]);
      FollowsJoin(Write(doc[0], BARE), Write(doc[0], NAMED), Write(doc[0], a[0]),
                  WriteAll(doc[1..], bare[1..]), WriteAll(doc[1..], named[1..]), WriteAll(doc[1..], a[1..]));
    }
  }

  /** Only the lines of written markers differ between two labellings. */
  lemma DifferenceIsWritten(doc: seq<Piece>, a: seq<Labels>, b: seq<Labels>, i: nat)
    requires |a| == |doc| && |b| == |doc| && i < |WriteAll(doc, a)| && i < |WriteAll(doc, b)|
    requires WriteAll(doc, a)[i] != WriteAll(doc, b)[i]
    ensures Written(doc, i)
  {
    DocFollows(doc, a);
    DocFollows(doc, b);
  }

  /** Every marker git wrote stands where the conflict grammar admits it. */
  ghost predicate MarkersStand(doc: seq<Piece>) {
    var bare := WriteAll(doc, Each(doc, BARE));
    forall i :: 0 <= i < |bare| && Written(doc, i) ==> Structural(bare[i], Walk(bare[..i], Outside))
  }

  /** No relabelling of the document shows after normalisation. */
  ghost predicate LabelsInvisible(doc: seq<Piece>) {
    forall a, b :: |a| == |doc| && |b| == |doc| ==>
      Normal(WriteAll(doc, a), Outside) == Normal(WriteAll(doc, b), Outside)
  }

  /** At a written marker the two labellings agree in the normal form iff the marker is structural there. */
  lemma WrittenShows(doc: seq<Piece>, i: nat)
    requires Written(doc, i)
    ensures var bare, named := WriteAll(doc, Each(doc, BARE)), WriteAll(doc, Each(doc, NAMED));
      Structural(bare[i], Walk(bare[..i], Outside)) <==> exists t :: MarkerAt(bare, i, t) && MarkerAt(named, i, t)
  {
    var bare, named := WriteAll(doc, Each(doc, BARE)), WriteAll(doc, Each(doc, NAMED));
    DocTwins(doc, Each(doc, BARE), Each(doc, NAMED));
    TwinsWalkTogether(bare, named, i);
    assert Twins(bare[i], named[i]);
    if Structural(bare[i], Walk(bare[..i], Outside)) {
      assert MarkerAt(bare, i, Token(bare[i]).value) && MarkerAt(named, i, Token(bare[i]).value);
    }
  }

  lemma StandingMarkersHide(doc: seq<Piece>, a: seq<Labels>, b: seq<Labels>)
    requires MarkersStand(doc) && |a| == |doc| && |b| == |doc|
    ensures SameButLabels(WriteAll(doc, a), WriteAll(doc, b))
  {
    var x, y, bare := WriteAll(doc, a), WriteAll(doc, b), WriteAll(doc, Each(doc, BARE));
    DocTwins(doc, a, b);
    DocTwins(doc, a, Each(doc, BARE));
    forall i | 0 <= i < |x| && x[i] != y[i] ensures exists t :: MarkerAt(x, i, t) && MarkerAt(y, i, t) {
      DifferenceIsWritten(doc, a, b, i);
      TwinsWalkTogether(x, y, i);
      TwinsWalkTogether(x, bare, i);
      assert Twins(x[i], y[i]) && Twins(x[i], bare[i]);
      assert MarkerAt(x, i, Token(x[i]).value) && MarkerAt(y, i, Token(x[i]).value);
    }
  }

  /** Labels never show exactly if every marker git wrote is structural where it stands; content that reads as a marker
      does harm only by displacing one of them. */
  lemma LabelsInvisibleIff(doc: seq<Piece>)
    ensures LabelsInvisible(doc) <==> MarkersStand(doc)
  {
    if MarkersStand(doc) {
      forall a, b | |a| == |doc| && |b| == |doc|
        ensures Normal(WriteAll(doc, a), Outside) == Normal(WriteAll(doc, b), Outside)
      {
        StandingMarkersHide(doc, a, b);
        NormalKernel(WriteAll(doc, a), WriteAll(doc, b));
      }
    }
    if LabelsInvisible(doc) {
      var bare, named := WriteAll(doc, Each(doc, BARE)), WriteAll(doc, Each(doc, NAMED));
      NormalKernel(bare, named);
      forall i | 0 <= i < |bare| && Written(doc, i) ensures Structural(bare[i], Walk(bare[..i], Outside)) {
        WrittenShows(doc, i);
      }
    }
  }

  /** Whatever labels are written, the normal form is the file written with bare markers. */
  ghost predicate LabelsForgottenIn(doc: seq<Piece>) {
    forall a :: |a| == |doc| ==> Normal(WriteAll(doc, a), Outside) == WriteAll(doc, Each(doc, BARE))
  }

  /** No line of the bare file carries a label where a marker would be structural. */
  ghost predicate NoStrayLabel(lines: seq<string>) {
    forall i :: 0 <= i < |lines| ==> Shown(lines[i], Walk(lines[..i], Outside)) == lines[i]
  }

  lemma NormalIffNoStray(lines: seq<string>)
    ensures Normal(lines, Outside) == lines <==> NoStrayLabel(lines)
  {
    forall i | 0 <= i < |lines| ensures Normal(lines, Outside)[i] == Shown(lines[i], Walk(lines[..i], Outside)) {
      NormalAt(lines, i, Outside);
    }
  }

  /** The normal form is the bare file, for every labelling, exactly if every marker git wrote is structural where it
      stands and no content line is a labelled marker where it would be. */
  lemma LabelsForgottenIff(doc: seq<Piece>)
    ensures LabelsForgottenIn(doc) <==> MarkersStand(doc) && NoStrayLabel(WriteAll(doc, Each(doc, BARE)))
  {
    var bare := WriteAll(doc, Each(doc, BARE));
    LabelsInvisibleIff(doc);
    NormalIffNoStray(bare);
    if LabelsInvisible(doc) && Normal(bare, Outside) == bare {
      forall a | |a| == |doc| ensures Normal(WriteAll(doc, a), Outside) == bare {
        assert Normal(WriteAll(doc, a), Outside) == Normal(WriteAll(doc, Each(doc, BARE)), Outside);
      }
    }
    if LabelsForgottenIn(doc) {
      assert Normal(bare, Outside) == bare;
      forall a, b | |a| == |doc| && |b| == |doc|
        ensures Normal(WriteAll(doc, a), Outside) == Normal(WriteAll(doc, b), Outside) {}
    }
  }

  /** Content that nowhere reads as a marker is enough for both. */
  lemma UnambiguousForgets(doc: seq<Piece>)
    requires forall i :: 0 <= i < |doc| ==> Unambiguous(doc[i])
    ensures MarkersStand(doc) && NoStrayLabel(WriteAll(doc, Each(doc, BARE)))
  {
    forall a | |a| == |doc| ensures Normal(WriteAll(doc, a), Outside) == WriteAll(doc, Each(doc, BARE)) {
      LabelsForgotten(doc, a);
      assert Each(doc, BARE) == seq(|doc|, i => BARE);
    }
    LabelsForgottenIff(doc);
  }

  /** Documents whose labels show: under a line that reads as an opener, the labels of a conflict's own opener do. */
  lemma QuotedOpenerShows(line: string, ours: seq<string>, base: Option<seq<string>>, theirs: seq<string>)
    requires Token(line) == Some(OPENER)
    ensures !LabelsInvisible([Plain([line]), Block(ours, base, theirs)])
  {
    var doc := [Plain([line]), Block(ours, base, theirs)];
    LabelsInvisibleIff(doc);
    WriteTwo(doc[0], doc[1], BARE);
    WriteTwo(doc[0], doc[1], NAMED);
    BlockOpens(doc[1], BARE);
    BlockOpens(doc[1], NAMED);
    WalkQuoted(line);
    Displaced(doc, WriteAll(doc, Each(doc, BARE)), WriteAll(doc, Each(doc, NAMED)), line);
  }

  lemma BlockOpens(p: Piece, l: Labels)
    requires p.Block?
    ensures Write(p, l) != [] && Write(p, l)[0] == Marker(OPENER, l.ours)
  {
  }

  lemma WalkQuoted(line: string)
    requires Token(line) == Some(OPENER)
    ensures Walk([line], Outside) == Ours
  {
    assert [line][1..] == [];
  }

  lemma Displaced(doc: seq<Piece>, bare: seq<string>, named: seq<string>, line: string)
    requires bare == WriteAll(doc, Each(doc, BARE)) && named == WriteAll(doc, Each(doc, NAMED))
    requires |bare| > 1 && |named| > 1 && bare[0] == line && Walk([line], Outside) == Ours
    requires bare[1] == Marker(OPENER, None) && named[1] == Marker(OPENER, Some(""))
    ensures !MarkersStand(doc)
  {
    assert |bare[1]| != |named[1]|;
    assert Written(doc, 1);
    assert bare[..1] == [line];
    assert !Structural(bare[1], Walk(bare[..1], Outside)) by { MarkerToken(OPENER, None); }
  }

  lemma WriteTwo(a: Piece, b: Piece, l: Labels)
    ensures WriteAll([a, b], Each([a, b], l)) == Write(a, l) + Write(b, l)
  {
    assert [a, b][1..] == [b] && Each([a, b], l)[1..] == Each([b], l);
    assert [b][1..] == [] && Each([b], l)[1..] == [];
    assert WriteAll([b], Each([b], l)) == Write(b, l) + [];
  }

  lemma QuotedOpenerExample()
    ensures !LabelsInvisible([Plain(["<<<<<<< quoted"]), Block([], None, [])])
  {
    assert "<<<<<<< quoted"[..7] == OPENER;
    QuotedOpenerShows("<<<<<<< quoted", [], None, []);
  }

  // ---------- the artifact test ----------

  /** One `git merge-file` run: its exit status (the conflict count) and the lines it printed. */
  datatype Merge = Merge(exit: int, lines: seq<string>)

  /** `stages` are the index stages present, `text` the working file's lines (none: unreadable), `merges` the
      outcome of each conflict style in turn. */
  method IsUnresolvedConflictArtifact(stages: set<string>, text: Option<seq<string>>, merges: seq<Merge>)
    returns (artifact: bool)
    ensures artifact <==>
      && "2" in stages && "3" in stages && text.Some?
      && exists m :: m in merges && m.exit > 0 && SameButLabels(m.lines, text.value)
                     && exists k :: 0 <= k < |m.lines| && Token(m.lines[k]).Some?
  {
    if "2" !in stages || "3" !in stages { return false; }
    if text.None? { return false; }
    var want := NormalizeConflictLines(text.value);
    for i := 0 to |merges|
      invariant forall j :: 0 <= j < i ==> !Matches(merges[j], text.value)
    {
      var m := merges[i];
      NormalKernel(m.lines, text.value);
      TokensStay(m.lines);
      if m.lines == [] { continue; }
      if m.exit <= 0 { continue; }
      var got := NormalizeConflictLines(m.lines);
      if !exists k :: 0 <= k < |got| && Token(got[k]).Some? { continue; }
      if got == want {
        assert Matches(m, text.value);
        return true;
      }
    }
    forall m | m in merges && m.exit > 0 && SameButLabels(m.lines, text.value)
      ensures !exists k :: 0 <= k < |m.lines| && Token(m.lines[k]).Some?
    {
      assert !Matches(m, text.value);
    }
    return false;
  }

  ghost predicate Matches(m: Merge, text: seq<string>) {
    m.exit > 0 && SameButLabels(m.lines, text) && exists k :: 0 <= k < |m.lines| && Token(m.lines[k]).Some?
  }

  /** Normalising neither adds nor removes marker-shaped lines. */
  lemma TokensStay(lines: seq<string>)
    ensures forall k :: 0 <= k < |lines| ==> Token(Normal(lines, Outside)[k]) == Token(lines[k])
  {
    forall k | 0 <= k < |lines| ensures Token(Normal(lines, Outside)[k]) == Token(lines[k]) {
      NormalAt(lines, k, Outside);
      var at := Walk(lines[..k], Outside);
      if Relabelled(lines[k], at).Some? {
        var t := lines[k][..7];
        assert t[..7] == t;
      }
    }
  }
}

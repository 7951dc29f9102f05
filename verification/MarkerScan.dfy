/** The bounded-fragment scan for a run's session markers, against a plain reading of the file by lines. */
module MarkerScan {
  import opened Text

  const LIMIT := 65536

  /** The next line with its terminator, or everything when no newline is left. */
  function FirstLine(s: string): (l: string)
    ensures |l| <= |s| && l == s[..|l|] && (s != "" ==> l != "")
    ensures forall i :: 0 <= i < |l| - 1 ==> l[i] != '\n'
    ensures |l| == |s| || (l != "" && l[|l| - 1] == '\n')
  {
    if s == "" then ""
    else if s[0] == '\n' then s[..1]
    else [s[0]] + FirstLine(s[1..])
  }

  function Lines(s: string): seq<string> {
    if s == "" then [] else [FirstLine(s)] + Lines(s[|FirstLine(s)|..])
  }

  predicate Terminated(l: string) { l != "" && l[|l| - 1] == '\n' }

  /** `rstrip(b"\r\n")` */
  function ChopLine(s: string): string {
    if s != "" && (s[|s| - 1] == '\r' || s[|s| - 1] == '\n') then ChopLine(s[..|s| - 1]) else s
  }

  predicate IsBreak(c: char) { c == '\n' || c == '\r' }

  /** What is cut off is line-break characters, and all of them at the end. */
  lemma {:induction false} ChopLineExact(s: string)
    ensures var n := |ChopLine(s)|;
      && n <= |s| && ChopLine(s) == s[..n]
      && (forall i :: n <= i < |s| ==> IsBreak(s[i]))
      && (n == 0 || !IsBreak(s[n - 1]))
  {
    if s != "" && IsBreak(s[|s| - 1]) { ChopLineExact(s[..|s| - 1]); }
  }

  /** A line counts when it fits one bounded read: terminated within the limit, or final and shorter. */
  predicate Counts(l: string) {
    if Terminated(l) then |l| <= 65536 else |l| < 65536
  }

  predicate IsMark(l: string, mark: string) { Counts(l) && ChopLine(l) == mark }

  /** What the scan must answer: some start line stands before some finish line. */
  ghost predicate StartsBeforeFinish(ls: seq<string>, start: string, finish: string) {
    exists i, j :: 0 <= i < j < |ls| && IsMark(ls[i], start) && IsMark(ls[j], finish)
  }

  /** `readline(min(65536, remaining))` */
  function Fragment(s: string): (f: string)
    ensures |f| <= |s| && |f| <= LIMIT && f == s[..|f|] && (s != "" ==> f != "")
    ensures forall i :: 0 <= i < |f| - 1 ==> f[i] != '\n'
    ensures Terminated(f) || |f| == |s| || |f| == LIMIT
  {
    var window := if |s| <= LIMIT then s else s[..LIMIT];
    FirstLine(window)
  }

  /** The lines already read, with the read position that closed each, and the scan's two findings. */
  ghost predicate Found(done: seq<string>, at: seq<nat>, position: nat, start: string, finish: string,
                        firstStart: Option<nat>, lastFinish: Option<nat>)
  {
    && |at| == |done|
    && (forall i :: 0 <= i < |at| ==> at[i] < position)
    && (forall i, j :: 0 <= i < j < |at| ==> at[i] < at[j])
    && (firstStart.None? ==> forall i :: 0 <= i < |done| ==> !IsMark(done[i], start))
    && (firstStart.Some? ==> exists i :: 0 <= i < |done| && IsMark(done[i], start) && at[i] == firstStart.value)
    && (firstStart.Some? ==> forall i :: 0 <= i < |done| && IsMark(done[i], start) ==> firstStart.value <= at[i])
    && (lastFinish.None? ==> forall i :: 0 <= i < |done| ==> !IsMark(done[i], finish))
    && (lastFinish.Some? ==> exists i :: 0 <= i < |done| && IsMark(done[i], finish) && at[i] == lastFinish.value)
    && (lastFinish.Some? ==> forall i :: 0 <= i < |done| && IsMark(done[i], finish) ==> at[i] <= lastFinish.value)
  }

  lemma FoundNext(done: seq<string>, at: seq<nat>, position: nat, start: string, finish: string,
                  firstStart: Option<nat>, lastFinish: Option<nat>, l: string)
    requires Found(done, at, position, start, finish, firstStart, lastFinish)
    ensures Found(done + [l], at + [position], position + 1, start, finish,
                  if IsMark(l, start) && firstStart.None? then Some(position) else firstStart,
                  if IsMark(l, finish) then Some(position) else lastFinish)
  {
    var d, a := done + [l], at + [position];
    assert d[|done|] == l && a[|done|] == position;
    if firstStart.Some? {
      var i :| 0 <= i < |done| && IsMark(done[i], start) && at[i] == firstStart.value;
      assert d[i] == done[i] && a[i] == at[i];
    }
    if lastFinish.Some? {
      var i :| 0 <= i < |done| && IsMark(done[i], finish) && at[i] == lastFinish.value;
      assert d[i] == done[i] && a[i] == at[i];
    }
  }

  /** Between reads: the lines closed so far, and the pieces `open` of a line too long for one read. */
  ghost predicate Framed(content: string, done: seq<string>, open: string, rest: string) {
    && (open != "" ==> |open| >= LIMIT && forall i :: 0 <= i < |open| ==> open[i] != '\n')
    && Lines(content) == done + Lines(open + rest)
  }

  lemma CloseLine(content: string, done: seq<string>, open: string, rest: string, f: string)
    requires Framed(content, done, open, rest)
    requires rest != "" && f == Fragment(rest) && (Terminated(f) || (open == "" && |f| < LIMIT))
    ensures Framed(content, done + [open + f], "", rest[|f|..])
  {
    LinesClose(open, rest, f);
    var line, left := open + f, rest[|f|..];
    assert "" + left == left;
    assert done + ([line] + Lines(left)) == (done + [line]) + Lines(left);
  }

  lemma LinesClose(open: string, rest: string, f: string)
    requires rest != "" && f == Fragment(rest) && (Terminated(f) || (open == "" && |f| < LIMIT))
    requires forall i :: 0 <= i < |open| ==> open[i] != '\n'
    ensures Lines(open + rest) == [open + f] + Lines(rest[|f|..])
  {
    assert open + rest == (open + f) + rest[|f|..];
    LinePeels(open + f, rest[|f|..]);
  }

  lemma LinePeels(line: string, left: string)
    requires line != "" && forall i :: 0 <= i < |line| - 1 ==> line[i] != '\n'
    requires Terminated(line) || left == ""
    ensures Lines(line + left) == [line] + Lines(left)
  {
    FirstLineIs(line, left);
    assert (line + left)[|line|..] == left;
  }

  lemma FirstLineIs(line: string, left: string)
    requires line != "" && forall i :: 0 <= i < |line| - 1 ==> line[i] != '\n'
    requires Terminated(line) || left == ""
    ensures FirstLine(line + left) == line
  {
    var s, l := line + left, FirstLine(line + left);
    assert s[..|line|] == line;
    assert forall i :: 0 <= i < |l| && i < |line| ==> l[i] == line[i];
  }

  /** A fragment that fills the read without a newline leaves its line open. */
  lemma KeepOpen(content: string, done: seq<string>, open: string, rest: string, f: string)
    requires Framed(content, done, open, rest)
    requires rest != "" && f == Fragment(rest) && !Terminated(f) && (open != "" || |f| >= LIMIT)
    ensures Framed(content, done, open + f, rest[|f|..])
  {
    assert open + rest == open + f + rest[|f|..];
  }

  /** Only a line read in one piece can count. */
  lemma CountsIfWhole(open: string, rest: string, f: string)
    requires f == Fragment(rest) && rest != "" && (open != "" ==> |open| >= LIMIT)
    requires Terminated(f) || (open == "" && |f| < LIMIT)
    ensures Counts(open + f) <==> open == ""
    ensures open == "" ==> open + f == f
  {
  }

  /** The scan between two reads. */
  ghost predicate Scanning(content: string, done: seq<string>, at: seq<nat>, open: string, rest: string, position: nat,
                           start: string, finish: string, firstStart: Option<nat>, lastFinish: Option<nat>)
  {
    Framed(content, done, open, rest) && Found(done, at, position, start, finish, firstStart, lastFinish)
  }

  lemma CloseStep(content: string, done: seq<string>, at: seq<nat>, open: string, rest: string, position: nat,
                  start: string, finish: string, firstStart: Option<nat>, lastFinish: Option<nat>, f: string)
    requires Scanning(content, done, at, open, rest, position, start, finish, firstStart, lastFinish)
    requires rest != "" && f == Fragment(rest) && (Terminated(f) || (open == "" && |f| < LIMIT))
    ensures Scanning(content, done + [open + f], at + [position], "", rest[|f|..], position + 1, start, finish,
                     if open == "" && ChopLine(f) == start && firstStart.None? then Some(position) else firstStart,
                     if open == "" && ChopLine(f) == finish then Some(position) else lastFinish)
  {
    CloseLine(content, done, open, rest, f);
    CountsIfWhole(open, rest, f);
    FoundNext(done, at, position, start, finish, firstStart, lastFinish, open + f);
  }

  lemma OpenStep(content: string, done: seq<string>, at: seq<nat>, open: string, rest: string, position: nat,
                 start: string, finish: string, firstStart: Option<nat>, lastFinish: Option<nat>, f: string)
    requires Scanning(content, done, at, open, rest, position, start, finish, firstStart, lastFinish)
    requires rest != "" && f == Fragment(rest) && !Terminated(f) && (open != "" || |f| >= LIMIT)
    ensures Scanning(content, done, at, open + f, rest[|f|..], position + 1, start, finish, firstStart, lastFinish)
  {
    KeepOpen(content, done, open, rest, f);
  }

  lemma ScanEnds(content: string, done: seq<string>, at: seq<nat>, open: string, position: nat,
                 start: string, finish: string, firstStart: Option<nat>, lastFinish: Option<nat>)
    requires Framed(content, done, open, "") && Found(done, at, position, start, finish, firstStart, lastFinish)
    ensures firstStart.Some? && lastFinish.Some? && firstStart.value < lastFinish.value
       <==> StartsBeforeFinish(Lines(content), start, finish)
  {
    assert open + "" == open;
    if open == "" {
      assert Lines(content) == done;
      FoundDecides(done, at, position, start, finish, firstStart, lastFinish);
    } else {
      OpenLast(open);
      FoundNext(done, at, position, start, finish, firstStart, lastFinish, open);
      FoundDecides(done + [open], at + [position], position + 1, start, finish, firstStart, lastFinish);
    }
  }

  /** A line left open at the end of the file is the last line, and too long to count. */
  lemma OpenLast(open: string)
    requires |open| >= LIMIT && forall i :: 0 <= i < |open| ==> open[i] != '\n'
    ensures Lines(open) == [open] && !Counts(open)
  {
    LinePeels(open, "");
    assert open + "" == open;
  }

  lemma FoundDecides(done: seq<string>, at: seq<nat>, position: nat, start: string, finish: string,
                     firstStart: Option<nat>, lastFinish: Option<nat>)
    requires Found(done, at, position, start, finish, firstStart, lastFinish)
    ensures firstStart.Some? && lastFinish.Some? && firstStart.value < lastFinish.value
       <==> StartsBeforeFinish(done, start, finish)
  {
  }

  /** The scan loop; an unreadable file (None) has no markers. */
  method HasSessionMarkers(content: Option<string>, marker: string) returns (r: bool)
    ensures r <==> content.Some? && StartsBeforeFinish(Lines(content.value), marker + "start", marker + "finish")
  {
    if content.None? { return false; }
    var start, finish := marker + "start", marker + "finish";
    var rest := content.value;
    var firstStart, lastFinish := None, None;
    var continued, position := false, 0;
    ghost var done: seq<string>, at: seq<nat>, open := [], [], "";
    assert open + rest == content.value;
    while rest != ""
      invariant rest != "" ==> (continued <==> open != "")
      invariant Scanning(content.value, done, at, open, rest, position, start, finish, firstStart, lastFinish)
      decreases |rest|
    {
      var fragment := Fragment(rest);
      var wholeLine := !continued && Terminated(fragment);
      if Terminated(fragment) || (!continued && |fragment| < LIMIT) {
        CloseStep(content.value, done, at, open, rest, position, start, finish, firstStart, lastFinish, fragment);
        done, at, open := done + [open + fragment], at + [position], "";
      } else {
        OpenStep(content.value, done, at, open, rest, position, start, finish, firstStart, lastFinish, fragment);
        open := open + fragment;
      }
      if wholeLine || (!continued && |fragment| < LIMIT) {
        var line := ChopLine(fragment);
        if line == start && firstStart.None? { firstStart := Some(position); }
        if line == finish { lastFinish := Some(position); }
      }
      rest := rest[|fragment|..];
      continued := !Terminated(fragment);
      position := position + 1;
    }
    ScanEnds(content.value, done, at, open, position, start, finish, firstStart, lastFinish);
    r := firstStart.Some? && lastFinish.Some? && firstStart.value < lastFinish.value;
  }
}

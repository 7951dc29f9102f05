/** scripts/stack_pins.py: the generated block of exact pins in the anchor's pyproject. */
module StackPins {
  import opened Text

  const BEGIN := "    # >>> STACK PINS (generated by scripts/stack_pins.py; " + "make stack-pins-sync) >>>"
  const END := "    # <<< STACK PINS <<<"

  const STACK_MEMBERS := [
    "workbay-protocol", "mcp-workbay-handoff", "mcp-workbay-orchestrator", "workbay-bootstrap", "workbay-system"]

  // ---------- finding the block ----------

  predicate Occurs(text: string, w: string, i: nat) { i + |w| <= |text| && text[i..i + |w|] == w }

  ghost predicate IsFirst(text: string, w: string, i: nat) {
    Occurs(text, w, i) && forall j: nat :: j < i ==> !Occurs(text, w, j)
  }

  /** `text.find(w)`. */
  function Find(text: string, w: string): (r: Option<nat>)
    ensures r.Some? ==> IsFirst(text, w, r.value)
    ensures r.None? ==> forall j: nat :: !Occurs(text, w, j)
  {
    FindFrom(text, w, 0)
  }

  function FindFrom(text: string, w: string, i: nat): (r: Option<nat>)
    requires i <= |text| + 1 && forall j: nat :: j < i ==> !Occurs(text, w, j)
    ensures r.Some? ==> IsFirst(text, w, r.value)
    ensures r.None? ==> forall j: nat :: !Occurs(text, w, j)
    decreases |text| + 1 - i
  {
    if i > |text| then None else if Occurs(text, w, i) then Some(i) else FindFrom(text, w, i + 1)
  }

  lemma FirstIsFound(text: string, w: string, i: nat)
    requires IsFirst(text, w, i)
    ensures Find(text, w) == Some(i)
  {
    var r := Find(text, w);
    assert Occurs(text, w, i);
    assert Occurs(text, w, r.value);
  }

  datatype Parts = Parts(before: string, block: string, after: string)

  /** `_split_pins_block`, for the sentinels `open` and `close`. */
  function SplitBy(text: string, open: string, close: string): Option<Parts> {
    var start, stop := Find(text, open), Find(text, close);
    if start.None? || stop.None? || stop.value < start.value then None
    else
      var cut := start.value + |open| + 1;
      Some(Parts(if cut <= |text| then text[..cut] else text, Slice(text, cut, stop.value), text[stop.value..]))
  }

  function SplitPinsBlock(text: string): Option<Parts> { SplitBy(text, BEGIN, END) }

  /** The end sentinel follows the begin sentinel with nothing, not even a newline, between them. */
  predicate AbutBy(text: string, open: string, close: string) {
    var start, stop := Find(text, open), Find(text, close);
    start.Some? && stop.Some? && stop.value == start.value + |open|
  }

  predicate Abuts(text: string) { AbutBy(text, BEGIN, END) }

  /** What the letters of the two sentinels rule out: overlaps, and an end sentinel running into pin lines. */
  ghost predicate Lettered(open: string, close: string) {
    && open != "" && open[|open| - 1] == '>' && '<' !in open
    && |close| > 4 && close[0] == close[3] == ' ' && close[4] == '#' && close[|close| - 1] == '<'
    && '>' !in close && '\n' !in close && '"' !in close
  }

  lemma BeginLetters()
    ensures '<' !in BEGIN && BEGIN[|BEGIN| - 1] == '>'
  {
    var a, b, c := "    # >>> STACK PINS (generated", " by scripts/stack_pins.py; ", "make stack-pins-sync) >>>";
    assert "    # >>> STACK PINS (generated by scripts/stack_pins.py; " == a + b;
    assert '<' !in a && '<' !in b && '<' !in c;
    assert BEGIN[|BEGIN| - 1] == c[|c| - 1];
  }

  lemma SentinelLetters()
    ensures Lettered(BEGIN, END)
  {
    BeginLetters();
  }

  /** The sentinels cannot overlap. */
  lemma SentinelsApart(text: string, open: string, close: string, b: nat, e: nat)
    requires Lettered(open, close) && Occurs(text, open, b) && Occurs(text, close, e) && b <= e
    ensures b + |open| <= e
  {
    if e < b + |open| {
      if b + |open| <= e + |close| {
      } else {
      }
    }
  }

  lemma PartitionBy(text: string, open: string, close: string)
    requires Lettered(open, close) && SplitBy(text, open, close).Some?
    ensures var p := SplitBy(text, open, close).value;
            p.before + p.block + p.after == text <==> !AbutBy(text, open, close)
  {
    var b, e := Find(text, open).value, Find(text, close).value;
    var p := SplitBy(text, open, close).value;
    SentinelsApart(text, open, close, b, e);
    var cut := b + |open| + 1;
    if !AbutBy(text, open, close) {
      assert text == text[..cut] + text[cut..e] + text[e..];
    } else {
      assert |p.before| == e + 1 && |p.after| == |text| - e;
    }
  }

  /** The three parts make up the text again iff the sentinels do not abut. */
  lemma SplitIsPartition(text: string)
    requires SplitPinsBlock(text).Some?
    ensures var p := SplitPinsBlock(text).value; p.before + p.block + p.after == text <==> !Abuts(text)
  {
    SentinelLetters();
    PartitionBy(text, BEGIN, END);
  }

  // ---------- reading and writing pins ----------

  predicate IsBreak(c: char) {
    '\n' <= c <= '\r' || '\U{1c}' <= c <= '\U{1e}' || c == '\U{85}' || '\U{2028}' <= c <= '\U{2029}'
  }

  /** The line breaks of `str.splitlines`. */
  lemma BreaksAre(c: char)
    ensures IsBreak(c) <==>
      c in ['\n', '\U{b}', '\U{c}', '\r', '\U{1c}', '\U{1d}', '\U{1e}', '\U{85}', '\U{2028}', '\U{2029}']
  {
  }

  /** The lines of a block: cut at every break, so CRLF leaves an empty line, which holds no pin. */
  function Lines(text: string): (r: seq<string>)
    ensures |r| > 0
    decreases |text|
  {
    if text == "" then [""]
    else
      var r := Lines(text[1..]);
      if IsBreak(text[0]) then [""] + r else [[text[0]] + r[0]] + r[1..]
  }

  predicate IsNameChar(c: char) {
    'A' <= c <= 'Z' || 'a' <= c <= 'z' || IsDigit(c) || c == '.' || c == '_' || c == '-'
  }

  /** ASCII letters and digits, dots, underscores and hyphens. */
  lemma NameCharsAre(c: char)
    ensures var n := c as int;
      IsNameChar(c) <==> 65 <= n <= 90 || 97 <= n <= 122 || 48 <= n <= 57 || c in ['.', '_', '-']
  {
  }

  /** How far `keep` holds from the start. */
  function Span(s: string, keep: char -> bool): (n: nat)
    ensures n <= |s| && (forall i :: 0 <= i < n ==> keep(s[i])) && (n < |s| ==> !keep(s[n]))
  {
    if s == "" || !keep(s[0]) then 0 else 1 + Span(s[1..], keep)
  }

  datatype Pin = Pin(name: string, version: string)

  const NotQuote := (c: char) => c != '"'

  /** `\s*"([A-Za-z0-9._-]+)==([^"]+)",?\s*$` on one line. */
  function ReadPin(line: string): Option<Pin> {
    var s := StripLeft(line);
    if s == "" || s[0] != '"' then None
    else
      var n := Span(s[1..], IsNameChar);
      if n == 0 then None
      else
        var version := ReadVersion(s[1 + n..]);
        if version.None? then None else Some(Pin(s[1..1 + n], version.value))
  }

  /** `==([^"]+)",?\s*$`. */
  function ReadVersion(rest: string): Option<string> {
    if !StartsWith(rest, "==") then None
    else
      var m := Span(rest[2..], NotQuote);
      if m == 0 || m == |rest| - 2 then None
      else
        var tail := rest[2 + m + 1..];
        var spaces := if tail != "" && tail[0] == ',' then tail[1..] else tail;
        if StripLeft(spaces) == "" then Some(rest[2..2 + m]) else None
  }

  function PinsOf(lines: seq<string>): map<string, string> {
    if lines == [] then map[]
    else
      var pins, pin := PinsOf(lines[..|lines| - 1]), ReadPin(lines[|lines| - 1]);
      if pin.Some? then pins[pin.value.name := pin.value.version] else pins
  }

  method CurrentPins(text: string) returns (pins: Option<map<string, string>>)
    ensures pins == PinsIn(text)
  {
    var parts := SplitPinsBlock(text);
    if parts.None? { return None; }
    var found: map<string, string> := map[];
    var lines := Lines(parts.value.block);
    for i := 0 to |lines|
      invariant found == PinsOf(lines[..i])
    {
      var pin := ReadPin(lines[i]);
      if pin.Some? { found := found[pin.value.name := pin.value.version]; }
      TakeOneMore(lines, i);
    }
    assert lines[..|lines|] == lines;
    pins := Some(found);
  }

  function PinsIn(text: string): Option<map<string, string>> {
    var parts := SplitPinsBlock(text);
    if parts.None? then None else Some(PinsOf(Lines(parts.value.block)))
  }

  function PinLine(name: string, version: string): string { "    \"" + name + "==" + version + "\"," }

  function RenderPins(members: seq<string>, versions: map<string, string>): string {
    if members == [] then ""
    else
      (if members[0] in versions then PinLine(members[0], versions[members[0]]) + "\n" else "")
      + RenderPins(members[1..], versions)
  }

  /** A version a pin line can carry: not empty, no quote, no line break. */
  predicate PlainVersion(v: string) {
    v != "" && forall i :: 0 <= i < |v| ==> v[i] != '"' && !IsBreak(v[i])
  }

  /** The text holds no `w`. */
  ghost predicate Free(text: string, w: string) { forall j: nat :: !Occurs(text, w, j) }

  predicate PlainName(name: string) { name != "" && forall i :: 0 <= i < |name| ==> IsNameChar(name[i]) }

  lemma {:induction false} SpanOfPrefix(a: string, b: string, keep: char -> bool)
    requires forall i :: 0 <= i < |a| ==> keep(a[i])
    requires b == "" || !keep(b[0])
    ensures Span(a + b, keep) == |a|
  {
    if a == "" {
      assert a + b == b;
    } else {
      assert (a + b)[1..] == a[1..] + b;
      SpanOfPrefix(a[1..], b, keep);
    }
  }

  lemma StripSpace(s: string)
    ensures StripLeft(" " + s) == StripLeft(s)
  {
    assert (" " + s)[1..] == s;
  }

  lemma PinLineStrips(s: string)
    requires s != "" && s[0] == '"'
    ensures StripLeft("    " + s) == s
  {
    assert "    " + s == " " + (" " + (" " + (" " + s)));
    StripSpace(s);
    StripSpace(" " + s);
    StripSpace(" " + (" " + s));
    StripSpace(" " + (" " + (" " + s)));
  }

  lemma PinLineReads(name: string, version: string)
    requires PlainName(name) && PlainVersion(version)
    ensures ReadPin(PinLine(name, version)) == Some(Pin(name, version))
  {
    var rest := "==" + version + "\",";
    var s := "\"" + (name + rest);
    assert PinLine(name, version) == "    " + s;
    PinLineStrips(s);
    assert s[1..] == name + rest;
    SpanOfPrefix(name, rest, IsNameChar);
    assert s[1 + |name|..] == rest && s[1..1 + |name|] == name;
    VersionReads(version);
  }

  lemma VersionReads(version: string)
    requires PlainVersion(version)
    ensures ReadVersion("==" + version + "\",") == Some(version)
  {
    var rest := "==" + version + "\",";
    assert rest[..2] == "==" && rest[2..] == version + "\",";
    SpanOfPrefix(version, "\",", NotQuote);
    assert rest[2 + |version| + 1..] == ",";
    assert rest[2..2 + |version|] == version;
  }

  lemma {:induction false} LinesReads(line: string, rest: string)
    requires forall i :: 0 <= i < |line| ==> !IsBreak(line[i])
    ensures Lines(line + "\n" + rest) == [line] + Lines(rest)
  {
    var text := line + "\n" + rest;
    if line == "" {
      assert text[0] == '\n' && text[1..] == rest;
    } else {
      assert text[1..] == line[1..] + "\n" + rest;
      LinesReads(line[1..], rest);
      assert text[0] == line[0] && [line[0]] + line[1..] == line;
    }
  }

  ghost predicate Renderable(members: seq<string>, versions: map<string, string>) {
    forall m :: m in members && m in versions ==> PlainName(m) && PlainVersion(versions[m])
  }

  /** Reading from the front: later lines win. */
  lemma {:induction false} PinsOfFront(line: string, lines: seq<string>)
    ensures PinsOf([line] + lines) == PinsOf([line]) + PinsOf(lines)
  {
    var all := [line] + lines;
    if lines == [] {
      assert all == [line];
    } else {
      var n := |lines| - 1;
      assert all[..|all| - 1] == [line] + lines[..n] && all[|all| - 1] == lines[n];
      PinsOfFront(line, lines[..n]);
      var pin := ReadPin(lines[n]);
      if pin.Some? { UpdateLast(PinsOf([line]), PinsOf(lines[..n]), pin.value.name, pin.value.version); }
    }
  }

  lemma UpdateLast(a: map<string, string>, b: map<string, string>, name: string, version: string)
    ensures (a + b)[name := version] == a + b[name := version]
  {
  }

  lemma PinLineAdds(name: string, version: string, rest: string)
    requires PlainName(name) && PlainVersion(version)
    ensures PinsOf(Lines(PinLine(name, version) + "\n" + rest)) == map[name := version] + PinsOf(Lines(rest))
  {
    var line := PinLine(name, version);
    LinesReads(line, rest);
    PinsOfFront(line, Lines(rest));
    PinLineReads(name, version);
    assert [line][..0] == [];
    assert PinsOf([line]) == map[name := version];
  }

  /** The members whose version is known, with it. */
  function Known(members: seq<string>, versions: map<string, string>): map<string, string> {
    map m | m in members && m in versions :: versions[m]
  }

  lemma KnownFront(members: seq<string>, versions: map<string, string>)
    requires members != []
    ensures Known(members, versions) ==
            (if members[0] in versions then map[members[0] := versions[members[0]]] else map[]) +
              Known(members[1..], versions)
  {
    assert members == [members[0]] + members[1..];
  }

  /** Parsing a rendered block gives back the versions of the members that have one. */
  lemma {:induction false} RenderReadsBack(members: seq<string>, versions: map<string, string>)
    requires Renderable(members, versions)
    ensures PinsOf(Lines(RenderPins(members, versions))) == Known(members, versions)
  {
    if members == [] {
    } else {
      var m, rest := members[0], RenderPins(members[1..], versions);
      RenderReadsBack(members[1..], versions);
      KnownFront(members, versions);
      if m in versions {
        PinLineAdds(m, versions[m], rest);
        assert RenderPins(members, versions) == PinLine(m, versions[m]) + "\n" + rest;
      } else {
        assert RenderPins(members, versions) == rest;
      }
    }
  }

  // ---------- the file ----------

  /** A rendered block holds no end sentinel, starts with four spaces and ends with a newline. */
  ghost predicate BlockShape(block: string, close: string) {
    && Free(block, close)
    && (block != "" ==> |block| >= 4 && block[..4] == "    " && block[|block| - 1] == '\n')
  }

  lemma Differs(text: string, w: string, j: nat, k: nat)
    requires k < |w| && j + k < |text| && text[j + k] != w[k]
    ensures !Occurs(text, w, j)
  {
    if j + |w| <= |text| { assert text[j..j + |w|][k] == text[j + k]; }
  }

  lemma SameSpot(text: string, w: string, j: nat, part: string, at: nat)
    requires at <= j && at + |part| <= |text| && text[at..at + |part|] == part && j + |w| <= at + |part|
    ensures Occurs(text, w, j) <==> Occurs(part, w, j - at)
  {
    var here, there := text[j..j + |w|], part[j - at..j - at + |w|];
    assert forall i :: 0 <= i < |part| ==> text[at + i] == text[at..at + |part|][i] == part[i];
    forall i | 0 <= i < |w| ensures here[i] == there[i] {
      assert text[j + i] == text[at + (j - at + i)];
    }
    assert here == there;
  }

  /** A pin line holds no end sentinel its version does not hold, and none starts on it. */
  lemma LineIsFree(name: string, version: string, rest: string, close: string, j: nat)
    requires PlainName(name) && Free(version, close) && Free(rest, close)
    requires |close| > 4 && close[0] == ' ' && '"' !in close
    ensures !Occurs(PinLine(name, version) + "\n" + rest, close, j)
  {
    var block := PinLine(name, version) + "\n" + rest;
    var start := 7 + |name|;
    var stop := start + |version|;
    assert block[4] == block[stop] == '"' && block[stop + 1] == ',' && block[stop + 2] == '\n';
    assert block[start..stop] == version && block[stop + 3..stop + 3 + |rest|] == rest;
    if j <= 4 {
      Differs(block, close, j, 4 - j);
    } else if j < start {
      assert block[j] == if j < 5 + |name| then name[j - 5] else '=';
      Differs(block, close, j, 0);
    } else if j <= stop < j + |close| {
      if j + |close| <= |block| { Differs(block, close, j, stop - j); }
    } else if j <= stop {
      SameSpot(block, close, j, version, start);
    } else if j <= stop + 2 {
      Differs(block, close, j, 0);
    } else if j + |close| <= |block| {
      SameSpot(block, close, j, rest, stop + 3);
    }
  }

  ghost predicate NoSentinels(members: seq<string>, versions: map<string, string>, close: string) {
    forall m :: m in members && m in versions ==> Free(versions[m], close)
  }

  lemma {:induction false} RenderShape(members: seq<string>, versions: map<string, string>, close: string)
    requires Renderable(members, versions) && NoSentinels(members, versions, close)
    requires |close| > 4 && close[0] == ' ' && '"' !in close
    ensures BlockShape(RenderPins(members, versions), close)
  {
    if members == [] {
      assert Free("", close);
    } else {
      var m, rest := members[0], RenderPins(members[1..], versions);
      RenderShape(members[1..], versions, close);
      if m in versions {
        forall j: nat ensures !Occurs(PinLine(m, versions[m]) + "\n" + rest, close, j) {
          LineIsFree(m, versions[m], rest, close, j);
        }
        FirstAndLast(m, versions[m], rest);
      } else {
        assert "" + rest == rest;
      }
    }
  }

  lemma FirstAndLast(name: string, version: string, rest: string)
    requires rest != "" ==> rest[|rest| - 1] == '\n'
    ensures var block := PinLine(name, version) + "\n" + rest;
            |block| >= 4 && block[..4] == "    " && block[|block| - 1] == '\n'
  {
    var block := PinLine(name, version) + "\n" + rest;
    assert block[..4] == PinLine(name, version)[..4] == "    ";
    assert block[|block| - 1] == if rest == "" then '\n' else rest[|rest| - 1];
  }

  /** Before the block: the end sentinel is not met where it was not, nor does it straddle the begin sentinel's end. */
  lemma EndNotAbove(head: string, tail: string, close: string, j: nat)
    requires |head| >= 2 && head[|head| - 2] == '>' && '>' !in close && Free(head, close) && j + 1 < |head|
    ensures !Occurs(head + tail, close, j)
  {
    var out := head + tail;
    if j + |close| <= |head| {
      assert out[0..|head|] == head;
      SameSpot(out, close, j, head, 0);
    } else {
      assert out[|head| - 2] == '>';
      Differs(out, close, j, |head| - 2 - j);
    }
  }

  /** Nor does it start on the character before the block, or in the block. */
  lemma EndNotInBlock(head: string, block: string, after: string, close: string, j: nat)
    requires head != "" && |head| - 1 <= j < |head| + |block|
    requires |close| > 4 && close[3] == ' ' && close[4] == '#' && '\n' !in close && BlockShape(block, close)
    requires |after| > 3 && after[3] == ' '
    ensures !Occurs(head + block + after, close, j)
  {
    var n := |head|;
    var out := head + block + after;
    assert out[n..n + |block|] == block;
    if j == n - 1 {
      assert out[n + 3] == if block == "" then after[3] else block[..4][3];
      Differs(out, close, j, 4);
    } else if j + |close| <= n + |block| {
      SameSpot(out, close, j, block, n);
    } else {
      assert out[n + |block| - 1] == block[|block| - 1];
      Differs(out, close, j, n + |block| - 1 - j);
    }
  }

  /** Where the end sentinel is first met in a rewritten file. */
  lemma EndComesAfterBlock(text: string, open: string, close: string, b: nat, e: nat, block: string, j: nat)
    requires Lettered(open, close) && BlockShape(block, close)
    requires IsFirst(text, open, b) && IsFirst(text, close, e) && b + |open| < e
    requires j < b + |open| + 1 + |block|
    ensures !Occurs(text[..b + |open| + 1] + block + text[e..], close, j)
  {
    var cut := b + |open| + 1;
    var head, after := text[..cut], text[e..];
    if j + 1 < cut {
      assert text[b..b + |open|][|open| - 1] == text[cut - 2] == head[cut - 2];
      forall i: nat ensures !Occurs(head, close, i) {
        if i + |close| <= cut { SameSpot(text, close, i, head, 0); }
      }
      EndNotAbove(head, block + after, close, j);
      assert head + block + after == head + (block + after);
    } else {
      assert text[e..e + |close|][3] == text[e + 3] == after[3];
      EndNotInBlock(head, block, after, close, j);
    }
  }

  ghost predicate SplitsInto(text: string, open: string, close: string, p: Parts) {
    SplitBy(text, open, close) == Some(p) && !AbutBy(text, open, close)
  }

  lemma SplitKnown(text: string, open: string, close: string, b: nat, e: nat)
    requires Find(text, open) == Some(b) && Find(text, close) == Some(e) && b + |open| < e
    ensures e <= |text|
    ensures SplitsInto(text, open, close, Parts(text[..b + |open| + 1], text[b + |open| + 1..e], text[e..]))
  {
  }

  lemma BeginStays(text: string, open: string, b: nat, rest: string, out: string)
    requires IsFirst(text, open, b) && b + |open| < |text| && out == text[..b + |open| + 1] + rest
    ensures Find(out, open) == Some(b)
  {
    forall j: nat | j <= b ensures Occurs(out, open, j) <==> Occurs(text, open, j) {
      assert out[j..j + |open|] == text[j..j + |open|];
    }
    FirstIsFound(out, open, b);
  }

  lemma EndMoves(text: string, open: string, close: string, b: nat, e: nat, block: string, out: string)
    requires Lettered(open, close) && BlockShape(block, close)
    requires IsFirst(text, open, b) && IsFirst(text, close, e) && b + |open| < e
    requires out == text[..b + |open| + 1] + block + text[e..]
    ensures Find(out, close) == Some(b + |open| + 1 + |block|)
  {
    var cut := b + |open| + 1;
    forall j: nat | j < cut + |block| ensures !Occurs(out, close, j) {
      EndComesAfterBlock(text, open, close, b, e, block, j);
    }
    assert out[cut + |block|..cut + |block| + |close|] == text[e..e + |close|];
    FirstIsFound(out, close, cut + |block|);
  }

  lemma RewriteAt(text: string, open: string, close: string, b: nat, e: nat, block: string)
    requires Lettered(open, close) && BlockShape(block, close)
    requires IsFirst(text, open, b) && IsFirst(text, close, e) && b + |open| < e
    ensures var cut := b + |open| + 1;
            SplitsInto(text[..cut] + block + text[e..], open, close, Parts(text[..cut], block, text[e..]))
  {
    var cut := b + |open| + 1;
    var out := text[..cut] + block + text[e..];
    JoinThree(text[..cut], block, text[e..]);
    BeginStays(text, open, b, block + text[e..], out);
    EndMoves(text, open, close, b, e, block, out);
    SplitOfThree(text[..cut], block, text[e..], open, close, b);
  }

  lemma SplitOfThree(head: string, block: string, after: string, open: string, close: string, b: nat)
    requires |head| == b + |open| + 1 && Find(head + block + after, open) == Some(b)
    requires Find(head + block + after, close) == Some(|head| + |block|)
    ensures SplitsInto(head + block + after, open, close, Parts(head, block, after))
  {
    SplitKnown(head + block + after, open, close, b, |head| + |block|);
    ThreeSlices(head, block, after);
  }

  lemma ThreeSlices(a: string, b: string, c: string)
    ensures (a + b + c)[..|a|] == a && (a + b + c)[|a|..|a| + |b|] == b && (a + b + c)[|a| + |b|..] == c
  {
  }

  /** Rewriting the block leaves the two sentinels and everything around them where they were. */
  lemma RewriteSplits(text: string, open: string, close: string, block: string)
    requires Lettered(open, close) && BlockShape(block, close)
    requires SplitBy(text, open, close).Some? && !AbutBy(text, open, close)
    ensures var p := SplitBy(text, open, close).value;
            SplitsInto(p.before + block + p.after, open, close, Parts(p.before, block, p.after))
  {
    var b, e := Find(text, open).value, Find(text, close).value;
    SentinelsApart(text, open, close, b, e);
    SplitKnown(text, open, close, b, e);
    RewriteAt(text, open, close, b, e, block);
  }

  datatype Message = NoFile | NoBlock | Unresolved(member: string) | NoPin(member: string) | Mismatch(member: string)
                   | Stray(name: string)

  datatype SyncResult = Changed | Unchanged | Refused

  /** Every member's version resolved from its own pyproject. */
  ghost predicate Resolved(versions: map<string, string>) { forall m :: m in STACK_MEMBERS ==> m in versions }

  function Members(versions: map<string, string>): map<string, string> {
    Known(STACK_MEMBERS, versions)
  }

  class Pyproject {
    var text: Option<string>

    constructor (text: Option<string>)
      ensures this.text == text
    {
      this.text := text;
    }

    /** `check`: ok iff the block pins exactly the members, each at its own version. */
    method Check(versions: map<string, string>) returns (ok: bool, messages: seq<Message>)
      ensures ok <==> text.Some? && Resolved(versions) && PinsIn(text.value) == Some(Members(versions))
      ensures ok <==> messages == []
    {
      if text.None? { return false, [NoFile]; }
      messages := [];
      for i := 0 to |STACK_MEMBERS|
        invariant messages == [] <==> forall j :: 0 <= j < i ==> STACK_MEMBERS[j] in versions
      {
        if STACK_MEMBERS[i] !in versions { messages := messages + [Unresolved(STACK_MEMBERS[i])]; }
      }
      assert messages == [] <==> Resolved(versions);
      var pins := CurrentPins(text.value);
      if pins.None? { return false, messages + [NoBlock]; }
      var found := pins.value;
      ok := messages == [];
      for i := 0 to |STACK_MEMBERS|
        invariant ok <==> messages == []
        invariant ok <==> Resolved(versions) && forall j :: 0 <= j < i ==> Agrees(found, versions, STACK_MEMBERS[j])
      {
        var member := STACK_MEMBERS[i];
        if member !in versions {
          ok := false;
          continue;
        }
        if member !in found {
          ok := false;
          messages := messages + [NoPin(member)];
        } else if found[member] != versions[member] {
          ok := false;
          messages := messages + [Mismatch(member)];
        }
      }
      var stray := SortedKeys(found.Keys - set m | m in STACK_MEMBERS);
      assert ok <==> Resolved(versions) && forall m :: m in STACK_MEMBERS ==> Agrees(found, versions, m);
      if stray != [] {
        ok := false;
        messages := messages + seq(|stray|, i requires 0 <= i < |stray| => Stray(stray[i]));
        assert stray[0] in stray;
        assert stray[0] in found && stray[0] !in Members(versions);
      } else {
        assert forall m :: m in found ==> m in STACK_MEMBERS by {
          forall m | m in found ensures m in STACK_MEMBERS { assert m in STACK_MEMBERS || m in stray; }
        }
        PinsAgree(found, versions);
      }
    }

    /** `sync`: only the block is rewritten, and only when that changes the file. */
    method Sync(versions: map<string, string>) returns (r: SyncResult)
      modifies this
      ensures r == Refused <==> old(text).None? || !Resolved(versions) || SplitPinsBlock(old(text).value).None?
      ensures r == Changed <==> text != old(text)
      ensures r != Refused ==> text == Some(Synced(old(text).value, versions))
    {
      if text.None? { return Refused; }
      if exists i :: 0 <= i < |STACK_MEMBERS| && STACK_MEMBERS[i] !in versions {
        return Refused;
      }
      assert Resolved(versions);
      var parts := SplitPinsBlock(text.value);
      if parts.None? { return Refused; }
      var rewritten := parts.value.before + RenderPins(STACK_MEMBERS, versions) + parts.value.after;
      if rewritten == text.value { return Unchanged; }
      text := Some(rewritten);
      r := Changed;
    }
  }

  ghost predicate Agrees(pins: map<string, string>, versions: map<string, string>, m: string) {
    m in versions && m in pins && pins[m] == versions[m]
  }

  lemma PinsAgree(pins: map<string, string>, versions: map<string, string>)
    requires forall m :: m in pins ==> m in STACK_MEMBERS
    ensures Resolved(versions) ==>
      ((forall m :: m in STACK_MEMBERS ==> Agrees(pins, versions, m)) <==> pins == Members(versions))
  {
    if Resolved(versions) {
      if forall m :: m in STACK_MEMBERS ==> Agrees(pins, versions, m) {
        assert pins == Members(versions);
      }
      if pins == Members(versions) {
        forall m | m in STACK_MEMBERS ensures Agrees(pins, versions, m) { assert m in Members(versions); }
      }
    }
  }

  function Synced(text: string, versions: map<string, string>): string
    requires SplitPinsBlock(text).Some?
  {
    var p := SplitPinsBlock(text).value;
    p.before + RenderPins(STACK_MEMBERS, versions) + p.after
  }

  /** Versions pin lines can carry and that do not hold the end sentinel itself. */
  ghost predicate PlainVersions(versions: map<string, string>) {
    forall m :: m in STACK_MEMBERS && m in versions ==> PlainVersion(versions[m]) && Free(versions[m], END)
  }

  lemma MembersAreNames()
    ensures forall m :: m in STACK_MEMBERS ==> PlainName(m)
  {
    assert PlainName("workbay-protocol");
    assert PlainName("mcp-workbay-handoff");
    assert PlainName("mcp-workbay-orchestrator");
    assert PlainName("workbay-bootstrap");
    assert PlainName("workbay-system");
  }

  /** Unless the sentinels abut, a synced file keeps all text outside the block, its block reads back as exactly the
      member versions, and a second sync changes nothing. */
  lemma SyncSettles(text: string, versions: map<string, string>)
    requires SplitPinsBlock(text).Some? && !Abuts(text) && PlainVersions(versions)
    ensures var p, out := SplitPinsBlock(text).value, Synced(text, versions);
      && p.before + p.block + p.after == text
      && SplitPinsBlock(out) == Some(Parts(p.before, RenderPins(STACK_MEMBERS, versions), p.after))
      && PinsIn(out) == Some(Members(versions))
      && Synced(out, versions) == out
  {
    MembersAreNames();
    SentinelLetters();
    RenderShape(STACK_MEMBERS, versions, END);
    SplitIsPartition(text);
    RewriteSplits(text, BEGIN, END, RenderPins(STACK_MEMBERS, versions));
    RenderReadsBack(STACK_MEMBERS, versions);
  }

  /** When the sentinels abut, a sync writes the first character of the end sentinel once more before the block. */
  lemma AbuttingSyncRepeats(text: string, versions: map<string, string>)
    requires SplitPinsBlock(text).Some? && Abuts(text)
    ensures var e := Find(text, END).value;
      && e < |text|
      && Synced(text, versions) == text[..e] + [text[e]] + RenderPins(STACK_MEMBERS, versions) + text[e..]
      && |Synced(text, versions)| == |text| + 1 + |RenderPins(STACK_MEMBERS, versions)|
  {
    var e := Find(text, END).value;
    EndIsLong();
    TakeOneMore(text, e);
  }

  lemma EndIsLong()
    ensures |END| > 0
  {
  }

  /** There are such texts. */
  lemma AbuttingText()
    ensures var text := "    # >>> STACK PINS (generated by scripts/stack_pins.py; " + "make stack-pins-sync) >>>" +
                        "    # <<< STACK PINS <<<";
      SplitPinsBlock(text).Some? && Abuts(text)
  {
    SentinelLetters();
    SplitsAbutting(BEGIN, END);
  }

  lemma SplitsAbutting(open: string, close: string)
    requires Lettered(open, close)
    ensures SplitBy(open + close, open, close).Some? && AbutBy(open + close, open, close)
  {
    var text := open + close;
    assert text[..|open|] == open && text[|open|..|open| + |close|] == close;
    FirstIsFound(text, open, 0);
    forall j: nat | j < |open| ensures !Occurs(text, close, j) {
      if j + |close| <= |open| {
        assert text[j + |close| - 1] == open[j + |close| - 1] != '<';
        Differs(text, close, j, |close| - 1);
      } else {
        assert text[|open| - 1] == '>';
        Differs(text, close, j, |open| - 1 - j);
      }
    }
    FirstIsFound(text, close, |open|);
  }

  // ---------- pins as lines of the file ----------

  function PinLines(members: seq<string>, versions: map<string, string>): seq<string> {
    if members == [] then []
    else (if members[0] in versions then [PinLine(members[0], versions[members[0]])] else [])
         + PinLines(members[1..], versions)
  }

  lemma {:induction false} BlockLines(members: seq<string>, versions: map<string, string>, after: string)
    requires Renderable(members, versions)
    ensures Lines(RenderPins(members, versions) + after) == PinLines(members, versions) + Lines(after)
  {
    if members == [] {
      assert "" + after == after;
    } else {
      var m, rest := members[0], RenderPins(members[1..], versions);
      BlockLines(members[1..], versions, after);
      if m in versions {
        PinLineFirst(m, versions[m], rest, after);
        JoinThree([PinLine(m, versions[m])], PinLines(members[1..], versions), Lines(after));
      } else {
        assert "" + rest == rest;
      }
    }
  }

  lemma PinLineFirst(name: string, version: string, rest: string, after: string)
    requires PlainName(name) && PlainVersion(version)
    ensures Lines(PinLine(name, version) + "\n" + rest + after) == [PinLine(name, version)] + Lines(rest + after)
  {
    var line := PinLine(name, version);
    PinLineUnbroken(name, version);
    LinesReads(line, rest + after);
    assert line + "\n" + rest + after == line + "\n" + (rest + after);
  }

  lemma PinLineUnbroken(name: string, version: string)
    requires PlainName(name) && PlainVersion(version)
    ensures forall i :: 0 <= i < |PinLine(name, version)| ==> !IsBreak(PinLine(name, version)[i])
  {
  }

  /** The lines of two texts written one after the other: the second continues the last line of the first. */
  function Continued(x: seq<string>, y: seq<string>): seq<string>
    requires x != [] && y != []
  {
    x[..|x| - 1] + [x[|x| - 1] + y[0]] + y[1..]
  }

  lemma {:induction false} LinesContinue(a: string, b: string)
    ensures Lines(a + b) == Continued(Lines(a), Lines(b))
    decreases |a|
  {
    var y := Lines(b);
    if a == "" {
      assert a + b == b;
      ContinueEmpty(y);
    } else {
      var c, rest := a[0], a[1..];
      LinesContinue(rest, b);
      JoinThree([c], rest, b);
      assert a == [c] + rest;
      LinesFront(c, rest);
      LinesFront(c, rest + b);
      ContinueStep(c, Lines(rest), y);
    }
  }

  lemma LinesFront(c: char, s: string)
    ensures Lines([c] + s) == Before(c, Lines(s))
  {
    assert ([c] + s)[1..] == s;
  }

  /** One more character in front, on the lines of what follows. */
  function Before(c: char, lines: seq<string>): seq<string>
    requires lines != []
  {
    if IsBreak(c) then [""] + lines else [[c] + lines[0]] + lines[1..]
  }

  lemma ContinueEmpty(y: seq<string>)
    requires y != []
    ensures Continued([""], y) == y
  {
    assert "" + y[0] == y[0] && [""][..0] == [] && y == [y[0]] + y[1..];
  }

  lemma ContinueStep(c: char, x: seq<string>, y: seq<string>)
    requires x != [] && y != []
    ensures Before(c, Continued(x, y)) == Continued(Before(c, x), y)
  {
    if !IsBreak(c) && |x| == 1 { assert [c] + (x[0] + y[0]) == ([c] + x[0]) + y[0]; }
  }

  lemma {:induction false} LastLineEmptyIff(a: string)
    ensures Lines(a)[|Lines(a)| - 1] == "" <==> a == "" || IsBreak(a[|a| - 1])
    decreases |a|
  {
    if a != "" {
      LastLineEmptyIff(a[1..]);
      assert |a| > 1 ==> a[1..][|a| - 2] == a[|a| - 1];
    }
  }

  /** In a synced file every pin is a line of its own exactly if a line break follows the begin sentinel; otherwise the
      first pin continues the sentinel's comment, although reading the block back finds it all the same. */
  lemma PinsAreLinesIff(text: string, versions: map<string, string>)
    requires SplitPinsBlock(text).Some? && !Abuts(text) && PlainVersions(versions) && Resolved(versions)
    ensures var p := SplitPinsBlock(text).value;
            var above := Lines(p.before);
            && p.before != ""
            && (Lines(Synced(text, versions)) ==
                  above[..|above| - 1] + PinLines(STACK_MEMBERS, versions) + Lines(p.after)
                <==> IsBreak(p.before[|p.before| - 1]))
  {
    var p := SplitPinsBlock(text).value;
    var block, pins := RenderPins(STACK_MEMBERS, versions), PinLines(STACK_MEMBERS, versions);
    var above := Lines(p.before);
    MembersAreNames();
    SentinelLetters();
    BlockLines(STACK_MEMBERS, versions, p.after);
    SomePin(STACK_MEMBERS, versions);
    BeforeIsNotEmpty(text, BEGIN, END);
    GluesIff(p.before, block, p.after, pins);
  }

  /** There are such files, whatever the versions: after a space the first pin is glued to the begin sentinel. */
  lemma SpaceAfterBegin(versions: map<string, string>)
    requires PlainVersions(versions) && Resolved(versions)
    ensures var text := BEGIN + " \n" + END;
            && SplitPinsBlock(text).Some? && !Abuts(text)
            && var p := SplitPinsBlock(text).value; var above := Lines(p.before);
               Lines(Synced(text, versions)) !=
                 above[..|above| - 1] + PinLines(STACK_MEMBERS, versions) + Lines(p.after)
  {
    SentinelLetters();
    SplitsGapped(BEGIN, END, " \n");
    PinsAreLinesIff(BEGIN + " \n" + END, versions);
  }

  /** A text of the two sentinels with a short gap between them, whose second character is a line break. */
  lemma SplitsGapped(open: string, close: string, gap: string)
    requires Lettered(open, close) && |gap| == 2 && gap[1] == '\n'
    ensures var text := open + gap + close;
            && SplitBy(text, open, close).Some? && !AbutBy(text, open, close)
            && SplitBy(text, open, close).value.before == open + gap[..1]
  {
    var text := open + gap + close;
    assert text[..|open|] == open && text[|open| + 2..|open| + 2 + |close|] == close;
    FirstIsFound(text, open, 0);
    forall j: nat | j < |open| + 2 ensures !Occurs(text, close, j) {
      if j < |open| {
        if Occurs(text, close, j) { SentinelsApart(text, open, close, 0, j); }
      } else {
        assert text[|open| + 1] == '\n';
        Differs(text, close, j, |open| + 1 - j);
      }
    }
    FirstIsFound(text, close, |open| + 2);
    assert text[..|open| + 1] == open + gap[..1];
  }

  lemma GluesIff(before: string, block: string, after: string, pins: seq<string>)
    requires pins != [] && Lines(block + after) == pins + Lines(after)
    ensures var above := Lines(before);
            Lines(before + block + after) == above[..|above| - 1] + pins + Lines(after) <==>
              before == "" || IsBreak(before[|before| - 1])
  {
    var above := Lines(before);
    LinesContinue(before, block + after);
    LastLineEmptyIff(before);
    assert before + block + after == before + (block + after);
    FirstGlues(above[..|above| - 1], above[|above| - 1], pins, Lines(after));
  }

  lemma BeforeIsNotEmpty(text: string, open: string, close: string)
    requires SplitBy(text, open, close).Some? && open != ""
    ensures SplitBy(text, open, close).value.before != ""
  {
  }

  lemma SomePin(members: seq<string>, versions: map<string, string>)
    requires members != [] && forall m :: m in members ==> m in versions
    ensures PinLines(members, versions) != []
  {
  }

  lemma FirstGlues(a: seq<string>, last: string, pins: seq<string>, b: seq<string>)
    requires pins != []
    ensures var all := pins + b;
            (a + [last + all[0]] + all[1..] == a + pins + b) <==> last == ""
  {
    var all := pins + b;
    var glued := a + [last + all[0]] + all[1..];
    assert glued[|a|] == last + pins[0] && (a + pins + b)[|a|] == pins[0];
    if last == "" {
      assert "" + all[0] == all[0] && [all[0]] + all[1..] == all;
      assert glued == a + all;
    } else {
      assert |last + pins[0]| != |pins[0]|;
    }
  }

  /** A sync with resolved plain versions, then a check, then a sync again. */
  method SyncCheckSync(file: Pyproject, versions: map<string, string>) returns (ok: bool, again: SyncResult)
    requires file.text.Some? && SplitPinsBlock(file.text.value).Some? && !Abuts(file.text.value)
    requires Resolved(versions) && PlainVersions(versions)
    modifies file
    ensures ok && again == Unchanged
  {
    SyncSettles(file.text.value, versions);
    var first := file.Sync(versions);
    var messages;
    ok, messages := file.Check(versions);
    again := file.Sync(versions);
  }
}

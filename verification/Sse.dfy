/**
 The incremental reader of a server-sent event stream (`drainSse`, `parseSseFrame`,
 scripts/agent-efficiency/engine-client.ts): a subset of sections 9.2.5 and 9.2.6 of
 the WHATWG HTML Standard.  Input is decoded text, in chunks.
 */
module Sse {
  import opened Text
  import opened Wrappers

  // ---------- Cutting text at blank lines ----------

  predicate BlankAt(buf: string, k: nat) {
    k + 1 < |buf| && buf[k] == '\n' && buf[k + 1] == '\n'
  }

  /** `buf.indexOf('\n\n')` from position `i` on. */
  function FindBlank(buf: string, i: nat): (r: Option<nat>)
    ensures r.Some? ==> i <= r.value && BlankAt(buf, r.value)
    decreases |buf| - i
  {
    if i + 1 >= |buf| then None
    else if buf[i] == '\n' && buf[i + 1] == '\n' then Some(i)
    else FindBlank(buf, i + 1)
  }

  /** It is the leftmost one. */
  lemma {:induction false} FindBlankIsFirst(buf: string, i: nat, k: nat)
    requires i <= k && BlankAt(buf, k)
    ensures FindBlank(buf, i).Some? && FindBlank(buf, i).value <= k
    decreases |buf| - i
  {
    if !BlankAt(buf, i) {
      FindBlankIsFirst(buf, i + 1, k);
    }
  }

  /** What stands after the blank line at `sep`. */
  function Behind(text: string, sep: nat): (rest: string)
    requires sep + 2 <= |text|
    ensures |rest| == |text| - sep - 2
  {
    text[sep + 2..]
  }

  /** The frames of a text: what stands before each leftmost blank line in turn. */
  function Frames(text: string): seq<string>
    decreases |text|
  {
    match FindBlank(text, 0)
    case None => []
    case Some(sep) => [text[..sep]] + Frames(Behind(text, sep))
  }

  /** What follows the last frame: text whose blank line has not come yet. */
  function Tail(text: string): string
    decreases |text|
  {
    match FindBlank(text, 0)
    case None => text
    case Some(sep) => Tail(Behind(text, sep))
  }

  function Flatten(chunks: seq<string>): string {
    if chunks == [] then "" else chunks[0] + Flatten(chunks[1..])
  }

  ghost function Terminated(frames: seq<string>): string {
    if frames == [] then "" else frames[0] + "\n\n" + Terminated(frames[1..])
  }

  lemma CutText(text: string, sep: nat)
    requires BlankAt(text, sep)
    ensures text == text[..sep] + "\n\n" + text[sep + 2..]
  {
  }

  /** The frames and the tail make up the text, and the tail holds no blank line. */
  lemma {:induction false} FramesAndTail(text: string)
    ensures Terminated(Frames(text)) + Tail(text) == text
    ensures FindBlank(Tail(text), 0).None?
    decreases |text|
  {
    if FindBlank(text, 0).Some? {
      var sep := FindBlank(text, 0).value;
      var frame, rest := text[..sep], text[sep + 2..];
      FramesAndTail(rest);
      CutText(text, sep);
      assert ([frame] + Frames(rest))[1..] == Frames(rest);
      assert Terminated([frame] + Frames(rest)) == frame + "\n\n" + Terminated(Frames(rest));
      Associate(frame + "\n\n", Terminated(Frames(rest)), Tail(rest));
    }
  }

  /** More text after a blank line does not move it. */
  lemma FindBlankPrefix(x: string, y: string)
    requires FindBlank(x, 0).Some?
    ensures FindBlank(x + y, 0) == FindBlank(x, 0)
  {
    var sep := FindBlank(x, 0).value;
    assert BlankAt(x + y, sep);
    FindBlankIsFirst(x + y, 0, sep);
    var k := FindBlank(x + y, 0).value;
    assert BlankAt(x, k);
    FindBlankIsFirst(x, 0, k);
  }

  /** Text that arrives later only extends the frames: cutting is incremental. */
  lemma {:induction false} FramesAppend(x: string, y: string)
    ensures Frames(x + y) == Frames(x) + Frames(Tail(x) + y)
    ensures Tail(x + y) == Tail(Tail(x) + y)
    decreases |x|
  {
    if FindBlank(x, 0).Some? {
      var sep := FindBlank(x, 0).value;
      var rest := x[sep + 2..];
      FramesAppend(rest, y);
      FramesShift(x, y, sep);
      Associate([x[..sep]], Frames(rest), Frames(Tail(rest) + y));
    }
  }

  lemma FramesShift(x: string, y: string, sep: nat)
    requires FindBlank(x, 0) == Some(sep)
    ensures sep + 2 <= |x|
    ensures Frames(x + y) == [x[..sep]] + Frames(x[sep + 2..] + y)
    ensures Tail(x + y) == Tail(x[sep + 2..] + y)
  {
    FindBlankPrefix(x, y);
    assert (x + y)[sep + 2..] == x[sep + 2..] + y && (x + y)[..sep] == x[..sep];
  }

  // ---------- Parsing one frame ----------

  datatype SseFrame = SseFrame(event: string, data: string)

  /** The first line break from `i` on, or the end. */
  function LineBreak(s: string, i: nat): (j: nat)
    requires i <= |s|
    ensures i <= j <= |s| && (j < |s| ==> s[j] == '\n') && forall k :: i <= k < j ==> s[k] != '\n'
    decreases |s| - i
  {
    if i == |s| || s[i] == '\n' then i else LineBreak(s, i + 1)
  }

  /** `frame.split('\n')`. */
  function Lines(s: string): seq<string>
    decreases |s|
  {
    var j := LineBreak(s, 0);
    if j == |s| then [s] else [s[..j]] + Lines(s[j + 1..])
  }

  function TrimStart(s: string): string {
    if s != "" && IsSpace(s[0]) then TrimStart(s[1..]) else s
  }

  function TrimEnd(s: string): string {
    if s != "" && IsSpace(s[|s| - 1]) then TrimEnd(s[..|s| - 1]) else s
  }

  function Trim(s: string): string { TrimEnd(TrimStart(s)) }

  /** The state of the line loop: the event name so far and the data lines so far. */
  datatype Fields = Fields(event: string, data: seq<string>)

  function ReadLine(f: Fields, line: string): Fields {
    if "event:" <= line then f.(event := Trim(line[6..]))
    else if "data:" <= line then f.(data := f.data + [TrimStart(line[5..])])
    else f
  }

  function ReadLines(f: Fields, lines: seq<string>): Fields
    decreases lines
  {
    if lines == [] then f else ReadLines(ReadLine(f, lines[0]), lines[1..])
  }

  function Parsed(frame: string): Option<SseFrame> {
    var f := ReadLines(Fields("message", []), Lines(frame));
    if f.data == [] then None else Some(SseFrame(f.event, JoinLines(f.data)))
  }

  method ParseSseFrame(frame: string) returns (r: Option<SseFrame>)
    ensures r == Parsed(frame)
  {
    var event, dataLines := "message", [];
    var lines := Lines(frame);
    for i := 0 to |lines|
      invariant ReadLines(Fields(event, dataLines), lines[i..]) == ReadLines(Fields("message", []), lines)
    {
      var line := lines[i];
      assert lines[i..][1..] == lines[i + 1..];
      if "event:" <= line {
        event := Trim(line[6..]);
      } else if "data:" <= line {
        dataLines := dataLines + [TrimStart(line[5..])];
      }
    }
    if |dataLines| == 0 { return None; }
    return Some(SseFrame(event, JoinLines(dataLines)));
  }

  // ---------- Draining the stream ----------

  datatype RunOutcome = Completed | Failed(error: string)

  /** How the text of an `error` event is turned into a message. */
  type ErrorText = string -> string

  /** The outcome a frame decides, if it is a terminal one. */
  function Terminal(errorText: ErrorText, frame: string): Option<RunOutcome> {
    match Parsed(frame)
    case None => None
    case Some(p) =>
      if p.event == "done" then Some(Completed)
      else if p.event == "error" then Some(Failed(errorText(p.data)))
      else None
  }

  /** Which outcome, if any, a frame decides. */
  type Decide = string -> Option<RunOutcome>

  function Decider(errorText: ErrorText): Decide { (frame: string) => Terminal(errorText, frame) }

  /** The outcome of the last terminal frame of a list. */
  function LastTerminal(decide: Decide, frames: seq<string>): Option<RunOutcome> {
    if frames == [] then None
    else
      var t := decide(frames[|frames| - 1]);
      if t.Some? then t else LastTerminal(decide, frames[..|frames| - 1])
  }

  const NO_TERMINAL := "SSE stream ended without a done/error event"

  /**
   The first `n` chunks decide: `n` is the number of chunks read when a terminal frame has been cut,
   or all of them, and a tail without its blank line counts for nothing.
   */
  ghost predicate IsDrained(decide: Decide, chunks: seq<string>, n: nat, outcome: RunOutcome) {
    && n <= |chunks|
    && (forall m :: 0 <= m < n ==> LastTerminal(decide, Frames(Flatten(chunks[..m]))).None?)
    && var t := LastTerminal(decide, Frames(Flatten(chunks[..n])));
       if t.Some? then outcome == t.value else n == |chunks| && outcome == Failed(NO_TERMINAL)
  }

  /** The buffered tail plus a chunk decides what the text so far decides. */
  lemma NextChunk(decide: Decide, chunks: seq<string>, n: nat)
    requires n < |chunks| && LastTerminal(decide, Frames(Flatten(chunks[..n]))).None?
    ensures var buf := Tail(Flatten(chunks[..n])) + chunks[n];
      && Tail(buf) == Tail(Flatten(chunks[..n + 1]))
      && LastTerminal(decide, Frames(buf)) == LastTerminal(decide, Frames(Flatten(chunks[..n + 1])))
  {
    var before := Flatten(chunks[..n]);
    FlattenNext(chunks, n);
    FramesAppend(before, chunks[n]);
    LastTerminalAppend(decide, Frames(before), Frames(Tail(before) + chunks[n]));
  }

  lemma NothingRead(decide: Decide, chunks: seq<string>)
    requires chunks == []
    ensures Tail(Flatten(chunks)) == "" && LastTerminal(decide, Frames(Flatten(chunks))).None?
  {
  }

  method DrainSse(errorText: ErrorText, chunks: seq<string>) returns (outcome: RunOutcome, n: nat)
    ensures IsDrained(Decider(errorText), chunks, n, outcome)
  {
    hide Decider, LastTerminal, Frames, Tail, Flatten;
    ghost var decide := Decider(errorText);
    var buf := "";
    n := 0;
    assert chunks[..0] == [];
    NothingRead(decide, chunks[..0]);
    while n < |chunks|
      invariant n <= |chunks|
      invariant buf == Tail(Flatten(chunks[..n]))
      invariant forall m :: 0 <= m <= n ==> LastTerminal(decide, Frames(Flatten(chunks[..m]))).None?
    {
      NextChunk(decide, chunks, n);
      buf := buf + chunks[n];
      var decided;
      buf, decided := DrainBuffer(errorText, buf);
      n := n + 1;
      if decided.Some? { return decided.value, n; }
    }
    return Failed(NO_TERMINAL), n;
  }

  /** The inner loop: cut off every complete frame and remember the last outcome. */
  method DrainBuffer(errorText: ErrorText, text: string) returns (buf: string, outcome: Option<RunOutcome>)
    ensures buf == Tail(text) && outcome == LastTerminal(Decider(errorText), Frames(text))
  {
    buf, outcome := text, None;
    ghost var decide := Decider(errorText);
    ghost var cut: seq<string> := [];
    while FindBlank(buf, 0).Some?
      invariant cut + Frames(buf) == Frames(text) && Tail(buf) == Tail(text)
      invariant outcome == LastTerminal(decide, cut)
      decreases |buf|
    {
      var sep := FindBlank(buf, 0).value;
      var frame := buf[..sep];
      CutOne(decide, cut, buf, sep);
      buf, cut := buf[sep + 2..], cut + [frame];
      var parsed := ParseSseFrame(frame);
      if parsed.None? { continue; }
      if parsed.value.event == "done" {
        outcome := Some(Completed);
      } else if parsed.value.event == "error" {
        outcome := Some(Failed(errorText(parsed.value.data)));
      }
    }
    assert cut + [] == cut;
  }

  lemma FirstCut(buf: string, sep: nat)
    requires FindBlank(buf, 0) == Some(sep)
    ensures sep + 2 <= |buf| && Frames(buf) == [buf[..sep]] + Frames(buf[sep + 2..]) && Tail(buf) == Tail(buf[sep + 2..])
  {
    assert BlankAt(buf, sep) && Behind(buf, sep) == buf[sep + 2..];
    hide FindBlank, BlankAt, Behind;
    assert Frames(buf) == [buf[..sep]] + Frames(Behind(buf, sep)) && Tail(buf) == Tail(Behind(buf, sep));
    hide Frames, Tail;
  }

  lemma LastTerminalPush(decide: Decide, cut: seq<string>, frame: string)
    ensures LastTerminal(decide, cut + [frame]) == var t := decide(frame); if t.Some? then t else LastTerminal(decide, cut)
  {
    assert (cut + [frame])[..|cut|] == cut;
  }

  lemma CutOne(decide: Decide, cut: seq<string>, buf: string, sep: nat)
    requires FindBlank(buf, 0) == Some(sep)
    ensures cut + [buf[..sep]] + Frames(buf[sep + 2..]) == cut + Frames(buf) && Tail(buf[sep + 2..]) == Tail(buf)
    ensures LastTerminal(decide, cut + [buf[..sep]]) ==
      var t := decide(buf[..sep]); if t.Some? then t else LastTerminal(decide, cut)
  {
    hide Frames, Tail, LastTerminal, FindBlank;
    var frame, rest := buf[..sep], Frames(buf[sep + 2..]);
    FirstCut(buf, sep);
    Associate(cut, [frame], rest);
    LastTerminalPush(decide, cut, frame);
  }

  lemma {:induction false} FlattenAppend(a: seq<string>, b: seq<string>)
    ensures Flatten(a + b) == Flatten(a) + Flatten(b)
  {
    if a == [] {
      assert a + b == b;
    } else {
      assert (a + b)[1..] == a[1..] + b;
      FlattenAppend(a[1..], b);
    }
  }

  lemma FlattenNext(chunks: seq<string>, n: nat)
    requires n < |chunks|
    ensures Flatten(chunks[..n + 1]) == Flatten(chunks[..n]) + chunks[n]
  {
    assert chunks[..n + 1] == chunks[..n] + [chunks[n]];
    FlattenAppend(chunks[..n], [chunks[n]]);
    assert Flatten([chunks[n]]) == chunks[n] + Flatten([chunks[n]][1..]);
  }

  lemma {:induction false} LastTerminalAppend(decide: Decide, a: seq<string>, b: seq<string>)
    ensures LastTerminal(decide, a + b) ==
      if LastTerminal(decide, b).Some? then LastTerminal(decide, b) else LastTerminal(decide, a)
  {
    if b == [] {
      assert a + b == a;
    } else {
      assert (a + b)[..|a + b| - 1] == a + b[..|b| - 1];
      LastTerminalAppend(decide, a, b[..|b| - 1]);
    }
  }

  // ---------- Independence of the chunking ----------

  ghost predicate Agree(decide: Decide, frames: seq<string>) {
    forall f, g :: f in frames && g in frames && decide(f).Some? && decide(g).Some? ==> decide(f) == decide(g)
  }

  /** All terminal frames of the text decide the same outcome. */
  ghost predicate TerminalsAgree(decide: Decide, text: string) {
    Agree(decide, Frames(text))
  }

  /** Every way of delivering the text ends with the same outcome. */
  ghost predicate ChunkingIrrelevant(decide: Decide, text: string) {
    forall c, n, o, c', n', o' ::
      Flatten(c) == text && IsDrained(decide, c, n, o) && Flatten(c') == text && IsDrained(decide, c', n', o')
      ==> o == o'
  }

  lemma {:induction false} LastTerminalFrame(decide: Decide, frames: seq<string>)
    ensures var t := LastTerminal(decide, frames);
      if t.Some? then exists i :: 0 <= i < |frames| && decide(frames[i]) == t
      else forall i :: 0 <= i < |frames| ==> decide(frames[i]).None?
  {
    if frames != [] {
      LastTerminalFrame(decide, frames[..|frames| - 1]);
    }
  }

  lemma {:induction false} EarlyFrames(chunks: seq<string>, n: nat)
    requires n <= |chunks|
    ensures Frames(Flatten(chunks[..n])) <= Frames(Flatten(chunks))
  {
    assert chunks == chunks[..n] + chunks[n..];
    FlattenAppend(chunks[..n], chunks[n..]);
    FramesAppend(Flatten(chunks[..n]), Flatten(chunks[n..]));
  }

  /** When the terminal frames agree, any chunking gives the outcome of the whole text at once. */
  lemma {:induction false} DrainedWhole(decide: Decide, chunks: seq<string>, n: nat, outcome: RunOutcome)
    requires IsDrained(decide, chunks, n, outcome) && TerminalsAgree(decide, Flatten(chunks))
    ensures var t := LastTerminal(decide, Frames(Flatten(chunks)));
      outcome == if t.Some? then t.value else Failed(NO_TERMINAL)
  {
    EarlyFrames(chunks, n);
    assert chunks[..|chunks|] == chunks;
    AgreeingPrefix(decide, Frames(Flatten(chunks[..n])), Frames(Flatten(chunks)));
  }

  lemma AgreeingPrefix(decide: Decide, early: seq<string>, all: seq<string>)
    requires early <= all
    requires Agree(decide, all)
    ensures LastTerminal(decide, early).Some? ==> LastTerminal(decide, all) == LastTerminal(decide, early)
  {
    LastTerminalFrame(decide, early);
    LastTerminalFrame(decide, all);
    if LastTerminal(decide, early).Some? {
      var i :| 0 <= i < |early| && decide(early[i]) == LastTerminal(decide, early);
      assert all[i] == early[i];
    }
  }

  /** The text up to and including its first blank line is one frame and nothing else. */
  lemma {:induction false} FirstFrame(text: string, sep: nat)
    requires FindBlank(text, 0) == Some(sep)
    ensures sep + 2 <= |text| && Frames(text[..sep + 2]) == [text[..sep]] && Tail(text[..sep + 2]) == ""
  {
    var head := text[..sep + 2];
    assert BlankAt(head, sep);
    FindBlankIsFirst(head, 0, sep);
    FindBlankPrefix(head, text[sep + 2..]);
    assert head + text[sep + 2..] == text;
    assert head[sep + 2..] == "" && head[..sep] == text[..sep];
  }

  lemma FramesAfterFirst(text: string, sep: nat, p: string)
    requires FindBlank(text, 0) == Some(sep) && sep + 2 <= |text|
    ensures Frames(text[..sep + 2] + p) == [text[..sep]] + Frames(p)
  {
    FirstFrame(text, sep);
    FramesAppend(text[..sep + 2], p);
    assert "" + p == p;
  }

  /** The text can be cut right after its frame `i`. */
  lemma {:induction false} CutAfterFrame(text: string, i: nat) returns (p: string, r: string)
    requires i < |Frames(text)|
    ensures p + r == text && Frames(p) == Frames(text)[..i + 1]
    decreases |text|
  {
    var sep := FindBlank(text, 0).value;
    var head, rest, frames := text[..sep + 2], text[sep + 2..], Frames(text[sep + 2..]);
    assert Frames(text) == [text[..sep]] + frames;
    if i == 0 {
      FirstFrame(text, sep);
      p, r := head, rest;
    } else {
      var p';
      p', r := CutAfterFrame(rest, i - 1);
      FramesAfterFirst(text, sep, p');
      p := head + p';
      Associate(head, p', r);
      assert [text[..sep]] + frames[..i] == ([text[..sep]] + frames)[..i + 1];
    }
  }

  /** Delivered in two chunks, the first of which ends with terminal frame `i`, frame `i` decides. */
  lemma CutDecides(decide: Decide, text: string, i: nat) returns (c: seq<string>)
    requires i < |Frames(text)| && decide(Frames(text)[i]).Some?
    ensures Flatten(c) == text && IsDrained(decide, c, 1, decide(Frames(text)[i]).value)
  {
    var p, r := CutAfterFrame(text, i);
    c := [p, r];
    assert c[1..] == [r] && [r][1..] == [] && r + "" == r;
    assert Flatten([r]) == r && Flatten(c) == p + r;
    assert c[..1] == [p] && [p][1..] == [] && c[..0] == [] && p + "" == p;
    assert Flatten([p]) == p;
    assert Frames(p)[i] == Frames(text)[i] && |Frames(p)| == i + 1;
  }

  /** Chunking is irrelevant exactly when the terminal frames agree; in particular when there is at most one. */
  lemma ChunkingIrrelevantIffTerminalsAgree(decide: Decide, text: string)
    ensures ChunkingIrrelevant(decide, text) <==> TerminalsAgree(decide, text)
  {
    if TerminalsAgree(decide, text) {
      forall c, n, o, c', n', o' |
        Flatten(c) == text && IsDrained(decide, c, n, o) && Flatten(c') == text && IsDrained(decide, c', n', o')
        ensures o == o'
      {
        DrainedWhole(decide, c, n, o);
        DrainedWhole(decide, c', n', o');
      }
    } else {
      var i, j :| 0 <= i < |Frames(text)| && 0 <= j < |Frames(text)|
        && decide(Frames(text)[i]).Some? && decide(Frames(text)[j]).Some?
        && decide(Frames(text)[i]) != decide(Frames(text)[j]);
      var c := CutDecides(decide, text, i);
      var c' := CutDecides(decide, text, j);
    }
  }

  // ---------- Round trip ----------

  /** An event to print: its name and its data lines. */
  datatype Event = Event(name: string, lines: seq<string>)

  predicate NoBreak(s: string) { forall k :: 0 <= k < |s| ==> s[k] != '\n' }

  predicate Printable(e: Event) {
    && NoBreak(e.name) && (e.name == "" || (!IsSpace(e.name[0]) && !IsSpace(e.name[|e.name| - 1])))
    && e.lines != []
    && forall i :: 0 <= i < |e.lines| ==> NoBreak(e.lines[i]) && (e.lines[i] == "" || !IsSpace(e.lines[i][0]))
  }

  function DataLines(lines: seq<string>): seq<string> {
    if lines == [] then [] else ["data: " + lines[0]] + DataLines(lines[1..])
  }

  function FrameLines(e: Event): seq<string> { ["event: " + e.name] + DataLines(e.lines) }

  function PrintFrames(events: seq<Event>): seq<string> {
    if events == [] then [] else [JoinLines(FrameLines(events[0]))] + PrintFrames(events[1..])
  }

  ghost function Print(events: seq<Event>): string { Terminated(PrintFrames(events)) }

  /** A frame that the cutter leaves whole: no blank line inside and no line break at its end. */
  ghost predicate IsSolid(f: string) {
    (forall k: nat :: !BlankAt(f, k)) && (f == "" || f[|f| - 1] != '\n')
  }

  lemma SolidFound(f: string, rest: string)
    requires IsSolid(f)
    ensures FindBlank(f + "\n\n" + rest, 0) == Some(|f|)
  {
    var t := f + "\n\n" + rest;
    assert BlankAt(t, |f|);
    FindBlankIsFirst(t, 0, |f|);
    forall k: nat | k < |f| ensures !BlankAt(t, k) {
      assert t[k] == f[k];
      if k + 1 < |f| {
        assert t[k + 1] == f[k + 1] && !BlankAt(f, k);
      }
    }
  }

  lemma {:induction false} FramesOfTerminated(frames: seq<string>)
    requires forall i :: 0 <= i < |frames| ==> IsSolid(frames[i])
    ensures Frames(Terminated(frames)) == frames && Tail(Terminated(frames)) == ""
  {
    if frames != [] {
      FramesOfTerminated(frames[1..]);
      SolidFound(frames[0], Terminated(frames[1..]));
      var f, rest := frames[0], Terminated(frames[1..]);
      assert (f + "\n\n" + rest)[..|f|] == f && (f + "\n\n" + rest)[|f| + 2..] == rest;
    }
  }

  predicate IsLine(s: string) { s != "" && NoBreak(s) }

  lemma SolidJoin(line: string, rest: string)
    requires IsLine(line) && IsSolid(rest) && rest != "" && rest[0] != '\n'
    ensures IsSolid(line + "\n" + rest)
  {
    var t := line + "\n" + rest;
    assert t[|t| - 1] == rest[|rest| - 1];
    forall k: nat ensures !BlankAt(t, k) {
      if k < |line| {
        assert t[k] == line[k];
      } else if k == |line| {
        assert t[k + 1] == rest[0];
      } else if k + 1 < |t| {
        var m: nat := k - |line| - 1;
        assert t[k] == rest[m] && t[k + 1] == rest[m + 1] && !BlankAt(rest, m);
      }
    }
  }

  lemma {:induction false} JoinIsSolid(lines: seq<string>)
    requires lines != [] && forall i :: 0 <= i < |lines| ==> IsLine(lines[i])
    ensures IsSolid(JoinLines(lines)) && JoinLines(lines) != "" && JoinLines(lines)[0] != '\n'
  {
    if |lines| > 1 {
      JoinIsSolid(lines[1..]);
      SolidJoin(lines[0], JoinLines(lines[1..]));
    } else {
      assert NoBreak(lines[0]);
    }
  }

  lemma LineBreakAt(line: string, rest: string)
    requires NoBreak(line)
    ensures LineBreak(line, 0) == |line| && LineBreak(line + "\n" + rest, 0) == |line|
  {
    var t := line + "\n" + rest;
    assert t[|line|] == '\n' && forall k :: 0 <= k < |line| ==> t[k] == line[k];
    var j := LineBreak(t, 0);
    assert j <= |line|;
  }

  lemma {:induction false} LinesOfJoin(lines: seq<string>)
    requires lines != [] && forall i :: 0 <= i < |lines| ==> NoBreak(lines[i])
    ensures Lines(JoinLines(lines)) == lines
  {
    LineBreakAt(lines[0], JoinLines(lines[1..]));
    if |lines| > 1 {
      var rest := JoinLines(lines[1..]);
      LinesOfJoin(lines[1..]);
      var t := lines[0] + "\n" + rest;
      assert t[..|lines[0]|] == lines[0] && t[|lines[0]| + 1..] == rest;
    }
  }

  lemma EventLineReads(f: Fields, name: string)
    requires name == "" || (!IsSpace(name[0]) && !IsSpace(name[|name| - 1]))
    ensures ReadLine(f, "event: " + name) == f.(event := name)
  {
    var line := "event: " + name;
    var value := " " + name;
    assert line[..6] == "event:" && line[6..] == value;
    assert value[0] == ' ' && value[1..] == name && TrimStart(value) == TrimStart(name);
    assert TrimStart(name) == name && TrimEnd(name) == name;
  }

  lemma DataLineReads(f: Fields, s: string)
    requires s == "" || !IsSpace(s[0])
    ensures ReadLine(f, "data: " + s) == f.(data := f.data + [s])
  {
    var line := "data: " + s;
    var value := " " + s;
    assert line[..5] == "data:" && line[5..] == value && line[0] != "event:"[0];
    assert value[0] == ' ' && value[1..] == s && TrimStart(value) == TrimStart(s);
  }

  lemma ReadLinesCons(f: Fields, line: string, rest: seq<string>)
    ensures ReadLines(f, [line] + rest) == ReadLines(ReadLine(f, line), rest)
  {
    assert ([line] + rest)[1..] == rest;
  }

  lemma {:induction false} DataLinesRead(f: Fields, lines: seq<string>)
    requires forall i :: 0 <= i < |lines| ==> lines[i] == "" || !IsSpace(lines[i][0])
    ensures ReadLines(f, DataLines(lines)) == f.(data := f.data + lines)
    decreases lines
  {
    if lines == [] {
      assert f.data + lines == f.data;
    } else {
      var g := f.(data := f.data + [lines[0]]);
      DataLineReads(f, lines[0]);
      ReadLinesCons(f, "data: " + lines[0], DataLines(lines[1..]));
      DataLinesRead(g, lines[1..]);
      assert g.data + lines[1..] == f.data + lines;
    }
  }

  lemma {:induction false} DataLinesAreLines(lines: seq<string>)
    requires forall i :: 0 <= i < |lines| ==> NoBreak(lines[i])
    ensures forall i :: 0 <= i < |DataLines(lines)| ==> IsLine(DataLines(lines)[i])
  {
    if lines != [] {
      DataLinesAreLines(lines[1..]);
      assert IsLine("data: " + lines[0]);
    }
  }

  lemma FrameLinesAreLines(e: Event)
    requires Printable(e)
    ensures FrameLines(e) != [] && forall i :: 0 <= i < |FrameLines(e)| ==> IsLine(FrameLines(e)[i])
  {
    hide IsSpace;
    DataLinesAreLines(e.lines);
    assert IsLine("event: " + e.name);
  }

  lemma FrameIsSolid(e: Event)
    requires Printable(e)
    ensures IsSolid(JoinLines(FrameLines(e))) && Lines(JoinLines(FrameLines(e))) == FrameLines(e)
  {
    hide Lines, JoinLines, IsSolid, NoBreak, FrameLines, Printable;
    FrameLinesAreLines(e);
    forall i | 0 <= i < |FrameLines(e)| ensures NoBreak(FrameLines(e)[i]) {
      assert IsLine(FrameLines(e)[i]);
    }
    JoinIsSolid(FrameLines(e));
    LinesOfJoin(FrameLines(e));
  }

  lemma FrameReads(e: Event)
    requires Printable(e)
    ensures var f := JoinLines(FrameLines(e));
      IsSolid(f) && Parsed(f) == Some(SseFrame(e.name, JoinLines(e.lines)))
  {
    hide IsSpace, NoBreak, IsSolid, Lines, JoinLines, ReadLine, ReadLines, DataLines;
    var start, named := Fields("message", []), Fields(e.name, []);
    FrameIsSolid(e);
    EventLineReads(start, e.name);
    DataLinesRead(named, e.lines);
    ReadLinesCons(start, "event: " + e.name, DataLines(e.lines));
    assert [] + e.lines == e.lines;
  }

  /** The events that a list of frames stands for, with their data lines apart again. */
  function EventsOf(frames: seq<string>): seq<Event> {
    if frames == [] then []
    else
      (match Parsed(frames[0])
       case None => []
       case Some(f) => [Event(f.event, Lines(f.data))])
      + EventsOf(frames[1..])
  }

  /** Printed events come back, the same list, with nothing left over. */
  lemma {:induction false} PrintRoundTrip(events: seq<Event>)
    requires forall i :: 0 <= i < |events| ==> Printable(events[i])
    ensures EventsOf(Frames(Print(events))) == events && Tail(Print(events)) == ""
    ensures Frames(Print(events)) == PrintFrames(events)
    ensures |PrintFrames(events)| == |events|
    ensures forall i :: 0 <= i < |events| ==>
      Parsed(Frames(Print(events))[i]) == Some(SseFrame(events[i].name, JoinLines(events[i].lines)))
  {
    PrintFramesRead(events);
    FramesOfTerminated(PrintFrames(events));
  }

  lemma {:induction false} PrintFramesRead(events: seq<Event>)
    requires forall i :: 0 <= i < |events| ==> Printable(events[i])
    ensures |PrintFrames(events)| == |events| && EventsOf(PrintFrames(events)) == events
    ensures forall i :: 0 <= i < |events| ==>
      (IsSolid(PrintFrames(events)[i])
       && Parsed(PrintFrames(events)[i]) == Some(SseFrame(events[i].name, JoinLines(events[i].lines))))
  {
    hide IsSolid, Lines, JoinLines, Parsed, NoBreak, IsSpace;
    if events != [] {
      FrameReads(events[0]);
      PrintFramesRead(events[1..]);
      LinesOfJoin(events[0].lines);
      assert PrintFrames(events)[1..] == PrintFrames(events[1..]);
    }
  }

  /** Two terminal events in one stream: their chunking decides whether the run completed or failed. */
  lemma DoneThenError(errorText: ErrorText)
    ensures !ChunkingIrrelevant(Decider(errorText), Print([Event("done", ["x"]), Event("error", ["y"])]))
  {
    hide Print, Frames, Parsed, ChunkingIrrelevant;
    var events := [Event("done", ["x"]), Event("error", ["y"])];
    var text, decide := Print(events), Decider(errorText);
    assert Printable(events[0]) && Printable(events[1]);
    PrintRoundTrip(events);
    var f, g := Frames(text)[0], Frames(text)[1];
    assert "done"[0] != "error"[0];
    assert decide(f) == Some(Completed) && decide(g).Some? && decide(g) != decide(f);
    assert f in Frames(text) && g in Frames(text);
    ChunkingIrrelevantIffTerminalsAgree(decide, text);
  }

  // ---------- Which event means which outcome ----------

  predicate IsVerdict(e: Event) { e.name == "done" || e.name == "error" }

  /** Event `i` is the last that decides anything. */
  ghost predicate IsLastVerdict(events: seq<Event>, i: nat) {
    i < |events| && IsVerdict(events[i]) && forall j :: i < j < |events| ==> !IsVerdict(events[j])
  }

  /** The outcome is that of the last `done` or `error` event, or the failure of a stream that has neither. */
  ghost predicate IsOutcomeOf(errorText: ErrorText, events: seq<Event>, outcome: RunOutcome) {
    && (forall i: nat :: IsLastVerdict(events, i) ==>
          outcome == if events[i].name == "done" then Completed else Failed(errorText(JoinLines(events[i].lines))))
    && ((forall e :: e in events ==> !IsVerdict(e)) ==> outcome == Failed("SSE stream ended without a done/error event"))
  }

  lemma VerdictOfFrame(errorText: ErrorText, e: Event, frame: string)
    requires Parsed(frame) == Some(SseFrame(e.name, JoinLines(e.lines)))
    ensures Decider(errorText)(frame) ==
      if e.name == "done" then Some(Completed) else if e.name == "error" then Some(Failed(errorText(JoinLines(e.lines)))) else None
  {
    assert "done"[0] != "error"[0];
  }

  lemma {:induction false} LastVerdict(errorText: ErrorText, events: seq<Event>, frames: seq<string>)
    requires |frames| == |events|
    requires forall i :: 0 <= i < |events| ==> Parsed(frames[i]) == Some(SseFrame(events[i].name, JoinLines(events[i].lines)))
    ensures var t := LastTerminal(Decider(errorText), frames);
      IsOutcomeOf(errorText, events, if t.Some? then t.value else Failed(NO_TERMINAL))
  {
    hide Parsed, Decider, JoinLines;
    if events != [] {
      var n := |events| - 1;
      VerdictOfFrame(errorText, events[n], frames[n]);
      LastVerdict(errorText, events[..n], frames[..n]);
      if !IsVerdict(events[n]) {
        forall i: nat | IsLastVerdict(events, i) ensures IsLastVerdict(events[..n], i) {
        }
      } else {
        assert IsLastVerdict(events, n) && events[n] in events;
      }
    }
  }

  /** Delivered at once, printed events end with the outcome of the last `done` or `error` among them. */
  lemma PrintedOutcome(errorText: ErrorText, events: seq<Event>, n: nat, outcome: RunOutcome)
    requires forall i :: 0 <= i < |events| ==> Printable(events[i])
    requires IsDrained(Decider(errorText), [Print(events)], n, outcome)
    ensures IsOutcomeOf(errorText, events, outcome)
  {
    hide Decider, Print, Frames, LastTerminal, IsOutcomeOf, Printable, IsDrained, Parsed;
    DrainedAtOnce(Decider(errorText), Print(events), n, outcome);
    PrintRoundTrip(events);
    LastVerdict(errorText, events, Frames(Print(events)));
  }

  lemma {:induction false} DrainedAtOnce(decide: Decide, text: string, n: nat, outcome: RunOutcome)
    requires IsDrained(decide, [text], n, outcome)
    ensures var t := LastTerminal(decide, Frames(text)); outcome == if t.Some? then t.value else Failed(NO_TERMINAL)
  {
    hide Frames, LastTerminal, Flatten;
    NothingRead(decide, [text][..0]);
    FlattenOne(text);
    assert [text][..1] == [text];
  }

  lemma FlattenOne(text: string)
    ensures Flatten([text]) == text
  {
    assert [text][1..] == [] && text + "" == text;
  }

  /** With one such event at most, that holds of every chunking. */
  lemma OneVerdictAnyChunks(errorText: ErrorText, events: seq<Event>, chunks: seq<string>, n: nat, outcome: RunOutcome)
    requires forall i :: 0 <= i < |events| ==> Printable(events[i])
    requires forall i, j :: 0 <= i < |events| && 0 <= j < |events| && IsVerdict(events[i]) && IsVerdict(events[j]) ==> i == j
    requires Flatten(chunks) == Print(events) && IsDrained(Decider(errorText), chunks, n, outcome)
    ensures IsOutcomeOf(errorText, events, outcome)
  {
    hide Decider, Print, LastTerminal, IsOutcomeOf, Printable, Parsed, IsDrained;
    var frames, decide := Frames(Print(events)), Decider(errorText);
    hide Frames;
    PrintRoundTrip(events);
    forall i | 0 <= i < |events| ensures decide(frames[i]).Some? <==> IsVerdict(events[i]) {
      VerdictOfFrame(errorText, events[i], frames[i]);
    }
    DrainedWhole(decide, chunks, n, outcome);
    LastVerdict(errorText, events, frames);
  }

  // ---------- Frames in general ----------

  /** A line of a frame: an event name or a data line, with the whitespace around it, or anything else. */
  datatype FrameLine =
    | EventLine(before: string, name: string, after: string)
    | DataLine(before: string, text: string)
    | OtherLine(text: string)

  predicate AllSpace(s: string) { forall k :: 0 <= k < |s| ==> IsSpace(s[k]) }

  predicate Trimmed(s: string) { s == "" || (!IsSpace(s[0]) && !IsSpace(s[|s| - 1])) }

  predicate IsFrameLine(l: FrameLine) {
    match l
    case EventLine(before, name, after) =>
      NoBreak(before) && NoBreak(name) && NoBreak(after) && AllSpace(before) && AllSpace(after) && Trimmed(name)
    case DataLine(before, text) => NoBreak(before) && NoBreak(text) && AllSpace(before) && (text == "" || !IsSpace(text[0]))
    case OtherLine(text) => NoBreak(text) && !("event:" <= text) && !("data:" <= text)
  }

  function LineText(l: FrameLine): string {
    match l
    case EventLine(before, name, after) => "event:" + (before + name + after)
    case DataLine(before, text) => "data:" + (before + text)
    case OtherLine(text) => text
  }

  function LineTexts(ls: seq<FrameLine>): seq<string> {
    seq(|ls|, i requires 0 <= i < |ls| => LineText(ls[i]))
  }

  /** The last event name of the frame, `message` if there is none. */
  function NameOf(ls: seq<FrameLine>): string {
    if ls == [] then "message"
    else var last := ls[|ls| - 1]; if last.EventLine? then last.name else NameOf(ls[..|ls| - 1])
  }

  /** The data lines of the frame. */
  function DataOf(ls: seq<FrameLine>): seq<string> {
    if ls == [] then []
    else var last := ls[|ls| - 1]; DataOf(ls[..|ls| - 1]) + if last.DataLine? then [last.text] else []
  }

  lemma {:induction false} SkipSpaces(before: string, s: string)
    requires AllSpace(before)
    ensures TrimStart(before + s) == TrimStart(s)
  {
    if before == "" {
      assert before + s == s;
    } else {
      assert (before + s)[1..] == before[1..] + s;
      SkipSpaces(before[1..], s);
    }
  }

  lemma {:induction false} DropSpaces(s: string, after: string)
    requires AllSpace(after)
    ensures TrimEnd(s + after) == TrimEnd(s)
  {
    if after == "" {
      assert s + after == s;
    } else {
      assert (s + after)[..|s + after| - 1] == s + after[..|after| - 1];
      DropSpaces(s, after[..|after| - 1]);
    }
  }

  lemma TrimAround(before: string, name: string, after: string)
    requires AllSpace(before) && AllSpace(after) && Trimmed(name)
    ensures Trim(before + name + after) == name
  {
    Associate(before, name, after);
    SkipSpaces(before, name + after);
    if name == "" {
      assert name + after == after && after + "" == after;
      SkipSpaces(after, "");
    } else {
      assert (name + after)[0] == name[0];
      DropSpaces(name, after);
    }
  }

  lemma LineReads(f: Fields, l: FrameLine)
    requires IsFrameLine(l)
    ensures ReadLine(f, LineText(l)) ==
      match l
      case EventLine(_, name, _) => f.(event := name)
      case DataLine(_, text) => f.(data := f.data + [text])
      case OtherLine(_) => f
  {
    hide IsSpace, Trim, TrimStart, AllSpace, Trimmed, NoBreak;
    match l
    case EventLine(before, name, after) =>
      var rest := before + name + after;
      TrimAround(before, name, after);
      assert ("event:" + rest)[6..] == rest;
    case DataLine(before, text) =>
      var rest := before + text;
      DataRest(before, text);
      assert ("data:" + rest)[5..] == rest && ("data:" + rest)[0] != "event:"[0];
    case OtherLine(text) =>
  }

  lemma DataRest(before: string, text: string)
    requires AllSpace(before) && (text == "" || !IsSpace(text[0]))
    ensures TrimStart(before + text) == text
  {
    SkipSpaces(before, text);
  }

  lemma {:induction false} ReadLinesSnoc(f: Fields, lines: seq<string>, line: string)
    ensures ReadLines(f, lines + [line]) == ReadLine(ReadLines(f, lines), line)
    decreases lines
  {
    hide ReadLine;
    if lines == [] {
      assert [] + [line] == [line] && [line][1..] == [];
    } else {
      assert (lines + [line])[1..] == lines[1..] + [line];
      ReadLinesSnoc(ReadLine(f, lines[0]), lines[1..], line);
    }
  }

  lemma {:induction false} AllLinesRead(ls: seq<FrameLine>)
    requires forall i :: 0 <= i < |ls| ==> IsFrameLine(ls[i])
    ensures ReadLines(Fields("message", []), LineTexts(ls)) == Fields(NameOf(ls), DataOf(ls))
  {
    hide ReadLine, LineText, IsFrameLine;
    if ls != [] {
      var n := |ls| - 1;
      AllLinesRead(ls[..n]);
      assert LineTexts(ls) == LineTexts(ls[..n]) + [LineText(ls[n])];
      ReadLinesSnoc(Fields("message", []), LineTexts(ls[..n]), LineText(ls[n]));
      LineReads(Fields(NameOf(ls[..n]), DataOf(ls[..n])), ls[n]);
    } else {
      hide LineTexts;
      assert LineTexts([]) == [];
    }
  }

  lemma LineHasNoBreak(l: FrameLine)
    requires IsFrameLine(l)
    ensures NoBreak(LineText(l))
  {
    hide IsSpace;
  }

  /**
   What a frame means, for any lines: nothing without a data line, otherwise the last event name,
   trimmed, and the data lines without the whitespace before them; all other lines are ignored.
   */
  lemma {:induction false} FrameMeans(ls: seq<FrameLine>)
    requires ls != [] && forall i :: 0 <= i < |ls| ==> IsFrameLine(ls[i])
    ensures Parsed(JoinLines(LineTexts(ls))) == if DataOf(ls) == [] then None else Some(SseFrame(NameOf(ls), JoinLines(DataOf(ls))))
  {
    hide ReadLines, Lines, JoinLines, LineText, IsFrameLine, NoBreak, NameOf, DataOf;
    forall i | 0 <= i < |ls| ensures NoBreak(LineTexts(ls)[i]) {
      LineHasNoBreak(ls[i]);
    }
    LinesOfJoin(LineTexts(ls));
    AllLinesRead(ls);
  }

  /** A frame without an event line decides nothing, and neither does one without a data line. */
  lemma SilentFrame(errorText: ErrorText, ls: seq<FrameLine>)
    requires ls != [] && forall i :: 0 <= i < |ls| ==> IsFrameLine(ls[i])
    requires (forall i :: 0 <= i < |ls| ==> !ls[i].EventLine?) || (forall i :: 0 <= i < |ls| ==> !ls[i].DataLine?)
    ensures Decider(errorText)(JoinLines(LineTexts(ls))).None?
  {
    hide Parsed, JoinLines, LineTexts, IsFrameLine;
    FrameMeans(ls);
    NothingThere(ls);
    assert |"message"| != |"done"| && |"message"| != |"error"|;
  }

  lemma {:induction false} NothingThere(ls: seq<FrameLine>)
    ensures (forall i :: 0 <= i < |ls| ==> !ls[i].EventLine?) ==> NameOf(ls) == "message"
    ensures (forall i :: 0 <= i < |ls| ==> !ls[i].DataLine?) ==> DataOf(ls) == []
  {
    if ls != [] {
      NothingThere(ls[..|ls| - 1]);
    }
  }
}

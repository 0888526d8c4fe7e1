/**
 Reading and writing server-sent event frames (internal/proxyserver/sse.go; sections 9.2.5 and
 9.2.6 of the WHATWG HTML standard).
 */
module SseFrames {
  import opened Bytes

  const LF: byte := '\n'
  const CR: byte := '\r'

  datatype Frame = Frame(event: bytes, data: bytes)

  /** The position of the first line feed, or the length. */
  function LineEnd(s: bytes): (n: nat)
    ensures n <= |s| && (n < |s| ==> s[n] == LF)
    ensures forall i | 0 <= i < n :: s[i] != LF
  {
    if s == [] || s[0] == LF then 0 else 1 + LineEnd(s[1..])
  }

  /** strings.TrimRight(s, "\r\n"). */
  function TrimRight(s: bytes): (r: bytes)
    ensures r <= s && (r != [] ==> r[|r| - 1] != CR && r[|r| - 1] != LF)
  {
    if s != [] && (s[|s| - 1] == CR || s[|s| - 1] == LF) then TrimRight(s[..|s| - 1]) else s
  }

  function TrimPrefix(s: bytes, p: bytes): bytes {
    if HasPrefix(s, p) then s[|p|..] else s
  }

  function FieldValue(line: bytes, name: bytes): bytes {
    TrimPrefix(TrimPrefix(line, name), " ")
  }

  function Split(s: bytes): (lines: seq<bytes>)
    ensures lines != []
    decreases |s|
  {
    var n := LineEnd(s);
    if n == |s| then [s] else [s[..n]] + Split(s[n + 1..])
  }

  function Join(lines: seq<bytes>): bytes {
    if lines == [] then []
    else if |lines| == 1 then lines[0]
    else lines[0] + [LF] + Join(lines[1..])
  }

  // ------------------------------------------------------------------ reading

  /** What the reader has seen of a frame. */
  datatype Partial = Partial(event: bytes, lines: seq<bytes>, saw: bool) {
    function Done(): Frame { Frame(event, Join(lines)) }

    /** The effect of one line without its line end. */
    function Take(line: bytes): Partial {
      if HasPrefix(line, "event:") then Partial(FieldValue(line, "event:"), lines, true)
      else if HasPrefix(line, "data:") then Partial(event, lines + [FieldValue(line, "data:")], true)
      else this
    }
  }

  datatype Read = Eof | Got(frame: Frame, rest: bytes)

  function ReadOn(p: Partial, input: bytes): (r: Read)
    ensures r.Got? ==> |r.rest| <= |input|
    decreases |input|
  {
    var n := LineEnd(input);
    var line := TrimRight(input[..n]);
    if n == |input| then
      // the end of the input: a last line without line feed still counts
      if p.Take(line).saw then Got(p.Take(line).Done(), []) else Eof
    else if line == [] && p.saw then Got(p.Done(), input[n + 1..])
    else ReadOn(p.Take(line), input[n + 1..])
  }

  function ReadFrame(input: bytes): Read { ReadOn(Partial([], [], false), input) }

  method ReadSseFrame(input: bytes) returns (r: Read)
    ensures r == ReadFrame(input)
  {
    var p, rest := Partial([], [], false), input;
    while true
      invariant ReadOn(p, rest) == ReadFrame(input)
      decreases |rest|
    {
      var n := LineEnd(rest);
      var line := TrimRight(rest[..n]);
      if n < |rest| && line == [] && p.saw {
        return Got(p.Done(), rest[n + 1..]);
      }
      p := p.Take(line);
      if n == |rest| {
        if p.saw {
          return Got(p.Done(), []);
        }
        return Eof;
      }
      rest := rest[n + 1..];
    }
  }

  /** All frames of a stream. */
  function ReadAll(input: bytes): seq<Frame>
    decreases |input|
  {
    match ReadFrame(input)
    case Eof => []
    case Got(f, rest) => if |rest| < |input| then [f] + ReadAll(rest) else [f]
  }

  // ------------------------------------------------------------------ writing

  function DataLines(lines: seq<bytes>): bytes {
    if lines == [] then [] else "data: " + lines[0] + [LF] + DataLines(lines[1..])
  }

  function WriteFrame(f: Frame): bytes {
    (if f.event != [] then "event: " + f.event + [LF] else []) + DataLines(Split(f.data)) + [LF]
  }

  function WriteAll(frames: seq<Frame>): bytes {
    if frames == [] then [] else WriteFrame(frames[0]) + WriteAll(frames[1..])
  }

  // ------------------------------------------------------------------ what survives

  predicate NoLf(s: bytes) { forall i | 0 <= i < |s| :: s[i] != LF }

  predicate EndsInCr(s: bytes) { s != [] && s[|s| - 1] == CR }

  predicate CleanLines(lines: seq<bytes>) {
    forall i | 0 <= i < |lines| :: NoLf(lines[i]) && !EndsInCr(lines[i])
  }

  /** The event is one line, and neither it nor any line of the data ends in a carriage return. */
  predicate Clean(f: Frame) {
    NoLf(f.event) && !EndsInCr(f.event) && CleanLines(Split(f.data))
  }

  lemma {:induction false} SplitHasNoLf(s: bytes)
    ensures forall i | 0 <= i < |Split(s)| :: NoLf(Split(s)[i])
    ensures Join(Split(s)) == s
    decreases |s|
  {
    var n := LineEnd(s);
    if n < |s| {
      SplitHasNoLf(s[n + 1..]);
      var rest := Split(s[n + 1..]);
      assert ([s[..n]] + rest)[1..] == rest;
      assert s == s[..n] + [LF] + s[n + 1..];
    }
  }

  lemma {:induction false} LineEndAfter(line: bytes, rest: bytes)
    requires NoLf(line)
    ensures LineEnd(line + [LF] + rest) == |line|
  {
    var s := line + [LF] + rest;
    assert s[|line|] == LF;
    assert forall i | 0 <= i < |line| :: s[i] == line[i];
  }

  lemma {:induction false} SplitJoin(lines: seq<bytes>)
    requires lines != [] && forall i | 0 <= i < |lines| :: NoLf(lines[i])
    ensures Split(Join(lines)) == lines
  {
    var s := Join(lines);
    if |lines| == 1 {
      assert LineEnd(s) == |s|;
    } else {
      var rest := Join(lines[1..]);
      LineEndAfter(lines[0], rest);
      assert s[..|lines[0]|] == lines[0] && s[|lines[0]| + 1..] == rest;
      SplitJoin(lines[1..]);
    }
  }

  /** One written line is read back as that line. */
  lemma {:induction false} ReadLine(p: Partial, line: bytes, rest: bytes)
    requires NoLf(line) && !EndsInCr(line)
    ensures line == [] && p.saw ==> ReadOn(p, line + [LF] + rest) == Got(p.Done(), rest)
    ensures line != [] ==> ReadOn(p, line + [LF] + rest) == ReadOn(p.Take(line), rest)
  {
    var s := line + [LF] + rest;
    LineEndAfter(line, rest);
    assert s[..|line|] == line && s[|line| + 1..] == rest;
    assert TrimRight(line) == line;
  }

  lemma TakeField(p: Partial, value: bytes)
    ensures p.Take("event: " + value) == Partial(value, p.lines, true)
    ensures p.Take("data: " + value) == Partial(p.event, p.lines + [value], true)
  {
    var a, b := "event: " + value, "data: " + value;
    assert a[..6] == "event:" && a[6..] == " " + value && (" " + value)[1..] == value;
    assert b[..5] == "data:" && b[5..] == " " + value && b[0] == 'd';
    assert (" " + value)[..1] == " ";
  }

  lemma {:induction false} DataStep(lines: seq<bytes>, rest: bytes)
    requires lines != []
    ensures DataLines(lines) + [LF] + rest ==
            ("data: " + lines[0]) + [LF] + (DataLines(lines[1..]) + [LF] + rest)
  {}

  lemma DataLineIsClean(value: bytes)
    requires NoLf(value) && !EndsInCr(value)
    ensures var line := "data: " + value; line != [] && NoLf(line) && !EndsInCr(line)
  {
    var line := "data: " + value;
    assert forall i | 0 <= i < |line| :: if i < 6 then line[i] == "data: "[i] else line[i] == value[i - 6];
  }

  lemma {:induction false} ReadData(p: Partial, lines: seq<bytes>, rest: bytes)
    requires CleanLines(lines) && (p.saw || lines != [])
    ensures ReadOn(p, DataLines(lines) + [LF] + rest) == Got(Partial(p.event, p.lines + lines, true).Done(), rest)
    decreases |lines|
  {
    if lines == [] {
      ConcatNil(p.lines);
      ConcatNil([LF] + rest);
      assert [LF] + rest == [] + [LF] + rest;
      ReadLine(p, [], rest);
    } else {
      DataStep(lines, rest);
      ReadDataLine(p, lines[0], DataLines(lines[1..]) + [LF] + rest);
      ReadData(Partial(p.event, p.lines + [lines[0]], true), lines[1..], rest);
      HeadTail(lines);
      ConcatAssoc(p.lines, [lines[0]], lines[1..]);
    }
  }

  lemma HeadTail<T>(a: seq<T>)
    requires a != []
    ensures [a[0]] + a[1..] == a
  {}

  lemma {:induction false} ReadDataLine(p: Partial, value: bytes, tail: bytes)
    requires NoLf(value) && !EndsInCr(value)
    ensures ReadOn(p, ("data: " + value) + [LF] + tail) == ReadOn(Partial(p.event, p.lines + [value], true), tail)
  {
    DataLineIsClean(value);
    TakeField(p, value);
    ReadLine(p, "data: " + value, tail);
  }

  /** A clean frame is read back, and what follows it is left for the next read. */
  lemma ReadWritten(f: Frame, rest: bytes)
    requires Clean(f)
    ensures ReadFrame(WriteFrame(f) + rest) == Got(f, rest)
  {
    var start, lines := Partial([], [], false), Split(f.data);
    var tail := DataLines(lines) + [LF] + rest;
    SplitHasNoLf(f.data);
    ConcatNil(lines);
    hide Split, DataLines, ReadOn, CleanLines, NoLf, Partial.Take, Join;
    if f.event == [] {
      assert WriteFrame(f) + rest == tail;
      ReadData(start, lines, rest);
    } else {
      var line := "event: " + f.event;
      assert WriteFrame(f) + rest == line + [LF] + tail;
      EventLineIsClean(f.event);
      ReadLine(start, line, tail);
      TakeField(start, f.event);
      ReadData(start.Take(line), lines, rest);
    }
  }

  lemma EventLineIsClean(event: bytes)
    requires event != [] && NoLf(event) && !EndsInCr(event)
    ensures NoLf("event: " + event) && !EndsInCr("event: " + event)
  {
    var line := "event: " + event;
    assert forall i | 0 <= i < |line| :: if i < 7 then line[i] == "event: "[i] else line[i] == event[i - 7];
  }

  // ------------------------------------------------------------------ what the reader can return

  predicate CleanPartial(p: Partial) {
    NoLf(p.event) && !EndsInCr(p.event) && CleanLines(p.lines)
  }

  lemma FieldIsClean(line: bytes, name: bytes)
    requires NoLf(line) && !EndsInCr(line) && HasPrefix(line, name)
    ensures NoLf(FieldValue(line, name)) && !EndsInCr(FieldValue(line, name))
  {
    var v := line[|name|..];
    assert forall i | 0 <= i < |v| :: v[i] == line[i + |name|];
    assert HasPrefix(v, " ") ==> forall i | 0 <= i < |v| - 1 :: v[1..][i] == v[i + 1];
  }

  lemma {:induction false} LineIsClean(input: bytes)
    ensures var line := TrimRight(input[..LineEnd(input)]); NoLf(line) && !EndsInCr(line)
  {
    var line := TrimRight(input[..LineEnd(input)]);
    assert forall i | 0 <= i < |line| :: line[i] == input[..LineEnd(input)][i];
  }

  lemma {:induction false} TakeIsClean(p: Partial, input: bytes)
    requires CleanPartial(p)
    ensures CleanPartial(p.Take(TrimRight(input[..LineEnd(input)])))
  {
    LineIsClean(input);
    hide NoLf, EndsInCr, LineEnd, TrimRight, FieldValue;
    var line := TrimRight(input[..LineEnd(input)]);
    if HasPrefix(line, "event:") {
      FieldIsClean(line, "event:");
    } else if HasPrefix(line, "data:") {
      FieldIsClean(line, "data:");
    }
  }

  lemma {:induction false} ReadIsClean(p: Partial, input: bytes)
    requires CleanPartial(p)
    ensures ReadOn(p, input).Got? ==> Clean(ReadOn(p, input).frame)
    decreases |input|
  {
    hide Clean, CleanPartial, LineEnd, TrimRight, Partial.Take, Partial.Done;
    var n := LineEnd(input);
    var line := TrimRight(input[..n]);
    TakeIsClean(p, input);
    DoneIsClean(p);
    DoneIsClean(p.Take(line));
    if n < |input| {
      ReadIsClean(p.Take(line), input[n + 1..]);
    }
  }

  lemma DoneIsClean(p: Partial)
    requires CleanPartial(p)
    ensures Clean(p.Done())
  {
    if p.lines != [] {
      SplitJoin(p.lines);
    } else {
      assert Split([]) == [[]];
    }
  }

  /** Writing and reading give the frame back if and only if it is clean. */
  lemma RoundTripIffClean(f: Frame, rest: bytes)
    ensures ReadFrame(WriteFrame(f) + rest) == Got(f, rest) <==> Clean(f)
  {
    ReadIsClean(Partial([], [], false), WriteFrame(f) + rest);
    if Clean(f) {
      ReadWritten(f, rest);
    }
  }

  /** A whole stream of clean frames is read back frame by frame. */
  lemma {:induction false} StreamRoundTrip(frames: seq<Frame>)
    requires forall i | 0 <= i < |frames| :: Clean(frames[i])
    ensures ReadAll(WriteAll(frames)) == frames
  {
    if frames != [] {
      ReadWritten(frames[0], WriteAll(frames[1..]));
      StreamRoundTrip(frames[1..]);
    }
  }

  lemma {:induction false} ReadAllIsClean(input: bytes)
    ensures forall i | 0 <= i < |ReadAll(input)| :: Clean(ReadAll(input)[i])
    decreases |input|
  {
    ReadIsClean(Partial([], [], false), input);
    match ReadFrame(input)
    case Eof =>
    case Got(f, rest) =>
      if |rest| < |input| {
        ReadAllIsClean(rest);
      }
  }

  /** Whatever is read, writing it again and reading that changes nothing any more. */
  lemma {:induction false} RewriteIsStable(input: bytes)
    ensures ReadAll(WriteAll(ReadAll(input))) == ReadAll(input)
  {
    ReadAllIsClean(input);
    StreamRoundTrip(ReadAll(input));
  }

  // ------------------------------------------------------------------ any lines, as they may come

  predicate IsField(line: bytes) { HasPrefix(line, "event:") || HasPrefix(line, "data:") }

  /** A line as it is read: without what ends it. */
  function Bare(line: bytes): bytes { TrimRight(line) }

  predicate SomeField(lines: seq<bytes>) {
    exists i | 0 <= i < |lines| :: IsField(Bare(lines[i]))
  }

  /** The data of the data lines, in their order. */
  function DataOf(lines: seq<bytes>): seq<bytes> {
    if lines == [] then []
    else
      var line := Bare(lines[|lines| - 1]);
      DataOf(lines[..|lines| - 1]) + if HasPrefix(line, "data:") then [FieldValue(line, "data:")] else []
  }

  /** The event of the last event line. */
  function EventOf(lines: seq<bytes>): bytes {
    if lines == [] then []
    else
      var line := Bare(lines[|lines| - 1]);
      if HasPrefix(line, "event:") then FieldValue(line, "event:") else EventOf(lines[..|lines| - 1])
  }

  function FrameOf(lines: seq<bytes>): Frame { Frame(EventOf(lines), Join(DataOf(lines))) }

  /** Lines with their line feeds. */
  function Lined(lines: seq<bytes>): bytes {
    if lines == [] then [] else lines[0] + [LF] + Lined(lines[1..])
  }

  /** The lines of one frame: no line feed inside, and no blank line behind a field. */
  predicate OneFrame(lines: seq<bytes>) {
    && (forall i | 0 <= i < |lines| :: NoLf(lines[i]))
    && (forall i | 0 <= i < |lines| && SomeField(lines[..i]) :: Bare(lines[i]) != [])
  }

  /** What has been seen after these lines. */
  function Seen(lines: seq<bytes>): Partial { Partial(EventOf(lines), DataOf(lines), SomeField(lines)) }

  lemma NotBoth(line: bytes)
    ensures !(HasPrefix(line, "event:") && HasPrefix(line, "data:"))
  {
    if HasPrefix(line, "event:") {
      assert line[..6][0] == 'e';
    }
  }

  lemma {:induction false} SeenNext(lines: seq<bytes>, n: nat)
    requires n < |lines|
    ensures Seen(lines[..n]).Take(Bare(lines[n])) == Seen(lines[..n + 1])
  {
    var now := lines[..n + 1];
    assert now[..n] == lines[..n] && now[n] == lines[n];
    NotBoth(Bare(lines[n]));
    ConcatNil(DataOf(lines[..n]));
    FieldsNext(lines, n);
    hide SomeField, Bare, FieldValue;
  }

  lemma FieldsNext(lines: seq<bytes>, n: nat)
    requires n < |lines|
    ensures SomeField(lines[..n + 1]) <==> SomeField(lines[..n]) || IsField(Bare(lines[n]))
  {
    hide Bare, IsField;
    var now := lines[..n + 1];
    if IsField(Bare(lines[n])) {
      assert IsField(Bare(now[n]));
    }
    if SomeField(lines[..n]) {
      var i :| 0 <= i < n && IsField(Bare(lines[..n][i]));
      assert IsField(Bare(now[i]));
    }
  }

  /** Reading goes on behind the lines that have been seen. */
  lemma {:induction false} ReadsOn(lines: seq<bytes>, n: nat, tail: bytes)
    requires OneFrame(lines) && n <= |lines|
    ensures ReadOn(Seen(lines[..n]), Lined(lines[n..]) + tail) == ReadOn(Seen(lines), tail)
    decreases |lines| - n
  {
    hide Seen, OneFrame, Bare, SomeField;
    if n == |lines| {
      assert lines[..n] == lines;
      ConcatNil(tail);
    } else {
      ReadsOn(lines, n + 1, tail);
      SeenNext(lines, n);
      assert lines[n..][0] == lines[n] && lines[n..][1..] == lines[n + 1..];
      var rest := Lined(lines[n + 1..]) + tail;
      assert Lined(lines[n..]) + tail == lines[n] + [LF] + rest;
      LineIsTaken(lines, n);
      ReadOneLine(Seen(lines[..n]), lines[n], rest);
    }
  }

  lemma LineIsTaken(lines: seq<bytes>, n: nat)
    requires OneFrame(lines) && n < |lines|
    ensures NoLf(lines[n]) && (Seen(lines[..n]).saw ==> Bare(lines[n]) != [])
  {}

  lemma {:induction false} ReadOneLine(p: Partial, line: bytes, rest: bytes)
    requires NoLf(line) && (p.saw ==> Bare(line) != [])
    ensures ReadOn(p, line + [LF] + rest) == ReadOn(p.Take(Bare(line)), rest)
  {
    var s := line + [LF] + rest;
    LineEndAfter(line, rest);
    assert s[..|line|] == line && s[|line| + 1..] == rest;
  }

  lemma NothingSeen()
    ensures Seen([]) == Partial([], [], false)
  {}

  /** Whatever the lines are, with line feeds or with CR and LF, comments and unknown fields among them: a
      blank line behind a field ends the frame, and what follows is left for the next read. */
  lemma {:induction false} ReadsToBlankLine(lines: seq<bytes>, blank: bytes, rest: bytes)
    requires OneFrame(lines) && SomeField(lines) && NoLf(blank) && Bare(blank) == []
    ensures ReadFrame(Lined(lines) + (blank + [LF] + rest)) == Got(FrameOf(lines), rest)
  {
    var tail := blank + [LF] + rest;
    NothingSeen();
    assert lines[..0] == [] && lines[0..] == lines;
    ReadsOn(lines, 0, tail);
    LineEndAfter(blank, rest);
    assert tail[..|blank|] == blank && tail[|blank| + 1..] == rest;
  }

  /** Without a blank line the end of the input ends the frame, and a last line without line feed counts; if
      there was no field at all there is no frame. */
  lemma {:induction false} ReadsToEnd(lines: seq<bytes>, last: bytes)
    requires OneFrame(lines) && NoLf(last)
    ensures ReadFrame(Lined(lines) + last) == if SomeField(lines + [last]) then Got(FrameOf(lines + [last]), []) else Eof
  {
    NothingSeen();
    assert lines[..0] == [] && lines[0..] == lines;
    ReadsOn(lines, 0, last);
    var all := lines + [last];
    assert all[..|lines|] == lines && all[..|lines| + 1] == all && all[|lines|] == last;
    SeenNext(all, |lines|);
    AtEnd(Seen(lines), last);
  }

  lemma {:induction false} AtEnd(p: Partial, last: bytes)
    requires NoLf(last)
    ensures ReadOn(p, last) == if p.Take(Bare(last)).saw then Got(p.Take(Bare(last)).Done(), []) else Eof
  {
    assert LineEnd(last) == |last| && last[..|last|] == last;
  }

  /** One space behind the colon is dropped, and only one. */
  lemma ValueBehindColon(name: bytes, value: bytes)
    ensures FieldValue(name + (" " + value), name) == value
    ensures !HasPrefix(value, " ") ==> FieldValue(name + value, name) == value
  {
    var a, b := name + (" " + value), name + value;
    assert a[..|name|] == name && a[|name|..] == " " + value && b[..|name|] == name && b[|name|..] == value;
    assert (" " + value)[..1] == " " && (" " + value)[1..] == value;
  }

  /** Carriage returns and line feeds at the end of a line are no part of it. */
  lemma {:induction false} BareIs(line: bytes, end: bytes)
    requires line == [] || (line[|line| - 1] != CR && line[|line| - 1] != LF)
    requires forall i | 0 <= i < |end| :: end[i] == CR || end[i] == LF
    ensures Bare(line + end) == line
  {
    if end == [] {
      ConcatNil(line);
    } else {
      var n := |end| - 1;
      assert (line + end)[..|line + end| - 1] == line + end[..n];
      BareIs(line, end[..n]);
    }
  }
}

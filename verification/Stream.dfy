/**
 How much of a streamed text may be restored and sent now (internal/proxyserver/sse.go), as
 functions of the bytes held and received.
 */
module Stream {
  import opened Bytes
  import opened Restore
  import opened SpanTries

  const MAX_HELD: nat := 128

  /** The position right after the last boundary byte, or 0. */
  function LastBoundary(buf: bytes): (n: nat)
    ensures n <= |buf|
    ensures n > 0 ==> IsBoundary(buf[n - 1])
    ensures forall i | n <= i < |buf| :: !IsBoundary(buf[i])
  {
    if buf == [] then 0
    else if IsBoundary(buf[|buf| - 1]) then |buf|
    else LastBoundary(buf[..|buf| - 1])
  }

  /** Not a continuation byte of UTF-8 (section 3 of RFC 3629). */
  predicate RuneStart(c: byte) { c as int / 64 != 2 }

  /** The nearest rune start at or before position i, or 0. */
  function WalkBack(buf: bytes, i: nat): (n: nat)
    requires i < |buf|
    ensures n <= i && (n == 0 || RuneStart(buf[n]))
    ensures forall k | n < k <= i :: !RuneStart(buf[k])
  {
    if i == 0 || RuneStart(buf[i]) then i else WalkBack(buf, i - 1)
  }

  function FlushBoundary(buf: bytes): (n: nat)
    ensures n <= |buf|
  {
    var safe := LastBoundary(buf);
    if |buf| - safe > MAX_HELD then WalkBack(buf, |buf| - MAX_HELD) else safe
  }

  lemma {:induction false} LastBoundaryOf(buf: bytes, n: nat)
    requires n <= |buf| && (n > 0 ==> IsBoundary(buf[n - 1]))
    requires forall i | n <= i < |buf| :: !IsBoundary(buf[i])
    ensures LastBoundary(buf) == n
  {
    hide IsBoundary;
  }

  lemma WalkBackStep(buf: bytes, i: nat)
    requires 0 < i < |buf|
    ensures WalkBack(buf, i) == if RuneStart(buf[i]) then i else WalkBack(buf, i - 1)
  {}

  method TextFlushBoundary(buf: bytes) returns (safe: nat)
    ensures safe == FlushBoundary(buf)
  {
    hide LastBoundary, WalkBack, IsBoundary, RuneStart;
    safe := |buf|;
    while safe > 0 && !IsBoundary(buf[safe - 1])
      invariant safe <= |buf| && forall i | safe <= i < |buf| :: !IsBoundary(buf[i])
    {
      safe := safe - 1;
    }
    LastBoundaryOf(buf, safe);
    if |buf| - safe > MAX_HELD {
      safe := |buf| - MAX_HELD;
      while safe > 0 && !RuneStart(buf[safe])
        invariant safe < |buf| && WalkBack(buf, safe) == FlushBoundary(buf)
      {
        WalkBackStep(buf, safe);
        safe := safe - 1;
      }
    }
  }

  /** The least growing position from i on. */
  ghost function LeastGrowing(spans: set<bytes>, buf: bytes, i: nat): (cut: nat)
    requires i <= |buf| && NoneGrowing(spans, buf, i)
    ensures IsFlushPoint(spans, buf, cut)
    decreases |buf| - i
  {
    if i == |buf| || Growing(spans, buf, i) then i
    else
      NoneGrowingStep(spans, buf, i);
      LeastGrowing(spans, buf, i + 1)
  }

  ghost function FlushPoint(spans: set<bytes>, buf: bytes): (cut: nat)
    ensures IsFlushPoint(spans, buf, cut)
  {
    LeastGrowing(spans, buf, 0)
  }

  /** Where a text block is cut: both conditions must allow it. */
  ghost function Cut(spans: set<bytes>, buf: bytes): (cut: nat)
    ensures cut <= |buf|
  {
    var point, boundary := FlushPoint(spans, buf), FlushBoundary(buf);
    if boundary < point then boundary else point
  }

  /** A text delta, and the spans that are registered when it arrives. */
  datatype Arrival = Arrival(delta: bytes, spans: set<bytes>)

  ghost function Received(arrivals: seq<Arrival>): bytes {
    if arrivals == [] then [] else arrivals[0].delta + Received(arrivals[1..])
  }

  /** All text sent for a block that holds buf, gets the deltas one by one and is then stopped. */
  ghost function Sent(restore: bytes -> bytes, buf: bytes, arrivals: seq<Arrival>): bytes
    decreases |arrivals|
  {
    if arrivals == [] then (if buf == [] then [] else restore(buf))
    else
      var b := buf + arrivals[0].delta;
      var cut := Cut(arrivals[0].spans, b);
      (if cut > 0 then restore(b[..cut]) else []) + Sent(restore, b[cut..], arrivals[1..])
  }

  // ------------------------------------------------------------------ streamed equals whole

  /** Restoring distributes over every cut right after a boundary byte. */
  ghost predicate Distributes(restore: bytes -> bytes) {
    && restore([]) == []
    && (forall a, b | Closed(a) :: restore(a + b) == restore(a) + restore(b))
  }

  /** No unbroken run is longer than what is held back. */
  ghost predicate RunsShort(text: bytes) {
    forall i, j | 0 <= i <= j <= |text| && Free(text[i..j]) :: j - i <= MAX_HELD
  }

  /** A span of which a boundary byte has arrived, and which may still go on, begins at the start of
      the text or right after a boundary byte. */
  ghost predicate Aligned(spans: set<bytes>, text: bytes) {
    forall i: nat | Growing(spans, text, i) && !Free(text[i..]) :: i == 0 || IsBoundary(text[i - 1])
  }

  /** At the end of every delta. text is what had arrived before. */
  ghost predicate AllAligned(text: bytes, arrivals: seq<Arrival>)
    decreases |arrivals|
  {
    if arrivals == [] then true
    else
      var t := text + arrivals[0].delta;
      Aligned(arrivals[0].spans, t) && AllAligned(t, arrivals[1..])
  }

  lemma AlignedTail(spans: set<bytes>, a: bytes, b: bytes)
    requires Aligned(spans, a + b)
    ensures Aligned(spans, b)
  {
    forall i: nat | Growing(spans, b, i) && !Free(b[i..])
      ensures i == 0 || IsBoundary(b[i - 1])
    {
      assert (a + b)[|a| + i..] == b[i..];
      assert Growing(spans, a + b, |a| + i);
    }
  }

  /** With short runs, the cut is the last boundary exactly if no span that may still go on begins
      before it. */
  lemma {:induction false} CutIsBoundaryIff(spans: set<bytes>, buf: bytes)
    requires |buf| - LastBoundary(buf) <= MAX_HELD
    ensures Cut(spans, buf) == LastBoundary(buf) <==> NoneGrowing(spans, buf, LastBoundary(buf))
  {
    var point, safe := FlushPoint(spans, buf), LastBoundary(buf);
    if point < safe {
      assert Growing(spans, buf, point);
    }
  }

  /** With short runs and aligned spans, every cut is at the start or right after a boundary byte. */
  lemma {:induction false} CutIsClosed(spans: set<bytes>, buf: bytes)
    requires |buf| - LastBoundary(buf) <= MAX_HELD && Aligned(spans, buf)
    ensures Cut(spans, buf) == 0 || Closed(buf[..Cut(spans, buf)])
  {
    var point, safe := FlushPoint(spans, buf), LastBoundary(buf);
    if point < safe {
      assert buf[point..][safe - 1 - point] == buf[safe - 1];
      assert Growing(spans, buf, point) && !Free(buf[point..]);
    }
  }

  // ------------------------------------------------------------------ spans that are always aligned

  predicate OpensAt(s: bytes, text: bytes, i: nat) {
    && i + FirstBoundary(s) < |text| && FirstBoundary(s) < |s|
    && text[i..i + FirstBoundary(s) + 1] == s[..FirstBoundary(s) + 1]
  }

  function FirstBoundary(s: bytes): (n: nat)
    ensures n <= |s| && (n < |s| ==> IsBoundary(s[n])) && Free(s[..n])
  {
    if s == [] || IsBoundary(s[0]) then 0
    else
      var n := FirstBoundary(s[1..]);
      assert forall i | 0 <= i < n :: s[1..][..n][i] == s[i + 1];
      n + 1
  }

  /** The beginning of no span, up to and with its first boundary byte, stands anywhere in the text. */
  ghost predicate Unopened(spans: set<bytes>, text: bytes) {
    forall s, i: nat | s in spans :: !OpensAt(s, text, i)
  }

  /** Spans without boundary bytes are never opened, and spans that are not opened are aligned. */
  lemma FreeIsUnopened(spans: set<bytes>, text: bytes)
    requires forall s | s in spans :: Free(s)
    ensures Unopened(spans, text)
  {}

  lemma {:induction false} UnopenedIsAligned(spans: set<bytes>, text: bytes, more: bytes)
    requires Unopened(spans, text + more)
    ensures Aligned(spans, text)
  {
    forall i: nat | Growing(spans, text, i)
      ensures Free(text[i..])
    {
      var s :| s in spans && |text[i..]| < |s| && text[i..] <= s;
      GrowsUnopened(spans, text, more, i, s);
    }
  }

  lemma PrefixOpens(s: bytes, text: bytes, more: bytes, i: nat)
    requires i < |text| && text[i..] <= s && FirstBoundary(s) < |text| - i && FirstBoundary(s) < |s|
    ensures OpensAt(s, text + more, i)
  {
    var n := FirstBoundary(s);
    assert (text + more)[i..i + n + 1] == text[i..][..n + 1] == s[..n + 1];
  }

  lemma {:induction false} GrowsUnopened(spans: set<bytes>, text: bytes, more: bytes, i: nat, s: bytes)
    requires Unopened(spans, text + more) && s in spans && i < |text| && text[i..] <= s
    ensures Free(text[i..])
  {
    var n := FirstBoundary(s);
    if n < |text| - i && n < |s| {
      PrefixOpens(s, text, more, i);
    }
    assert forall k | 0 <= k < |text[i..]| :: text[i..][k] == s[k] == s[..n][k];
  }

  /** If no span registered during the stream is opened in the text, then all deltas are aligned. */
  lemma {:induction false} UnopenedAlign(text: bytes, arrivals: seq<Arrival>)
    requires forall n | 0 <= n < |arrivals| :: Unopened(arrivals[n].spans, text + Received(arrivals))
    ensures AllAligned(text, arrivals)
    decreases |arrivals|
  {
    if arrivals != [] {
      var t, more := text + arrivals[0].delta, Received(arrivals[1..]);
      ConcatAssoc(text, arrivals[0].delta, more);
      UnopenedIsAligned(arrivals[0].spans, t, more);
      forall n | 0 <= n < |arrivals[1..]|
        ensures Unopened(arrivals[1..][n].spans, t + more)
      {
        assert arrivals[1..][n] == arrivals[n + 1];
      }
      UnopenedAlign(t, arrivals[1..]);
    }
  }

  // ------------------------------------------------------------------ the law

  lemma RunsShortTail(a: bytes, b: bytes)
    requires RunsShort(a + b)
    ensures RunsShort(b)
  {
    forall i, j | 0 <= i <= j <= |b| && Free(b[i..j])
      ensures j - i <= MAX_HELD
    {
      assert (a + b)[|a| + i..|a| + j] == b[i..j];
    }
  }

  lemma {:induction false} RunsShortBoundary(buf: bytes, rest: bytes)
    requires RunsShort(buf + rest)
    ensures |buf| - LastBoundary(buf) <= MAX_HELD
  {
    var safe := LastBoundary(buf);
    assert (buf + rest)[safe..|buf|] == buf[safe..];
    assert Free((buf + rest)[safe..|buf|]);
  }

  /** However a text is cut into deltas, what is sent is the whole text restored. gone is what was sent
      before. */
  lemma {:induction false} StreamedEqualsWhole(restore: bytes -> bytes, gone: bytes, buf: bytes, arrivals: seq<Arrival>)
    requires Distributes(restore) && AllAligned(gone + buf, arrivals) && RunsShort(buf + Received(arrivals))
    ensures Sent(restore, buf, arrivals) == restore(buf + Received(arrivals))
    decreases |arrivals|
  {
    hide Aligned, RunsShort, Cut, Closed;
    if arrivals == [] {
      ConcatNil(buf);
    } else {
      var b, more := buf + arrivals[0].delta, Received(arrivals[1..]);
      var cut := Cut(arrivals[0].spans, b);
      DeltaIsClosed(gone, buf, arrivals);
      RestoreAtCut(restore, b, cut, more);
      StreamedEqualsWhole(restore, gone + b[..cut], b[cut..], arrivals[1..]);
    }
  }

  /** The cut at a delta, and what that leaves for the next ones. */
  lemma {:induction false} DeltaIsClosed(gone: bytes, buf: bytes, arrivals: seq<Arrival>)
    requires arrivals != [] && AllAligned(gone + buf, arrivals) && RunsShort(buf + Received(arrivals))
    ensures var b, more := buf + arrivals[0].delta, Received(arrivals[1..]);
            var cut := Cut(arrivals[0].spans, b);
            && buf + Received(arrivals) == b + more
            && (cut == 0 || Closed(b[..cut])) && RunsShort(b[cut..] + more)
            && AllAligned((gone + b[..cut]) + b[cut..], arrivals[1..])
  {
    hide Aligned, RunsShort, Cut, Closed;
    var b, more := buf + arrivals[0].delta, Received(arrivals[1..]);
    var cut := Cut(arrivals[0].spans, b);
    ConcatAssoc(buf, arrivals[0].delta, more);
    ConcatAssoc(gone, buf, arrivals[0].delta);
    AlignedTail(arrivals[0].spans, gone, b);
    RunsShortBoundary(b, more);
    CutIsClosed(arrivals[0].spans, b);
    SplitAt(b, cut, more);
    RunsShortTail(b[..cut], b[cut..] + more);
    ConcatAssoc(gone, b[..cut], b[cut..]);
  }

  lemma SplitAt(b: bytes, cut: nat, more: bytes)
    requires cut <= |b|
    ensures b[..cut] + b[cut..] == b && b + more == b[..cut] + (b[cut..] + more)
    ensures cut == 0 ==> b[cut..] == b
  {}

  lemma {:induction false} RestoreAtCut(restore: bytes -> bytes, b: bytes, cut: nat, more: bytes)
    requires Distributes(restore) && cut <= |b| && (cut == 0 || Closed(b[..cut]))
    ensures restore(b + more) == (if cut > 0 then restore(b[..cut]) else []) + restore(b[cut..] + more)
  {
    SplitAt(b, cut, more);
    ConcatNil(restore(b + more));
  }

  // ------------------------------------------------------------------ tokens that are still arriving

  /** The span is registered at every delta that ends inside its occurrence at i. arrived is how much
      of the text had arrived before. */
  predicate KnownWhileArriving(s: bytes, i: nat, arrived: nat, arrivals: seq<Arrival>)
    decreases |arrivals|
  {
    arrivals != [] ==>
      var now := arrived + |arrivals[0].delta|;
      && (i < now < i + |s| ==> s in arrivals[0].spans)
      && KnownWhileArriving(s, i, now, arrivals[1..])
  }

  /** At every delta that ends before i + n, the cut is not behind i. gone is how much was sent before. */
  ghost predicate SentUpTo(i: nat, n: nat, gone: nat, buf: bytes, arrivals: seq<Arrival>)
    decreases |arrivals|
  {
    arrivals != [] ==>
      var b := buf + arrivals[0].delta;
      var cut := Cut(arrivals[0].spans, b);
      && (gone + |b| < i + n ==> gone + cut <= i)
      && SentUpTo(i, n, gone + cut, b[cut..], arrivals[1..])
  }

  /** Over a whole stream: while a span that occurs at i in the text is still arriving, nothing of it is
      sent, and no cut divides it before its last byte is there. */
  lemma {:induction false} ArrivingIsHeld(s: bytes, i: nat, gone: bytes, buf: bytes, arrivals: seq<Arrival>)
    requires i + |s| <= |gone + (buf + Received(arrivals))| && (gone + (buf + Received(arrivals)))[i..i + |s|] == s
    requires |gone| <= i || i + |s| <= |gone + buf|
    requires KnownWhileArriving(s, i, |gone + buf|, arrivals)
    ensures SentUpTo(i, |s|, |gone|, buf, arrivals)
    decreases |arrivals|
  {
    hide Cut;
    if arrivals != [] {
      var b, more := buf + arrivals[0].delta, Received(arrivals[1..]);
      var cut := Cut(arrivals[0].spans, b);
      assert buf + Received(arrivals) == b + more;
      assert |gone + b| == |gone + buf| + |arrivals[0].delta|;
      if |gone + b| < i + |s| && i < |gone + b| {
        OneDeltaHolds(arrivals[0].spans, s, i, gone, b, more);
      }
      assert gone + (b + more) == (gone + b[..cut]) + (b[cut..] + more);
      assert (gone + b[..cut]) + b[cut..] == gone + b;
      ArrivingIsHeld(s, i, gone + b[..cut], b[cut..], arrivals[1..]);
    }
  }

  lemma OneDeltaHolds(spans: set<bytes>, s: bytes, i: nat, gone: bytes, b: bytes, more: bytes)
    requires i + |s| <= |gone + (b + more)| && (gone + (b + more))[i..i + |s|] == s && s in spans
    requires |gone| <= i < |gone + b| < i + |s|
    ensures |gone| + Cut(spans, b) <= i
  {
    var r := Span(i - |gone|, i - |gone| + |s|);
    assert (gone + (b + more))[i..i + |s|] == (b + more)[r.start..r.end];
    FlushPointSparesArriving(spans, b, more, FlushPoint(spans, b), r);
  }

  // ------------------------------------------------------------------ nothing is lost or held for long

  /** With nothing to restore, all text received is sent, whatever the spans and runs are. */
  lemma {:induction false} NothingIsLost(buf: bytes, arrivals: seq<Arrival>)
    ensures Sent((s: bytes) => s, buf, arrivals) == buf + Received(arrivals)
    decreases |arrivals|
  {
    if arrivals != [] {
      var b, more := buf + arrivals[0].delta, Received(arrivals[1..]);
      var cut := Cut(arrivals[0].spans, b);
      NothingIsLost(b[cut..], arrivals[1..]);
      ConcatAssoc(buf, arrivals[0].delta, more);
      ConcatAssoc(b[..cut], b[cut..], more);
      assert b == b[..cut] + b[cut..];
      assert cut == 0 ==> b[..cut] == [];
    }
  }
}

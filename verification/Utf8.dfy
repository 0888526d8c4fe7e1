/**
 Well-formed UTF-8 (section 4 of RFC 3629), where it may be cut, and what the streaming cut does
 to it (internal/proxyserver/sse.go).
 */
module Utf8 {
  import opened Bytes
  import opened Restore
  import opened SpanTries
  import opened Stream

  predicate In(c: byte, lo: int, hi: int) { lo <= c as int <= hi }

  predicate Continues(s: bytes, i: nat) { i < |s| && In(s[i], 0x80, 0xBF) }

  /** The length of the well-formed encoding that s begins with, or 0. */
  function RuneLen(s: bytes): (n: nat)
    ensures n <= 4 && n <= |s|
  {
    if s == [] then 0
    else if In(s[0], 0x00, 0x7F) then 1
    else if In(s[0], 0xC2, 0xDF) && Continues(s, 1) then 2
    else if In(s[0], 0xE0, 0xEF) && Continues(s, 1) && Continues(s, 2)
            && (s[0] as int == 0xE0 ==> s[1] as int >= 0xA0)
            && (s[0] as int == 0xED ==> s[1] as int <= 0x9F) then 3
    else if In(s[0], 0xF0, 0xF4) && Continues(s, 1) && Continues(s, 2) && Continues(s, 3)
            && (s[0] as int == 0xF0 ==> s[1] as int >= 0x90)
            && (s[0] as int == 0xF4 ==> s[1] as int <= 0x8F) then 4
    else 0
  }

  /** Go decodes one byte of invalid text at a time. */
  function UnitLen(text: bytes): (n: nat)
    requires text != []
    ensures 1 <= n <= |text|
  {
    if RuneLen(text) > 0 then RuneLen(text) else 1
  }

  function Unit(text: bytes): bytes
    requires text != []
  {
    text[..UnitLen(text)]
  }

  function Rest(text: bytes): (rest: bytes)
    requires text != []
    ensures |rest| < |text| && |rest| == |text| - UnitLen(text)
  {
    text[UnitLen(text)..]
  }

  predicate WellFormed(s: bytes) {
    s == [] || (RuneLen(s) > 0 && WellFormed(s[RuneLen(s)..]))
  }

  lemma RuneLenIsLocal(x: bytes, rest: bytes)
    requires RuneLen(x) > 0
    ensures RuneLen(x + rest) == RuneLen(x)
  {
    var s := x + rest;
    assert forall i | 0 <= i < |x| :: s[i] == x[i];
  }

  lemma {:induction false} JoinWellFormed(a: bytes, b: bytes)
    requires WellFormed(a) && WellFormed(b)
    ensures WellFormed(a + b)
  {
    if a == [] {
      ConcatNil(b);
    } else {
      var k := RuneLen(a);
      RuneLenIsLocal(a, b);
      assert (a + b)[k..] == a[k..] + b;
      JoinWellFormed(a[k..], b);
    }
  }

  predicate Ascii(s: bytes) {
    forall i | 0 <= i < |s| :: s[i] as int < 0x80
  }

  lemma {:induction false} AsciiIsWellFormed(s: bytes)
    requires Ascii(s)
    ensures WellFormed(s)
  {
    if s != [] {
      AsciiIsWellFormed(s[1..]);
    }
  }

  predicate CutPoint(s: bytes, i: nat) {
    i == |s| || (i < |s| && RuneStart(s[i]))
  }

  /** Inside an encoding there is no rune start. */
  lemma NoStartInside(s: bytes, i: nat)
    requires 0 < i < RuneLen(s)
    ensures !CutPoint(s, i)
  {}

  /** A rune start, like the end, divides well-formed text into two well-formed texts. */
  lemma {:induction false} CutWellFormed(s: bytes, i: nat)
    requires WellFormed(s) && CutPoint(s, i)
    ensures WellFormed(s[..i]) && WellFormed(s[i..])
  {
    if i == 0 {
      assert s[0..] == s;
    } else {
      var k := RuneLen(s);
      if i < k {
        NoStartInside(s, i);
      }
      assert s[k..][i - k..] == s[i..] && s[k..][..i - k] == s[k..i];
      CutWellFormed(s[k..], i - k);
      assert s[..k] + s[k..] == s;
      RuneLenIsLocalPrefix(s, k, i);
      assert s[..i][k..] == s[k..i];
    }
  }

  lemma RuneLenIsLocalPrefix(s: bytes, k: nat, i: nat)
    requires k == RuneLen(s) && 0 < k <= i <= |s|
    ensures RuneLen(s[..i]) == k
  {
    assert forall j | 0 <= j < i :: s[..i][j] == s[j];
  }

  /** Every byte of well-formed text belongs to an encoding that starts at most three bytes before
      it, and an encoding of more than one byte has no ASCII byte. */
  lemma {:induction false} RuneStartNearby(s: bytes, i: nat)
    requires WellFormed(s) && i < |s|
    ensures exists j :: i - 3 <= j <= i && 0 <= j && RuneStart(s[j])
    ensures !RuneStart(s[i]) ==> 0 < i && s[i - 1] as int >= 0x80
  {
    var k := RuneLen(s);
    if i < k {
      assert RuneStart(s[0]);
    } else {
      RuneStartNearby(s[k..], i - k);
      var j :| i - k - 3 <= j <= i - k && 0 <= j && RuneStart(s[k..][j]);
      assert s[j + k] == s[k..][j];
      if !RuneStart(s[i]) {
        assert s[k..][i - k - 1] == s[i - 1];
      }
    }
  }

  lemma {:induction false} AfterBoundaryStarts(s: bytes, i: nat)
    requires WellFormed(s) && 0 < i < |s| && IsBoundary(s[i - 1])
    ensures RuneStart(s[i])
  {
    RuneStartNearby(s, i);
  }

  lemma {:induction false} WellFormedStarts(s: bytes)
    requires WellFormed(s) && s != []
    ensures RuneStart(s[0])
  {}

  /** more is what is still to come. In well-formed text the walk back from the forced cut stops at a
      rune start, never passes the natural boundary, and holds at most three bytes more. */
  lemma {:induction false} FlushBoundaryIsRuneStart(buf: bytes, more: bytes)
    requires WellFormed(buf + more)
    ensures CutPoint(buf + more, FlushBoundary(buf))
    ensures LastBoundary(buf) <= FlushBoundary(buf)
    ensures |buf| - FlushBoundary(buf) <= MAX_HELD + 3
  {
    var safe, text := LastBoundary(buf), buf + more;
    hide WellFormed, RuneLen;
    assert forall i | 0 <= i < |buf| :: text[i] == buf[i];
    if 0 < safe < |text| {
      AfterBoundaryStarts(text, safe);
    } else if safe < |text| {
      WellFormedStarts(text);
    }
    if |buf| - safe > MAX_HELD {
      RuneStartNearby(text, |buf| - MAX_HELD);
    }
  }

  lemma FlushPointIsRuneStart(spans: set<bytes>, buf: bytes)
    requires forall s | s in spans :: WellFormed(s)
    ensures CutPoint(buf, FlushPoint(spans, buf))
  {
    var i := FlushPoint(spans, buf);
    if i < |buf| {
      var s :| s in spans && |buf| - i < |s| && buf[i..] <= s;
      WellFormedStarts(s);
      assert s[0] == buf[i..][0];
    }
  }

  /** The cut of a part of well-formed text divides that text into well-formed pieces and holds back
      little, wherever the part ends. */
  lemma {:induction false} CutKeepsUtf8(spans: set<bytes>, buf: bytes, more: bytes, maxLen: nat)
    requires WellFormed(buf + more)
    requires forall s | s in spans :: WellFormed(s) && |s| <= maxLen
    ensures var cut := Cut(spans, buf);
            && WellFormed(buf[..cut]) && WellFormed(buf[cut..] + more)
            && |buf| - cut <= (if maxLen > MAX_HELD + 3 then maxLen - 1 else MAX_HELD + 3)
  {
    hide WellFormed, FlushBoundary, FlushPoint;
    FlushBoundaryIsRuneStart(buf, more);
    HeldBySpan(spans, buf, FlushPoint(spans, buf), maxLen);
    CutDivides(spans, buf, more);
  }

  lemma CutDivides(spans: set<bytes>, buf: bytes, more: bytes)
    requires WellFormed(buf + more) && forall s | s in spans :: WellFormed(s)
    ensures WellFormed(buf[..Cut(spans, buf)]) && WellFormed(buf[Cut(spans, buf)..] + more)
  {
    hide WellFormed, FlushBoundary, FlushPoint;
    var cut := Cut(spans, buf);
    FlushBoundaryIsRuneStart(buf, more);
    FlushPointIsRuneStart(spans, buf);
    assert cut < |buf| ==> (buf + more)[cut] == buf[cut];
    CutWellFormed(buf + more, cut);
    assert (buf + more)[..cut] == buf[..cut] && (buf + more)[cut..] == buf[cut..] + more;
  }

  /** The pieces that are restored and sent one by one. */
  ghost function Pieces(buf: bytes, arrivals: seq<Arrival>): seq<bytes>
    decreases |arrivals|
  {
    if arrivals == [] then [buf]
    else
      var b := buf + arrivals[0].delta;
      var cut := Cut(arrivals[0].spans, b);
      [b[..cut]] + Pieces(b[cut..], arrivals[1..])
  }

  ghost predicate SpansWellFormed(arrivals: seq<Arrival>) {
    forall i, s | 0 <= i < |arrivals| && s in arrivals[i].spans :: WellFormed(s)
  }

  lemma NextArrival(arrivals: seq<Arrival>)
    requires SpansWellFormed(arrivals) && arrivals != []
    ensures (forall s | s in arrivals[0].spans :: WellFormed(s)) && SpansWellFormed(arrivals[1..])
  {
    hide WellFormed;
    assert forall i | 0 <= i < |arrivals[1..]| :: arrivals[1..][i] == arrivals[i + 1];
  }

  /** If the whole text and all spans are well-formed, then no piece ends inside a rune, even where the
      deltas do. */
  lemma {:induction false} PiecesAreWellFormed(buf: bytes, arrivals: seq<Arrival>)
    requires WellFormed(buf + Received(arrivals)) && SpansWellFormed(arrivals)
    ensures forall i | 0 <= i < |Pieces(buf, arrivals)| :: WellFormed(Pieces(buf, arrivals)[i])
    decreases |arrivals|
  {
    hide WellFormed, Cut, SpansWellFormed;
    if arrivals == [] {
      ConcatNil(buf);
    } else {
      var b, more := buf + arrivals[0].delta, Received(arrivals[1..]);
      var cut := Cut(arrivals[0].spans, b);
      ConcatAssoc(buf, arrivals[0].delta, more);
      NextArrival(arrivals);
      CutDivides(arrivals[0].spans, b, more);
      PiecesAreWellFormed(b[cut..], arrivals[1..]);
    }
  }

  /** The pieces are what is restored and sent, and together they are what was received. */
  lemma {:induction false} PiecesCover(restore: bytes -> bytes, buf: bytes, arrivals: seq<Arrival>)
    requires restore([]) == []
    ensures Concat(Pieces(buf, arrivals)) == buf + Received(arrivals)
    ensures Concat(Restored(restore, Pieces(buf, arrivals))) == Sent(restore, buf, arrivals)
    decreases |arrivals|
  {
    hide Cut;
    if arrivals == [] {
      ConcatNil(buf);
      ConcatNil(restore(buf));
      return;
    }
    var b := buf + arrivals[0].delta;
    var cut := Cut(arrivals[0].spans, b);
    PiecesCover(restore, b[cut..], arrivals[1..]);
    var rest := Pieces(b[cut..], arrivals[1..]);
    assert ([b[..cut]] + rest)[1..] == rest;
    ConcatAssoc(b[..cut], b[cut..], Received(arrivals[1..]));
    assert b == b[..cut] + b[cut..];
    ConcatAssoc(buf, arrivals[0].delta, Received(arrivals[1..]));
    assert ([restore(b[..cut])] + Restored(restore, rest))[1..] == Restored(restore, rest);
    assert cut == 0 ==> b[..cut] == [];
  }

  function Restored(restore: bytes -> bytes, pieces: seq<bytes>): seq<bytes> {
    if pieces == [] then [] else [restore(pieces[0])] + Restored(restore, pieces[1..])
  }
}

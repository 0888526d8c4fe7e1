/**
 Detecting through invisible characters (internal/redact/unicode_domain.go): the text without
 them, and the way back from a range of the stripped text to the original bytes. Which characters
 are invisible is a parameter; none of them is ASCII.
 */
module Invisible {
  import opened Bytes
  import opened Scanning
  import opened Utf8

  type Hidden = bytes -> bool

  ghost predicate NoneAscii(hidden: Hidden) {
    forall u | |u| == 1 :: !hidden(u)
  }

  /** The text without its invisible characters. */
  function Strip(text: bytes, hidden: Hidden): bytes
    decreases |text|
  {
    if text == [] then []
    else (if hidden(Unit(text)) then [] else Unit(text)) + Strip(Rest(text), hidden)
  }

  /** Where byte k of the stripped text is in the original, which starts at base; for the end of
      the stripped text, the end of the original. */
  function Offset(text: bytes, hidden: Hidden, base: nat, k: nat): nat
    requires k <= |Strip(text, hidden)|
    decreases |text|
  {
    if text == [] then base
    else if hidden(Unit(text)) then Offset(Rest(text), hidden, base + UnitLen(text), k)
    else if k < UnitLen(text) then base + k
    else Offset(Rest(text), hidden, base + UnitLen(text), k - UnitLen(text))
  }

  function Offsets(text: bytes, hidden: Hidden, base: nat): seq<nat>
    decreases |text|
  {
    if text == [] then [base]
    else (if hidden(Unit(text)) then [] else Count(base, UnitLen(text))) + Offsets(Rest(text), hidden, base + UnitLen(text))
  }

  /** base, base + 1 and so on. */
  function Count(base: nat, n: nat): (c: seq<nat>)
    ensures |c| == n && forall i | 0 <= i < n :: c[i] == base + i
  {
    if n == 0 then [] else Count(base, n - 1) + [base + n - 1]
  }

  lemma {:induction false} OffsetsLength(text: bytes, hidden: Hidden, base: nat)
    ensures |Offsets(text, hidden, base)| == |Strip(text, hidden)| + 1
    decreases |text|
  {
    if text != [] {
      OffsetsLength(Rest(text), hidden, base + UnitLen(text));
    }
  }

  lemma {:induction false} OffsetAt(text: bytes, hidden: Hidden, base: nat, k: nat)
    requires k <= |Strip(text, hidden)|
    ensures |Offsets(text, hidden, base)| == |Strip(text, hidden)| + 1
    ensures Offsets(text, hidden, base)[k] == Offset(text, hidden, base, k)
    decreases |text|
  {
    hide UnitLen, Strip;
    OffsetsLength(text, hidden, base);
    if text == [] {
      Nothing(hidden, base);
    } else {
      StripStep(text, hidden, base);
      var n, rest := UnitLen(text), Rest(text);
      if hidden(Unit(text)) {
        OffsetAt(rest, hidden, base + n, k);
      } else if k >= n {
        OffsetAt(rest, hidden, base + n, k - n);
      }
    }
  }

  predicate IsAscii(text: bytes) {
    forall i | 0 <= i < |text| :: text[i] as int < 0x80
  }

  /** The stripped copy and, unless the text is plain ASCII, the table of offsets. */
  method StripInvisible(text: bytes, hidden: Hidden) returns (stripped: bytes, offsets: Option<seq<nat>>)
    requires NoneAscii(hidden)
    ensures stripped == Strip(text, hidden)
    ensures offsets == if IsAscii(text) then None else Some(Offsets(text, hidden, 0))
  {
    hide Strip, Offsets, UnitLen;
    if IsAscii(text) {
      AsciiStays(text, hidden, 0);
      return text, None;
    }
    var i: nat := 0;
    var table: seq<nat> := [];
    stripped := [];
    Nothing(hidden, |text|);
    assert text[0..] == text;
    while i < |text|
      invariant i <= |text|
      invariant stripped + Strip(text[i..], hidden) == Strip(text, hidden)
      invariant table + Offsets(text[i..], hidden, i) == Offsets(text, hidden, 0)
    {
      var rest := text[i..];
      var size := UnitLen(rest);
      assert Rest(rest) == text[i + size..];
      StripStep(rest, hidden, i);
      if !hidden(rest[..size]) {
        ConcatAssoc(stripped, Unit(rest), Strip(Rest(rest), hidden));
        ConcatAssoc(table, Count(i, size), Offsets(Rest(rest), hidden, i + size));
        stripped, table := AppendUnit(stripped, table, Unit(rest), i);
      }
      i := i + size;
    }
    assert text[|text|..] == [];
    table := table + [|text|];
    offsets := Some(table);
  }

  lemma {:induction false} Nothing(hidden: Hidden, base: nat)
    ensures Strip([], hidden) == [] && Offsets([], hidden, base) == [base]
  {}

  lemma StripStep(text: bytes, hidden: Hidden, base: nat)
    requires text != []
    ensures var rest, n := Rest(text), UnitLen(text);
            && (hidden(Unit(text)) ==>
                  Strip(text, hidden) == Strip(rest, hidden) && Offsets(text, hidden, base) == Offsets(rest, hidden, base + n))
            && (!hidden(Unit(text)) ==>
                  && Strip(text, hidden) == Unit(text) + Strip(rest, hidden)
                  && Offsets(text, hidden, base) == Count(base, n) + Offsets(rest, hidden, base + n))
  {
    hide UnitLen;
    ConcatNil(Strip(Rest(text), hidden));
    ConcatNil(Offsets(Rest(text), hidden, base + UnitLen(text)));
  }

  method AppendUnit(stripped: bytes, table: seq<nat>, unit: bytes, i: nat) returns (stripped': bytes, table': seq<nat>)
    ensures stripped' == stripped + unit && table' == table + Count(i, |unit|)
  {
    stripped', table' := stripped, table;
    for k := 0 to |unit|
      invariant stripped' == stripped + unit[..k] && table' == table + Count(i, k)
    {
      ConcatAssoc(table, Count(i, k), [i + k]);
      table' := table' + [i + k];
      assert unit[..k + 1] == unit[..k] + [unit[k]];
      stripped' := stripped' + [unit[k]];
    }
    assert unit[..|unit|] == unit;
  }

  lemma {:induction false} AsciiStays(text: bytes, hidden: Hidden, base: nat)
    requires IsAscii(text) && NoneAscii(hidden)
    ensures Strip(text, hidden) == text
    ensures forall k | 0 <= k <= |text| :: Offset(text, hidden, base, k) == base + k
    decreases |text|
  {
    if text != [] {
      assert UnitLen(text) == 1;
      AsciiStays(Rest(text), hidden, base + 1);
      assert text == Unit(text) + Rest(text);
    }
  }

  /** mapCleanOffset: byte cleanOffset of a match that starts at base in the stripped text. */
  function MapCleanOffset(offsets: Option<seq<nat>>, base: nat, cleanOffset: nat): nat
    requires offsets.Some? ==> base + cleanOffset < |offsets.value|
  {
    match offsets
    case None => base + cleanOffset
    case Some(table) => if cleanOffset == 0 then table[base] else table[base + cleanOffset - 1] + 1
  }

  // ------------------------------------------------------------------ ranges and the way back

  lemma {:induction false} OffsetFromBase(text: bytes, hidden: Hidden, base: nat, k: nat)
    requires k <= |Strip(text, hidden)|
    ensures Offset(text, hidden, base, k) == base + Offset(text, hidden, 0, k)
    decreases |text|
  {
    hide UnitLen;
    if text != [] {
      var n, rest := UnitLen(text), Rest(text);
      var k' := if hidden(Unit(text)) then k else k - n;
      if k' >= 0 {
        OffsetFromBase(rest, hidden, base + n, k');
        OffsetFromBase(rest, hidden, n, k');
      }
    }
  }

  /** Where the range that starts at byte a of the stripped text starts, and where one that ends
      at b > 0 ends: after its last byte, not before its next one. */
  function StartOf(text: bytes, hidden: Hidden, a: nat): nat
    requires a < |Strip(text, hidden)|
  {
    Offset(text, hidden, 0, a)
  }

  function EndOf(text: bytes, hidden: Hidden, b: nat): nat
    requires 0 < b <= |Strip(text, hidden)|
  {
    Offset(text, hidden, 0, b - 1) + 1
  }

  /** The character before e is visible. */
  ghost predicate EndsVisible(text: bytes, hidden: Hidden, e: nat) {
    exists p: nat :: EndsAt(text, hidden, p, e)
  }

  predicate EndsAt(text: bytes, hidden: Hidden, p: nat, e: nat) {
    p < e <= |text| && UnitLen(text[p..]) == e - p && !hidden(text[p..e])
  }

  lemma EndsVisibleLater(text: bytes, hidden: Hidden, e: nat)
    requires text != [] && EndsVisible(Rest(text), hidden, e)
    ensures EndsVisible(text, hidden, UnitLen(text) + e)
  {
    hide UnitLen;
    var n := UnitLen(text);
    var p: nat :| EndsAt(Rest(text), hidden, p, e);
    assert text[n + p..] == Rest(text)[p..] && text[n + p..n + e] == Rest(text)[p..e];
    assert EndsAt(text, hidden, n + p, n + e);
  }

  lemma OffsetStep(text: bytes, hidden: Hidden, k: nat)
    requires text != [] && k < |Strip(text, hidden)|
    ensures var rest, n := Rest(text), UnitLen(text);
            && (hidden(Unit(text)) ==>
                  k < |Strip(rest, hidden)| && Offset(text, hidden, 0, k) == n + Offset(rest, hidden, 0, k))
            && (!hidden(Unit(text)) && k < n ==> Offset(text, hidden, 0, k) == k)
            && (!hidden(Unit(text)) && k >= n ==>
                  k - n < |Strip(rest, hidden)| && Offset(text, hidden, 0, k) == n + Offset(rest, hidden, 0, k - n))
  {
    hide UnitLen;
    StripStep(text, hidden, 0);
    if hidden(Unit(text)) {
      OffsetFromBase(Rest(text), hidden, UnitLen(text), k);
    } else if k >= UnitLen(text) {
      OffsetFromBase(Rest(text), hidden, UnitLen(text), k - UnitLen(text));
    }
  }

  lemma {:induction false} RestIsWellFormed(text: bytes)
    requires WellFormed(text) && text != []
    ensures WellFormed(Rest(text))
  {}

  lemma DropTwice<T>(s: seq<T>, n: nat, a: nat, b: nat)
    requires n <= |s| && a <= b <= |s| - n
    ensures s[n..][a..b] == s[n + a..n + b] && s[n..][a..] == s[n + a..]
  {}

  /** A prefix of the text that begins with its first character. */
  lemma {:induction false} PrefixUnit(text: bytes, e: nat)
    requires WellFormed(text) && text != [] && UnitLen(text) <= e <= |text|
    ensures text[..e] != [] && UnitLen(text[..e]) == UnitLen(text) && Unit(text[..e]) == Unit(text)
    ensures Rest(text[..e]) == Rest(text)[..e - UnitLen(text)]
  {
    RuneLenIsLocalPrefix(text, UnitLen(text), e);
  }

  /** A cut of the stripped text does not divide its first character. */
  lemma {:induction false} CutAfterUnit(text: bytes, hidden: Hidden, b: nat)
    requires WellFormed(text) && text != [] && !hidden(Unit(text))
    requires 0 < b <= |Strip(text, hidden)| && CutPoint(Strip(text, hidden), b)
    ensures UnitLen(text) <= b && CutPoint(Strip(Rest(text), hidden), b - UnitLen(text))
  {
    var n := UnitLen(text);
    assert Strip(text, hidden) == Unit(text) + Strip(Rest(text), hidden);
    if b < n {
      NoStartInside(text, b);
    } else if b < |Strip(text, hidden)| {
      assert Strip(text, hidden)[b] == Strip(Rest(text), hidden)[b - n];
    }
  }

  lemma PrefixOfJoin(a: bytes, b: bytes, n: nat)
    requires |a| <= n <= |a| + |b|
    ensures (a + b)[..n] == a + b[..n - |a|] && a + [] == a
  {}

  lemma {:induction false} PrefixStrips(text: bytes, hidden: Hidden, b: nat)
    requires WellFormed(text) && 0 < b <= |Strip(text, hidden)| && CutPoint(Strip(text, hidden), b)
    ensures IsPrefixEnd(text, hidden, b)
    decreases |text|
  {
    hide UnitLen, Strip, Offset, WellFormed, CutPoint, EndsVisible;
    if text == [] {
      Nothing(hidden, 0);
    } else {
      var n, rest := UnitLen(text), Rest(text);
      StripStep(text, hidden, 0);
      OffsetStep(text, hidden, b - 1);
      RestIsWellFormed(text);
      if hidden(Unit(text)) {
        PrefixStrips(rest, hidden, b);
        PrefixLater(text, hidden, EndOf(rest, hidden, b));
      } else {
        CutAfterUnit(text, hidden, b);
        PrefixOfJoin(Unit(text), Strip(rest, hidden), b);
        if b == n {
          LastUnit(text, hidden);
        } else {
          PrefixStrips(rest, hidden, b - n);
          PrefixLater(text, hidden, EndOf(rest, hidden, b - n));
        }
      }
    }
  }

  ghost predicate IsPrefixEnd(text: bytes, hidden: Hidden, b: nat)
    requires 0 < b <= |Strip(text, hidden)|
  {
    var e := EndOf(text, hidden, b);
    0 < e <= |text| && Strip(text[..e], hidden) == Strip(text, hidden)[..b] && EndsVisible(text, hidden, e)
  }

  /** A longer prefix: e bytes of the rest behind the first character. */
  lemma {:induction false} PrefixLater(text: bytes, hidden: Hidden, e: nat)
    requires WellFormed(text) && text != [] && 0 < e <= |Rest(text)| && EndsVisible(Rest(text), hidden, e)
    ensures var n := UnitLen(text);
            && EndsVisible(text, hidden, n + e)
            && Strip(text[..n + e], hidden) == (if hidden(Unit(text)) then [] else Unit(text)) + Strip(Rest(text)[..e], hidden)
  {
    hide UnitLen, Strip, WellFormed, EndsVisible;
    var n := UnitLen(text);
    PrefixUnit(text, n + e);
    var prefix := text[..n + e];
    StripStep(prefix, hidden, 0);
    assert Rest(prefix) == Rest(text)[..e];
    EndsVisibleLater(text, hidden, e);
  }

  lemma {:induction false} LastUnit(text: bytes, hidden: Hidden)
    requires WellFormed(text) && text != [] && !hidden(Unit(text))
    ensures Strip(Unit(text), hidden) == Unit(text) && EndsVisible(text, hidden, UnitLen(text))
  {
    PrefixUnit(text, UnitLen(text));
    StripStep(Unit(text), hidden, 0);
    assert text[0..] == text && text[0..UnitLen(text)] == Unit(text);
    assert EndsAt(text, hidden, 0, UnitLen(text));
  }

  ghost predicate StripsBack(text: bytes, hidden: Hidden, s: nat, e: nat, stripped: bytes) {
    && s < e <= |text| && Strip(text[s..e], hidden) == stripped
    && !hidden(Unit(text[s..])) && EndsVisible(text, hidden, e)
  }

  /** The original range of a range of the stripped text strips back to exactly that range, and
      neither begins nor ends with an invisible character. */
  lemma {:induction false} RangeStripsBack(text: bytes, hidden: Hidden, a: nat, b: nat)
    requires WellFormed(text) && a < b <= |Strip(text, hidden)|
    requires CutPoint(Strip(text, hidden), a) && CutPoint(Strip(text, hidden), b)
    ensures StripsBack(text, hidden, StartOf(text, hidden, a), EndOf(text, hidden, b), Strip(text, hidden)[a..b])
    decreases |text|
  {
    hide UnitLen, Strip, Offset, WellFormed, CutPoint, StripsBack, IsPrefixEnd;
    if text == [] {
      Nothing(hidden, 0);
    } else {
      var n, rest := UnitLen(text), Rest(text);
      StripStep(text, hidden, 0);
      OffsetStep(text, hidden, a);
      OffsetStep(text, hidden, b - 1);
      RestIsWellFormed(text);
      if hidden(Unit(text)) {
        RangeStripsBack(rest, hidden, a, b);
        RangeLater(text, hidden, StartOf(rest, hidden, a), EndOf(rest, hidden, b), Strip(text, hidden)[a..b]);
      } else if a == 0 {
        PrefixStrips(text, hidden, b);
        WholeFrom(text, hidden, b);
      } else {
        CutAfterUnit(text, hidden, a);
        CutAfterUnit(text, hidden, b);
        RangeStripsBack(rest, hidden, a - n, b - n);
        assert (Unit(text) + Strip(rest, hidden))[a..b] == Strip(rest, hidden)[a - n..b - n];
        RangeLater(text, hidden, StartOf(rest, hidden, a - n), EndOf(rest, hidden, b - n), Strip(text, hidden)[a..b]);
      }
    }
  }

  lemma RangeLater(text: bytes, hidden: Hidden, s: nat, e: nat, stripped: bytes)
    requires text != [] && StripsBack(Rest(text), hidden, s, e, stripped)
    ensures StripsBack(text, hidden, UnitLen(text) + s, UnitLen(text) + e, stripped)
  {
    hide UnitLen, Strip, EndsVisible;
    EndsVisibleLater(text, hidden, e);
    DropTwice(text, UnitLen(text), s, e);
  }

  lemma {:induction false} WholeFrom(text: bytes, hidden: Hidden, b: nat)
    requires text != [] && !hidden(Unit(text)) && 0 < b <= |Strip(text, hidden)| && IsPrefixEnd(text, hidden, b)
    ensures StripsBack(text, hidden, 0, EndOf(text, hidden, b), Strip(text, hidden)[0..b])
  {
    hide UnitLen, Strip, EndsVisible, Offset;
    var e, stripped := EndOf(text, hidden, b), Strip(text, hidden);
    assert text[0..e] == text[..e] && text[0..] == text && stripped[0..b] == stripped[..b];
  }

  lemma {:induction false} OffsetsGrow(text: bytes, hidden: Hidden, base: nat, j: nat, k: nat)
    requires j < k <= |Strip(text, hidden)|
    ensures base <= Offset(text, hidden, base, j) < Offset(text, hidden, base, k) <= base + |text|
    decreases |text|
  {
    hide UnitLen;
    var n, rest := UnitLen(text), Rest(text);
    StripStep(text, hidden, base);
    if hidden(Unit(text)) {
      OffsetsGrow(rest, hidden, base + n, j, k);
    } else if j >= n {
      OffsetsGrow(rest, hidden, base + n, j - n, k - n);
    } else if k >= n {
      OffsetBounds(rest, hidden, base + n, k - n);
    }
  }

  lemma {:induction false} OffsetBounds(text: bytes, hidden: Hidden, base: nat, k: nat)
    requires k <= |Strip(text, hidden)|
    ensures base <= Offset(text, hidden, base, k) <= base + |text|
    decreases |text|
  {
    hide UnitLen;
    if text != [] {
      var n, rest := UnitLen(text), Rest(text);
      StripStep(text, hidden, base);
      if hidden(Unit(text)) {
        OffsetBounds(rest, hidden, base + n, k);
      } else if k >= n {
        OffsetBounds(rest, hidden, base + n, k - n);
      }
    }
  }

  /** Ranges that follow each other in the stripped text do so in the original. */
  lemma {:induction false} RangesStayApart(text: bytes, hidden: Hidden, b: nat, a: nat)
    requires 0 < b <= a < |Strip(text, hidden)|
    ensures EndOf(text, hidden, b) <= StartOf(text, hidden, a)
  {
    OffsetsGrow(text, hidden, 0, b - 1, a);
  }

  // ------------------------------------------------------------------ the table

  /** What the detectors compute from the table of offsets is this range, with or without a table. */
  lemma {:induction false} MapIsRange(text: bytes, hidden: Hidden, offsets: Option<seq<nat>>, a: nat, b: nat)
    requires NoneAscii(hidden) && a < b <= |Strip(text, hidden)|
    requires offsets == if IsAscii(text) then None else Some(Offsets(text, hidden, 0))
    ensures offsets.Some? ==> |offsets.value| == |Strip(text, hidden)| + 1
    ensures MapCleanOffset(offsets, a, 0) == StartOf(text, hidden, a)
    ensures MapCleanOffset(offsets, a, b - a) == EndOf(text, hidden, b)
  {
    if IsAscii(text) {
      AsciiStays(text, hidden, 0);
    } else {
      OffsetAt(text, hidden, 0, a);
      OffsetAt(text, hidden, 0, b - 1);
    }
  }

  /** A candidate found in the stripped text leads back to original text that strips to it. */
  lemma {:induction false} CandidateLeadsBack(text: bytes, hidden: Hidden, offsets: Option<seq<nat>>, a: nat, b: nat)
    requires NoneAscii(hidden) && WellFormed(text) && a < b <= |Strip(text, hidden)|
    requires CutPoint(Strip(text, hidden), a) && CutPoint(Strip(text, hidden), b)
    requires offsets == if IsAscii(text) then None else Some(Offsets(text, hidden, 0))
    ensures offsets.Some? ==> |offsets.value| == |Strip(text, hidden)| + 1
    ensures var s, e := MapCleanOffset(offsets, a, 0), MapCleanOffset(offsets, a, b - a);
            StripsBack(text, hidden, s, e, Strip(text, hidden)[a..b])
  {
    MapIsRange(text, hidden, offsets, a, b);
    RangeStripsBack(text, hidden, a, b);
  }
}

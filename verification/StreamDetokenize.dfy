/**
 The streaming law for Detokenize itself: text that arrives in any chunks is restored to the same
 bytes as the whole text, for every token map. The shapes of private keys and Aadhaar numbers contain
 boundary bytes: what matters for them is that no cut falls inside a match. StreamLimits says exactly
 when one does.
 */
module StreamDetokenize {
  import opened Bytes
  import opened Scanning
  import opened Restore
  import opened RestoreSplit
  import opened TokenShapes
  import opened ExactShapes
  import opened Stream

  ghost predicate AllSeparable(passes: seq<Pass>) {
    forall p | p in passes :: Separable(p) && Proper(p)
  }

  function Restorer(passes: seq<Pass>): bytes -> bytes
    requires forall p | p in passes :: Proper(p)
  {
    (text: bytes) => Detokenize(passes, text)
  }

  lemma RestorerDistributes(passes: seq<Pass>)
    requires AllSeparable(passes)
    ensures Distributes(Restorer(passes))
  {
    DetokenizeEmpty(passes);
    forall a, b | Closed(a)
      ensures Restorer(passes)(a + b) == Restorer(passes)(a) + Restorer(passes)(b)
    {
      DetokenizeSplits(passes, a, b);
    }
  }

  /** The law for passes whose shapes contain no boundary byte, such as the five structured ones. */
  lemma {:induction false} StreamedDetokenize(passes: seq<Pass>, arrivals: seq<Arrival>)
    requires AllSeparable(passes) && AllAligned([], arrivals) && RunsShort(Received(arrivals))
    ensures Sent(Restorer(passes), [], arrivals) == Detokenize(passes, Received(arrivals))
  {
    RestorerDistributes(passes);
    ConcatNil(Received(arrivals));
    StreamedEqualsWhole(Restorer(passes), [], [], arrivals);
  }

  // ------------------------------------------------------------------ all shapes

  function Full(l: Lookups): seq<Pass> { Passes(l, Join(ALL_GROUPS)) }

  lemma AllShapesTakeSomething()
    ensures AllTake(Join(ALL_GROUPS)) && AllSeated(Join(ALL_GROUPS))
  {
    hide Join, AllTake, AllPlaced, AllSeated;
    GroupsPlaced();
    SpacedSeated();
    forall i | 0 <= i < |ALL_GROUPS|
      ensures AllTake(ALL_GROUPS[i]) && AllSeated(ALL_GROUPS[i])
    {
      FromGroups(i);
      if ALL_GROUPS[i] in COMPACT_GROUPS {
        var k :| 0 <= k < |COMPACT_GROUPS| && COMPACT_GROUPS[k] == ALL_GROUPS[i];
        PlacedTake(COMPACT_GROUPS[k]);
      }
    }
    JoinTakes(ALL_GROUPS);
  }

  lemma FromGroups(i: nat)
    requires i < |ALL_GROUPS|
    ensures ALL_GROUPS[i] == [PEM] || ALL_GROUPS[i] == [AADHAAR] || ALL_GROUPS[i] in COMPACT_GROUPS
  {}

  lemma PlacedTake(alts: seq<Alt>)
    requires AllPlaced(alts)
    ensures AllTake(alts) && AllSeated(alts)
  {}

  lemma SpacedSeated()
    ensures AllTake([PEM]) && AllTake([AADHAAR]) && AllSeated([PEM]) && AllSeated([AADHAAR])
  {}

  lemma {:induction false} JoinTakes(groups: seq<seq<Alt>>)
    requires forall i | 0 <= i < |groups| :: AllTake(groups[i]) && AllSeated(groups[i])
    ensures AllTake(Join(groups)) && AllSeated(Join(groups))
  {
    if groups != [] {
      JoinTakes(groups[1..]);
    }
  }

  lemma {:induction false} InJoin(groups: seq<seq<Alt>>, alt: Alt)
    requires alt in Join(groups)
    ensures exists i :: 0 <= i < |groups| && alt in groups[i]
  {
    if alt !in groups[0] {
      InJoin(groups[1..], alt);
      var i :| 0 <= i < |groups[1..]| && alt in groups[1..][i];
      assert groups[i + 1] == groups[1..][i];
    }
  }

  lemma FullIsProper(l: Lookups)
    ensures forall p | p in Full(l) :: Proper(p)
    ensures forall p | p in StructuredPasses(l) :: Proper(p)
  {
    hide AllTake, AllSeated, Join, StructuredPasses;
    AllShapesTakeSomething();
    StructuredTake(l);
  }

  lemma StructuredTake(l: Lookups)
    ensures forall p | p in StructuredPasses(l) :: Proper(p)
  {}

  /** Detokenize with all its passes. */
  function Detokenized(l: Lookups, text: bytes): bytes {
    FullIsProper(l);
    Detokenize(Full(l), text)
  }

  lemma DetokenizedIs(l: Lookups, text: bytes)
    ensures (forall p | p in Full(l) :: Proper(p)) && Detokenized(l, text) == Detokenize(Full(l), text)
  {
    FullIsProper(l);
    hide Full, Detokenize;
  }

  lemma {:induction false} DetokenizeConcat(a: seq<Pass>, b: seq<Pass>, text: bytes)
    requires forall p | p in a + b :: Proper(p)
    ensures (forall p | p in a :: Proper(p)) && (forall p | p in b :: Proper(p))
    ensures Detokenize(a + b, text) == Detokenize(b, Detokenize(a, text))
  {
    forall p | p in a ensures p in a + b {}
    forall p | p in b ensures p in a + b {}
    if a == [] {
      ConcatNil(b);
    } else {
      ConsConcat(a, b);
      DetokenizeConcat(a[1..], b, RunPass(a[0], text));
    }
  }

  /** The text as the credential pass sees it. */
  function Structured(l: Lookups, text: bytes): bytes {
    FullIsProper(l);
    Detokenize(StructuredPasses(l), text)
  }

  lemma {:induction false} DetokenizeOne(p: Pass, text: bytes)
    requires Proper(p)
    ensures Detokenize([p], text) == RunPass(p, text)
  {}

  // ------------------------------------------------------------------ one cut

  /** No match of the two shapes with boundary bytes inside goes over the cut. */
  predicate Uncrossed(a: bytes, b: bytes) {
    !Crosses(PEM, a, b) && !Crosses(AADHAAR, a, b)
  }

  lemma SpacedAreRigid()
    ensures Rigid(PEM) && Rigid(AADHAAR)
  {}

  /** All credential shapes at a cut. */
  lemma AllShapesAreLocal(a: bytes, b: bytes)
    requires Closed(a) && Uncrossed(a, b)
    ensures AllLocal(Join(ALL_GROUPS), a, b)
  {
    hide Join, Local, AllPlaced, Rigid, Crosses, Closed;
    SpacedAreRigid();
    GroupsPlaced();
    forall alt | alt in Join(ALL_GROUPS)
      ensures Local(alt, a, b)
    {
      InJoin(ALL_GROUPS, alt);
      var i :| 0 <= i < |ALL_GROUPS| && alt in ALL_GROUPS[i];
      FromGroups(i);
      if alt == PEM || alt == AADHAAR {
        RigidIsLocal(alt, a, b);
      } else {
        var k :| 0 <= k < |COMPACT_GROUPS| && COMPACT_GROUPS[k] == ALL_GROUPS[i];
        PlacedIsCompact(COMPACT_GROUPS[k], alt);
        CompactIsLocal(alt, a, b);
      }
    }
  }

  lemma PlacedIsCompact(alts: seq<Alt>, alt: Alt)
    requires AllPlaced(alts) && alt in alts
    ensures Compact(alt)
  {}

  lemma StructuredSplits(l: Lookups, a: bytes, b: bytes)
    requires SuffixesFree(l) && Closed(a)
    ensures Structured(l, a + b) == Structured(l, a) + Structured(l, b)
    ensures Closed(Structured(l, a))
  {
    StructuredAreSeparable(l);
    hide SuffixesFree, Closed, Separable, Proper, StructuredPasses, Detokenize;
    DetokenizeSplits(StructuredPasses(l), a, b);
    StructuredKeepsClose(StructuredPasses(l), a);
  }

  lemma {:induction false} StructuredKeepsClose(passes: seq<Pass>, a: bytes)
    requires AllSeparable(passes) && Closed(a)
    ensures Closed(Detokenize(passes, a))
  {
    if passes != [] {
      RunPassSplits(passes[0], a, []);
      StructuredKeepsClose(passes[1..], RunPass(passes[0], a));
    }
  }

  lemma {:induction false} FullIs(l: Lookups, text: bytes)
    ensures (forall p | p in Full(l) :: Proper(p)) && Proper(Pass(Join(ALL_GROUPS), PlainRule(l)))
    ensures Detokenize(Full(l), text) == RunPass(Pass(Join(ALL_GROUPS), PlainRule(l)), Structured(l, text))
  {
    FullIsProper(l);
    AllShapesTakeSomething();
    hide RunPass, AllTake, Join, StructuredPasses;
    var all := Pass(Join(ALL_GROUPS), PlainRule(l));
    DetokenizeConcat(StructuredPasses(l), [all], text);
    DetokenizeOne(all, Structured(l, text));
  }

  /** Restoring distributes over a cut after a boundary byte that no match goes over. */
  lemma FullSplits(l: Lookups, x: bytes, y: bytes)
    requires SuffixesFree(l) && Closed(x) && Uncrossed(Structured(l, x), Structured(l, y))
    ensures forall p | p in Full(l) :: Proper(p)
    ensures Detokenize(Full(l), x + y) == Detokenize(Full(l), x) + Detokenize(Full(l), y)
  {
    AllShapesTakeSomething();
    SeatedDoNotClash(Join(ALL_GROUPS));
    hide RunPass, AllTake, AllSeated, NoClash, Join, Structured, Detokenize, Full, SuffixesFree, Closed, Uncrossed, AllLocal;
    FullIs(l, x + y);
    FullIs(l, x);
    FullIs(l, y);
    StructuredSplits(l, x, y);
    AllShapesAreLocal(Structured(l, x), Structured(l, y));
    UncrossedPassSplits(Pass(Join(ALL_GROUPS), PlainRule(l)), Structured(l, x), Structured(l, y));
  }

  // ------------------------------------------------------------------ the law for the whole Detokenize

  /** No cut of the stream falls inside a match of the two shapes with boundary bytes. */
  ghost predicate CutsUncrossed(l: Lookups, buf: bytes, arrivals: seq<Arrival>)
    decreases |arrivals|
  {
    if arrivals == [] then true
    else
      var b := buf + arrivals[0].delta;
      var cut := Cut(arrivals[0].spans, b);
      && (cut > 0 ==> Uncrossed(Structured(l, b[..cut]), Structured(l, b[cut..] + Received(arrivals[1..]))))
      && CutsUncrossed(l, b[cut..], arrivals[1..])
  }

  /** gone is what was sent before. */
  lemma {:induction false} SentIsDetokenized(l: Lookups, gone: bytes, buf: bytes, arrivals: seq<Arrival>)
    requires SuffixesFree(l) && AllAligned(gone + buf, arrivals) && RunsShort(buf + Received(arrivals))
    requires CutsUncrossed(l, buf, arrivals)
    ensures forall p | p in Full(l) :: Proper(p)
    ensures Sent(Restorer(Full(l)), buf, arrivals) == Detokenize(Full(l), buf + Received(arrivals))
    decreases |arrivals|
  {
    FullIsProper(l);
    hide Full, Proper, SuffixesFree, RunsShort, Closed, Cut, Aligned, Uncrossed, Structured, Detokenize;
    if arrivals == [] {
      ConcatNil(buf);
      NothingDetokenized(l);
    } else {
      var b, more := buf + arrivals[0].delta, Received(arrivals[1..]);
      var cut := Cut(arrivals[0].spans, b);
      DeltaIsClosed(gone, buf, arrivals);
      SplitAt(b, cut, more);
      SentIsDetokenized(l, gone + b[..cut], b[cut..], arrivals[1..]);
      if cut > 0 {
        FullSplits(l, b[..cut], b[cut..] + more);
      } else {
        ConcatNil(Detokenize(Full(l), b + more));
      }
    }
  }

  lemma NothingDetokenized(l: Lookups)
    ensures (forall p | p in Full(l) :: Proper(p)) && Detokenize(Full(l), []) == []
  {
    FullIsProper(l);
    DetokenizeEmpty(Full(l));
  }

  /** The law. For every token map and every way of cutting the text: what is sent is the whole text
      restored, when the echoed suffixes contain no boundary byte, unbroken runs are at most 128 bytes,
      spans with boundary bytes inside stand at the start of the text or behind a boundary byte, and no
      cut falls inside a match of the two spaced shapes. */
  lemma {:induction false} StreamedEqualsDetokenized(l: Lookups, arrivals: seq<Arrival>)
    requires SuffixesFree(l) && AllAligned([], arrivals) && RunsShort(Received(arrivals))
    requires CutsUncrossed(l, [], arrivals)
    ensures forall p | p in Full(l) :: Proper(p)
    ensures Sent(Restorer(Full(l)), [], arrivals) == Detokenize(Full(l), Received(arrivals))
  {
    ConcatNil(Received(arrivals));
    SentIsDetokenized(l, [], [], arrivals);
  }

  // ------------------------------------------------------------------ texts without the spaced shapes

  /** Neither of the two shapes with boundary bytes matches anywhere. */
  predicate NoSpaced(text: bytes) {
    forall q: nat | q <= |text| :: OneAt(PEM, text, q).None? && OneAt(AADHAAR, text, q).None?
  }

  lemma OneBehindCut(alt: Alt, x: bytes, y: bytes, q: nat)
    requires Closed(x) && q <= |y| && OneAt(alt, y, q).Some?
    ensures OneAt(alt, x + y, |x| + q).Some? || OneAt(alt, x + y, |x| + q - 1).Some?
  {
    assert (x + y)[|x| + q..] == y[q..];
    if q < |y| {
      assert (x + y)[|x| + q + 1..] == y[q + 1..];
    }
    assert y[0..] == y;
  }

  lemma NoSpacedBehind(x: bytes, y: bytes)
    requires Closed(x) && NoSpaced(x + y)
    ensures NoSpaced(y) && Uncrossed(x, y)
  {
    forall q: nat | q <= |y|
      ensures OneAt(PEM, y, q).None? && OneAt(AADHAAR, y, q).None?
    {
      if OneAt(PEM, y, q).Some? {
        OneBehindCut(PEM, x, y, q);
      }
      if OneAt(AADHAAR, y, q).Some? {
        OneBehindCut(AADHAAR, x, y, q);
      }
    }
  }

  /** In a text without the spaced shapes no cut falls inside one. */
  lemma {:induction false} WithoutSpacedUncrossed(l: Lookups, gone: bytes, buf: bytes, arrivals: seq<Arrival>)
    requires SuffixesFree(l) && AllAligned(gone + buf, arrivals) && RunsShort(buf + Received(arrivals))
    requires NoSpaced(Structured(l, buf + Received(arrivals)))
    ensures CutsUncrossed(l, buf, arrivals)
    decreases |arrivals|
  {
    hide SuffixesFree, RunsShort, Closed, Cut, Aligned, Uncrossed, Structured, NoSpaced;
    if arrivals != [] {
      var b, more := buf + arrivals[0].delta, Received(arrivals[1..]);
      var cut := Cut(arrivals[0].spans, b);
      DeltaIsClosed(gone, buf, arrivals);
      SplitAt(b, cut, more);
      if cut > 0 {
        StructuredSplits(l, b[..cut], b[cut..] + more);
        NoSpacedBehind(Structured(l, b[..cut]), Structured(l, b[cut..] + more));
      }
      WithoutSpacedUncrossed(l, gone + b[..cut], b[cut..], arrivals[1..]);
    }
  }

  /** The law for texts in which neither spaced shape occurs and no registered span is opened. */
  lemma {:induction false} StreamedWithoutSpaced(l: Lookups, arrivals: seq<Arrival>)
    requires SuffixesFree(l) && RunsShort(Received(arrivals)) && NoSpaced(Structured(l, Received(arrivals)))
    requires forall n | 0 <= n < |arrivals| :: Unopened(arrivals[n].spans, Received(arrivals))
    ensures forall p | p in Full(l) :: Proper(p)
    ensures Sent(Restorer(Full(l)), [], arrivals) == Detokenize(Full(l), Received(arrivals))
  {
    ConcatNil(Received(arrivals));
    UnopenedAlign([], arrivals);
    WithoutSpacedUncrossed(l, [], [], arrivals);
    StreamedEqualsDetokenized(l, arrivals);
  }
}

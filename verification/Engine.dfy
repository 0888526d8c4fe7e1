/**
 Tokenize (internal/redact/engine.go): detect, filter, resolve overlaps, substitute, and scan the
 result once more for blocked words. The detectors, allow patterns and block patterns are any
 functions of the text; the cache in front is modelled in TokenizeCache.
 */
module Engines {
  import opened Bytes
  import opened Scanning
  import opened SpanTries
  import opened Splicing
  import opened Minting
  import opened StoreStates
  import opened TokenStores
  import opened Detections
  import opened Filters
  import opened Substitution
  import Utf8

  /** detect is collectDetections: all detections of all detectors, or the error of one of them.
      Each entry of blocks is a block pattern's FindAllStringIndex. */
  datatype Config = Config(
    detect: bytes -> Option<seq<Detection>>,
    allow: seq<bytes -> bool>,
    blocks: seq<bytes -> seq<Span>>)

  /** What the outside decides: which mints fail, and the random candidates for blocked words. */
  datatype Oracle = Oracle(faults: nat -> bool, blockFaults: nat -> bool, draws: nat -> nat -> bytes)

  predicate FitLocs(locs: seq<Span>, n: nat) {
    forall i | 0 <= i < |locs| :: locs[i].start <= locs[i].end <= n
  }

  /** Detectors report ranges of their text, with at least one value to look up. */
  ghost predicate Fit(c: Config) {
    && (forall text | c.detect(text).Some? :: Named(c.detect(text).value) && InText(c.detect(text).value, |text|))
    && (forall i, text | 0 <= i < |c.blocks| :: FitLocs(c.blocks[i](text), |text|))
  }

  // ------------------------------------------------------------------ blocked words

  const BLOCK_PREFIX: bytes := "tok-blocked-"

  predicate IsToken(value: bytes) { HasPrefix(value, BLOCK_PREFIX) }

  /** The tokens minted for blocked words begin like this (internal/tokenstore/generator.go). */
  predicate BeginsLikeToken(value: bytes) { |value| >= 12 && value[..12] == "tok-blocked-" }

  lemma TokensBeginLikeIt(value: bytes)
    ensures IsToken(value) <==> BeginsLikeToken(value)
  {}

  function BlockDetection(text: bytes, loc: Span, draw: nat -> bytes): Detection
    requires loc.start <= loc.end <= |text|
  {
    Detection(loc.start, loc.end, [Request(text[loc.start..loc.end], Random("custom_block"), draw)], None, false)
  }

  /** found, and the first n matches of one pattern. */
  function FoundBy(text: bytes, locs: seq<Span>, draws: nat -> nat -> bytes, found: seq<Detection>, n: nat): seq<Detection>
    requires n <= |locs| && FitLocs(locs, |text|)
  {
    if n == 0 then found
    else
      var before := FoundBy(text, locs, draws, found, n - 1);
      if IsToken(text[locs[n - 1].start..locs[n - 1].end]) then before
      else before + [BlockDetection(text, locs[n - 1], draws(|before|))]
  }

  function BlockDetections(text: bytes, blocks: seq<bytes -> seq<Span>>, draws: nat -> nat -> bytes, n: nat): seq<Detection>
    requires n <= |blocks| && forall i | 0 <= i < |blocks| :: FitLocs(blocks[i](text), |text|)
  {
    if n == 0 then []
    else FoundBy(text, blocks[n - 1](text), draws, BlockDetections(text, blocks, draws, n - 1), |blocks[n - 1](text)|)
  }

  method DetectBlocked(text: bytes, blocks: seq<bytes -> seq<Span>>, draws: nat -> nat -> bytes) returns (out: seq<Detection>)
    requires forall i | 0 <= i < |blocks| :: FitLocs(blocks[i](text), |text|)
    ensures out == BlockDetections(text, blocks, draws, |blocks|)
  {
    out := [];
    for i := 0 to |blocks|
      invariant out == BlockDetections(text, blocks, draws, i)
    {
      var locs := blocks[i](text);
      ghost var before := out;
      for k := 0 to |locs|
        invariant out == FoundBy(text, locs, draws, before, k)
      {
        if !IsToken(text[locs[k].start..locs[k].end]) {
          out := out + [BlockDetection(text, locs[k], draws(|out|))];
        }
      }
    }
  }

  /** A detection of a blocked word as the detector makes it. */
  ghost predicate IsBlock(d: Detection, text: bytes) {
    && d.start <= d.end <= |text| && |d.lookups| == 1 && d.lookups[0].value == text[d.start..d.end]
    && d.format.None? && !d.preserve
  }

  ghost predicate AllBlocks(dets: seq<Detection>, text: bytes) {
    forall i | 0 <= i < |dets| :: IsBlock(dets[i], text)
  }

  ghost predicate DetectedAt(dets: seq<Detection>, loc: Span) {
    exists i :: 0 <= i < |dets| && dets[i].start == loc.start && dets[i].end == loc.end
  }

  /** The first n matches are detected unless they are tokens already. */
  ghost predicate Covered(text: bytes, locs: seq<Span>, dets: seq<Detection>, n: nat)
    requires FitLocs(locs, |text|) && n <= |locs|
  {
    forall k | 0 <= k < n :: IsToken(text[locs[k].start..locs[k].end]) || DetectedAt(dets, locs[k])
  }

  lemma CoveredByMore(text: bytes, locs: seq<Span>, dets: seq<Detection>, more: seq<Detection>, n: nat)
    requires FitLocs(locs, |text|) && n <= |locs| && Covered(text, locs, dets, n) && dets <= more
    ensures Covered(text, locs, more, n)
  {
    forall k | 0 <= k < n && DetectedAt(dets, locs[k])
      ensures DetectedAt(more, locs[k])
    {
      var i :| 0 <= i < |dets| && dets[i].start == locs[k].start && dets[i].end == locs[k].end;
      assert more[i] == dets[i];
    }
  }

  lemma {:induction false} FoundAreBlocks(text: bytes, locs: seq<Span>, draws: nat -> nat -> bytes, found: seq<Detection>, n: nat)
    requires n <= |locs| && FitLocs(locs, |text|) && AllBlocks(found, text)
    ensures var now := FoundBy(text, locs, draws, found, n);
            found <= now && AllBlocks(now, text) && Covered(text, locs, now, n)
  {
    hide IsToken;
    if n > 0 {
      FoundAreBlocks(text, locs, draws, found, n - 1);
      var before, now := FoundBy(text, locs, draws, found, n - 1), FoundBy(text, locs, draws, found, n);
      CoveredByMore(text, locs, before, now, n - 1);
      if !IsToken(text[locs[n - 1].start..locs[n - 1].end]) {
        assert now[|before|] == BlockDetection(text, locs[n - 1], draws(|before|));
        assert DetectedAt(now, locs[n - 1]);
      }
    }
  }

  /** Every match that is not yet a token is detected, and nothing else is. */
  lemma {:induction false} BlocksAreFound(text: bytes, blocks: seq<bytes -> seq<Span>>, draws: nat -> nat -> bytes, n: nat)
    requires n <= |blocks| && forall i | 0 <= i < |blocks| :: FitLocs(blocks[i](text), |text|)
    ensures AllBlocks(BlockDetections(text, blocks, draws, n), text)
    ensures forall i | 0 <= i < n :: Covered(text, blocks[i](text), BlockDetections(text, blocks, draws, n), |blocks[i](text)|)
  {
    if n > 0 {
      BlocksAreFound(text, blocks, draws, n - 1);
      var before, now := BlockDetections(text, blocks, draws, n - 1), BlockDetections(text, blocks, draws, n);
      FoundAreBlocks(text, blocks[n - 1](text), draws, before, |blocks[n - 1](text)|);
      forall i | 0 <= i < n - 1
        ensures Covered(text, blocks[i](text), now, |blocks[i](text)|)
      {
        CoveredByMore(text, blocks[i](text), before, now, |blocks[i](text)|);
      }
    }
  }

  // ------------------------------------------------------------------ one pass

  ghost function Remaining(s: State, text: bytes, found: seq<Detection>, allow: seq<bytes -> bool>): seq<Detection> {
    Without(Without(found, Allowed(allow)), Touching(s.spans, text))
  }

  /** What is left of the detections once they are filtered and their overlaps resolved. */
  ghost function Chosen(s: State, text: bytes, found: seq<Detection>, allow: seq<bytes -> bool>): seq<Detection> {
    var dets := Remaining(s, text, found, allow);
    Pick(dets, Kept(dets))
  }

  lemma RemainingIsFit(s: State, text: bytes, found: seq<Detection>, allow: seq<bytes -> bool>)
    requires Named(found) && InText(found, |text|)
    ensures Named(Remaining(s, text, found, allow)) && InText(Remaining(s, text, found, allow), |text|)
  {
    forall i | 0 <= i < |Remaining(s, text, found, allow)|
      ensures var d := Remaining(s, text, found, allow)[i]; d.lookups != [] && d.start <= d.end <= |text|
    {
      var d := Remaining(s, text, found, allow)[i];
      KeepsTheRest(Without(found, Allowed(allow)), Touching(s.spans, text), d);
      KeepsTheRest(found, Allowed(allow), d);
    }
  }

  lemma ChosenIsFit(s: State, text: bytes, found: seq<Detection>, allow: seq<bytes -> bool>)
    requires Named(found) && InText(found, |text|)
    ensures var dets := Chosen(s, text, found, allow); Named(dets) && InText(dets, |text|) && InOrder(dets)
  {
    RemainingIsFit(s, text, found, allow);
    KeptResolves(Remaining(s, text, found, allow), |text|);
  }

  /** One pass: filter, resolve, substitute. */
  ghost function Pass(s: State, text: bytes, found: seq<Detection>, allow: seq<bytes -> bool>, faults: nat -> bool): Progress
    requires Named(found) && InText(found, |text|)
  {
    ChosenIsFit(s, text, found, allow);
    Apply(s, Chosen(s, text, found, allow), faults)
  }

  lemma {:induction false} PassIsOrdered(s: State, text: bytes, found: seq<Detection>, allow: seq<bytes -> bool>, faults: nat -> bool)
    requires Named(found) && InText(found, |text|)
    ensures Ordered(Pass(s, text, found, allow, faults).edits, 0, |text|)
  {
    ChosenIsFit(s, text, found, allow);
    var dets := Chosen(s, text, found, allow);
    AllOrdered(s, dets, Established(dets, |dets|), faults, |text|);
  }

  method RunPass(store: Store, text: bytes, found: seq<Detection>, allow: seq<bytes -> bool>, faults: nat -> bool)
    returns (result: Option<bytes>, cacheable: bool)
    requires store.Valid() && Named(found) && InText(found, |text|)
    modifies store, store.spanTrie, store.spanTrie.nodes.Values
    ensures store.Valid() && fresh(store.spanTrie.nodes.Values - old(store.spanTrie.nodes.Values))
    ensures var p := Pass(old(store.Model()), text, found, allow, faults);
            && store.Model() == p.state
            && Ordered(p.edits, 0, |text|)
            && result == if p.ok then Some(Splice(text, p.edits, 0)) else None
    ensures result.Some? ==>
              (cacheable <==> forall d | d in Chosen(old(store.Model()), text, found, allow) :: !d.preserve)
  {
    hide SpanTrie.Valid, Apply, Ordered, Splice;
    var dets := FilterAllowed(found, allow);
    dets := FilterAlreadyTokenized(store, dets, text);
    dets := ResolveOverlaps(dets);
    ChosenIsFit(store.Model(), text, found, allow);
    result, cacheable := ApplyDetections(store, text, dets, faults);
  }

  // ------------------------------------------------------------------ the pipeline

  /** The two passes of a call, and what it returns. */
  datatype Trace = Trace(first: Progress, second: Progress, result: Option<bytes>)

  /** What blockListSafetyPass finds in the substituted text. */
  function Survivors(c: Config, o: Oracle, text: bytes): (found: seq<Detection>)
    requires forall i | 0 <= i < |c.blocks| :: FitLocs(c.blocks[i](text), |text|)
    ensures Named(found) && InText(found, |text|)
  {
    BlocksAreFound(text, c.blocks, o.draws, |c.blocks|);
    BlockDetections(text, c.blocks, o.draws, |c.blocks|)
  }

  ghost function Traced(s: State, c: Config, o: Oracle, text: bytes): Trace
    requires Fit(c)
  {
    var nothing := Progress(s, [], false);
    if !Utf8.WellFormed(text) || c.detect(text).None? then Trace(nothing, nothing, None)
    else
      var p := Pass(s, text, c.detect(text).value, c.allow, o.faults);
      PassIsOrdered(s, text, c.detect(text).value, c.allow, o.faults);
      if !p.ok then Trace(p, Progress(p.state, [], false), None)
      else
        var mid := Splice(text, p.edits, 0);
        var found := Survivors(c, o, mid);
        var q := Pass(p.state, mid, found, c.allow, o.blockFaults);
        PassIsOrdered(p.state, mid, found, c.allow, o.blockFaults);
        Trace(p, q, if q.ok then Some(Splice(mid, q.edits, 0)) else None)
  }

  /** The detections that are left for the first pass. */
  ghost function Found(s: State, c: Config, text: bytes): seq<Detection>
    requires c.detect(text).Some?
  {
    Chosen(s, text, c.detect(text).value, c.allow)
  }

  ghost function FirstEdits(s: State, c: Config, o: Oracle, text: bytes): (edits: seq<Edit>)
    requires Fit(c) && c.detect(text).Some?
    ensures Ordered(edits, 0, |text|)
  {
    PassIsOrdered(s, text, c.detect(text).value, c.allow, o.faults);
    Pass(s, text, c.detect(text).value, c.allow, o.faults).edits
  }

  /** The text between the two passes. */
  ghost function Substituted(s: State, c: Config, o: Oracle, text: bytes): bytes
    requires Fit(c) && c.detect(text).Some?
  {
    Splice(text, FirstEdits(s, c, o, text), 0)
  }

  /** The two passes, one after the other. */
  lemma {:induction false} TracedInSteps(s: State, c: Config, o: Oracle, text: bytes)
    requires Fit(c) && Utf8.WellFormed(text) && c.detect(text).Some?
    ensures var t, mid := Traced(s, c, o, text), Substituted(s, c, o, text);
            var found := Survivors(c, o, mid);
            && t.first == Pass(s, text, c.detect(text).value, c.allow, o.faults)
            && (t.first.ok ==> t.second == Pass(t.first.state, mid, found, c.allow, o.blockFaults))
            && (t.first.ok ==> Ordered(t.second.edits, 0, |mid|))
            && t.result == if t.first.ok && t.second.ok then Some(Splice(mid, t.second.edits, 0)) else None
  {
    hide Pass, Splice, Survivors;
    var p := Pass(s, text, c.detect(text).value, c.allow, o.faults);
    PassIsOrdered(s, text, c.detect(text).value, c.allow, o.faults);
    PassIsOrdered(p.state, Substituted(s, c, o, text), Survivors(c, o, Substituted(s, c, o, text)), c.allow, o.blockFaults);
  }

  /** The engine: Tokenize on the configuration it was given, without the cache. */
  method Tokenize(store: Store, c: Config, o: Oracle, text: bytes) returns (result: Option<bytes>)
    requires store.Valid() && Fit(c)
    modifies store, store.spanTrie, store.spanTrie.nodes.Values
    ensures store.Valid() && fresh(store.spanTrie.nodes.Values - old(store.spanTrie.nodes.Values))
    ensures result == Traced(old(store.Model()), c, o, text).result
    ensures store.Model() == Traced(old(store.Model()), c, o, text).second.state
  {
    hide SpanTrie.Valid, Pass, Ordered, Splice, Survivors;
    if !Utf8.WellFormed(text) {
      return None;
    }
    var found := c.detect(text);
    if found.None? {
      return None;
    }
    var cacheable;
    result, cacheable := RunPass(store, text, found.value, c.allow, o.faults);
    if result.Some? {
      result := BlockListSafetyPass(store, c, o, result.value);
    }
  }

  method BlockListSafetyPass(store: Store, c: Config, o: Oracle, text: bytes) returns (result: Option<bytes>)
    requires store.Valid() && forall i | 0 <= i < |c.blocks| :: FitLocs(c.blocks[i](text), |text|)
    modifies store, store.spanTrie, store.spanTrie.nodes.Values
    ensures store.Valid() && fresh(store.spanTrie.nodes.Values - old(store.spanTrie.nodes.Values))
    ensures var q := Pass(old(store.Model()), text, Survivors(c, o, text), c.allow, o.blockFaults);
            && store.Model() == q.state
            && Ordered(q.edits, 0, |text|)
            && result == if q.ok then Some(Splice(text, q.edits, 0)) else None
  {
    var found := DetectBlocked(text, c.blocks, o.draws);
    assert found == Survivors(c, o, text);
    hide SpanTrie.Valid, Pass, Ordered, Splice, Survivors;
    var cacheable;
    result, cacheable := RunPass(store, text, found, c.allow, o.blockFaults);
  }

  // ------------------------------------------------------------------ tokens in the text stay whole

  /** No chosen detection overlaps a registered span. */
  lemma ChosenSpareSpans(s: State, text: bytes, found: seq<Detection>, allow: seq<bytes -> bool>, r: Span, i: nat)
    requires Occurs(s.spans, text, r) && i < |Chosen(s, text, found, allow)|
    ensures !Overlaps(Chosen(s, text, found, allow)[i], r)
  {
    var dets, d := Remaining(s, text, found, allow), Chosen(s, text, found, allow)[i];
    assert d in dets;
    KeepsTheRest(Without(found, Allowed(allow)), Touching(s.spans, text), d);
  }

  lemma PassSparesSpans(s: State, text: bytes, found: seq<Detection>, allow: seq<bytes -> bool>, faults: nat -> bool, r: Span)
    requires Named(found) && InText(found, |text|) && Occurs(s.spans, text, r)
    ensures Untouched(Pass(s, text, found, allow, faults).edits, r.start, r.end)
  {
    hide Established, Chosen;
    ChosenIsFit(s, text, found, allow);
    var dets, edits := Chosen(s, text, found, allow), Pass(s, text, found, allow, faults).edits;
    EditsFollow(s, dets, Established(dets, |dets|), faults, |dets|, |text|);
    forall k | 0 <= k < |edits|
      ensures edits[k].end <= r.start || r.end <= edits[k].start
    {
      assert IsRangeOf(edits[k], dets, |dets|);
      var i :| 0 <= i < |dets| && edits[k].start == dets[i].start && edits[k].end == dets[i].end;
      ChosenSpareSpans(s, text, found, allow, r, i);
    }
  }

  lemma PassKeepsSpans(s: State, text: bytes, found: seq<Detection>, allow: seq<bytes -> bool>, faults: nat -> bool)
    requires Named(found) && InText(found, |text|)
    ensures var p := Pass(s, text, found, allow, faults); s.spans <= p.state.spans && AllRegistered(p)
  {
    ChosenIsFit(s, text, found, allow);
    var dets := Chosen(s, text, found, allow);
    ReplacementsRegistered(s, dets, Established(dets, |dets|), faults, |dets|);
  }

  /** A registered span is still there after a pass, moved as a whole, and still registered. */
  lemma ThroughPass(s: State, text: bytes, found: seq<Detection>, allow: seq<bytes -> bool>, faults: nat -> bool, r: Span)
    returns (r': Span)
    requires Named(found) && InText(found, |text|) && Occurs(s.spans, text, r)
    ensures var p := Pass(s, text, found, allow, faults);
            && Ordered(p.edits, 0, |text|) && Untouched(p.edits, r.start, r.end)
            && r'.start == Moved(p.edits, 0, r.start) && r'.end == r'.start + (r.end - r.start)
            && Occurs(p.state.spans, Splice(text, p.edits, 0), r')
            && Splice(text, p.edits, 0)[r'.start..r'.end] == text[r.start..r.end]
  {
    hide Pass, Splice, Moved, Ordered, Untouched, Named, InText;
    PassIsOrdered(s, text, found, allow, faults);
    PassSparesSpans(s, text, found, allow, faults, r);
    PassKeepsSpans(s, text, found, allow, faults);
    var p := Pass(s, text, found, allow, faults);
    UntouchedIsCopied(text, p.edits, 0, r.start, r.end);
    r' := Span(Moved(p.edits, 0, r.start), Moved(p.edits, 0, r.start) + (r.end - r.start));
  }

  /** Where a token of the input is in the output. */
  ghost function Destination(t: Trace, start: nat): int {
    var p := Moved(t.first.edits, 0, start);
    if p < 0 then p else Moved(t.second.edits, 0, p)
  }

  ghost predicate IsSecondPass(s: State, c: Config, o: Oracle, text: bytes, mid: bytes)
    requires Fit(c)
  {
    var t, found := Traced(s, c, o, text), c.detect(text);
    && found.Some?
    && t.first == Pass(s, text, found.value, c.allow, o.faults)
    && Ordered(t.first.edits, 0, |text|) && mid == Splice(text, t.first.edits, 0)
    && t.second == Pass(t.first.state, mid, Survivors(c, o, mid), c.allow, o.blockFaults)
    && Ordered(t.second.edits, 0, |mid|) && t.result == Some(Splice(mid, t.second.edits, 0))
  }

  lemma Middle(s: State, c: Config, o: Oracle, text: bytes) returns (mid: bytes)
    requires Fit(c) && Traced(s, c, o, text).result.Some?
    ensures IsSecondPass(s, c, o, text, mid)
  {
    var t, found := Traced(s, c, o, text), c.detect(text).value;
    PassIsOrdered(s, text, found, c.allow, o.faults);
    mid := Splice(text, t.first.edits, 0);
    PassIsOrdered(t.first.state, mid, Survivors(c, o, mid), c.allow, o.blockFaults);
  }

  /** Every occurrence of an already registered span is intact in the output of Tokenize, whatever
      the detectors report. */
  lemma RegisteredSpansStay(s: State, c: Config, o: Oracle, text: bytes, r: Span)
    requires Fit(c) && Occurs(s.spans, text, r) && Traced(s, c, o, text).result.Some?
    ensures var t := Traced(s, c, o, text);
            Shows(t.result.value, Destination(t, r.start), text[r.start..r.end])
  {
    hide Traced, Pass, Splice, Survivors, Moved, Ordered, Untouched, Named, InText;
    var mid := Middle(s, c, o, text);
    var t := Traced(s, c, o, text);
    var q := ThroughPass(s, text, c.detect(text).value, c.allow, o.faults, r);
    var q' := ThroughPass(t.first.state, mid, Survivors(c, o, mid), c.allow, o.blockFaults, q);
    var piece := text[r.start..r.end];
    assert |piece| == q'.end - q'.start && t.result.value[q'.start..q'.end] == piece;
  }

  /** Two tokens that follow each other still do. */
  lemma RegisteredSpansKeepOrder(s: State, c: Config, o: Oracle, text: bytes, r: Span, r': Span)
    requires Fit(c) && Traced(s, c, o, text).result.Some?
    requires Occurs(s.spans, text, r) && Occurs(s.spans, text, r') && r.end <= r'.start
    ensures var t := Traced(s, c, o, text);
            Destination(t, r.start) + (r.end - r.start) <= Destination(t, r'.start)
  {
    hide Traced, Pass, Splice, Survivors, Moved, Ordered, Untouched, Named, InText;
    var mid := Middle(s, c, o, text);
    var t := Traced(s, c, o, text);
    var q := ThroughPass(s, text, c.detect(text).value, c.allow, o.faults, r);
    var q' := ThroughPass(s, text, c.detect(text).value, c.allow, o.faults, r');
    MovedInOrder(t.first.edits, 0, |text|, r.start, r.end, r'.start, r'.end);
    var _ := ThroughPass(t.first.state, mid, Survivors(c, o, mid), c.allow, o.blockFaults, q);
    var _ := ThroughPass(t.first.state, mid, Survivors(c, o, mid), c.allow, o.blockFaults, q');
    MovedInOrder(t.second.edits, 0, |mid|, q.start, q.end, q'.start, q'.end);
  }
}

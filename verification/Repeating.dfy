/**
 Calling Tokenize again (internal/redact/engine.go): the same text gives the same result, without
 minting anything, and a tokenized text stays as it is. The random candidates and the failures of the
 database may differ from call to call.
 */
module Repeating {
  import opened Bytes
  import opened Scanning
  import opened SpanTries
  import opened Splicing
  import opened Minting
  import opened StoreStates
  import opened StoreLaws
  import opened Detections
  import opened Filters
  import opened Substitution
  import opened Restorable
  import opened Engines
  import Utf8

  // ------------------------------------------------------------------ the same detections

  /** The same detection, up to the random candidates for its tokens. */
  ghost predicate Alike(d: Detection, e: Detection) {
    && d.start == e.start && d.end == e.end && d.format == e.format && d.preserve == e.preserve
    && |d.lookups| == |e.lookups| && forall k | 0 <= k < |d.lookups| :: d.lookups[k].value == e.lookups[k].value
  }

  ghost predicate AllAlike(a: seq<Detection>, b: seq<Detection>) {
    |a| == |b| && forall i | 0 <= i < |a| :: Alike(a[i], b[i])
  }

  lemma AlikeTail(a: seq<Detection>, b: seq<Detection>)
    requires AllAlike(a, b) && a != []
    ensures Alike(a[0], b[0]) && AllAlike(a[1..], b[1..])
  {}

  lemma {:induction false} WithoutAlike(a: seq<Detection>, b: seq<Detection>, drop: Detection -> bool, drop': Detection -> bool)
    requires AllAlike(a, b) && forall d, e | Alike(d, e) :: drop(d) == drop'(e)
    ensures AllAlike(Without(a, drop), Without(b, drop'))
  {
    hide Alike;
    if a != [] {
      AlikeTail(a, b);
      WithoutAlike(a[1..], b[1..], drop, drop');
    }
  }

  lemma {:induction false} InsertAlike(a: seq<Detection>, b: seq<Detection>, order: seq<nat>, i: nat)
    requires AllAlike(a, b) && Indices(order, |a|) && i < |a|
    ensures Insert(a, order, i) == Insert(b, order, i)
  {
    if order != [] {
      InsertAlike(a, b, order[1..], i);
    }
  }

  lemma {:induction false} SortedAlike(a: seq<Detection>, b: seq<Detection>, n: nat)
    requires AllAlike(a, b) && n <= |a|
    ensures Sorted(a, n) == Sorted(b, n)
  {
    hide AllAlike, Alike, Insert, Less, Indices;
    SameLength(a, b);
    if n > 0 {
      SortedAlike(a, b, n - 1);
      InsertAlike(a, b, Sorted(a, n - 1), n - 1);
    }
  }

  lemma {:induction false} GreedyAlike(a: seq<Detection>, b: seq<Detection>, order: seq<nat>, lastEnd: int)
    requires AllAlike(a, b) && Indices(order, |a|)
    ensures Greedy(a, order, lastEnd) == Greedy(b, order, lastEnd)
  {
    if order != [] {
      GreedyAlike(a, b, order[1..], a[order[0]].end);
      GreedyAlike(a, b, order[1..], lastEnd);
    }
  }

  lemma PickedAlike(a: seq<Detection>, b: seq<Detection>)
    requires AllAlike(a, b)
    ensures AllAlike(Pick(a, Kept(a)), Pick(b, Kept(b)))
  {
    SortedAlike(a, b, |a|);
    GreedyAlike(a, b, Sorted(a, |a|), -1);
  }

  /** The same spans stand in the text. */
  ghost predicate SameSpans(s: State, now: State, text: bytes) {
    forall r :: Occurs(now.spans, text, r) <==> Occurs(s.spans, text, r)
  }

  lemma ChosenAlike(s: State, now: State, text: bytes, a: seq<Detection>, b: seq<Detection>, allow: seq<bytes -> bool>)
    requires AllAlike(a, b) && SameSpans(s, now, text)
    ensures AllAlike(Chosen(s, text, a, allow), Chosen(now, text, b, allow))
  {
    hide AllAlike, Occurs, Pick, Without, MatchesAny;
    WithoutAlike(a, b, Allowed(allow), Allowed(allow));
    WithoutAlike(Without(a, Allowed(allow)), Without(b, Allowed(allow)), Touching(s.spans, text), Touching(now.spans, text));
    PickedAlike(Remaining(s, text, a, allow), Remaining(now, text, b, allow));
  }

  lemma {:induction false} ValuesAlike(a: seq<Request>, b: seq<Request>, n: nat)
    requires n <= |a| == |b| && forall k | 0 <= k < |a| :: a[k].value == b[k].value
    ensures ValuesOf(a, n) == ValuesOf(b, n)
  {
    if n > 0 {
      ValuesAlike(a, b, n - 1);
    }
  }

  lemma {:induction false} EstablishedAlike(a: seq<Detection>, b: seq<Detection>, n: nat)
    requires AllAlike(a, b) && n <= |a|
    ensures Established(a, n) == Established(b, n)
  {
    if n > 0 {
      EstablishedAlike(a, b, n - 1);
      assert Alike(a[n - 1], b[n - 1]);
      ValuesAlike(a[n - 1].lookups, b[n - 1].lookups, |a[n - 1].lookups|);
    }
  }

  // ------------------------------------------------------------------ substituting again

  /** now has everything that s has. */
  ghost predicate Later(s: State, now: State) {
    Extends(s.r2t, now.r2t) && s.spans <= now.spans
  }

  /** What is known and registered is found again, whatever the candidates and failures are. */
  lemma KnownIsFound(now: State, d: Detection, e: Detection, text: bytes, fault: bool)
    requires Alike(d, e) && ReplacedBy(now.r2t, d, Edit(d.start, d.end, text)) && (text == [] || text in now.spans)
    ensures Mint(now, e.lookups, Build(e), fault).state == now
    ensures Mint(now, e.lookups, Build(e), fault).tokens.Some?
    ensures Build(e)(Mint(now, e.lookups, Build(e), fault).tokens.value) == text
  {
    var known, again := KnownTokens(now.r2t, d.lookups, |d.lookups|), KnownTokens(now.r2t, e.lookups, |e.lookups|);
    assert |known| == |again| && forall k | 0 <= k < |known| :: known[k] == again[k];
    assert known == again;
    assert Build(d)(known) == Build(e)(again);
  }

  /** The doubtful detections that were left alone, and are still unknown. */
  ghost predicate StillUnknown(s: State, dets: seq<Detection>, now: State)
    requires Named(dets)
  {
    forall i | 0 <= i < |dets| && LeftAlone(s, Established(dets, |dets|), dets[i]) :: dets[i].lookups[0].value !in now.r2t
  }

  /** The states of one substitution follow each other. */
  lemma {:induction false} AppliedLater(s: State, dets: seq<Detection>, established: set<bytes>, faults: nat -> bool, n: nat, m: nat)
    requires n <= m <= |dets| && Named(dets) && Good(s) && AllClean(dets)
    ensures Later(Applied(s, dets, established, faults, n).state, Applied(s, dets, established, faults, m).state)
    ensures Applied(s, dets, established, faults, m).ok ==> Applied(s, dets, established, faults, n).ok
  {
    hide Mint, Good, Build, Extends, Clean;
    if n == m {
      SameExtends(Applied(s, dets, established, faults, n).state.r2t);
    } else {
      AppliedLater(s, dets, established, faults, n, m - 1);
      ReplacementsLeadBack(s, dets, established, faults, m - 1);
      var p, d := Applied(s, dets, established, faults, m - 1), dets[m - 1];
      if p.ok && !LeftAlone(p.state, established, d) {
        MintLeadsBack(p.state, d, faults(m - 1));
        MintRegisters(p.state, d.lookups, Build(d), faults(m - 1));
        ExtendsTwice(Applied(s, dets, established, faults, n).state.r2t, p.state.r2t,
                     Applied(s, dets, established, faults, m).state.r2t);
      }
    }
  }

  /** The first n detections, substituted again in a later store. */
  lemma {:induction false} AppliedAgain(s: State, dets: seq<Detection>, faults: nat -> bool, now: State, dets': seq<Detection>, faults': nat -> bool, n: nat)
    requires n <= |dets| && Named(dets) && Named(dets') && Doubtful(dets) && Good(s) && AllClean(dets) && AllAlike(dets, dets')
    requires Apply(s, dets, faults).ok && Later(Apply(s, dets, faults).state, now) && StillUnknown(s, dets, now)
    ensures Applied(now, dets', Established(dets', |dets'|), faults', n)
         == Progress(now, Applied(s, dets, Established(dets, |dets|), faults, n).edits, true)
  {
    hide Mint, Good, Build, Extends, Clean, Established, Doubtful, StillUnknown, Alike, Advance, LeftAlone, Later, AllClean;
    if n > 0 {
      AppliedAgain(s, dets, faults, now, dets', faults', n - 1);
      EstablishedAlike(dets, dets', |dets|);
      var established := Established(dets, |dets|);
      var p, d := Applied(s, dets, established, faults, n - 1), dets[n - 1];
      AppliedLater(s, dets, established, faults, n - 1, |dets|);
      OneAgain(s, dets, faults, now, dets', faults', n - 1);
    }
  }

  lemma OneAgain(s: State, dets: seq<Detection>, faults: nat -> bool, now: State, dets': seq<Detection>, faults': nat -> bool, n: nat)
    requires n < |dets| && Named(dets) && Named(dets') && Doubtful(dets) && Good(s) && AllClean(dets) && AllAlike(dets, dets')
    requires Apply(s, dets, faults).ok && Later(Apply(s, dets, faults).state, now) && StillUnknown(s, dets, now)
    ensures var established := Established(dets, |dets|);
            var p := Applied(s, dets, established, faults, n);
            && p.ok
            && Advance(Progress(now, p.edits, true), established, dets'[n], faults'(n))
               == Progress(now, Advance(p, established, dets[n], faults(n)).edits, true)
  {
    hide Mint, Good, Build, Extends, Clean, Established, Doubtful, StillUnknown, AllClean;
    var established, d := Established(dets, |dets|), dets[n];
    var p := Applied(s, dets, established, faults, n);
    AppliedLater(s, dets, established, faults, n, |dets|);
    LeftAloneAgain(s, dets, faults, now, n);
    assert Alike(d, dets'[n]);
    if !LeftAlone(p.state, established, d) {
      FoundAgain(s, dets, faults, now, dets'[n], faults'(n), n);
    }
  }

  /** What was left alone is left alone again, and nothing else is. */
  lemma LeftAloneAgain(s: State, dets: seq<Detection>, faults: nat -> bool, now: State, n: nat)
    requires n < |dets| && Named(dets) && Doubtful(dets) && Good(s) && AllClean(dets)
    requires Apply(s, dets, faults).ok && Later(Apply(s, dets, faults).state, now) && StillUnknown(s, dets, now)
    ensures var established := Established(dets, |dets|);
            LeftAlone(Applied(s, dets, established, faults, n).state, established, dets[n])
            <==> LeftAlone(now, established, dets[n])
  {
    hide Mint, Good, Build, Clean, Established, Doubtful, AllClean;
    var established := Established(dets, |dets|);
    KnownDuring(s, dets, faults, n);
    AppliedLater(s, dets, established, faults, n, |dets|);
  }

  /** One replacement: what it consists of is known and registered from then on. */
  lemma ReplacedOnce(s: State, dets: seq<Detection>, established: set<bytes>, faults: nat -> bool, n: nat)
    requires n < |dets| && Named(dets) && Good(s) && AllClean(dets)
    requires Applied(s, dets, established, faults, n + 1).ok && Applied(s, dets, established, faults, n).ok
    requires !LeftAlone(Applied(s, dets, established, faults, n).state, established, dets[n])
    ensures var d, next := dets[n], Applied(s, dets, established, faults, n + 1).state;
            var out := Mint(Applied(s, dets, established, faults, n).state, d.lookups, Build(d), faults(n));
            && out.tokens.Some?
            && var text := Build(d)(out.tokens.value);
               ReplacedBy(next.r2t, d, Edit(d.start, d.end, text)) && (text == [] || text in next.spans)
  {
    hide Mint, Good, Build, Clean, LeftAlone, ReplacedBy;
    var p, d := Applied(s, dets, established, faults, n), dets[n];
    ReplacementsLeadBack(s, dets, established, faults, n);
    MintLeadsBack(p.state, d, faults(n));
    MintRegisters(p.state, d.lookups, Build(d), faults(n));
  }

  lemma StaysReplaced(s: State, now: State, d: Detection, text: bytes)
    requires Later(s, now) && ReplacedBy(s.r2t, d, Edit(d.start, d.end, text)) && (text == [] || text in s.spans)
    ensures ReplacedBy(now.r2t, d, Edit(d.start, d.end, text)) && (text == [] || text in now.spans)
  {
    hide KnownTokens, Build, Extends;
    KnownTokensStay(s.r2t, now.r2t, d.lookups);
  }

  lemma FoundAgain(s: State, dets: seq<Detection>, faults: nat -> bool, now: State, e: Detection, fault: bool, n: nat)
    requires n < |dets| && Named(dets) && Good(s) && AllClean(dets) && Alike(dets[n], e)
    requires Apply(s, dets, faults).ok && Later(Apply(s, dets, faults).state, now)
    requires !LeftAlone(Applied(s, dets, Established(dets, |dets|), faults, n).state, Established(dets, |dets|), dets[n])
    ensures var d, p := dets[n], Applied(s, dets, Established(dets, |dets|), faults, n);
            var out, again := Mint(p.state, d.lookups, Build(d), faults(n)), Mint(now, e.lookups, Build(e), fault);
            && out.tokens.Some? && again.tokens.Some? && again.state == now
            && Build(e)(again.tokens.value) == Build(d)(out.tokens.value)
  {
    hide Mint, Good, Build, AllClean, Established, Alike, LeftAlone, ReplacedBy, Later, Applied;
    var established, d := Established(dets, |dets|), dets[n];
    var next := Applied(s, dets, established, faults, n + 1).state;
    AppliedLater(s, dets, established, faults, n + 1, |dets|);
    AppliedLater(s, dets, established, faults, n, |dets|);
    ReplacedOnce(s, dets, established, faults, n);
    var out := Mint(Applied(s, dets, established, faults, n).state, d.lookups, Build(d), faults(n));
    var text := Build(d)(out.tokens.value);
    StaysReplaced(next, Apply(s, dets, faults).state, d, text);
    StaysReplaced(Apply(s, dets, faults).state, now, d, text);
    KnownIsFound(now, d, e, text, fault);
  }

  /** A pass over the same text in a later store makes the same edits and leaves the store as it is. */
  lemma PassAgain(s: State, text: bytes, found: seq<Detection>, allow: seq<bytes -> bool>, faults: nat -> bool,
                  now: State, found': seq<Detection>, faults': nat -> bool)
    requires Named(found) && InText(found, |text|) && Named(found') && InText(found', |text|) && AllAlike(found, found')
    requires Good(s) && AllClean(found) && Doubtful(found) && SameSpans(s, now, text)
    requires Named(Chosen(s, text, found, allow)) && StillUnknown(s, Chosen(s, text, found, allow), now)
    requires Pass(s, text, found, allow, faults).ok && Later(Pass(s, text, found, allow, faults).state, now)
    ensures Pass(now, text, found', allow, faults') == Progress(now, Pass(s, text, found, allow, faults).edits, true)
  {
    hide Chosen, Good, Applied, AllClean, Doubtful, AllAlike, SameSpans, StillUnknown, Later;
    ChosenIsFit(s, text, found, allow);
    ChosenIsFit(now, text, found', allow);
    ChosenAlike(s, now, text, found, found', allow);
    ChosenIsClean(s, text, found, allow);
    var dets, dets' := Chosen(s, text, found, allow), Chosen(now, text, found', allow);
    SameLength(dets, dets');
    AppliedAgain(s, dets, faults, now, dets', faults', |dets|);
  }

  lemma SameLength(a: seq<Detection>, b: seq<Detection>)
    requires AllAlike(a, b)
    ensures |a| == |b|
  {}

  lemma ChosenIsFound(s: State, text: bytes, found: seq<Detection>, allow: seq<bytes -> bool>, i: nat)
    requires i < |Chosen(s, text, found, allow)|
    ensures var d := Chosen(s, text, found, allow)[i];
            d in found && !Allowed(allow)(d) && !Touching(s.spans, text)(d)
  {
    var dets, d := Remaining(s, text, found, allow), Chosen(s, text, found, allow)[i];
    assert d in dets;
    KeepsTheRest(Without(found, Allowed(allow)), Touching(s.spans, text), d);
    KeepsTheRest(found, Allowed(allow), d);
  }

  lemma ChosenIsClean(s: State, text: bytes, found: seq<Detection>, allow: seq<bytes -> bool>)
    requires AllClean(found) && Doubtful(found)
    ensures AllClean(Chosen(s, text, found, allow)) && Doubtful(Chosen(s, text, found, allow))
  {
    hide Clean, Chosen, Allowed, Touching;
    forall i | 0 <= i < |Chosen(s, text, found, allow)|
      ensures var d := Chosen(s, text, found, allow)[i]; Clean(d) && (d.preserve ==> |d.lookups| == 1)
    {
      ChosenIsFound(s, text, found, allow, i);
    }
  }

  // ------------------------------------------------------------------ the same text again

  lemma {:induction false} FoundByAlike(text: bytes, locs: seq<Span>, draws: nat -> nat -> bytes, draws': nat -> nat -> bytes,
                                        a: seq<Detection>, b: seq<Detection>, n: nat)
    requires n <= |locs| && FitLocs(locs, |text|) && AllAlike(a, b)
    ensures AllAlike(FoundBy(text, locs, draws, a, n), FoundBy(text, locs, draws', b, n))
  {
    hide IsToken;
    if n > 0 {
      FoundByAlike(text, locs, draws, draws', a, b, n - 1);
    }
  }

  lemma {:induction false} BlocksAlike(text: bytes, blocks: seq<bytes -> seq<Span>>, draws: nat -> nat -> bytes, draws': nat -> nat -> bytes, n: nat)
    requires n <= |blocks| && forall i | 0 <= i < |blocks| :: FitLocs(blocks[i](text), |text|)
    ensures AllAlike(BlockDetections(text, blocks, draws, n), BlockDetections(text, blocks, draws', n))
  {
    hide FoundBy;
    if n > 0 {
      BlocksAlike(text, blocks, draws, draws', n - 1);
      FoundByAlike(text, blocks[n - 1](text), draws, draws', BlockDetections(text, blocks, draws, n - 1),
                   BlockDetections(text, blocks, draws', n - 1), |blocks[n - 1](text)|);
    }
  }

  lemma SurvivorsAreClean(c: Config, o: Oracle, text: bytes)
    requires Fit(c)
    ensures AllClean(Survivors(c, o, text)) && Doubtful(Survivors(c, o, text))
    ensures forall i | 0 <= i < |Survivors(c, o, text)| :: !Survivors(c, o, text)[i].preserve
  {
    BlocksAreFound(text, c.blocks, o.draws, |c.blocks|);
    forall i | 0 <= i < |Survivors(c, o, text)|
      ensures Clean(Survivors(c, o, text)[i]) && !Survivors(c, o, text)[i].preserve
    {
      assert IsBlock(Survivors(c, o, text)[i], text);
    }
  }

  /** The same configuration, up to the random candidates of its detectors. */
  ghost predicate SameConfig(c: Config, c': Config, text: bytes) {
    && c'.allow == c.allow && c'.blocks == c.blocks && c.detect(text).Some? && c'.detect(text).Some?
    && AllAlike(c.detect(text).value, c'.detect(text).value)
  }

  /** What is asked of the store in which the text comes again: it still has what the first call left,
      no span that was registered since stands in the text, before or after the first pass, and no
      value that was left alone has become known. */
  ghost predicate NothingNew(s: State, c: Config, o: Oracle, text: bytes, now: State)
    requires Fit(c) && c.detect(text).Some?
  {
    var t := Traced(s, c, o, text);
    && Later(t.first.state, now) && Later(t.second.state, now)
    && SameSpans(s, now, text) && SameSpans(t.first.state, now, Substituted(s, c, o, text))
    && Named(Found(s, c, text)) && StillUnknown(s, Found(s, c, text), now)
  }

  /** Tokenizing the same text again gives the same bytes, mints nothing and leaves the store as it is,
      whatever the new random candidates are and even if the database has begun to fail. */
  lemma TokenizedAgain(s: State, c: Config, o: Oracle, text: bytes, now: State, c': Config, o': Oracle)
    requires Fit(c) && Fit(c') && Good(s) && Traced(s, c, o, text).result.Some? && SameConfig(c, c', text)
    requires AllClean(c.detect(text).value) && Doubtful(c.detect(text).value)
    requires NothingNew(s, c, o, text, now)
    ensures Traced(now, c', o', text).result == Traced(s, c, o, text).result
    ensures Traced(now, c', o', text).second.state == now
  {
    hide Traced, Pass, Splice, Survivors, Good, AllClean, Doubtful, AllAlike, SameSpans, StillUnknown, Later, Utf8.WellFormed;
    var t, mid := Traced(s, c, o, text), Substituted(s, c, o, text);
    WellFormedWhenDone(s, c, o, text);
    TracedInSteps(s, c, o, text);
    TracedInSteps(now, c', o', text);
    FirstPassAgain(s, c, o, text, now, c', o');
    assert Substituted(now, c', o', text) == mid;
    SecondPassAgain(t.first.state, c, o, mid, now, c', o');
  }

  lemma WellFormedWhenDone(s: State, c: Config, o: Oracle, text: bytes)
    requires Fit(c) && Traced(s, c, o, text).result.Some?
    ensures Utf8.WellFormed(text)
  {}

  lemma FirstPassAgain(s: State, c: Config, o: Oracle, text: bytes, now: State, c': Config, o': Oracle)
    requires Fit(c) && Fit(c') && Good(s) && SameConfig(c, c', text)
    requires AllClean(c.detect(text).value) && Doubtful(c.detect(text).value)
    requires SameSpans(s, now, text) && Named(Found(s, c, text)) && StillUnknown(s, Found(s, c, text), now)
    requires var p := Pass(s, text, c.detect(text).value, c.allow, o.faults); p.ok && Later(p.state, now)
    ensures Good(Pass(s, text, c.detect(text).value, c.allow, o.faults).state)
    ensures Pass(now, text, c'.detect(text).value, c'.allow, o'.faults)
         == Progress(now, Pass(s, text, c.detect(text).value, c.allow, o.faults).edits, true)
  {
    hide Good, AllClean, Doubtful, AllAlike, SameSpans, StillUnknown, Later, Chosen, Applied;
    var found, found' := c.detect(text).value, c'.detect(text).value;
    PassAgain(s, text, found, c.allow, o.faults, now, found', o'.faults);
    ChosenIsFit(s, text, found, c.allow);
    ChosenIsClean(s, text, found, c.allow);
    var dets := Found(s, c, text);
    ReplacementsLeadBack(s, dets, Established(dets, |dets|), o.faults, |dets|);
  }

  lemma SecondPassAgain(s: State, c: Config, o: Oracle, mid: bytes, now: State, c': Config, o': Oracle)
    requires Fit(c) && Fit(c') && Good(s) && c'.allow == c.allow && c'.blocks == c.blocks
    requires SameSpans(s, now, mid)
    requires var q := Pass(s, mid, Survivors(c, o, mid), c.allow, o.blockFaults); q.ok && Later(q.state, now)
    ensures Pass(now, mid, Survivors(c', o', mid), c'.allow, o'.blockFaults)
         == Progress(now, Pass(s, mid, Survivors(c, o, mid), c.allow, o.blockFaults).edits, true)
  {
    hide Good, AllClean, Doubtful, AllAlike, SameSpans, Later, Chosen, Applied, Pass;
    var found, found' := Survivors(c, o, mid), Survivors(c', o', mid);
    BlocksAlike(mid, c.blocks, o.draws, o'.draws, |c.blocks|);
    SurvivorsAreClean(c, o, mid);
    ChosenIsFit(s, mid, found, c.allow);
    NoneLeftAlone(s, mid, found, c.allow, now);
    PassAgain(s, mid, found, c.allow, o.blockFaults, now, found', o'.blockFaults);
  }

  lemma NoneLeftAlone(s: State, text: bytes, found: seq<Detection>, allow: seq<bytes -> bool>, now: State)
    requires Named(Chosen(s, text, found, allow)) && forall i | 0 <= i < |found| :: !found[i].preserve
    ensures StillUnknown(s, Chosen(s, text, found, allow), now)
  {
    var dets := Chosen(s, text, found, allow);
    forall i | 0 <= i < |dets|
      ensures !dets[i].preserve
    {
      ChosenIsFound(s, text, found, allow, i);
    }
  }

  // ------------------------------------------------------------------ a tokenized text

  /** Nothing is done about the detection: an allow pattern names its value, it touches a token, or it
      is doubtful and unknown. */
  ghost predicate Settled(now: State, c: Config, text: bytes, d: Detection)
    requires d.lookups != []
  {
    Allowed(c.allow)(d) || Touches(now.spans, text, d) || (d.preserve && d.lookups[0].value !in now.r2t)
  }

  ghost predicate AllSettled(now: State, c: Config, text: bytes, found: seq<Detection>)
    requires Named(found)
  {
    forall i | 0 <= i < |found| :: Settled(now, c, text, found[i])
  }

  lemma SettledIsLeft(now: State, c: Config, text: bytes, found: seq<Detection>, faults: nat -> bool)
    requires Named(found) && InText(found, |text|) && AllSettled(now, c, text, found)
    ensures Pass(now, text, found, c.allow, faults) == Progress(now, [], true)
  {
    hide Established, Chosen, Touches, Mint;
    ChosenIsFit(now, text, found, c.allow);
    var dets := Chosen(now, text, found, c.allow);
    forall i | 0 <= i < |dets|
      ensures dets[i].preserve && dets[i].lookups[0].value !in now.r2t
    {
      ChosenIsFound(now, text, found, c.allow, i);
      var k :| 0 <= k < |found| && found[k] == dets[i];
      assert Settled(now, c, text, found[k]);
    }
    NothingEstablished(dets, |dets|);
    NothingApplied(now, dets, faults, |dets|);
  }

  lemma {:induction false} NothingEstablished(dets: seq<Detection>, n: nat)
    requires n <= |dets| && forall i | 0 <= i < |dets| :: dets[i].preserve
    ensures Established(dets, n) == {}
  {
    if n > 0 {
      NothingEstablished(dets, n - 1);
    }
  }

  lemma {:induction false} NothingApplied(s: State, dets: seq<Detection>, faults: nat -> bool, n: nat)
    requires n <= |dets| && Named(dets)
    requires forall i | 0 <= i < |dets| :: dets[i].preserve && dets[i].lookups[0].value !in s.r2t
    ensures Applied(s, dets, {}, faults, n) == Progress(s, [], true)
  {
    hide Mint;
    if n > 0 {
      NothingApplied(s, dets, faults, n - 1);
    }
  }

  /** A text in which every detection is settled stays as it is, and so does the store. */
  lemma SettledTextStays(now: State, c: Config, o: Oracle, text: bytes)
    requires Fit(c) && Utf8.WellFormed(text) && c.detect(text).Some?
    requires AllSettled(now, c, text, c.detect(text).value) && AllSettled(now, c, text, Survivors(c, o, text))
    ensures Traced(now, c, o, text).result == Some(text) && Traced(now, c, o, text).second.state == now
  {
    hide Pass, Survivors, Utf8.WellFormed, AllSettled, Traced;
    SettledIsLeft(now, c, text, c.detect(text).value, o.faults);
    SettledIsLeft(now, c, text, Survivors(c, o, text), o.blockFaults);
    assert Splice(text, [], 0) == text by {
      assert text[0..] == text;
    }
    TracedInSteps(now, c, o, text);
  }

  /** In the output of Tokenize every replacement of the second pass is a registered span. */
  lemma LateReplacementStands(s: State, c: Config, o: Oracle, text: bytes, k: nat)
    requires Fit(c) && Traced(s, c, o, text).result.Some? && c.detect(text).Some?
    requires k < |Traced(s, c, o, text).second.edits| && Traced(s, c, o, text).second.edits[k].text != []
    ensures var t := Traced(s, c, o, text);
            var p := Placed(t.second.edits, 0, k);
            p >= 0 && Occurs(t.second.state.spans, t.result.value, Span(p, p + |t.second.edits[k].text|))
  {
    hide Pass, Survivors, Utf8.WellFormed, Traced, Splice;
    WellFormedWhenDone(s, c, o, text);
    TracedInSteps(s, c, o, text);
    var t, mid := Traced(s, c, o, text), Substituted(s, c, o, text);
    PassKeepsSpans(t.first.state, mid, Survivors(c, o, mid), c.allow, o.blockFaults);
    EditIsShown(mid, t.second.edits, 0, k);
  }

  /** And so is every replacement of the first pass, where the second pass has moved it. */
  lemma ReplacementStands(s: State, c: Config, o: Oracle, text: bytes, k: nat)
    requires Fit(c) && Traced(s, c, o, text).result.Some? && c.detect(text).Some?
    requires k < |Traced(s, c, o, text).first.edits| && Traced(s, c, o, text).first.edits[k].text != []
    ensures var t := Traced(s, c, o, text);
            && Placed(t.first.edits, 0, k) >= 0
            && var p := Moved(t.second.edits, 0, Placed(t.first.edits, 0, k));
               p >= 0 && Occurs(t.second.state.spans, t.result.value, Span(p, p + |t.first.edits[k].text|))
  {
    hide Pass, Survivors, Utf8.WellFormed, Traced, Splice, Moved, Placed;
    WellFormedWhenDone(s, c, o, text);
    TracedInSteps(s, c, o, text);
    var t, mid := Traced(s, c, o, text), Substituted(s, c, o, text);
    PassKeepsSpans(s, text, c.detect(text).value, c.allow, o.faults);
    EditIsShown(text, t.first.edits, 0, k);
    var p := Placed(t.first.edits, 0, k);
    var r := Span(p, p + |t.first.edits[k].text|);
    assert Occurs(t.first.state.spans, mid, r);
    var _ := ThroughPass(t.first.state, mid, Survivors(c, o, mid), c.allow, o.blockFaults, r);
  }

  /** The detection overlaps a replacement of the call, where it stands in the output. */
  ghost predicate OverToken(t: Trace, d: Detection) {
    || (exists k :: 0 <= k < |t.first.edits| && OverPlace(d, Moved(t.second.edits, 0, MaxZero(Placed(t.first.edits, 0, k))), t.first.edits[k]))
    || (exists k :: 0 <= k < |t.second.edits| && OverPlace(d, Placed(t.second.edits, 0, k), t.second.edits[k]))
  }

  function MaxZero(i: int): nat { if i < 0 then 0 else i }

  predicate OverPlace(d: Detection, p: int, e: Edit) {
    e.text != [] && d.start < p + |e.text| && p < d.end
  }

  lemma OverTokenTouches(s: State, c: Config, o: Oracle, text: bytes, now: State, d: Detection)
    requires Fit(c) && Traced(s, c, o, text).result.Some? && c.detect(text).Some?
    requires Later(Traced(s, c, o, text).second.state, now) && OverToken(Traced(s, c, o, text), d)
    ensures Touches(now.spans, Traced(s, c, o, text).result.value, d)
  {
    hide Traced, Moved, Placed, Splice, Extends;
    var t := Traced(s, c, o, text);
    if k :| 0 <= k < |t.first.edits| && OverPlace(d, Moved(t.second.edits, 0, MaxZero(Placed(t.first.edits, 0, k))), t.first.edits[k]) {
      ReplacementStands(s, c, o, text, k);
      var p := Moved(t.second.edits, 0, Placed(t.first.edits, 0, k));
      assert Occurs(now.spans, t.result.value, Span(p, p + |t.first.edits[k].text|));
    } else {
      var k :| 0 <= k < |t.second.edits| && OverPlace(d, Placed(t.second.edits, 0, k), t.second.edits[k]);
      LateReplacementStands(s, c, o, text, k);
      var p := Placed(t.second.edits, 0, k);
      assert Occurs(now.spans, t.result.value, Span(p, p + |t.second.edits[k].text|));
    }
  }

  /** What the detectors and block patterns find in the output of a call: only what the call has written,
      what stood in the text as a token, what is allowed, and what is doubtful and unknown. */
  ghost predicate OnlyTokensIn(t: Trace, now: State, c: Config, text: bytes, found: seq<Detection>)
    requires Named(found)
  {
    forall i | 0 <= i < |found| :: OverToken(t, found[i]) || Settled(now, c, text, found[i])
  }

  /** Tokenizing the output of Tokenize changes nothing and mints nothing. */
  lemma TokenizedStays(s: State, c: Config, o: Oracle, text: bytes, now: State, c': Config, o': Oracle)
    requires Fit(c) && Fit(c') && Traced(s, c, o, text).result.Some? && c.detect(text).Some?
    requires Later(Traced(s, c, o, text).second.state, now)
    requires var t := Traced(s, c, o, text);
             var out := t.result.value;
             && Utf8.WellFormed(out) && c'.detect(out).Some?
             && OnlyTokensIn(t, now, c', out, c'.detect(out).value)
             && OnlyTokensIn(t, now, c', out, Survivors(c', o', out))
    ensures var out := Traced(s, c, o, text).result.value;
            Traced(now, c', o', out).result == Some(out) && Traced(now, c', o', out).second.state == now
  {
    hide Traced, Survivors, Utf8.WellFormed, OverToken, Settled, Later, Touches;
    var t := Traced(s, c, o, text);
    var out := t.result.value;
    OnlyTokensSettle(s, c, o, text, now, c', c'.detect(out).value);
    OnlyTokensSettle(s, c, o, text, now, c', Survivors(c', o', out));
    SettledTextStays(now, c', o', out);
  }

  lemma OnlyTokensSettle(s: State, c: Config, o: Oracle, text: bytes, now: State, c': Config, found: seq<Detection>)
    requires Fit(c) && Traced(s, c, o, text).result.Some? && c.detect(text).Some? && Named(found)
    requires Later(Traced(s, c, o, text).second.state, now)
    requires OnlyTokensIn(Traced(s, c, o, text), now, c', Traced(s, c, o, text).result.value, found)
    ensures AllSettled(now, c', Traced(s, c, o, text).result.value, found)
  {
    hide Traced, OverToken, Later, Touches;
    var t := Traced(s, c, o, text);
    forall i | 0 <= i < |found|
      ensures Settled(now, c', t.result.value, found[i])
    {
      if OverToken(t, found[i]) {
        OverTokenTouches(s, c, o, text, now, found[i]);
      }
    }
  }
}

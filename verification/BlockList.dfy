/**
 What the final pass over the block list achieves (blockListSafetyPass in
 internal/redact/engine.go, internal/redact/blocklist.go), for literal words: whatever the
 detectors did, a word that is left is allowed or belongs to a token.
 */
module BlockList {
  import opened Bytes
  import opened Scanning
  import opened SpanTries
  import opened Splicing
  import opened Minting
  import opened StoreStates
  import opened Detections
  import opened Filters
  import opened Substitution
  import opened Engines

  // ------------------------------------------------------------------ literal patterns

  /** The leftmost matches that do not overlap, from position q. */
  function Matches(text: bytes, word: bytes, q: nat): seq<Span>
    requires word != []
    decreases |text| - q
  {
    if q >= |text| then []
    else if Shows(text, q, word) then [Span(q, q + |word|)] + Matches(text, word, q + |word|)
    else Matches(text, word, q + 1)
  }

  /** FindAllStringIndex for a quoted word. */
  function Literal(word: bytes): bytes -> seq<Span>
    requires word != []
  {
    (text: bytes) => Matches(text, word, 0)
  }

  lemma {:induction false} MatchesAreThere(text: bytes, word: bytes, q: nat)
    requires word != []
    ensures forall k | 0 <= k < |Matches(text, word, q)| ::
              var m := Matches(text, word, q)[k]; m.end == m.start + |word| && Shows(text, m.start, word)
    decreases |text| - q
  {
    if q < |text| {
      MatchesAreThere(text, word, if Shows(text, q, word) then q + |word| else q + 1);
    }
  }

  lemma LiteralFits(text: bytes, word: bytes)
    requires word != []
    ensures FitLocs(Literal(word)(text), |text|)
  {
    MatchesAreThere(text, word, 0);
  }

  /** Every occurrence begins in a match. */
  lemma {:induction false} OccurrenceBeginsInMatch(text: bytes, word: bytes, q: nat, s: nat) returns (k: nat)
    requires word != [] && q <= s && Shows(text, s, word)
    ensures k < |Matches(text, word, q)|
    ensures Matches(text, word, q)[k].start <= s < Matches(text, word, q)[k].end
    decreases |text| - q
  {
    if !Shows(text, q, word) {
      k := OccurrenceBeginsInMatch(text, word, q + 1, s);
    } else if s < q + |word| {
      k := 0;
    } else {
      var i := OccurrenceBeginsInMatch(text, word, q + |word|, s);
      k := i + 1;
    }
  }

  /** No end of the word is also a beginning of it. */
  predicate Borderless(word: bytes) {
    forall k | 0 < k < |word| :: word[k..] != word[..|word| - k]
  }

  lemma OverlapIsBorder(text: bytes, word: bytes, m: nat, s: nat)
    requires Shows(text, m, word) && Shows(text, s, word) && m <= s < m + |word|
    ensures word[s - m..] == word[..|word| - (s - m)]
  {
    assert word[s - m..] == text[s..m + |word|];
    assert word[..|word| - (s - m)] == text[s..m + |word|];
  }

  /** The scan finds every occurrence of a borderless word. */
  lemma EveryOccurrenceIsMatched(text: bytes, word: bytes, s: nat) returns (k: nat)
    requires word != [] && Borderless(word) && Shows(text, s, word)
    ensures k < |Literal(word)(text)| && Literal(word)(text)[k] == Span(s, s + |word|)
  {
    k := OccurrenceBeginsInMatch(text, word, 0, s);
    MatchesAreThere(text, word, 0);
    OverlapIsBorder(text, word, Matches(text, word, 0)[k].start, s);
  }

  // ------------------------------------------------------------------ tokens are never empty

  lemma MintTangible(s: State, reqs: seq<Request>, build: seq<bytes> -> bytes, fault: bool)
    requires Tangible(s)
    ensures var out := Mint(s, reqs, build, fault);
            && Tangible(out.state)
            && (out.tokens.Some? ==> |out.tokens.value| == |reqs| && forall i | 0 <= i < |reqs| :: out.tokens.value[i] != [])
  {
    if !AllKnown(s.r2t, reqs, |reqs|) && Mint(s, reqs, build, fault).tokens.Some? {
      var mint := MinterOf(s.r2t, s.t2r);
      forall d, req | mint(d, req).Some?
        ensures mint(d, req).value.token != []
      {}
      TokensAreSomething(mint, s.disk, reqs, |reqs|);
      RecordedTangible(s.r2t, Values(reqs), MintUpTo(mint, s.disk, reqs, |reqs|).value.tokens, |reqs|);
    }
  }

  lemma {:induction false} RecordedTangible(m: Mapping, keys: seq<bytes>, values: seq<bytes>, n: nat)
    requires n <= |keys| == |values|
    requires (forall r | r in m :: m[r] != []) && forall i | 0 <= i < n :: values[i] != []
    ensures forall r | r in Recorded(m, keys, values, n) :: Recorded(m, keys, values, n)[r] != []
  {
    if n > 0 {
      RecordedTangible(m, keys, values, n - 1);
    }
  }

  /** A single lookup without format is replaced by its token. */
  predicate Plain(d: Detection) { |d.lookups| == 1 && d.format.None? }

  lemma {:induction false} StaysTangible(s: State, dets: seq<Detection>, established: set<bytes>, faults: nat -> bool, n: nat)
    requires n <= |dets| && Named(dets) && Tangible(s)
    ensures var p := Applied(s, dets, established, faults, n);
            && Tangible(p.state)
            && ((forall i | 0 <= i < |dets| :: Plain(dets[i])) ==> forall k | 0 <= k < |p.edits| :: p.edits[k].text != [])
  {
    if n > 0 {
      StaysTangible(s, dets, established, faults, n - 1);
      var p, d := Applied(s, dets, established, faults, n - 1), dets[n - 1];
      if p.ok && !LeftAlone(p.state, established, d) {
        MintTangible(p.state, d.lookups, Build(d), faults(n - 1));
        hide Mint;
      }
    }
  }

  // ------------------------------------------------------------------ what is left

  /** The range p..q overlaps a registered span. */
  ghost predicate InSpan(spans: set<bytes>, out: bytes, p: int, q: int) {
    exists r :: Occurs(spans, out, r) && p < r.end && r.start < q
  }

  /** A range of the output that meets a replacement overlaps a registered span. */
  lemma {:induction false} ReplacementIsSpan(text: bytes, p: Progress, a: int, b: int)
    requires Ordered(p.edits, 0, |text|) && AllRegistered(p)
    requires forall k | 0 <= k < |p.edits| :: p.edits[k].text != []
    requires MeetsEdit(p.edits, 0, a, b)
    ensures InSpan(p.state.spans, Splice(text, p.edits, 0), a, b)
  {
    var i :| 0 <= i < |p.edits| && Meets(a, b, Placed(p.edits, 0, i), Placed(p.edits, 0, i) + |p.edits[i].text|);
    EditIsShown(text, p.edits, 0, i);
    var q := Placed(p.edits, 0, i);
    assert Occurs(p.state.spans, Splice(text, p.edits, 0), Span(q, q + |p.edits[i].text|));
  }

  /** A detection that overlaps no edit was dropped: it is allowed or it touches a span. */
  lemma NotReplaced(s: State, text: bytes, found: seq<Detection>, allow: seq<bytes -> bool>, faults: nat -> bool, i: nat)
    requires Named(found) && InText(found, |text|) && i < |found| && found[i].start < found[i].end
    requires forall k | 0 <= k < |found| :: !found[k].preserve
    requires Pass(s, text, found, allow, faults).ok
    requires Untouched(Pass(s, text, found, allow, faults).edits, found[i].start, found[i].end)
    ensures SomeAllowed(found[i], MatchesAny(allow)) || Touches(s.spans, text, found[i])
  {
    var d, dets := found[i], Remaining(s, text, found, allow);
    KeepsTheRest(found, Allowed(allow), d);
    KeepsTheRest(Without(found, Allowed(allow)), Touching(s.spans, text), d);
    if d in dets {
      var j :| 0 <= j < |dets| && dets[j] == d;
      var k := ChosenOver(s, text, found, allow, j);
      ChosenIsReplaced(s, text, found, allow, faults, k);
    }
  }

  /** For every remaining detection there is a chosen one that contains its start. */
  lemma ChosenOver(s: State, text: bytes, found: seq<Detection>, allow: seq<bytes -> bool>, j: nat) returns (k: nat)
    requires Named(found) && InText(found, |text|) && j < |Remaining(s, text, found, allow)|
    requires Remaining(s, text, found, allow)[j].start < Remaining(s, text, found, allow)[j].end
    ensures k < |Chosen(s, text, found, allow)|
    ensures Chosen(s, text, found, allow)[k].start <= Remaining(s, text, found, allow)[j].start < Chosen(s, text, found, allow)[k].end
  {
    RemainingIsFit(s, text, found, allow);
    var dets := Remaining(s, text, found, allow);
    hide Remaining;
    KeptResolves(dets, |text|);
    var i := j;
    if j !in Kept(dets) {
      i := Blocker(dets, SetOf(Kept(dets)), j);
    }
    assert i in Kept(dets);
    k :| 0 <= k < |Kept(dets)| && Kept(dets)[k] == i;
  }

  /** Ordinary detections that are chosen are replaced. */
  lemma ChosenIsReplaced(s: State, text: bytes, found: seq<Detection>, allow: seq<bytes -> bool>, faults: nat -> bool, k: nat)
    requires Named(found) && InText(found, |text|) && Pass(s, text, found, allow, faults).ok
    requires forall i | 0 <= i < |found| :: !found[i].preserve
    requires k < |Chosen(s, text, found, allow)|
    ensures exists e :: 0 <= e < |Pass(s, text, found, allow, faults).edits|
                     && Pass(s, text, found, allow, faults).edits[e].start == Chosen(s, text, found, allow)[k].start
                     && Pass(s, text, found, allow, faults).edits[e].end == Chosen(s, text, found, allow)[k].end
  {
    ChosenIsFit(s, text, found, allow);
    ChosenAreFound(s, text, found, allow);
    var dets := Chosen(s, text, found, allow);
    forall i | 0 <= i < |dets|
      ensures !dets[i].preserve
    {
      assert dets[i] in found;
    }
    ReplacedByRule(s, dets, faults, |dets|);
    assert IsReplaced(s, dets, k);
  }

  lemma ChosenAreFound(s: State, text: bytes, found: seq<Detection>, allow: seq<bytes -> bool>)
    ensures forall i | 0 <= i < |Chosen(s, text, found, allow)| :: Chosen(s, text, found, allow)[i] in found
  {
    var dets := Remaining(s, text, found, allow);
    forall i | 0 <= i < |Chosen(s, text, found, allow)|
      ensures Chosen(s, text, found, allow)[i] in found
    {
      var d := Chosen(s, text, found, allow)[i];
      assert d in dets;
      KeepsTheRest(Without(found, Allowed(allow)), Touching(s.spans, text), d);
      KeepsTheRest(found, Allowed(allow), d);
    }
  }

  /** Replacements of blocked words are never empty. */
  lemma BlockEditsAreTangible(s: State, text: bytes, found: seq<Detection>, allow: seq<bytes -> bool>, faults: nat -> bool)
    requires Named(found) && InText(found, |text|) && Tangible(s) && AllBlocks(found, text)
    ensures forall k | 0 <= k < |Pass(s, text, found, allow, faults).edits| :: Pass(s, text, found, allow, faults).edits[k].text != []
  {
    ChosenIsFit(s, text, found, allow);
    ChosenAreFound(s, text, found, allow);
    var dets := Chosen(s, text, found, allow);
    forall i | 0 <= i < |dets|
      ensures Plain(dets[i])
    {
      var k :| 0 <= k < |found| && found[k] == dets[i];
      assert IsBlock(found[k], text);
    }
    StaysTangible(s, dets, Established(dets, |dets|), faults, |dets|);
  }

  /** A range that a pass leaves alone in a registered span is in that span afterwards. */
  lemma {:induction false} SpanFollows(s: State, text: bytes, found: seq<Detection>, allow: seq<bytes -> bool>, faults: nat -> bool, a: nat, b: nat)
    requires Named(found) && InText(found, |text|) && a < b <= |text| && InSpan(s.spans, text, a, b)
    requires Untouched(Pass(s, text, found, allow, faults).edits, a, b)
    ensures var p := Pass(s, text, found, allow, faults);
            && Ordered(p.edits, 0, |text|)
            && InSpan(p.state.spans, Splice(text, p.edits, 0), Moved(p.edits, 0, a), Moved(p.edits, 0, a) + (b - a))
  {
    var r :| Occurs(s.spans, text, r) && a < r.end && r.start < b;
    var r' := ThroughPass(s, text, found, allow, faults, r);
    MovedTogether(Pass(s, text, found, allow, faults).edits, 0, |text|, a, b, r.start, r.end);
  }

  /** One occurrence that the pass has left. */
  lemma LeftByPass(s: State, mid: bytes, found: seq<Detection>, allow: seq<bytes -> bool>, faults: nat -> bool, word: bytes, a: nat)
    requires Named(found) && InText(found, |mid|) && AllBlocks(found, mid) && DetectedAt(found, Span(a, a + |word|))
    requires word != [] && Shows(mid, a, word) && Pass(s, mid, found, allow, faults).ok
    requires Untouched(Pass(s, mid, found, allow, faults).edits, a, a + |word|)
    ensures MatchesAny(allow)(word) || InSpan(s.spans, mid, a, a + |word|)
  {
    hide Pass;
    var j :| 0 <= j < |found| && found[j].start == a && found[j].end == a + |word|;
    assert IsBlock(found[j], mid);
    NoneDoubtful(found, mid);
    NotReplaced(s, mid, found, allow, faults, j);
  }

  /** The safety pass detects every occurrence of a blocked word that is not a token. */
  lemma SurvivorsHaveWord(c: Config, o: Oracle, mid: bytes, word: bytes, i: nat, a: nat)
    requires Fit(c) && i < |c.blocks| && word != [] && c.blocks[i] == Literal(word) && Borderless(word)
    requires Shows(mid, a, word)
    ensures IsToken(word) || DetectedAt(Survivors(c, o, mid), Span(a, a + |word|))
  {
    hide Borderless, BlockDetections, Matches, IsToken;
    var k := EveryOccurrenceIsMatched(mid, word, a);
    BlocksAreFound(mid, c.blocks, o.draws, |c.blocks|);
    assert Covered(mid, c.blocks[i](mid), Survivors(c, o, mid), |c.blocks[i](mid)|);
  }

  lemma NoneDoubtful(found: seq<Detection>, text: bytes)
    requires AllBlocks(found, text)
    ensures forall k | 0 <= k < |found| :: !found[k].preserve
  {
    forall k | 0 <= k < |found|
      ensures !found[k].preserve
    {
      assert IsBlock(found[k], text);
    }
  }

  lemma {:induction false} PassCovers(s: State, mid: bytes, found: seq<Detection>, allow: seq<bytes -> bool>, faults: nat -> bool, word: bytes, p: nat)
    requires Named(found) && InText(found, |mid|) && AllBlocks(found, mid) && Tangible(s) && word != []
    requires forall a: nat | Shows(mid, a, word) :: DetectedAt(found, Span(a, a + |word|))
    requires var q := Pass(s, mid, found, allow, faults);
             q.ok && Ordered(q.edits, 0, |mid|) && Shows(Splice(mid, q.edits, 0), p, word)
    ensures var q := Pass(s, mid, found, allow, faults);
            MatchesAny(allow)(word) || InSpan(q.state.spans, Splice(mid, q.edits, 0), p, p + |word|)
  {
    var q := Pass(s, mid, found, allow, faults);
    BlockEditsAreTangible(s, mid, found, allow, faults);
    PassKeepsSpans(s, mid, found, allow, faults);
    hide Pass, Splice, Ordered;
    if MeetsEdit(q.edits, 0, p, p + |word|) {
      ReplacementIsSpan(mid, q, p, p + |word|);
    } else {
      var a := CopiedFrom(mid, q.edits, p, word);
      LeftByPass(s, mid, found, allow, faults, word, a);
      if InSpan(s.spans, mid, a, a + |word|) {
        SpanFollows(s, mid, found, allow, faults, a, a + |word|);
      }
    }
  }

  lemma CopiedFrom(mid: bytes, edits: seq<Edit>, p: nat, word: bytes) returns (a: nat)
    requires Ordered(edits, 0, |mid|) && Shows(Splice(mid, edits, 0), p, word) && word != []
    requires !MeetsEdit(edits, 0, p, p + |word|)
    requires forall i | 0 <= i < |edits| :: edits[i].text != []
    ensures Untouched(edits, a, a + |word|) && Moved(edits, 0, a) == p && Shows(mid, a, word)
  {
    a := OutputIsCopied(mid, edits, 0, p, p + |word|);
    UntouchedIsCopied(mid, edits, 0, a, a + |word|);
  }

  lemma {:induction false} SafetyPassCovers(s: State, c: Config, o: Oracle, mid: bytes, word: bytes, i: nat, p: nat)
    requires Fit(c) && Tangible(s) && i < |c.blocks| && word != [] && c.blocks[i] == Literal(word) && Borderless(word)
    requires var q := Pass(s, mid, Survivors(c, o, mid), c.allow, o.blockFaults);
             q.ok && Ordered(q.edits, 0, |mid|) && Shows(Splice(mid, q.edits, 0), p, word)
    ensures var q := Pass(s, mid, Survivors(c, o, mid), c.allow, o.blockFaults);
            || MatchesAny(c.allow)(word) || IsToken(word)
            || InSpan(q.state.spans, Splice(mid, q.edits, 0), p, p + |word|)
  {
    hide Pass, Splice, Ordered, Survivors, AllBlocks;
    SurvivorsAreAll(c, o, mid, word, i);
    if !IsToken(word) {
      PassCovers(s, mid, Survivors(c, o, mid), c.allow, o.blockFaults, word, p);
    }
  }

  lemma SurvivorsAreAll(c: Config, o: Oracle, mid: bytes, word: bytes, i: nat)
    requires Fit(c) && i < |c.blocks| && word != [] && c.blocks[i] == Literal(word) && Borderless(word)
    ensures AllBlocks(Survivors(c, o, mid), mid)
    ensures forall a: nat | Shows(mid, a, word) :: IsToken(word) || DetectedAt(Survivors(c, o, mid), Span(a, a + |word|))
  {
    BlocksAreFound(mid, c.blocks, o.draws, |c.blocks|);
    assert AllBlocks(Survivors(c, o, mid), mid);
    hide Survivors, AllBlocks;
    forall a: nat | Shows(mid, a, word)
      ensures IsToken(word) || DetectedAt(Survivors(c, o, mid), Span(a, a + |word|))
    {
      SurvivorsHaveWord(c, o, mid, word, i, a);
    }
  }

  /** After Tokenize, every place where a blocked word still stands is allow-listed, begins like
      a token for a blocked word, or overlaps a registered span. */
  lemma BlockedWordsAreCovered(s: State, c: Config, o: Oracle, text: bytes, word: bytes, i: nat, p: nat)
    requires Fit(c) && Tangible(s) && i < |c.blocks| && word != [] && c.blocks[i] == Literal(word) && Borderless(word)
    requires Traced(s, c, o, text).result.Some? && Shows(Traced(s, c, o, text).result.value, p, word)
    ensures var t := Traced(s, c, o, text);
            || MatchesAny(c.allow)(word) || BeginsLikeToken(word)
            || InSpan(t.second.state.spans, t.result.value, p, p + |word|)
  {
    TokensBeginLikeIt(word);
    var mid := Middle(s, c, o, text);
    FirstPassIsTangible(s, c, o, text);
    SecondPassWorked(s, c, o, text, mid);
    hide Traced, Pass, Survivors, Splice;
    SafetyPassCovers(Traced(s, c, o, text).first.state, c, o, mid, word, i, p);
  }

  lemma SecondPassWorked(s: State, c: Config, o: Oracle, text: bytes, mid: bytes)
    requires Fit(c) && Traced(s, c, o, text).result.Some?
    ensures Traced(s, c, o, text).second.ok
  {}

  lemma FirstPassIsTangible(s: State, c: Config, o: Oracle, text: bytes)
    requires Fit(c) && Tangible(s) && Traced(s, c, o, text).result.Some?
    ensures Tangible(Traced(s, c, o, text).first.state)
  {
    var found := c.detect(text).value;
    ChosenIsFit(s, text, found, c.allow);
    var dets := Chosen(s, text, found, c.allow);
    StaysTangible(s, dets, Established(dets, |dets|), o.faults, |dets|);
  }
}

/**
 Tokenize does not make invalid UTF-8 of valid text (internal/redact/engine.go,
 internal/redact/fuzz_test.go), when detections begin and end between characters and tokens and formats
 are valid text.
 */
module TokenizeUtf8 {
  import opened Bytes
  import opened Scanning
  import opened SpanTries
  import opened Splicing
  import opened Minting
  import opened StoreStates
  import opened Detections
  import opened Filters
  import opened Substitution
  import opened Engines
  import opened Utf8
  import Repeating

  /** Edits between characters, with valid texts. */
  predicate EditsWhole(text: bytes, edits: seq<Edit>) {
    forall k | 0 <= k < |edits| :: CutPoint(text, edits[k].start) && CutPoint(text, edits[k].end) && WellFormed(edits[k].text)
  }

  /** The text in front of the edit and the text behind it. */
  lemma AroundEdit(text: bytes, last: nat, e: Edit)
    requires WellFormed(text) && last <= e.start <= e.end <= |text| && WellFormed(text[last..])
    requires CutPoint(text, e.start) && CutPoint(text, e.end)
    ensures WellFormed(text[last..e.start]) && WellFormed(text[e.end..])
  {
    hide WellFormed;
    var tail := text[last..];
    assert e.start < |text| ==> tail[e.start - last] == text[e.start];
    CutWellFormed(tail, e.start - last);
    assert tail[..e.start - last] == text[last..e.start];
    CutWellFormed(text, e.end);
  }

  lemma OtherEdits(text: bytes, edits: seq<Edit>)
    requires EditsWhole(text, edits) && edits != []
    ensures EditsWhole(text, edits[1..])
    ensures CutPoint(text, edits[0].start) && CutPoint(text, edits[0].end) && WellFormed(edits[0].text)
  {
    hide WellFormed, CutPoint;
    assert forall k | 0 <= k < |edits[1..]| :: edits[1..][k] == edits[k + 1];
  }

  lemma {:induction false} SpliceKeepsUtf8(text: bytes, edits: seq<Edit>, last: nat)
    requires Ordered(edits, last, |text|) && WellFormed(text) && EditsWhole(text, edits)
    requires last <= |text| && WellFormed(text[last..])
    ensures WellFormed(Splice(text, edits, last))
  {
    OrderedBound(edits, last, |text|);
    hide WellFormed, EditsWhole, CutPoint;
    if edits != [] {
      var e := edits[0];
      OtherEdits(text, edits);
      AroundEdit(text, last, e);
      SpliceKeepsUtf8(text, edits[1..], e.end);
      JoinWellFormed(text[last..e.start], e.text);
      JoinWellFormed(text[last..e.start] + e.text, Splice(text, edits[1..], e.end));
    }
  }

  /** Every token of the store is valid text. */
  ghost predicate TokensWellFormed(r2t: Mapping) {
    forall r | r in r2t :: WellFormed(r2t[r])
  }

  ghost predicate DrawsWellFormed(req: Request) {
    forall k: nat :: WellFormed(req.draw(k))
  }

  /** The detection begins and ends between characters, and its format makes valid text of valid tokens. */
  ghost predicate Careful(text: bytes, d: Detection) {
    && CutPoint(text, d.start) && CutPoint(text, d.end)
    && (forall i | 0 <= i < |d.lookups| :: DrawsWellFormed(d.lookups[i]))
    && (forall tokens: seq<bytes> | AllWellFormed(tokens) :: WellFormed(Build(d)(tokens)))
  }

  ghost predicate AllWellFormed(tokens: seq<bytes>) {
    forall i | 0 <= i < |tokens| :: WellFormed(tokens[i])
  }

  ghost predicate AllCareful(text: bytes, dets: seq<Detection>) {
    forall i | 0 <= i < |dets| :: Careful(text, dets[i])
  }

  lemma {:induction false} FirstFreeWellFormed(existing: Mapping, req: Request, k: nat)
    requires DrawsWellFormed(req)
    ensures FirstFree(existing, req.draw, k).Some? ==> WellFormed(FirstFree(existing, req.draw, k).value)
    decreases 10 - k
  {
    hide WellFormed;
    if k < 10 {
      FirstFreeWellFormed(existing, req, k + 1);
    }
  }

  lemma {:induction false} DecimalIsAscii(n: nat)
    ensures Ascii(Decimal(n))
  {
    if n >= 10 {
      DecimalIsAscii(n / 10);
    }
  }

  lemma {:induction false} HexIsAscii(n: nat, width: nat)
    ensures Ascii(HexDigits(n, width))
  {
    if width > 0 {
      HexIsAscii(n / 16, width - 1);
    }
  }

  lemma NetworkTokensWellFormed(n: nat)
    requires n < UINT32
    ensures WellFormed(IpToken(n)) && WellFormed(Ip6Token(n))
  {
    DecimalIsAscii(n);
    HexIsAscii(n / 0x10000, 4);
    HexIsAscii(n % 0x10000, 4);
    AsciiIsWellFormed(IpToken(n));
    AsciiIsWellFormed(Ip6Token(n));
  }

  lemma NextWellFormed(d: Disk, existing: Mapping, req: Request)
    requires DrawsWellFormed(req)
    ensures Next(d, existing, req).Some? ==> WellFormed(Next(d, existing, req).value.token)
  {
    hide WellFormed, DrawsWellFormed, IpToken, Ip6Token;
    NetworkTokensWellFormed(((d.ip + 1) % UINT32 + UINT32 - 1) % UINT32);
    NetworkTokensWellFormed((d.ip6 + 1) % UINT32);
    FirstFreeWellFormed(existing, req, 0);
  }

  lemma {:induction false} MintedWellFormed(r2t: Mapping, t2r: Mapping, d: Disk, reqs: seq<Request>, n: nat)
    requires n <= |reqs| && TokensWellFormed(r2t) && forall i | 0 <= i < |reqs| :: DrawsWellFormed(reqs[i])
    ensures var m := MintUpTo(MinterOf(r2t, t2r), d, reqs, n); m.Some? ==> AllWellFormed(m.value.tokens)
  {
    hide WellFormed, Next, DrawsWellFormed;
    if n > 0 {
      MintedWellFormed(r2t, t2r, d, reqs, n - 1);
      var before := MintUpTo(MinterOf(r2t, t2r), d, reqs, n - 1);
      if before.Some? {
        NextWellFormed(before.value.disk, t2r, reqs[n - 1]);
      }
    }
  }

  lemma {:induction false} RecordedWellFormed(m: Mapping, keys: seq<bytes>, values: seq<bytes>, n: nat)
    requires n <= |keys| == |values| && TokensWellFormed(m) && AllWellFormed(values)
    ensures TokensWellFormed(Recorded(m, keys, values, n))
  {
    hide WellFormed;
    if n > 0 {
      RecordedWellFormed(m, keys, values, n - 1);
    }
  }

  lemma MintKeepsUtf8(s: State, reqs: seq<Request>, build: seq<bytes> -> bytes, fault: bool)
    requires TokensWellFormed(s.r2t) && forall i | 0 <= i < |reqs| :: DrawsWellFormed(reqs[i])
    ensures var out := Mint(s, reqs, build, fault);
            TokensWellFormed(out.state.r2t) && (out.tokens.Some? ==> AllWellFormed(out.tokens.value))
  {
    hide WellFormed, MintUpTo, MinterOf, Recorded, DrawsWellFormed;
    MintedWellFormed(s.r2t, s.t2r, s.disk, reqs, |reqs|);
    var m := MintUpTo(MinterOf(s.r2t, s.t2r), s.disk, reqs, |reqs|);
    if m.Some? {
      RecordedWellFormed(s.r2t, Values(reqs), m.value.tokens, |reqs|);
    }
  }

  lemma {:induction false} AppliedKeepsUtf8(s: State, text: bytes, dets: seq<Detection>, established: set<bytes>, faults: nat -> bool, n: nat)
    requires n <= |dets| && Named(dets) && AllCareful(text, dets) && TokensWellFormed(s.r2t)
    ensures var p := Applied(s, dets, established, faults, n);
            TokensWellFormed(p.state.r2t) && EditsWhole(text, p.edits)
  {
    hide WellFormed, Mint, Build, TokensWellFormed, AllWellFormed, CutPoint;
    if n > 0 {
      AppliedKeepsUtf8(s, text, dets, established, faults, n - 1);
      var p, d := Applied(s, dets, established, faults, n - 1), dets[n - 1];
      assert Careful(text, d);
      MintKeepsUtf8(p.state, d.lookups, Build(d), faults(n - 1));
    }
  }

  lemma ChosenIsCareful(s: State, text: bytes, found: seq<Detection>, allow: seq<bytes -> bool>)
    requires AllCareful(text, found)
    ensures AllCareful(text, Chosen(s, text, found, allow))
  {
    hide Careful, Chosen, Allowed, Touching;
    forall i | 0 <= i < |Chosen(s, text, found, allow)|
      ensures Careful(text, Chosen(s, text, found, allow)[i])
    {
      Repeating.ChosenIsFound(s, text, found, allow, i);
    }
  }

  lemma PassTextKeepsUtf8(s: State, text: bytes, found: seq<Detection>, allow: seq<bytes -> bool>, faults: nat -> bool)
    requires Named(found) && InText(found, |text|) && AllCareful(text, found) && TokensWellFormed(s.r2t) && WellFormed(text)
    ensures var p := Engines.Pass(s, text, found, allow, faults);
            TokensWellFormed(p.state.r2t) && Ordered(p.edits, 0, |text|) && WellFormed(Splice(text, p.edits, 0))
  {
    hide WellFormed, Chosen, Applied, AllCareful, TokensWellFormed, Splice, Ordered, EditsWhole;
    ChosenIsFit(s, text, found, allow);
    ChosenIsCareful(s, text, found, allow);
    PassIsOrdered(s, text, found, allow, faults);
    var dets := Chosen(s, text, found, allow);
    AppliedKeepsUtf8(s, text, dets, Established(dets, |dets|), faults, |dets|);
    assert text[0..] == text;
    SpliceKeepsUtf8(text, Engines.Pass(s, text, found, allow, faults).edits, 0);
  }

  lemma {:induction false} FoundCareful(text: bytes, locs: seq<Span>, draws: nat -> nat -> bytes, found: seq<Detection>, n: nat)
    requires n <= |locs| && FitLocs(locs, |text|) && AllCareful(text, found)
    requires (forall i, k: nat :: WellFormed(draws(i)(k))) && LocsWhole(text, locs)
    ensures AllCareful(text, FoundBy(text, locs, draws, found, n))
  {
    hide WellFormed, IsToken, CutPoint;
    if n > 0 {
      FoundCareful(text, locs, draws, found, n - 1);
      BlockIsCareful(text, locs[n - 1], draws(|FoundBy(text, locs, draws, found, n - 1)|));
    }
  }

  lemma BlockIsCareful(text: bytes, loc: Span, draw: nat -> bytes)
    requires loc.start <= loc.end <= |text| && CutPoint(text, loc.start) && CutPoint(text, loc.end)
    requires forall k: nat :: WellFormed(draw(k))
    ensures Careful(text, BlockDetection(text, loc, draw))
  {
    var d := BlockDetection(text, loc, draw);
    assert WellFormed([]);
    hide WellFormed;
    assert d.format.None?;
  }

  predicate LocsWhole(text: bytes, locs: seq<Span>) {
    forall k | 0 <= k < |locs| :: CutPoint(text, locs[k].start) && CutPoint(text, locs[k].end)
  }

  lemma {:induction false} BlocksCareful(text: bytes, blocks: seq<bytes -> seq<Span>>, draws: nat -> nat -> bytes, n: nat)
    requires n <= |blocks| && forall i | 0 <= i < |blocks| :: FitLocs(blocks[i](text), |text|)
    requires forall i, k: nat :: WellFormed(draws(i)(k))
    requires forall i | 0 <= i < |blocks| :: LocsWhole(text, blocks[i](text))
    ensures AllCareful(text, BlockDetections(text, blocks, draws, n))
  {
    hide WellFormed, CutPoint, FoundBy, Careful;
    if n > 0 {
      BlocksCareful(text, blocks, draws, n - 1);
      FoundCareful(text, blocks[n - 1](text), draws, BlockDetections(text, blocks, draws, n - 1), |blocks[n - 1](text)|);
    }
  }

  /** In valid text, detectors are careful, block patterns match whole characters, and candidates are
      valid text. */
  ghost predicate CarefulRules(c: Config, o: Oracle) {
    && (forall text: bytes | WellFormed(text) && c.detect(text).Some? :: AllCareful(text, c.detect(text).value))
    && (forall text: bytes, i | WellFormed(text) && 0 <= i < |c.blocks| :: LocsWhole(text, c.blocks[i](text)))
    && (forall i, k: nat :: WellFormed(o.draws(i)(k)))
  }

  lemma SurvivorsAreCareful(c: Config, o: Oracle, text: bytes)
    requires Fit(c) && CarefulRules(c, o) && WellFormed(text)
    ensures AllCareful(text, Survivors(c, o, text))
  {
    hide WellFormed, LocsWhole, AllCareful;
    BlocksCareful(text, c.blocks, o.draws, |c.blocks|);
  }

  /** Tokenize keeps valid text valid, and the tokens in the store. */
  lemma TokenizeKeepsUtf8(s: State, c: Config, o: Oracle, text: bytes)
    requires Fit(c) && CarefulRules(c, o) && TokensWellFormed(s.r2t) && Traced(s, c, o, text).result.Some?
    ensures WellFormed(Traced(s, c, o, text).result.value)
    ensures TokensWellFormed(Traced(s, c, o, text).second.state.r2t)
  {
    Repeating.WellFormedWhenDone(s, c, o, text);
    DetectedWhenDone(s, c, o, text);
    hide Traced, Engines.Pass, Splice, Survivors, WellFormed, AllCareful, TokensWellFormed, Ordered, LocsWhole;
    TracedInSteps(s, c, o, text);
    PassTextKeepsUtf8(s, text, c.detect(text).value, c.allow, o.faults);
    var mid := Substituted(s, c, o, text);
    SurvivorsAreCareful(c, o, mid);
    PassTextKeepsUtf8(Traced(s, c, o, text).first.state, mid, Survivors(c, o, mid), c.allow, o.blockFaults);
  }

  lemma DetectedWhenDone(s: State, c: Config, o: Oracle, text: bytes)
    requires Fit(c) && Traced(s, c, o, text).result.Some?
    ensures c.detect(text).Some? && Named(c.detect(text).value) && InText(c.detect(text).value, |text|)
  {}
}

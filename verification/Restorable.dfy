/**
 What is written into a text leads back: every replacement is built from the tokens under which the
 store holds the replaced values (applyDetections in internal/redact/engine.go together with
 MintAndRegisterSpan in internal/tokenstore/spans.go).
 */
module Restorable {
  import opened Bytes
  import opened Scanning
  import opened Splicing
  import opened Minting
  import opened StoreStates
  import opened StoreLaws
  import opened StoreCounters
  import opened StoreRuns
  import opened Detections
  import opened Substitution

  /** No value is named twice, and random candidates of different values do not collide. */
  ghost predicate Clean(d: Detection) {
    |d.lookups| < UINT32 && AllApart(d.lookups) && AskedOnce(map[], d.lookups)
  }

  ghost predicate AllClean(dets: seq<Detection>) {
    forall i | 0 <= i < |dets| :: Clean(dets[i])
  }

  /** The edit replaces the detection by what its format makes of the tokens of its values. */
  predicate ReplacedBy(r2t: Mapping, d: Detection, e: Edit) {
    && e.start == d.start && e.end == d.end
    && AllKnown(r2t, d.lookups, |d.lookups|)
    && e.text == Build(d)(KnownTokens(r2t, d.lookups, |d.lookups|))
  }

  ghost predicate Accounted(r2t: Mapping, dets: seq<Detection>, n: nat, e: Edit)
    requires n <= |dets|
  {
    exists i :: 0 <= i < n && ReplacedBy(r2t, dets[i], e)
  }

  ghost predicate AllAccounted(r2t: Mapping, dets: seq<Detection>, n: nat, edits: seq<Edit>)
    requires n <= |dets|
  {
    forall k | 0 <= k < |edits| :: Accounted(r2t, dets, n, edits[k])
  }

  lemma KnownTokensStay(r2t: Mapping, r2t': Mapping, reqs: seq<Request>)
    requires Extends(r2t, r2t') && AllKnown(r2t, reqs, |reqs|)
    ensures AllKnown(r2t', reqs, |reqs|) && KnownTokens(r2t', reqs, |reqs|) == KnownTokens(r2t, reqs, |reqs|)
  {
    hide KnownTokens;
    assert AllKnown(r2t', reqs, |reqs|);
    var a, b := KnownTokens(r2t, reqs, |reqs|), KnownTokens(r2t', reqs, |reqs|);
    assert forall i | 0 <= i < |reqs| :: a[i] == b[i];
  }

  lemma AccountedStays(r2t: Mapping, r2t': Mapping, dets: seq<Detection>, n: nat, m: nat, edits: seq<Edit>)
    requires Extends(r2t, r2t') && n <= m <= |dets| && AllAccounted(r2t, dets, n, edits)
    ensures AllAccounted(r2t', dets, m, edits)
  {
    hide KnownTokens, Build, Extends;
    forall k | 0 <= k < |edits|
      ensures Accounted(r2t', dets, m, edits[k])
    {
      assert Accounted(r2t, dets, n, edits[k]);
      var i :| 0 <= i < n && ReplacedBy(r2t, dets[i], edits[k]);
      KnownTokensStay(r2t, r2t', dets[i].lookups);
    }
  }

  /** In a store whose maps are inverse, tokens that lead to the values are the values' tokens. */
  lemma ResolvedAreKnown(s: State, reqs: seq<Request>, tokens: seq<bytes>)
    requires |tokens| == |reqs| && StoreLaws.Resolves(s, reqs, tokens)
    ensures AllKnown(s.r2t, reqs, |reqs|) && tokens == KnownTokens(s.r2t, reqs, |reqs|)
  {
    hide KnownTokens;
    forall i | 0 <= i < |reqs|
      ensures reqs[i].value in s.r2t && s.r2t[reqs[i].value] == tokens[i]
    {
      assert s.t2r[tokens[i]] == reqs[i].value;
    }
    assert AllKnown(s.r2t, reqs, |reqs|);
    var known := KnownTokens(s.r2t, reqs, |reqs|);
    assert forall i | 0 <= i < |reqs| :: known[i] == tokens[i];
  }

  /** Minting keeps every token that was known. */
  lemma MintExtends(s: State, reqs: seq<Request>, build: seq<bytes> -> bytes, fault: bool)
    requires Good(s)
    ensures Extends(s.r2t, Mint(s, reqs, build, fault).state.r2t)
  {
    hide Recorded, KnownTokens, MintUpTo, Extends;
    var m := MintUpTo(MinterOf(s.r2t, s.t2r), s.disk, reqs, |reqs|);
    SameExtends(s.r2t);
    if !AllKnown(s.r2t, reqs, |reqs|) && m.Some? {
      CommitGrants(s, reqs, m.value);
      KnownExtends(s.r2t, s.t2r, reqs, m.value.tokens, |reqs|);
    }
  }

  lemma SameExtends(r2t: Mapping)
    ensures Extends(r2t, r2t)
  {}

  lemma ExtendsTwice(a: Mapping, b: Mapping, c: Mapping)
    requires Extends(a, b) && Extends(b, c)
    ensures Extends(a, c)
  {}

  lemma MintLeadsBack(s: State, d: Detection, fault: bool)
    requires Good(s) && Clean(d)
    ensures var out := Mint(s, d.lookups, Build(d), fault);
            && Good(out.state) && Extends(s.r2t, out.state.r2t)
            && (out.tokens.Some? ==> ReplacedBy(out.state.r2t, d, Edit(d.start, d.end, Build(d)(out.tokens.value))))
  {
    hide Mint, Good, Build, KnownTokens, Extends;
    var out := Mint(s, d.lookups, Build(d), fault);
    MintExtends(s, d.lookups, Build(d), fault);
    MintResolvesIff(s, d.lookups, Build(d), fault);
    if out.tokens.Some? {
      DistinctIsAskedOnce(s.r2t, d.lookups);
      MintKeepsGoodIff(s, d.lookups, Build(d), fault);
      ResolvedAreKnown(out.state, d.lookups, out.tokens.value);
    }
  }

  /** After any number of detections every replacement made so far is what its detection's format
      makes of the tokens that the store, whose maps are inverse, now holds for its values. */
  lemma {:induction false} ReplacementsLeadBack(s: State, dets: seq<Detection>, established: set<bytes>, faults: nat -> bool, n: nat)
    requires n <= |dets| && Named(dets) && Good(s) && AllClean(dets)
    ensures var p := Applied(s, dets, established, faults, n);
            Good(p.state) && Extends(s.r2t, p.state.r2t) && AllAccounted(p.state.r2t, dets, n, p.edits)
  {
    hide Mint, Good, Build, Extends, AllAccounted, Clean;
    if n == 0 {
      SameExtends(s.r2t);
      NothingAccounted(s.r2t, dets);
    } else {
      ReplacementsLeadBack(s, dets, established, faults, n - 1);
      var p, d := Applied(s, dets, established, faults, n - 1), dets[n - 1];
      SameExtends(p.state.r2t);
      AccountedStays(p.state.r2t, p.state.r2t, dets, n - 1, n, p.edits);
      if p.ok && !LeftAlone(p.state, established, d) {
        var out := Mint(p.state, d.lookups, Build(d), faults(n - 1));
        MintLeadsBack(p.state, d, faults(n - 1));
        ExtendsTwice(s.r2t, p.state.r2t, out.state.r2t);
        AccountedStays(p.state.r2t, out.state.r2t, dets, n - 1, n, p.edits);
        if out.tokens.Some? {
          OneMoreAccounted(out.state.r2t, dets, n, p.edits, Edit(d.start, d.end, Build(d)(out.tokens.value)));
        }
      }
    }
  }

  lemma NothingAccounted(r2t: Mapping, dets: seq<Detection>)
    ensures AllAccounted(r2t, dets, 0, [])
  {}

  lemma OneMoreAccounted(r2t: Mapping, dets: seq<Detection>, n: nat, edits: seq<Edit>, e: Edit)
    requires 0 < n <= |dets| && AllAccounted(r2t, dets, n, edits) && ReplacedBy(r2t, dets[n - 1], e)
    ensures AllAccounted(r2t, dets, n, edits + [e])
  {
    hide ReplacedBy;
    assert Accounted(r2t, dets, n, e);
  }

  /** A replacement without format is a token that the store resolves to the replaced value. */
  lemma PlainReplacementResolves(s: State, dets: seq<Detection>, faults: nat -> bool, k: nat)
    requires Named(dets) && Good(s) && AllClean(dets) && k < |Apply(s, dets, faults).edits|
    requires forall i | 0 <= i < |dets| :: dets[i].format.None?
    ensures var p := Apply(s, dets, faults);
            exists i :: 0 <= i < |dets| && p.edits[k].start == dets[i].start && p.edits[k].end == dets[i].end
                        && p.edits[k].text in p.state.t2r && p.state.t2r[p.edits[k].text] == dets[i].lookups[0].value
  {
    hide Applied, Established, AllClean;
    var p := Apply(s, dets, faults);
    ReplacementsLeadBack(s, dets, Established(dets, |dets|), faults, |dets|);
    assert Accounted(p.state.r2t, dets, |dets|, p.edits[k]);
    var i :| 0 <= i < |dets| && ReplacedBy(p.state.r2t, dets[i], p.edits[k]);
    assert p.edits[k].text == p.state.r2t[dets[i].lookups[0].value];
  }
}

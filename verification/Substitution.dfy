/**
 Writing the tokens (applyDetections in internal/redact/engine.go): every detection is minted,
 its span registered and its text replaced, from left to right. Minting can fail for any
 detection, which fails the whole call but keeps what was minted before.
 */
module Substitution {
  import opened Bytes
  import opened Scanning
  import opened SpanTries
  import opened Splicing
  import opened Minting
  import opened StoreStates
  import opened StoreRuns
  import opened TokenStores
  import opened Detections

  /** Every detector names at least one value. */
  predicate Named(dets: seq<Detection>) {
    forall i | 0 <= i < |dets| :: dets[i].lookups != []
  }

  predicate InOrder(dets: seq<Detection>) {
    forall a, b | 0 <= a < b < |dets| :: dets[a].end <= dets[b].start
  }

  function ValuesOf(reqs: seq<Request>, n: nat): set<bytes>
    requires n <= |reqs|
  {
    if n == 0 then {} else ValuesOf(reqs, n - 1) + {reqs[n - 1].value}
  }

  /** establishedThisCall: the values named by detections of the ordinary kind. */
  function Established(dets: seq<Detection>, n: nat): set<bytes>
    requires n <= |dets|
  {
    if n == 0 then {}
    else Established(dets, n - 1) + if dets[n - 1].preserve then {} else ValuesOf(dets[n - 1].lookups, |dets[n - 1].lookups|)
  }

  datatype Progress = Progress(state: State, edits: seq<Edit>, ok: bool)

  /** A doubtful detection of a value that nothing else has established. */
  predicate LeftAlone(s: State, established: set<bytes>, d: Detection)
    requires d.lookups != []
  {
    d.preserve && d.lookups[0].value !in s.r2t && d.lookups[0].value !in established
  }

  function Advance(p: Progress, established: set<bytes>, d: Detection, fault: bool): Progress
    requires d.lookups != []
  {
    if LeftAlone(p.state, established, d) then p
    else
      var out := Mint(p.state, d.lookups, Build(d), fault);
      match out.tokens
      case None => p.(state := out.state, ok := false)
      case Some(tokens) => p.(state := out.state, edits := p.edits + [Edit(d.start, d.end, Build(d)(tokens))])
  }

  /** After the first n detections. */
  function Applied(s: State, dets: seq<Detection>, established: set<bytes>, faults: nat -> bool, n: nat): Progress
    requires n <= |dets| && Named(dets)
  {
    if n == 0 then Progress(s, [], true)
    else
      var p := Applied(s, dets, established, faults, n - 1);
      if p.ok then Advance(p, established, dets[n - 1], faults(n - 1)) else p
  }

  function Apply(s: State, dets: seq<Detection>, faults: nat -> bool): Progress
    requires Named(dets)
  {
    Applied(s, dets, Established(dets, |dets|), faults, |dets|)
  }

  // ------------------------------------------------------------------ the edits follow the detections

  /** Edits at the ranges of detections, in their order. */
  ghost predicate Follows(edits: seq<Edit>, dets: seq<Detection>, n: nat)
    requires n <= |dets|
  {
    forall k | 0 <= k < |edits| :: IsRangeOf(edits[k], dets, n)
  }

  ghost predicate IsRangeOf(e: Edit, dets: seq<Detection>, n: nat)
    requires n <= |dets|
  {
    exists i :: 0 <= i < n && e.start == dets[i].start && e.end == dets[i].end
  }

  /** The end of the last detection before n. */
  function Reached(dets: seq<Detection>, n: nat): nat
    requires n <= |dets|
  {
    if n == 0 then 0 else dets[n - 1].end
  }

  lemma {:induction false} EditsFollow(s: State, dets: seq<Detection>, established: set<bytes>, faults: nat -> bool, n: nat, m: nat)
    requires n <= |dets| && Named(dets) && InText(dets, m) && InOrder(dets)
    ensures var edits := Applied(s, dets, established, faults, n).edits;
            Ordered(edits, 0, Reached(dets, n)) && Follows(edits, dets, n)
  {
    hide Mint;
    if n > 0 {
      EditsFollow(s, dets, established, faults, n - 1, m);
      var p := Applied(s, dets, established, faults, n - 1);
      var edits := Applied(s, dets, established, faults, n).edits;
      hide Ordered;
      OrderedMore(p.edits, 0, Reached(dets, n - 1), Reached(dets, n));
      if edits != p.edits {
        var e := edits[|p.edits|];
        OrderedSnoc(p.edits, 0, Reached(dets, n - 1), e, Reached(dets, n));
        assert IsRangeOf(e, dets, n);
      }
      forall k | 0 <= k < |p.edits|
        ensures IsRangeOf(p.edits[k], dets, n)
      {
        assert IsRangeOf(p.edits[k], dets, n - 1);
      }
    }
  }

  // ------------------------------------------------------------------ which detections are replaced

  /** The rule: everything but a doubtful detection of a value that was unknown when the call
      began and that no ordinary detection of the batch names. */
  ghost predicate IsReplaced(s: State, dets: seq<Detection>, i: nat)
    requires i < |dets| && Named(dets)
  {
    || !dets[i].preserve
    || dets[i].lookups[0].value in s.r2t
    || exists j, k :: Names(dets, j, k, dets[i].lookups[0].value)
  }

  /** The ordinary detection j names the value. */
  predicate Names(dets: seq<Detection>, j: int, k: int, value: bytes) {
    0 <= j < |dets| && !dets[j].preserve && 0 <= k < |dets[j].lookups| && dets[j].lookups[k].value == value
  }

  lemma {:induction false} InValues(reqs: seq<Request>, n: nat, value: bytes)
    requires n <= |reqs|
    ensures value in ValuesOf(reqs, n) <==> exists k :: 0 <= k < n && reqs[k].value == value
  {
    if n > 0 {
      InValues(reqs, n - 1, value);
    }
  }

  lemma {:induction false} InEstablished(dets: seq<Detection>, n: nat, value: bytes)
    requires n <= |dets|
    ensures value in Established(dets, n) <==> exists j, k :: j < n && Names(dets, j, k, value)
  {
    if n > 0 {
      InEstablished(dets, n - 1, value);
      var d := dets[n - 1];
      InValues(d.lookups, |d.lookups|, value);
      if !d.preserve && value in ValuesOf(d.lookups, |d.lookups|) {
        var k :| 0 <= k < |d.lookups| && d.lookups[k].value == value;
        assert Names(dets, n - 1, k, value);
      }
      if j, k :| j < n && Names(dets, j, k, value) {
        if j == n - 1 {
          assert value in ValuesOf(d.lookups, |d.lookups|);
        }
      }
    }
  }

  /** A doubtful detection names one value (internal/redact/detector.go). */
  predicate Doubtful(dets: seq<Detection>) {
    forall i | 0 <= i < |dets| && dets[i].preserve :: |dets[i].lookups| == 1
  }

  lemma {:induction false} RecordedInValues(m: Mapping, reqs: seq<Request>, tokens: seq<bytes>, n: nat)
    requires n <= |reqs| == |tokens|
    ensures Recorded(m, Values(reqs), tokens, n).Keys == m.Keys + ValuesOf(reqs, n)
  {
    if n > 0 {
      RecordedInValues(m, reqs, tokens, n - 1);
    }
  }

  lemma {:induction false} MintKnows(s: State, reqs: seq<Request>, build: seq<bytes> -> bytes, fault: bool)
    ensures var out := Mint(s, reqs, build, fault);
            s.r2t.Keys <= out.state.r2t.Keys <= s.r2t.Keys + ValuesOf(reqs, |reqs|)
  {
    hide Recorded, ValuesOf;
    if !AllKnown(s.r2t, reqs, |reqs|) && Mint(s, reqs, build, fault).tokens.Some? {
      var m := MintUpTo(MinterOf(s.r2t, s.t2r), s.disk, reqs, |reqs|).value;
      RecordedInValues(s.r2t, reqs, m.tokens, |reqs|);
    }
  }

  /** What becomes known while the batch is applied was established from the start. */
  lemma {:induction false} KnownDuring(s: State, dets: seq<Detection>, faults: nat -> bool, n: nat)
    requires n <= |dets| && Named(dets) && Doubtful(dets)
    ensures var established := Established(dets, |dets|);
            var p := Applied(s, dets, established, faults, n);
            s.r2t.Keys <= p.state.r2t.Keys <= s.r2t.Keys + established
  {
    hide Mint;
    if n > 0 {
      KnownDuring(s, dets, faults, n - 1);
      var established, d := Established(dets, |dets|), dets[n - 1];
      var p := Applied(s, dets, established, faults, n - 1);
      if p.ok && !LeftAlone(p.state, established, d) {
        MintKnows(p.state, d.lookups, Build(d), faults(n - 1));
        ValuesEstablished(s, dets, n - 1, p.state);
      }
    }
  }

  lemma {:induction false} ValuesEstablished(s: State, dets: seq<Detection>, i: nat, now: State)
    requires i < |dets| && Named(dets) && Doubtful(dets)
    requires now.r2t.Keys <= s.r2t.Keys + Established(dets, |dets|) && !LeftAlone(now, Established(dets, |dets|), dets[i])
    ensures ValuesOf(dets[i].lookups, |dets[i].lookups|) <= s.r2t.Keys + Established(dets, |dets|)
  {
    var d := dets[i];
    forall value | value in ValuesOf(d.lookups, |d.lookups|)
      ensures value in s.r2t.Keys + Established(dets, |dets|)
    {
      InValues(d.lookups, |d.lookups|, value);
      var k :| 0 <= k < |d.lookups| && d.lookups[k].value == value;
      if !d.preserve {
        InEstablished(dets, |dets|, value);
        assert Names(dets, i, k, value);
      }
    }
  }

  /** How many of the first n detections the rule replaces. */
  ghost function ReplacedBefore(s: State, dets: seq<Detection>, n: nat): nat
    requires n <= |dets| && Named(dets)
  {
    if n == 0 then 0 else ReplacedBefore(s, dets, n - 1) + if IsReplaced(s, dets, n - 1) then 1 else 0
  }

  /** Whatever their order in the text, exactly the detections that the rule names are replaced. */
  lemma {:induction false} ReplacedByRule(s: State, dets: seq<Detection>, faults: nat -> bool, n: nat)
    requires n <= |dets| && Named(dets) && Doubtful(dets)
    requires Applied(s, dets, Established(dets, |dets|), faults, n).ok
    ensures var edits := Applied(s, dets, Established(dets, |dets|), faults, n).edits;
            && |edits| == ReplacedBefore(s, dets, n)
            && (forall i | 0 <= i < n && IsReplaced(s, dets, i) ::
                  && ReplacedBefore(s, dets, i) < |edits|
                  && edits[ReplacedBefore(s, dets, i)].start == dets[i].start
                  && edits[ReplacedBefore(s, dets, i)].end == dets[i].end)
  {
    hide Mint, Established, Doubtful, Build;
    if n > 0 {
      ReplacedByRule(s, dets, faults, n - 1);
      KnownDuring(s, dets, faults, n - 1);
      InEstablished(dets, |dets|, dets[n - 1].lookups[0].value);
      var p := Applied(s, dets, Established(dets, |dets|), faults, n - 1);
      assert LeftAlone(p.state, Established(dets, |dets|), dets[n - 1]) <==> !IsReplaced(s, dets, n - 1);
    }
  }

  // ------------------------------------------------------------------ every replacement is registered

  ghost predicate Tangible(s: State) {
    forall r | r in s.r2t :: s.r2t[r] != []
  }

  ghost predicate AllRegistered(p: Progress) {
    forall k | 0 <= k < |p.edits| :: p.edits[k].text == [] || p.edits[k].text in p.state.spans
  }

  lemma MintRegisters(s: State, reqs: seq<Request>, build: seq<bytes> -> bytes, fault: bool)
    ensures var out := Mint(s, reqs, build, fault);
            && s.spans <= out.state.spans
            && (out.tokens.Some? ==> build(out.tokens.value) == [] || build(out.tokens.value) in out.state.spans)
  {}

  /** Before any of it is sent, every replacement is a registered span; registered spans stay. */
  lemma {:induction false} ReplacementsRegistered(s: State, dets: seq<Detection>, established: set<bytes>, faults: nat -> bool, n: nat)
    requires n <= |dets| && Named(dets)
    ensures var p := Applied(s, dets, established, faults, n); s.spans <= p.state.spans && AllRegistered(p)
  {
    hide Mint;
    if n > 0 {
      ReplacementsRegistered(s, dets, established, faults, n - 1);
      var p, d := Applied(s, dets, established, faults, n - 1), dets[n - 1];
      if p.ok && !LeftAlone(p.state, established, d) {
        MintRegisters(p.state, d.lookups, Build(d), faults(n - 1));
      }
    }
  }

  // ------------------------------------------------------------------ the loop

  method CollectEstablished(dets: seq<Detection>) returns (established: set<bytes>)
    ensures established == Established(dets, |dets|)
  {
    established := {};
    for i := 0 to |dets|
      invariant established == Established(dets, i)
    {
      if !dets[i].preserve {
        ghost var before := established;
        for k := 0 to |dets[i].lookups|
          invariant established == before + ValuesOf(dets[i].lookups, k)
        {
          established := established + {dets[i].lookups[k].value};
        }
      }
    }
  }

  /** Mint the tokens of one detection and register their span. */
  method Replacement(store: Store, d: Detection, fault: bool) returns (replacement: Option<bytes>)
    requires store.Valid()
    modifies store, store.spanTrie, store.spanTrie.nodes.Values
    ensures store.Valid() && fresh(store.spanTrie.nodes.Values - old(store.spanTrie.nodes.Values))
    ensures var out := Mint(old(store.Model()), d.lookups, Build(d), fault);
            && store.Model() == out.state
            && replacement == if out.tokens.None? then None else Some(Build(d)(out.tokens.value))
  {
    hide SpanTrie.Valid, Mint;
    var tokens := store.MintAndRegisterSpan(d.lookups, Build(d), fault);
    return if tokens.None? then None else Some(Build(d)(tokens.value));
  }

  method ApplyDetections(store: Store, text: bytes, dets: seq<Detection>, faults: nat -> bool)
    returns (result: Option<bytes>, cacheable: bool)
    requires store.Valid() && Named(dets) && InText(dets, |text|) && InOrder(dets)
    modifies store, store.spanTrie, store.spanTrie.nodes.Values
    ensures store.Valid() && fresh(store.spanTrie.nodes.Values - old(store.spanTrie.nodes.Values))
    ensures var p := Apply(old(store.Model()), dets, faults);
            && store.Model() == p.state
            && Ordered(p.edits, 0, |text|)
            && result == if p.ok then Some(Splice(text, p.edits, 0)) else None
    ensures result.Some? ==> (cacheable <==> forall i | 0 <= i < |dets| :: !dets[i].preserve)
  {
    hide SpanTrie.Valid, Mint, Ordered, Splice, Splicing.Written, Established, SoFar, InOrder, InText, Build;
    var established := CollectEstablished(dets);
    ghost var s, p := store.Model(), Progress(store.Model(), [], true);
    var sb: bytes, last: nat := [], 0;
    cacheable := true;
    AllOrdered(s, dets, established, faults, |text|);
    NothingWritten(text);
    for i := 0 to |dets|
      invariant store.Valid() && fresh(store.spanTrie.nodes.Values - old(store.spanTrie.nodes.Values))
      invariant p == Applied(s, dets, established, faults, i) && p.ok && p.state == store.Model()
      invariant SoFar(text, p.edits, sb, last)
      invariant cacheable <==> forall k | 0 <= k < i :: !dets[k].preserve
    {
      var d := dets[i];
      var known := store.LookupToken(d.lookups[0].value);
      if d.preserve {
        cacheable := false;
      }
      if !(d.preserve && known.None? && d.lookups[0].value !in established) {
        var replacement := Replacement(store, d, faults(i));
        if replacement.None? {
          StopsHere(s, dets, established, faults, i + 1);
          return None, false;
        }
        WriteNext(s, text, dets, established, faults, i, sb, last, replacement.value);
        sb, last := sb + (text[last..d.start] + replacement.value), d.end;
        p := Progress(store.Model(), p.edits + [Edit(d.start, d.end, replacement.value)], true);
      }
    }
    AllWritten(text, p.edits, sb, last);
    return Some(sb + text[last..]), cacheable;
  }

  /** The string builder and the position up to which the text has been used. */
  ghost predicate SoFar(text: bytes, edits: seq<Edit>, sb: bytes, last: nat) {
    Ordered(edits, 0, |text|) && sb == Splicing.Written(text, edits, 0) && last == LastEnd(edits, 0)
  }

  lemma NothingWritten(text: bytes)
    ensures SoFar(text, [], [], 0)
  {}

  lemma {:induction false} AllWritten(text: bytes, edits: seq<Edit>, sb: bytes, last: nat)
    requires SoFar(text, edits, sb, last)
    ensures last <= |text| && Splice(text, edits, 0) == sb + text[last..]
  {
    SpliceIsWritten(text, edits, 0);
  }

  lemma {:induction false} WriteNext(s: State, text: bytes, dets: seq<Detection>, established: set<bytes>, faults: nat -> bool, n: nat,
                  sb: bytes, last: nat, replacement: bytes)
    requires n < |dets| && Named(dets) && InText(dets, |text|) && InOrder(dets)
    requires SoFar(text, Applied(s, dets, established, faults, n).edits, sb, last)
    ensures last <= dets[n].start <= |text|
    ensures var edits := Applied(s, dets, established, faults, n).edits;
            SoFar(text, edits + [Edit(dets[n].start, dets[n].end, replacement)], sb + (text[last..dets[n].start] + replacement), dets[n].end)
  {
    hide Mint;
    var edits, e := Applied(s, dets, established, faults, n).edits, Edit(dets[n].start, dets[n].end, replacement);
    EditsFollow(s, dets, established, faults, n, |text|);
    OrderedSnoc(edits, 0, Reached(dets, n), e, |text|);
    WrittenSnoc(text, edits, 0, e);
  }

  lemma {:induction false} StopsHere(s: State, dets: seq<Detection>, established: set<bytes>, faults: nat -> bool, n: nat)
    requires n <= |dets| && Named(dets) && !Applied(s, dets, established, faults, n).ok
    ensures Applied(s, dets, established, faults, |dets|) == Applied(s, dets, established, faults, n)
    decreases |dets| - n
  {
    hide Mint;
    if n < |dets| {
      StopsHere(s, dets, established, faults, n + 1);
    }
  }

  lemma {:induction false} AllOrdered(s: State, dets: seq<Detection>, established: set<bytes>, faults: nat -> bool, m: nat)
    requires Named(dets) && InText(dets, m) && InOrder(dets)
    ensures Ordered(Applied(s, dets, established, faults, |dets|).edits, 0, m)
  {
    EditsFollow(s, dets, established, faults, |dets|, m);
    OrderedMore(Applied(s, dets, established, faults, |dets|).edits, 0, Reached(dets, |dets|), m);
  }
}

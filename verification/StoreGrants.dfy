/**
 When a call of the store succeeds, and with which tokens (internal/tokenstore/spans.go, store.go
 and generator.go), said without the transaction that is run for it.
 */
module StoreGrants {
  import opened Bytes
  import opened Scanning
  import opened Minting
  import opened StoreStates
  import opened StoreCounters
  import opened StoreRuns

  /** The first of ten candidates that no value has. */
  ghost predicate IsFirstFree(t2r: Mapping, draw: nat -> bytes, token: bytes) {
    exists k: nat :: FreeAt(t2r, draw, k) && k < 10 && token == draw(k) && forall i: nat | i < k :: !FreeAt(t2r, draw, i)
  }

  predicate FreeAt(t2r: Mapping, draw: nat -> bytes, k: nat) { draw(k) !in t2r }

  /** What request i of a call is given: the token that its value has, or a new one that nothing else
      has. Networks get the next number of their counter, and the other new networks of the call
      count. */
  ghost predicate IsGiven(s: State, reqs: seq<Request>, i: nat, token: bytes)
    requires i < |reqs|
  {
    if reqs[i].value in s.r2t then token == s.r2t[reqs[i].value]
    else
      && Storable(reqs[i].value) && Storable(token) && token !in s.t2r
      && match reqs[i].entity
         case IpNetwork =>
           s.disk.ip + NewNumbers(IpNetwork, s.r2t, reqs, i) < 256
           && token == IpToken(s.disk.ip + NewNumbers(IpNetwork, s.r2t, reqs, i))
         case Ipv6Network => token == Wrapped6(s.disk.ip6 + NewNumbers(Ipv6Network, s.r2t, reqs, i) + 1)
         case Random(_) => IsFirstFree(s.t2r, reqs[i].draw, token)
  }

  ghost predicate AllGiven(s: State, reqs: seq<Request>, tokens: seq<bytes>, n: nat)
    requires n <= |reqs| && n <= |tokens|
  {
    forall i | 0 <= i < n :: IsGiven(s, reqs, i, tokens[i])
  }

  lemma {:induction false} FirstFreeIs(t2r: Mapping, draw: nat -> bytes, k: nat, token: bytes)
    requires k <= 10 && forall i: nat | i < k :: !FreeAt(t2r, draw, i)
    ensures FirstFree(t2r, draw, k) == Some(token) <==> IsFirstFree(t2r, draw, token)
    ensures IsFirstFree(t2r, draw, token) ==> token !in t2r
    decreases 10 - k
  {
    if k < 10 && !FreeAt(t2r, draw, k) {
      FirstFreeIs(t2r, draw, k + 1, token);
    }
  }

  /** One request, when the counters stand where the requests before it have left them. */
  lemma GivenOne(s: State, reqs: seq<Request>, i: nat, d: Disk, token: bytes)
    requires i < |reqs| && reqs[i].value !in s.r2t
    requires d.ip == s.disk.ip + NewNumbers(IpNetwork, s.r2t, reqs, i) <= 256
    requires d.ip6 == (s.disk.ip6 + NewNumbers(Ipv6Network, s.r2t, reqs, i)) % UINT32
    ensures (Fresh(d, s.t2r, reqs[i]).Some? && Fresh(d, s.t2r, reqs[i]).value.token == token) <==> IsGiven(s, reqs, i, token)
  {
    hide NewNumbers, IsFirstFree, Storable, IpToken, Ip6Token, FirstFree;
    match reqs[i].entity {
      case Random(_) => FirstFreeIs(s.t2r, reqs[i].draw, 0, token);
      case IpNetwork =>
      case Ipv6Network => ModStep(s.disk.ip6 + NewNumbers(Ipv6Network, s.r2t, reqs, i));
    }
  }

  /** Where the counters stand after n requests. */
  lemma {:induction false} CountersAfter(s: State, reqs: seq<Request>, n: nat)
    requires n <= |reqs| && s.disk.ip <= 256 && s.disk.ip6 < UINT32
    requires MintUpTo(MinterOf(s.r2t, s.t2r), s.disk, reqs, n).Some?
    ensures var d := MintUpTo(MinterOf(s.r2t, s.t2r), s.disk, reqs, n).value.disk;
            && d.ip == s.disk.ip + NewNumbers(IpNetwork, s.r2t, reqs, n) <= 256
            && d.ip6 == (s.disk.ip6 + NewNumbers(Ipv6Network, s.r2t, reqs, n)) % UINT32
  {
    hide MintUpTo, MinterOf, NewNumbers;
    var mint := MinterOf(s.r2t, s.t2r);
    IpCounts(s.disk, s.r2t, s.t2r);
    Ip6Counts(s.disk, s.r2t, s.t2r);
    CounterAfter(mint, Ip(s.disk), s.r2t, s.disk, reqs, n);
    CounterAfter(mint, Ip6(s.disk), s.r2t, s.disk, reqs, n);
  }

  /** A transaction gives exactly these tokens, or fails. */
  lemma {:induction false} MintedIffGiven(s: State, reqs: seq<Request>, n: nat, tokens: seq<bytes>)
    requires |tokens| == n <= |reqs| && s.disk.ip <= 256 && s.disk.ip6 < UINT32
    ensures var m := MintUpTo(MinterOf(s.r2t, s.t2r), s.disk, reqs, n);
            (m.Some? && m.value.tokens == tokens) <==> AllGiven(s, reqs, tokens, n)
  {
    var mint := MinterOf(s.r2t, s.t2r);
    hide MintOne, IsGiven, NewNumbers, AllGiven;
    if n == 0 {
      NoneGiven(s, reqs, tokens);
    } else {
      MintedIffGiven(s, reqs, n - 1, tokens[..n - 1]);
      AllGivenButOne(s, reqs, tokens, n);
      var before := MintUpTo(mint, s.disk, reqs, n - 1);
      if before.Some? {
        CountersAfter(s, reqs, n - 1);
        OneMore(s, reqs, n - 1, before.value.disk, tokens[n - 1]);
        SameEnds(before.value.tokens, tokens, n);
      }
    }
  }

  lemma NoneGiven(s: State, reqs: seq<Request>, tokens: seq<bytes>)
    ensures AllGiven(s, reqs, tokens, 0)
  {}

  lemma AllGivenButOne(s: State, reqs: seq<Request>, tokens: seq<bytes>, n: nat)
    requires 0 < n == |tokens| <= |reqs|
    ensures AllGiven(s, reqs, tokens, n) <==> AllGiven(s, reqs, tokens[..n - 1], n - 1) && IsGiven(s, reqs, n - 1, tokens[n - 1])
  {
    hide IsGiven;
  }

  lemma OneMore(s: State, reqs: seq<Request>, i: nat, d: Disk, token: bytes)
    requires i < |reqs|
    requires d.ip == s.disk.ip + NewNumbers(IpNetwork, s.r2t, reqs, i) <= 256
    requires d.ip6 == (s.disk.ip6 + NewNumbers(Ipv6Network, s.r2t, reqs, i)) % UINT32
    ensures var m := MintOne(d, s.r2t, s.t2r, reqs[i]); (m.Some? && m.value.token == token) <==> IsGiven(s, reqs, i, token)
  {
    if reqs[i].value !in s.r2t {
      GivenOne(s, reqs, i, d, token);
    }
  }

  lemma SameEnds(front: seq<bytes>, tokens: seq<bytes>, n: nat)
    requires 0 < n == |tokens| && |front| == n - 1
    ensures forall last :: front + [last] == tokens <==> front == tokens[..n - 1] && last == tokens[n - 1]
  {
    forall last
      ensures front + [last] == tokens <==> front == tokens[..n - 1] && last == tokens[n - 1]
    {
      if front + [last] == tokens {
        assert tokens[..n - 1] == front && tokens[n - 1] == last;
      }
      if front == tokens[..n - 1] && last == tokens[n - 1] {
        assert front + [last] == tokens;
      }
    }
  }

  /** What must hold of the span: it is committed with new tokens, and registered if it is new. */
  predicate SpanCanBeKept(s: State, known: bool, span: bytes, fault: bool) {
    (known && (span == [] || span in s.spans)) || (!fault && Storable(span))
  }

  /** MintAndRegisterSpan returns these tokens exactly if each of them is what its request is given and
      the span can be kept; in every other case it fails. */
  lemma {:induction false} MintReturnsIff(s: State, reqs: seq<Request>, build: seq<bytes> -> bytes, fault: bool, tokens: seq<bytes>)
    requires s.disk.ip <= 256 && s.disk.ip6 < UINT32
    ensures Mint(s, reqs, build, fault).tokens == Some(tokens) <==>
            && |tokens| == |reqs| && AllGiven(s, reqs, tokens, |reqs|)
            && SpanCanBeKept(s, forall i | 0 <= i < |reqs| :: reqs[i].value in s.r2t, build(tokens), fault)
  {
    hide MintUpTo, MinterOf, NewNumbers, Committed, Storable;
    if AllKnown(s.r2t, reqs, |reqs|) {
      if |tokens| == |reqs| {
        var known := KnownTokens(s.r2t, reqs, |reqs|);
        assert AllGiven(s, reqs, tokens, |reqs|) ==> known == tokens;
      }
    } else if |tokens| == |reqs| {
      hide AllGiven;
      MintedIffGiven(s, reqs, |reqs|, tokens);
    }
  }

  /** The same for GetOrCreateToken. */
  lemma {:induction false} CreateReturnsIff(s: State, req: Request, fault: bool, token: bytes)
    requires s.disk.ip <= 256 && s.disk.ip6 < UINT32
    ensures Create(s, req, fault).token == Some(token) <==> IsGiven(s, [req], 0, token) && (req.value in s.r2t || !fault)
  {
    if req.value !in s.r2t {
      GivenOne(s, [req], 0, s.disk, token);
      hide IsGiven, Fresh;
    }
  }

  /** RegisterSpan and Delete fail only if the database does, or if it cannot store the span. */
  lemma OnlyFaultsFail(s: State, span: bytes, value: bytes)
    ensures Register(s, span, false).ok <==> span == [] || span in s.spans || Storable(span)
    ensures Register(s, span, false).ok && span != [] ==> span in Register(s, span, false).state.spans
    ensures Remove(s, value, false).found == Some(value in s.r2t)
    ensures value !in Remove(s, value, false).state.r2t
  {}

  /** The type of every new value is recorded. */
  lemma {:induction false} TypesAreRecorded(s: State, reqs: seq<Request>, n: nat, i: nat)
    requires i < n <= |reqs| && MintUpTo(MinterOf(s.r2t, s.t2r), s.disk, reqs, n).Some?
    requires AskedOnce(s.r2t, reqs) && reqs[i].value !in s.r2t
    ensures var d := MintUpTo(MinterOf(s.r2t, s.t2r), s.disk, reqs, n).value.disk;
            reqs[i].value in d.meta && d.meta[reqs[i].value] == reqs[i].entity
  {
    hide Fresh;
    if i < n - 1 {
      TypesAreRecorded(s, reqs, n - 1, i);
      assert reqs[n - 1].value != reqs[i].value;
    }
    var before := MintUpTo(MinterOf(s.r2t, s.t2r), s.disk, reqs, n - 1).value.disk;
    if reqs[n - 1].value !in s.r2t {
      TypeIsRecorded(before, s.t2r, reqs[n - 1]);
    }
  }

  lemma TypeIsRecorded(d: Disk, existing: Mapping, req: Request)
    requires Fresh(d, existing, req).Some?
    ensures Fresh(d, existing, req).value.disk.meta == d.meta[req.value := req.entity]
  {
    hide FirstFree, IpToken, Ip6Token, Storable;
  }
}

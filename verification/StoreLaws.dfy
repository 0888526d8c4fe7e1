/**
 What holds of the token store after every operation and over every run, with a crash and reopen
 as one of the steps (internal/tokenstore/store.go, spans.go and generator.go).
 */
module StoreLaws {
  import opened Bytes
  import opened Scanning
  import opened Minting
  import opened StoreStates

  // ------------------------------------------------------------------ a call keeps the maps inverse

  /** The maps are inverse and every token of the call leads back to the value it was given for. */
  ghost predicate Resolves(s: State, reqs: seq<Request>, tokens: seq<bytes>)
    requires |tokens| == |reqs|
  {
    && Inverse(s.r2t, s.t2r)
    && (forall i | 0 <= i < |reqs| :: tokens[i] in s.t2r && s.t2r[tokens[i]] == reqs[i].value)
  }

  /** Equal values and only they have equal tokens. */
  ghost predicate Consistent(reqs: seq<Request>, tokens: seq<bytes>)
    requires |tokens| == |reqs|
  {
    forall i, j | 0 <= i < |reqs| && 0 <= j < |reqs| :: reqs[i].value == reqs[j].value <==> tokens[i] == tokens[j]
  }

  lemma ResolvesIsConsistent(s: State, reqs: seq<Request>, tokens: seq<bytes>)
    requires |tokens| == |reqs| && Resolves(s, reqs, tokens)
    ensures Consistent(reqs, tokens)
  {
    forall i, j | 0 <= i < |reqs| && 0 <= j < |reqs|
      ensures reqs[i].value == reqs[j].value <==> tokens[i] == tokens[j]
    {
      assert s.t2r[tokens[i]] == reqs[i].value && s.t2r[tokens[j]] == reqs[j].value;
      assert s.r2t[reqs[i].value] == tokens[i] && s.r2t[reqs[j].value] == tokens[j];
    }
  }

  /** What the first n pairs turn the known maps into: a and b hold what was known and these pairs. */
  ghost predicate RecordedWell(r2t: Mapping, t2r: Mapping, reqs: seq<Request>, tokens: seq<bytes>, n: nat, a: Mapping, b: Mapping)
    requires n <= |reqs| == |tokens|
  {
    && Inverse(a, b)
    && (forall i | 0 <= i < n :: tokens[i] in b && b[tokens[i]] == reqs[i].value)
    && (forall r | r in a :: r in r2t || Asked(reqs, n, r))
    && (forall r | r in r2t :: r in a && a[r] == r2t[r])
  }

  ghost predicate Asked(reqs: seq<Request>, n: nat, value: bytes)
    requires n <= |reqs|
  {
    exists i :: 0 <= i < n && reqs[i].value == value
  }

  lemma NothingRecorded(r2t: Mapping, t2r: Mapping, reqs: seq<Request>, tokens: seq<bytes>)
    requires |reqs| == |tokens| && Inverse(r2t, t2r)
    ensures RecordedWell(r2t, t2r, reqs, tokens, 0, r2t, t2r)
  {}

  lemma {:induction false} RecordedIsInverse(r2t: Mapping, t2r: Mapping, reqs: seq<Request>, tokens: seq<bytes>, n: nat)
    requires n <= |reqs| == |tokens| && Inverse(r2t, t2r)
    requires Granted(r2t, t2r, reqs, tokens, |reqs|) && Consistent(reqs, tokens)
    ensures RecordedWell(r2t, t2r, reqs, tokens, n,
                         Recorded(r2t, Values(reqs), tokens, n), Recorded(t2r, tokens, Values(reqs), n))
  {
    hide RecordedWell, Granted, Consistent, Inverse, Values;
    if n == 0 {
      NothingRecorded(r2t, t2r, reqs, tokens);
    } else {
      RecordedIsInverse(r2t, t2r, reqs, tokens, n - 1);
      RecordOne(r2t, t2r, reqs, tokens, n - 1,
                Recorded(r2t, Values(reqs), tokens, n - 1), Recorded(t2r, tokens, Values(reqs), n - 1));
    }
  }

  lemma RecordOne(r2t: Mapping, t2r: Mapping, reqs: seq<Request>, tokens: seq<bytes>, n: nat, a: Mapping, b: Mapping)
    requires n < |reqs| == |tokens| && Inverse(r2t, t2r)
    requires Granted(r2t, t2r, reqs, tokens, |reqs|) && Consistent(reqs, tokens)
    requires RecordedWell(r2t, t2r, reqs, tokens, n, a, b)
    ensures RecordedWell(r2t, t2r, reqs, tokens, n + 1, a[reqs[n].value := tokens[n]], b[tokens[n] := reqs[n].value])
  {
    assert GrantedAt(r2t, t2r, reqs[n].value, tokens[n]);
    if reqs[n].value in a {
      PairIsThere(r2t, t2r, reqs, tokens, n, a, b);
      AssignSame(a, reqs[n].value, tokens[n]);
      AssignSame(b, tokens[n], reqs[n].value);
      SamePair(r2t, t2r, reqs, tokens, n, a, b);
    } else {
      TokenIsNew(r2t, t2r, reqs, tokens, n, a, b);
      AddPair(r2t, t2r, reqs, tokens, n, a, b);
    }
  }

  /** A value that is already recorded is recorded with the same token. */
  lemma PairIsThere(r2t: Mapping, t2r: Mapping, reqs: seq<Request>, tokens: seq<bytes>, n: nat, a: Mapping, b: Mapping)
    requires n < |reqs| == |tokens| && Consistent(reqs, tokens) && RecordedWell(r2t, t2r, reqs, tokens, n, a, b)
    requires GrantedAt(r2t, t2r, reqs[n].value, tokens[n]) && reqs[n].value in a
    ensures a[reqs[n].value] == tokens[n]
    ensures tokens[n] in b && b[tokens[n]] == reqs[n].value
  {
    var value := reqs[n].value;
    if value !in r2t {
      var i :| 0 <= i < n && reqs[i].value == value;
      assert tokens[i] == tokens[n];
    }
  }

  /** A value that is not recorded gets a token that is not recorded. */
  lemma TokenIsNew(r2t: Mapping, t2r: Mapping, reqs: seq<Request>, tokens: seq<bytes>, n: nat, a: Mapping, b: Mapping)
    requires n < |reqs| == |tokens| && Consistent(reqs, tokens) && RecordedWell(r2t, t2r, reqs, tokens, n, a, b)
    requires GrantedAt(r2t, t2r, reqs[n].value, tokens[n]) && reqs[n].value !in a && Inverse(r2t, t2r)
    ensures tokens[n] !in b
  {}

  lemma SamePair(r2t: Mapping, t2r: Mapping, reqs: seq<Request>, tokens: seq<bytes>, n: nat, a: Mapping, b: Mapping)
    requires n < |reqs| == |tokens| && RecordedWell(r2t, t2r, reqs, tokens, n, a, b)
    requires tokens[n] in b && b[tokens[n]] == reqs[n].value
    ensures RecordedWell(r2t, t2r, reqs, tokens, n + 1, a, b)
  {
    forall r | Asked(reqs, n, r)
      ensures Asked(reqs, n + 1, r)
    {}
  }

  lemma AddPair(r2t: Mapping, t2r: Mapping, reqs: seq<Request>, tokens: seq<bytes>, n: nat, a: Mapping, b: Mapping)
    requires n < |reqs| == |tokens| && RecordedWell(r2t, t2r, reqs, tokens, n, a, b)
    requires reqs[n].value !in a && tokens[n] !in b
    ensures RecordedWell(r2t, t2r, reqs, tokens, n + 1, a[reqs[n].value := tokens[n]], b[tokens[n] := reqs[n].value])
  {
    AddInverse(a, b, reqs[n].value, tokens[n]);
    assert Asked(reqs, n + 1, reqs[n].value);
    forall r | Asked(reqs, n, r)
      ensures Asked(reqs, n + 1, r)
    {}
  }

  lemma AddInverse(a: Mapping, b: Mapping, value: bytes, token: bytes)
    requires Inverse(a, b) && value !in a && token !in b
    ensures Inverse(a[value := token], b[token := value])
  {}

  lemma {:induction false} CommitMirrors(s: State, reqs: seq<Request>, m: MintedAll, span: bytes)
    requires Good(s) && MintUpTo(MinterOf(s.r2t, s.t2r), s.disk, reqs, |reqs|) == Some(m)
    ensures Mirrors(Committed(s, reqs, m, span))
    ensures Committed(s, reqs, m, span).disk.meta.Keys == Committed(s, reqs, m, span).r2t.Keys
  {
    MintWrites(s, reqs, |reqs|);
    WrittenAll(s, m.disk, reqs, m.tokens);
    hide MintUpTo, MinterOf, Recorded, Values;
  }

  lemma {:induction false} CommitGrants(s: State, reqs: seq<Request>, m: MintedAll)
    requires MintUpTo(MinterOf(s.r2t, s.t2r), s.disk, reqs, |reqs|) == Some(m)
    ensures Granted(s.r2t, s.t2r, reqs, m.tokens, |reqs|)
  {
    assert reqs[..|reqs|] == reqs;
    MintGrants(s.disk, s.r2t, s.t2r, reqs, |reqs|);
  }

  lemma ConsistentResolves(s: State, reqs: seq<Request>, m: MintedAll, span: bytes)
    requires Inverse(s.r2t, s.t2r) && |m.tokens| == |reqs|
    requires Granted(s.r2t, s.t2r, reqs, m.tokens, |reqs|) && Consistent(reqs, m.tokens)
    ensures Resolves(Committed(s, reqs, m, span), reqs, m.tokens)
  {
    RecordedIsInverse(s.r2t, s.t2r, reqs, m.tokens, |reqs|);
  }

  /** A call that fails changes nothing. One that succeeds leaves memory and disk alike, and the
      maps inverse exactly when equal values, and only they, got equal tokens. */
  lemma MintResolvesIff(s: State, reqs: seq<Request>, build: seq<bytes> -> bytes, fault: bool)
    requires Good(s)
    ensures var out := Mint(s, reqs, build, fault);
            match out.tokens
            case None => out.state == s
            case Some(tokens) =>
              && |tokens| == |reqs| && Mirrors(out.state) && out.state.disk.meta.Keys == out.state.r2t.Keys
              && (Resolves(out.state, reqs, tokens) <==> Consistent(reqs, tokens))
  {
    if AllKnown(s.r2t, reqs, |reqs|) {
      KnownResolves(s, reqs);
    } else {
      match MintUpTo(MinterOf(s.r2t, s.t2r), s.disk, reqs, |reqs|) {
        case None =>
        case Some(m) =>
          CommitMirrors(s, reqs, m, build(m.tokens));
          CommitGrants(s, reqs, m);
          if Consistent(reqs, m.tokens) {
            ConsistentResolves(s, reqs, m, build(m.tokens));
          } else if Resolves(Committed(s, reqs, m, build(m.tokens)), reqs, m.tokens) {
            ResolvesIsConsistent(Committed(s, reqs, m, build(m.tokens)), reqs, m.tokens);
          }
      }
    }
  }

  lemma {:induction false} KnownResolves(s: State, reqs: seq<Request>)
    requires Good(s) && AllKnown(s.r2t, reqs, |reqs|)
    ensures Resolves(s, reqs, KnownTokens(s.r2t, reqs, |reqs|))
    ensures Consistent(reqs, KnownTokens(s.r2t, reqs, |reqs|))
  {
    ResolvesIsConsistent(s, reqs, KnownTokens(s.r2t, reqs, |reqs|));
  }

  /** Everything known keeps its token. */
  ghost predicate Extends(r2t: Mapping, r2t': Mapping) {
    forall r | r in r2t :: r in r2t' && r2t'[r] == r2t[r]
  }

  lemma {:induction false} KnownExtends(r2t: Mapping, t2r: Mapping, reqs: seq<Request>, tokens: seq<bytes>, n: nat)
    requires n <= |reqs| == |tokens| && Inverse(r2t, t2r) && Granted(r2t, t2r, reqs, tokens, n)
    ensures Extends(r2t, Recorded(r2t, Values(reqs), tokens, n))
  {
    hide Recorded, Values;
    KnownStays(r2t, t2r, reqs, tokens, n);
  }
}

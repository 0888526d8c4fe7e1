/**
 The token store as a value: the committed buckets and the copies in memory, and what each
 operation of internal/tokenstore/store.go and spans.go does to them. fault stands for any
 failure of the database to commit.
 */
module StoreStates {
  import opened Bytes
  import opened Scanning
  import opened Minting

  datatype State = State(disk: Disk, r2t: Mapping, t2r: Mapping, spans: set<bytes>)

  /** Each real value has the token that stands for it, and the other way round. */
  ghost predicate Inverse(r2t: Mapping, t2r: Mapping) {
    && (forall r | r in r2t :: r2t[r] in t2r && t2r[r2t[r]] == r)
    && (forall t | t in t2r :: t2r[t] in r2t && r2t[t2r[t]] == t)
  }

  ghost predicate Sound(d: Disk) {
    && Inverse(d.r2t, d.t2r)
    && d.meta.Keys == d.r2t.Keys
    && [] !in d.spans && [] !in d.t2r
    && d.ip <= 256 && d.ip6 < UINT32
  }

  /** The copies in memory are those on disk. */
  ghost predicate Mirrors(s: State) {
    s.r2t == s.disk.r2t && s.t2r == s.disk.t2r && s.spans == s.disk.spans
  }

  ghost predicate Good(s: State) { Sound(s.disk) && Mirrors(s) }

  // ------------------------------------------------------------------ the operations

  function Values(reqs: seq<Request>): (v: seq<bytes>)
    ensures |v| == |reqs| && forall i | 0 <= i < |reqs| :: v[i] == reqs[i].value
  {
    if reqs == [] then [] else [reqs[0].value] + Values(reqs[1..])
  }

  /** The first n assignments m[keys[i]] = values[i], in their order. */
  function Recorded(m: Mapping, keys: seq<bytes>, values: seq<bytes>, n: nat): Mapping
    requires n <= |keys| == |values|
  {
    if n == 0 then m else Recorded(m, keys, values, n - 1)[keys[n - 1] := values[n - 1]]
  }

  predicate AllKnown(r2t: Mapping, reqs: seq<Request>, n: nat)
    requires n <= |reqs|
  {
    forall i | 0 <= i < n :: reqs[i].value in r2t
  }

  function KnownTokens(r2t: Mapping, reqs: seq<Request>, n: nat): (tokens: seq<bytes>)
    requires n <= |reqs| && AllKnown(r2t, reqs, n)
    ensures |tokens| == n && forall i | 0 <= i < n :: tokens[i] == r2t[reqs[i].value]
  {
    if n == 0 then [] else KnownTokens(r2t, reqs, n - 1) + [r2t[reqs[n - 1].value]]
  }

  datatype Registered = Registered(state: State, ok: bool)

  /** RegisterSpan. */
  function Register(s: State, span: bytes, fault: bool): Registered {
    if span == [] || span in s.spans then Registered(s, true)
    else if fault || !Storable(span) then Registered(s, false)
    else Registered(s.(disk := s.disk.(spans := s.disk.spans + {span}), spans := s.spans + {span}), true)
  }

  datatype Outcome = Outcome(state: State, tokens: Option<seq<bytes>>)

  /** MintAndRegisterSpan. */
  function Mint(s: State, reqs: seq<Request>, build: seq<bytes> -> bytes, fault: bool): Outcome {
    if AllKnown(s.r2t, reqs, |reqs|) then
      var tokens := KnownTokens(s.r2t, reqs, |reqs|);
      var r := Register(s, build(tokens), fault);
      Outcome(r.state, if r.ok then Some(tokens) else None)
    else
      match MintUpTo(MinterOf(s.r2t, s.t2r), s.disk, reqs, |reqs|)
      case None => Outcome(s, None)
      case Some(m) =>
        if fault || !Storable(build(m.tokens)) then Outcome(s, None)
        else Outcome(Committed(s, reqs, m, build(m.tokens)), Some(m.tokens))
  }

  /** The transaction has been committed and the copies in memory updated. */
  function Committed(s: State, reqs: seq<Request>, m: MintedAll, span: bytes): State
    requires |m.tokens| == |reqs|
  {
    State(m.disk.(spans := m.disk.spans + {span}),
          Recorded(s.r2t, Values(reqs), m.tokens, |reqs|),
          Recorded(s.t2r, m.tokens, Values(reqs), |reqs|),
          s.spans + {span})
  }

  datatype Created = Created(state: State, token: Option<bytes>)

  /** GetOrCreateToken. */
  function Create(s: State, req: Request, fault: bool): Created {
    if req.value in s.r2t then Created(s, Some(s.r2t[req.value]))
    else
      match Fresh(s.disk, s.t2r, req)
      case None => Created(s, None)
      case Some(m) =>
        if fault then Created(s, None)
        else Created(State(m.disk, s.r2t[req.value := m.token], s.t2r[m.token := req.value], s.spans), Some(m.token))
  }

  datatype Removed = Removed(state: State, found: Option<bool>)

  /** Delete. The counters and the spans stay. */
  function Remove(s: State, value: bytes, fault: bool): Removed {
    if value !in s.r2t then Removed(s, Some(false))
    else if fault then Removed(s, None)
    else
      var token := s.r2t[value];
      var d := s.disk.(r2t := s.disk.r2t - {value}, t2r := s.disk.t2r - {token}, meta := s.disk.meta - {value});
      Removed(State(d, s.r2t - {value}, s.t2r - {token}, s.spans), Some(true))
  }

  // ------------------------------------------------------------------ what a call mints

  /** tokens are what a transaction found or minted for the first n requests. */
  ghost predicate Granted(r2t: Mapping, t2r: Mapping, reqs: seq<Request>, tokens: seq<bytes>, n: nat)
    requires n <= |reqs| == |tokens|
  {
    forall i | 0 <= i < n :: GrantedAt(r2t, t2r, reqs[i].value, tokens[i])
  }

  predicate GrantedAt(r2t: Mapping, t2r: Mapping, value: bytes, token: bytes) {
    if value in r2t then token == r2t[value] else token !in t2r
  }

  lemma {:induction false} MintGrants(d: Disk, r2t: Mapping, t2r: Mapping, reqs: seq<Request>, n: nat)
    requires n <= |reqs| && MintUpTo(MinterOf(r2t, t2r), d, reqs, n).Some?
    ensures Granted(r2t, t2r, reqs[..n], MintUpTo(MinterOf(r2t, t2r), d, reqs, n).value.tokens, n)
  {
    if n > 0 {
      MintGrants(d, r2t, t2r, reqs, n - 1);
      var before := MintUpTo(MinterOf(r2t, t2r), d, reqs, n - 1).value;
      if reqs[n - 1].value !in r2t {
        NewTokenIsFree(before.disk, t2r, reqs[n - 1]);
      }
    }
  }

  /** Recording granted pairs changes nothing that was known. */
  lemma {:induction false} KnownStays(r2t: Mapping, t2r: Mapping, reqs: seq<Request>, tokens: seq<bytes>, n: nat)
    requires n <= |reqs| == |tokens| && Inverse(r2t, t2r) && Granted(r2t, t2r, reqs, tokens, n)
    ensures var r2t', t2r' := Recorded(r2t, Values(reqs), tokens, n), Recorded(t2r, tokens, Values(reqs), n);
            && (forall r | r in r2t :: r in r2t' && r2t'[r] == r2t[r])
            && (forall t | t in t2r :: t in t2r' && t2r'[t] == t2r[t])
  {
    if n > 0 {
      KnownStays(r2t, t2r, reqs, tokens, n - 1);
      assert GrantedAt(r2t, t2r, reqs[n - 1].value, tokens[n - 1]);
    }
  }

  lemma {:induction false} RecordedPrefix(m: Mapping, keys: seq<bytes>, values: seq<bytes>, keys': seq<bytes>, values': seq<bytes>, n: nat)
    requires n <= |keys| == |values| && n <= |keys'| == |values'|
    requires forall i | 0 <= i < n :: keys[i] == keys'[i] && values[i] == values'[i]
    ensures Recorded(m, keys, values, n) == Recorded(m, keys', values', n)
  {
    if n > 0 {
      RecordedPrefix(m, keys, values, keys', values', n - 1);
    }
  }

  /** d holds what is recorded in memory after n pairs. */
  ghost predicate Written(s: State, d: Disk, reqs: seq<Request>, tokens: seq<bytes>, n: nat)
    requires n <= |reqs| && n <= |tokens|
  {
    && d.r2t == Recorded(s.r2t, Values(reqs[..n]), tokens[..n], n)
    && d.t2r == Recorded(s.t2r, tokens[..n], Values(reqs[..n]), n)
    && d.meta.Keys == d.r2t.Keys && d.spans == s.disk.spans
  }

  lemma {:induction false} WrittenAll(s: State, d: Disk, reqs: seq<Request>, tokens: seq<bytes>)
    requires |tokens| == |reqs| && Written(s, d, reqs, tokens, |reqs|)
    ensures d.r2t == Recorded(s.r2t, Values(reqs), tokens, |reqs|)
    ensures d.t2r == Recorded(s.t2r, tokens, Values(reqs), |reqs|)
  {
    hide Recorded, Values;
    assert reqs[..|reqs|] == reqs && tokens[..|reqs|] == tokens;
  }

  lemma RecordedStep(m: Mapping, keys: seq<bytes>, values: seq<bytes>, n: nat)
    requires n < |keys| == |values|
    ensures Recorded(m, keys, values, n + 1) == Recorded(m, keys, values, n)[keys[n] := values[n]]
  {}

  lemma RecordedNext(m: Mapping, reqs: seq<Request>, tokens: seq<bytes>, n: nat)
    requires n < |reqs| && n < |tokens|
    ensures Recorded(m, Values(reqs[..n + 1]), tokens[..n + 1], n + 1)
         == Recorded(m, Values(reqs[..n]), tokens[..n], n)[reqs[n].value := tokens[n]]
    ensures Recorded(m, tokens[..n + 1], Values(reqs[..n + 1]), n + 1)
         == Recorded(m, tokens[..n], Values(reqs[..n]), n)[tokens[n] := reqs[n].value]
  {
    hide Recorded;
    RecordedStep(m, Values(reqs[..n + 1]), tokens[..n + 1], n);
    RecordedStep(m, tokens[..n + 1], Values(reqs[..n + 1]), n);
    RecordedPrefix(m, Values(reqs[..n + 1]), tokens[..n + 1], Values(reqs[..n]), tokens[..n], n);
    RecordedPrefix(m, tokens[..n + 1], Values(reqs[..n + 1]), tokens[..n], Values(reqs[..n]), n);
  }

  lemma WriteNext(s: State, d: Disk, reqs: seq<Request>, tokens: seq<bytes>, n: nat)
    requires Good(s) && n < |reqs| && |tokens| == n && Written(s, d, reqs, tokens, n)
    requires Granted(s.r2t, s.t2r, reqs[..n], tokens, n) && MintOne(d, s.r2t, s.t2r, reqs[n]).Some?
    ensures var m := MintOne(d, s.r2t, s.t2r, reqs[n]).value;
            Written(s, m.disk, reqs, tokens + [m.token], n + 1)
  {
    var m := MintOne(d, s.r2t, s.t2r, reqs[n]).value;
    RecordedNext(s.r2t, reqs, tokens + [m.token], n);
    RecordedNext(s.t2r, reqs, tokens + [m.token], n);
    assert (tokens + [m.token])[..n] == tokens == tokens[..n];
    if reqs[n].value in s.r2t {
      KnownStays(s.r2t, s.t2r, reqs[..n], tokens, n);
      AssignSame(d.r2t, reqs[n].value, m.token);
      AssignSame(d.t2r, m.token, reqs[n].value);
    } else {
      NewTokenIsFree(d, s.t2r, reqs[n]);
    }
  }

  /** The transaction writes to disk what is recorded in memory afterwards. */
  lemma {:induction false} MintWrites(s: State, reqs: seq<Request>, n: nat)
    requires Good(s) && n <= |reqs| && MintUpTo(MinterOf(s.r2t, s.t2r), s.disk, reqs, n).Some?
    ensures var m := MintUpTo(MinterOf(s.r2t, s.t2r), s.disk, reqs, n).value;
            Written(s, m.disk, reqs, m.tokens, n)
  {
    if n > 0 {
      MintWrites(s, reqs, n - 1);
      MintGrants(s.disk, s.r2t, s.t2r, reqs, n - 1);
      var before := MintUpTo(MinterOf(s.r2t, s.t2r), s.disk, reqs, n - 1).value;
      WriteNext(s, before.disk, reqs, before.tokens, n - 1);
    }
  }

  lemma {:induction false} RecordedKeys(m: Mapping, keys: seq<bytes>, values: seq<bytes>, n: nat, t: bytes)
    requires n <= |keys| == |values| && t in Recorded(m, keys, values, n)
    ensures t in m || exists i :: 0 <= i < n && keys[i] == t
  {
    if n > 0 && t != keys[n - 1] {
      RecordedKeys(m, keys, values, n - 1, t);
    }
  }

  /** No token is empty. */
  lemma {:induction false} TokensAreSomething(mint: Minter, d: Disk, reqs: seq<Request>, n: nat)
    requires n <= |reqs| && MintUpTo(mint, d, reqs, n).Some?
    requires forall d', req | mint(d', req).Some? :: mint(d', req).value.token != []
    ensures forall i | 0 <= i < n :: MintUpTo(mint, d, reqs, n).value.tokens[i] != []
  {
    if n > 0 {
      TokensAreSomething(mint, d, reqs, n - 1);
    }
  }

  lemma {:induction false} NothingEmptyIsRecorded(s: State, reqs: seq<Request>, m: MintedAll)
    requires Good(s) && MintUpTo(MinterOf(s.r2t, s.t2r), s.disk, reqs, |reqs|) == Some(m)
    ensures [] !in Recorded(s.t2r, m.tokens, Values(reqs), |reqs|)
  {
    forall d', req | MinterOf(s.r2t, s.t2r)(d', req).Some?
      ensures MinterOf(s.r2t, s.t2r)(d', req).value.token != []
    {}
    TokensAreSomething(MinterOf(s.r2t, s.t2r), s.disk, reqs, |reqs|);
    if [] in Recorded(s.t2r, m.tokens, Values(reqs), |reqs|) {
      RecordedKeys(s.t2r, m.tokens, Values(reqs), |reqs|, []);
    }
  }

  lemma AssignSame(m: Mapping, k: bytes, v: bytes)
    requires k in m && m[k] == v
    ensures m[k := v] == m
  {}
}

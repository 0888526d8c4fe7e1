/**
 Every run of the token store: any sequence of its operations, any failures of the database to
 commit, and a crash and reopen at any point between them.
 */
module StoreRuns {
  import opened Bytes
  import opened Scanning
  import opened Minting
  import opened StoreStates
  import opened StoreLaws
  import opened StoreCounters

  // ------------------------------------------------------------------ one operation keeps the store good

  lemma {:induction false} PairConsistent(s: State, reqs: seq<Request>, m: MintedAll, i: nat, j: nat)
    requires Good(s) && |reqs| < UINT32 && MintUpTo(MinterOf(s.r2t, s.t2r), s.disk, reqs, |reqs|) == Some(m)
    requires Granted(s.r2t, s.t2r, reqs, m.tokens, |reqs|)
    requires i < j < |reqs| && Apart(reqs[i], reqs[j])
    ensures (reqs[i].value == reqs[j].value <==> m.tokens[i] == m.tokens[j])
       <==> (reqs[i].value !in s.r2t ==> reqs[i].value != reqs[j].value)
  {
    assert GrantedAt(s.r2t, s.t2r, reqs[i].value, m.tokens[i]);
    assert GrantedAt(s.r2t, s.t2r, reqs[j].value, m.tokens[j]);
    if reqs[i].value !in s.r2t && reqs[j].value !in s.r2t {
      MinterMints(s.r2t, s.t2r, s.disk);
      NewTokensDiffer(MinterOf(s.r2t, s.t2r), s.r2t, s.disk, reqs, i, j);
    }
  }

  lemma {:induction false} ConsistentIffAskedOnce(s: State, reqs: seq<Request>, m: MintedAll)
    requires Good(s) && |reqs| < UINT32 && MintUpTo(MinterOf(s.r2t, s.t2r), s.disk, reqs, |reqs|) == Some(m)
    requires AllApart(reqs)
    ensures Consistent(reqs, m.tokens) <==> AskedOnce(s.r2t, reqs)
  {
    CommitGrants(s, reqs, m);
    forall i, j | 0 <= i < j < |reqs|
      ensures (reqs[i].value == reqs[j].value <==> m.tokens[i] == m.tokens[j])
         <==> (reqs[i].value !in s.r2t ==> reqs[i].value != reqs[j].value)
    {
      PairConsistent(s, reqs, m, i, j);
    }
  }

  lemma {:induction false} IpAfter(s: State, reqs: seq<Request>, m: MintedAll)
    requires s.disk.ip <= 256
    requires MintUpTo(MinterOf(s.r2t, s.t2r), s.disk, reqs, |reqs|) == Some(m)
    ensures m.disk.ip == s.disk.ip + NewNumbers(IpNetwork, s.r2t, reqs, |reqs|) <= 256
  {
    IpCounts(s.disk, s.r2t, s.t2r);
    CounterAfter(MinterOf(s.r2t, s.t2r), Ip(s.disk), s.r2t, s.disk, reqs, |reqs|);
  }

  lemma {:induction false} Ip6After(s: State, reqs: seq<Request>, m: MintedAll)
    requires s.disk.ip6 < UINT32
    requires MintUpTo(MinterOf(s.r2t, s.t2r), s.disk, reqs, |reqs|) == Some(m)
    ensures m.disk.ip6 < UINT32
  {
    Ip6Counts(s.disk, s.r2t, s.t2r);
    Ip6Within(MinterOf(s.r2t, s.t2r), s.r2t, s.disk, reqs);
  }

  /** MintAndRegisterSpan keeps the store good, with every token resolving to the value it was
      given for, exactly when it is not asked twice for the same unknown value. */
  lemma MintKeepsGoodIff(s: State, reqs: seq<Request>, build: seq<bytes> -> bytes, fault: bool)
    requires Good(s) && |reqs| < UINT32 && AllApart(reqs) && Mint(s, reqs, build, fault).tokens.Some?
    ensures var out := Mint(s, reqs, build, fault);
            && |out.tokens.value| == |reqs|
            && (Good(out.state) && Resolves(out.state, reqs, out.tokens.value) <==> AskedOnce(s.r2t, reqs))
  {
    MintResolvesIff(s, reqs, build, fault);
    if AllKnown(s.r2t, reqs, |reqs|) {
      KnownResolves(s, reqs);
    } else {
      var m := MintUpTo(MinterOf(s.r2t, s.t2r), s.disk, reqs, |reqs|).value;
      ConsistentIffAskedOnce(s, reqs, m);
      IpAfter(s, reqs, m);
      Ip6After(s, reqs, m);
      CommitMirrors(s, reqs, m, build(m.tokens));
      NothingEmptyIsRecorded(s, reqs, m);
      MintWrites(s, reqs, |reqs|);
      CommittedIsGood(s, reqs, m, build(m.tokens));
    }
  }

  lemma {:induction false} CommittedIsGood(s: State, reqs: seq<Request>, m: MintedAll, span: bytes)
    requires Good(s) && MintUpTo(MinterOf(s.r2t, s.t2r), s.disk, reqs, |reqs|) == Some(m) && span != []
    requires Mirrors(Committed(s, reqs, m, span))
    requires Committed(s, reqs, m, span).disk.meta.Keys == Committed(s, reqs, m, span).r2t.Keys
    requires m.disk.ip <= 256 && m.disk.ip6 < UINT32 && m.disk.spans == s.disk.spans
    requires [] !in Committed(s, reqs, m, span).t2r
    ensures Resolves(Committed(s, reqs, m, span), reqs, m.tokens) ==> Good(Committed(s, reqs, m, span))
  {
    hide Recorded, MintUpTo, MinterOf, Values;
  }

  lemma RegisterKeepsGood(s: State, span: bytes, fault: bool)
    requires Good(s)
    ensures var r := Register(s, span, fault);
            && Good(r.state) && (r.ok ==> span == [] || span in r.state.spans) && (!r.ok ==> r.state == s)
  {}

  lemma CreateKeepsGood(s: State, req: Request, fault: bool)
    requires Good(s)
    ensures var c := Create(s, req, fault);
            && Good(c.state)
            && (match c.token
                case None => c.state == s
                case Some(t) => t in c.state.t2r && c.state.t2r[t] == req.value)
  {
    var c := Create(s, req, fault);
    if req.value !in s.r2t && c.token.Some? {
      var m := Fresh(s.disk, s.t2r, req).value;
      NewTokenIsFree(s.disk, s.t2r, req);
      AddInverse(s.r2t, s.t2r, req.value, m.token);
      IpNumber(s.disk, s.t2r, req);
      Ip6Number(s.disk, s.t2r, req, s.disk.ip6);
    }
  }

  lemma RemoveKeepsGood(s: State, value: bytes, fault: bool)
    requires Good(s)
    ensures var r := Remove(s, value, fault);
            && Good(r.state)
            && (r.found == Some(true) ==> value !in r.state.r2t && s.r2t[value] !in r.state.t2r)
            && (r.found != Some(true) ==> r.state == s)
  {
    if value in s.r2t && !fault {
      RemoveInverse(s.r2t, s.t2r, value);
    }
  }

  lemma RemoveInverse(a: Mapping, b: Mapping, value: bytes)
    requires Inverse(a, b) && value in a
    ensures Inverse(a - {value}, b - {a[value]})
  {}

  // ------------------------------------------------------------------ runs

  datatype Op =
    | Minting(reqs: seq<Request>, build: seq<bytes> -> bytes, fault: bool)
    | Creating(req: Request, fault: bool)
    | Registering(span: bytes, fault: bool)
    | Removing(value: bytes, fault: bool)
    | Reopening(t2r: Mapping)

  function Step(s: State, op: Op): State {
    match op
    case Minting(reqs, build, fault) => Mint(s, reqs, build, fault).state
    case Creating(req, fault) => Create(s, req, fault).state
    case Registering(span, fault) => Register(s, span, fault).state
    case Removing(value, fault) => Remove(s, value, fault).state
    case Reopening(t2r) => Loaded(s.disk, t2r)
  }

  /** After a crash the memory is rebuilt from the disk: loadAll fills both maps from the entries
      of the real-to-token bucket, so t2r is some map that Inverts it. */
  function Loaded(d: Disk, t2r: Mapping): State { State(d, d.r2t, t2r, d.spans - {[]}) }

  ghost predicate Inverts(t2r: Mapping, r2t: Mapping) {
    && (forall r | r in r2t :: r2t[r] in t2r)
    && (forall t | t in t2r :: t2r[t] in r2t && r2t[t2r[t]] == t)
  }

  lemma LoadedIsSame(s: State, t2r: Mapping)
    requires Good(s) && Inverts(t2r, s.disk.r2t)
    ensures Loaded(s.disk, t2r) == s
  {
    assert t2r == s.disk.t2r;
    assert s.disk.spans - {[]} == s.disk.spans;
  }

  const NEW_DISK: Disk := Disk(map[], map[], map[], 0, 0, {})

  /** The store right after the database has been created. */
  function NewStore(): State { Loaded(NEW_DISK, map[]) }

  /** The store starts good, whatever maps are loaded. */
  lemma NewStoreIsGood(t2r: Mapping)
    requires Inverts(t2r, NEW_DISK.r2t)
    ensures Good(NewStore()) && Loaded(NEW_DISK, t2r) == NewStore()
  {
    assert t2r == map[];
  }

  function Run(s: State, ops: seq<Op>): State
    decreases ops
  {
    if ops == [] then s else Run(Step(s, ops[0]), ops[1..])
  }

  /** The call asks for no unknown value twice, and random candidates do not collide. */
  ghost predicate ProperStep(s: State, op: Op) {
    match op
    case Minting(reqs, _, _) => |reqs| < UINT32 && AllApart(reqs) && AskedOnce(s.r2t, reqs)
    case Reopening(t2r) => Inverts(t2r, s.disk.r2t)
    case _ => true
  }

  ghost predicate Proper(s: State, ops: seq<Op>)
    decreases ops
  {
    ops != [] ==> ProperStep(s, ops[0]) && Proper(Step(s, ops[0]), ops[1..])
  }

  lemma StepKeepsGood(s: State, op: Op)
    requires Good(s) && ProperStep(s, op)
    ensures Good(Step(s, op))
  {
    match op {
      case Minting(reqs, build, fault) =>
        MintResolvesIff(s, reqs, build, fault);
        if Mint(s, reqs, build, fault).tokens.Some? {
          MintKeepsGoodIff(s, reqs, build, fault);
        }
      case Creating(req, fault) => CreateKeepsGood(s, req, fault);
      case Registering(span, fault) => RegisterKeepsGood(s, span, fault);
      case Removing(value, fault) => RemoveKeepsGood(s, value, fault);
      case Reopening(t2r) => LoadedIsSame(s, t2r);
    }
  }

  /** In every reachable state the two maps are inverse and mirror the disk. */
  lemma {:induction false} RunKeepsGood(s: State, ops: seq<Op>)
    requires Good(s) && Proper(s, ops)
    ensures Good(Run(s, ops))
    decreases ops
  {
    if ops != [] {
      StepKeepsGood(s, ops[0]);
      RunKeepsGood(Step(s, ops[0]), ops[1..]);
    }
  }

  /** From the creation of the database on, every state is good. */
  lemma EveryRunIsGood(ops: seq<Op>)
    requires Proper(NewStore(), ops)
    ensures Good(Run(NewStore(), ops))
  {
    NewStoreIsGood(map[]);
    RunKeepsGood(NewStore(), ops);
  }

  // ------------------------------------------------------------------ spans stay

  lemma {:induction false} MintKeepsSpans(mint: Minter, d: Disk, reqs: seq<Request>, n: nat)
    requires n <= |reqs| && MintUpTo(mint, d, reqs, n).Some?
    requires forall d', req | mint(d', req).Some? :: mint(d', req).value.disk.spans == d'.spans
    ensures MintUpTo(mint, d, reqs, n).value.disk.spans == d.spans
  {
    if n > 0 {
      MintKeepsSpans(mint, d, reqs, n - 1);
    }
  }

  lemma FreshKeepsSpans(r2t: Mapping, t2r: Mapping, d: Disk, req: Request)
    requires MinterOf(r2t, t2r)(d, req).Some?
    ensures MinterOf(r2t, t2r)(d, req).value.disk.spans == d.spans
  {}

  lemma MintOnDisk(s: State, reqs: seq<Request>, build: seq<bytes> -> bytes, fault: bool)
    ensures var out := Mint(s, reqs, build, fault);
            && s.disk.spans <= out.state.disk.spans
            && (s.spans <= s.disk.spans && out.tokens.Some? ==>
                  build(out.tokens.value) == [] || build(out.tokens.value) in out.state.disk.spans)
  {
    if !AllKnown(s.r2t, reqs, |reqs|) && Mint(s, reqs, build, fault).tokens.Some? {
      forall d', req | MinterOf(s.r2t, s.t2r)(d', req).Some?
        ensures MinterOf(s.r2t, s.t2r)(d', req).value.disk.spans == d'.spans
      {
        FreshKeepsSpans(s.r2t, s.t2r, d', req);
      }
      MintKeepsSpans(MinterOf(s.r2t, s.t2r), s.disk, reqs, |reqs|);
    }
  }

  lemma StepKeepsSpans(s: State, op: Op)
    ensures s.disk.spans <= Step(s, op).disk.spans
  {
    if op.Minting? {
      MintOnDisk(s, op.reqs, op.build, op.fault);
    } else if op.Creating? {
      var _ := Create(s, op.req, op.fault);
    }
  }

  /** Spans are never lost: neither by a crash nor by deleting the value. */
  lemma {:induction false} SpansStay(s: State, ops: seq<Op>)
    ensures s.disk.spans <= Run(s, ops).disk.spans
    decreases ops
  {
    if ops != [] {
      StepKeepsSpans(s, ops[0]);
      SpansStay(Step(s, ops[0]), ops[1..]);
    }
  }

  /** Whatever happens after a call has returned its tokens, their span is on disk, and in memory
      again after every reopening. */
  lemma {:induction false} MintedSpanStays(s: State, reqs: seq<Request>, build: seq<bytes> -> bytes, fault: bool, ops: seq<Op>)
    requires Good(s) && Mint(s, reqs, build, fault).tokens.Some?
    ensures var out := Mint(s, reqs, build, fault);
            var span, later := build(out.tokens.value), Run(out.state, ops);
            span == [] || (span in later.disk.spans && forall t2r :: span in Loaded(later.disk, t2r).spans)
  {
    MintOnDisk(s, reqs, build, fault);
    SpansStay(Mint(s, reqs, build, fault).state, ops);
  }

  // ------------------------------------------------------------------ networks

  /** The new IPv4 tokens among the first n of a call. */
  function NewIpTokens(r2t: Mapping, reqs: seq<Request>, tokens: seq<bytes>, n: nat): seq<bytes>
    requires n <= |reqs| == |tokens|
  {
    if n == 0 then []
    else NewIpTokens(r2t, reqs, tokens, n - 1) + if Needs(IpNetwork, r2t, reqs[n - 1]) then [tokens[n - 1]] else []
  }

  /** The IPv4 tokens issued by an operation. */
  function Issued(s: State, op: Op): seq<bytes> {
    match op
    case Minting(reqs, build, fault) =>
      var out := Mint(s, reqs, build, fault);
      if out.tokens.Some? && |out.tokens.value| == |reqs| then NewIpTokens(s.r2t, reqs, out.tokens.value, |reqs|) else []
    case Creating(req, fault) =>
      var c := Create(s, req, fault);
      if c.token.Some? && Needs(IpNetwork, s.r2t, req) then [c.token.value] else []
    case _ => []
  }

  function IssuedIn(s: State, ops: seq<Op>): seq<bytes>
    decreases ops
  {
    if ops == [] then [] else Issued(s, ops[0]) + IssuedIn(Step(s, ops[0]), ops[1..])
  }

  /** tokens are the numbers from, from + 1 and so on. */
  ghost predicate Numbers(tokens: seq<bytes>, from: nat) {
    forall k | 0 <= k < |tokens| :: tokens[k] == IpToken(from + k)
  }

  lemma NumbersJoin(a: seq<bytes>, b: seq<bytes>, from: nat)
    requires Numbers(a, from) && Numbers(b, from + |a|)
    ensures Numbers(a + b, from)
  {
    forall k | 0 <= k < |a + b|
      ensures (a + b)[k] == IpToken(from + k)
    {
      if k >= |a| {
        assert b[k - |a|] == IpToken(from + |a| + (k - |a|));
      }
    }
  }

  lemma {:induction false} NewIpTokensNumbered(mint: Minter, r2t: Mapping, d: Disk, reqs: seq<Request>, tokens: seq<bytes>, n: nat)
    requires n <= |reqs| == |tokens|
    requires MintUpTo(mint, d, reqs, |reqs|).Some? && MintUpTo(mint, d, reqs, |reqs|).value.tokens == tokens
    requires Counts(mint, Ip(d), r2t) && d.ip <= 256
    ensures |NewIpTokens(r2t, reqs, tokens, n)| == NewNumbers(IpNetwork, r2t, reqs, n)
    ensures Numbers(NewIpTokens(r2t, reqs, tokens, n), d.ip)
  {
    if n > 0 {
      NewIpTokensNumbered(mint, r2t, d, reqs, tokens, n - 1);
      if Needs(IpNetwork, r2t, reqs[n - 1]) {
        NumberedToken(mint, Ip(d), r2t, d, reqs, |reqs|, n - 1);
        NumbersJoin(NewIpTokens(r2t, reqs, tokens, n - 1), [tokens[n - 1]], d.ip);
      }
    }
  }

  lemma {:induction false} NoneNew(r2t: Mapping, reqs: seq<Request>, tokens: seq<bytes>, n: nat)
    requires n <= |reqs| == |tokens| && AllKnown(r2t, reqs, n)
    ensures NewIpTokens(r2t, reqs, tokens, n) == []
  {
    if n > 0 {
      NoneNew(r2t, reqs, tokens, n - 1);
    }
  }

  lemma StepIssues(s: State, op: Op)
    requires s.disk.ip <= 256
    requires s.disk.ip6 < UINT32
    ensures Numbers(Issued(s, op), s.disk.ip)
    ensures Step(s, op).disk.ip == s.disk.ip + |Issued(s, op)| <= 256
    ensures Step(s, op).disk.ip6 < UINT32
  {
    match op {
      case Minting(reqs, build, fault) => MintIssues(s, reqs, build, fault);
      case Creating(req, fault) =>
        if req.value !in s.r2t && Create(s, req, fault).token.Some? {
          IpNumber(s.disk, s.t2r, req);
          Ip6Number(s.disk, s.t2r, req, s.disk.ip6);
        }
      case _ =>
    }
  }

  lemma MintIssues(s: State, reqs: seq<Request>, build: seq<bytes> -> bytes, fault: bool)
    requires s.disk.ip <= 256 && s.disk.ip6 < UINT32
    ensures var out, issued := Mint(s, reqs, build, fault), Issued(s, Minting(reqs, build, fault));
            && Numbers(issued, s.disk.ip)
            && out.state.disk.ip == s.disk.ip + |issued| <= 256
            && out.state.disk.ip6 < UINT32
  {
    var out := Mint(s, reqs, build, fault);
    if out.tokens.Some? {
      if AllKnown(s.r2t, reqs, |reqs|) {
        NoneNew(s.r2t, reqs, out.tokens.value, |reqs|);
      } else {
        var m := MintUpTo(MinterOf(s.r2t, s.t2r), s.disk, reqs, |reqs|).value;
        IpAfter(s, reqs, m);
        Ip6After(s, reqs, m);
        IpCounts(s.disk, s.r2t, s.t2r);
        NewIpTokensNumbered(MinterOf(s.r2t, s.t2r), s.r2t, s.disk, reqs, m.tokens, |reqs|);
      }
    }
  }

  /** The IPv4 tokens issued over a whole run are consecutive numbers, at most 256 in all. */
  lemma {:induction false} RunIssues(s: State, ops: seq<Op>)
    requires s.disk.ip <= 256 && s.disk.ip6 < UINT32
    ensures Numbers(IssuedIn(s, ops), s.disk.ip)
    ensures Run(s, ops).disk.ip == s.disk.ip + |IssuedIn(s, ops)| <= 256
    decreases ops
  {
    if ops != [] {
      StepIssues(s, ops[0]);
      RunIssues(Step(s, ops[0]), ops[1..]);
      NumbersJoin(Issued(s, ops[0]), IssuedIn(Step(s, ops[0]), ops[1..]), s.disk.ip);
    }
  }

  /** No IPv4 token is issued twice in any run, whatever is deleted, fails or crashes in between. */
  lemma {:induction false} NeverReissued(s: State, ops: seq<Op>, i: nat, j: nat)
    requires s.disk.ip <= 256 && s.disk.ip6 < UINT32 && i < j < |IssuedIn(s, ops)|
    ensures IssuedIn(s, ops)[i] != IssuedIn(s, ops)[j]
  {
    RunIssues(s, ops);
    IpTokensApart(s.disk.ip + i, s.disk.ip + j);
  }
}

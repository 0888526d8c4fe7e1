/**
 When a new IPv4 network gets a token: for the first 256 networks of a run, and never after
 (internal/tokenstore/generator.go).
 */
module StoreNetworks {
  import opened Bytes
  import opened Scanning
  import opened Minting
  import opened StoreStates
  import opened StoreLaws
  import opened StoreCounters
  import opened StoreRuns

  /** Whatever else is asked for, a call that needs more numbers than are left is refused and
      changes nothing. */
  lemma {:induction false} RefusedWhenFull(s: State, reqs: seq<Request>, build: seq<bytes> -> bytes, fault: bool)
    requires s.disk.ip <= 256 && s.disk.ip + NewNumbers(IpNetwork, s.r2t, reqs, |reqs|) > 256
    ensures Mint(s, reqs, build, fault) == Outcome(s, None)
  {
    if AllKnown(s.r2t, reqs, |reqs|) {
      NoneNeeded(IpNetwork, s.r2t, reqs, |reqs|);
    } else if MintUpTo(MinterOf(s.r2t, s.t2r), s.disk, reqs, |reqs|).Some? {
      IpAfter(s, reqs, MintUpTo(MinterOf(s.r2t, s.t2r), s.disk, reqs, |reqs|).value);
    }
  }

  lemma {:induction false} NoneNeeded(e: EntityType, r2t: Mapping, reqs: seq<Request>, n: nat)
    requires n <= |reqs| && AllKnown(r2t, reqs, n)
    ensures NewNumbers(e, r2t, reqs, n) == 0
  {
    if n > 0 {
      NoneNeeded(e, r2t, reqs, n - 1);
    }
  }

  /** Every IPv4 token in use has a number below the counter. */
  ghost predicate Numbered(s: State) {
    forall k: nat :: IpToken(k) in s.t2r ==> k < s.disk.ip
  }

  /** The generators of internal/tokenstore/generator.go draw no network-shaped candidate. */
  ghost predicate DrawsPlain(req: Request) {
    req.entity.Random? ==> forall k: nat :: !NetworkShaped(req.draw(k))
  }

  ghost predicate PlainStep(op: Op) {
    match op
    case Minting(reqs, _, _) => forall i | 0 <= i < |reqs| :: DrawsPlain(reqs[i])
    case Creating(req, _) => DrawsPlain(req)
    case _ => true
  }

  ghost predicate Plain(ops: seq<Op>) {
    forall i | 0 <= i < |ops| :: PlainStep(ops[i])
  }

  /** With a number left, a storable new network always gets the next one. */
  lemma GrantedUnlessFull(s: State, req: Request, build: seq<bytes> -> bytes)
    requires Good(s) && Numbered(s) && Needs(IpNetwork, s.r2t, req)
    requires Storable(req.value) && Storable(build([IpToken(s.disk.ip)]))
    ensures Mint(s, [req], build, false).tokens == if s.disk.ip < 256 then Some([IpToken(s.disk.ip)]) else None
  {
    var mint := MinterOf(s.r2t, s.t2r);
    assert MintUpTo(mint, s.disk, [req], 0) == Some(MintedAll([], s.disk));
    assert MintUpTo(mint, s.disk, [req], 1).None? <==> mint(s.disk, req).None?;
    NextNumber(s, req);
    assert !AllKnown(s.r2t, [req], 1) by {
      assert [req][0].value !in s.r2t;
    }
    if s.disk.ip < 256 {
      assert [] + [IpToken(s.disk.ip)] == [IpToken(s.disk.ip)];
      assert MintUpTo(mint, s.disk, [req], 1).value.tokens == [IpToken(s.disk.ip)];
    }
  }

  lemma NextNumber(s: State, req: Request)
    requires Good(s) && Numbered(s) && Needs(IpNetwork, s.r2t, req) && Storable(req.value)
    ensures var m := MinterOf(s.r2t, s.t2r)(s.disk, req);
            if s.disk.ip < 256 then m.Some? && m.value.token == IpToken(s.disk.ip) else m.None?
  {
    hide IpToken;
    IpTokenIsShort(s.disk.ip);
  }

  lemma IpTokenIsShort(c: nat)
    requires c <= 256
    ensures Storable(IpToken(c))
  {
    DecimalLength(c);
  }

  lemma {:induction false} NewIpTokenIsNumbered(mint: Minter, r2t: Mapping, d: Disk, reqs: seq<Request>, i: nat, k: nat)
    requires MintsFrom(mint, r2t, d) && MintUpTo(mint, d, reqs, |reqs|).Some?
    requires i < |reqs| && reqs[i].value !in r2t && DrawsPlain(reqs[i])
    requires MintUpTo(mint, d, reqs, |reqs|).value.tokens[i] == IpToken(k)
    ensures k < d.ip + NewNumbers(IpNetwork, r2t, reqs, |reqs|)
  {
    TokenKind(mint, r2t, d, reqs, i);
    NumberedIsNetworkShaped(k);
    NumberedToken(mint, Ip(d), r2t, d, reqs, |reqs|, i);
    NewNumbersGrow(IpNetwork, r2t, reqs, i, |reqs|);
    var c := d.ip + NewNumbers(IpNetwork, r2t, reqs, i);
    if k != c {
      IpTokensApart(k, c);
    }
  }

  lemma {:induction false} MintKeepsNumbered(s: State, reqs: seq<Request>, m: MintedAll, span: bytes)
    requires Good(s) && Numbered(s) && MintUpTo(MinterOf(s.r2t, s.t2r), s.disk, reqs, |reqs|) == Some(m)
    requires forall i | 0 <= i < |reqs| :: DrawsPlain(reqs[i])
    ensures Numbered(Committed(s, reqs, m, span))
  {
    IpAfter(s, reqs, m);
    CommitGrants(s, reqs, m);
    MinterMints(s.r2t, s.t2r, s.disk);
    forall k: nat | IpToken(k) in Committed(s, reqs, m, span).t2r
      ensures k < m.disk.ip
    {
      RecordedKeys(s.t2r, m.tokens, Values(reqs), |reqs|, IpToken(k));
      if IpToken(k) !in s.t2r {
        var i :| 0 <= i < |reqs| && m.tokens[i] == IpToken(k);
        assert GrantedAt(s.r2t, s.t2r, reqs[i].value, m.tokens[i]);
        NewIpTokenIsNumbered(MinterOf(s.r2t, s.t2r), s.r2t, s.disk, reqs, i, k);
      }
    }
  }

  lemma CreateKeepsNumbered(s: State, req: Request, fault: bool)
    requires Good(s) && Numbered(s) && DrawsPlain(req)
    ensures Numbered(Create(s, req, fault).state)
  {
    if req.value !in s.r2t && Create(s, req, fault).token.Some? {
      var m := Fresh(s.disk, s.t2r, req).value;
      IpNumber(s.disk, s.t2r, req);
      forall k: nat | IpToken(k) in Create(s, req, fault).state.t2r
        ensures k < m.disk.ip
      {
        if IpToken(k) !in s.t2r {
          NumberedIsNetworkShaped(k);
          match req.entity {
            case Random(_) => var i := FreeIsDrawn(s.t2r, req.draw, 0);
            case IpNetwork => if k != s.disk.ip { IpTokensApart(k, s.disk.ip); }
            case Ipv6Network => NumberedIsNetworkShaped((s.disk.ip6 + 1) % UINT32);
          }
        }
      }
    }
  }

  lemma StepKeepsNumbered(s: State, op: Op)
    requires Good(s) && Numbered(s) && ProperStep(s, op) && PlainStep(op)
    ensures Numbered(Step(s, op))
  {
    match op {
      case Minting(reqs, build, fault) =>
        if !AllKnown(s.r2t, reqs, |reqs|) && Mint(s, reqs, build, fault).tokens.Some? {
          var m := MintUpTo(MinterOf(s.r2t, s.t2r), s.disk, reqs, |reqs|).value;
          MintKeepsNumbered(s, reqs, m, build(m.tokens));
        }
      case Creating(req, fault) => CreateKeepsNumbered(s, req, fault);
      case Reopening(t2r) => LoadedIsSame(s, t2r);
      case _ =>
    }
  }

  /** After any run, a storable new network gets a token exactly when fewer than 256 have been
      issued, and that token is the next number. */
  lemma {:induction false} NetworksRunOutAt256(s: State, ops: seq<Op>, req: Request, build: seq<bytes> -> bytes)
    requires Good(s) && Numbered(s) && Proper(s, ops) && Plain(ops) && s.disk.ip == 0
    requires var issued := |IssuedIn(s, ops)|;
             Needs(IpNetwork, Run(s, ops).r2t, req) && Storable(req.value) && Storable(build([IpToken(issued)]))
    ensures var issued, out := |IssuedIn(s, ops)|, Mint(Run(s, ops), [req], build, false);
            if issued < 256 then out.tokens == Some([IpToken(issued)]) else out == Outcome(Run(s, ops), None)
  {
    RunKeepsNumbered(s, ops);
    RunIssues(s, ops);
    GrantedUnlessFull(Run(s, ops), req, build);
    MintResolvesIff(Run(s, ops), [req], build, false);
  }

  lemma {:induction false} RunKeepsNumbered(s: State, ops: seq<Op>)
    requires Good(s) && Numbered(s) && Proper(s, ops) && Plain(ops)
    ensures Good(Run(s, ops)) && Numbered(Run(s, ops))
    decreases ops
  {
    if ops != [] {
      StepKeepsGood(s, ops[0]);
      StepKeepsNumbered(s, ops[0]);
      RunKeepsNumbered(Step(s, ops[0]), ops[1..]);
    }
  }
}

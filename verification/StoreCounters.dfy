/**
 The numbered tokens: which numbers a transaction uses, when a network is refused, and that a
 number is never used twice, whatever is deleted (internal/tokenstore/generator.go).
 */
module StoreCounters {
  import opened Bytes
  import opened Scanning
  import opened Minting
  import opened StoreStates

  /** How many of the first n requests need a new number of type e. */
  function NewNumbers(e: EntityType, r2t: Mapping, reqs: seq<Request>, n: nat): (c: nat)
    requires n <= |reqs|
    ensures c <= n
  {
    if n == 0 then 0
    else NewNumbers(e, r2t, reqs, n - 1) + if Needs(e, r2t, reqs[n - 1]) then 1 else 0
  }

  predicate Needs(e: EntityType, r2t: Mapping, req: Request) {
    req.entity == e && req.value !in r2t
  }

  lemma {:induction false} NewNumbersGrow(e: EntityType, r2t: Mapping, reqs: seq<Request>, i: nat, n: nat)
    requires i < n <= |reqs| && Needs(e, r2t, reqs[i])
    ensures NewNumbers(e, r2t, reqs, i) < NewNumbers(e, r2t, reqs, n)
    ensures NewNumbers(e, r2t, reqs, n) - NewNumbers(e, r2t, reqs, i) <= n - i
  {
    if i < n - 1 {
      NewNumbersGrow(e, r2t, reqs, i, n - 1);
    }
  }

  /** How a type is numbered in one transaction: at(k) is the counter after k numbers have been
      used, number(k) the token with the next one. */
  datatype Numbering = Numbering(entity: EntityType, counter: Disk -> nat, limit: nat, at: nat -> nat, number: nat -> bytes)

  predicate CountsOne(w: Numbering, r2t: Mapping, d: Disk, req: Request, m: Minted, k: nat) {
    && w.counter(m.disk) <= w.limit
    && (if Needs(w.entity, r2t, req) then m.token == w.number(k) && w.counter(m.disk) == w.at(k + 1)
        else w.counter(m.disk) == w.counter(d))
  }

  ghost predicate Counts(mint: Minter, w: Numbering, r2t: Mapping) {
    forall d, req, k: nat {:trigger mint(d, req), w.at(k)} |
      mint(d, req).Some? && w.counter(d) <= w.limit && w.counter(d) == w.at(k) ::
      CountsOne(w, r2t, d, req, mint(d, req).value, k)
  }

  lemma {:induction false} CounterAfter(mint: Minter, w: Numbering, r2t: Mapping, d: Disk, reqs: seq<Request>, n: nat)
    requires n <= |reqs| && MintUpTo(mint, d, reqs, n).Some?
    requires Counts(mint, w, r2t) && w.counter(d) == w.at(0) <= w.limit
    ensures w.counter(MintUpTo(mint, d, reqs, n).value.disk) == w.at(NewNumbers(w.entity, r2t, reqs, n)) <= w.limit
  {
    if n > 0 {
      CounterAfter(mint, w, r2t, d, reqs, n - 1);
      var before := MintUpTo(mint, d, reqs, n - 1).value.disk;
      assert CountsOne(w, r2t, before, reqs[n - 1], mint(before, reqs[n - 1]).value, NewNumbers(w.entity, r2t, reqs, n - 1));
    }
  }

  /** The token of request i has the number that request i counts for. */
  lemma {:induction false} NumberedToken(mint: Minter, w: Numbering, r2t: Mapping, d: Disk, reqs: seq<Request>, n: nat, i: nat)
    requires i < n <= |reqs| && MintUpTo(mint, d, reqs, n).Some?
    requires Counts(mint, w, r2t) && w.counter(d) == w.at(0) <= w.limit
    requires Needs(w.entity, r2t, reqs[i])
    ensures MintUpTo(mint, d, reqs, n).value.tokens[i] == w.number(NewNumbers(w.entity, r2t, reqs, i))
  {
    if i < n - 1 {
      NumberedToken(mint, w, r2t, d, reqs, n - 1, i);
    } else {
      CounterAfter(mint, w, r2t, d, reqs, i);
      var before := MintUpTo(mint, d, reqs, i).value.disk;
      assert CountsOne(w, r2t, before, reqs[i], mint(before, reqs[i]).value, NewNumbers(w.entity, r2t, reqs, i));
    }
  }

  /** IPv4 networks: a counter that stops at 256. */
  function Ip(d: Disk): Numbering {
    Numbering(IpNetwork, (d': Disk) => d'.ip, 256, (k: nat) => d.ip + k, (k: nat) => IpToken(d.ip + k))
  }

  /** IPv6 networks: a 32-bit counter that wraps. */
  function Ip6(d: Disk): Numbering {
    Numbering(Ipv6Network, (d': Disk) => d'.ip6, UINT32 - 1, (k: nat) => (d.ip6 + k) % UINT32,
              (k: nat) => Wrapped6(d.ip6 + k + 1))
  }

  function Wrapped6(c: nat): bytes { Ip6Token(c % UINT32) }

  lemma IpCounts(d: Disk, r2t: Mapping, t2r: Mapping)
    ensures Counts(MinterOf(r2t, t2r), Ip(d), r2t)
  {
    var mint, w := MinterOf(r2t, t2r), Ip(d);
    forall d', req, k: nat | mint(d', req).Some? && w.counter(d') <= w.limit && w.counter(d') == w.at(k)
      ensures CountsOne(w, r2t, d', req, mint(d', req).value, k)
    {
      if req.value !in r2t {
        IpNumber(d', t2r, req);
      }
    }
  }

  lemma IpNumber(d: Disk, t2r: Mapping, req: Request)
    requires d.ip <= 256 && Fresh(d, t2r, req).Some?
    ensures var m := Fresh(d, t2r, req).value;
            if req.entity.IpNetwork? then m.token == IpToken(d.ip) && m.disk.ip == d.ip + 1 <= 256
            else m.disk.ip == d.ip
  {
    hide IpToken, Ip6Token, FirstFree, Storable;
  }

  lemma Ip6Counts(d: Disk, r2t: Mapping, t2r: Mapping)
    ensures Counts(MinterOf(r2t, t2r), Ip6(d), r2t)
  {
    hide CountsOne, Fresh;
    var mint, w := MinterOf(r2t, t2r), Ip6(d);
    forall d', req, k: nat | mint(d', req).Some? && w.counter(d') <= w.limit && w.counter(d') == w.at(k)
      ensures CountsOne(w, r2t, d', req, mint(d', req).value, k)
    {
      Ip6CountsOne(d, r2t, t2r, d', req, k);
    }
  }

  lemma Ip6CountsOne(d: Disk, r2t: Mapping, t2r: Mapping, d': Disk, req: Request, k: nat)
    requires MintOne(d', r2t, t2r, req).Some? && d'.ip6 == (d.ip6 + k) % UINT32
    ensures CountsOne(Ip6(d), r2t, d', req, MintOne(d', r2t, t2r, req).value, k)
  {
    hide Fresh, Wrapped6;
    if req.value !in r2t {
      Ip6Number(d', t2r, req, d.ip6 + k);
    }
  }

  lemma Ip6Number(d: Disk, t2r: Mapping, req: Request, c: nat)
    requires d.ip6 == c % UINT32 && Fresh(d, t2r, req).Some?
    ensures var m := Fresh(d, t2r, req).value;
            if req.entity.Ipv6Network? then m.token == Wrapped6(c + 1) && m.disk.ip6 == (c + 1) % UINT32
            else m.disk.ip6 == d.ip6
  {
    ModStep(c);
  }

  lemma ModStep(c: nat)
    ensures (c % UINT32 + 1) % UINT32 == (c + 1) % UINT32
  {}

  lemma {:induction false} Ip6Within(mint: Minter, r2t: Mapping, d: Disk, reqs: seq<Request>)
    requires MintUpTo(mint, d, reqs, |reqs|).Some? && Counts(mint, Ip6(d), r2t) && d.ip6 < UINT32
    ensures MintUpTo(mint, d, reqs, |reqs|).value.disk.ip6 < UINT32
  {
    CounterAfter(mint, Ip6(d), r2t, d, reqs, |reqs|);
  }

  // ------------------------------------------------------------------ which requests are safe together

  predicate NetworkShaped(t: bytes) {
    HasPrefix(t, "198.18.") || HasPrefix(t, "fd00:c0de:")
  }

  /** Two requests cannot be given the same token: the candidates of two drawn types never
      coincide, and no drawn candidate looks like a network token. */
  ghost predicate Apart(a: Request, b: Request) {
    && (a.entity.Random? && b.entity.Random? ==> forall j: nat, k: nat :: a.draw(j) != b.draw(k))
    && (a.entity.Random? ==> forall k: nat :: !NetworkShaped(a.draw(k)))
    && (b.entity.Random? ==> forall k: nat :: !NetworkShaped(b.draw(k)))
  }

  ghost predicate AllApart(reqs: seq<Request>) {
    forall i, j | 0 <= i < j < |reqs| :: Apart(reqs[i], reqs[j])
  }

  /** No value that is still unknown is asked for twice. */
  ghost predicate AskedOnce(r2t: Mapping, reqs: seq<Request>) {
    forall i, j | 0 <= i < j < |reqs| && reqs[i].value !in r2t :: reqs[i].value != reqs[j].value
  }

  lemma DistinctIsAskedOnce(r2t: Mapping, reqs: seq<Request>)
    requires AskedOnce(map[], reqs)
    ensures AskedOnce(r2t, reqs)
  {}

  lemma {:induction false} TokenIsDrawn(mint: Minter, d: Disk, reqs: seq<Request>, n: nat, i: nat)
    requires i < n <= |reqs| && MintUpTo(mint, d, reqs, n).Some? && Draws(mint, reqs[i])
    ensures Drawn(reqs[i], MintUpTo(mint, d, reqs, n).value.tokens[i])
  {
    if i < n - 1 {
      TokenIsDrawn(mint, d, reqs, n - 1, i);
    }
  }

  ghost predicate Drawn(req: Request, token: bytes) {
    exists k: nat :: token == req.draw(k)
  }

  ghost predicate Draws(mint: Minter, req: Request) {
    forall d | mint(d, req).Some? :: Drawn(req, mint(d, req).value.token)
  }

  /** All that is needed of a minter: it draws, or numbers from the counters of d. */
  ghost predicate MintsFrom(mint: Minter, r2t: Mapping, d: Disk) {
    && Counts(mint, Ip(d), r2t) && Counts(mint, Ip6(d), r2t)
    && (forall req: Request | req.entity.Random? && req.value !in r2t :: Draws(mint, req))
    && d.ip <= 256 && d.ip6 < UINT32
  }

  lemma MinterMints(r2t: Mapping, t2r: Mapping, d: Disk)
    requires d.ip <= 256 && d.ip6 < UINT32
    ensures MintsFrom(MinterOf(r2t, t2r), r2t, d)
  {
    IpCounts(d, r2t, t2r);
    Ip6Counts(d, r2t, t2r);
    forall req: Request | req.entity.Random? && req.value !in r2t
      ensures Draws(MinterOf(r2t, t2r), req)
    {
      forall d' | MintOne(d', r2t, t2r, req).Some?
        ensures Drawn(req, MintOne(d', r2t, t2r, req).value.token)
      {
        var k := FreeIsDrawn(t2r, req.draw, 0);
      }
    }
  }

  /** Two new values of one call get different tokens. */
  lemma {:induction false} NewTokensDiffer(mint: Minter, r2t: Mapping, d: Disk, reqs: seq<Request>, i: nat, j: nat)
    requires MintsFrom(mint, r2t, d) && |reqs| < UINT32 && MintUpTo(mint, d, reqs, |reqs|).Some?
    requires i < j < |reqs| && Apart(reqs[i], reqs[j]) && reqs[i].value !in r2t && reqs[j].value !in r2t
    ensures var tokens := MintUpTo(mint, d, reqs, |reqs|).value.tokens; tokens[i] != tokens[j]
  {
    var ei, ej := reqs[i].entity, reqs[j].entity;
    if ei.Random? && ej.Random? {
      TokenIsDrawn(mint, d, reqs, |reqs|, i);
      TokenIsDrawn(mint, d, reqs, |reqs|, j);
    } else if ei.IpNetwork? && ej.IpNetwork? {
      IpNumbersApart(d, |reqs|);
      SameTypeDiffers(mint, Ip(d), r2t, d, reqs, i, j);
    } else if ei.Ipv6Network? && ej.Ipv6Network? {
      Ip6NumbersApart(d, |reqs|);
      SameTypeDiffers(mint, Ip6(d), r2t, d, reqs, i, j);
    } else {
      TokenKind(mint, r2t, d, reqs, i);
      TokenKind(mint, r2t, d, reqs, j);
    }
  }

  ghost predicate NumbersApart(w: Numbering, n: nat) {
    forall a: nat, b: nat | a < b <= n :: w.number(a) != w.number(b)
  }

  lemma IpNumbersApart(d: Disk, n: nat)
    ensures NumbersApart(Ip(d), n)
  {
    forall a: nat, b: nat | a < b <= n
      ensures Ip(d).number(a) != Ip(d).number(b)
    {
      IpTokensApart(d.ip + a, d.ip + b);
    }
  }

  lemma Ip6NumbersApart(d: Disk, n: nat)
    requires n < UINT32
    ensures NumbersApart(Ip6(d), n)
  {
    hide Wrapped6;
    forall a: nat, b: nat | a < b <= n
      ensures Ip6(d).number(a) != Ip6(d).number(b)
    {
      Wrapped6Apart(d.ip6 + a + 1, d.ip6 + b + 1);
    }
  }

  lemma Wrapped6Apart(a: nat, b: nat)
    requires a < b < a + UINT32
    ensures Wrapped6(a) != Wrapped6(b)
  {
    ModDiffers(a, b);
    Ip6TokensApart(a % UINT32, b % UINT32);
  }

  lemma {:induction false} SameTypeDiffers(mint: Minter, w: Numbering, r2t: Mapping, d: Disk, reqs: seq<Request>, i: nat, j: nat)
    requires i < j < |reqs| && MintUpTo(mint, d, reqs, |reqs|).Some?
    requires Counts(mint, w, r2t) && w.counter(d) == w.at(0) <= w.limit && NumbersApart(w, |reqs|)
    requires Needs(w.entity, r2t, reqs[i]) && Needs(w.entity, r2t, reqs[j])
    ensures var tokens := MintUpTo(mint, d, reqs, |reqs|).value.tokens; tokens[i] != tokens[j]
  {
    NumberedToken(mint, w, r2t, d, reqs, |reqs|, i);
    NumberedToken(mint, w, r2t, d, reqs, |reqs|, j);
    NewNumbersGrow(w.entity, r2t, reqs, i, j);
  }

  lemma NumberedIsNetworkShaped(c: nat)
    ensures HasPrefix(IpToken(c), "198.18.") && !HasPrefix(IpToken(c), "fd00:c0de:")
    ensures c < UINT32 ==> HasPrefix(Ip6Token(c), "fd00:c0de:") && !HasPrefix(Ip6Token(c), "198.18.")
  {
    assert IpToken(c)[0] == '1';
    assert c < UINT32 ==> Ip6Token(c)[0] == 'f';
  }

  predicate LooksLike(e: EntityType, token: bytes) {
    && (HasPrefix(token, "198.18.") <==> e == IpNetwork)
    && (HasPrefix(token, "fd00:c0de:") <==> e == Ipv6Network)
  }

  /** The beginning of a new token says which of the three kinds it is. */
  lemma {:induction false} TokenKind(mint: Minter, r2t: Mapping, d: Disk, reqs: seq<Request>, i: nat)
    requires MintsFrom(mint, r2t, d) && MintUpTo(mint, d, reqs, |reqs|).Some?
    requires i < |reqs| && reqs[i].value !in r2t
    requires reqs[i].entity.Random? ==> forall k: nat :: !NetworkShaped(reqs[i].draw(k))
    ensures LooksLike(reqs[i].entity, MintUpTo(mint, d, reqs, |reqs|).value.tokens[i])
  {
    match reqs[i].entity {
      case Random(_) =>
        TokenIsDrawn(mint, d, reqs, |reqs|, i);
      case IpNetwork =>
        IpNumbersLook(d);
        NumberLooks(mint, Ip(d), r2t, d, reqs, i);
      case Ipv6Network =>
        Ip6NumbersLook(d);
        NumberLooks(mint, Ip6(d), r2t, d, reqs, i);
    }
  }

  ghost predicate NumbersLook(w: Numbering) {
    forall k: nat :: LooksLike(w.entity, w.number(k))
  }

  lemma {:induction false} NumberLooks(mint: Minter, w: Numbering, r2t: Mapping, d: Disk, reqs: seq<Request>, i: nat)
    requires i < |reqs| && MintUpTo(mint, d, reqs, |reqs|).Some? && Needs(w.entity, r2t, reqs[i])
    requires Counts(mint, w, r2t) && w.counter(d) == w.at(0) <= w.limit && NumbersLook(w)
    ensures LooksLike(w.entity, MintUpTo(mint, d, reqs, |reqs|).value.tokens[i])
  {
    NumberedToken(mint, w, r2t, d, reqs, |reqs|, i);
  }

  lemma IpNumbersLook(d: Disk)
    ensures NumbersLook(Ip(d))
  {
    forall k: nat
      ensures LooksLike(IpNetwork, Ip(d).number(k))
    {
      NumberedIsNetworkShaped(d.ip + k);
    }
  }

  lemma Ip6NumbersLook(d: Disk)
    ensures NumbersLook(Ip6(d))
  {
    forall k: nat
      ensures LooksLike(Ipv6Network, Ip6(d).number(k))
    {
      WrappedLooks(d.ip6 + k + 1);
    }
  }

  lemma WrappedLooks(c: nat)
    ensures LooksLike(Ipv6Network, Wrapped6(c))
  {
    NumberedIsNetworkShaped(c % UINT32);
  }

  lemma ModDiffers(a: nat, b: nat)
    requires a < b < a + UINT32
    ensures a % UINT32 != b % UINT32
  {}
}

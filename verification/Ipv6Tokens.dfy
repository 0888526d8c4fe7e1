/**
 IPv6 addresses there and back: the network half is looked up as 16 hexadecimal digits, the host
 half is carried through, and both texts are written by net/netip (ipv6Detector in
 internal/redact/detector.go, detokenizeIPv6Tokens in internal/redact/engine.go). Of netip only
 what its documentation promises is used.
 */
module Ipv6Tokens {
  import opened Bytes
  import opened Scanning
  import opened Minting
  import opened Restore
  import opened TokenShapes
  import opened ExactShapes
  import opened SingleToken
  import opened TokenTexts
  import opened AllShapes
  import opened StreamDetokenize
  import opened StructuredTokens

  // ------------------------------------------------------------------ groups of digits

  /** Go's %02x of a byte. */
  function HexByte(c: byte): bytes { HexDigits(c as int, 2) }

  /** hex.EncodeToString. */
  function HexString(b: bytes): bytes {
    if b == [] then [] else HexByte(b[0]) + HexString(b[1..])
  }

  /** strings.Join(groups, ":"). */
  function Joined(groups: seq<bytes>): bytes {
    if groups == [] then []
    else if |groups| == 1 then groups[0]
    else groups[0] + (":" + Joined(groups[1..]))
  }

  /** Pieces of four digits; the last may be shorter. */
  function Quads(h: bytes): seq<bytes>
    decreases |h|
  {
    if h == [] then [] else if |h| < 4 then [h] else [h[..4]] + Quads(h[4..])
  }

  /** Two bytes a piece. */
  function Pairs(b: bytes): seq<bytes>
    requires |b| % 2 == 0
  {
    if b == [] then [] else [HexByte(b[0]) + HexByte(b[1])] + Pairs(b[2..])
  }

  function Groups6(b: bytes): bytes
    requires |b| % 2 == 0
  {
    Joined(Pairs(b))
  }

  method HexToIPv6Groups(h: bytes) returns (text: bytes)
    ensures text == Joined(Quads(h))
  {
    var groups: seq<bytes>, i := [], 0;
    while i < |h|
      invariant groups + Quads(From(h, i)) == Quads(h)
      decreases |h| - i
    {
      var end := if i + 4 < |h| then i + 4 else |h|;
      QuadsStep(h, i);
      ConcatAssoc(groups, [h[i..end]], Quads(From(h, i + 4)));
      groups := groups + [h[i..end]];
      i := i + 4;
    }
    ConcatNil(groups);
    return Joined(groups);
  }

  function From(h: bytes, i: nat): bytes { if i < |h| then h[i..] else [] }

  lemma {:induction false} QuadsStep(h: bytes, i: nat)
    requires i < |h|
    ensures Quads(From(h, i)) == [h[i..if i + 4 < |h| then i + 4 else |h|]] + Quads(From(h, i + 4))
  {
    var rest := From(h, i);
    if i + 4 <= |h| {
      assert rest[..4] == h[i..i + 4] && rest[4..] == From(h, i + 4);
    } else {
      assert h[i..|h|] == rest && |rest| < 4 && From(h, i + 4) == [];
      ConcatNil([rest]);
    }
  }

  method FormatIPv6Groups(b: bytes) returns (text: bytes)
    requires |b| % 2 == 0
    ensures text == Groups6(b)
  {
    hide Pairs, HexByte, Joined;
    var groups: seq<bytes>, i := [], 0;
    assert b[0..] == b;
    while i < |b|
      invariant i <= |b| && i % 2 == 0
      invariant groups + Pairs(b[i..]) == Pairs(b)
    {
      PairsStep(b, i);
      ConcatAssoc(groups, [HexByte(b[i]) + HexByte(b[i + 1])], Pairs(b[i + 2..]));
      groups := groups + [HexByte(b[i]) + HexByte(b[i + 1])];
      i := i + 2;
    }
    NoPairs(b[|b|..]);
    ConcatNil(groups);
    return Joined(groups);
  }

  lemma {:induction false} PairsStep(b: bytes, i: nat)
    requires i + 1 < |b| && |b| % 2 == 0 && i % 2 == 0
    ensures Pairs(b[i..]) == [HexByte(b[i]) + HexByte(b[i + 1])] + Pairs(b[i + 2..])
  {
    hide HexByte;
    assert b[i..][2..] == b[i + 2..];
  }

  lemma NoPairs(b: bytes)
    requires b == []
    ensures Pairs(b) == []
  {}

  lemma {:induction false} QuadsAreThePairs(b: bytes)
    requires |b| % 2 == 0
    ensures Quads(HexString(b)) == Pairs(b)
    decreases |b|
  {
    if b != [] {
      var rest := b[2..];
      assert b[1..][1..] == rest;
      FourDigits(HexByte(b[0]), HexByte(b[1]), HexString(rest));
      QuadsAreThePairs(rest);
    }
  }

  lemma FourDigits(a: bytes, b: bytes, rest: bytes)
    requires |a| == |b| == 2
    ensures Quads(a + (b + rest)) == [a + b] + Quads(rest)
  {
    var whole := a + (b + rest);
    assert whole[..4] == a + b && whole[4..] == rest;
  }

  lemma {:induction false} PairsJoin(a: bytes, b: bytes)
    requires |a| % 2 == 0 && |b| % 2 == 0
    ensures Pairs(a + b) == Pairs(a) + Pairs(b)
    decreases |a|
  {
    if a == [] {
      ConcatNil(b);
    } else {
      assert (a + b)[2..] == a[2..] + b;
      PairsJoin(a[2..], b);
    }
  }

  lemma {:induction false} JoinedTwice(a: seq<bytes>, b: seq<bytes>)
    requires a != [] && b != []
    ensures Joined(a + b) == Joined(a) + (":" + Joined(b))
  {
    if |a| == 1 {
      assert (a + b)[1..] == b;
    } else {
      assert (a + b)[1..] == a[1..] + b;
      JoinedTwice(a[1..], b);
      assert Joined(a + b) == Joined(a) + (":" + Joined(b));
    }
  }

  lemma GroupsJoin(a: bytes, b: bytes)
    requires |a| % 2 == 0 && |b| % 2 == 0 && a != [] && b != []
    ensures Groups6(a + b) == Groups6(a) + (":" + Groups6(b))
  {
    PairsJoin(a, b);
    JoinedTwice(Pairs(a), Pairs(b));
  }

  // ------------------------------------------------------------------ addresses

  /** netip.ParseAddr, as the 16 bytes of the address, and its String method. */
  datatype Netip = Netip(parse: bytes -> Option<bytes>, show: bytes -> bytes)

  /** An address is read back from its own text and from its eight groups written out. */
  ghost predicate Exact(ip: Netip) {
    && (forall t | ip.parse(t).Some? :: |ip.parse(t).value| == 16)
    && (forall a: bytes | |a| == 16 :: ip.parse(ip.show(a)) == Some(a) && ip.parse(Groups6(a)) == Some(a))
  }

  /** What stands in the text for an address: Format of the detection. */
  function Shown6(ip: Netip, b: bytes, token: bytes): bytes
    requires |b| == 16
  {
    var full := token + (":" + Groups6(b[8..]));
    if ip.parse(full).Some? then ip.show(ip.parse(full).value) else full
  }

  /** The token that an address is looked up by. */
  function NetToken6(b: bytes): bytes
    requires |b| == 16
  {
    "fd00:c0de:" + ((HexByte(b[4]) + HexByte(b[5])) + (":" + (HexByte(b[6]) + HexByte(b[7]))))
  }

  /** What detokenizeIPv6Tokens puts in the place of a match. */
  function Restored6(ip: Netip, token2real: map<bytes, bytes>, m: bytes): bytes
    requires Exact(ip)
  {
    if ip.parse(m).None? || NetToken6(ip.parse(m).value) !in token2real then m
    else
      var b := ip.parse(m).value;
      var full := Joined(Quads(token2real[NetToken6(b)])) + (":" + Groups6(b[8..]));
      if ip.parse(full).Some? then ip.show(ip.parse(full).value) else full
  }

  /** The network that a token stands for in the text: fd00:c0de and the number of the token. */
  function TokenNet(n: nat): bytes
    requires n < UINT32
  {
    [0xfd as char, 0 as char, 0xc0 as char, 0xde as char,
     (n / 0x10000 / 0x100) as char, (n / 0x10000 % 0x100) as char,
     (n % 0x10000 / 0x100) as char, (n % 0x10000 % 0x100) as char]
  }

  lemma HexOfTwo(n: nat)
    requires n < 0x10000
    ensures HexDigits(n, 4) == HexDigits(n / 0x100, 2) + HexDigits(n % 0x100, 2)
  {
    assert HexDigits(n, 4) == HexDigits(n / 16, 3) + [HexDigit(n % 16)];
    assert HexDigits(n / 16, 3) == HexDigits(n / 16 / 16, 2) + [HexDigit(n / 16 % 16)];
    assert HexDigits(n % 0x100, 2) == HexDigits(n % 0x100 / 16, 1) + [HexDigit(n % 0x100 % 16)];
    assert HexDigits(n % 0x100 / 16, 1) == [] + [HexDigit(n % 0x100 / 16 % 16)];
    assert n / 16 / 16 == n / 0x100 && n % 0x100 / 16 % 16 == n / 16 % 16 && n % 0x100 % 16 == n % 16;
  }

  /** The token is the address of its network, written in groups. */
  lemma TokenIsNet(n: nat)
    requires n < UINT32
    ensures Ip6Token(n) == Groups6(TokenNet(n))
    ensures forall host: bytes | |host| == 8 :: NetToken6(TokenNet(n) + host) == Ip6Token(n)
  {
    var a := TokenNet(n);
    FourGroups(a);
    FirstFour(a);
    NumberIsNet(n);
    hide TokenNet, Ip6Token, HexByte, Groups6;
    var high, low := HexByte(a[4]) + HexByte(a[5]), HexByte(a[6]) + HexByte(a[7]);
    Bracketed("fd00", "c0de", high, low);
    forall host: bytes | |host| == 8
      ensures NetToken6(TokenNet(n) + host) == Ip6Token(n)
    {
      assert forall i | 0 <= i < 8 :: (a + host)[i] == a[i];
    }
  }

  lemma Bracketed(a: bytes, b: bytes, c: bytes, d: bytes)
    ensures a + (":" + (b + (":" + (c + (":" + d))))) == (a + ":" + b + ":") + (c + (":" + d))
  {}

  /** The token in terms of the bytes of its network. */
  lemma NumberIsNet(n: nat)
    requires n < UINT32
    ensures var a := TokenNet(n);
            Ip6Token(n) == "fd00:c0de:" + ((HexByte(a[4]) + HexByte(a[5])) + (":" + (HexByte(a[6]) + HexByte(a[7]))))
  {
    var a := TokenNet(n);
    hide HexDigits, HexByte;
    TwoBytes(n / 0x10000, a[4], a[5]);
    TwoBytes(n % 0x10000, a[6], a[7]);
  }

  lemma TwoBytes(n: nat, a: byte, b: byte)
    requires n < 0x10000 && a as int == n / 0x100 && b as int == n % 0x100
    ensures HexDigits(n, 4) == HexByte(a) + HexByte(b)
  {
    HexOfTwo(n);
    hide HexDigits;
  }

  lemma FirstFour(a: bytes)
    requires |a| == 8 && a[0] as int == 0xfd && a[1] as int == 0 && a[2] as int == 0xc0 && a[3] as int == 0xde
    ensures HexByte(a[0]) + HexByte(a[1]) == "fd00" && HexByte(a[2]) + HexByte(a[3]) == "c0de"
  {
    HexTwo(0xfd);
    HexTwo(0);
    HexTwo(0xc0);
    HexTwo(0xde);
  }

  lemma HexTwo(n: nat)
    requires n < 0x100
    ensures HexDigits(n, 2) == [HexDigit(n / 16), HexDigit(n % 16)]
  {
    assert HexDigits(n, 2) == HexDigits(n / 16, 1) + [HexDigit(n % 16)];
    assert HexDigits(n / 16, 1) == [] + [HexDigit(n / 16 % 16)];
  }

  lemma FourGroups(a: bytes)
    requires |a| == 8
    ensures Groups6(a) == (HexByte(a[0]) + HexByte(a[1])) + (":" + ((HexByte(a[2]) + HexByte(a[3])) + (":" +
                          ((HexByte(a[4]) + HexByte(a[5])) + (":" + (HexByte(a[6]) + HexByte(a[7])))))))
  {
    hide HexByte;
    var a2, a4, a6 := a[2..], a[4..], a[6..];
    assert a2[2..] == a4 && a4[2..] == a6 && a6[2..] == [];
    var p, q, r, s := HexByte(a[0]) + HexByte(a[1]), HexByte(a[2]) + HexByte(a[3]), HexByte(a[4]) + HexByte(a[5]), HexByte(a[6]) + HexByte(a[7]);
    assert Pairs(a6) == [s] + Pairs([]) == [s];
    assert Pairs(a4) == [r] + Pairs(a6) == [r, s];
    assert Pairs(a2) == [q] + Pairs(a4) == [q, r, s];
    assert Pairs(a) == [p] + Pairs(a2) == [p, q, r, s];
    FourJoined(p, q, r, s);
  }

  lemma FourJoined(p: bytes, q: bytes, r: bytes, s: bytes)
    ensures Joined([p, q, r, s]) == p + (":" + (q + (":" + (r + (":" + s)))))
  {
    assert [p, q, r, s][1..] == [q, r, s] && [q, r, s][1..] == [r, s] && [r, s][1..] == [s];
    assert Joined([r, s]) == r + (":" + s);
    assert Joined([q, r, s]) == q + (":" + Joined([r, s]));
    assert Joined([p, q, r, s]) == p + (":" + Joined([q, r, s]));
  }

  /** However the address of a token's network is written, it is restored to the address in the stored
      network with the same host half. */
  lemma RestoredMeans(ip: Netip, token2real: map<bytes, bytes>, m: bytes, n: nat, net: bytes, host: bytes)
    requires Exact(ip) && n < UINT32 && |net| == 8 && |host| == 8
    requires ip.parse(m) == Some(TokenNet(n) + host)
    requires Ip6Token(n) in token2real && token2real[Ip6Token(n)] == HexString(net)
    ensures Restored6(ip, token2real, m) == ip.show(net + host) && ip.parse(Restored6(ip, token2real, m)) == Some(net + host)
  {
    TokenIsNet(n);
    QuadsAreThePairs(net);
    GroupsJoin(net, host);
    hide TokenNet, Ip6Token, NetToken6, HexString, Quads, Groups6;
    assert (TokenNet(n) + host)[8..] == host;
    assert |net + host| == 16;
  }

  /** An address that is shown with its token comes back in its canonical form: the same 16 bytes. */
  lemma AddressComesBack6(ip: Netip, token2real: map<bytes, bytes>, b: bytes, n: nat)
    requires Exact(ip) && n < UINT32 && |b| == 16
    requires Ip6Token(n) in token2real && token2real[Ip6Token(n)] == HexString(b[..8])
    ensures ip.parse(Shown6(ip, b, Ip6Token(n))) == Some(TokenNet(n) + b[8..])
    ensures Restored6(ip, token2real, Shown6(ip, b, Ip6Token(n))) == ip.show(b)
  {
    var host := b[8..];
    TokenIsNet(n);
    GroupsJoin(TokenNet(n), host);
    hide TokenNet, Ip6Token, Groups6, Restored6, HexString;
    var a := TokenNet(n) + host;
    assert |a| == 16;
    assert b[..8] + host == b;
    RestoredMeans(ip, token2real, Shown6(ip, b, Ip6Token(n)), n, b[..8], host);
  }

  // ------------------------------------------------------------------ in a text

  predicate AllHexColon(s: bytes) { forall i | 0 <= i < |s| :: Has(HexColon, s[i]) }

  /** The address of a token's network is shown in hexadecimal digits and colons, and its first two
      groups, which are not zero, are written out (section 4 of RFC 5952). */
  ghost predicate Canonical(ip: Netip) {
    forall n: nat, host: bytes | n < UINT32 && |host| == 8 ::
      HasPrefix(ip.show(TokenNet(n) + host), "fd00:c0de:") && AllHexColon(ip.show(TokenNet(n) + host))
  }

  lemma StarTakes(m: bytes, after: bytes)
    requires HasPrefix(m, "fd00:c0de:") && AllHexColon(m) && (after == [] || !Has(HexColon, after[0]))
    ensures AltLen(IPV6, m + after) == Some(|m|)
  {
    var w: bytes, x := "fd00:c0de:", m[10..];
    assert m + after == w + (x + after);
    assert IPV6.items[1..] == [Star(HexColon)] && IPV6.items[1..][1..] == [];
    WordTakes(w, x + after);
    RunEnds(HexColon, x, after, |x + after|);
    assert (x + after)[|x|..] == after;
    hide RunLen;
    ItemsLenStep(IPV6.items[1..], x + after, |x|);
    ItemsLenStep(IPV6.items, w + (x + after), |w|);
  }

  /** Detokenize of a text that shows one such address and nothing else: the address in the stored
      network is back. */
  lemma Ipv6ComesBack(l: Lookups, ip: Netip, before: bytes, b: bytes, n: nat, after: bytes, text: bytes, out: bytes)
    requires Exact(ip) && Canonical(ip) && forall m: bytes :: l.ipv6(m) == Restored6(ip, l.token2real, m)
    requires n < UINT32 && |b| == 16
    requires Ip6Token(n) in l.token2real && l.token2real[Ip6Token(n)] == HexString(b[..8])
    requires after == [] || !Has(HexColon, after[0])
    requires text == before + Shown6(ip, b, Ip6Token(n)) + after && out == before + ip.show(b) + after
    requires OnlyAt(IPV6, text, |before|)
    requires |Full(l)| == 6 && AllFindNothing(Full(l)[..3], text) && AllFindNothing(Full(l)[4..], out)
    ensures Detokenized(l, text) == out
  {
    hide *;
    var m := Shown6(ip, b, Ip6Token(n));
    ShownIsCanonical(ip, b, n);
    AddressComesBack6(ip, l.token2real, b, n);
    StarTakes(m, after);
    Ipv6Pass(l, before, m, after);
    ByOnePass(l, 3, text, out);
  }

  lemma ShownIsCanonical(ip: Netip, b: bytes, n: nat)
    requires Exact(ip) && Canonical(ip) && n < UINT32 && |b| == 16
    ensures HasPrefix(Shown6(ip, b, Ip6Token(n)), "fd00:c0de:") && AllHexColon(Shown6(ip, b, Ip6Token(n)))
  {
    var host := b[8..];
    TokenIsNet(n);
    GroupsJoin(TokenNet(n), host);
    hide TokenNet, Ip6Token, Groups6, AllHexColon, HasPrefix;
    assert |TokenNet(n) + host| == 16;
  }

  lemma Ipv6Pass(l: Lookups, before: bytes, m: bytes, after: bytes)
    requires AltLen(IPV6, m + after) == Some(|m|) && OnlyAt(IPV6, before + m + after, |before|)
    ensures |Full(l)| == 6 && Proper(Full(l)[3])
    ensures RunPass(Full(l)[3], before + m + after) == before + l.ipv6(m) + after
  {
    hide *;
    WhichPass6(l);
    ProperIs(Full(l)[3]);
    OnePass(IPV6, Rule(l.ipv6, NoEcho()), before, m, after);
  }

  lemma WhichPass6(l: Lookups)
    ensures |Full(l)| == 6 && Full(l)[3] == Pass([IPV6], Rule(l.ipv6, NoEcho()))
    ensures Searchable(IPV6) && IPV6.left.AnyByte? && AllTake([IPV6])
    ensures forall m: bytes :: Rule(l.ipv6, NoEcho()).echo(m) == []
  {
    FullParts(l);
    hide Full, Join, DomainRule, EmailRule, Ipv4Rule, IntlPhoneRule, PlainRule;
  }
}

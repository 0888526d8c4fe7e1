/**
 Minting tokens inside one write transaction (internal/tokenstore/generator.go, and the transaction
 bodies of internal/tokenstore/store.go and spans.go). The database is a value; a transaction is
 an object that works on its own copy, which is dropped when the transaction fails.
 */
module Minting {
  import opened Bytes
  import opened Scanning

  /** The two network types are numbered by persisted counters, every other type is drawn at
      random. */
  datatype EntityType = IpNetwork | Ipv6Network | Random(name: bytes)

  type Mapping = map<bytes, bytes>

  /** The committed buckets. The counters are 32 bits wide. */
  datatype Disk = Disk(
    r2t: Mapping,
    t2r: Mapping,
    meta: map<bytes, EntityType>,
    ip: nat,
    ip6: nat,
    spans: set<bytes>)

  /** A real value to find or mint a token for. draw(k) is the k-th random candidate. */
  datatype Request = Request(value: bytes, entity: EntityType, draw: nat -> bytes)

  const UINT32: nat := 0x1_0000_0000

  // ------------------------------------------------------------------ the numbered tokens

  function DigitOf(n: nat): byte
    requires n < 10
  { (n + '0' as int) as char }

  /** Go's %d. */
  function Decimal(n: nat): bytes {
    if n < 10 then [DigitOf(n)] else Decimal(n / 10) + [DigitOf(n % 10)]
  }

  /** The last width hexadecimal digits; Go's %04x of a 16-bit number when width is 4. */
  function HexDigits(n: nat, width: nat): (h: bytes)
    ensures |h| == width
  {
    if width == 0 then [] else HexDigits(n / 16, width - 1) + [HexDigit(n % 16)]
  }

  function Pow16(width: nat): nat {
    if width == 0 then 1 else 16 * Pow16(width - 1)
  }

  function IpToken(n: nat): bytes { "198.18." + Decimal(n) }

  function Ip6Token(n: nat): bytes
    requires n < UINT32
  { "fd00:c0de:" + (HexDigits(n / 0x10000, 4) + (":" + HexDigits(n % 0x10000, 4))) }

  lemma {:induction false} DecimalIsInjective(m: nat, n: nat)
    requires Decimal(m) == Decimal(n)
    ensures m == n
  {
    var a, b := Decimal(m), Decimal(n);
    assert a[|a| - 1] == DigitOf(m % 10) && b[|b| - 1] == DigitOf(n % 10);
    assert m % 10 == n % 10;
    if m >= 10 && n >= 10 {
      assert a[..|a| - 1] == Decimal(m / 10) && b[..|b| - 1] == Decimal(n / 10);
      DecimalIsInjective(m / 10, n / 10);
    } else {
      DecimalLength(m);
      DecimalLength(n);
    }
  }

  lemma {:induction false} DecimalLength(n: nat)
    ensures 1 <= |Decimal(n)| <= n + 1 && (n >= 10 ==> |Decimal(n)| >= 2)
  {
    if n >= 10 {
      DecimalLength(n / 10);
    }
  }

  lemma IpTokensApart(m: nat, n: nat)
    requires m != n
    ensures IpToken(m) != IpToken(n)
  {
    assert IpToken(m)[7..] == Decimal(m) && IpToken(n)[7..] == Decimal(n);
    if IpToken(m) == IpToken(n) {
      DecimalIsInjective(m, n);
    }
  }

  lemma HexDigitIsInjective(m: nat, n: nat)
    requires m < 16 && n < 16 && HexDigit(m) == HexDigit(n)
    ensures m == n
  {}

  lemma {:induction false} HexIsInjective(m: nat, n: nat, width: nat)
    requires m < Pow16(width) && n < Pow16(width) && HexDigits(m, width) == HexDigits(n, width)
    ensures m == n
  {
    if width > 0 {
      var a, b := HexDigits(m, width), HexDigits(n, width);
      assert a[width - 1] == HexDigit(m % 16) && b[width - 1] == HexDigit(n % 16);
      assert a[..width - 1] == HexDigits(m / 16, width - 1) && b[..width - 1] == HexDigits(n / 16, width - 1);
      HexDigitIsInjective(m % 16, n % 16);
      HexIsInjective(m / 16, n / 16, width - 1);
    }
  }

  lemma Ip6TokensApart(m: nat, n: nat)
    requires m < UINT32 && n < UINT32 && m != n
    ensures Ip6Token(m) != Ip6Token(n)
  {
    var a, b := Ip6Token(m), Ip6Token(n);
    assert a[10..14] == HexDigits(m / 0x10000, 4) && b[10..14] == HexDigits(n / 0x10000, 4);
    assert a[15..19] == HexDigits(m % 0x10000, 4) && b[15..19] == HexDigits(n % 0x10000, 4);
    assert Pow16(1) == 16 && Pow16(2) == 256 && Pow16(3) == 0x1000 && Pow16(4) == 0x10000;
    if a == b {
      HexIsInjective(m / 0x10000, n / 0x10000, 4);
      HexIsInjective(m % 0x10000, n % 0x10000, 4);
    }
  }

  /** The number that digits in a base stand for. */
  function DigitsRead(s: bytes, base: nat): nat {
    if s == [] then 0 else DigitsRead(s[..|s| - 1], base) * base + DigitValue(s[|s| - 1])
  }

  function DigitValue(c: byte): nat {
    if '0' <= c <= '9' then c as int - '0' as int else if 'a' <= c <= 'f' then c as int - 'a' as int + 10 else 0
  }

  lemma {:induction false} DecimalReads(n: nat)
    ensures DigitsRead(Decimal(n), 10) == n
  {
    if n >= 10 {
      DecimalReads(n / 10);
      assert Decimal(n)[..|Decimal(n)| - 1] == Decimal(n / 10);
    } else {
      assert [DigitOf(n)][..0] == [];
    }
  }

  lemma {:induction false} HexReads(n: nat, width: nat)
    requires n < Pow16(width)
    ensures DigitsRead(HexDigits(n, width), 16) == n
  {
    if width > 0 {
      HexReads(n / 16, width - 1);
      assert HexDigits(n, width)[..width - 1] == HexDigits(n / 16, width - 1);
    }
  }

  /** The tokens carry their number: in decimal behind the prefix, and in two groups of four hexadecimal
      digits, the high one first. */
  lemma TokensCarryNumbers(n: nat)
    requires n < UINT32
    ensures IpToken(n)[..7] == "198.18." && DigitsRead(IpToken(n)[7..], 10) == n
    ensures var t := Ip6Token(n);
            && |t| == 19 && t[..10] == "fd00:c0de:" && t[14] == ':'
            && DigitsRead(t[10..14], 16) * 0x10000 + DigitsRead(t[15..], 16) == n
  {
    var t, high, low := Ip6Token(n), HexDigits(n / 0x10000, 4), HexDigits(n % 0x10000, 4);
    DecimalReads(n);
    assert IpToken(n)[7..] == Decimal(n);
    assert Pow16(1) == 16 && Pow16(2) == 256 && Pow16(3) == 0x1000 && Pow16(4) == 0x10000;
    HexReads(n / 0x10000, 4);
    HexReads(n % 0x10000, 4);
    hide HexDigits, Decimal, DigitsRead;
    assert t[10..14] == high && t[15..] == low;
  }

  // ------------------------------------------------------------------ one token

  /** The first candidate out of ten that is not taken. */
  function FirstFree(existing: Mapping, draw: nat -> bytes, k: nat): Option<bytes>
    decreases 10 - k
  {
    if k >= 10 then None
    else if draw(k) !in existing then Some(draw(k))
    else FirstFree(existing, draw, k + 1)
  }

  datatype Minted = Minted(token: bytes, disk: Disk)

  /** nextToken: the token and the counters it leaves. */
  function Next(d: Disk, existing: Mapping, req: Request): Option<Minted> {
    match req.entity
    case IpNetwork =>
      var n := (d.ip + 1) % UINT32;
      if n > 256 then None
      else
        var candidate := IpToken((n - 1) % UINT32);
        if candidate in existing then None else Some(Minted(candidate, d.(ip := n)))
    case Ipv6Network =>
      var n := (d.ip6 + 1) % UINT32;
      var candidate := Ip6Token(n);
      if candidate in existing then None else Some(Minted(candidate, d.(ip6 := n)))
    case Random(_) =>
      match FirstFree(existing, req.draw, 0)
      case None => None
      case Some(candidate) => Some(Minted(candidate, d))
  }

  /** The keys that the database can store. */
  predicate Storable(key: bytes) { 0 < |key| <= 32768 }

  function Put(d: Disk, req: Request, token: bytes): Disk {
    d.(r2t := d.r2t[req.value := token],
       t2r := d.t2r[token := req.value],
       meta := d.meta[req.value := req.entity])
  }

  /** What one transaction does for one new value. */
  function Fresh(d: Disk, existing: Mapping, req: Request): Option<Minted> {
    match Next(d, existing, req)
    case None => None
    case Some(m) =>
      if Storable(req.value) && Storable(m.token) then Some(Minted(m.token, Put(m.disk, req, m.token))) else None
  }

  function MintOne(d: Disk, r2t: Mapping, t2r: Mapping, req: Request): Option<Minted> {
    if req.value in r2t then Some(Minted(r2t[req.value], d)) else Fresh(d, t2r, req)
  }

  datatype MintedAll = MintedAll(tokens: seq<bytes>, disk: Disk)

  type Minter = (Disk, Request) -> Option<Minted>

  /** The maps are those in memory: they do not change while the transaction is open. */
  function MinterOf(r2t: Mapping, t2r: Mapping): Minter {
    (d: Disk, req: Request) => MintOne(d, r2t, t2r, req)
  }

  /** The first n requests of one transaction. */
  function MintUpTo(mint: Minter, d: Disk, reqs: seq<Request>, n: nat): (m: Option<MintedAll>)
    requires n <= |reqs|
    ensures m.Some? ==> |m.value.tokens| == n
  {
    if n == 0 then Some(MintedAll([], d))
    else
      match MintUpTo(mint, d, reqs, n - 1)
      case None => None
      case Some(before) =>
        match mint(before.disk, reqs[n - 1])
        case None => None
        case Some(m) => Some(MintedAll(before.tokens + [m.token], m.disk))
  }

  /** An open write transaction. */
  class Tx {
    var disk: Disk

    constructor (disk: Disk)
      ensures this.disk == disk
    {
      this.disk := disk;
    }

    method IncrementIp() returns (n: nat)
      modifies this
      ensures n == (old(disk).ip + 1) % UINT32 && disk == old(disk).(ip := n)
    {
      n := (disk.ip + 1) % UINT32;
      disk := disk.(ip := n);
    }

    method IncrementIp6() returns (n: nat)
      modifies this
      ensures n == (old(disk).ip6 + 1) % UINT32 && disk == old(disk).(ip6 := n)
    {
      n := (disk.ip6 + 1) % UINT32;
      disk := disk.(ip6 := n);
    }

    method NextToken(existing: Mapping, req: Request) returns (token: Option<bytes>)
      modifies this
      ensures var m := Next(old(disk), existing, req);
              match token
              case None => m.None?
              case Some(t) => m == Some(Minted(t, disk))
    {
      match req.entity
      case IpNetwork =>
        var n := IncrementIp();
        if n > 256 {
          return None;
        }
        var candidate := IpToken((n - 1) % UINT32);
        return if candidate in existing then None else Some(candidate);
      case Ipv6Network =>
        var n := IncrementIp6();
        var candidate := Ip6Token(n);
        return if candidate in existing then None else Some(candidate);
      case Random(_) =>
        token := NextRandom(existing, req.draw);
    }

    method MintNew(existing: Mapping, req: Request) returns (token: Option<bytes>)
      modifies this
      ensures var m := Fresh(old(disk), existing, req);
              match token
              case None => m.None?
              case Some(t) => m == Some(Minted(t, disk))
    {
      token := NextToken(existing, req);
      if token.Some? && !(Storable(req.value) && Storable(token.value)) {
        return None;
      }
      if token.Some? {
        disk := Put(disk, req, token.value);
      }
    }
  }

  /** Ten attempts at a candidate that is not taken. */
  method NextRandom(existing: Mapping, draw: nat -> bytes) returns (token: Option<bytes>)
    ensures token == FirstFree(existing, draw, 0)
    ensures token.Some? ==> token.value !in existing
    ensures token.None? <==> forall k: nat | k < 10 :: draw(k) in existing
  {
    for k := 0 to 10
      invariant FirstFree(existing, draw, 0) == FirstFree(existing, draw, k)
      invariant forall i: nat | i < k :: draw(i) in existing
    {
      var candidate := draw(k);
      if candidate !in existing {
        return Some(candidate);
      }
    }
    return None;
  }

  // ------------------------------------------------------------------ what a transaction mints

  lemma {:induction false} FreeIsDrawn(existing: Mapping, draw: nat -> bytes, k: nat) returns (i: nat)
    requires FirstFree(existing, draw, k).Some?
    ensures i < 10 && FirstFree(existing, draw, k).value == draw(i) && draw(i) !in existing
    decreases 10 - k
  {
    if draw(k) !in existing {
      i := k;
    } else {
      i := FreeIsDrawn(existing, draw, k + 1);
    }
  }

  /** A new token is not the token of anything, and the counters say which numbers were used. */
  lemma NewTokenIsFree(d: Disk, existing: Mapping, req: Request)
    requires Fresh(d, existing, req).Some?
    ensures var m := Fresh(d, existing, req).value;
            && m.token !in existing
            && m.disk == Put(d, req, m.token).(ip := m.disk.ip, ip6 := m.disk.ip6)
  {
    if req.entity.Random? {
      var i := FreeIsDrawn(existing, req.draw, 0);
    }
  }
}

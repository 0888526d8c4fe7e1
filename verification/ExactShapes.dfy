/**
 Shapes that take a fixed number of bytes: where a cut of the text may fall without changing what is
 found of them (the patterns of internal/redact/engine.go).
 */
module ExactShapes {
  import opened Bytes
  import opened Scanning
  import opened Restore
  import opened TokenShapes

  /** Every item takes a fixed number of bytes. */
  predicate Exact(items: seq<Item>) {
    forall i | 0 <= i < |items| :: !items[i].Star? && (items[i].Run? ==> items[i].lo == items[i].hi)
  }

  lemma {:induction false} RunExtends(k: Class, x: bytes, y: bytes, n: nat)
    requires RunLen(k, x, n) == n
    ensures RunLen(k, x + y, n) == n
  {
    if n > 0 {
      assert (x + y)[1..] == x[1..] + y;
      RunExtends(k, x[1..], y, n - 1);
    }
  }

  lemma ItemExtends(item: Item, x: bytes, y: bytes)
    requires Exact([item]) && ItemLen(item, x).Some?
    ensures ItemLen(item, x + y) == ItemLen(item, x)
  {
    assert [item][0] == item;
    match item
    case Word(text) => assert (x + y)[..|text|] == x[..|text|];
    case Fold(text) =>
    case Run(k, lo, hi) => RunExtends(k, x, y, hi);
  }

  lemma {:induction false} ItemsExtend(items: seq<Item>, x: bytes, y: bytes)
    requires Exact(items) && ItemsLen(items, x).Some?
    ensures ItemsLen(items, x + y) == ItemsLen(items, x)
  {
    if items != [] {
      ItemExtends(items[0], x, y);
      var n := ItemLen(items[0], x).value;
      assert (x + y)[n..] == x[n..] + y;
      ItemsExtend(items[1..], x[n..], y);
    }
  }

  lemma {:induction false} RunShrinks(k: Class, x: bytes, y: bytes, n: nat)
    requires RunLen(k, x + y, n) == n <= |x|
    ensures RunLen(k, x, n) == n
  {
    if n > 0 {
      assert (x + y)[1..] == x[1..] + y;
      RunShrinks(k, x[1..], y, n - 1);
    }
  }

  lemma ItemShrinks(item: Item, x: bytes, y: bytes)
    requires Exact([item]) && ItemLen(item, x + y).Some? && ItemLen(item, x + y).value <= |x|
    ensures ItemLen(item, x) == ItemLen(item, x + y)
  {
    assert [item][0] == item;
    match item
    case Word(text) => assert (x + y)[..|text|] == x[..|text|];
    case Fold(text) =>
    case Run(k, lo, hi) => RunShrinks(k, x, y, hi);
  }

  lemma {:induction false} ItemsShrink(items: seq<Item>, x: bytes, y: bytes)
    requires Exact(items) && ItemsLen(items, x + y).Some? && ItemsLen(items, x + y).value <= |x|
    ensures ItemsLen(items, x) == ItemsLen(items, x + y)
  {
    if items != [] {
      ItemsLenParts(items, x + y);
      ItemShrinks(items[0], x, y);
      var n := ItemLen(items[0], x).value;
      assert (x + y)[n..] == x[n..] + y;
      ItemsShrink(items[1..], x[n..], y);
    }
  }

  // ------------------------------------------------------------------ the size

  function Size(items: seq<Item>): nat {
    if items == [] then 0
    else (match items[0]
          case Word(text) => |text|
          case Fold(text) => |text|
          case Run(_, lo, _) => lo
          case Star(_) => 0) + Size(items[1..])
  }

  lemma {:induction false} ExactSize(items: seq<Item>, s: bytes)
    requires Exact(items) && ItemsLen(items, s).Some?
    ensures ItemsLen(items, s).value == Size(items)
  {
    if items != [] {
      ExactSize(items[1..], s[ItemLen(items[0], s).value..]);
    }
  }

  lemma {:induction false} RunOfAll(k: Class, x: bytes, rest: bytes)
    requires forall i | 0 <= i < |x| :: Has(k, x[i])
    ensures RunLen(k, x + rest, |x|) == |x|
  {
    if x != [] {
      assert (x + rest)[1..] == x[1..] + rest;
      RunOfAll(k, x[1..], rest);
    }
  }

  lemma {:induction false} ItemsLenStep(items: seq<Item>, s: bytes, n: nat)
    requires items != [] && ItemLen(items[0], s) == Some(n) && ItemsLen(items[1..], s[n..]).Some?
    ensures ItemsLen(items, s) == Some(n + ItemsLen(items[1..], s[n..]).value)
  {}

  lemma TakesSize(alt: Alt, token: bytes)
    requires TakesSomething(alt) && Exact(alt.items) && AltLen(alt, token) == Some(|token|)
    ensures 0 < Size(alt.items) == |token|
  {
    AltTakesSomething(alt, token);
    ExactSize(alt.items, token);
  }

  lemma {:induction false} ItemsLenParts(items: seq<Item>, s: bytes)
    requires items != [] && ItemsLen(items, s).Some?
    ensures ItemLen(items[0], s).Some?
    ensures var n := ItemLen(items[0], s).value;
            ItemsLen(items[1..], s[n..]).Some? && ItemsLen(items, s).value == n + ItemsLen(items[1..], s[n..]).value
  {}

  /** The item ends with a byte that is no boundary byte. */
  predicate EndsUnbroken(item: Item) {
    match item
    case Word(text) => text != [] && !IsBoundary(text[|text| - 1])
    case Fold(_) => false
    case Run(_, lo, _) => 0 < lo
    case Star(_) => false
  }

  lemma ItemEnds(item: Item, s: bytes)
    requires ItemLen(item, s).Some? && EndsUnbroken(item)
    ensures var n := ItemLen(item, s).value; 0 < n && !IsBoundary(s[n - 1])
  {
    var n := ItemLen(item, s).value;
    if item.Word? {
      PrefixBytes(s, item.text);
    } else {
      ClassesAreFree(item.kind, s[n - 1]);
    }
  }

  lemma {:induction false} ItemsEnd(items: seq<Item>, s: bytes)
    requires items != [] && ItemsLen(items, s).Some? && EndsUnbroken(items[|items| - 1])
    ensures var n := ItemsLen(items, s).value; 0 < n && !IsBoundary(s[n - 1])
  {
    hide ItemLen, IsBoundary, EndsUnbroken;
    ItemsLenParts(items, s);
    if |items| == 1 {
      ItemEnds(items[0], s);
    } else {
      ItemsEnd(items[1..], s[ItemLen(items[0], s).value..]);
    }
  }

  // ------------------------------------------------------------------ cutting

  /** What lets a shape be cut apart wherever no match of it is cut, boundary bytes inside or not. */
  predicate Rigid(alt: Alt) {
    && TakesSomething(alt) && (alt.left.NotAlnum? ==> StartsAlnum(alt))
    && Exact(alt.items) && !alt.wordEnd && EndsUnbroken(alt.items[|alt.items| - 1])
  }

  /** Some match of the shape begins in a and ends in b. */
  predicate Crosses(alt: Alt, a: bytes, b: bytes) {
    exists q: nat | q < |a| :: CrossesAt(alt, a, b, q)
  }

  predicate CrossesAt(alt: Alt, a: bytes, b: bytes, q: nat)
    requires q <= |a|
  {
    var g := OneAt(alt, a + b, q);
    g.Some? && g.value.start < |a| < g.value.end
  }

  lemma RigidIsLocal(alt: Alt, a: bytes, b: bytes)
    requires Rigid(alt) && Closed(a) && !Crosses(alt, a, b)
    ensures Local(alt, a, b)
  {
    hide Rigid, Crosses, CrossesAt, Inside;
    forall q: nat | q < |a| && LeftFits(alt, a, q)
      ensures Inside(alt, a[q..], b)
    {
      NoLongMatch(alt, a, b, q);
      ShortMatchIsInside(alt, a[q..], b);
    }
    hide *;
    RigidBasics(alt);
  }

  lemma RigidBasics(alt: Alt)
    requires Rigid(alt)
    ensures TakesSomething(alt) && (alt.left.NotAlnum? ==> StartsAlnum(alt))
  {}

  lemma NoLongMatch(alt: Alt, a: bytes, b: bytes, q: nat)
    requires Rigid(alt) && Closed(a) && !Crosses(alt, a, b) && q < |a| && LeftFits(alt, a, q)
    ensures AltLen(alt, a[q..] + b).Some? ==> AltLen(alt, a[q..] + b).value <= |a[q..]|
    ensures Closed(a[q..])
  {
    hide AltLen, Exact, EndsUnbroken, TakesSomething, StartsAlnum;
    assert (a + b)[q..] == a[q..] + b;
    assert (a + b)[0..] == a + b;
    assert !CrossesAt(alt, a, b, q);
    if q > 0 {
      assert (a + b)[q - 1] == a[q - 1] && (a + b)[q - 1 + 1..] == a[q..] + b;
      assert !CrossesAt(alt, a, b, q - 1);
      if alt.left.NotAlnum? && AltLen(alt, a + b).Some? {
        RigidBasics(alt);
        ItemsStartAlnum(alt, a + b);
      }
    }
  }

  lemma ShortMatchIsInside(alt: Alt, x: bytes, rest: bytes)
    requires Rigid(alt) && Closed(x)
    requires AltLen(alt, x + rest).Some? ==> AltLen(alt, x + rest).value <= |x|
    ensures Inside(alt, x, rest)
  {
    hide Exact, TakesSomething, StartsAlnum, EndsUnbroken, ItemsLen, IsBoundary;
    if AltLen(alt, x).Some? {
      ItemsExtend(alt.items, x, rest);
    }
    if AltLen(alt, x + rest).Some? {
      ItemsShrink(alt.items, x, rest);
      TakesItems(alt);
      ItemsEnd(alt.items, x);
    }
  }

  lemma TakesItems(alt: Alt)
    requires TakesSomething(alt)
    ensures alt.items != []
  {}

  // ------------------------------------------------------------------ domain tokens

  predicate IsDomainToken(token: bytes) {
    |token| == 19 && token[..3] == "tok" && forall i | 3 <= i < 19 :: Has(LowerHex, token[i])
  }

  lemma DomainTokenBytes(token: bytes)
    requires IsDomainToken(token)
    ensures token[0] == 't' && forall i | 0 < i < 19 :: token[i] != 't'
    ensures forall i | 0 <= i < 19 :: IsAlnum(token[i])
  {
    assert token[0] == token[..3][0] && token[1] == token[..3][1] && token[2] == token[..3][2];
  }

  lemma DomainTokenMatches(token: bytes, rest: bytes)
    requires IsDomainToken(token)
    ensures AltLen(DOMAIN, token + rest) == Some(19)
  {
    var s, hex := token + rest, token[3..];
    assert s[..3] == "tok" && s[3..] == hex + rest;
    RunOfAll(LowerHex, hex, rest);
    assert DOMAIN.items[1..] == [Hex(16)] && DOMAIN.items[1..][1..] == [];
    ItemsLenStep(DOMAIN.items[1..], s[3..], 16);
    ItemsLenStep(DOMAIN.items, s, 3);
  }

  /** The shape needs "tok" and nineteen bytes. */
  lemma NoDomainToken(s: bytes)
    requires |s| < 19 || s[0] != 't' || s[1] != 'o'
    ensures AltLen(DOMAIN, s).None?
  {
    var items := DOMAIN.items;
    assert items == [Word("tok"), Hex(16)] && items[1..] == [Hex(16)] && items[1..][1..] == [];
    assert Size(items) == 3 + Size(items[1..]) && Size(items[1..]) == 16 + Size([]);
    if AltLen(DOMAIN, s).Some? {
      ExactSize(items, s);
      PrefixBytes(s, "tok");
    }
  }
}

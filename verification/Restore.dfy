/**
 Detokenize: a fixed sequence of passes, each of which scans the text for one group of token
 shapes from left to right and replaces what it finds (internal/redact/engine.go). The regular
 expressions are data here: every shape is a sequence of literal words and bounded runs of byte
 classes, in which a run takes as many bytes as it may. No run is followed by something that one
 of its own bytes could begin, so this is what the leftmost-first search finds as well. A rune
 outside ASCII counts by its last byte, which is never alphanumeric.
 */
module Restore {
  import opened Bytes
  import opened Scanning

  /** textBoundaryChars of internal/proxyserver/sse.go. */
  predicate IsBoundary(c: byte) {
    || c == ' ' || c == '\t' || c == '\n' || c == '\r' || c == '`' || c == '"' || c == '\''
    || c == ',' || c == ';' || c == '(' || c == ')' || c == '[' || c == ']' || c == '{' || c == '}' || c == '|'
  }

  /** The characters, as they are listed there. */
  const BOUNDARY_CHARS: bytes := " \t\n\r`\"',;()[]{}|"

  lemma BoundaryChars(c: byte)
    ensures IsBoundary(c) <==> c in BOUNDARY_CHARS
  {}

  predicate Free(s: bytes) {
    forall i | 0 <= i < |s| :: !IsBoundary(s[i])
  }

  /** s is not empty and its last byte is a boundary byte. */
  predicate Closed(s: bytes) {
    s != [] && IsBoundary(s[|s| - 1])
  }

  // ------------------------------------------------------------------ shapes

  datatype Class = Digit | LowerHex | UpperHex | AnyHex | Upper | HexColon

  predicate Has(k: Class, c: byte) {
    match k
    case Digit => IsDigit(c)
    case LowerHex => IsDigit(c) || 'a' <= c <= 'f'
    case UpperHex => IsDigit(c) || 'A' <= c <= 'F'
    case AnyHex => IsDigit(c) || 'a' <= c <= 'f' || 'A' <= c <= 'F'
    case Upper => IsUpper(c)
    case HexColon => IsDigit(c) || 'a' <= c <= 'f' || 'A' <= c <= 'F' || c == ':'
  }

  datatype Item =
    | Word(text: bytes)                     // these bytes
    | Fold(text: bytes)                     // these bytes, given in lower case, in any ASCII case
    | Run(kind: Class, lo: nat, hi: nat)    // between lo and hi bytes of the class
    | Star(kind: Class)                     // any number of bytes of the class

  function ToLower(c: byte): byte {
    if IsUpper(c) then (c as int + 32) as char else c
  }

  function RunLen(k: Class, s: bytes, hi: nat): (n: nat)
    ensures n <= |s| && n <= hi
    ensures forall i | 0 <= i < n :: Has(k, s[i])
  {
    if hi == 0 || s == [] || !Has(k, s[0]) then 0 else 1 + RunLen(k, s[1..], hi - 1)
  }

  predicate FoldedPrefix(s: bytes, text: bytes) {
    |text| <= |s| && forall i | 0 <= i < |text| :: ToLower(s[i]) == text[i]
  }

  /** How many bytes at the start of s the item takes. */
  function ItemLen(item: Item, s: bytes): (r: Option<nat>)
    ensures r.Some? ==> r.value <= |s|
  {
    match item
    case Word(text) => if HasPrefix(s, text) then Some(|text|) else None
    case Fold(text) => if FoldedPrefix(s, text) then Some(|text|) else None
    case Run(k, lo, hi) => var n := RunLen(k, s, hi); if lo <= n then Some(n) else None
    case Star(k) => Some(RunLen(k, s, |s|))
  }

  function ItemsLen(items: seq<Item>, s: bytes): (r: Option<nat>)
    ensures r.Some? ==> r.value <= |s|
  {
    if items == [] then Some(0)
    else
      var n := ItemLen(items[0], s);
      if n.None? then None
      else
        var m := ItemsLen(items[1..], s[n.value..]);
        if m.None? then None else Some(n.value + m.value)
  }

  /** What stands on the left of a match: anything; the start of the text or a byte that is not
      alphanumeric, which the match consumes and the captured group leaves out; or the start of the
      text or a byte that is no word byte, which is looked at only. */
  datatype Left = AnyByte | NotAlnum | NotWord

  /** One alternative. With wordEnd, no word byte may follow. */
  datatype Alt = Alt(left: Left, items: seq<Item>, wordEnd: bool)

  predicate IsWordByte(c: byte) { IsAlnum(c) || c == '_' }

  function AltLen(alt: Alt, s: bytes): (r: Option<nat>)
    ensures r.Some? ==> r.value <= |s|
  {
    var n := ItemsLen(alt.items, s);
    if n.Some? && alt.wordEnd && n.value < |s| && IsWordByte(s[n.value]) then None else n
  }

  // ------------------------------------------------------------------ searching

  /** The group captured by a match of alt that begins at position q. */
  function OneAt(alt: Alt, text: bytes, q: nat): (r: Option<Group>)
    requires q <= |text|
    ensures r.Some? ==> q <= r.value.start <= r.value.end <= |text|
  {
    if !alt.left.NotAlnum? then
      var n := if alt.left.NotWord? && q > 0 && IsWordByte(text[q - 1]) then None else AltLen(alt, text[q..]);
      if n.Some? then Some(Group(q, q + n.value)) else None
    else if q == 0 && AltLen(alt, text).Some? then Some(Group(0, AltLen(alt, text).value))
    else if q < |text| && !IsAlnum(text[q]) then
      var n := AltLen(alt, text[q + 1..]);
      if n.Some? then Some(Group(q + 1, q + 1 + n.value)) else None
    else None
  }

  /** The byte in front of position p, and the byte at p, where there is one. */
  predicate StandsFree(alt: Alt, text: bytes, start: nat, end: nat)
    requires start <= end <= |text|
  {
    && (alt.left.NotWord? && start > 0 ==> !IsWordByte(text[start - 1]))
    && (alt.left.NotAlnum? && start > 0 ==> !IsAlnum(text[start - 1]))
    && (alt.wordEnd && end < |text| ==> !IsWordByte(text[end]))
  }

  /** A match holds the items, and its sides are as the alternative asks; and where that is so the
      search finds it: at its start, or, when it consumes the byte on its left, from there. */
  lemma MatchIff(alt: Alt, text: bytes, q: nat, start: nat, end: nat)
    requires q <= start <= end <= |text|
    requires start == (if alt.left.NotAlnum? && (q > 0 || AltLen(alt, text).None?) then q + 1 else q)
    ensures OneAt(alt, text, q) == Some(Group(start, end)) <==>
            ItemsLen(alt.items, text[start..]) == Some(end - start) && StandsFree(alt, text, start, end)
  {
    hide ItemsLen;
    assert text[0..] == text;
    var rest := text[start..];
    assert ItemsLen(alt.items, rest) == Some(end - start) && end < |text| ==> rest[end - start] == text[end];
  }

  function MatchAt(alts: seq<Alt>, text: bytes, q: nat): (r: Option<Group>)
    requires q <= |text|
    ensures r.Some? ==> q <= r.value.start <= r.value.end <= |text|
  {
    if alts == [] then None
    else
      var g := OneAt(alts[0], text, q);
      if g.Some? then g else MatchAt(alts[1..], text, q)
  }

  /** Of the alternatives that match at a place, the first in the list wins. */
  lemma {:induction false} FirstAlternativeWins(alts: seq<Alt>, text: bytes, q: nat, i: nat)
    requires q <= |text| && i < |alts| && OneAt(alts[i], text, q).Some?
    requires forall k | 0 <= k < i :: OneAt(alts[k], text, q).None?
    ensures MatchAt(alts, text, q) == OneAt(alts[i], text, q)
  {
    hide OneAt;
    if i > 0 {
      FirstAlternativeWins(alts[1..], text, q, i - 1);
    }
  }

  /** A pass replaces what one search finds by one rule. */
  datatype Pass = Pass(alts: seq<Alt>, rule: Rule)

  /** The first item of the alternative takes at least one byte. */
  predicate TakesSomething(alt: Alt) {
    && alt.items != []
    && match alt.items[0]
       case Word(text) => text != []
       case Fold(text) => text != []
       case Run(_, lo, _) => 0 < lo
       case Star(_) => false
  }

  predicate AllTake(alts: seq<Alt>) {
    forall alt | alt in alts :: TakesSomething(alt)
  }

  predicate Proper(p: Pass) { AllTake(p.alts) }

  function At(alts: seq<Alt>, text: bytes): Search {
    (q: nat) => if q <= |text| then MatchAt(alts, text, q) else None
  }

  lemma SearchIsSane(alts: seq<Alt>, text: bytes)
    requires AllTake(alts)
    ensures Sane(At(alts, text), |text|)
  {
    forall q: nat | q < |text|
      ensures Advances(At(alts, text), |text|, q)
    {
      MatchIsNotEmpty(alts, text, q);
    }
  }

  function Groups(alts: seq<Alt>, text: bytes): (groups: seq<Group>)
    requires AllTake(alts)
    ensures Within(groups, |text|)
  {
    SearchIsSane(alts, text);
    FoundWithin(At(alts, text), |text|, 0);
    FindAll(At(alts, text), |text|, 0)
  }

  function RunPass(p: Pass, text: bytes): bytes
    requires Proper(p)
  {
    Write(p.rule, text, Groups(p.alts, text), 0)
  }

  /** Detokenize: the passes one after the other, each over the output of the one before. */
  function Detokenize(passes: seq<Pass>, text: bytes): bytes
    requires forall p | p in passes :: Proper(p)
  {
    if passes == [] then text else Detokenize(passes[1..], RunPass(passes[0], text))
  }

  lemma AltTakesSomething(alt: Alt, s: bytes)
    requires TakesSomething(alt)
    ensures AltLen(alt, s).Some? ==> 0 < AltLen(alt, s).value
  {}

  lemma {:induction false} MatchIsNotEmpty(alts: seq<Alt>, text: bytes, q: nat)
    requires q <= |text| && AllTake(alts)
    ensures MatchAt(alts, text, q).Some? ==> q < MatchAt(alts, text, q).value.end
  {
    hide AltLen, TakesSomething;
    if alts != [] {
      OneIsNotEmpty(alts[0], text, q);
      MatchIsNotEmpty(alts[1..], text, q);
    }
  }

  lemma OneIsNotEmpty(alt: Alt, text: bytes, q: nat)
    requires q <= |text| && TakesSomething(alt)
    ensures OneAt(alt, text, q).Some? ==> q < OneAt(alt, text, q).value.end
  {
    hide AltLen, TakesSomething;
    AltTakesSomething(alt, text[q..]);
    assert text[0..] == text;
  }

  // ------------------------------------------------------------------ the loop

  /** One pass: find every match, then rewrite. */
  method ReplaceAll(p: Pass, text: bytes) returns (out: bytes)
    requires Proper(p)
    ensures out == RunPass(p, text)
  {
    var groups := Groups(p.alts, text);
    out := WriteAll(p.rule, text, groups);
  }

  /** Detokenize's own sequence of calls. */
  method DetokenizeAll(passes: seq<Pass>, text: bytes) returns (out: bytes)
    requires forall p | p in passes :: Proper(p)
    ensures out == Detokenize(passes, text)
  {
    out := text;
    for i := 0 to |passes|
      invariant Detokenize(passes[i..], out) == Detokenize(passes, text)
    {
      out := ReplaceAll(passes[i], out);
      assert passes[i..][1..] == passes[i + 1..];
    }
  }

  // ------------------------------------------------------------------ cutting after a boundary byte

  predicate ItemFree(item: Item) {
    match item
    case Word(text) => Free(text)
    case Fold(text) => Free(text)
    case Run(_, _, _) => true   // no class holds a boundary byte, see ClassesAreFree
    case Star(_) => true
  }

  predicate StartsAlnum(alt: Alt) {
    && alt.items != []
    && match alt.items[0]
       case Word(text) => text != [] && IsAlnum(text[0])
       case Fold(text) => text != [] && IsAlnum(text[0])
       case Run(k, lo, _) => 0 < lo && k != HexColon
       case Star(_) => false
  }

  /** What lets an alternative be matched on either side of a cut: it takes something, it takes
      no boundary byte, and if it looks at the byte on its left then it starts alphanumeric. */
  predicate Compact(alt: Alt) {
    && TakesSomething(alt)
    && (forall item | item in alt.items :: ItemFree(item))
    && (alt.left.NotAlnum? ==> StartsAlnum(alt))
  }

  /** No text begins with a match of both. */
  ghost predicate Exclusive(a: Alt, b: Alt) {
    forall s: bytes :: AltLen(a, s).None? || AltLen(b, s).None?
  }

  ghost predicate Separable(p: Pass) {
    && (forall alt | alt in p.alts :: Compact(alt))
    && (forall a, b | a in p.alts && b in p.alts && a.left.NotAlnum? && !b.left.NotAlnum? :: Exclusive(a, b))
    && (forall tok :: Free(p.rule.echo(tok)))
  }

  lemma ClassesAreFree(k: Class, c: byte)
    ensures Has(k, c) ==> !IsBoundary(c)
  {}

  lemma {:induction false} RunStopsAtBoundary(k: Class, x: bytes, rest: bytes, hi: nat)
    requires Closed(x)
    ensures RunLen(k, x + rest, hi) == RunLen(k, x, hi) < |x|
  {
    ClassesAreFree(k, x[0]);
    if hi != 0 && Has(k, x[0]) {
      assert (x + rest)[1..] == x[1..] + rest;
      RunStopsAtBoundary(k, x[1..], rest, hi - 1);
    }
  }

  lemma {:induction false} LongRunStopsAtBoundary(k: Class, x: bytes, rest: bytes, hi: nat, hi': nat)
    requires Closed(x) && |x| <= hi <= hi'
    ensures RunLen(k, x + rest, hi') == RunLen(k, x, hi)
  {
    ClassesAreFree(k, x[0]);
    if Has(k, x[0]) {
      assert (x + rest)[1..] == x[1..] + rest;
      LongRunStopsAtBoundary(k, x[1..], rest, hi - 1, hi' - 1);
    }
  }

  lemma WordIsLocal(text: bytes, x: bytes, rest: bytes)
    requires Closed(x) && Free(text)
    ensures HasPrefix(x + rest, text) <==> HasPrefix(x, text)
    ensures HasPrefix(x, text) ==> |text| < |x|
    ensures FoldedPrefix(x + rest, text) <==> FoldedPrefix(x, text)
    ensures FoldedPrefix(x, text) ==> |text| < |x|
  {
    var c := x[|x| - 1];
    if |text| >= |x| {
      assert !IsBoundary(text[|x| - 1]);
      assert (x + rest)[|x| - 1] == c;
    } else {
      assert (x + rest)[..|text|] == x[..|text|];
    }
  }

  lemma ItemIsLocal(item: Item, x: bytes, rest: bytes)
    requires Closed(x) && ItemFree(item)
    ensures ItemLen(item, x + rest) == ItemLen(item, x)
    ensures ItemLen(item, x).Some? ==> ItemLen(item, x).value < |x|
  {
    match item
    case Word(text) => WordIsLocal(text, x, rest);
    case Fold(text) => WordIsLocal(text, x, rest);
    case Run(k, lo, hi) => RunStopsAtBoundary(k, x, rest, hi);
    case Star(k) =>
      LongRunStopsAtBoundary(k, x, rest, |x|, |x + rest|);
      RunStopsAtBoundary(k, x, rest, |x|);
  }

  lemma {:induction false} ItemsAreLocal(items: seq<Item>, x: bytes, rest: bytes)
    requires Closed(x) && forall item | item in items :: ItemFree(item)
    ensures ItemsLen(items, x + rest) == ItemsLen(items, x)
    ensures ItemsLen(items, x).Some? ==> ItemsLen(items, x).value < |x|
  {
    hide ItemLen, ItemFree, IsBoundary;
    if items != [] {
      ItemIsLocal(items[0], x, rest);
      var n := ItemLen(items[0], x);
      if n.Some? {
        assert (x + rest)[n.value..] == x[n.value..] + rest;
        ItemsAreLocal(items[1..], x[n.value..], rest);
      }
    }
  }

  lemma AltIsLocal(alt: Alt, x: bytes, rest: bytes)
    requires Closed(x) && Compact(alt)
    ensures AltLen(alt, x + rest) == AltLen(alt, x)
    ensures AltLen(alt, x).Some? ==> 0 < AltLen(alt, x).value < |x|
  {
    ItemsAreLocal(alt.items, x, rest);
    AltTakesSomething(alt, x);
  }

  lemma {:induction false} ItemsStartAlnum(alt: Alt, s: bytes)
    requires StartsAlnum(alt) && AltLen(alt, s).Some?
    ensures s != [] && IsAlnum(s[0])
  {}

  /** No match that begins in a goes on into b, and none of those in a is lost when b follows. */
  ghost predicate Local(alt: Alt, a: bytes, b: bytes) {
    && TakesSomething(alt) && (alt.left.NotAlnum? ==> StartsAlnum(alt))
    && forall q: nat | q < |a| && LeftFits(alt, a, q) :: Inside(alt, a[q..], b)
  }

  predicate LeftFits(alt: Alt, a: bytes, q: nat)
    requires q <= |a|
  {
    || q == 0
    || match alt.left
       case AnyByte => true
       case NotAlnum => !IsAlnum(a[q - 1])
       case NotWord => !IsWordByte(a[q - 1])
  }

  predicate Inside(alt: Alt, x: bytes, rest: bytes) {
    AltLen(alt, x + rest) == AltLen(alt, x) && (AltLen(alt, x).Some? ==> AltLen(alt, x).value < |x|)
  }

  lemma CompactIsLocal(alt: Alt, a: bytes, b: bytes)
    requires Compact(alt) && Closed(a)
    ensures Local(alt, a, b)
  {
    forall q: nat | q < |a|
      ensures Inside(alt, a[q..], b)
    {
      AltIsLocal(alt, a[q..], b);
    }
  }

  /** On its own, a is followed by nothing. */
  lemma LocalAlone(alt: Alt, a: bytes, b: bytes)
    requires Local(alt, a, b)
    ensures Local(alt, a, [])
  {
    hide AltLen;
    forall q: nat | q < |a| && LeftFits(alt, a, q)
      ensures Inside(alt, a[q..], [])
    {
      assert Inside(alt, a[q..], b);
      ConcatNil(a[q..]);
    }
  }

  ghost predicate AllLocal(alts: seq<Alt>, a: bytes, b: bytes) {
    forall alt | alt in alts :: Local(alt, a, b)
  }

  predicate Ready(alts: seq<Alt>) {
    forall alt | alt in alts :: Compact(alt)
  }

  ghost predicate NoClash(alts: seq<Alt>) {
    forall a, b | a in alts && b in alts && a.left.NotAlnum? && !b.left.NotAlnum? :: Exclusive(a, b)
  }

  lemma OneInSuffix(alt: Alt, a: bytes, b: bytes, q: nat)
    requires 0 < q <= |b|
    ensures OneAt(alt, a + b, |a| + q) == Shift(OneAt(alt, b, q), |a|)
  {
    assert (a + b)[|a| + q..] == b[q..];
    if q < |b| {
      assert (a + b)[|a| + q + 1..] == b[q + 1..];
    }
  }

  /** Away from the start of the text, a match does not depend on what lies before it. */
  lemma {:induction false} MatchInSuffix(alts: seq<Alt>, a: bytes, b: bytes, q: nat)
    requires 0 < q <= |b|
    ensures MatchAt(alts, a + b, |a| + q) == Shift(MatchAt(alts, b, q), |a|)
  {
    if alts != [] {
      OneInSuffix(alts[0], a, b, q);
      MatchInSuffix(alts[1..], a, b, q);
    }
  }

  lemma OneInPrefix(alt: Alt, a: bytes, b: bytes, q: nat)
    requires q < |a| - 1 && Local(alt, a, b)
    ensures OneAt(alt, a + b, q) == OneAt(alt, a, q)
    ensures OneAt(alt, a, q).Some? ==> OneAt(alt, a, q).value.end <= |a| - 1
  {
    hide AltLen, Compact, IsAlnum, IsBoundary;
    assert (a + b)[q..] == a[q..] + b && (a + b)[q + 1..] == a[q + 1..] + b;
    assert LeftFits(alt, a, q) ==> Inside(alt, a[q..], b);
    assert LeftFits(alt, a, q + 1) ==> Inside(alt, a[q + 1..], b);
    assert a[0..] == a;
  }

  /** A match that begins before the closing boundary byte of a ends before it. */
  lemma {:induction false} MatchInPrefix(alts: seq<Alt>, a: bytes, b: bytes, q: nat)
    requires q < |a| - 1 && AllLocal(alts, a, b)
    ensures MatchAt(alts, a + b, q) == MatchAt(alts, a, q)
    ensures MatchAt(alts, a, q).Some? ==> MatchAt(alts, a, q).value.end <= |a| - 1
  {
    if alts != [] {
      OneInPrefix(alts[0], a, b, q);
      MatchInPrefix(alts[1..], a, b, q);
    }
  }

  /** Over the boundary byte that closes a, a single alternative matches iff it looks at its left
      and b begins with it. */
  lemma OneAcross(alt: Alt, a: bytes, b: bytes)
    requires Closed(a) && Local(alt, a, b)
    ensures OneAt(alt, a + b, |a| - 1) ==
            if alt.left.NotAlnum? && AltLen(alt, b).Some? then Some(Group(|a|, |a| + AltLen(alt, b).value)) else None
  {
    var n, t := |a|, a + b;
    assert t[n - 1..] == a[n - 1..] + b && t[n..] == b && t[0..] == t;
    assert LeftFits(alt, a, n - 1) ==> Inside(alt, a[n - 1..], b);
    AltTakesSomething(alt, a[n - 1..]);
  }

  /** At the start of b, a shape that looks at its left matches at once or not at all, once some
      such shape is known to match there. */
  lemma OneAtStart(alt: Alt, a: bytes, b: bytes)
    requires Closed(a) && Local(alt, a, b)
    ensures alt.left.NotAlnum? && b != [] && IsAlnum(b[0]) ==>
              OneAt(alt, b, 0) == if AltLen(alt, b).Some? then Some(Group(0, AltLen(alt, b).value)) else None
    ensures !alt.left.NotAlnum? || AltLen(alt, b).None? ==>
              OneAt(alt, a + b, |a|) == Shift(OneAt(alt, b, 0), |a|)
  {
    var n, t := |a|, a + b;
    assert t[n..] == b && b[0..] == b;
    if b != [] {
      assert t[n + 1..] == b[1..];
    }
  }

  /** On its own, a has no match that begins at its closing boundary byte. */
  lemma {:induction false} NoMatchAtClose(alts: seq<Alt>, a: bytes)
    requires Closed(a) && AllLocal(alts, a, [])
    ensures MatchAt(alts, a, |a| - 1).None?
  {
    if alts != [] {
      assert a + [] == a;
      OneAcross(alts[0], a, []);
      AltTakesSomething(alts[0], []);
      NoMatchAtClose(alts[1..], a);
    }
  }

  ghost predicate BoundedMatch(alts: seq<Alt>, s: bytes) {
    exists alt :: alt in alts && alt.left.NotAlnum? && AltLen(alt, s).Some?
  }

  lemma BoundedMatchExcludes(alts: seq<Alt>, s: bytes)
    requires alts != [] && (forall alt | alt in alts && alt.left.NotAlnum? :: StartsAlnum(alt))
    requires NoClash(alts) && BoundedMatch(alts, s)
    ensures s != [] && IsAlnum(s[0])
    ensures !alts[0].left.NotAlnum? ==> AltLen(alts[0], s).None? && BoundedMatch(alts[1..], s)
  {
    var k :| k in alts && k.left.NotAlnum? && AltLen(k, s).Some?;
    ItemsStartAlnum(k, s);
    if !alts[0].left.NotAlnum? {
      assert k in alts[1..];
      assert Exclusive(k, alts[0]);
    }
  }

  /** Where b begins with a shape that looks at its left, the boundary byte lets that shape match
      right behind it, just as the start of b would. */
  lemma {:induction false} MatchOverCut(alts: seq<Alt>, a: bytes, b: bytes)
    requires Closed(a) && AllLocal(alts, a, b) && NoClash(alts) && BoundedMatch(alts, b)
    ensures MatchAt(alts, b, 0).Some? && MatchAt(alts, b, 0).value.start == 0
    ensures MatchAt(alts, a + b, |a| - 1) == Shift(MatchAt(alts, b, 0), |a|)
  {
    var h := alts[0];
    OneAcross(h, a, b);
    OneAtStart(h, a, b);
    BoundedMatchExcludes(alts, b);
    if !h.left.NotAlnum? || AltLen(h, b).None? {
      assert BoundedMatch(alts[1..], b);
      MatchOverCut(alts[1..], a, b);
    }
  }

  /** Otherwise nothing begins at the boundary byte, and the search goes on into b. */
  lemma {:induction false} MatchAfterCut(alts: seq<Alt>, a: bytes, b: bytes)
    requires Closed(a) && AllLocal(alts, a, b) && !BoundedMatch(alts, b)
    ensures MatchAt(alts, a + b, |a| - 1).None?
    ensures MatchAt(alts, a + b, |a|) == Shift(MatchAt(alts, b, 0), |a|)
  {
    if alts != [] {
      OneAcross(alts[0], a, b);
      OneAtStart(alts[0], a, b);
      assert !BoundedMatch(alts[1..], b);
      MatchAfterCut(alts[1..], a, b);
    }
  }
}

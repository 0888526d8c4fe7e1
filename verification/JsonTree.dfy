/**
 JSON documents as trees that keep the exact text of every node (internal/jsonwalk/walk.go works on
 such trees), their printer, and a parser (RFC 8259). Whatever a well-formed tree prints, the parser
 reads back as the value of the tree.
 */
module JsonTree {
  import opened Bytes
  import opened Scanning
  import opened JsonStrings

  /** Strings, numbers and the three words as they are written; arrays and objects with the white
      space in them. pad is the inside of an empty one. */
  datatype Json =
    | Str(raw: bytes)
    | Lit(raw: bytes)
    | Box(named: bool, pad: bytes, items: Items)

  datatype Items = End | Item(before: bytes, key: Option<Key>, value: Json, after: bytes, more: Items)

  /** A member name, with the white space around its colon. */
  datatype Key = Key(raw: bytes, left: bytes, right: bytes)

  /** What a document means: member names decoded, in their order. */
  datatype Val =
    | VStr(text: bytes)
    | VLit(raw: bytes)
    | VBox(named: bool, entries: Entries)

  datatype Entries = VEnd | VEntry(name: Option<bytes>, value: Val, more: Entries)

  // ------------------------------------------------------------------ printing

  function Open(named: bool): byte { if named then '{' else '[' }

  function Close(named: bool): byte { if named then '}' else ']' }

  function KeyTo(key: Option<Key>, tail: bytes): bytes {
    if key.None? then tail else key.value.raw + (key.value.left + ([':'] + (key.value.right + tail)))
  }

  /** The text of j, with tail behind it. */
  function PrintTo(j: Json, tail: bytes): bytes {
    match j
    case Str(raw) => raw + tail
    case Lit(raw) => raw + tail
    case Box(named, pad, items) => [Open(named)] + (pad + ItemsTo(items, [Close(named)] + tail))
  }

  function ItemsTo(items: Items, tail: bytes): bytes {
    match items
    case End => tail
    case Item(before, key, value, after, more) =>
      before + KeyTo(key, PrintTo(value, after + (if more.End? then tail else [','] + ItemsTo(more, tail))))
  }

  function Print(j: Json): bytes { PrintTo(j, []) }

  // ------------------------------------------------------------------ well-formed trees

  predicate IsSpace(c: byte) { c == ' ' || c == '\t' || c == '\n' || c == '\r' }

  predicate AllSpace(s: bytes) {
    forall i | 0 <= i < |s| :: IsSpace(s[i])
  }

  predicate LitChar(c: byte) { IsAlnum(c) || c == '-' || c == '+' || c == '.' }

  /** The number grammar, one state after each character: 0 start, 1 minus, 2 zero, 3 integer,
      4 point, 5 fraction, 6 e, 7 sign, 8 exponent. */
  function NumberStep(state: nat, c: byte): int {
    if state == 0 && c == '-' then 1
    else if (state == 0 || state == 1) && c == '0' then 2
    else if (state == 0 || state == 1 || state == 3) && IsDigit(c) then 3
    else if (state == 2 || state == 3) && c == '.' then 4
    else if (state == 4 || state == 5) && IsDigit(c) then 5
    else if (state == 2 || state == 3 || state == 5) && (c == 'e' || c == 'E') then 6
    else if state == 6 && (c == '+' || c == '-') then 7
    else if (state == 6 || state == 7 || state == 8) && IsDigit(c) then 8
    else -1
  }

  predicate NumberFrom(s: bytes, state: nat) {
    if s == [] then state == 2 || state == 3 || state == 5 || state == 8
    else NumberStep(state, s[0]) >= 0 && NumberFrom(s[1..], NumberStep(state, s[0]))
  }

  predicate IsLiteral(raw: bytes) {
    && raw != [] && (forall i | 0 <= i < |raw| :: LitChar(raw[i]))
    && (raw == "true" || raw == "false" || raw == "null" || NumberFrom(raw, 0))
  }

  predicate IsString(raw: bytes) {
    |raw| >= 2 && raw[0] == '"' && raw[|raw| - 1] == '"' && Decode(Inner(raw)).Some?
  }

  predicate WellFormed(j: Json) {
    match j
    case Str(raw) => IsString(raw)
    case Lit(raw) => IsLiteral(raw)
    case Box(named, pad, items) => AllSpace(pad) && (items.Item? ==> pad == []) && ItemsWellFormed(items, named)
  }

  predicate ItemsWellFormed(items: Items, named: bool) {
    match items
    case End => true
    case Item(before, key, value, after, more) =>
      && AllSpace(before) && AllSpace(after) && key.Some? == named
      && (key.Some? ==> IsString(key.value.raw) && AllSpace(key.value.left) && AllSpace(key.value.right))
      && WellFormed(value) && ItemsWellFormed(more, named)
  }

  /** What the parser reads from the raw text of a string node. */
  function Text(raw: bytes): bytes
    requires IsString(raw)
  {
    Decode(Inner(raw)).value
  }

  function Value(j: Json): Val
    requires WellFormed(j)
  {
    match j
    case Str(raw) => VStr(Text(raw))
    case Lit(raw) => VLit(raw)
    case Box(named, _, items) => VBox(named, EntriesOf(items, named))
  }

  function EntriesOf(items: Items, named: bool): Entries
    requires ItemsWellFormed(items, named)
  {
    match items
    case End => VEnd
    case Item(_, key, value, _, more) =>
      VEntry(if key.None? then None else Some(Text(key.value.raw)), Value(value), EntriesOf(more, named))
  }

  // ------------------------------------------------------------------ parsing

  datatype Parsed<T> = Parsed(value: T, rest: bytes)

  function SkipSpace(s: bytes): (r: bytes)
    ensures |r| <= |s|
  {
    if s != [] && IsSpace(s[0]) then SkipSpace(s[1..]) else s
  }

  /** The length of a string's inside, up to the first quote without a backslash. */
  function StringLen(s: bytes): (n: int)
    ensures -1 <= n < |s| || n == -1
    decreases |s|
  {
    if s == [] then -1
    else if s[0] == '"' then 0
    else
      var k := if s[0] == '\\' then 2 else 1;
      if |s| < k then -1 else if StringLen(s[k..]) == -1 then -1 else k + StringLen(s[k..])
  }

  function ParseString(s: bytes): (p: Option<Parsed<bytes>>)
    ensures p.Some? ==> |p.value.rest| < |s|
  {
    if s == [] || s[0] != '"' || StringLen(s[1..]) == -1 then None
    else
      var n := StringLen(s[1..]);
      var text := Decode(s[1..][..n]);
      if text.None? then None else Some(Parsed(text.value, s[1..][n + 1..]))
  }

  function LitLen(s: bytes): (n: nat)
    ensures n <= |s|
  {
    if s == [] || !LitChar(s[0]) then 0 else LitLen(s[1..]) + 1
  }

  function ParseLiteral(s: bytes): (p: Option<Parsed<Val>>)
    ensures p.Some? ==> |p.value.rest| < |s|
  {
    if IsLiteral(s[..LitLen(s)]) then Some(Parsed(VLit(s[..LitLen(s)]), s[LitLen(s)..])) else None
  }

  function ParseValue(s: bytes): (p: Option<Parsed<Val>>)
    ensures p.Some? ==> |p.value.rest| < |s|
    decreases |s|, 0
  {
    var t := SkipSpace(s);
    if t == [] then None
    else if t[0] == '"' then
      (match ParseString(t) case None => None case Some(p) => Some(Parsed(VStr(p.value), p.rest)))
    else if t[0] == '[' || t[0] == '{' then
      (match ParseBox(t[1..], t[0] == '{') case None => None case Some(p) => Some(Parsed(VBox(t[0] == '{', p.value), p.rest)))
    else ParseLiteral(t)
  }

  /** Behind the opening bracket. */
  function ParseBox(s: bytes, named: bool): (p: Option<Parsed<Entries>>)
    ensures p.Some? ==> |p.value.rest| <= |s|
    decreases |s|, 2
  {
    var t := SkipSpace(s);
    if t != [] && t[0] == Close(named) then Some(Parsed(VEnd, t[1..])) else ParseItems(s, named)
  }

  /** The member name and the colon, if an object is being read. */
  function ParseName(s: bytes, named: bool): (p: Option<Parsed<Option<bytes>>>)
    ensures p.Some? ==> |p.value.rest| <= |s|
  {
    if !named then Some(Parsed(None, s))
    else
      match ParseString(SkipSpace(s))
      case None => None
      case Some(name) =>
        var t := SkipSpace(name.rest);
        if t == [] || t[0] != ':' then None else Some(Parsed(Some(name.value), t[1..]))
  }

  function ParseItems(s: bytes, named: bool): (p: Option<Parsed<Entries>>)
    ensures p.Some? ==> |p.value.rest| <= |s|
    decreases |s|, 1
  {
    match ParseName(s, named)
    case None => None
    case Some(name) =>
      match ParseValue(name.rest)
      case None => None
      case Some(v) =>
        var t := SkipSpace(v.rest);
        if t != [] && t[0] == Close(named) then Some(Parsed(VEntry(name.value, v.value, VEnd), t[1..]))
        else if t == [] || t[0] != ',' then None
        else
          match ParseItems(t[1..], named)
          case None => None
          case Some(more) => Some(Parsed(VEntry(name.value, v.value, more.value), more.rest))
  }

  /** A whole document. */
  function Parse(s: bytes): Option<Val> {
    match ParseValue(s)
    case None => None
    case Some(p) => if SkipSpace(p.rest) == [] then Some(p.value) else None
  }

  // ------------------------------------------------------------------ the parser reads what is printed

  lemma {:induction false} SpaceIsSkipped(ws: bytes, s: bytes)
    requires AllSpace(ws)
    ensures SkipSpace(ws + s) == SkipSpace(s)
  {
    if ws == [] {
      ConcatNil(s);
    } else {
      ConsConcat(ws, s);
      SpaceIsSkipped(ws[1..], s);
    }
  }

  lemma {:induction false} StringLenStep(s: bytes, k: nat, t: bytes)
    requires k <= |s| && forall i | 0 <= i < k :: s[i] != '"' && s[i] != '\\'
    requires StringLen(s[k..] + t) >= 0
    ensures StringLen(s + t) == k + StringLen(s[k..] + t)
  {
    if k == 0 {
      assert s[0..] == s;
    } else {
      ConsConcat(s, t);
      assert s[1..][k - 1..] == s[k..];
      StringLenStep(s[1..], k - 1, t);
    }
  }

  lemma HexIsOrdinary(s: bytes, i: nat)
    requires i < |s| && HexValue(s[i]) >= 0
    ensures s[i] != '"' && s[i] != '\\'
  {}

  lemma {:induction false} EscapeStep(body: bytes, t: bytes)
    requires UnicodeEscape(body) >= 0 && StringLen(body[6..] + t) >= 0
    ensures StringLen(body + t) == 6 + StringLen(body[6..] + t)
  {
    HexIsOrdinary(body, 2);
    HexIsOrdinary(body, 3);
    HexIsOrdinary(body, 4);
    HexIsOrdinary(body, 5);
    hide StringLen, HexValue;
    assert body[2..][4..] == body[6..];
    StringLenStep(body[2..], 4, t);
    TwoSteps(body, t);
  }

  lemma {:induction false} TwoSteps(body: bytes, t: bytes)
    requires |body| >= 2 && body[0] == '\\' && StringLen(body[2..] + t) >= 0
    ensures StringLen(body + t) == 2 + StringLen(body[2..] + t)
  {
    assert (body + t)[2..] == body[2..] + t;
  }

  /** A string that decodes ends where its text ends. */
  lemma {:induction false} BodyEnds(body: bytes, t: bytes)
    requires Decode(body).Some? && t != [] && t[0] == '"'
    ensures StringLen(body + t) == |body|
    decreases |body|
  {
    if body == [] {
      ConcatNil(t);
    } else if body[0] != '\\' {
      ConsConcat(body, t);
      BodyEnds(body[1..], t);
    } else if body[1] != 'u' {
      BodyEnds(body[2..], t);
      TwoSteps(body, t);
    } else {
      var r, r2 := UnicodeEscape(body), UnicodeEscape(body[6..]);
      if IsSurrogate(r) && r2 >= 0 {
        assert body[6..][6..] == body[12..];
        BodyEnds(body[12..], t);
        EscapeStep(body[6..], t);
      } else {
        BodyEnds(body[6..], t);
      }
      EscapeStep(body, t);
    }
  }

  lemma {:induction false} StringParses(raw: bytes, tail: bytes)
    requires IsString(raw)
    ensures ParseString(raw + tail) == Some(Parsed(Text(raw), tail))
    ensures SkipSpace(raw + tail) == raw + tail
  {
    hide Decode, StringLen, Inner;
    QuotesSplit(raw, tail);
    BodyEnds(Inner(raw), ['"'] + tail);
  }

  lemma QuotesSplit(raw: bytes, tail: bytes)
    requires |raw| >= 2 && raw[|raw| - 1] == '"'
    ensures var body, t := Inner(raw), ['"'] + tail;
            && (raw + tail)[0] == raw[0] && (raw + tail)[1..] == body + t
            && (body + t)[..|body|] == body && (body + t)[|body| + 1..] == tail
  {
    var body, t := Inner(raw), ['"'] + tail;
    assert raw == [raw[0]] + body + ['"'];
    assert raw + tail == [raw[0]] + (body + t);
  }

  /** The text behind a value cannot be taken for more of it. */
  predicate Delimited(tail: bytes) {
    tail == [] || !LitChar(tail[0])
  }

  lemma {:induction false} LitEnds(raw: bytes, tail: bytes)
    requires (forall i | 0 <= i < |raw| :: LitChar(raw[i])) && Delimited(tail)
    ensures LitLen(raw + tail) == |raw|
  {
    if raw == [] {
      ConcatNil(tail);
    } else {
      ConsConcat(raw, tail);
      LitEnds(raw[1..], tail);
    }
  }

  lemma {:induction false} LiteralParses(raw: bytes, tail: bytes)
    requires IsLiteral(raw) && Delimited(tail)
    ensures ParseLiteral(raw + tail) == Some(Parsed(VLit(raw), tail))
    ensures ParseValue(raw + tail) == ParseLiteral(raw + tail)
  {
    LitEnds(raw, tail);
    assert (raw + tail)[..|raw|] == raw && (raw + tail)[|raw|..] == tail;
    assert LitChar((raw + tail)[0]);
  }

  /** Space or a separator follows. */
  lemma {:induction false} SpaceDelimits(ws: bytes, c: byte, tail: bytes)
    requires AllSpace(ws) && (c == ',' || c == ']' || c == '}')
    ensures Delimited(ws + ([c] + tail)) && SkipSpace(ws + ([c] + tail)) == [c] + tail
  {
    SpaceIsSkipped(ws, [c] + tail);
    if ws != [] {
      assert (ws + ([c] + tail))[0] == ws[0];
    }
  }

  /** Leading space does not matter. */
  lemma {:induction false} ValueAfterSpace(ws: bytes, s: bytes)
    requires AllSpace(ws)
    ensures ParseValue(ws + s) == ParseValue(s)
  {
    SpaceIsSkipped(ws, s);
  }

  lemma {:induction false} NameParses(before: bytes, key: Option<Key>, named: bool, tail: bytes)
    requires AllSpace(before) && key.Some? == named
    requires key.Some? ==> IsString(key.value.raw) && AllSpace(key.value.left) && AllSpace(key.value.right)
    ensures var name := ParseName(before + KeyTo(key, tail), named);
            && name.Some?
            && name.value.value == (if key.None? then None else Some(Text(key.value.raw)))
            && ParseValue(name.value.rest) == ParseValue(tail)
  {
    if named {
      var k := key.value;
      var t2 := k.left + ([':'] + (k.right + tail));
      hide ParseValue, ParseString, Decode, IsString;
      SpaceIsSkipped(before, k.raw + t2);
      StringParses(k.raw, t2);
      SpaceIsSkipped(k.left, [':'] + (k.right + tail));
      assert ([':'] + (k.right + tail))[1..] == k.right + tail;
      ValueAfterSpace(k.right, tail);
    } else {
      ValueAfterSpace(before, tail);
    }
  }

  /** The parser reads a printed tree as the tree's value and leaves what follows. */
  lemma {:induction false} PrintParses(j: Json, tail: bytes)
    requires WellFormed(j) && Delimited(tail)
    ensures ParseValue(PrintTo(j, tail)) == Some(Parsed(Value(j), tail))
    decreases j
  {
    match j {
      case Str(raw) =>
        StringParses(raw, tail);
        hide ParseString, IsString, Decode;
      case Lit(raw) =>
        LiteralParses(raw, tail);
        hide ParseLiteral, IsLiteral, ParseValue;
      case Box(named, pad, items) =>
        if items.Item? {
          ItemsParse(items, named, tail);
        }
        BoxParses(named, pad, items, tail);
        hide *;
    }
  }

  lemma {:induction false} BoxParses(named: bool, pad: bytes, items: Items, tail: bytes)
    requires WellFormed(Box(named, pad, items))
    requires items.Item? ==>
               ParseItems(ItemsTo(items, [Close(named)] + tail), named) == Some(Parsed(EntriesOf(items, named), tail))
    ensures ParseValue(PrintTo(Box(named, pad, items), tail)) == Some(Parsed(Value(Box(named, pad, items)), tail))
  {
    hide ParseItems, ParseString, ParseLiteral, ItemsWellFormed;
    var end := [Close(named)] + tail;
    var inside := pad + ItemsTo(items, end);
    assert ([Open(named)] + inside)[1..] == inside;
    if items.End? {
      SpaceIsSkipped(pad, end);
      assert end[1..] == tail;
    } else {
      ConcatNil(ItemsTo(items, end));
      FirstIsNotClose(items, named, end);
    }
  }

  lemma {:induction false} ItemsParse(items: Items, named: bool, tail: bytes)
    requires items.Item? && ItemsWellFormed(items, named)
    ensures ParseItems(ItemsTo(items, [Close(named)] + tail), named) == Some(Parsed(EntriesOf(items, named), tail))
    decreases items
  {
    hide ParseValue, ParseItems, ParseName, PrintTo, KeyTo, Value, WellFormed, IsString;
    var end := [Close(named)] + tail;
    var next := if items.more.End? then end else [','] + ItemsTo(items.more, end);
    var behind := items.after + next;
    assert next == [next[0]] + next[1..];
    SpaceDelimits(items.after, next[0], next[1..]);
    PrintParses(items.value, behind);
    NameParses(items.before, items.key, named, PrintTo(items.value, behind));
    if items.more.Item? {
      ItemsParse(items.more, named, tail);
      assert next[1..] == ItemsTo(items.more, end);
    } else {
      assert next[1..] == tail;
    }
    OneItemParses(items, named, tail, behind, next);
  }

  lemma {:induction false} OneItemParses(items: Items, named: bool, tail: bytes, behind: bytes, next: bytes)
    requires items.Item? && ItemsWellFormed(items, named) && next != []
    requires next == if items.more.End? then [Close(named)] + tail else [','] + ItemsTo(items.more, [Close(named)] + tail)
    requires behind == items.after + next && SkipSpace(behind) == next
    requires ParseValue(PrintTo(items.value, behind)) == Some(Parsed(Value(items.value), behind))
    requires var name := ParseName(items.before + KeyTo(items.key, PrintTo(items.value, behind)), named);
             && name.Some?
             && name.value.value == (if items.key.None? then None else Some(Text(items.key.value.raw)))
             && ParseValue(name.value.rest) == ParseValue(PrintTo(items.value, behind))
    requires items.more.Item? ==>
               ParseItems(next[1..], named) == Some(Parsed(EntriesOf(items.more, named), tail))
    requires items.more.End? ==> next[1..] == tail
    ensures ParseItems(ItemsTo(items, [Close(named)] + tail), named) == Some(Parsed(EntriesOf(items, named), tail))
  {
    hide ParseValue, ParseName, PrintTo, KeyTo, Value, WellFormed, IsString, SkipSpace;
  }

  /** A non-empty array or object does not look empty. */
  lemma {:induction false} FirstIsNotClose(items: Items, named: bool, tail: bytes)
    requires items.Item? && ItemsWellFormed(items, named)
    ensures var t := SkipSpace(ItemsTo(items, tail)); t != [] && t[0] != Close(named)
  {
    var next := items.after + (if items.more.End? then tail else [','] + ItemsTo(items.more, tail));
    SpaceIsSkipped(items.before, KeyTo(items.key, PrintTo(items.value, next)));
    if items.key.Some? {
      var k := items.key.value;
      StringParses(k.raw, k.left + ([':'] + (k.right + PrintTo(items.value, next))));
    } else {
      ValueStarts(items.value, next);
    }
  }

  lemma {:induction false} ValueStarts(j: Json, tail: bytes)
    requires WellFormed(j)
    ensures var s := PrintTo(j, tail); s != [] && s[0] != ']' && s[0] != '}' && !IsSpace(s[0])
  {
    if j.Lit? {
      assert LitChar(j.raw[0]);
    }
  }

  /** A document between white space. */
  lemma {:induction false} DocumentParses(front: bytes, j: Json, back: bytes)
    requires WellFormed(j) && AllSpace(front) && AllSpace(back)
    ensures Parse(front + PrintTo(j, back)) == Some(Value(j))
  {
    if back != [] {
      assert IsSpace(back[0]);
    }
    PrintParses(j, back);
    ValueAfterSpace(front, PrintTo(j, back));
    SpaceIsSkipped(back, []);
    ConcatNil(back);
  }
}

/**
 Rewriting every string and member name of a JSON value (redactValue in internal/jsonwalk/walk.go),
 and what the result means. White space is dropped, member names are always encoded anew, and a
 string that does not change keeps its own text.
 */
module JsonRedact {
  import opened Bytes
  import opened Scanning
  import opened Utf8
  import opened JsonStrings
  import opened JsonTree

  /** The transformation of a text; it can fail. */
  type Transform = bytes -> Option<bytes>

  // ------------------------------------------------------------------ the rewrite

  function RedactText(j: Json, tf: Transform): Option<bytes>
    requires JsonTree.WellFormed(j)
  {
    match j
    case Str(raw) =>
      (match tf(Text(raw))
       case None => None
       case Some(t) => Some(if t == Text(raw) then raw else Encoded(t)))
    case Lit(raw) => Some(raw)
    case Box(named, _, items) =>
      match RedactItems(items, named, tf)
      case None => None
      case Some(inside) => Some([Open(named)] + (inside + [Close(named)]))
  }

  /** The inside of the brackets. */
  function RedactItems(items: Items, named: bool, tf: Transform): Option<bytes>
    requires ItemsWellFormed(items, named)
  {
    match items
    case End => Some([])
    case Item(_, key, value, _, more) =>
      var child, name := RedactText(value, tf), if key.None? then Some([]) else tf(Text(key.value.raw));
      var rest := RedactItems(more, named, tf);
      if child.None? || name.None? || rest.None? then None
      else
        Some((if key.None? then [] else Encoded(name.value) + [':'])
             + (child.value + if more.End? then [] else [','] + rest.value))
  }

  // ------------------------------------------------------------------ the tree that is written

  function Redacted(j: Json, tf: Transform): Option<Json>
    requires JsonTree.WellFormed(j)
  {
    match j
    case Str(raw) =>
      (match tf(Text(raw))
       case None => None
       case Some(t) => Some(Str(if t == Text(raw) then raw else Encoded(t))))
    case Lit(raw) => Some(j)
    case Box(named, _, items) =>
      match RedactedItems(items, named, tf)
      case None => None
      case Some(inside) => Some(Box(named, [], inside))
  }

  function RedactedItems(items: Items, named: bool, tf: Transform): Option<Items>
    requires ItemsWellFormed(items, named)
  {
    match items
    case End => Some(End)
    case Item(_, key, value, _, more) =>
      var child, name := Redacted(value, tf), if key.None? then Some([]) else tf(Text(key.value.raw));
      var rest := RedactedItems(more, named, tf);
      if child.None? || name.None? || rest.None? then None
      else Some(Item([], if key.None? then None else Some(Key(Encoded(name.value), [], [])), child.value, [], rest.value))
  }

  lemma {:induction false} PrintBehind(j: Json, tail: bytes)
    ensures PrintTo(j, tail) == Print(j) + tail
    decreases j
  {
    match j {
      case Str(raw) =>
        ConcatNil(raw);
      case Lit(raw) =>
        ConcatNil(raw);
      case Box(named, pad, items) =>
        ItemsBehind(items, [Close(named)] + tail);
        ItemsBehind(items, [Close(named)] + []);
        var inside := ItemsTo(items, []);
        assert [Open(named)] + (pad + (inside + ([Close(named)] + tail)))
            == ([Open(named)] + (pad + (inside + ([Close(named)] + [])))) + tail;
    }
  }

  lemma {:induction false} ItemsBehind(items: Items, tail: bytes)
    ensures ItemsTo(items, tail) == ItemsTo(items, []) + tail
    decreases items
  {
    match items {
      case End =>
      case Item(before, key, value, after, more) =>
        hide Print, PrintTo, KeyTo;
        var next, nextTail := Next(more, []), Next(more, tail);
        ItemsBehind(more, tail);
        NextBehind(more, tail);
        PrintBehind(value, after + nextTail);
        PrintBehind(value, after + next);
        KeyBehind(key, PrintTo(value, after + nextTail));
        KeyBehind(key, PrintTo(value, after + next));
        Regroup(before, KeyTo(key, []), Print(value), after, next, tail);
    }
  }

  /** What follows an item. */
  function Next(more: Items, tail: bytes): bytes {
    if more.End? then tail else [','] + ItemsTo(more, tail)
  }

  lemma {:induction false} NextBehind(more: Items, tail: bytes)
    requires ItemsTo(more, tail) == ItemsTo(more, []) + tail
    ensures Next(more, tail) == Next(more, []) + tail
  {}

  lemma Regroup(a: bytes, b: bytes, c: bytes, d: bytes, e: bytes, tail: bytes)
    ensures a + (b + (c + (d + (e + tail)))) == (a + (b + (c + (d + e)))) + tail
  {}

  lemma KeyBehind(key: Option<Key>, tail: bytes)
    ensures KeyTo(key, tail) == KeyTo(key, []) + tail
  {
    if key.Some? {
      var k := key.value;
      assert k.raw + (k.left + ([':'] + (k.right + tail))) == (k.raw + (k.left + ([':'] + (k.right + [])))) + tail;
    }
  }

  /** What is written is the print of that tree. */
  lemma {:induction false} RedactPrints(j: Json, tf: Transform)
    requires JsonTree.WellFormed(j)
    ensures RedactText(j, tf) == match Redacted(j, tf) case None => None case Some(r) => Some(Print(r))
    decreases j
  {
    match j {
      case Str(raw) =>
        hide IsString, Text, Encoded;
        if Redacted(j, tf).Some? {
          ConcatNil(Redacted(j, tf).value.raw);
        }
      case Lit(raw) => ConcatNil(raw);
      case Box(named, pad, items) =>
        RedactItemsPrint(items, named, tf);
        if RedactedItems(items, named, tf).Some? {
          var inside := RedactedItems(items, named, tf).value;
          ItemsBehind(inside, [Close(named)] + []);
          ConcatNil(ItemsTo(inside, [Close(named)]));
          ConcatNil([Close(named)]);
        }
    }
  }

  lemma {:induction false} RedactItemsPrint(items: Items, named: bool, tf: Transform)
    requires ItemsWellFormed(items, named)
    ensures RedactItems(items, named, tf)
         == match RedactedItems(items, named, tf) case None => None case Some(r) => Some(ItemsTo(r, []))
    decreases items
  {
    hide IsString, Text, Encoded, Print, PrintTo;
    match items {
      case End =>
      case Item(_, key, value, _, more) =>
        RedactPrints(value, tf);
        RedactItemsPrint(more, named, tf);
        if RedactedItems(items, named, tf).Some? {
          var r := RedactedItems(items, named, tf).value;
          var next := if more.End? then [] else [','] + ItemsTo(r.more, []);
          PrintBehind(r.value, next);
          OneItemPrinted(r, next);
        }
    }
  }

  lemma {:induction false} OneItemPrinted(r: Items, next: bytes)
    requires r.Item? && r.before == [] && r.after == [] && (r.key.Some? ==> r.key.value.left == [] && r.key.value.right == [])
    requires next == (if r.more.End? then [] else [','] + ItemsTo(r.more, []))
    requires PrintTo(r.value, next) == Print(r.value) + next
    ensures ItemsTo(r, []) == (if r.key.None? then [] else r.key.value.raw + [':']) + (Print(r.value) + next)
  {
    hide Print, PrintTo;
    assert [] + next == next;
    var text := PrintTo(r.value, next);
    assert [] + KeyTo(r.key, text) == KeyTo(r.key, text);
    if r.key.Some? {
      assert KeyTo(r.key, text) == (r.key.value.raw + [':']) + text;
    }
  }

  // ------------------------------------------------------------------ what the result means

  /** What a changed text is read back as. */
  function NewText(tf: Transform): bytes -> bytes {
    (s: bytes) => if tf(s).None? || tf(s).value == s then s else Sanitize(tf(s).value)
  }

  function NewName(tf: Transform): bytes -> bytes {
    (s: bytes) => if tf(s).None? then s else Sanitize(tf(s).value)
  }

  function MapVal(v: Val, text: bytes -> bytes, name: bytes -> bytes): Val {
    match v
    case VStr(s) => VStr(text(s))
    case VLit(raw) => v
    case VBox(named, entries) => VBox(named, MapEntries(entries, text, name))
  }

  function MapEntries(entries: Entries, text: bytes -> bytes, name: bytes -> bytes): Entries {
    match entries
    case VEnd => VEnd
    case VEntry(n, v, more) =>
      VEntry(if n.None? then None else Some(name(n.value)), MapVal(v, text, name), MapEntries(more, text, name))
  }

  lemma {:induction false} EncodedIsString(s: bytes)
    ensures IsString(Encoded(s)) && Text(Encoded(s)) == Sanitize(s)
  {
    DecodesToItselfIff(s);
    hide Decode, Sanitize, Marshal, IsPlain;
  }

  /** The tree that is written is well formed and means the mapped value: the order, the literals
      and the shape stay. */
  lemma {:induction false} RedactedMeans(j: Json, tf: Transform)
    requires JsonTree.WellFormed(j) && Redacted(j, tf).Some?
    ensures var r := Redacted(j, tf).value;
            JsonTree.WellFormed(r) && Value(r) == MapVal(Value(j), NewText(tf), NewName(tf))
    decreases j
  {
    hide IsString, Text, Encoded, IsLiteral;
    match j {
      case Str(raw) => EncodedIsString(tf(Text(raw)).value);
      case Lit(raw) =>
      case Box(named, pad, items) => RedactedItemsMean(items, named, tf);
    }
  }

  lemma {:induction false} RedactedItemsMean(items: Items, named: bool, tf: Transform)
    requires ItemsWellFormed(items, named) && RedactedItems(items, named, tf).Some?
    ensures var r := RedactedItems(items, named, tf).value;
            && r.Item? == items.Item? && ItemsWellFormed(r, named)
            && EntriesOf(r, named) == MapEntries(EntriesOf(items, named), NewText(tf), NewName(tf))
    decreases items
  {
    hide IsString, Text, Encoded, IsLiteral;
    match items {
      case End =>
      case Item(_, key, value, _, more) =>
        RedactedMeans(value, tf);
        RedactedItemsMean(more, named, tf);
        if key.Some? {
          EncodedIsString(tf(Text(key.value.raw)).value);
        }
    }
  }

  /** The rewritten text, read by the parser. */
  lemma {:induction false} RedactedParses(j: Json, tf: Transform)
    requires JsonTree.WellFormed(j) && RedactText(j, tf).Some?
    ensures Parse(RedactText(j, tf).value) == Some(MapVal(Value(j), NewText(tf), NewName(tf)))
  {
    RedactPrints(j, tf);
    RedactedMeans(j, tf);
    var r := Redacted(j, tf).value;
    DocumentParses([], r, []);
    ConcatNil(Print(r));
  }

  // ------------------------------------------------------------------ when it fails, and undoing it

  /** The transformation succeeds on every string and member name. */
  predicate Covers(v: Val, tf: Transform) {
    match v
    case VStr(s) => tf(s).Some?
    case VLit(_) => true
    case VBox(_, entries) => EntriesCover(entries, tf)
  }

  predicate EntriesCover(entries: Entries, tf: Transform) {
    match entries
    case VEnd => true
    case VEntry(n, v, more) => (n.Some? ==> tf(n.value).Some?) && Covers(v, tf) && EntriesCover(more, tf)
  }

  lemma {:induction false} RedactsIffCovered(j: Json, tf: Transform)
    requires JsonTree.WellFormed(j)
    ensures RedactText(j, tf).Some? <==> Covers(Value(j), tf)
    decreases j
  {
    hide IsString, Text, Encoded, IsLiteral;
    if j.Box? {
      RedactsItemsIffCovered(j.items, j.named, tf);
    }
  }

  lemma {:induction false} RedactsItemsIffCovered(items: Items, named: bool, tf: Transform)
    requires ItemsWellFormed(items, named)
    ensures RedactItems(items, named, tf).Some? <==> EntriesCover(EntriesOf(items, named), tf)
    decreases items
  {
    hide IsString, Text, Encoded, IsLiteral;
    if items.Item? {
      RedactsIffCovered(items.value, tf);
      RedactsItemsIffCovered(items.more, named, tf);
    }
  }

  /** g leads every string and member name of v back through f. */
  predicate Undoes(v: Val, f: Transform, g: Transform) {
    match v
    case VStr(s) => Undone(s, f, g)
    case VLit(_) => true
    case VBox(_, entries) => EntriesUndone(entries, f, g)
  }

  predicate Undone(s: bytes, f: Transform, g: Transform) {
    && Utf8.WellFormed(s)
    && f(s).Some? && Utf8.WellFormed(f(s).value)
    && g(f(s).value) == Some(s)
  }

  predicate EntriesUndone(entries: Entries, f: Transform, g: Transform) {
    match entries
    case VEnd => true
    case VEntry(n, v, more) => (n.Some? ==> Undone(n.value, f, g)) && Undoes(v, f, g) && EntriesUndone(more, f, g)
  }

  lemma UndoneText(s: bytes, f: Transform, g: Transform)
    requires Undone(s, f, g)
    ensures NewText(g)(NewText(f)(s)) == s && NewName(g)(NewName(f)(s)) == s
    ensures g(NewText(f)(s)).Some? && g(NewName(f)(s)).Some?
  {
    SanitizeKeeps(s);
    SanitizeKeeps(f(s).value);
    hide Sanitize, Utf8.WellFormed;
  }

  lemma {:induction false} UndoneValue(v: Val, f: Transform, g: Transform)
    requires Undoes(v, f, g)
    ensures Covers(v, f)
    ensures var w := MapVal(v, NewText(f), NewName(f));
            Covers(w, g) && MapVal(w, NewText(g), NewName(g)) == v
    decreases v
  {
    match v {
      case VStr(s) =>
        UndoneText(s, f, g);
        hide Utf8.WellFormed, NewText, NewName;
      case VLit(_) =>
      case VBox(_, entries) => UndoneEntries(entries, f, g);
    }
  }

  lemma {:induction false} UndoneEntries(entries: Entries, f: Transform, g: Transform)
    requires EntriesUndone(entries, f, g)
    ensures EntriesCover(entries, f)
    ensures var w := MapEntries(entries, NewText(f), NewName(f));
            EntriesCover(w, g) && MapEntries(w, NewText(g), NewName(g)) == entries
    decreases entries
  {
    match entries {
      case VEnd =>
      case VEntry(n, v, more) =>
        hide Utf8.WellFormed, NewText, NewName, Undone;
        UndoneValue(v, f, g);
        UndoneEntries(more, f, g);
        if n.Some? {
          UndoneText(n.value, f, g);
          UndoneIsCovered(n.value, f, g);
        }
    }
  }

  lemma UndoneIsCovered(s: bytes, f: Transform, g: Transform)
    requires Undone(s, f, g)
    ensures f(s).Some?
  {}

  /** Rewriting with f and then with g, where g undoes f, gives a document that means what the first
      one meant. */
  lemma {:induction false} RewriteIsUndone(j: Json, f: Transform, g: Transform)
    requires JsonTree.WellFormed(j) && Undoes(Value(j), f, g)
    ensures RedactText(j, f).Some? && Redacted(j, f).Some? && JsonTree.WellFormed(Redacted(j, f).value)
    ensures Print(Redacted(j, f).value) == RedactText(j, f).value
    ensures var back := RedactText(Redacted(j, f).value, g);
            back.Some? && Parse(back.value) == Some(Value(j))
  {
    hide RedactText, Redacted, Value, Parse, Print, Undoes, MapVal, Covers, JsonTree.WellFormed;
    UndoneValue(Value(j), f, g);
    RedactsIffCovered(j, f);
    RedactPrints(j, f);
    RedactedMeans(j, f);
    RedactsIffCovered(Redacted(j, f).value, g);
    RedactedParses(Redacted(j, f).value, g);
  }

  // ------------------------------------------------------------------ a text of its own

  /** A document between white space. */
  datatype Document = Document(front: bytes, root: Json, back: bytes)

  predicate IsDocument(d: Document, raw: bytes) {
    && JsonTree.WellFormed(d.root) && AllSpace(d.front) && AllSpace(d.back)
    && raw == d.front + PrintTo(d.root, d.back)
  }

  /** gjson: the tree of a text, or None if the text is not valid. */
  type Reader = bytes -> Option<Document>

  /** The tree of every document, and of nothing else. */
  ghost predicate Exact(read: Reader) {
    && (forall raw :: read(raw).Some? ==> IsDocument(read(raw).value, raw))
    && (forall d, raw :: IsDocument(d, raw) ==> read(raw).Some?)
  }

  /** A transformation that never fails. */
  function Always(tf: bytes -> bytes): Transform { (s: bytes) => Some(tf(s)) }

  /** What is not valid JSON is returned as it is. */
  function DetokenizeValue(read: Reader, raw: bytes, tf: bytes -> bytes): bytes
    requires Exact(read)
  {
    if read(raw).None? then raw
    else
      assert IsDocument(read(raw).value, raw);
      var out := RedactText(read(raw).value.root, Always(tf));
      if out.None? then raw else out.value
  }

  lemma {:induction false} AlwaysCovers(v: Val, tf: bytes -> bytes)
    ensures Covers(v, Always(tf))
    decreases v
  {
    if v.VBox? {
      AlwaysCoversEntries(v.entries, tf);
    }
  }

  lemma {:induction false} AlwaysCoversEntries(entries: Entries, tf: bytes -> bytes)
    ensures EntriesCover(entries, Always(tf))
    decreases entries
  {
    if entries.VEntry? {
      AlwaysCovers(entries.value, tf);
      AlwaysCoversEntries(entries.more, tf);
    }
  }

  /** A valid text becomes one that means the same with every string and member name transformed. */
  lemma {:induction false} DetokenizedMeans(read: Reader, raw: bytes, tf: bytes -> bytes)
    requires Exact(read) && read(raw).Some?
    ensures Parse(raw).Some?
    ensures Parse(DetokenizeValue(read, raw, tf)) == Some(MapVal(Parse(raw).value, NewText(Always(tf)), NewName(Always(tf))))
  {
    hide RedactText, Value, Parse, MapVal, Covers, NewText, NewName, Always, PrintTo, JsonTree.WellFormed;
    var d := read(raw).value;
    assert IsDocument(d, raw);
    DocumentParses(d.front, d.root, d.back);
    AlwaysCovers(Value(d.root), tf);
    RedactsIffCovered(d.root, Always(tf));
    RedactedParses(d.root, Always(tf));
  }

  /** What is written is a document again. */
  lemma {:induction false} RedactedIsDocument(j: Json, f: Transform)
    requires JsonTree.WellFormed(j) && RedactText(j, f).Some?
    ensures Redacted(j, f).Some? && IsDocument(Document([], Redacted(j, f).value, []), RedactText(j, f).value)
  {
    hide RedactText, Value, MapVal, NewText, NewName, PrintTo, JsonTree.WellFormed;
    RedactPrints(j, f);
    RedactedMeans(j, f);
    ConcatNil(PrintTo(Redacted(j, f).value, []));
  }

  /** A tool input redacted with f is restored by any g that undoes f, as far as the text that
      arrives is the text that was redacted. */
  lemma {:induction false} RedactedInputIsRestored(read: Reader, j: Json, f: Transform, g: bytes -> bytes)
    requires Exact(read) && JsonTree.WellFormed(j) && Undoes(Value(j), f, Always(g))
    ensures RedactText(j, f).Some?
    ensures Parse(DetokenizeValue(read, RedactText(j, f).value, g)) == Some(Value(j))
  {
    hide RedactText, Value, Parse, MapVal, Covers, NewText, NewName, Always, PrintTo, JsonTree.WellFormed, DetokenizeValue, Undoes;
    UndoneValue(Value(j), f, Always(g));
    RedactsIffCovered(j, f);
    RedactedParses(j, f);
    RedactedIsDocument(j, f);
    assert IsDocument(Document([], Redacted(j, f).value, []), RedactText(j, f).value);
    hide Exact;
    DetokenizedMeans(read, RedactText(j, f).value, g);
  }
}

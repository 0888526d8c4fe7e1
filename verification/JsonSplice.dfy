/**
 Replacing nodes of a JSON document (apply and applyPerPath in internal/jsonwalk/walk.go). apply
 reads every offset from the original document and splices once; applyPerPath rewrites the document
 once per path. Both give the same bytes, in whatever order the paths come.
 */
module JsonSplice {
  import opened Bytes
  import opened Scanning
  import opened Splicing
  import opened JsonTree
  import opened JsonRedact

  /** The positions of the items on the way to a node. */
  type Path = seq<nat>

  // ------------------------------------------------------------------ nodes

  function Get(j: Json, p: Path): Option<Json> {
    if p == [] then Some(j)
    else if j.Box? then GetItem(j.items, p[0], p[1..])
    else None
  }

  function GetItem(items: Items, k: nat, p: Path): Option<Json> {
    if items.End? then None
    else if k == 0 then Get(items.value, p)
    else GetItem(items.more, k - 1, p)
  }

  /** The byte offset of a node in the text of the document. */
  function Offset(j: Json, p: Path): nat
    requires Get(j, p).Some?
  {
    if p == [] then 0 else 1 + |j.pad| + ItemOffset(j.items, p[0], p[1..])
  }

  function Lead(items: Items): bytes
    requires items.Item?
  {
    items.before + KeyTo(items.key, [])
  }

  function Trail(items: Items): bytes
    requires items.Item?
  {
    items.after + if items.more.End? then [] else [',']
  }

  function ItemOffset(items: Items, k: nat, p: Path): nat
    requires GetItem(items, k, p).Some?
  {
    if k == 0 then |Lead(items)| + Offset(items.value, p)
    else |Lead(items)| + |Print(items.value)| + |Trail(items)| + ItemOffset(items.more, k - 1, p)
  }

  /** sjson.SetBytes on a string: the leaf at p gets a new text. */
  function Set(j: Json, p: Path, raw: bytes): Json {
    if p == [] then Str(raw)
    else if j.Box? then j.(items := SetItem(j.items, p[0], p[1..], raw))
    else j
  }

  function SetItem(items: Items, k: nat, p: Path, raw: bytes): Items {
    if items.End? then End
    else if k == 0 then items.(value := Set(items.value, p, raw))
    else items.(more := SetItem(items.more, k - 1, p, raw))
  }

  // ------------------------------------------------------------------ the document in chunks

  /** A stretch of the document's text; a marked one is a whole node. */
  datatype Chunk = Chunk(text: bytes, mark: Option<Path>)

  type Changes = map<Path, bytes>

  /** The document cut at the nodes that change. */
  function Flatten(j: Json, at: Path, m: Changes): seq<Chunk> {
    if at in m then [Chunk(Print(j), Some(at))]
    else
      match j
      case Str(raw) => [Chunk(raw, None)]
      case Lit(raw) => [Chunk(raw, None)]
      case Box(named, pad, items) =>
        [Chunk([Open(named)] + pad, None)] + (FlattenItems(items, at, 0, m) + [Chunk([Close(named)], None)])
  }

  function FlattenItems(items: Items, at: Path, k: nat, m: Changes): seq<Chunk> {
    if items.End? then []
    else
      [Chunk(Lead(items), None)]
      + (Flatten(items.value, at + [k], m) + ([Chunk(Trail(items), None)] + FlattenItems(items.more, at, k + 1, m)))
  }

  function TextOf(chunks: seq<Chunk>): bytes {
    if chunks == [] then [] else chunks[0].text + TextOf(chunks[1..])
  }

  function New(c: Chunk, m: Changes): bytes {
    if c.mark.Some? && c.mark.value in m then m[c.mark.value] else c.text
  }

  function NewOf(chunks: seq<Chunk>, m: Changes): bytes {
    if chunks == [] then [] else New(chunks[0], m) + NewOf(chunks[1..], m)
  }

  /** The edits of the marked chunks, when the first chunk starts at off. */
  function EditsOf(chunks: seq<Chunk>, off: nat, m: Changes): seq<Edit> {
    if chunks == [] then []
    else
      var c, rest := chunks[0], EditsOf(chunks[1..], off + |chunks[0].text|, m);
      if c.mark.Some? && c.mark.value in m then [Edit(off, off + |c.text|, m[c.mark.value])] + rest else rest
  }

  lemma {:induction false} TextJoins(a: seq<Chunk>, b: seq<Chunk>)
    ensures TextOf(a + b) == TextOf(a) + TextOf(b)
  {
    if a == [] {
      ConcatNil(b);
      ConcatNil(TextOf(b));
    } else {
      ConsConcat(a, b);
      TextJoins(a[1..], b);
      ConcatAssoc(a[0].text, TextOf(a[1..]), TextOf(b));
    }
  }

  lemma {:induction false} NewJoins(a: seq<Chunk>, b: seq<Chunk>, m: Changes)
    ensures NewOf(a + b, m) == NewOf(a, m) + NewOf(b, m)
  {
    if a == [] {
      ConcatNil(b);
      ConcatNil(NewOf(b, m));
    } else {
      ConsConcat(a, b);
      NewJoins(a[1..], b, m);
      ConcatAssoc(New(a[0], m), NewOf(a[1..], m), NewOf(b, m));
    }
  }

  lemma {:induction false} EditsJoin(a: seq<Chunk>, b: seq<Chunk>, off: nat, m: Changes)
    ensures EditsOf(a + b, off, m) == EditsOf(a, off, m) + EditsOf(b, off + |TextOf(a)|, m)
  {
    if a == [] {
      ConcatNil(b);
      ConcatNil(EditsOf(b, off, m));
    } else {
      ConsConcat(a, b);
      EditsJoin(a[1..], b, off + |a[0].text|, m);
      var rest := EditsOf(b, off + |TextOf(a)|, m);
      if a[0].mark.Some? && a[0].mark.value in m {
        ConcatAssoc([Edit(off, off + |a[0].text|, m[a[0].mark.value])], EditsOf(a[1..], off + |a[0].text|, m), rest);
      }
    }
  }

  lemma {:induction false} BoxNew(open: Chunk, inside: seq<Chunk>, close: Chunk, m: Changes)
    ensures NewOf([open] + (inside + [close]), m) == NewOf([open], m) + (NewOf(inside, m) + NewOf([close], m))
  {
    NewJoins([open], inside + [close], m);
    NewJoins(inside, [close], m);
  }

  lemma {:induction false} ItemNew(lead: Chunk, inside: seq<Chunk>, trail: Chunk, more: seq<Chunk>, m: Changes)
    ensures NewOf([lead] + (inside + ([trail] + more)), m)
         == NewOf([lead], m) + (NewOf(inside, m) + (NewOf([trail], m) + NewOf(more, m)))
  {
    NewJoins([lead], inside + ([trail] + more), m);
    NewJoins(inside, [trail] + more, m);
    NewJoins([trail], more, m);
  }

  lemma {:induction false} OneChunk(c: Chunk, off: nat, m: Changes)
    ensures TextOf([c]) == c.text && NewOf([c], m) == New(c, m)
    ensures EditsOf([c], off, m) == if c.mark.Some? && c.mark.value in m then [Edit(off, off + |c.text|, m[c.mark.value])] else []
  {
    ConcatNil(c.text);
    ConcatNil(New(c, m));
  }

  /** The chunks make up the document. */
  lemma {:induction false} FlattenText(j: Json, at: Path, m: Changes)
    ensures TextOf(Flatten(j, at, m)) == Print(j)
    decreases j
  {
    if at in m {
      OneChunk(Chunk(Print(j), Some(at)), 0, m);
    } else {
      match j {
        case Str(raw) =>
          OneChunk(Chunk(raw, None), 0, m);
          ConcatNil(raw);
        case Lit(raw) =>
          OneChunk(Chunk(raw, None), 0, m);
          ConcatNil(raw);
        case Box(named, pad, items) =>
          FlattenItemsText(items, at, 0, m);
          BoxText(named, pad, items, FlattenItems(items, at, 0, m));
      }
    }
  }

  lemma {:induction false} BoxText(named: bool, pad: bytes, items: Items, inside: seq<Chunk>)
    requires TextOf(inside) == ItemsTo(items, [])
    ensures TextOf([Chunk([Open(named)] + pad, None)] + (inside + [Chunk([Close(named)], None)])) == Print(Box(named, pad, items))
  {
    var open, close := Chunk([Open(named)] + pad, None), Chunk([Close(named)], None);
    TextJoins([open], inside + [close]);
    TextJoins(inside, [close]);
    OneChunk(open, 0, map[]);
    OneChunk(close, 0, map[]);
    ItemsBehind(items, [Close(named)] + []);
    hide TextOf, ItemsTo;
    ConcatNil([Close(named)]);
    ConcatAssoc([Open(named)], pad, ItemsTo(items, []) + [Close(named)]);
  }

  lemma {:induction false} FlattenItemsText(items: Items, at: Path, k: nat, m: Changes)
    ensures TextOf(FlattenItems(items, at, k, m)) == ItemsTo(items, [])
    decreases items
  {
    if items.Item? {
      FlattenText(items.value, at + [k], m);
      FlattenItemsText(items.more, at, k + 1, m);
      ItemText(items, Flatten(items.value, at + [k], m), FlattenItems(items.more, at, k + 1, m));
      hide *;
    }
  }

  lemma {:induction false} ItemText(items: Items, inside: seq<Chunk>, more: seq<Chunk>)
    requires items.Item? && TextOf(inside) == Print(items.value) && TextOf(more) == ItemsTo(items.more, [])
    ensures TextOf([Chunk(Lead(items), None)] + (inside + ([Chunk(Trail(items), None)] + more))) == ItemsTo(items, [])
  {
    var lead, trail := Chunk(Lead(items), None), Chunk(Trail(items), None);
    TextJoins([lead], inside + ([trail] + more));
    TextJoins(inside, [trail] + more);
    TextJoins([trail], more);
    OneChunk(lead, 0, map[]);
    OneChunk(trail, 0, map[]);
    hide TextOf;
    var next := items.after + Next(items.more, []);
    TrailText(items, TextOf(more));
    PrintBehind(items.value, next);
    KeyBehind(items.key, PrintTo(items.value, next));
    hide Print, PrintTo, KeyTo;
    ConcatAssoc(items.before, KeyTo(items.key, []), Print(items.value) + next);
  }

  lemma TrailText(items: Items, more: bytes)
    requires items.Item? && more == ItemsTo(items.more, [])
    ensures Trail(items) + more == items.after + Next(items.more, [])
  {}

  // ------------------------------------------------------------------ one splice

  /** Splicing the edits of the marked chunks writes the new text of every marked chunk and copies
      the others. front is what stands before the chunks, written up to last. */
  lemma {:induction false} SpliceChunks(front: bytes, chunks: seq<Chunk>, last: nat, m: Changes)
    requires last <= |front|
    ensures var text, edits := front + TextOf(chunks), EditsOf(chunks, |front|, m);
            && Ordered(edits, last, |text|)
            && Splice(text, edits, last) == front[last..] + NewOf(chunks, m)
    decreases chunks
  {
    if chunks == [] {
      ConcatNil(front);
      ConcatNil(front[last..]);
    } else {
      var c, rest := chunks[0], chunks[1..];
      var front' := front + c.text;
      assert chunks == [c] + rest;
      hide *;
      ConcatAssoc(front, c.text, TextOf(rest));
      ChunksSplit(c, rest, m);
      if c.mark.Some? && c.mark.value in m {
        SpliceChunks(front', rest, |front'|, m);
        MarkedChunk(front, c, rest, last, m);
      } else {
        SpliceChunks(front', rest, last, m);
        PlainChunk(front, c, rest, last, m);
      }
    }
  }

  lemma ChunksSplit(c: Chunk, rest: seq<Chunk>, m: Changes)
    ensures TextOf([c] + rest) == c.text + TextOf(rest)
    ensures NewOf([c] + rest, m) == New(c, m) + NewOf(rest, m)
  {
    assert ([c] + rest)[1..] == rest;
  }

  lemma PlainChunk(front: bytes, c: Chunk, rest: seq<Chunk>, last: nat, m: Changes)
    requires last <= |front| && !(c.mark.Some? && c.mark.value in m)
    ensures EditsOf([c] + rest, |front|, m) == EditsOf(rest, |front + c.text|, m)
    ensures (front + c.text)[last..] + NewOf(rest, m) == front[last..] + (New(c, m) + NewOf(rest, m))
  {
    assert ([c] + rest)[1..] == rest;
    hide EditsOf, NewOf;
    assert (front + c.text)[last..] == front[last..] + c.text;
    ConcatAssoc(front[last..], c.text, NewOf(rest, m));
  }

  lemma {:induction false} MarkedChunk(front: bytes, c: Chunk, rest: seq<Chunk>, last: nat, m: Changes)
    requires last <= |front| && c.mark.Some? && c.mark.value in m
    requires var front' := front + c.text;
             var text, edits := front' + TextOf(rest), EditsOf(rest, |front'|, m);
             Ordered(edits, |front'|, |text|) && Splice(text, edits, |front'|) == front'[|front'|..] + NewOf(rest, m)
    ensures var text, edits := (front + c.text) + TextOf(rest), EditsOf([c] + rest, |front|, m);
            && Ordered(edits, last, |text|)
            && Splice(text, edits, last) == front[last..] + (New(c, m) + NewOf(rest, m))
  {
    var text := (front + c.text) + TextOf(rest);
    var e, more := Edit(|front|, |front| + |c.text|, m[c.mark.value]), EditsOf(rest, |front + c.text|, m);
    assert ([c] + rest)[1..] == rest;
    assert EditsOf([c] + rest, |front|, m) == [e] + more;
    hide EditsOf, NewOf, TextOf;
    assert text[last..|front|] == front[last..];
    EditInFront(text, e, more, last);
    assert (front + c.text)[e.end..] == [];
    ConcatNil(NewOf(rest, m));
    ConcatAssoc(front[last..], New(c, m), NewOf(rest, m));
  }

  lemma EditInFront(text: bytes, e: Edit, more: seq<Edit>, last: nat)
    requires last <= e.start <= e.end && Ordered(more, e.end, |text|)
    ensures Ordered([e] + more, last, |text|) && e.end <= |text|
    ensures Splice(text, [e] + more, last) == text[last..e.start] + e.text + Splice(text, more, e.end)
  {
    OrderedBound(more, e.end, |text|);
    assert ([e] + more)[1..] == more;
  }

  /** The document with all marked nodes replaced at once. */
  function Replaced(j: Json, m: Changes): bytes { NewOf(Flatten(j, [], m), m) }

  /** The edits in the order of the document. */
  function DocumentEdits(j: Json, m: Changes): seq<Edit> { EditsOf(Flatten(j, [], m), 0, m) }

  lemma SpliceReplaces(j: Json, m: Changes)
    ensures Ordered(DocumentEdits(j, m), 0, |Print(j)|)
    ensures Splice(Print(j), DocumentEdits(j, m), 0) == Replaced(j, m)
  {
    FlattenText(j, [], m);
    SpliceChunks([], Flatten(j, [], m), 0, m);
    hide *;
    ConcatNil(Print(j));
    ConcatNil(Replaced(j, m));
  }

  // ------------------------------------------------------------------ which edits these are

  /** No node on the way to p, p itself left out, is replaced as a whole. */
  predicate OnTop(m: Changes, at: Path, p: Path) {
    forall i | 0 <= i < |p| :: at + p[..i] !in m
  }

  predicate HasEdit(edits: seq<Edit>, e: Edit) {
    exists i | 0 <= i < |edits| :: edits[i] == e
  }

  lemma HasEditJoin(a: seq<Edit>, b: seq<Edit>, e: Edit)
    ensures HasEdit(a + b, e) <==> HasEdit(a, e) || HasEdit(b, e)
  {
    if HasEdit(a, e) {
      var i :| 0 <= i < |a| && a[i] == e;
      assert (a + b)[i] == e;
    } else if HasEdit(b, e) {
      var i :| 0 <= i < |b| && b[i] == e;
      assert (a + b)[|a| + i] == e;
    }
  }

  /** The edit of the node at p when the document starts at off. */
  function EditAt(j: Json, at: Path, p: Path, off: nat, m: Changes): Edit
    requires Get(j, p).Some? && at + p in m
  {
    Edit(off + Offset(j, p), off + Offset(j, p) + |Print(Get(j, p).value)|, m[at + p])
  }

  lemma PathSteps(at: Path, p: Path)
    requires p != []
    ensures (at + [p[0]]) + p[1..] == at + p
    ensures forall i | 0 <= i < |p| - 1 :: (at + [p[0]]) + p[1..][..i] == at + p[..i + 1]
  {
    forall i | 0 <= i < |p| - 1
      ensures (at + [p[0]]) + p[1..][..i] == at + p[..i + 1]
    {
      assert p[..i + 1] == [p[0]] + p[1..][..i];
    }
  }

  lemma OnTopBelow(m: Changes, at: Path, p: Path)
    requires OnTop(m, at, p) && p != []
    ensures OnTop(m, at + [p[0]], p[1..])
    ensures at !in m
  {
    PathSteps(at, p);
    assert at + p[..0] == at;
    forall i | 0 <= i < |p| - 1
      ensures (at + [p[0]]) + p[1..][..i] !in m
    {
      assert at + p[..i + 1] !in m;
    }
  }

  /** The edits of an unmarked box are those of its items. */
  lemma BoxEdits(j: Json, at: Path, off: nat, m: Changes)
    requires j.Box? && at !in m
    ensures EditsOf(Flatten(j, at, m), off, m) == EditsOf(FlattenItems(j.items, at, 0, m), off + 1 + |j.pad|, m)
  {
    var open, close := Chunk([Open(j.named)] + j.pad, None), Chunk([Close(j.named)], None);
    var inside, off' := FlattenItems(j.items, at, 0, m), off + 1 + |j.pad|;
    OneChunk(open, off, m);
    OneChunk(close, off' + |TextOf(inside)|, m);
    EditsJoin([open], inside + [close], off, m);
    EditsJoin(inside, [close], off', m);
    hide EditsOf, FlattenItems, TextOf;
    ConcatNil(EditsOf(inside + [close], off', m));
    ConcatNil(EditsOf(inside, off', m));
  }

  lemma NotMarkedAbove(m: Changes, at: Path, p: Path)
    requires OnTop(m, at, p) && p != []
    ensures at !in m
  {
    assert at + p[..0] == at;
  }

  lemma ItemEditIsNodeEdit(j: Json, at: Path, k: nat, p: Path, off: nat, m: Changes, e: Edit)
    requires j.Box? && IsItemEditAt(j.items, at, 0, k, p, off + 1 + |j.pad|, m, e)
    ensures IsNodeEdit(j, at, off, m, e)
  {
    hide Print, Lead, Trail, GetItem, ItemOffset;
    var q := [k] + p;
    assert q[1..] == p;
    assert Get(j, q).Some? && at + q in m && e == EditAt(j, at, q, off, m);
  }

  lemma {:induction false} NodeHasEdit(j: Json, at: Path, p: Path, off: nat, m: Changes)
    requires Get(j, p).Some? && at + p in m && OnTop(m, at, p)
    ensures HasEdit(EditsOf(Flatten(j, at, m), off, m), EditAt(j, at, p, off, m))
    decreases j
  {
    if p == [] {
      assert at + [] == at;
      OneChunk(Chunk(Print(j), Some(at)), off, m);
      assert EditsOf(Flatten(j, at, m), off, m)[0] == EditAt(j, at, p, off, m);
    } else {
      OnTopBelow(m, at, p);
      NodeHasEditInItems(j.items, at, 0, p, p[0], off + 1 + |j.pad|, m);
      NotMarkedAbove(m, at, p);
      BoxEdits(j, at, off, m);
    }
  }

  lemma {:induction false} NodeHasEditInItems(items: Items, at: Path, n: nat, p: Path, k: nat, off: nat, m: Changes)
    requires p != [] && p[0] == n + k && GetItem(items, k, p[1..]).Some? && at + p in m && OnTop(m, at, p)
    ensures var o := off + ItemOffset(items, k, p[1..]);
            HasEdit(EditsOf(FlattenItems(items, at, n, m), off, m),
                    Edit(o, o + |Print(GetItem(items, k, p[1..]).value)|, m[at + p]))
    decreases items
  {
    var lead, trail := Chunk(Lead(items), None), Chunk(Trail(items), None);
    var inside, more := Flatten(items.value, at + [n], m), FlattenItems(items.more, at, n + 1, m);
    var off1 := off + |Lead(items)|;
    var off2 := off1 + |Print(items.value)|;
    var off3 := off2 + |Trail(items)|;
    var o := off + ItemOffset(items, k, p[1..]);
    var e := Edit(o, o + |Print(GetItem(items, k, p[1..]).value)|, m[at + p]);
    ItemEdits(items, at, n, off, m);
    HasEditJoin(EditsOf(inside, off1, m), EditsOf(more, off3, m), e);
    if k == 0 {
      PathSteps(at, p);
      OnTopBelow(m, at, p);
      NodeHasEdit(items.value, at + [n], p[1..], off1, m);
    } else {
      NodeHasEditInItems(items.more, at, n + 1, p, k - 1, off3, m);
    }
  }

  /** The edits of an item list: those of the first value and those of the rest. */
  lemma ItemEdits(items: Items, at: Path, n: nat, off: nat, m: Changes)
    requires items.Item?
    ensures var off1 := off + |Lead(items)|;
            var off3 := off1 + |Print(items.value)| + |Trail(items)|;
            EditsOf(FlattenItems(items, at, n, m), off, m)
            == EditsOf(Flatten(items.value, at + [n], m), off1, m) + EditsOf(FlattenItems(items.more, at, n + 1, m), off3, m)
  {
    var lead, trail := Chunk(Lead(items), None), Chunk(Trail(items), None);
    var inside, more := Flatten(items.value, at + [n], m), FlattenItems(items.more, at, n + 1, m);
    var off1 := off + |Lead(items)|;
    var off2 := off1 + |Print(items.value)|;
    FlattenText(items.value, at + [n], m);
    OneChunk(lead, off, m);
    OneChunk(trail, off2, m);
    EditsJoin([lead], inside + ([trail] + more), off, m);
    EditsJoin(inside, [trail] + more, off1, m);
    EditsJoin([trail], more, off2, m);
    hide *;
    ConcatNil(EditsOf(inside + ([trail] + more), off1, m));
    ConcatNil(EditsOf(more, off2 + |Trail(items)|, m));
  }

  /** Every edit belongs to a node whose path is marked. */
  ghost predicate IsNodeEdit(j: Json, at: Path, off: nat, m: Changes, e: Edit) {
    exists p :: Get(j, p).Some? && at + p in m && e == EditAt(j, at, p, off, m)
  }

  ghost predicate IsItemEdit(items: Items, at: Path, n: nat, off: nat, m: Changes, e: Edit) {
    exists k: nat, p: Path :: IsItemEditAt(items, at, n, k, p, off, m, e)
  }

  predicate IsItemEditAt(items: Items, at: Path, n: nat, k: nat, p: Path, off: nat, m: Changes, e: Edit) {
    && GetItem(items, k, p).Some? && at + ([n + k] + p) in m
    && e == Edit(off + ItemOffset(items, k, p), off + ItemOffset(items, k, p) + |Print(GetItem(items, k, p).value)|,
                 m[at + ([n + k] + p)])
  }

  lemma {:induction false} EditIsNode(j: Json, at: Path, off: nat, m: Changes, e: Edit)
    requires HasEdit(EditsOf(Flatten(j, at, m), off, m), e)
    ensures IsNodeEdit(j, at, off, m, e)
    decreases j
  {
    if at in m {
      OneChunk(Chunk(Print(j), Some(at)), off, m);
      assert at + [] == at;
      assert Get(j, []).Some? && e == EditAt(j, at, [], off, m);
    } else if j.Box? {
      var off' := off + 1 + |j.pad|;
      BoxEdits(j, at, off, m);
      EditIsItem(j.items, at, 0, off', m, e);
      var k: nat, p: Path :| IsItemEditAt(j.items, at, 0, k, p, off', m, e);
      ItemEditIsNodeEdit(j, at, k, p, off, m, e);
    } else {
      OneChunk(Chunk(j.raw, None), off, m);
    }
  }

  lemma NoItemEdits(at: Path, n: nat, off: nat, m: Changes, e: Edit)
    ensures !HasEdit(EditsOf(FlattenItems(End, at, n, m), off, m), e)
  {}

  lemma {:induction false} EditIsItem(items: Items, at: Path, n: nat, off: nat, m: Changes, e: Edit)
    requires HasEdit(EditsOf(FlattenItems(items, at, n, m), off, m), e)
    ensures IsItemEdit(items, at, n, off, m, e)
    decreases items
  {
    hide Print, Lead, Trail, EditsOf, Flatten, HasEdit;
    if items.End? {
      NoItemEdits(at, n, off, m, e);
    } else {
      var off1 := off + |Lead(items)|;
      var off3 := off1 + |Print(items.value)| + |Trail(items)|;
      ItemEdits(items, at, n, off, m);
      var first, rest := EditsOf(Flatten(items.value, at + [n], m), off1, m), EditsOf(FlattenItems(items.more, at, n + 1, m), off3, m);
      HasEditJoin(first, rest, e);
      if HasEdit(first, e) {
        EditIsNode(items.value, at + [n], off1, m, e);
        var p :| Get(items.value, p).Some? && (at + [n]) + p in m && e == EditAt(items.value, at + [n], p, off1, m);
        ConcatAssoc(at, [n], p);
        assert IsItemEditAt(items, at, n, 0, p, off, m, e);
      } else {
        EditIsItem(items.more, at, n + 1, off3, m, e);
        var k: nat, p: Path :| IsItemEditAt(items.more, at, n + 1, k, p, off3, m, e);
        assert IsItemEditAt(items, at, n, k + 1, p, off, m, e);
      }
    }
  }

  // ------------------------------------------------------------------ different nodes are apart

  /** One path leads on from the other. */
  predicate Nested(p: Path, q: Path) { p <= q || q <= p }

  lemma {:induction false} NodeInside(j: Json, p: Path)
    requires Get(j, p).Some?
    ensures Offset(j, p) + |Print(Get(j, p).value)| <= |Print(j)|
    decreases j
  {
    if p != [] {
      ItemInside(j.items, p[0], p[1..]);
      ItemsBehind(j.items, [Close(j.named)] + []);
    }
  }

  /** The room that an item takes. */
  function Room(items: Items): nat
    requires items.Item?
  {
    |Lead(items)| + |Print(items.value)| + |Trail(items)|
  }

  lemma {:induction false} RoomOf(items: Items)
    requires items.Item?
    ensures |ItemsTo(items, [])| == Room(items) + |ItemsTo(items.more, [])|
  {
    var at: Path, m: Changes := [], map[];
    FlattenItemsText(items, at, 0, m);
    FlattenItemsText(items.more, at, 1, m);
    FlattenText(items.value, at + [0], m);
    var lead, trail := Chunk(Lead(items), None), Chunk(Trail(items), None);
    var inside, more := Flatten(items.value, at + [0], m), FlattenItems(items.more, at, 1, m);
    TextJoins([lead], inside + ([trail] + more));
    TextJoins(inside, [trail] + more);
    TextJoins([trail], more);
    OneChunk(lead, 0, m);
    OneChunk(trail, 0, m);
    hide TextOf, Print, ItemsTo, Lead, Trail;
  }

  lemma {:induction false} ItemInside(items: Items, k: nat, p: Path)
    requires GetItem(items, k, p).Some?
    ensures ItemOffset(items, k, p) + |Print(GetItem(items, k, p).value)| <= |ItemsTo(items, [])|
    decreases items
  {
    RoomOf(items);
    hide Print, ItemsTo, Lead, Trail;
    if k == 0 {
      NodeInside(items.value, p);
    } else {
      ItemInside(items.more, k - 1, p);
    }
  }

  /** Two nodes that are not inside one another do not overlap. */
  lemma {:induction false} NodesApart(j: Json, p: Path, q: Path)
    requires Get(j, p).Some? && Get(j, q).Some? && !Nested(p, q)
    ensures || Offset(j, p) + |Print(Get(j, p).value)| <= Offset(j, q)
            || Offset(j, q) + |Print(Get(j, q).value)| <= Offset(j, p)
    decreases j
  {
    assert p != [] && q != [];
    assert p == [p[0]] + p[1..] && q == [q[0]] + q[1..];
    ItemsApart(j.items, p[0], p[1..], q[0], q[1..]);
  }

  lemma {:induction false} ItemsApart(items: Items, k: nat, p: Path, l: nat, q: Path)
    requires GetItem(items, k, p).Some? && GetItem(items, l, q).Some? && (k != l || !Nested(p, q))
    ensures || ItemOffset(items, k, p) + |Print(GetItem(items, k, p).value)| <= ItemOffset(items, l, q)
            || ItemOffset(items, l, q) + |Print(GetItem(items, l, q).value)| <= ItemOffset(items, k, p)
    decreases items
  {
    hide Print, Lead, Trail;
    if k == 0 && l == 0 {
      NodesApart(items.value, p, q);
    } else if k == 0 {
      NodeInside(items.value, p);
    } else if l == 0 {
      NodeInside(items.value, q);
    } else {
      ItemsApart(items.more, k - 1, p, l - 1, q);
    }
  }

  // ------------------------------------------------------------------ sorting

  function InsertEdit(e: Edit, edits: seq<Edit>): seq<Edit> {
    if edits == [] || e.start < edits[0].start then [e] + edits else [edits[0]] + InsertEdit(e, edits[1..])
  }

  /** The changes by their start. */
  function SortEdits(edits: seq<Edit>): seq<Edit> {
    if edits == [] then [] else InsertEdit(edits[0], SortEdits(edits[1..]))
  }

  predicate Ascending(edits: seq<Edit>) {
    forall i, k | 0 <= i < k < |edits| :: edits[i].start < edits[k].start
  }

  predicate DifferentStarts(edits: seq<Edit>) {
    forall i, k | 0 <= i < k < |edits| :: edits[i].start != edits[k].start
  }

  lemma {:induction false} InsertHas(e: Edit, edits: seq<Edit>, f: Edit)
    ensures HasEdit(InsertEdit(e, edits), f) <==> f == e || HasEdit(edits, f)
  {
    if edits == [] || e.start < edits[0].start {
      HasEditJoin([e], edits, f);
      HasOne(e, f);
    } else {
      InsertHas(e, edits[1..], f);
      HasEditJoin([edits[0]], InsertEdit(e, edits[1..]), f);
      HasEditJoin([edits[0]], edits[1..], f);
      HasOne(edits[0], f);
      assert edits == [edits[0]] + edits[1..];
    }
  }

  lemma HasOne(e: Edit, f: Edit)
    ensures HasEdit([e], f) <==> f == e
  {
    assert [e][0] == e;
  }

  lemma {:induction false} SortHas(edits: seq<Edit>, f: Edit)
    ensures HasEdit(SortEdits(edits), f) <==> HasEdit(edits, f)
  {
    if edits != [] {
      SortHas(edits[1..], f);
      InsertHas(edits[0], SortEdits(edits[1..]), f);
      HasEditJoin([edits[0]], edits[1..], f);
      HasOne(edits[0], f);
      assert edits == [edits[0]] + edits[1..];
    }
  }

  lemma {:induction false} InsertAscends(e: Edit, edits: seq<Edit>)
    requires Ascending(edits) && forall i | 0 <= i < |edits| :: edits[i].start != e.start
    ensures Ascending(InsertEdit(e, edits))
  {
    if edits != [] && e.start > edits[0].start {
      InsertAscends(e, edits[1..]);
      var rest := InsertEdit(e, edits[1..]);
      forall k | 0 <= k < |rest|
        ensures edits[0].start < rest[k].start
      {
        assert HasEdit(rest, rest[k]);
        InsertHas(e, edits[1..], rest[k]);
      }
    }
  }

  lemma {:induction false} SortAscends(edits: seq<Edit>)
    requires DifferentStarts(edits)
    ensures Ascending(SortEdits(edits))
  {
    if edits != [] {
      SortAscends(edits[1..]);
      var rest := SortEdits(edits[1..]);
      forall i | 0 <= i < |rest|
        ensures rest[i].start != edits[0].start
      {
        assert HasEdit(rest, rest[i]);
        SortHas(edits[1..], rest[i]);
      }
      InsertAscends(edits[0], rest);
    }
  }

  ghost predicate SameEdits(a: seq<Edit>, b: seq<Edit>) {
    forall e :: HasEdit(a, e) <==> HasEdit(b, e)
  }

  lemma {:induction false} AscendingIsUnique(a: seq<Edit>, b: seq<Edit>)
    requires Ascending(a) && Ascending(b) && SameEdits(a, b)
    ensures a == b
  {
    if a == [] {
      if b != [] {
        assert HasEdit(b, b[0]);
      }
    } else {
      assert HasEdit(a, a[0]);
      var i :| 0 <= i < |b| && b[i] == a[0];
      assert HasEdit(b, b[0]);
      var k :| 0 <= k < |a| && a[k] == b[0];
      assert a[0] == b[0];
      TailsAreSame(a, b);
      AscendingIsUnique(a[1..], b[1..]);
      assert a == [a[0]] + a[1..] && b == [b[0]] + b[1..];
    }
  }

  lemma TailsAreSame(a: seq<Edit>, b: seq<Edit>)
    requires Ascending(a) && Ascending(b) && SameEdits(a, b) && a != [] && b != [] && a[0] == b[0]
    ensures SameEdits(a[1..], b[1..])
  {
    forall e
      ensures HasEdit(a[1..], e) <==> HasEdit(b[1..], e)
    {
      TailHas(a, e);
      TailHas(b, e);
    }
  }

  lemma TailHas(a: seq<Edit>, e: Edit)
    requires Ascending(a) && a != []
    ensures HasEdit(a[1..], e) <==> HasEdit(a, e) && e != a[0]
  {
    if HasEdit(a[1..], e) {
      var i :| 0 <= i < |a[1..]| && a[1..][i] == e;
      assert a[i + 1] == e;
    }
    if HasEdit(a, e) && e != a[0] {
      var i :| 0 <= i < |a| && a[i] == e;
      assert a[1..][i - 1] == e;
    }
  }
}

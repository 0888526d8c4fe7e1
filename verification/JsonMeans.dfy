/**
 What a rewritten document means (apply and applyPerPath in internal/jsonwalk/walk.go): the strings at the
 paths and everything in the tool inputs transformed, all else as it was.
 */
module JsonMeans {
  import opened Bytes
  import opened Scanning
  import opened JsonStrings
  import opened JsonTree
  import opened JsonRedact
  import opened JsonSplice
  import opened JsonChanges

  // ------------------------------------------------------------------ the meaning

  /** The value that the document shall have. at is where v stands in it. */
  function Rewritten(v: Val, at: Path, paths: seq<Path>, inputs: seq<Path>, tf: Transform): Val {
    if at in inputs then MapVal(v, NewText(tf), NewName(tf))
    else
      match v
      case VStr(s) => if at in paths then VStr(NewText(tf)(s)) else v
      case VLit(_) => v
      case VBox(named, entries) => VBox(named, RewrittenEntries(entries, at, 0, paths, inputs, tf))
  }

  function RewrittenEntries(entries: Entries, at: Path, n: nat, paths: seq<Path>, inputs: seq<Path>, tf: Transform): Entries {
    match entries
    case VEnd => VEnd
    case VEntry(name, v, more) =>
      VEntry(name, Rewritten(v, at + [n], paths, inputs, tf), RewrittenEntries(more, at, n + 1, paths, inputs, tf))
  }

  /** The part of a value at a path. */
  function ValueAt(v: Val, p: Path): Option<Val> {
    if p == [] then Some(v) else if v.VBox? then EntryAt(v.entries, p[0], p[1..]) else None
  }

  function EntryAt(entries: Entries, k: nat, p: Path): Option<Val> {
    if entries.VEnd? then None else if k == 0 then ValueAt(entries.value, p) else EntryAt(entries.more, k - 1, p)
  }

  /** The same path leads to the rewritten part, as long as it does not lead through a tool input. */
  lemma {:induction false} RewrittenAt(v: Val, at: Path, p: Path, paths: seq<Path>, inputs: seq<Path>, tf: Transform)
    requires ValueAt(v, p).Some? && forall i | 0 <= i < |p| :: at + p[..i] !in inputs
    ensures ValueAt(Rewritten(v, at, paths, inputs, tf), p) == Some(Rewritten(ValueAt(v, p).value, at + p, paths, inputs, tf))
    decreases v
  {
    if p == [] {
      assert at + p == at;
    } else {
      assert at + p[..0] == at;
      EntryRewrittenAt(v.entries, at, 0, p, p[0], paths, inputs, tf);
    }
  }

  lemma {:induction false} EntryRewrittenAt(entries: Entries, at: Path, n: nat, p: Path, k: nat, paths: seq<Path>, inputs: seq<Path>, tf: Transform)
    requires p != [] && p[0] == n + k && EntryAt(entries, k, p[1..]).Some?
    requires forall i | 0 <= i < |p| :: at + p[..i] !in inputs
    ensures EntryAt(RewrittenEntries(entries, at, n, paths, inputs, tf), k, p[1..])
         == Some(Rewritten(EntryAt(entries, k, p[1..]).value, at + p, paths, inputs, tf))
    decreases entries
  {
    if k == 0 {
      PathSteps(at, p);
      forall i | 0 <= i < |p[1..]|
        ensures (at + [n]) + p[1..][..i] !in inputs
      {
        assert (at + [p[0]]) + p[1..][..i] == at + p[..i + 1];
      }
      RewrittenAt(entries.value, at + [n], p[1..], paths, inputs, tf);
    } else {
      EntryRewrittenAt(entries.more, at, n + 1, p, k - 1, paths, inputs, tf);
    }
  }

  /** Where no path leads, the value stays. */
  lemma {:induction false} RewrittenElsewhere(v: Val, at: Path, paths: seq<Path>, inputs: seq<Path>, tf: Transform)
    requires forall q | q in paths || q in inputs :: !(at <= q)
    ensures Rewritten(v, at, paths, inputs, tf) == v
    decreases v
  {
    if v.VBox? {
      EntriesElsewhere(v.entries, at, 0, paths, inputs, tf);
    }
  }

  lemma {:induction false} EntriesElsewhere(entries: Entries, at: Path, n: nat, paths: seq<Path>, inputs: seq<Path>, tf: Transform)
    requires forall q | q in paths || q in inputs :: !(at <= q)
    ensures RewrittenEntries(entries, at, n, paths, inputs, tf) == entries
    decreases entries
  {
    if entries.VEntry? {
      forall q | q in paths || q in inputs
        ensures !(at + [n] <= q)
      {
        assert at <= at + [n];
      }
      RewrittenElsewhere(entries.value, at + [n], paths, inputs, tf);
      EntriesElsewhere(entries.more, at, n + 1, paths, inputs, tf);
    }
  }

  // ------------------------------------------------------------------ the tree that is written

  type Trees = map<Path, Json>

  /** The document with whole nodes replaced. */
  function Grafted(j: Json, at: Path, t: Trees): Json {
    if at in t then t[at] else if j.Box? then Box(j.named, j.pad, GraftedItems(j.items, at, 0, t)) else j
  }

  function GraftedItems(items: Items, at: Path, n: nat, t: Trees): Items {
    if items.End? then End
    else Item(items.before, items.key, Grafted(items.value, at + [n], t), items.after, GraftedItems(items.more, at, n + 1, t))
  }

  ghost predicate Prints(t: Trees, m: Changes) {
    m.Keys == t.Keys && forall p | p in m :: m[p] == Print(t[p])
  }

  lemma {:induction false} PrintBox(named: bool, pad: bytes, items: Items)
    ensures Print(Box(named, pad, items)) == ([Open(named)] + pad) + (ItemsTo(items, []) + [Close(named)])
  {
    ItemsBehind(items, [Close(named)] + []);
    ConcatNil([Close(named)]);
    hide ItemsTo;
    ConcatAssoc([Open(named)], pad, ItemsTo(items, []) + [Close(named)]);
  }

  lemma {:induction false} PrintItem(items: Items)
    requires items.Item?
    ensures ItemsTo(items, []) == Lead(items) + (Print(items.value) + (Trail(items) + ItemsTo(items.more, [])))
  {
    var next := items.after + Next(items.more, []);
    TrailText(items, ItemsTo(items.more, []));
    PrintBehind(items.value, next);
    KeyBehind(items.key, PrintTo(items.value, next));
    hide Print, PrintTo, KeyTo;
    ConcatAssoc(items.before, KeyTo(items.key, []), Print(items.value) + next);
  }

  /** Replacing the texts of nodes prints the tree with the nodes replaced. */
  lemma {:induction false} GraftedPrints(j: Json, at: Path, t: Trees, m: Changes)
    requires Prints(t, m)
    ensures NewOf(Flatten(j, at, m), m) == Print(Grafted(j, at, t))
    decreases j
  {
    if at in m {
      OneChunk(Chunk(Print(j), Some(at)), 0, m);
    } else if j.Box? {
      var open, close := Chunk([Open(j.named)] + j.pad, None), Chunk([Close(j.named)], None);
      GraftedItemsPrint(j.items, at, 0, t, m);
      BoxNew(open, FlattenItems(j.items, at, 0, m), close, m);
      OneChunk(open, 0, m);
      OneChunk(close, 0, m);
      PrintBox(j.named, j.pad, GraftedItems(j.items, at, 0, t));
      hide Print, ItemsTo, NewOf, FlattenItems;
    } else {
      OneChunk(Chunk(j.raw, None), 0, m);
      ConcatNil(j.raw);
    }
  }

  lemma {:induction false} GraftedItemsPrint(items: Items, at: Path, n: nat, t: Trees, m: Changes)
    requires Prints(t, m)
    ensures NewOf(FlattenItems(items, at, n, m), m) == ItemsTo(GraftedItems(items, at, n, t), [])
    decreases items
  {
    if items.Item? {
      var lead, trail := Chunk(Lead(items), None), Chunk(Trail(items), None);
      var inside, more := Flatten(items.value, at + [n], m), FlattenItems(items.more, at, n + 1, m);
      GraftedPrints(items.value, at + [n], t, m);
      GraftedItemsPrint(items.more, at, n + 1, t, m);
      ItemNew(lead, inside, trail, more, m);
      OneChunk(lead, 0, m);
      OneChunk(trail, 0, m);
      var items' := GraftedItems(items, at, n, t);
      assert Lead(items') == Lead(items) && Trail(items') == Trail(items);
      PrintItem(items');
      hide *;
    }
  }

  // ------------------------------------------------------------------ what that tree means

  /** The tree that replaces a node has the value that the node shall have, and a node that is not replaced
      has it already. Nothing is replaced inside a tool input. */
  ghost predicate NodeFits(j: Json, at: Path, t: Trees, paths: seq<Path>, inputs: seq<Path>, tf: Transform) {
    && (at in t ==> JsonTree.WellFormed(t[at]) && (at in paths || at in inputs))
    && (at in inputs ==>
          && JsonTree.WellFormed(j) && (forall q | q in t && at <= q :: q == at)
          && (if at in t then Value(t[at]) else Value(j)) == MapVal(Value(j), NewText(tf), NewName(tf)))
    && (at in paths ==>
          && at !in inputs && j.Str? && IsString(j.raw)
          && (if at in t then Value(t[at]) else Value(j)) == VStr(NewText(tf)(Text(j.raw))))
  }

  ghost predicate Fits(j: Json, at: Path, t: Trees, paths: seq<Path>, inputs: seq<Path>, tf: Transform) {
    forall p: Path | Get(j, p).Some? :: NodeFits(Get(j, p).value, at + p, t, paths, inputs, tf)
  }

  ghost predicate ItemsFit(items: Items, at: Path, n: nat, t: Trees, paths: seq<Path>, inputs: seq<Path>, tf: Transform) {
    forall k: nat, p: Path | GetItem(items, k, p).Some? ::
      NodeFits(GetItem(items, k, p).value, at + ([n + k] + p), t, paths, inputs, tf)
  }

  lemma BoxFits(j: Json, at: Path, t: Trees, paths: seq<Path>, inputs: seq<Path>, tf: Transform)
    requires j.Box? && Fits(j, at, t, paths, inputs, tf)
    ensures ItemsFit(j.items, at, 0, t, paths, inputs, tf)
  {
    hide NodeFits;
    forall k: nat, p: Path | GetItem(j.items, k, p).Some?
      ensures NodeFits(GetItem(j.items, k, p).value, at + ([0 + k] + p), t, paths, inputs, tf)
    {
      assert ([0 + k] + p)[1..] == p;
      assert Get(j, [0 + k] + p) == GetItem(j.items, k, p);
    }
  }

  lemma FirstFits(items: Items, at: Path, n: nat, t: Trees, paths: seq<Path>, inputs: seq<Path>, tf: Transform)
    requires items.Item? && ItemsFit(items, at, n, t, paths, inputs, tf)
    ensures Fits(items.value, at + [n], t, paths, inputs, tf) && ItemsFit(items.more, at, n + 1, t, paths, inputs, tf)
  {
    hide NodeFits;
    forall p: Path | Get(items.value, p).Some?
      ensures NodeFits(Get(items.value, p).value, (at + [n]) + p, t, paths, inputs, tf)
    {
      ConcatAssoc(at, [n], p);
      assert GetItem(items, 0, p) == Get(items.value, p) && [n + 0] + p == [n] + p;
    }
    forall k: nat, p: Path | GetItem(items.more, k, p).Some?
      ensures NodeFits(GetItem(items.more, k, p).value, at + ([n + 1 + k] + p), t, paths, inputs, tf)
    {
      assert GetItem(items, k + 1, p) == GetItem(items.more, k, p);
      assert [n + (k + 1)] + p == [n + 1 + k] + p;
    }
  }

  lemma {:induction false} NothingGrafted(j: Json, at: Path, t: Trees)
    requires forall q | q in t :: !(at <= q)
    ensures Grafted(j, at, t) == j
    decreases j
  {
    if j.Box? {
      NothingGraftedItems(j.items, at, 0, t);
    }
  }

  lemma {:induction false} NothingGraftedItems(items: Items, at: Path, n: nat, t: Trees)
    requires forall q | q in t :: !(at <= q)
    ensures GraftedItems(items, at, n, t) == items
    decreases items
  {
    if items.Item? {
      forall q | q in t
        ensures !(at + [n] <= q)
      {
        assert at <= at + [n];
      }
      NothingGrafted(items.value, at + [n], t);
      NothingGraftedItems(items.more, at, n + 1, t);
    }
  }

  /** The tree is well formed and means what the document shall mean. */
  lemma {:induction false} GraftedMeans(j: Json, at: Path, t: Trees, paths: seq<Path>, inputs: seq<Path>, tf: Transform)
    requires JsonTree.WellFormed(j) && Fits(j, at, t, paths, inputs, tf)
    ensures var g := Grafted(j, at, t);
            JsonTree.WellFormed(g) && Value(g) == Rewritten(Value(j), at, paths, inputs, tf)
    decreases j
  {
    hide IsString, Text, IsLiteral, NewText, NewName, MapVal;
    assert Get(j, []) == Some(j) && at + [] == at;
    assert NodeFits(j, at, t, paths, inputs, tf);
    if at !in t {
      if at in inputs {
        NothingGrafted(j, at, t);
      } else if j.Box? {
        BoxFits(j, at, t, paths, inputs, tf);
        GraftedItemsMean(j.items, at, 0, j.named, t, paths, inputs, tf);
      }
    }
  }

  lemma {:induction false} GraftedItemsMean(items: Items, at: Path, n: nat, named: bool, t: Trees, paths: seq<Path>, inputs: seq<Path>, tf: Transform)
    requires ItemsWellFormed(items, named) && ItemsFit(items, at, n, t, paths, inputs, tf)
    ensures var g := GraftedItems(items, at, n, t);
            && g.Item? == items.Item? && ItemsWellFormed(g, named)
            && EntriesOf(g, named) == RewrittenEntries(EntriesOf(items, named), at, n, paths, inputs, tf)
    decreases items
  {
    hide IsString, Text, IsLiteral, Fits, ItemsFit;
    if items.Item? {
      FirstFits(items, at, n, t, paths, inputs, tf);
      GraftedMeans(items.value, at + [n], t, paths, inputs, tf);
      GraftedItemsMean(items.more, at, n + 1, named, t, paths, inputs, tf);
    }
  }

  // ------------------------------------------------------------------ the changes that are made

  function PathAt(paths: seq<Path>, inputs: seq<Path>, i: nat): Path
    requires i < |paths| + |inputs|
  {
    if i < |paths| then paths[i] else inputs[i - |paths|]
  }

  /** The change of path i, if its node changes. */
  function ChangeAt(j: Json, paths: seq<Path>, inputs: seq<Path>, tf: Transform, i: nat): Option<seq<Change>>
    requires i < |paths| + |inputs| && Strings(j, paths) && Nodes(j, inputs)
  {
    if i < |paths| then StringChange(j, paths[i], tf) else InputChange(j, inputs[i - |paths|], tf)
  }

  ghost predicate Gathered(j: Json, paths: seq<Path>, inputs: seq<Path>, tf: Transform, n: nat, cs: seq<Change>)
    requires n <= |paths| + |inputs| && Strings(j, paths) && Nodes(j, inputs)
  {
    && (forall i | 0 <= i < n :: ChangeAt(j, paths, inputs, tf, i).Some?)
    && (forall i | 0 <= i < n && ChangeAt(j, paths, inputs, tf, i).value != [] :: ChangeAt(j, paths, inputs, tf, i).value[0] in cs)
    && (forall c | c in cs :: exists i :: 0 <= i < n && ChangeAt(j, paths, inputs, tf, i) == Some([c]))
  }

  lemma AtMostOne(j: Json, paths: seq<Path>, inputs: seq<Path>, tf: Transform, i: nat)
    requires i < |paths| + |inputs| && Strings(j, paths) && Nodes(j, inputs)
    ensures var c := ChangeAt(j, paths, inputs, tf, i);
            c.Some? && c.value != [] ==> c.value == [c.value[0]] && c.value[0].path == PathAt(paths, inputs, i)
  {
    hide RedactText, Print, Get, IsString, Encoded, Text;
  }

  lemma {:induction false} AllGathered(j: Json, paths: seq<Path>, inputs: seq<Path>, tf: Transform, n: nat)
    requires n <= |paths| + |inputs| && Strings(j, paths) && Nodes(j, inputs)
    requires Collected(j, paths, inputs, tf, n).Some?
    ensures Gathered(j, paths, inputs, tf, n, Collected(j, paths, inputs, tf, n).value)
  {
    hide StringChange, InputChange, Strings, Nodes;
    if n > 0 {
      AllGathered(j, paths, inputs, tf, n - 1);
      OneMoreGathered(j, paths, inputs, tf, n - 1, Collected(j, paths, inputs, tf, n - 1).value);
    }
  }

  lemma OneMoreGathered(j: Json, paths: seq<Path>, inputs: seq<Path>, tf: Transform, n: nat, cs: seq<Change>)
    requires n < |paths| + |inputs| && Strings(j, paths) && Nodes(j, inputs)
    requires Gathered(j, paths, inputs, tf, n, cs) && ChangeAt(j, paths, inputs, tf, n).Some?
    ensures Gathered(j, paths, inputs, tf, n + 1, cs + ChangeAt(j, paths, inputs, tf, n).value)
  {
    AtMostOne(j, paths, inputs, tf, n);
    hide ChangeAt;
    var more := ChangeAt(j, paths, inputs, tf, n).value;
    forall c | c in cs + more
      ensures exists i :: 0 <= i < n + 1 && ChangeAt(j, paths, inputs, tf, i) == Some([c])
    {
      if c in cs {
        var i :| 0 <= i < n && ChangeAt(j, paths, inputs, tf, i) == Some([c]);
      } else {
        assert more == [c];
      }
    }
  }

  /** What a node at a path is replaced by. */
  function NewTree(j: Json, p: Path, inputs: seq<Path>, tf: Transform): Json
    requires IsNodeAt(j, p)
  {
    var node := Get(j, p).value;
    if p in inputs then (match Redacted(node, tf) case Some(r) => r case None => node)
    else if node.Str? && IsString(node.raw) && tf(Text(node.raw)).Some? then Str(Encoded(tf(Text(node.raw)).value))
    else node
  }

  /** The values that a node shall have: before and after. */
  ghost predicate StringDone(j: Json, p: Path, c: seq<Change>, tf: Transform)
    requires IsStringAt(j, p) && tf(Text(Get(j, p).value.raw)).Some?
  {
    var orig := Text(Get(j, p).value.raw);
    var r := Str(Encoded(tf(orig).value));
    if c == [] then NewText(tf)(orig) == orig
    else c == [Change(p, Print(r))] && JsonTree.WellFormed(r) && Value(r) == VStr(NewText(tf)(orig))
  }

  lemma StringIsDone(j: Json, p: Path, tf: Transform)
    requires IsStringAt(j, p)
    ensures StringChange(j, p, tf).Some? <==> tf(Text(Get(j, p).value.raw)).Some?
    ensures StringChange(j, p, tf).Some? ==> StringDone(j, p, StringChange(j, p, tf).value, tf)
  {
    hide Get, IsString, Encoded, Sanitize;
    var orig := Text(Get(j, p).value.raw);
    if tf(orig).Some? {
      EncodedIsString(tf(orig).value);
      ConcatNil(Encoded(tf(orig).value));
    }
  }

  ghost predicate InputDone(j: Json, p: Path, c: seq<Change>, tf: Transform)
    requires IsNodeAt(j, p)
  {
    var node := Get(j, p).value;
    if c == [] then MapVal(Value(node), NewText(tf), NewName(tf)) == Value(node)
    else
      && Redacted(node, tf).Some?
      && var r := Redacted(node, tf).value;
         c == [Change(p, Print(r))] && JsonTree.WellFormed(r) && Value(r) == MapVal(Value(node), NewText(tf), NewName(tf))
  }

  lemma InputIsDone(j: Json, p: Path, tf: Transform)
    requires IsNodeAt(j, p)
    ensures InputChange(j, p, tf).Some? <==> Covers(Value(Get(j, p).value), tf)
    ensures InputChange(j, p, tf).Some? ==> InputDone(j, p, InputChange(j, p, tf).value, tf)
  {
    hide Get, RedactText, Redacted, Value, MapVal, NewText, NewName, Print, Covers, Parse, JsonTree.WellFormed;
    var node := Get(j, p).value;
    RedactsIffCovered(node, tf);
    RedactPrints(node, tf);
    if RedactText(node, tf).Some? {
      RedactedMeans(node, tf);
      RedactedParses(node, tf);
      PrintedParses(node);
    }
  }

  lemma {:induction false} PrintedParses(j: Json)
    requires JsonTree.WellFormed(j)
    ensures Parse(Print(j)) == Some(Value(j))
  {
    hide Parse, PrintTo, Value, JsonTree.WellFormed;
    DocumentParses([], j, []);
    ConcatNil(Print(j));
  }

  function TreesFor(j: Json, m: Changes, inputs: seq<Path>, tf: Transform): Trees
    requires forall p | p in m :: IsNodeAt(j, p)
  {
    map p | p in m :: NewTree(j, p, inputs, tf)
  }

  lemma PathsDiffer(paths: seq<Path>, inputs: seq<Path>, i: nat, k: nat)
    requires Apart(paths + inputs) && i < |paths| + |inputs| && k < |paths| + |inputs|
    ensures (paths + inputs)[i] == PathAt(paths, inputs, i) && (paths + inputs)[k] == PathAt(paths, inputs, k)
    ensures PathAt(paths, inputs, i) <= PathAt(paths, inputs, k) ==> i == k
  {
    var all := paths + inputs;
    assert i < k ==> !Nested(all[i], all[k]);
    assert k < i ==> !Nested(all[k], all[i]);
  }

  lemma PathIndex(paths: seq<Path>, inputs: seq<Path>, p: Path) returns (i: nat)
    requires p in paths || p in inputs
    ensures i < |paths| + |inputs| && PathAt(paths, inputs, i) == p && (p !in paths ==> i >= |paths|)
  {
    if p in paths {
      i :| 0 <= i < |paths| && paths[i] == p;
    } else {
      var k :| 0 <= k < |inputs| && inputs[k] == p;
      i := |paths| + k;
    }
  }

  /** The map holds exactly the changes of the paths that have one. */
  ghost predicate HoldsChanges(j: Json, paths: seq<Path>, inputs: seq<Path>, tf: Transform, m: Changes)
    requires Strings(j, paths) && Nodes(j, inputs)
  {
    && (forall p | p in m :: p in paths || p in inputs)
    && (forall i | 0 <= i < |paths| + |inputs| ::
          && ChangeAt(j, paths, inputs, tf, i).Some?
          && var p := PathAt(paths, inputs, i);
             ChangeAt(j, paths, inputs, tf, i).value == if p in m then [Change(p, m[p])] else [])
  }

  lemma {:induction false} MapHolds(j: Json, paths: seq<Path>, inputs: seq<Path>, tf: Transform)
    requires Strings(j, paths) && Nodes(j, inputs) && Apart(paths + inputs) && AllChanges(j, paths, inputs, tf).Some?
    ensures HoldsChanges(j, paths, inputs, tf, MapOf(AllChanges(j, paths, inputs, tf).value))
  {
    var n, cs := |paths| + |inputs|, AllChanges(j, paths, inputs, tf).value;
    CollectedFrom(j, paths, inputs, tf, n);
    AllGathered(j, paths, inputs, tf, n);
    MapHas(cs);
    GatheredHolds(j, paths, inputs, tf, cs, MapOf(cs));
  }

  lemma GatheredHolds(j: Json, paths: seq<Path>, inputs: seq<Path>, tf: Transform, cs: seq<Change>, m: Changes)
    requires Strings(j, paths) && Nodes(j, inputs) && Apart(paths + inputs)
    requires Gathered(j, paths, inputs, tf, |paths| + |inputs|, cs) && Describes(m, cs)
    ensures HoldsChanges(j, paths, inputs, tf, m)
  {
    hide Apart, ChangeAt, Strings, Nodes;
    var n := |paths| + |inputs|;
    forall p | p in m
      ensures p in paths || p in inputs
    {
      var i := ChangedIndex(j, paths, inputs, tf, cs, m, p);
    }
    forall i | 0 <= i < n
      ensures var p := PathAt(paths, inputs, i);
              ChangeAt(j, paths, inputs, tf, i).value == if p in m then [Change(p, m[p])] else []
    {
      var p := PathAt(paths, inputs, i);
      AtMostOne(j, paths, inputs, tf, i);
      if p in m {
        var k := ChangedIndex(j, paths, inputs, tf, cs, m, p);
        PathsDiffer(paths, inputs, i, k);
      }
    }
  }

  lemma ChangedIndex(j: Json, paths: seq<Path>, inputs: seq<Path>, tf: Transform, cs: seq<Change>, m: Changes, p: Path) returns (i: nat)
    requires Strings(j, paths) && Nodes(j, inputs)
    requires Gathered(j, paths, inputs, tf, |paths| + |inputs|, cs) && Describes(m, cs) && p in m
    ensures i < |paths| + |inputs| && PathAt(paths, inputs, i) == p && (p in paths || p in inputs)
    ensures ChangeAt(j, paths, inputs, tf, i) == Some([Change(p, m[p])])
  {
    hide ChangeAt, Strings, Nodes;
    assert HasPath(cs, p);
    var k :| 0 <= k < |cs| && cs[k].path == p;
    assert cs[k] in cs;
    i :| 0 <= i < |paths| + |inputs| && ChangeAt(j, paths, inputs, tf, i) == Some([cs[k]]);
    AtMostOne(j, paths, inputs, tf, i);
  }

  lemma ChangedAreNodes(j: Json, paths: seq<Path>, inputs: seq<Path>, tf: Transform, m: Changes)
    requires Strings(j, paths) && Nodes(j, inputs) && HoldsChanges(j, paths, inputs, tf, m)
    ensures forall p | p in m :: IsNodeAt(j, p)
  {
    hide ChangeAt, IsString;
    forall p | p in m
      ensures IsNodeAt(j, p)
    {
      if p in paths {
        var i :| 0 <= i < |paths| && paths[i] == p;
        assert IsStringAt(j, paths[i]);
        StringIsNode(j, p);
      } else {
        var i :| 0 <= i < |inputs| && inputs[i] == p;
      }
    }
  }

  lemma StringIsNode(j: Json, p: Path)
    requires IsStringAt(j, p)
    ensures IsNodeAt(j, p)
  {}

  /** What a change makes of the node at path i. */
  lemma NodeIsDone(j: Json, paths: seq<Path>, inputs: seq<Path>, tf: Transform, m: Changes, i: nat)
    requires Strings(j, paths) && Nodes(j, inputs) && Apart(paths + inputs) && HoldsChanges(j, paths, inputs, tf, m)
    requires i < |paths| + |inputs|
    ensures var p := PathAt(paths, inputs, i);
            && IsNodeAt(j, p) && (p in inputs <==> i >= |paths|) && (p in paths <==> i < |paths|)
            && var node, r := Get(j, p).value, NewTree(j, p, inputs, tf);
               var value := if i < |paths| then VStr(NewText(tf)(Text(node.raw))) else MapVal(Value(node), NewText(tf), NewName(tf));
               && (i < |paths| ==> node.Str? && IsString(node.raw))
               && (if p in m then m[p] == Print(r) && JsonTree.WellFormed(r) && Value(r) == value else Value(node) == value)
  {
    var p := PathAt(paths, inputs, i);
    OnlyInOne(paths, inputs, i);
    assert ChangeAt(j, paths, inputs, tf, i).value == if p in m then [Change(p, m[p])] else [];
    hide Apart, HoldsChanges, NewText, NewName, MapVal, Redacted, Print, Encoded;
    if i < |paths| {
      assert IsStringAt(j, p);
      StringIsDone(j, p, tf);
    } else {
      assert IsNodeAt(j, p);
      InputIsDone(j, p, tf);
    }
  }

  lemma OnlyInOne(paths: seq<Path>, inputs: seq<Path>, i: nat)
    requires Apart(paths + inputs) && i < |paths| + |inputs|
    ensures PathAt(paths, inputs, i) in inputs <==> i >= |paths|
    ensures PathAt(paths, inputs, i) in paths <==> i < |paths|
  {
    var p := PathAt(paths, inputs, i);
    if k :| 0 <= k < |inputs| && inputs[k] == p {
      PathsDiffer(paths, inputs, i, |paths| + k);
    }
    if k :| 0 <= k < |paths| && paths[k] == p {
      PathsDiffer(paths, inputs, i, k);
    }
  }

  lemma TreesPrint(j: Json, paths: seq<Path>, inputs: seq<Path>, tf: Transform, m: Changes)
    requires Strings(j, paths) && Nodes(j, inputs) && Apart(paths + inputs) && HoldsChanges(j, paths, inputs, tf, m)
    ensures forall p | p in m :: IsNodeAt(j, p)
    ensures Prints(TreesFor(j, m, inputs, tf), m)
  {
    ChangedAreNodes(j, paths, inputs, tf, m);
    hide NewTree, Print, Apart, Strings, Nodes, IsNodeAt, ChangeAt, Value;
    forall p | p in m
      ensures m[p] == Print(NewTree(j, p, inputs, tf))
    {
      var i := PathIndex(paths, inputs, p);
      NodeIsDone(j, paths, inputs, tf, m, i);
    }
  }

  lemma TreesFit(j: Json, paths: seq<Path>, inputs: seq<Path>, tf: Transform, m: Changes)
    requires Strings(j, paths) && Nodes(j, inputs) && Apart(paths + inputs) && HoldsChanges(j, paths, inputs, tf, m)
    requires forall p | p in m :: IsNodeAt(j, p)
    ensures Fits(j, [], TreesFor(j, m, inputs, tf), paths, inputs, tf)
  {
    hide NewTree, Print, Apart, Strings, Nodes, IsNodeAt, ChangeAt, Value, NodeFits, HoldsChanges;
    forall p: Path | Get(j, p).Some?
      ensures NodeFits(Get(j, p).value, [] + p, TreesFor(j, m, inputs, tf), paths, inputs, tf)
    {
      assert [] + p == p;
      OneFits(j, paths, inputs, tf, m, p);
    }
  }

  lemma OneFits(j: Json, paths: seq<Path>, inputs: seq<Path>, tf: Transform, m: Changes, p: Path)
    requires Strings(j, paths) && Nodes(j, inputs) && Apart(paths + inputs) && HoldsChanges(j, paths, inputs, tf, m)
    requires (forall p | p in m :: IsNodeAt(j, p)) && Get(j, p).Some?
    ensures NodeFits(Get(j, p).value, p, TreesFor(j, m, inputs, tf), paths, inputs, tf)
  {
    OnlyPaths(j, paths, inputs, tf, m);
    TreesAre(j, m, inputs, tf);
    hide *;
    var t, node := TreesFor(j, m, inputs, tf), Get(j, p).value;
    if p in paths || p in inputs {
      var i := PathIndex(paths, inputs, p);
      NodeIsDone(j, paths, inputs, tf, m, i);
      NothingBelow(j, paths, inputs, tf, m, i);
      var value := if i < |paths| then VStr(NewText(tf)(Text(node.raw))) else MapVal(Value(node), NewText(tf), NewName(tf));
      NodeIsWellFormed(j, p);
      PathFits(node, p, t, paths, inputs, tf, value);
    } else {
      OtherFits(node, p, t, paths, inputs, tf);
    }
  }

  lemma TreesAre(j: Json, m: Changes, inputs: seq<Path>, tf: Transform)
    requires forall p | p in m :: IsNodeAt(j, p)
    ensures TreesFor(j, m, inputs, tf).Keys == m.Keys
    ensures forall p | p in m :: TreesFor(j, m, inputs, tf)[p] == NewTree(j, p, inputs, tf)
  {}

  lemma NodeIsWellFormed(j: Json, p: Path)
    requires IsNodeAt(j, p)
    ensures Get(j, p).Some? && JsonTree.WellFormed(Get(j, p).value)
  {}

  lemma PathFits(node: Json, p: Path, t: Trees, paths: seq<Path>, inputs: seq<Path>, tf: Transform, value: Val)
    requires JsonTree.WellFormed(node) && (p in paths <==> p !in inputs)
    requires p in inputs ==> value == MapVal(Value(node), NewText(tf), NewName(tf)) && forall q | q in t && p <= q :: q == p
    requires p in paths ==> node.Str? && IsString(node.raw) && value == VStr(NewText(tf)(Text(node.raw)))
    requires if p in t then JsonTree.WellFormed(t[p]) && Value(t[p]) == value else Value(node) == value
    ensures NodeFits(node, p, t, paths, inputs, tf)
  {
    hide Value, MapVal, NewText, NewName, Text, IsString, JsonTree.WellFormed;
  }

  lemma OtherFits(node: Json, p: Path, t: Trees, paths: seq<Path>, inputs: seq<Path>, tf: Transform)
    requires p !in paths && p !in inputs && p !in t
    ensures NodeFits(node, p, t, paths, inputs, tf)
  {}

  lemma NothingBelow(j: Json, paths: seq<Path>, inputs: seq<Path>, tf: Transform, m: Changes, i: nat)
    requires Strings(j, paths) && Nodes(j, inputs) && Apart(paths + inputs) && HoldsChanges(j, paths, inputs, tf, m)
    requires i < |paths| + |inputs|
    ensures forall q | q in m && PathAt(paths, inputs, i) <= q :: q == PathAt(paths, inputs, i)
  {
    OnlyPaths(j, paths, inputs, tf, m);
    hide HoldsChanges, Apart, Strings, Nodes;
    forall q | q in m && PathAt(paths, inputs, i) <= q
      ensures q == PathAt(paths, inputs, i)
    {
      var k := PathIndex(paths, inputs, q);
      PathsDiffer(paths, inputs, i, k);
    }
  }

  lemma OnlyPaths(j: Json, paths: seq<Path>, inputs: seq<Path>, tf: Transform, m: Changes)
    requires Strings(j, paths) && Nodes(j, inputs) && HoldsChanges(j, paths, inputs, tf, m)
    ensures forall p | p in m :: p in paths || p in inputs
  {}

  /** The rewritten document is read as the value of the original with the strings at the paths, and every
      string and member name in the tool inputs, transformed, and all else as it was. */
  lemma {:induction false} ReplacedMeans(j: Json, paths: seq<Path>, inputs: seq<Path>, tf: Transform)
    requires JsonTree.WellFormed(j) && Strings(j, paths) && Nodes(j, inputs) && Apart(paths + inputs)
    requires AllChanges(j, paths, inputs, tf).Some?
    ensures Parse(Replaced(j, MapOf(AllChanges(j, paths, inputs, tf).value)))
         == Some(Rewritten(Value(j), [], paths, inputs, tf))
  {
    MapHolds(j, paths, inputs, tf);
    var m := MapOf(AllChanges(j, paths, inputs, tf).value);
    TreesPrint(j, paths, inputs, tf, m);
    TreesFit(j, paths, inputs, tf, m);
    hide *;
    var t := TreesFor(j, m, inputs, tf);
    GraftedPrints(j, [], t, m);
    GraftedMeans(j, [], t, paths, inputs, tf);
    PrintedParses(Grafted(j, [], t));
    ReplacedIs(j, m);
  }

  lemma ReplacedIs(j: Json, m: Changes)
    ensures Replaced(j, m) == NewOf(Flatten(j, [], m), m)
  {}

  /** The transformation succeeds on every string at a path, and on every string and member name in a tool
      input. */
  ghost predicate AllCovered(j: Json, paths: seq<Path>, inputs: seq<Path>, tf: Transform)
    requires Strings(j, paths) && Nodes(j, inputs)
  {
    && (forall i | 0 <= i < |paths| :: tf(Text(Get(j, paths[i]).value.raw)).Some?)
    && (forall i | 0 <= i < |inputs| :: Covers(Value(Get(j, inputs[i]).value), tf))
  }

  lemma {:induction false} CollectedIff(j: Json, paths: seq<Path>, inputs: seq<Path>, tf: Transform, n: nat)
    requires n <= |paths| + |inputs| && Strings(j, paths) && Nodes(j, inputs)
    ensures Collected(j, paths, inputs, tf, n).Some? <==> forall i | 0 <= i < n :: ChangeAt(j, paths, inputs, tf, i).Some?
  {
    hide StringChange, InputChange, Strings, Nodes;
    if n > 0 {
      CollectedIff(j, paths, inputs, tf, n - 1);
      assert ChangeAt(j, paths, inputs, tf, n - 1).Some? || ChangeAt(j, paths, inputs, tf, n - 1).None?;
    }
  }

  /** It fails exactly if the transformation fails somewhere. */
  lemma {:induction false} ChangesIffCovered(j: Json, paths: seq<Path>, inputs: seq<Path>, tf: Transform)
    requires Strings(j, paths) && Nodes(j, inputs)
    ensures AllChanges(j, paths, inputs, tf).Some? <==> AllCovered(j, paths, inputs, tf)
  {
    hide *;
    var n := |paths| + |inputs|;
    AllByIndex(j, paths, inputs, tf);
    CollectedIff(j, paths, inputs, tf, n);
    forall i | 0 <= i < n
      ensures ChangeAt(j, paths, inputs, tf, i).Some? <==> CoveredAt(j, paths, inputs, tf, i)
    {
      ChangesIffCoveredAt(j, paths, inputs, tf, i);
    }
    AllChangesAre(j, paths, inputs, tf);
  }

  ghost predicate CoveredAt(j: Json, paths: seq<Path>, inputs: seq<Path>, tf: Transform, i: nat)
    requires i < |paths| + |inputs| && Strings(j, paths) && Nodes(j, inputs)
  {
    if i < |paths| then IsStringAt(j, paths[i]) && tf(Text(Get(j, paths[i]).value.raw)).Some?
    else IsNodeAt(j, inputs[i - |paths|]) && Covers(Value(Get(j, inputs[i - |paths|]).value), tf)
  }

  lemma AllByIndex(j: Json, paths: seq<Path>, inputs: seq<Path>, tf: Transform)
    requires Strings(j, paths) && Nodes(j, inputs)
    ensures AllCovered(j, paths, inputs, tf) <==> forall i | 0 <= i < |paths| + |inputs| :: CoveredAt(j, paths, inputs, tf, i)
  {
    hide Get, IsString, Text, Covers, Value, JsonTree.WellFormed;
    forall i | 0 <= i < |paths|
      ensures CoveredAt(j, paths, inputs, tf, i) <==> tf(Text(Get(j, paths[i]).value.raw)).Some?
    {
      assert IsStringAt(j, paths[i]);
    }
    forall i | 0 <= i < |inputs|
      ensures CoveredAt(j, paths, inputs, tf, |paths| + i) <==> Covers(Value(Get(j, inputs[i]).value), tf)
    {
      assert IsNodeAt(j, inputs[i]);
    }
  }

  lemma AllChangesAre(j: Json, paths: seq<Path>, inputs: seq<Path>, tf: Transform)
    requires Strings(j, paths) && Nodes(j, inputs)
    ensures AllChanges(j, paths, inputs, tf) == Collected(j, paths, inputs, tf, |paths| + |inputs|)
  {}

  lemma {:induction false} ChangesIffCoveredAt(j: Json, paths: seq<Path>, inputs: seq<Path>, tf: Transform, i: nat)
    requires i < |paths| + |inputs| && Strings(j, paths) && Nodes(j, inputs)
    ensures ChangeAt(j, paths, inputs, tf, i).Some? <==> CoveredAt(j, paths, inputs, tf, i)
  {
    hide StringChange, InputChange, Get, Covers, Value, IsString, Text;
    if i < |paths| {
      assert IsStringAt(j, paths[i]);
      StringIsDone(j, paths[i], tf);
    } else {
      assert IsNodeAt(j, inputs[i - |paths|]);
      InputIsDone(j, inputs[i - |paths|], tf);
    }
  }
}

/**
 When rewriting keeps the bytes of what it does not change (redactValue and apply in
 internal/jsonwalk/walk.go): exactly in texts without white space whose member names are spelled
 as the encoder spells them.
 */
module JsonCompact {
  import opened Bytes
  import opened Scanning
  import opened JsonStrings
  import opened JsonTree
  import opened JsonRedact
  import opened JsonSplice
  import opened JsonChanges

  predicate Compact(j: Json)
    requires JsonTree.WellFormed(j)
  {
    j.Box? ==> j.pad == [] && ItemsCompact(j.items, j.named)
  }

  predicate ItemsCompact(items: Items, named: bool)
    requires ItemsWellFormed(items, named)
  {
    items.Item? ==>
      && items.before == [] && items.after == []
      && (items.key.Some? ==> KeyCompact(items.key.value))
      && Compact(items.value) && ItemsCompact(items.more, named)
  }

  predicate KeyCompact(k: Key)
    requires IsString(k.raw)
  {
    k.left == [] && k.right == [] && k.raw == Encoded(Text(k.raw))
  }

  /** The transformation changes no string and no member name. */
  predicate Idle(v: Val, tf: Transform) {
    match v
    case VStr(s) => tf(s) == Some(s)
    case VLit(_) => true
    case VBox(_, entries) => EntriesIdle(entries, tf)
  }

  predicate EntriesIdle(entries: Entries, tf: Transform) {
    match entries
    case VEnd => true
    case VEntry(n, v, more) => (n.Some? ==> tf(n.value) == n) && Idle(v, tf) && EntriesIdle(more, tf)
  }

  lemma {:induction false} IdleRedacts(j: Json, tf: Transform)
    requires JsonTree.WellFormed(j) && Idle(Value(j), tf)
    ensures Redacted(j, tf).Some? && (Compact(j) ==> Redacted(j, tf).value == j)
    decreases j
  {
    hide IsString, Text, Encoded;
    if j.Box? {
      IdleItemsRedact(j.items, j.named, tf);
    }
  }

  lemma {:induction false} IdleItemsRedact(items: Items, named: bool, tf: Transform)
    requires ItemsWellFormed(items, named) && EntriesIdle(EntriesOf(items, named), tf)
    ensures RedactedItems(items, named, tf).Some?
    ensures ItemsCompact(items, named) ==> RedactedItems(items, named, tf).value == items
    decreases items
  {
    hide IsString, Text, Encoded;
    if items.Item? {
      IdleRedacts(items.value, tf);
      IdleItemsRedact(items.more, named, tf);
    }
  }

  // ------------------------------------------------------------------ equal texts

  lemma SameBehind(front: bytes, s: bytes, t: bytes)
    ensures front + s == front + t <==> s == t
  {
    assert (front + s)[|front|..] == s && (front + t)[|front|..] == t;
  }

  /** White space in front of something shows. */
  lemma SpaceShows(space: bytes, s: bytes, t: bytes)
    requires AllSpace(space) && t != [] && !IsSpace(t[0]) && space + s == t
    ensures space == [] && s == t
  {
    FirstOf(space, s);
    ConcatNil(s);
  }

  lemma FirstOf(a: bytes, b: bytes)
    ensures a == [] || (a + b)[0] == a[0]
  {}

  lemma SameStrings(a: bytes, b: bytes, s: bytes, t: bytes)
    requires IsString(a) && IsString(b) && a + s == b + t
    ensures a == b && s == t
  {
    StringParses(a, s);
    StringParses(b, t);
    hide IsString;
    assert s == t;
    assert (a + s)[..|a|] == a && (b + t)[..|b|] == b;
  }

  /** What follows a value in the text of its array or object, or the end of the text. */
  predicate Ends(t: bytes) { t != [] && !IsSpace(t[0]) }

  /** If a text and what rewriting writes for it are the same, it was compact. */
  lemma {:induction false} SameIsCompact(j: Json, tf: Transform, s: bytes, t: bytes)
    requires JsonTree.WellFormed(j) && Idle(Value(j), tf) && Redacted(j, tf).Some?
    requires PrintTo(j, s) == PrintTo(Redacted(j, tf).value, t)
    ensures Compact(j) && s == t
    decreases j
  {
    match j {
      case Str(raw) => SameBehind(raw, s, t);
      case Lit(raw) => SameBehind(raw, s, t);
      case Box(named, pad, items) =>
        hide IsString, Text, Encoded, Print;
        var r := RedactedItems(items, named, tf).value;
        var s', t' := [Close(named)] + s, [Close(named)] + t;
        SameBehind([Open(named)], pad + ItemsTo(items, s'), [] + ItemsTo(r, t'));
        ConcatNil(ItemsTo(r, t'));
        if items.End? {
          SpaceShows(pad, s', t');
        } else {
          ConcatNil(ItemsTo(items, s'));
        }
        SameItemsAreCompact(items, named, tf, s', t');
        SameBehind([Close(named)], s, t);
    }
  }

  lemma {:induction false} SameItemsAreCompact(items: Items, named: bool, tf: Transform, s: bytes, t: bytes)
    requires ItemsWellFormed(items, named) && EntriesIdle(EntriesOf(items, named), tf) && RedactedItems(items, named, tf).Some?
    requires ItemsTo(items, s) == ItemsTo(RedactedItems(items, named, tf).value, t) && Ends(t)
    ensures ItemsCompact(items, named) && s == t
    decreases items
  {
    if items.Item? {
      hide IsString, Text, Encoded, Print;
      var r := RedactedItems(items, named, tf).value;
      var next, next' := Next(items.more, s), Next(r.more, t);
      ItemMeets(items, r, named, tf, s, t);
      SameIsCompact(items.value, tf, items.after + next, next');
      SpaceShows(items.after, next, next');
      if items.more.Item? {
        SameBehind([','], ItemsTo(items.more, s), ItemsTo(r.more, t));
        SameItemsAreCompact(items.more, named, tf, s, t);
      }
    }
  }

  /** Up to the value of an item. */
  lemma {:induction false} ItemMeets(items: Items, r: Items, named: bool, tf: Transform, s: bytes, t: bytes)
    requires items.Item? && ItemsWellFormed(items, named) && EntriesIdle(EntriesOf(items, named), tf)
    requires RedactedItems(items, named, tf) == Some(r) && ItemsTo(items, s) == ItemsTo(r, t)
    ensures r.Item? && r.more.Item? == items.more.Item?
    ensures items.before == [] && (items.key.Some? ==> KeyCompact(items.key.value))
    ensures PrintTo(items.value, items.after + Next(items.more, s)) == PrintTo(r.value, Next(r.more, t))
  {
    ItemRedacted(items, r, named, tf);
    hide IsString, Text, Encoded, PrintTo, KeyTo, Redacted, RedactedItems, JsonTree.WellFormed, EntriesIdle, EntriesOf, KeyCompact;
    var a, b := PrintTo(items.value, items.after + Next(items.more, s)), PrintTo(r.value, Next(r.more, t));
    ConcatNil(Next(r.more, t));
    ConcatNil(KeyTo(r.key, b));
    ValueStarts(r.value, Next(r.more, t));
    NoKey(a);
    NoKey(b);
    if items.key.Some? {
      KeyMeets(items.key.value, r.key.value, items.before, a, b);
    } else {
      SpaceShows(items.before, a, b);
    }
  }

  lemma NoKey(tail: bytes)
    ensures KeyTo(None, tail) == tail
  {}

  /** What rewriting makes of the first item. */
  lemma {:induction false} ItemRedacted(items: Items, r: Items, named: bool, tf: Transform)
    requires items.Item? && ItemsWellFormed(items, named) && EntriesIdle(EntriesOf(items, named), tf)
    requires RedactedItems(items, named, tf) == Some(r)
    ensures r.Item? && r.more.Item? == items.more.Item? && r.before == [] && r.after == []
    ensures r.key == if items.key.None? then None else Some(Key(Encoded(Text(items.key.value.raw)), [], []))
    ensures JsonTree.WellFormed(r.value)
  {
    hide IsString, Text, Encoded, Value;
    RedactedMeans(items.value, tf);
  }

  lemma {:induction false} KeyMeets(k: Key, k': Key, before: bytes, a: bytes, b: bytes)
    requires IsString(k.raw) && AllSpace(k.left) && AllSpace(k.right) && AllSpace(before) && Ends(b)
    requires k' == Key(Encoded(Text(k.raw)), [], [])
    requires before + KeyTo(Some(k), a) == KeyTo(Some(k'), b)
    ensures before == [] && KeyCompact(k) && a == b
  {
    EncodedIsString(Text(k.raw));
    hide IsString, Text, Encoded;
    KeySplits(k, a);
    KeySplits(k', b);
    ConcatNil(b);
    ConcatNil([':'] + b);
    StringStarts(k'.raw, [':'] + b);
    SpaceShows(before, KeyTo(Some(k), a), KeyTo(Some(k'), b));
    SameStrings(k.raw, k'.raw, k.left + ([':'] + (k.right + a)), [':'] + b);
    SpaceShows(k.left, [':'] + (k.right + a), [':'] + b);
    SameBehind([':'], k.right + a, b);
    SpaceShows(k.right, a, b);
  }

  lemma KeySplits(k: Key, tail: bytes)
    ensures KeyTo(Some(k), tail) == k.raw + (k.left + ([':'] + (k.right + tail)))
  {}

  lemma StringStarts(raw: bytes, tail: bytes)
    requires IsString(raw)
    ensures Ends(raw + tail)
  {}

  /** redactValue with a transformation that changes nothing gives the text back exactly if there is no
      white space in it and every member name is spelled as the encoder spells it. */
  lemma {:induction false} IdleRewriteIsSameIff(j: Json, tf: Transform)
    requires JsonTree.WellFormed(j) && Idle(Value(j), tf)
    ensures RedactText(j, tf).Some? && (RedactText(j, tf).value == Print(j) <==> Compact(j))
  {
    RedactPrints(j, tf);
    IdleRedacts(j, tf);
    if RedactText(j, tf).value == Print(j) {
      SameIsCompact(j, tf, [], []);
    }
  }

  // ------------------------------------------------------------------ whole documents

  /** No addressed string, and nothing in an addressed tool input, is changed. */
  predicate AllIdle(j: Json, paths: seq<Path>, inputs: seq<Path>, tf: Transform)
    requires Strings(j, paths) && Nodes(j, inputs)
  {
    && (forall i | 0 <= i < |paths| :: IsStringAt(j, paths[i]) && tf(Text(Get(j, paths[i]).value.raw)) == Some(Text(Get(j, paths[i]).value.raw)))
    && (forall i | 0 <= i < |inputs| :: IsNodeAt(j, inputs[i]) && Idle(Value(Get(j, inputs[i]).value), tf))
  }

  predicate InputsCompact(j: Json, inputs: seq<Path>, n: nat)
    requires Nodes(j, inputs) && n <= |inputs|
  {
    forall i | 0 <= i < n :: IsNodeAt(j, inputs[i]) && Compact(Get(j, inputs[i]).value)
  }

  lemma IdleString(j: Json, p: Path, tf: Transform)
    requires IsStringAt(j, p) && tf(Text(Get(j, p).value.raw)) == Some(Text(Get(j, p).value.raw))
    ensures StringChange(j, p, tf) == Some([])
  {
    hide IsString, Text, Encoded, Get;
  }

  lemma {:induction false} IdleInput(j: Json, p: Path, tf: Transform)
    requires IsNodeAt(j, p) && Idle(Value(Get(j, p).value), tf)
    ensures InputChange(j, p, tf).Some? && (InputChange(j, p, tf) == Some([]) <==> Compact(Get(j, p).value))
  {
    IdleRewriteIsSameIff(Get(j, p).value, tf);
    hide RedactText, Print, Idle, Compact, Get, Value, JsonTree.WellFormed;
  }

  lemma {:induction false} NothingCollectedIff(j: Json, paths: seq<Path>, inputs: seq<Path>, tf: Transform, n: nat)
    requires n <= |paths| + |inputs| && Strings(j, paths) && Nodes(j, inputs) && AllIdle(j, paths, inputs, tf)
    ensures Collected(j, paths, inputs, tf, n).Some?
    ensures Collected(j, paths, inputs, tf, n) == Some([]) <==> (n > |paths| ==> InputsCompact(j, inputs, n - |paths|))
  {
    hide IsString, Text, Encoded, StringChange, InputChange, Idle, Compact, Get;
    if n > 0 {
      var none: seq<Change> := [];
      ConcatNil(none);
      NothingCollectedIff(j, paths, inputs, tf, n - 1);
      if n > |paths| {
        assert IsNodeAt(j, inputs[n - 1 - |paths|]);
        IdleInput(j, inputs[n - 1 - |paths|], tf);
      } else {
        assert IsStringAt(j, paths[n - 1]);
        IdleString(j, paths[n - 1], tf);
      }
    }
  }

  /** When nothing is changed no byte of the document is, exactly if every tool input is compact. */
  lemma {:induction false} UnchangedIsKeptIff(j: Json, paths: seq<Path>, inputs: seq<Path>, tf: Transform)
    requires Strings(j, paths) && Nodes(j, inputs) && AllIdle(j, paths, inputs, tf)
    ensures AllChanges(j, paths, inputs, tf) == Some([]) <==> InputsCompact(j, inputs, |inputs|)
  {
    hide AllIdle, InputsCompact, Strings, Nodes, Collected;
    NothingCollectedIff(j, paths, inputs, tf, |paths| + |inputs|);
    ByAll(j, paths, inputs, tf);
    NoInputs(j, inputs);
  }

  lemma ByAll(j: Json, paths: seq<Path>, inputs: seq<Path>, tf: Transform)
    requires Strings(j, paths) && Nodes(j, inputs)
    ensures AllChanges(j, paths, inputs, tf) == Collected(j, paths, inputs, tf, |paths| + |inputs|)
  {}

  lemma NoInputs(j: Json, inputs: seq<Path>)
    requires Nodes(j, inputs)
    ensures inputs == [] ==> InputsCompact(j, inputs, |inputs|)
  {}
}

/**
 The slow way of rewriting a document, one path after the other (applyPerPath in
 internal/jsonwalk/walk.go), and its agreement with the single splice.
 */
module JsonPerPath {
  import opened Bytes
  import opened Scanning
  import opened JsonStrings
  import opened JsonTree
  import opened JsonRedact
  import opened JsonSplice
  import opened JsonChanges
  import opened JsonMeans

  /** The document after these changes, made one after the other. */
  function SetAll(j: Json, cs: seq<Change>): Json {
    if cs == [] then j else Set(SetAll(j, cs[..|cs| - 1]), cs[|cs| - 1].path, cs[|cs| - 1].text)
  }

  /** applyPerPath without tool inputs: what is transformed is always the original text. */
  method ApplyPerPath(j: Json, paths: seq<Path>, tf: Transform) returns (out: Option<bytes>)
    requires Strings(j, paths)
    ensures match AllChanges(j, paths, [], tf)
            case None => out.None?
            case Some(cs) => out == Some(Print(SetAll(j, cs)))
    ensures out.Some? <==> AllCovered(j, paths, [], tf)
    ensures JsonTree.WellFormed(j) && Apart(paths) && out.Some? ==>
              Parse(out.value) == Some(Rewritten(Value(j), [], paths, [], tf))
  {
    hide Get, Set, IsString, Text, Encoded, Print, Collected, AllCovered, Apart, Parse, Value, Rewritten, JsonTree.WellFormed;
    var doc := j;
    ChangesIffCovered(j, paths, [], tf);
    NoEdits(j, paths, [], tf);
    ghost var cs: seq<Change> := [];
    for n := 0 to |paths|
      invariant Collected(j, paths, [], tf, n) == Some(cs) && doc == SetAll(j, cs)
    {
      assert IsStringAt(j, paths[n]);
      NextString(j, paths, tf, n, cs);
      var orig := Text(Get(j, paths[n]).value.raw);
      var newVal := tf(orig);
      if newVal.None? {
        FailsForGood(j, paths, [], tf, n + 1, |paths|);
        return None;
      }
      if newVal.value != orig {
        SetSnoc(j, cs, Change(paths[n], Encoded(newVal.value)));
        cs := cs + [Change(paths[n], Encoded(newVal.value))];
        doc := Set(doc, paths[n], Encoded(newVal.value));
      }
    }
    if JsonTree.WellFormed(j) && Apart(paths) {
      SetAllMeans(j, paths, tf);
    }
    return Some(Print(doc));
  }

  lemma {:induction false} SetAllMeans(j: Json, paths: seq<Path>, tf: Transform)
    requires JsonTree.WellFormed(j) && Strings(j, paths) && Apart(paths) && AllChanges(j, paths, [], tf).Some?
    ensures Parse(Print(SetAll(j, AllChanges(j, paths, [], tf).value))) == Some(Rewritten(Value(j), [], paths, [], tf))
  {
    hide *;
    ConcatNil(paths);
    assert Nodes(j, []) by { NoNodes(j); }
    StringChangesAreLeaves(j, paths, tf);
    PerPathReplaces(j, AllChanges(j, paths, [], tf).value);
    ReplacedMeans(j, paths, [], tf);
  }

  lemma NoNodes(j: Json)
    ensures Nodes(j, [])
  {}

  lemma NextString(j: Json, paths: seq<Path>, tf: Transform, n: nat, cs: seq<Change>)
    requires n < |paths| && Strings(j, paths) && Collected(j, paths, [], tf, n) == Some(cs)
    ensures IsStringAt(j, paths[n])
    ensures var orig, next := Text(Get(j, paths[n]).value.raw), Collected(j, paths, [], tf, n + 1);
            match tf(orig)
            case None => next.None?
            case Some(value) => next == Some(if value == orig then cs else cs + [Change(paths[n], Encoded(value))])
  {
    hide Get, IsString, Text, Encoded;
    assert IsStringAt(j, paths[n]);
    ConcatNil(cs);
  }

  lemma {:induction false} SetSnoc(j: Json, cs: seq<Change>, c: Change)
    ensures SetAll(j, cs + [c]) == Set(SetAll(j, cs), c.path, c.text)
  {
    assert (cs + [c])[..|cs|] == cs;
  }

  // ------------------------------------------------------------------ setting one leaf

  predicate LeafAt(j: Json, p: Path) { Get(j, p).Some? && Get(j, p).value.Str? }

  predicate LeafAtItem(items: Items, k: nat, p: Path) { GetItem(items, k, p).Some? && GetItem(items, k, p).value.Str? }

  lemma {:induction false} SetThenGet(j: Json, p: Path, raw: bytes, q: Path)
    requires LeafAt(j, p) && LeafAt(j, q)
    ensures Get(Set(j, p, raw), q) == if p == q then Some(Str(raw)) else Get(j, q)
    decreases j
  {
    if p != [] && q != [] {
      assert p == [p[0]] + p[1..] && q == [q[0]] + q[1..];
      SetItemThenGet(j.items, p[0], p[1..], raw, q[0], q[1..]);
    }
  }

  lemma {:induction false} SetItemThenGet(items: Items, k: nat, p: Path, raw: bytes, l: nat, q: Path)
    requires LeafAtItem(items, k, p) && LeafAtItem(items, l, q)
    ensures GetItem(SetItem(items, k, p, raw), l, q) == if k == l && p == q then Some(Str(raw)) else GetItem(items, l, q)
    decreases items
  {
    if k == 0 && l == 0 {
      SetThenGet(items.value, p, raw, q);
    } else if k > 0 && l > 0 {
      SetItemThenGet(items.more, k - 1, p, raw, l - 1, q);
    }
  }

  /** Setting a leaf that is marked does not change what is written with all marked nodes replaced. */
  lemma {:induction false} SetKeepsNew(j: Json, at: Path, p: Path, raw: bytes, m: Changes)
    requires LeafAt(j, p) && at + p in m
    ensures NewOf(Flatten(Set(j, p, raw), at, m), m) == NewOf(Flatten(j, at, m), m)
    decreases j
  {
    var j' := Set(j, p, raw);
    if at in m {
      OneChunk(Chunk(Print(j), Some(at)), 0, m);
      OneChunk(Chunk(Print(j'), Some(at)), 0, m);
    } else {
      assert at + [] == at;
      SetKeepsNewItems(j.items, at, 0, p, p[0], raw, m);
      var open, close := Chunk([Open(j.named)] + j.pad, None), Chunk([Close(j.named)], None);
      BoxNew(open, FlattenItems(j.items, at, 0, m), close, m);
      BoxNew(open, FlattenItems(j'.items, at, 0, m), close, m);
    }
  }

  lemma {:induction false} SetKeepsNewItems(items: Items, at: Path, n: nat, p: Path, k: nat, raw: bytes, m: Changes)
    requires p != [] && p[0] == n + k && LeafAtItem(items, k, p[1..]) && at + p in m
    ensures NewOf(FlattenItems(SetItem(items, k, p[1..], raw), at, n, m), m) == NewOf(FlattenItems(items, at, n, m), m)
    decreases items
  {
    var items' := SetItem(items, k, p[1..], raw);
    var lead, trail := Chunk(Lead(items), None), Chunk(Trail(items), None);
    ItemNew(lead, Flatten(items.value, at + [n], m), trail, FlattenItems(items.more, at, n + 1, m), m);
    ItemNew(lead, Flatten(items'.value, at + [n], m), trail, FlattenItems(items'.more, at, n + 1, m), m);
    if k == 0 {
      PathSteps(at, p);
      SetKeepsNew(items.value, at + [n], p[1..], raw, m);
    } else {
      SetKeepsNewItems(items.more, at, n + 1, p, k - 1, raw, m);
    }
  }

  // ------------------------------------------------------------------ all leaves set

  /** Every marked node already has its new text. */
  ghost predicate Settled(j: Json, at: Path, m: Changes) {
    forall p: Path | Get(j, p).Some? && at + p in m :: Get(j, p).value == Str(m[at + p])
  }

  ghost predicate SettledItems(items: Items, at: Path, n: nat, m: Changes) {
    forall k: nat, p: Path | GetItem(items, k, p).Some? && at + ([n + k] + p) in m ::
      GetItem(items, k, p).value == Str(m[at + ([n + k] + p)])
  }

  lemma {:induction false} SettledIsReplaced(j: Json, at: Path, m: Changes)
    requires Settled(j, at, m)
    ensures NewOf(Flatten(j, at, m), m) == Print(j)
    decreases j
  {
    if at in m {
      assert at + [] == at && Get(j, []) == Some(j);
      OneChunk(Chunk(Print(j), Some(at)), 0, m);
      ConcatNil(m[at]);
    } else if j.Box? {
      var open, close, inside := Chunk([Open(j.named)] + j.pad, None), Chunk([Close(j.named)], None), FlattenItems(j.items, at, 0, m);
      SettledBox(j, at, m);
      SettledItemsAreReplaced(j.items, at, 0, m);
      FlattenItemsText(j.items, at, 0, m);
      BoxNew(open, inside, close, m);
      BoxText(j.named, j.pad, j.items, inside);
      TextJoins([open], inside + [close]);
      TextJoins(inside, [close]);
      OneChunk(open, 0, m);
      OneChunk(close, 0, m);
    } else {
      OneChunk(Chunk(j.raw, None), 0, m);
      ConcatNil(j.raw);
    }
  }

  lemma SettledBox(j: Json, at: Path, m: Changes)
    requires j.Box? && Settled(j, at, m)
    ensures SettledItems(j.items, at, 0, m)
  {
    forall k: nat, p: Path | GetItem(j.items, k, p).Some? && at + ([0 + k] + p) in m
      ensures GetItem(j.items, k, p).value == Str(m[at + ([0 + k] + p)])
    {
      assert ([0 + k] + p)[1..] == p;
      assert Get(j, [0 + k] + p) == GetItem(j.items, k, p);
    }
  }

  lemma SettledFirst(items: Items, at: Path, n: nat, m: Changes)
    requires items.Item? && SettledItems(items, at, n, m)
    ensures Settled(items.value, at + [n], m) && SettledItems(items.more, at, n + 1, m)
  {
    forall p: Path | Get(items.value, p).Some? && (at + [n]) + p in m
      ensures Get(items.value, p).value == Str(m[(at + [n]) + p])
    {
      ConcatAssoc(at, [n], p);
      assert GetItem(items, 0, p) == Get(items.value, p) && at + ([n + 0] + p) in m;
    }
    forall k: nat, p: Path | GetItem(items.more, k, p).Some? && at + ([n + 1 + k] + p) in m
      ensures GetItem(items.more, k, p).value == Str(m[at + ([n + 1 + k] + p)])
    {
      assert GetItem(items, k + 1, p) == GetItem(items.more, k, p);
      assert [n + (k + 1)] + p == [n + 1 + k] + p;
    }
  }

  lemma {:induction false} SettledItemsAreReplaced(items: Items, at: Path, n: nat, m: Changes)
    requires SettledItems(items, at, n, m)
    ensures NewOf(FlattenItems(items, at, n, m), m) == ItemsTo(items, [])
    decreases items
  {
    if items.Item? {
      SettledFirst(items, at, n, m);
      SettledIsReplaced(items.value, at + [n], m);
      SettledItemsAreReplaced(items.more, at, n + 1, m);
      var lead, trail := Chunk(Lead(items), None), Chunk(Trail(items), None);
      var inside, more := Flatten(items.value, at + [n], m), FlattenItems(items.more, at, n + 1, m);
      ItemNew(lead, inside, trail, more, m);
      FlattenText(items.value, at + [n], m);
      FlattenItemsText(items.more, at, n + 1, m);
      ItemText(items, inside, more);
      TextJoins([lead], inside + ([trail] + more));
      TextJoins(inside, [trail] + more);
      TextJoins([trail], more);
      OneChunk(lead, 0, m);
      OneChunk(trail, 0, m);
      hide *;
    }
  }

  // ------------------------------------------------------------------ any number of changes

  predicate Leaves(j: Json, cs: seq<Change>) {
    forall i | 0 <= i < |cs| :: LeafAt(j, cs[i].path)
  }

  /** After the changes every changed leaf has its new text, and the other leaves their own. */
  lemma {:induction false} SetAllThenGet(j: Json, cs: seq<Change>, q: Path)
    requires Leaves(j, cs) && Separate(cs) && LeafAt(j, q)
    ensures LeafAt(SetAll(j, cs), q)
    ensures forall i | 0 <= i < |cs| && cs[i].path == q :: Get(SetAll(j, cs), q) == Some(Str(cs[i].text))
    ensures !HasPath(cs, q) ==> Get(SetAll(j, cs), q) == Get(j, q)
  {
    if cs != [] {
      var n := |cs| - 1;
      var before, c := cs[..n], cs[n];
      SetAllThenGet(j, before, q);
      SetAllThenGet(j, before, c.path);
      SetThenGet(SetAll(j, before), c.path, c.text, q);
      hide Get, Set, SetAll;
      if HasPath(before, q) {
        var i :| 0 <= i < n && before[i].path == q;
        assert cs[i].path == q;
      }
      forall i | 0 <= i < n && cs[i].path == q
        ensures c.path != q && before[i] == cs[i]
      {
        assert !Nested(cs[i].path, c.path);
      }
      if c.path == q {
        assert HasPath(cs, q);
      }
    }
  }

  lemma {:induction false} SetAllKeepsNew(j: Json, cs: seq<Change>, m: Changes)
    requires Leaves(j, cs) && Separate(cs) && forall i | 0 <= i < |cs| :: cs[i].path in m
    ensures NewOf(Flatten(SetAll(j, cs), [], m), m) == NewOf(Flatten(j, [], m), m)
  {
    if cs != [] {
      var n := |cs| - 1;
      var before, c := cs[..n], cs[n];
      SetAllKeepsNew(j, before, m);
      SetAllThenGet(j, before, c.path);
      assert [] + c.path == c.path;
      SetKeepsNew(SetAll(j, before), [], c.path, c.text, m);
    }
  }

  lemma {:induction false} SetAllSettles(j: Json, cs: seq<Change>)
    requires Leaves(j, cs) && Separate(cs)
    ensures Settled(SetAll(j, cs), [], MapOf(cs))
  {
    var m := MapOf(cs);
    MapHas(cs);
    hide MapOf;
    forall p: Path | Get(SetAll(j, cs), p).Some? && [] + p in m
      ensures Get(SetAll(j, cs), p).value == Str(m[[] + p])
    {
      assert [] + p == p;
      assert HasPath(cs, p);
      var i :| 0 <= i < |cs| && cs[i].path == p;
      assert LeafAt(j, cs[i].path);
      SetAllThenGet(j, cs, p);
    }
  }

  /** Changing leaf after leaf gives the document with all of them replaced at once. */
  lemma {:induction false} PerPathReplaces(j: Json, cs: seq<Change>)
    requires Leaves(j, cs) && Separate(cs)
    ensures Print(SetAll(j, cs)) == Replaced(j, MapOf(cs))
  {
    MapHas(cs);
    SetAllSettles(j, cs);
    SettledIsReplaced(SetAll(j, cs), [], MapOf(cs));
    SetAllKeepsNew(j, cs, MapOf(cs));
  }

  // ------------------------------------------------------------------ any order of the paths

  ghost predicate SameChanges(a: seq<Change>, b: seq<Change>) {
    forall c :: c in a <==> c in b
  }

  lemma {:induction false} SameMap(a: seq<Change>, b: seq<Change>)
    requires Separate(a) && Separate(b) && SameChanges(a, b)
    ensures MapOf(a) == MapOf(b)
  {
    MapHas(a);
    MapHas(b);
    MapWithin(a, b);
    MapWithin(b, a);
  }

  lemma {:induction false} MapWithin(a: seq<Change>, b: seq<Change>)
    requires Describes(MapOf(a), a) && Describes(MapOf(b), b) && SameChanges(a, b)
    ensures forall p | p in MapOf(a) :: p in MapOf(b) && MapOf(a)[p] == MapOf(b)[p]
  {
    hide MapOf;
    forall p | p in MapOf(a)
      ensures p in MapOf(b) && MapOf(a)[p] == MapOf(b)[p]
    {
      assert HasPath(a, p);
      var i :| 0 <= i < |a| && a[i].path == p;
      assert a[i] in b;
      var k :| 0 <= k < |b| && b[k] == a[i];
    }
  }

  lemma CollectedStep(j: Json, paths: seq<Path>, tf: Transform, n: nat)
    requires n < |paths| && Strings(j, paths)
    ensures IsStringAt(j, paths[n])
    ensures Collected(j, paths, [], tf, n + 1) == Both(Collected(j, paths, [], tf, n), StringChange(j, paths[n], tf))
  {}

  lemma BothHave(a: Option<seq<Change>>, b: Option<seq<Change>>)
    ensures Both(a, b).Some? <==> a.Some? && b.Some?
    ensures a.Some? && b.Some? ==> forall c :: c in Both(a, b).value <==> c in a.value || c in b.value
  {}

  predicate Succeeds(j: Json, p: Path, tf: Transform) {
    IsStringAt(j, p) && StringChange(j, p, tf).Some?
  }

  predicate Gives(j: Json, p: Path, tf: Transform, c: Change) {
    Succeeds(j, p, tf) && c in StringChange(j, p, tf).value
  }

  /** The changes are those of the strings. */
  lemma {:induction false} ChangesOfPaths(j: Json, paths: seq<Path>, tf: Transform, n: nat, c: Change)
    requires n <= |paths| && Strings(j, paths)
    requires Collected(j, paths, [], tf, n).Some?
    ensures c in Collected(j, paths, [], tf, n).value <==> exists k :: 0 <= k < n && Gives(j, paths[k], tf, c)
  {
    hide *;
    if n == 0 {
      NoneCollected(j, paths, tf);
    } else {
      CollectsNext(j, paths, tf, n - 1);
      ChangesOfPaths(j, paths, tf, n - 1, c);
      ChangesNext(j, paths, tf, n - 1, c);
    }
  }

  lemma ChangesNext(j: Json, paths: seq<Path>, tf: Transform, n: nat, c: Change)
    requires n < |paths| && Strings(j, paths) && Collected(j, paths, [], tf, n + 1).Some?
    ensures Collected(j, paths, [], tf, n).Some?
    ensures c in Collected(j, paths, [], tf, n + 1).value <==>
              c in Collected(j, paths, [], tf, n).value || Gives(j, paths[n], tf, c)
  {
    CollectedStep(j, paths, tf, n);
    BothHave(Collected(j, paths, [], tf, n), StringChange(j, paths[n], tf));
    hide Collected, StringChange, Both;
  }

  lemma {:induction false} CollectsIff(j: Json, paths: seq<Path>, tf: Transform, n: nat)
    requires n <= |paths| && Strings(j, paths)
    ensures Collected(j, paths, [], tf, n).Some? <==> forall k | 0 <= k < n :: Succeeds(j, paths[k], tf)
  {
    hide *;
    if n == 0 {
      NoneCollected(j, paths, tf);
    } else {
      CollectsIff(j, paths, tf, n - 1);
      CollectsNext(j, paths, tf, n - 1);
    }
  }

  lemma {:induction false} NoneCollected(j: Json, paths: seq<Path>, tf: Transform)
    requires Strings(j, paths)
    ensures Collected(j, paths, [], tf, 0) == Some([])
  {}

  lemma CollectsNext(j: Json, paths: seq<Path>, tf: Transform, n: nat)
    requires n < |paths| && Strings(j, paths)
    ensures Collected(j, paths, [], tf, n + 1).Some? <==> Collected(j, paths, [], tf, n).Some? && Succeeds(j, paths[n], tf)
  {
    CollectedStep(j, paths, tf, n);
    BothHave(Collected(j, paths, [], tf, n), StringChange(j, paths[n], tf));
    hide Collected, StringChange;
  }

  lemma ReorderedChanges(j: Json, paths: seq<Path>, paths': seq<Path>, tf: Transform)
    requires Strings(j, paths) && Strings(j, paths') && forall p :: p in paths <==> p in paths'
    requires AllChanges(j, paths, [], tf).Some?
    ensures AllChanges(j, paths', [], tf).Some?
    ensures forall c | c in AllChanges(j, paths, [], tf).value :: c in AllChanges(j, paths', [], tf).value
  {
    hide Succeeds, Gives, Collected, Strings;
    CollectsIff(j, paths, tf, |paths|);
    CollectsIff(j, paths', tf, |paths'|);
    forall k | 0 <= k < |paths'|
      ensures Succeeds(j, paths'[k], tf)
    {
      assert paths'[k] in paths;
      var i :| 0 <= i < |paths| && paths[i] == paths'[k];
    }
    forall c | c in AllChanges(j, paths, [], tf).value
      ensures c in AllChanges(j, paths', [], tf).value
    {
      ChangesOfPaths(j, paths, tf, |paths|, c);
      var k :| 0 <= k < |paths| && Gives(j, paths[k], tf, c);
      assert paths[k] in paths';
      var i :| 0 <= i < |paths'| && paths'[i] == paths[k];
      ChangesOfPaths(j, paths', tf, |paths'|, c);
    }
  }

  lemma StringChangesAreLeaves(j: Json, paths: seq<Path>, tf: Transform)
    requires Strings(j, paths) && Apart(paths) && AllChanges(j, paths, [], tf).Some?
    ensures var cs := AllChanges(j, paths, [], tf).value; Leaves(j, cs) && Separate(cs)
  {
    hide Collected, Separate, Apart, IsString;
    var cs := AllChanges(j, paths, [], tf).value;
    ConcatNil(paths);
    CollectedFrom(j, paths, [], tf, |paths|);
    forall i | 0 <= i < |cs|
      ensures LeafAt(j, cs[i].path)
    {
      var k :| 0 <= k < |paths| && paths[k] == cs[i].path;
      assert IsStringAt(j, paths[k]);
    }
  }

  // ------------------------------------------------------------------ distinct strings

  lemma {:induction false} NothingBelowString(j: Json, p: Path, q: Path)
    requires LeafAt(j, p) && p < q
    ensures Get(j, q).None?
    decreases j
  {
    if p != [] {
      assert p == [p[0]] + p[1..] && q == [q[0]] + q[1..] && q[0] == p[0];
      assert p[1..] == q[1..][..|p| - 1];
      NothingBelowItem(j.items, p[0], p[1..], q[1..]);
    }
  }

  lemma {:induction false} NothingBelowItem(items: Items, k: nat, p: Path, q: Path)
    requires LeafAtItem(items, k, p) && p < q
    ensures GetItem(items, k, q).None?
    decreases items
  {
    if k == 0 {
      NothingBelowString(items.value, p, q);
    } else {
      NothingBelowItem(items.more, k - 1, p, q);
    }
  }

  /** Different strings of a document are never inside one another. */
  lemma DistinctStringsAreApart(j: Json, paths: seq<Path>)
    requires Strings(j, paths) && j.Box? && forall i, k | 0 <= i < k < |paths| :: paths[i] != paths[k]
    ensures Apart(paths)
  {
    forall i, k | 0 <= i < k < |paths|
      ensures !Nested(paths[i], paths[k])
    {
      assert IsStringAt(j, paths[i]) && IsStringAt(j, paths[k]);
      if paths[i] < paths[k] {
        NothingBelowString(j, paths[i], paths[k]);
      } else if paths[k] < paths[i] {
        NothingBelowString(j, paths[k], paths[i]);
      }
    }
    forall i | 0 <= i < |paths|
      ensures paths[i] != []
    {
      assert IsStringAt(j, paths[i]);
    }
  }

  /** One splice at the offsets of the original document gives the bytes that rewriting the document
      path by path gives, in whatever order the paths are taken; and both fail together. */
  lemma {:induction false} SpliceEqualsPerPath(j: Json, paths: seq<Path>, paths': seq<Path>, tf: Transform)
    requires Strings(j, paths) && Strings(j, paths') && j.Box?
    requires forall i, k | 0 <= i < k < |paths| :: paths[i] != paths[k]
    requires forall i, k | 0 <= i < k < |paths'| :: paths'[i] != paths'[k]
    requires forall p :: p in paths <==> p in paths'
    ensures AllChanges(j, paths, [], tf).Some? <==> AllChanges(j, paths', [], tf).Some?
    ensures AllChanges(j, paths, [], tf).Some? ==>
              Replaced(j, MapOf(AllChanges(j, paths, [], tf).value)) == Print(SetAll(j, AllChanges(j, paths', [], tf).value))
  {
    hide Get, Strings, Apart, Separate, Leaves, Replaced, MapOf, SetAll, Print, Collected;
    DistinctStringsAreApart(j, paths);
    DistinctStringsAreApart(j, paths');
    if AllChanges(j, paths, [], tf).Some? {
      ReorderedChanges(j, paths, paths', tf);
      ReorderedChanges(j, paths', paths, tf);
      var cs, cs' := AllChanges(j, paths, [], tf).value, AllChanges(j, paths', [], tf).value;
      StringChangesAreLeaves(j, paths, tf);
      StringChangesAreLeaves(j, paths', tf);
      SameMap(cs, cs');
      PerPathReplaces(j, cs');
    } else if AllChanges(j, paths', [], tf).Some? {
      ReorderedChanges(j, paths', paths, tf);
    }
  }
}

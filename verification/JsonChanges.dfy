/**
 The changes that rewriting a document makes (apply and applyPerPath in internal/jsonwalk/walk.go), from
 the paths of its strings and of its tool inputs, and the edits they come to.
 */
module JsonChanges {
  import opened Bytes
  import opened Scanning
  import opened Splicing
  import opened JsonStrings
  import opened JsonTree
  import opened JsonRedact
  import opened JsonSplice

  /** A node and the text that replaces it. */
  datatype Change = Change(path: Path, text: bytes)

  /** Every path leads to a string. */
  predicate Strings(j: Json, paths: seq<Path>) {
    forall i | 0 <= i < |paths| :: IsStringAt(j, paths[i])
  }

  predicate IsStringAt(j: Json, p: Path) {
    Get(j, p).Some? && Get(j, p).value.Str? && IsString(Get(j, p).value.raw)
  }

  predicate Nodes(j: Json, paths: seq<Path>) {
    forall i | 0 <= i < |paths| :: IsNodeAt(j, paths[i])
  }

  predicate IsNodeAt(j: Json, p: Path) {
    Get(j, p).Some? && JsonTree.WellFormed(Get(j, p).value)
  }

  /** The change of one string, if it changes; None if the transformation fails. */
  function StringChange(j: Json, p: Path, tf: Transform): Option<seq<Change>>
    requires IsStringAt(j, p)
  {
    var orig := Text(Get(j, p).value.raw);
    match tf(orig)
    case None => None
    case Some(t) => Some(if t == orig then [] else [Change(p, Encoded(t))])
  }

  /** A tool input is rewritten as a whole. */
  function InputChange(j: Json, p: Path, tf: Transform): Option<seq<Change>>
    requires IsNodeAt(j, p)
  {
    match RedactText(Get(j, p).value, tf)
    case None => None
    case Some(t) => Some(if t == Print(Get(j, p).value) then [] else [Change(p, t)])
  }

  function Both(a: Option<seq<Change>>, b: Option<seq<Change>>): Option<seq<Change>> {
    if a.None? || b.None? then None else Some(a.value + b.value)
  }

  predicate Exist(j: Json, cs: seq<Change>) {
    forall i | 0 <= i < |cs| :: Get(j, cs[i].path).Some?
  }

  /** The changes of the first n paths: first the strings, then the tool inputs. */
  function Collected(j: Json, paths: seq<Path>, inputs: seq<Path>, tf: Transform, n: nat): (cs: Option<seq<Change>>)
    requires n <= |paths| + |inputs| && Strings(j, paths) && Nodes(j, inputs)
    ensures cs.Some? ==> Exist(j, cs.value)
  {
    if n == 0 then Some([])
    else
      Both(Collected(j, paths, inputs, tf, n - 1),
           if n <= |paths| then StringChange(j, paths[n - 1], tf) else InputChange(j, inputs[n - 1 - |paths|], tf))
  }

  function AllChanges(j: Json, paths: seq<Path>, inputs: seq<Path>, tf: Transform): Option<seq<Change>>
    requires Strings(j, paths) && Nodes(j, inputs)
  {
    Collected(j, paths, inputs, tf, |paths| + |inputs|)
  }

  // ------------------------------------------------------------------ apply

  /** Where a change goes, read from the original document. */
  function EditOf(j: Json, c: Change): Edit
    requires Get(j, c.path).Some?
  {
    Edit(Offset(j, c.path), Offset(j, c.path) + |Print(Get(j, c.path).value)|, c.text)
  }

  function EditsFor(j: Json, cs: seq<Change>): (edits: seq<Edit>)
    requires Exist(j, cs)
    ensures |edits| == |cs| && forall i | 0 <= i < |cs| :: edits[i] == EditOf(j, cs[i])
  {
    if cs == [] then [] else [EditOf(j, cs[0])] + EditsFor(j, cs[1..])
  }

  function MapOf(cs: seq<Change>): Changes {
    if cs == [] then map[] else MapOf(cs[..|cs| - 1])[cs[|cs| - 1].path := cs[|cs| - 1].text]
  }

  /** No changed node is inside another, or changed twice. */
  predicate Separate(cs: seq<Change>) {
    forall i, k | 0 <= i < k < |cs| :: !Nested(cs[i].path, cs[k].path)
  }

  ghost predicate HasPath(cs: seq<Change>, p: Path) {
    exists i :: 0 <= i < |cs| && cs[i].path == p
  }

  /** The map holds these changes and no others. */
  ghost predicate Describes(m: Changes, cs: seq<Change>) {
    && (forall i | 0 <= i < |cs| :: cs[i].path in m && m[cs[i].path] == cs[i].text)
    && (forall p | p in m :: HasPath(cs, p))
  }

  lemma {:induction false} MapHas(cs: seq<Change>)
    requires Separate(cs)
    ensures Describes(MapOf(cs), cs)
  {
    if cs != [] {
      hide Describes;
      var n := |cs| - 1;
      MapHas(cs[..n]);
      OneMoreChange(MapOf(cs[..n]), cs);
    } else {
      assert MapOf(cs) == map[];
    }
  }

  lemma OneMoreChange(m: Changes, cs: seq<Change>)
    requires cs != [] && Separate(cs) && Describes(m, cs[..|cs| - 1])
    ensures Describes(m[cs[|cs| - 1].path := cs[|cs| - 1].text], cs)
  {
    var n := |cs| - 1;
    var c := cs[n];
    forall i | 0 <= i < n
      ensures cs[i].path != c.path && cs[i].path in m && m[cs[i].path] == cs[i].text
    {
      assert !Nested(cs[i].path, c.path);
      assert cs[..n][i] == cs[i];
    }
    assert HasPath(cs, c.path);
    forall p | HasPath(cs[..n], p)
      ensures HasPath(cs, p)
    {
      var i :| 0 <= i < n && cs[..n][i].path == p;
      assert cs[i].path == p;
    }
  }

  lemma {:induction false} PrintIsSomething(j: Json)
    requires JsonTree.WellFormed(j)
    ensures Print(j) != []
  {
    ValueStarts(j, []);
  }

  predicate Solid(j: Json, cs: seq<Change>)
    requires Exist(j, cs)
  {
    forall i | 0 <= i < |cs| :: Print(Get(j, cs[i].path).value) != []
  }

  lemma {:induction false} StartsDiffer(j: Json, cs: seq<Change>)
    requires Exist(j, cs) && Solid(j, cs) && Separate(cs)
    ensures DifferentStarts(EditsFor(j, cs))
  {
    forall i, k | 0 <= i < k < |cs|
      ensures EditOf(j, cs[i]).start != EditOf(j, cs[k]).start
    {
      NodesApart(j, cs[i].path, cs[k].path);
      assert Print(Get(j, cs[i].path).value) != [] && Print(Get(j, cs[k].path).value) != [];
    }
  }

  lemma {:induction false} NothingOnTop(cs: seq<Change>, i: nat)
    requires Separate(cs) && i < |cs|
    ensures OnTop(MapOf(cs), [], cs[i].path)
  {
    MapHas(cs);
    hide MapOf;
    var p := cs[i].path;
    forall n | 0 <= n < |p|
      ensures [] + p[..n] !in MapOf(cs)
    {
      assert [] + p[..n] == p[..n];
      NotAPrefix(cs, i, n);
    }
  }

  lemma NotAPrefix(cs: seq<Change>, i: nat, n: nat)
    requires Separate(cs) && i < |cs| && n < |cs[i].path|
    ensures !HasPath(cs, cs[i].path[..n])
  {
    forall k | 0 <= k < |cs|
      ensures cs[k].path != cs[i].path[..n]
    {
      if k < i {
        assert !Nested(cs[k].path, cs[i].path);
      } else if i < k {
        assert !Nested(cs[i].path, cs[k].path);
      }
    }
  }

  lemma {:induction false} ChangeIsInDocument(j: Json, cs: seq<Change>, i: nat)
    requires Exist(j, cs) && Separate(cs) && i < |cs|
    ensures HasEdit(DocumentEdits(j, MapOf(cs)), EditOf(j, cs[i]))
  {
    MapHas(cs);
    NothingOnTop(cs, i);
    assert [] + cs[i].path == cs[i].path;
    hide MapOf, EditsOf, Flatten;
    NodeHasEdit(j, [], cs[i].path, 0, MapOf(cs));
  }

  lemma {:induction false} DocumentHasOnlyChanges(j: Json, cs: seq<Change>, e: Edit)
    requires Exist(j, cs) && Separate(cs) && HasEdit(DocumentEdits(j, MapOf(cs)), e)
    ensures HasEdit(EditsFor(j, cs), e)
  {
    var m, edits := MapOf(cs), EditsFor(j, cs);
    MapHas(cs);
    hide MapOf, EditsOf, Flatten;
    EditIsNode(j, [], 0, m, e);
    var p :| Get(j, p).Some? && [] + p in m && e == EditAt(j, [], p, 0, m);
    assert [] + p == p && HasPath(cs, p);
    var i :| 0 <= i < |cs| && cs[i].path == p;
    assert edits[i] == e;
  }

  lemma {:induction false} EditsAreDocumentEdits(j: Json, cs: seq<Change>)
    requires Exist(j, cs) && Separate(cs)
    ensures SameEdits(EditsFor(j, cs), DocumentEdits(j, MapOf(cs)))
  {
    hide MapOf, DocumentEdits;
    var edits := EditsFor(j, cs);
    forall e
      ensures HasEdit(edits, e) <==> HasEdit(DocumentEdits(j, MapOf(cs)), e)
    {
      if HasEdit(edits, e) {
        var i :| 0 <= i < |edits| && edits[i] == e;
        ChangeIsInDocument(j, cs, i);
      }
      if HasEdit(DocumentEdits(j, MapOf(cs)), e) {
        DocumentHasOnlyChanges(j, cs, e);
      }
    }
  }

  lemma {:induction false} OrderedAscends(edits: seq<Edit>, last: nat, n: nat)
    requires Ordered(edits, last, n) && forall i | 0 <= i < |edits| :: edits[i].start < edits[i].end
    ensures Ascending(edits)
  {
    if edits != [] {
      OrderedAscends(edits[1..], edits[0].end, n);
      OrderedBound(edits[1..], edits[0].end, n);
    }
  }

  lemma {:induction false} DocumentAscends(j: Json, cs: seq<Change>)
    requires Exist(j, cs) && Solid(j, cs) && Separate(cs)
    ensures Ascending(DocumentEdits(j, MapOf(cs)))
  {
    var edits, doc := EditsFor(j, cs), DocumentEdits(j, MapOf(cs));
    EditsAreDocumentEdits(j, cs);
    SpliceReplaces(j, MapOf(cs));
    forall k | 0 <= k < |doc|
      ensures doc[k].start < doc[k].end
    {
      assert HasEdit(doc, doc[k]);
      var i :| 0 <= i < |edits| && edits[i] == doc[k];
      assert Print(Get(j, cs[i].path).value) != [];
    }
    OrderedAscends(doc, 0, |Print(j)|);
  }

  /** Sorted by their start, the changes are the document's own edits, one behind the other. */
  lemma {:induction false} SortedAreDocumentEdits(j: Json, cs: seq<Change>)
    requires Exist(j, cs) && Solid(j, cs) && Separate(cs)
    ensures SortEdits(EditsFor(j, cs)) == DocumentEdits(j, MapOf(cs))
    ensures Ordered(SortEdits(EditsFor(j, cs)), 0, |Print(j)|)
  {
    var edits, doc := EditsFor(j, cs), DocumentEdits(j, MapOf(cs));
    StartsDiffer(j, cs);
    SortAscends(edits);
    EditsAreDocumentEdits(j, cs);
    forall e
      ensures HasEdit(SortEdits(edits), e) <==> HasEdit(doc, e)
    {
      SortHas(edits, e);
    }
    DocumentAscends(j, cs);
    AscendingIsUnique(SortEdits(edits), doc);
    SpliceReplaces(j, MapOf(cs));
  }

  // ------------------------------------------------------------------ the changes of a document

  /** No path leads on from another, and none is the whole document. */
  predicate Apart(paths: seq<Path>) {
    && (forall i, k | 0 <= i < k < |paths| :: !Nested(paths[i], paths[k]))
    && (forall i | 0 <= i < |paths| :: paths[i] != [])
  }

  /** Changes of some of the first n paths. */
  ghost predicate From(j: Json, cs: seq<Change>, paths: seq<Path>, n: nat)
    requires n <= |paths|
  {
    forall i | 0 <= i < |cs| :: IsNodeAt(j, cs[i].path) && exists k :: 0 <= k < n && paths[k] == cs[i].path
  }

  lemma OneMorePath(j: Json, cs: seq<Change>, more: seq<Change>, paths: seq<Path>, n: nat)
    requires n < |paths| && Apart(paths) && From(j, cs, paths, n) && Separate(cs)
    requires IsNodeAt(j, paths[n]) && |more| <= 1 && (more != [] ==> more[0].path == paths[n])
    ensures From(j, cs + more, paths, n + 1) && Separate(cs + more)
  {
    var all := cs + more;
    forall i | 0 <= i < |cs|
      ensures !Nested(all[i].path, paths[n]) && IsNodeAt(j, all[i].path)
      ensures exists k :: 0 <= k < n + 1 && paths[k] == all[i].path
    {
      assert all[i] == cs[i];
      var k :| 0 <= k < n && paths[k] == cs[i].path;
    }
    forall i, k | 0 <= i < k < |all|
      ensures !Nested(all[i].path, all[k].path)
    {
      if k < |cs| {
        assert all[i] == cs[i] && all[k] == cs[k];
      }
    }
  }

  lemma {:induction false} CollectedFrom(j: Json, paths: seq<Path>, inputs: seq<Path>, tf: Transform, n: nat)
    requires n <= |paths| + |inputs| && Strings(j, paths) && Nodes(j, inputs) && Apart(paths + inputs)
    requires Collected(j, paths, inputs, tf, n).Some?
    ensures From(j, Collected(j, paths, inputs, tf, n).value, paths + inputs, n)
    ensures Separate(Collected(j, paths, inputs, tf, n).value)
  {
    hide From, Separate, Apart, IsString, RedactText, Print;
    if n == 0 {
      NothingFrom(j, paths + inputs);
    } else {
      CollectedFrom(j, paths, inputs, tf, n - 1);
      var cs := Collected(j, paths, inputs, tf, n - 1).value;
      var more := if n <= |paths| then StringChange(j, paths[n - 1], tf).value else InputChange(j, inputs[n - 1 - |paths|], tf).value;
      assert (paths + inputs)[n - 1] == if n <= |paths| then paths[n - 1] else inputs[n - 1 - |paths|];
      assert IsNodeAt(j, (paths + inputs)[n - 1]);
      OneMorePath(j, cs, more, paths + inputs, n - 1);
    }
  }

  lemma NothingFrom(j: Json, paths: seq<Path>)
    ensures From(j, [], paths, 0) && Separate([])
  {}

  lemma FromIsSolid(j: Json, cs: seq<Change>, paths: seq<Path>)
    requires From(j, cs, paths, |paths|)
    ensures Exist(j, cs) && Solid(j, cs)
  {
    forall i | 0 <= i < |cs|
      ensures Print(Get(j, cs[i].path).value) != []
    {
      PrintIsSomething(Get(j, cs[i].path).value);
    }
  }

  /** All that apply needs to know of its changes. */
  lemma {:induction false} ChangesFit(j: Json, paths: seq<Path>, inputs: seq<Path>, tf: Transform)
    requires Strings(j, paths) && Nodes(j, inputs) && Apart(paths + inputs) && AllChanges(j, paths, inputs, tf).Some?
    ensures var cs := AllChanges(j, paths, inputs, tf).value;
            Exist(j, cs) && Solid(j, cs) && Separate(cs) && Ordered(SortEdits(EditsFor(j, cs)), 0, |Print(j)|)
  {
    var cs := AllChanges(j, paths, inputs, tf).value;
    CollectedFrom(j, paths, inputs, tf, |paths| + |inputs|);
    hide *;
    assert |paths + inputs| == |paths| + |inputs|;
    FromIsSolid(j, cs, paths + inputs);
    SortedAreDocumentEdits(j, cs);
  }

  /** The edits of the first n paths, at the offsets of the original document. */
  function EditsUpTo(j: Json, paths: seq<Path>, inputs: seq<Path>, tf: Transform, n: nat): Option<seq<Edit>>
    requires n <= |paths| + |inputs| && Strings(j, paths) && Nodes(j, inputs)
  {
    var cs := Collected(j, paths, inputs, tf, n);
    if cs.None? then None else Some(EditsFor(j, cs.value))
  }

  lemma NextEdit(j: Json, paths: seq<Path>, inputs: seq<Path>, tf: Transform, n: nat)
    requires n < |paths| + |inputs| && Strings(j, paths) && Nodes(j, inputs)
    ensures var p := if n < |paths| then paths[n] else inputs[n - |paths|];
            var change := if n < |paths| then StringChange(j, p, tf) else InputChange(j, p, tf);
            var before, after := EditsUpTo(j, paths, inputs, tf, n), EditsUpTo(j, paths, inputs, tf, n + 1);
            && (before.Some? && change == Some([]) ==> after == before)
            && (before.Some? && change.Some? && change.value != [] ==> after == Some(before.value + [EditOf(j, change.value[0])]))
            && (change.None? ==> after.None?)
  {
    hide RedactText, IsString, Print, EditsFor, Get, EditOf;
    var cs := Collected(j, paths, inputs, tf, n);
    var change := if n < |paths| then StringChange(j, paths[n], tf) else InputChange(j, inputs[n - |paths|], tf);
    if cs.Some? && change.Some? {
      if change.value == [] {
        ConcatNil(cs.value);
      } else {
        EditsSnoc(j, cs.value, change.value[0]);
      }
    }
  }

  lemma NoEdits(j: Json, paths: seq<Path>, inputs: seq<Path>, tf: Transform)
    requires Strings(j, paths) && Nodes(j, inputs)
    ensures EditsUpTo(j, paths, inputs, tf, 0) == Some([])
  {}

  lemma {:induction false} FailsForGood(j: Json, paths: seq<Path>, inputs: seq<Path>, tf: Transform, n: nat, k: nat)
    requires n <= k <= |paths| + |inputs| && Strings(j, paths) && Nodes(j, inputs)
    requires Collected(j, paths, inputs, tf, n).None?
    ensures Collected(j, paths, inputs, tf, k).None?
  {
    hide StringChange, InputChange, Strings, Nodes, Exist;
    if n < k {
      FailsForGood(j, paths, inputs, tf, n, k - 1);
    }
  }

  lemma {:induction false} EditsSnoc(j: Json, cs: seq<Change>, c: Change)
    requires Exist(j, cs) && Get(j, c.path).Some?
    ensures Exist(j, cs + [c]) && EditsFor(j, cs + [c]) == EditsFor(j, cs) + [EditOf(j, c)]
  {
    var a, b := EditsFor(j, cs + [c]), EditsFor(j, cs) + [EditOf(j, c)];
    assert Exist(j, cs + [c]);
    hide EditsFor, Get, EditOf;
    forall i | 0 <= i < |a|
      ensures a[i] == b[i]
    {
      assert (cs + [c])[i] == if i < |cs| then cs[i] else c;
    }
  }
}

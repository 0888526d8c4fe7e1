/**
 apply (internal/jsonwalk/walk.go): all edits read from the original document, sorted and spliced once.
 */
module JsonApply {
  import opened Bytes
  import opened Scanning
  import opened Splicing
  import opened JsonStrings
  import opened JsonTree
  import opened JsonRedact
  import opened JsonSplice
  import opened JsonChanges
  import opened JsonMeans

  method ReadStrings(j: Json, paths: seq<Path>, inputs: seq<Path>, tf: Transform) returns (edits: Option<seq<Edit>>)
    requires Strings(j, paths) && Nodes(j, inputs)
    ensures edits == EditsUpTo(j, paths, inputs, tf, |paths|)
  {
    hide Get, Offset, IsString, Text, Collected, Encoded, Print;
    var found: seq<Edit> := [];
    NoEdits(j, paths, inputs, tf);
    for n := 0 to |paths|
      invariant EditsUpTo(j, paths, inputs, tf, n) == Some(found)
    {
      assert IsStringAt(j, paths[n]);
      NextEdit(j, paths, inputs, tf, n);
      var node := Get(j, paths[n]).value;
      var orig := Text(node.raw);
      var newVal := tf(orig);
      if newVal.None? {
        FailsForGood(j, paths, inputs, tf, n + 1, |paths|);
        return None;
      }
      if newVal.value != orig {
        var start := Offset(j, paths[n]);
        found := found + [Edit(start, start + |Print(node)|, Encoded(newVal.value))];
      }
    }
    return Some(found);
  }

  method ReadInputs(j: Json, paths: seq<Path>, inputs: seq<Path>, tf: Transform, before: seq<Edit>) returns (edits: Option<seq<Edit>>)
    requires Strings(j, paths) && Nodes(j, inputs) && EditsUpTo(j, paths, inputs, tf, |paths|) == Some(before)
    ensures edits == EditsUpTo(j, paths, inputs, tf, |paths| + |inputs|)
  {
    hide Get, Offset, RedactText, IsString, Collected, Print;
    var found := before;
    for i := 0 to |inputs|
      invariant EditsUpTo(j, paths, inputs, tf, |paths| + i) == Some(found)
    {
      assert IsNodeAt(j, inputs[i]);
      NextEdit(j, paths, inputs, tf, |paths| + i);
      var node := Get(j, inputs[i]).value;
      var newRaw := RedactText(node, tf);
      if newRaw.None? {
        FailsForGood(j, paths, inputs, tf, |paths| + i + 1, |paths| + |inputs|);
        return None;
      }
      if newRaw.value != Print(node) {
        var start := Offset(j, inputs[i]);
        found := found + [Edit(start, start + |Print(node)|, newRaw.value)];
      }
    }
    return Some(found);
  }

  /** apply: read everything from the original, sort, splice once. It fails exactly if the transformation
      fails on some string at a path or in a tool input; the result is the document with every changed node
      replaced and every other byte copied, and it is read as the original with the strings at the paths and
      everything in the tool inputs transformed. */
  method Apply(j: Json, paths: seq<Path>, inputs: seq<Path>, tf: Transform) returns (out: Option<bytes>)
    requires JsonTree.WellFormed(j) && Strings(j, paths) && Nodes(j, inputs) && Apart(paths + inputs)
    ensures match AllChanges(j, paths, inputs, tf)
            case None => out.None?
            case Some(cs) => out == Some(Replaced(j, MapOf(cs)))
    ensures out.Some? <==> AllCovered(j, paths, inputs, tf)
    ensures out.Some? ==> Parse(out.value) == Some(Rewritten(Value(j), [], paths, inputs, tf))
  {
    hide Apart, Replaced, SortEdits, Ordered, Collected, MapOf, Nested, AllCovered, Strings, Nodes, Parse, Value, Rewritten, JsonTree.WellFormed;
    ChangesIffCovered(j, paths, inputs, tf);
    var edits := ReadStrings(j, paths, inputs, tf);
    if edits.None? {
      FailsForGood(j, paths, inputs, tf, |paths|, |paths| + |inputs|);
      return None;
    }
    edits := ReadInputs(j, paths, inputs, tf, edits.value);
    if edits.None? {
      return None;
    }
    SortedSplice(j, paths, inputs, tf, edits.value);
    ReplacedMeans(j, paths, inputs, tf);
    var text := SpliceAll(Print(j), SortEdits(edits.value));
    return Some(text);
  }

  lemma {:induction false} SortedSplice(j: Json, paths: seq<Path>, inputs: seq<Path>, tf: Transform, edits: seq<Edit>)
    requires Strings(j, paths) && Nodes(j, inputs) && Apart(paths + inputs)
    requires EditsUpTo(j, paths, inputs, tf, |paths| + |inputs|) == Some(edits)
    ensures Ordered(SortEdits(edits), 0, |Print(j)|)
    ensures Splice(Print(j), SortEdits(edits), 0) == Replaced(j, MapOf(AllChanges(j, paths, inputs, tf).value))
  {
    hide Apart, Replaced, SortEdits, Ordered, Collected, MapOf, Splice, Separate, Solid, Strings, Nodes, Print, DocumentEdits;
    ChangesFit(j, paths, inputs, tf);
    var cs := AllChanges(j, paths, inputs, tf).value;
    SortedAreDocumentEdits(j, cs);
    SpliceReplaces(j, MapOf(cs));
  }

}

/**
 Replacing ranges of a text by tokens and then restoring the tokens: when the search finds the
 replacements and nothing else, the text is back (applyDetections and replaceFirstNonEmptyGroup in
 internal/redact/engine.go).
 */
module WriteBack {
  import opened Bytes
  import opened Scanning
  import opened Restore
  import opened Splicing
  import opened SingleToken

  /** Where the replacements stand in an output that begins at off. */
  function Places(text: bytes, edits: seq<Edit>, last: nat, off: nat): seq<Group>
    requires Ordered(edits, last, |text|)
  {
    if edits == [] then []
    else
      var start := off + (edits[0].start - last);
      var end := start + |edits[0].text|;
      [Group(start, end)] + Places(text, edits[1..], edits[0].end, end)
  }

  /** The rule turns every replacement into what it replaced. */
  predicate Undoes(r: Rule, text: bytes, edits: seq<Edit>) {
    forall k | 0 <= k < |edits| :: UndoesOne(r, text, edits[k])
  }

  predicate UndoesOne(r: Rule, text: bytes, e: Edit) {
    e.start <= e.end <= |text| && r.repl(e.text) == text[e.start..e.end] && r.echo(e.text) == []
  }

  lemma {:induction false} PlacesAreWithin(text: bytes, edits: seq<Edit>, last: nat, out: bytes, off: nat)
    requires Ordered(edits, last, |text|) && off <= |out| && out[off..] == Splice(text, edits, last)
    ensures Within(Places(text, edits, last, off), |out|)
  {
    if edits != [] {
      var off' := FirstPlace(text, edits, last, out, off);
      PlacesAreWithin(text, edits[1..], edits[0].end, out, off');
    }
  }

  lemma FirstPlace(text: bytes, edits: seq<Edit>, last: nat, out: bytes, off: nat) returns (off': nat)
    requires Ordered(edits, last, |text|) && off <= |out| && out[off..] == Splice(text, edits, last) && edits != []
    ensures var start := off + (edits[0].start - last);
            && off <= start <= off' <= |out| && off' == start + |edits[0].text|
            && edits[0].start <= edits[0].end <= |text|
            && out[off..start] == text[last..edits[0].start]
            && out[start..off'] == edits[0].text
            && out[off'..] == Splice(text, edits[1..], edits[0].end)
  {
    OrderedBound(edits, last, |text|);
    var e, rest := edits[0], Splice(text, edits[1..], edits[0].end);
    var start := off + (e.start - last);
    off' := start + |e.text|;
    assert out[off..] == text[last..e.start] + e.text + rest;
    hide Splice, Ordered;
    var tail := out[off..];
    assert |text[last..e.start]| == start - off;
    assert out[off..start] == tail[..start - off];
    assert out[start..off'] == tail[start - off..off' - off];
    assert out[off'..] == tail[off' - off..];
  }

  /** The search finds exactly the replacements: then writing back gives the text. */
  lemma {:induction false} WritesBack(r: Rule, text: bytes, edits: seq<Edit>, last: nat, out: bytes, off: nat)
    requires Ordered(edits, last, |text|) && off <= |out| && out[off..] == Splice(text, edits, last)
    requires Undoes(r, text, edits)
    ensures last <= |text| && Within(Places(text, edits, last, off), |out|)
    ensures Write(r, out, Places(text, edits, last, off), off) == text[last..]
  {
    hide Undoes, UndoesOne, Write, Splice, Within, Places, EchoEnd;
    OrderedBound(edits, last, |text|);
    PlacesAreWithin(text, edits, last, out, off);
    if edits == [] {
      NothingToWrite(r, text, last, out, off);
    } else {
      var e := edits[0];
      var off' := FirstPlace(text, edits, last, out, off);
      UndoesFirst(r, text, edits);
      WritesBack(r, text, edits[1..], e.end, out, off');
      PlacesCons(text, edits, last, off, off');
      WritesOneBack(r, text, e, last, out, off, Places(text, edits[1..], e.end, off'));
    }
  }

  lemma NothingToWrite(r: Rule, text: bytes, last: nat, out: bytes, off: nat)
    requires last <= |text| && off <= |out| && out[off..] == Splice(text, [], last)
    ensures Write(r, out, Places(text, [], last, off), off) == text[last..]
  {}

  lemma UndoesFirst(r: Rule, text: bytes, edits: seq<Edit>)
    requires Undoes(r, text, edits) && edits != []
    ensures UndoesOne(r, text, edits[0]) && Undoes(r, text, edits[1..])
  {
    forall k | 0 <= k < |edits[1..]|
      ensures UndoesOne(r, text, edits[1..][k])
    {
      assert edits[1..][k] == edits[k + 1];
    }
  }

  lemma PlacesCons(text: bytes, edits: seq<Edit>, last: nat, off: nat, off': nat)
    requires Ordered(edits, last, |text|) && edits != [] && off' == off + (edits[0].start - last) + |edits[0].text|
    ensures Places(text, edits, last, off)
         == [Group(off + (edits[0].start - last), off')] + Places(text, edits[1..], edits[0].end, off')
  {}

  lemma WritesOneBack(r: Rule, text: bytes, e: Edit, last: nat, out: bytes, off: nat, rest: seq<Group>)
    requires last <= e.start && UndoesOne(r, text, e) && Within(rest, |out|)
    requires var start := off + (e.start - last); var off' := start + |e.text|;
             && off' <= |out| && out[off..start] == text[last..e.start] && out[start..off'] == e.text
             && Write(r, out, rest, off') == text[e.end..]
    ensures var start := off + (e.start - last);
            && Within([Group(start, start + |e.text|)] + rest, |out|)
            && Write(r, out, [Group(start, start + |e.text|)] + rest, off) == text[last..]
  {
    var start := off + (e.start - last);
    var g := Group(start, start + |e.text|);
    EchoIsEmpty(r, out, g, e.text);
    hide EchoEnd, Write;
    WriteCons(r, out, g, rest, off);
    assert text[last..] == text[last..e.start] + text[e.start..e.end] + text[e.end..];
  }

  lemma EchoIsEmpty(r: Rule, out: bytes, g: Group, token: bytes)
    requires g.start <= g.end <= |out| && out[g.start..g.end] == token && r.echo(token) == []
    ensures EchoEnd(r, out, g) == g.end
  {}

  lemma FoundIsWrittenBack(p: Pass, text: bytes, edits: seq<Edit>)
    requires Proper(p) && Ordered(edits, 0, |text|) && Undoes(p.rule, text, edits)
    requires Groups(p.alts, Splice(text, edits, 0)) == Places(text, edits, 0, 0)
    ensures RunPass(p, Splice(text, edits, 0)) == text
  {
    var out := Splice(text, edits, 0);
    assert out[0..] == out && text[0..] == text;
    WritesBack(p.rule, text, edits, 0, out, 0);
  }

  // ------------------------------------------------------------------ when the search finds them

  /** One after the other, none empty, and no two of them next to each other. */
  predicate Gapped(gs: seq<Group>, n: nat) {
    forall i | 0 <= i < |gs| ::
      && gs[i].start < gs[i].end <= n
      && forall j | i < j < |gs| :: gs[i].end < gs[j].start
  }

  /** Some shape fits at g, all of it. */
  predicate Fits(alt: Alt, text: bytes, g: Group) {
    g.start <= g.end <= |text| && AltLen(alt, text[g.start..]) == Some(g.end - g.start) && LeftFits(alt, text, g.start)
  }

  predicate SomeFits(alts: seq<Alt>, text: bytes, g: Group) {
    exists alt | alt in alts :: Fits(alt, text, g)
  }

  /** The places are all that the text shows of any of the shapes. */
  ghost predicate ShowsJust(alts: seq<Alt>, text: bytes, gs: seq<Group>) {
    forall g :: SomeFits(alts, text, g) <==> g in gs
  }

  lemma OneFits(alt: Alt, text: bytes, q: nat)
    requires q <= |text| && OneAt(alt, text, q).Some?
    ensures var g := OneAt(alt, text, q).value; Fits(alt, text, g) && (g.start == q || g.start == q + 1)
  {
    hide AltLen;
    assert text[0..] == text;
  }

  lemma {:induction false} FoundFits(alts: seq<Alt>, text: bytes, q: nat)
    requires q <= |text| && MatchAt(alts, text, q).Some?
    ensures var g := MatchAt(alts, text, q).value; SomeFits(alts, text, g) && (g.start == q || g.start == q + 1)
  {
    hide Fits, OneAt;
    if OneAt(alts[0], text, q).Some? {
      OneFits(alts[0], text, q);
      assert alts[0] in alts;
    } else {
      FoundFits(alts[1..], text, q);
      var alt :| alt in alts[1..] && Fits(alt, text, MatchAt(alts, text, q).value);
      assert alt in alts;
    }
  }

  /** What fits is met by the search, at its start or at the byte in front of it. */
  lemma FitsIsOne(alt: Alt, text: bytes, g: Group)
    requires Fits(alt, text, g)
    ensures OneAt(alt, text, g.start).Some? || (g.start > 0 && OneAt(alt, text, g.start - 1).Some?)
  {
    hide AltLen;
    assert text[0..] == text;
  }

  lemma {:induction false} OneIsFound(alts: seq<Alt>, alt: Alt, text: bytes, q: nat)
    requires q <= |text| && alt in alts && OneAt(alt, text, q).Some?
    ensures MatchAt(alts, text, q).Some?
  {
    hide OneAt;
    if alt != alts[0] {
      OneIsFound(alts[1..], alt, text, q);
    }
  }

  lemma FitsIsFound(alts: seq<Alt>, text: bytes, g: Group)
    requires SomeFits(alts, text, g)
    ensures g.start <= |text|
    ensures MatchAt(alts, text, g.start).Some? || (g.start > 0 && MatchAt(alts, text, g.start - 1).Some?)
  {
    var alt :| alt in alts && Fits(alt, text, g);
    FitsIsOne(alt, text, g);
    hide OneAt, MatchAt;
    if OneAt(alt, text, g.start).Some? {
      OneIsFound(alts, alt, text, g.start);
    } else {
      OneIsFound(alts, alt, text, g.start - 1);
    }
  }

  /** The search meets only the places, and each of them at its start or one byte earlier. */
  ghost predicate Meets(at: Search, n: nat, gs: seq<Group>) {
    && (forall q: nat | q < n && at(q).Some? :: at(q).value in gs && (at(q).value.start == q || at(q).value.start == q + 1))
    && (forall k | 0 <= k < |gs| :: MeetsOne(at, gs[k].start))
  }

  predicate MeetsOne(at: Search, p: nat) { at(p).Some? || (p > 0 && at(p - 1).Some?) }

  /** From q on, where q lies behind all places but the last ones. */
  lemma {:induction false} FindsPlaces(at: Search, n: nat, gs: seq<Group>, k: nat, q: nat)
    requires Sane(at, n) && Meets(at, n, gs) && Gapped(gs, n) && k <= |gs| && q <= n
    requires forall i | 0 <= i < k :: gs[i].end <= q
    requires k < |gs| ==> if k == 0 then q == 0 else q < gs[k].start
    ensures FindAll(at, n, q) == gs[k..]
    decreases |gs| - k
  {
    hide Meets, Gapped, MeetsOne;
    if k == |gs| {
      forall m: nat | q <= m < n
        ensures at(m).None?
      {
        NotBehind(at, n, gs, k, q, m);
      }
      FindFromTo(at, n, q, n);
    } else {
      var m := NextPlace(at, n, gs, k, q);
      FindFromTo(at, n, q, m);
      GapBetween(gs, n, k, k);
      EndsUpTo(gs, n, k);
      FindsPlaces(at, n, gs, k + 1, gs[k].end);
      assert FindAll(at, n, m) == [gs[k]] + FindAll(at, n, gs[k].end);
      assert gs[k..] == [gs[k]] + gs[k + 1..];
    }
  }

  lemma NotBehind(at: Search, n: nat, gs: seq<Group>, k: nat, q: nat, m: nat)
    requires Meets(at, n, gs) && Gapped(gs, n) && k <= |gs| && q <= m < n
    requires forall i | 0 <= i < k :: gs[i].end <= q
    ensures at(m).Some? ==> exists j :: k <= j < |gs| && gs[j] == at(m).value
  {
    if at(m).Some? {
      var j :| 0 <= j < |gs| && gs[j] == at(m).value;
    }
  }

  lemma GapBetween(gs: seq<Group>, n: nat, i: nat, j: nat)
    requires Gapped(gs, n) && i <= j < |gs|
    ensures i < j ==> gs[i].start < gs[i].end < gs[j].start
    ensures gs[i].start < gs[i].end <= n
  {}

  lemma EndsUpTo(gs: seq<Group>, n: nat, k: nat)
    requires Gapped(gs, n) && k < |gs|
    ensures forall i | 0 <= i <= k :: gs[i].end <= gs[k].end
    ensures k + 1 < |gs| ==> gs[k].end < gs[k + 1].start
  {
    forall i | 0 <= i <= k
      ensures gs[i].end <= gs[k].end
    {
      GapBetween(gs, n, i, k);
      GapBetween(gs, n, k, k);
    }
  }

  /** What the search meets up to the next place is that place. */
  lemma OnlyNext(at: Search, n: nat, gs: seq<Group>, k: nat, q: nat, m: nat)
    requires Meets(at, n, gs) && Gapped(gs, n) && k < |gs| && q <= m <= gs[k].start && m < n
    requires forall i | 0 <= i < k :: gs[i].end <= q
    ensures at(m).Some? ==> at(m) == Some(gs[k]) && gs[k].start <= m + 1
  {
    NotBehind(at, n, gs, k, q, m);
    if at(m).Some? {
      var j :| k <= j < |gs| && gs[j] == at(m).value;
      GapBetween(gs, n, k, j);
    }
  }

  lemma PlaceIsMet(at: Search, n: nat, gs: seq<Group>, k: nat)
    requires Meets(at, n, gs) && Gapped(gs, n) && k < |gs|
    ensures MeetsOne(at, gs[k].start) && gs[k].start < n
  {}

  lemma NextPlace(at: Search, n: nat, gs: seq<Group>, k: nat, q: nat) returns (m: nat)
    requires Meets(at, n, gs) && Gapped(gs, n) && k < |gs| && q <= n
    requires forall i | 0 <= i < k :: gs[i].end <= q
    requires if k == 0 then q == 0 else q < gs[k].start
    ensures q <= m < n && at(m) == Some(gs[k]) && forall x: nat | q <= x < m :: at(x).None?
  {
    hide Meets, Gapped;
    var p := gs[k].start;
    PlaceIsMet(at, n, gs, k);
    m := if p > q && at(p - 1).Some? then p - 1 else p;
    OnlyNext(at, n, gs, k, q, m);
    forall x: nat | q <= x < m
      ensures at(x).None?
    {
      OnlyNext(at, n, gs, k, q, x);
    }
  }

  /** The search finds exactly the places that fit. */
  lemma GroupsAreThePlaces(alts: seq<Alt>, text: bytes, gs: seq<Group>)
    requires AllTake(alts) && Gapped(gs, |text|) && ShowsJust(alts, text, gs)
    ensures Groups(alts, text) == gs
  {
    var at, n := At(alts, text), |text|;
    SearchIsSane(alts, text);
    hide MatchAt, SomeFits, Gapped;
    forall q: nat | q < n && at(q).Some?
      ensures at(q).value in gs && (at(q).value.start == q || at(q).value.start == q + 1)
    {
      FoundFits(alts, text, q);
    }
    forall k | 0 <= k < |gs|
      ensures MeetsOne(at, gs[k].start)
    {
      assert SomeFits(alts, text, gs[k]);
      FitsIsFound(alts, text, gs[k]);
    }
    FindsPlaces(at, n, gs, 0, 0);
  }

  // ------------------------------------------------------------------ all passes

  /** One pass does all the work: the ones before it find nothing in the output, those behind it nothing
      in the text. */
  lemma {:induction false} DetokenizedByOne(passes: seq<Pass>, n: nat, out: bytes, text: bytes)
    requires n < |passes| && AllFindNothing(passes[..n], out) && AllFindNothing(passes[n + 1..], text)
    requires Proper(passes[n]) && RunPass(passes[n], out) == text
    ensures forall p | p in passes :: Proper(p)
    ensures Detokenize(passes, out) == text
  {
    hide FindsNothing, RunPass;
    assert passes == [passes[0]] + passes[1..];
    if n == 0 {
      NothingDetokenized(passes[1..], text);
    } else {
      assert passes[..n][0] == passes[0] && passes[..n][1..] == passes[1..][..n - 1];
      assert passes[1..][n..] == passes[n + 1..];
      FoundNothing(passes[0], out);
      DetokenizedByOne(passes[1..], n - 1, out, text);
    }
  }
}

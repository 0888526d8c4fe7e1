/**
 Tokenize followed by Detokenize (internal/redact/engine.go): for values that are replaced as they
 stand, by tokens of the fixed shapes of the credential pass, the text is back.
 */
module RoundTrip {
  import opened Bytes
  import opened Scanning
  import opened Splicing
  import opened Minting
  import opened StoreStates
  import opened StoreLaws
  import opened Detections
  import opened Substitution
  import opened Restorable
  import opened Engines
  import opened TokenShapes
  import opened SingleToken
  import opened WriteBack
  import Repeating
  import Fences
  import Unchanged
  import StoreRuns
  import StreamDetokenize
  import Restore
  import Utf8

  /** The detection names what stands at its range, and the token is written as it is. */
  predicate Verbatim(text: bytes, d: Detection) {
    d.format.None? && d.lookups != [] && d.start <= d.end <= |text| && d.lookups[0].value == text[d.start..d.end]
  }

  predicate AllVerbatim(text: bytes, dets: seq<Detection>) {
    forall i | 0 <= i < |dets| :: Verbatim(text, dets[i])
  }

  /** Looking up the replacements gives what they replaced, for any later state of the token map. */
  lemma ReplacementsAreUndone(s: State, text: bytes, dets: seq<Detection>, faults: nat -> bool, look: Lookups)
    requires Named(dets) && Good(s) && AllClean(dets) && AllVerbatim(text, dets)
    requires Extends(Apply(s, dets, faults).state.t2r, look.token2real)
    ensures Undoes(PlainRule(look), text, Apply(s, dets, faults).edits)
  {
    var p := Apply(s, dets, faults);
    forall k | 0 <= k < |p.edits|
      ensures UndoesOne(PlainRule(look), text, p.edits[k])
    {
      hide Apply, Named, Good, AllClean;
      PlainReplacementResolves(s, dets, faults, k);
      var i :| 0 <= i < |dets| && p.edits[k].start == dets[i].start && p.edits[k].end == dets[i].end
               && p.edits[k].text in p.state.t2r && p.state.t2r[p.edits[k].text] == dets[i].lookups[0].value;
      assert Verbatim(text, dets[i]);
    }
  }

  /** The pass of the credentials comes last. */
  lemma CredentialsComeLast(look: Lookups)
    ensures var passes := StreamDetokenize.Full(look);
            && passes != [] && passes[|passes| - 1] == Restore.Pass(Join(ALL_GROUPS), PlainRule(look))
            && forall p | p in passes :: Restore.Proper(p)
  {
    StreamDetokenize.FullIsProper(look);
  }

  /** What the output has to show: the replacements do not touch each other, the credential shapes fit
      at the replacements and nowhere else, and the passes before find nothing. */
  ghost predicate Readable(look: Lookups, text: bytes, edits: seq<Edit>)
    requires Ordered(edits, 0, |text|)
  {
    var out, places := Splice(text, edits, 0), Places(text, edits, 0, 0);
    var passes := StreamDetokenize.Full(look);
    && Gapped(places, |out|) && ShowsJust(Join(ALL_GROUPS), out, places)
    && AllFindNothing(passes[..|passes| - 1], out)
  }

  lemma ReadableIsRestored(look: Lookups, text: bytes, edits: seq<Edit>)
    requires Ordered(edits, 0, |text|) && Undoes(PlainRule(look), text, edits) && Readable(look, text, edits)
    ensures StreamDetokenize.Detokenized(look, Splice(text, edits, 0)) == text
  {
    hide ALL_GROUPS, Join, PlainRule;
    CredentialsComeLast(look);
    StreamDetokenize.DetokenizedIs(look, Splice(text, edits, 0));
    var out, places := Splice(text, edits, 0), Places(text, edits, 0, 0);
    var passes := StreamDetokenize.Full(look);
    var n := |passes| - 1;
    hide StreamDetokenize.Full, StreamDetokenize.Detokenized, Undoes, Splice, Places, Ordered, Gapped, ShowsJust, FindsNothing;
    assert passes[n] in passes;
    GroupsAreThePlaces(Join(ALL_GROUPS), out, places);
    FoundIsWrittenBack(passes[n], text, edits);
    assert passes[n + 1..] == [];
    DetokenizedByOne(passes, n, out, text);
  }

  /** Nothing is left over for the second pass over the block patterns. */
  ghost predicate NothingLeftOver(s: State, c: Config, o: Oracle, text: bytes)
    requires Fit(c)
  {
    var t := Traced(s, c, o, text);
    && t.result.Some? && t.second.state == t.first.state && t.second.edits == []
  }

  /** Detokenize after Tokenize gives the text back, from any good store and for any later token map
      that still has the tokens of the call. */
  lemma TokenizedComesBack(s: State, c: Config, o: Oracle, text: bytes, look: Lookups)
    requires Fit(c) && Good(s) && NothingLeftOver(s, c, o, text) && c.detect(text).Some?
    requires AllClean(Found(s, c, text)) && AllVerbatim(text, Found(s, c, text))
    requires Extends(Traced(s, c, o, text).second.state.t2r, look.token2real)
    requires Readable(look, text, FirstEdits(s, c, o, text))
    ensures StreamDetokenize.Detokenized(look, Traced(s, c, o, text).result.value) == text
  {
    hide Traced, Chosen, Pass, Readable, Splice, Survivors, Ordered, Fit, Good, AllClean, Extends, AllVerbatim, StreamDetokenize.Detokenized;
    var t := Traced(s, c, o, text);
    var mid := Middle(s, c, o, text);
    FoundIsNamed(s, c, o, text);
    ReplacementsAreUndone(s, text, Found(s, c, text), o.faults, look);
    ReadableIsRestored(look, text, t.first.edits);
    NothingSpliced(mid);
  }

  /** The same for all kinds of tokens, however their detections format them, when the replacements stand
      between boundary bytes of the text and each of them comes back by itself. */
  lemma FencedTextComesBack(s: State, c: Config, o: Oracle, text: bytes, look: Lookups)
    requires Fit(c) && NothingLeftOver(s, c, o, text) && c.detect(text).Some?
    requires SuffixesFree(look) && Fences.Fenced(look, text, FirstEdits(s, c, o, text), 0)
    ensures StreamDetokenize.Detokenized(look, Traced(s, c, o, text).result.value) == text
  {
    hide Traced, Chosen, Pass, Fences.Fenced, Splice, Survivors, Ordered, Fit, SuffixesFree, StreamDetokenize.Detokenized;
    var t := Traced(s, c, o, text);
    var mid := Middle(s, c, o, text);
    NothingSpliced(mid);
    Fences.FencedComesBack(look, text, t.first.edits, 0);
    assert text[0..] == text;
  }

  lemma FoundIsNamed(s: State, c: Config, o: Oracle, text: bytes)
    requires Fit(c) && c.detect(text).Some?
    ensures Named(Found(s, c, text))
    ensures Named(c.detect(text).value) && InText(c.detect(text).value, |text|)
    ensures Pass(s, text, c.detect(text).value, c.allow, o.faults) == Apply(s, Found(s, c, text), o.faults)
  {
    ChosenIsFit(s, text, c.detect(text).value, c.allow);
  }

  lemma NothingSpliced(text: bytes)
    ensures Ordered([], 0, |text|) && Splice(text, [], 0) == text
  {
    assert text[0..] == text;
  }

  // ------------------------------------------------------------------ an unchanged text need not stay

  /** A text that Tokenize leaves as it is can be changed by Detokenize: any text that shows a token which
      an earlier call has registered for something else. */
  lemma UnchangedIsRestored(s: State, c: Config, o: Oracle, look: Lookups, text: bytes, g: Group)
    requires Fit(c) && Utf8.WellFormed(text) && c.detect(text).Some?
    requires Repeating.AllSettled(s, c, text, c.detect(text).value) && Repeating.AllSettled(s, c, text, Survivors(c, o, text))
    requires g.start < g.end <= |text| && ShowsJust(Join(ALL_GROUPS), text, [g])
    requires AllFindNothing(StructuredPasses(look), text) && look.token2real == s.t2r
    requires var token := text[g.start..g.end]; token in s.t2r && s.t2r[token] != token
    ensures Traced(s, c, o, text).result == Some(text)
    ensures StreamDetokenize.Detokenized(look, text) != text
  {
    hide *;
    Repeating.SettledTextStays(s, c, o, text);
    Unchanged.RestoringChangesIff(look, text, g);
  }

  /** The store in which the value has been given the token t. */
  function StoreWith(value: bytes, t: bytes): State {
    Create(StoreRuns.NewStore(), Request(value, Random("custom_block"), (k: nat) => t), false).state
  }

  lemma StoreHasToken(value: bytes, t: bytes)
    requires Storable(value) && Storable(t)
    ensures StoreWith(value, t).t2r == map[t := value]
  {
    var s := StoreRuns.NewStore();
    assert FirstFree(s.t2r, (k: nat) => t, 0) == Some(t);
  }

  /** The rules find nothing in the text. */
  ghost predicate FindNothing(c: Config, o: Oracle, text: bytes) {
    Fit(c) && c.detect(text) == Some([]) && Survivors(c, o, text) == []
  }

  lemma AllSettledInNothing(s: State, c: Config, o: Oracle, text: bytes)
    requires FindNothing(c, o, text)
    ensures Fit(c) && c.detect(text).Some?
    ensures Repeating.AllSettled(s, c, text, c.detect(text).value) && Repeating.AllSettled(s, c, text, Survivors(c, o, text))
  {}

  /** For example: a store that was new and got the token of one blocked word, that token as the text, and
      any rules that find nothing in it, such as none at all. */
  lemma BlockTokenIsRestored(s: State, c: Config, o: Oracle, look: Lookups, value: bytes, t: bytes)
    requires Unchanged.IsBlockToken(t) && Storable(value) && value != t
    requires s == StoreWith(value, t) && FindNothing(c, o, t) && look.token2real == s.t2r
    ensures Fit(c) && Traced(s, c, o, t).result == Some(t)
    ensures StreamDetokenize.Detokenized(look, t) != t
  {
    hide *;
    Unchanged.BlockTokenSize(t);
    Unchanged.BlockTokenIsAscii(t);
    BlockTokenIsStorable(t);
    StoreHasToken(value, t);
    Unchanged.BlockTokenIsReadable(look, t);
    AllSettledInNothing(s, c, o, t);
    WholeRange(t);
    UnchangedIsRestored(s, c, o, look, t, Group(0, 44));
  }

  lemma WholeRange(t: bytes)
    ensures t[0..|t|] == t
  {}

  lemma BlockTokenIsStorable(t: bytes)
    requires |t| == 44
    ensures Storable(t)
  {}
}

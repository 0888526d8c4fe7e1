/**
 For which block words the final pass keeps its promise: exactly for those that cannot overlap
 themselves (blockListSafetyPass in internal/redact/engine.go, internal/redact/blocklist.go).
 */
module BlockLimits {
  import opened Bytes
  import opened Scanning
  import opened SpanTries
  import opened Splicing
  import opened Minting
  import opened StoreStates
  import opened Detections
  import opened Filters
  import opened Substitution
  import opened Engines
  import opened BlockList
  import StoreRuns
  import Utf8

  // ------------------------------------------------------------------ nothing is replaced

  lemma {:induction false} NothingChosen(s: State, text: bytes, found: seq<Detection>, allow: seq<bytes -> bool>, faults: nat -> bool)
    requires Named(found) && InText(found, |text|) && Remaining(s, text, found, allow) == []
    ensures Pass(s, text, found, allow, faults) == Progress(s, [], true)
    ensures Ordered([], 0, |text|) && Splice(text, [], 0) == text
  {
    assert Kept([]) == [];
    assert text[0..] == text;
  }

  lemma {:induction false} OneSurvivor(c: Config, o: Oracle, text: bytes, word: bytes, m: Span)
    requires Fit(c) && word != [] && c.blocks == [Literal(word)] && Matches(text, word, 0) == [m]
    requires m.start <= m.end <= |text| && !IsToken(text[m.start..m.end])
    ensures Survivors(c, o, text) == [BlockDetection(text, m, o.draws(0))]
  {
    hide Matches, IsToken, BlockDetection, Fit;
    assert BlockDetections(text, c.blocks, o.draws, 0) == [];
    assert FoundBy(text, [m], o.draws, [], 0) == [];
  }

  lemma SurvivorDropped(s: State, text: bytes, d: Detection, allow: seq<bytes -> bool>, r: Span)
    requires Occurs(s.spans, text, r) && Overlaps(d, r)
    ensures Remaining(s, text, [d], allow) == []
  {
    assert Touches(s.spans, text, d);
    if Remaining(s, text, [d], allow) != [] {
      var e := Remaining(s, text, [d], allow)[0];
      KeepsTheRest(Without([d], Allowed(allow)), Touching(s.spans, text), e);
      KeepsTheRest([d], Allowed(allow), e);
    }
  }

  /** If the only match touches a span and the detectors find nothing, nothing is replaced. */
  lemma {:induction false} OnlyMatchDropped(s: State, c: Config, o: Oracle, text: bytes, word: bytes, m: Span, r: Span)
    requires Fit(c) && word != [] && c.blocks == [Literal(word)] && Matches(text, word, 0) == [m]
    requires m.start <= m.end <= |text| && !IsToken(text[m.start..m.end])
    requires Occurs(s.spans, text, r) && m.start < r.end && r.start < m.end
    requires Utf8.WellFormed(text) && c.detect(text) == Some([])
    ensures Traced(s, c, o, text).result == Some(text) && Traced(s, c, o, text).second.state == s
  {
    hide Matches, Survivors, Utf8.WellFormed, Pass, Remaining, Splice, IsToken, Occurs;
    OneSurvivor(c, o, text, word, m);
    SurvivorDropped(s, text, BlockDetection(text, m, o.draws(0)), c.allow, r);
    NothingRemains(s, text, c.allow);
    NothingChosen(s, text, [], c.allow, o.faults);
    NothingChosen(s, text, Survivors(c, o, text), c.allow, o.blockFaults);
  }

  lemma NothingRemains(s: State, text: bytes, allow: seq<bytes -> bool>)
    ensures Remaining(s, text, [], allow) == []
  {}

  // ------------------------------------------------------------------ a word that overlaps itself

  /** The word shifted by k fits on itself. */
  predicate FitsOnItself(word: bytes, k: nat) {
    0 < k < |word| && word[k..] == word[..|word| - k]
  }

  /** An ASCII character that the word does not contain. */
  predicate IsMark(word: bytes, mark: byte) {
    mark as int < 128 && mark !in word
  }

  /** mark, and the word twice, the second time over the end of the first. */
  function Doubled(word: bytes, k: nat, mark: byte): bytes
    requires k <= |word|
  {
    [mark] + (word[..k] + word)
  }

  lemma {:induction false} NoRoom(text: bytes, word: bytes, q: nat)
    requires word != [] && |text| < q + |word|
    ensures Matches(text, word, q) == []
    decreases |text| - q
  {
    if q < |text| {
      NoRoom(text, word, q + 1);
    }
  }

  lemma DoubledParts(word: bytes, k: nat, mark: byte)
    requires FitsOnItself(word, k)
    ensures var text := Doubled(word, k, mark);
            && |text| == 1 + k + |word| && text[0] == mark
            && text[1..1 + |word|] == word && text[1 + k..1 + k + |word|] == word
  {
    var text := Doubled(word, k, mark);
    assert word == word[..|word| - k] + word[|word| - k..];
    assert text[1..1 + |word|] == word[..k] + word[..|word| - k];
    assert word == word[..k] + word[k..];
  }

  lemma OnlyMatch(word: bytes, k: nat, mark: byte)
    requires FitsOnItself(word, k) && IsMark(word, mark)
    ensures Matches(Doubled(word, k, mark), word, 0) == [Span(1, 1 + |word|)]
  {
    DoubledParts(word, k, mark);
    FirstIsNoMark(word, mark);
    hide Doubled, Matches, IsMark;
    MatchAtOnly(Doubled(word, k, mark), word);
  }

  /** A text with room for the word at position 1 and no second time. */
  lemma MatchAtOnly(text: bytes, word: bytes)
    requires word != [] && 1 + |word| <= |text| < 1 + |word| + |word|
    requires text[0] != word[0] && text[1..1 + |word|] == word
    ensures Matches(text, word, 0) == [Span(1, 1 + |word|)]
  {
    hide Shows, Matches;
    NotAtMark(text, word, text[0]);
    OneMatch(text, word, 0);
    ShownAtOne(text, word);
    OneMatch(text, word, 1);
    NoRoom(text, word, 1 + |word|);
    ConcatNil([Span(1, 1 + |word|)]);
  }

  lemma OneMatch(text: bytes, word: bytes, q: nat)
    requires word != [] && q < |text|
    ensures Matches(text, word, q) ==
            if Shows(text, q, word) then [Span(q, q + |word|)] + Matches(text, word, q + |word|) else Matches(text, word, q + 1)
  {}

  lemma ShownAtOne(text: bytes, word: bytes)
    requires 1 + |word| <= |text| && text[1..1 + |word|] == word
    ensures Shows(text, 1, word)
  {}

  lemma NotAtMark(text: bytes, word: bytes, mark: byte)
    requires word != [] && text != [] && text[0] == mark && word[0] != mark
    ensures !Shows(text, 0, word)
  {
    assert |word| <= |text| ==> text[0..|word|][0] == mark;
  }

  lemma FirstIsNoMark(word: bytes, mark: byte)
    requires word != [] && IsMark(word, mark)
    ensures word[0] != mark
  {
    assert word[0] in word;
  }

  lemma MarkIsApart(word: bytes, k: nat, mark: byte)
    requires FitsOnItself(word, k) && IsMark(word, mark)
    ensures word[0] != mark && forall q | 0 < q < |Doubled(word, k, mark)| :: Doubled(word, k, mark)[q] != mark
  {
    var rest := word[..k] + word;
    assert forall i | 0 <= i < |word| :: word[i] in word;
    assert forall q | 0 < q < 1 + |rest| :: Doubled(word, k, mark)[q] == rest[q - 1];
  }

  lemma SecondIsOutside(word: bytes, k: nat, mark: byte)
    requires FitsOnItself(word, k) && IsMark(word, mark)
    ensures var text, spans := Doubled(word, k, mark), {[mark, word[0]]};
            && Occurs(spans, text, Span(0, 2)) && Shows(text, 1 + k, word)
            && !InSpan(spans, text, 1 + k, 1 + k + |word|)
  {
    var text, spans := Doubled(word, k, mark), {[mark, word[0]]};
    DoubledParts(word, k, mark);
    MarkIsApart(word, k, mark);
    assert text[0..2] == [mark, word[0]];
    forall r | Occurs(spans, text, r)
      ensures r.end <= 2
    {
      assert text[r.start] == text[r.start..r.end][0] == mark;
    }
  }

  lemma DoubledWellFormed(word: bytes, k: nat, mark: byte)
    requires FitsOnItself(word, k) && IsMark(word, mark) && Utf8.WellFormed(word)
    ensures Utf8.WellFormed(Doubled(word, k, mark))
  {
    MarkWellFormed(mark);
    assert word[k] == word[k..][0] == word[0];
    Utf8.WellFormedStarts(word);
    hide Utf8.WellFormed, Utf8.RuneLen;
    Utf8.CutWellFormed(word, k);
    Utf8.JoinWellFormed(word[..k], word);
    Utf8.JoinWellFormed([mark], word[..k] + word);
  }

  lemma MarkWellFormed(mark: byte)
    requires mark as int < 128
    ensures Utf8.WellFormed([mark])
  {
    assert [mark][1..] == [];
  }

  /** The scan finds the first of the two overlapping words, which touches the span and is left
      alone, and does not look at the second, which touches nothing. */
  lemma SelfOverlapSurvives(s: State, c: Config, o: Oracle, word: bytes, k: nat, mark: byte)
    requires FitsOnItself(word, k) && IsMark(word, mark) && Utf8.WellFormed(word) && !IsToken(word)
    requires s.spans == {[mark, word[0]]} && c.blocks == [Literal(word)]
    requires Fit(c) && c.detect(Doubled(word, k, mark)) == Some([])
    ensures var text, t := Doubled(word, k, mark), Traced(s, c, o, Doubled(word, k, mark));
            && t.result == Some(text) && t.second.state == s
            && Shows(text, 1 + k, word) && !InSpan(s.spans, text, 1 + k, 1 + k + |word|)
  {
    hide Traced, Utf8.WellFormed, Matches, IsToken, Literal, Fit, Doubled, InSpan, Occurs, IsMark, Shows;
    OnlyMatch(word, k, mark);
    DoubledParts(word, k, mark);
    SecondIsOutside(word, k, mark);
    DoubledWellFormed(word, k, mark);
    OnlyMatchDropped(s, c, o, Doubled(word, k, mark), word, Span(1, 1 + |word|), Span(0, 2));
  }

  // ------------------------------------------------------------------ exactly when

  /** In this run a blocked word that still stands at p overlaps a registered span. */
  ghost predicate CoveredAt(s: State, c: Config, o: Oracle, text: bytes, word: bytes, i: nat, p: nat)
    requires word != []
  {
    Fit(c) && Tangible(s) && i < |c.blocks| && c.blocks[i] == Literal(word) && !MatchesAny(c.allow)(word)
    ==> var t := Traced(s, c, o, text);
        t.result.Some? && Shows(t.result.value, p, word) ==> InSpan(t.second.state.spans, t.result.value, p, p + |word|)
  }

  ghost predicate AlwaysCovered(word: bytes)
    requires word != []
  {
    forall s: State, c: Config, o: Oracle, text: bytes, i: nat, p: nat :: CoveredAt(s, c, o, text, word, i, p)
  }

  /** Whatever the store, the detectors, the other patterns and the text are, no match of a blocked
      word is left outside every span: this holds exactly for the words that cannot overlap
      themselves. */
  lemma CoveredIffBorderless(word: bytes, mark: byte)
    requires word != [] && IsMark(word, mark) && Utf8.WellFormed(word) && !BeginsLikeToken(word)
    ensures AlwaysCovered(word) <==> Borderless(word)
  {
    TokensBeginLikeIt(word);
    hide Traced, Utf8.WellFormed, Matches, IsToken, BeginsLikeToken, Literal, InSpan, CoveredAt;
    if Borderless(word) {
      forall s: State, c: Config, o: Oracle, text: bytes, i: nat, p: nat
        ensures CoveredAt(s, c, o, text, word, i, p)
      {
        BorderlessIsCovered(s, c, o, text, word, i, p);
      }
    } else {
      var k :| 0 < k < |word| && word[k..] == word[..|word| - k];
      BorderedIsNot(word, k, mark);
    }
  }

  lemma BorderlessIsCovered(s: State, c: Config, o: Oracle, text: bytes, word: bytes, i: nat, p: nat)
    requires word != [] && Borderless(word) && !IsToken(word)
    ensures CoveredAt(s, c, o, text, word, i, p)
  {
    TokensBeginLikeIt(word);
    hide Traced, Matches, IsToken, BeginsLikeToken, Literal, InSpan, Borderless, Fit, Tangible;
    if Fit(c) && Tangible(s) && i < |c.blocks| && c.blocks[i] == Literal(word) && !MatchesAny(c.allow)(word)
       && Traced(s, c, o, text).result.Some? && Shows(Traced(s, c, o, text).result.value, p, word) {
      BlockedWordsAreCovered(s, c, o, text, word, i, p);
    }
  }

  /** A configuration that blocks the word and detects nothing else. */
  function OnlyBlocks(word: bytes): Config
    requires word != []
  {
    Config((text: bytes) => Some([]), [], [Literal(word)])
  }

  lemma OnlyBlocksFits(word: bytes)
    requires word != []
    ensures Fit(OnlyBlocks(word)) && !MatchesAny(OnlyBlocks(word).allow)(word)
  {
    forall text: bytes
      ensures FitLocs(Literal(word)(text), |text|)
    {
      LiteralFits(text, word);
    }
  }

  /** Some configuration that blocks the word leaves it standing at p, outside every span. */
  ghost predicate IsLeftOver(s: State, text: bytes, word: bytes, p: nat)
    requires word != []
  {
    exists c: Config, o: Oracle :: !CoveredAt(s, c, o, text, word, 0, p)
  }

  /** A new store in which one span has been registered. */
  function StoreWith(span: bytes): State { Register(StoreRuns.NewStore(), span, false).state }

  lemma StoreWithSpan(span: bytes)
    requires span != [] && Storable(span)
    ensures StoreWith(span).spans == {span} && Tangible(StoreWith(span)) && StoreWith(span).disk.spans == {span}
  {}

  /** In a new store in which one span of two bytes has been registered, the word twice is not covered. */
  lemma BorderedIsNot(word: bytes, k: nat, mark: byte)
    requires FitsOnItself(word, k) && IsMark(word, mark) && Utf8.WellFormed(word) && !IsToken(word)
    ensures IsLeftOver(StoreWith([mark, word[0]]), Doubled(word, k, mark), word, 1 + k)
    ensures !AlwaysCovered(word)
  {
    hide Traced, Utf8.WellFormed, Matches, IsToken, Literal, InSpan, Fit, Doubled, IsMark, StoreWith, Tangible;
    var s, text := StoreWith([mark, word[0]]), Doubled(word, k, mark);
    var c, o := OnlyBlocks(word), Oracle((n: nat) => false, (n: nat) => false, (n: nat) => (m: nat) => []);
    OnlyBlocksFits(word);
    StoreWithSpan([mark, word[0]]);
    SelfOverlapSurvives(s, c, o, word, k, mark);
    assert c.blocks[0] == Literal(word);
    assert !CoveredAt(s, c, o, text, word, 0, 1 + k);
  }
}

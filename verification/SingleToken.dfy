/**
 A pass with one shape over a text in which the shape occurs at most at one place: what the pass
 finds and what it makes of the text (replaceFirstNonEmptyGroup and detokenizeDomainTokens in
 internal/redact/engine.go).
 */
module SingleToken {
  import opened Bytes
  import opened Scanning
  import opened Restore

  /** The shape begins nowhere in the text but possibly at p. */
  ghost predicate OnlyAt(alt: Alt, text: bytes, p: nat) {
    forall q: nat | q <= |text| && q != p :: AltLen(alt, text[q..]).None?
  }

  /** The search finds the shape at p: it is there, and its left side allows it. */
  predicate FoundAt(alt: Alt, text: bytes, p: nat) {
    p <= |text| && AltLen(alt, text[p..]).Some? && LeftFits(alt, text, p)
  }

  predicate Searchable(alt: Alt) {
    TakesSomething(alt) && (alt.left.NotAlnum? ==> StartsAlnum(alt))
  }

  lemma {:induction false} MatchAtOne(alt: Alt, text: bytes, q: nat)
    requires q <= |text|
    ensures MatchAt([alt], text, q) == OneAt(alt, text, q)
  {}

  /** Where the match of a found shape begins: at the byte that it consumes, if it does. */
  function MatchStart(alt: Alt, p: nat): nat { if alt.left.NotAlnum? && p > 0 then p - 1 else p }

  lemma OnlyOne(alt: Alt, text: bytes, p: nat, q: nat)
    requires Searchable(alt) && OnlyAt(alt, text, p) && q < |text| && p <= |text|
    ensures OneAt(alt, text, q) ==
            if FoundAt(alt, text, p) && q == MatchStart(alt, p)
            then Some(Group(p, p + AltLen(alt, text[p..]).value)) else None
  {
    hide AltLen, TakesSomething, StartsAlnum;
    assert text[0..] == text;
    if alt.left.NotAlnum? && p == q + 1 && q == 0 {
      assert text[q + 1..] == text[p..];
    }
    if alt.left.NotAlnum? && p == 0 && q == 0 && AltLen(alt, text).Some? {
      ItemsStartAlnum(alt, text);
    }
  }

  lemma {:induction false} FindFromTo(at: Search, n: nat, q: nat, m: nat)
    requires Sane(at, n) && q <= m && forall k: nat | q <= k < m && k < n :: at(k).None?
    ensures m <= n ==> FindAll(at, n, q) == FindAll(at, n, m)
    ensures m > n ==> FindAll(at, n, q) == []
    decreases m - q
  {
    if q < m && q < n {
      FindFromTo(at, n, q + 1, m);
    }
  }

  /** The groups of the pass. */
  lemma GroupsOfOne(alt: Alt, text: bytes, p: nat)
    requires Searchable(alt) && OnlyAt(alt, text, p) && p <= |text|
    ensures Groups([alt], text) ==
            if FoundAt(alt, text, p) then [Group(p, p + AltLen(alt, text[p..]).value)] else []
  {
    var at, n := At([alt], text), |text|;
    SearchIsSane([alt], text);
    forall k: nat | k < n
      ensures at(k) == if FoundAt(alt, text, p) && k == MatchStart(alt, p)
                       then Some(Group(p, p + AltLen(alt, text[p..]).value)) else None
    {
      MatchAtOne(alt, text, k);
      OnlyOne(alt, text, p, k);
    }
    if FoundAt(alt, text, p) {
      AltTakesSomething(alt, text[p..]);
      var g := Group(p, p + AltLen(alt, text[p..]).value);
      StartsWithin(alt, p);
      hide At, AltLen, OnlyAt, MatchStart, FoundAt, Searchable;
      FindTheOne(at, n, MatchStart(alt, p), g);
    } else {
      hide At, AltLen, OnlyAt, MatchStart, FoundAt, Searchable;
      FindFromTo(at, n, 0, n);
    }
  }

  lemma StartsWithin(alt: Alt, p: nat)
    ensures MatchStart(alt, p) <= p
  {}

  lemma {:induction false} FindTheOne(at: Search, n: nat, start: nat, g: Group)
    requires Sane(at, n) && start <= g.start < g.end <= n
    requires forall k: nat | k < n :: at(k) == if k == start then Some(g) else None
    ensures FindAll(at, n, 0) == [g]
  {
    FindFromTo(at, n, 0, start);
    FindFromTo(at, n, g.end, n);
    assert FindAll(at, n, n) == [];
    assert FindAll(at, n, start) == [g] + FindAll(at, n, g.end);
  }

  /** What restoring one group makes of a text: what is in front, the replacement, and what comes after
      the echo. */
  function RestoredAt(r: Rule, text: bytes, g: Group): bytes
    requires g.start <= g.end <= |text|
  {
    text[..g.start] + r.repl(text[g.start..g.end]) + text[EchoEnd(r, text, g)..]
  }

  lemma {:induction false} WriteOneGroup(r: Rule, text: bytes, g: Group)
    requires g.start <= g.end <= |text|
    ensures Write(r, text, [g], 0) == RestoredAt(r, text, g) && Write(r, text, [], 0) == text
  {
    WriteCons(r, text, g, [], 0);
    WriteNil(r, text, EchoEnd(r, text, g));
    WriteNil(r, text, 0);
    assert [g] + [] == [g] && text[0..g.start] == text[..g.start] && text[0..] == text;
  }

  /** The pass restores the one place if its left side allows the shape there, and nothing else. */
  lemma PassOfOne(alt: Alt, rule: Rule, text: bytes, p: nat)
    requires Searchable(alt) && OnlyAt(alt, text, p) && p <= |text|
    ensures RunPass(Pass([alt], rule), text) ==
            if FoundAt(alt, text, p) then RestoredAt(rule, text, Group(p, p + AltLen(alt, text[p..]).value)) else text
  {
    GroupsOfOne(alt, text, p);
    hide AltLen, OnlyAt, Groups, Searchable;
    if FoundAt(alt, text, p) {
      WriteOneGroup(rule, text, Group(p, p + AltLen(alt, text[p..]).value));
    } else {
      WriteOneGroup(rule, text, Group(0, 0));
    }
  }

  /** A pass that finds nothing changes nothing. */
  ghost predicate FindsNothing(p: Pass, text: bytes) {
    forall q: nat | q < |text| :: MatchAt(p.alts, text, q).None?
  }

  lemma FoundNothing(p: Pass, text: bytes)
    requires Proper(p) && FindsNothing(p, text)
    ensures RunPass(p, text) == text
  {
    SearchIsSane(p.alts, text);
    FindFromTo(At(p.alts, text), |text|, 0, |text|);
    WriteOneGroup(p.rule, text, Group(0, 0));
  }

  ghost predicate AllFindNothing(passes: seq<Pass>, text: bytes) {
    forall p | p in passes :: Proper(p) && FindsNothing(p, text)
  }

  lemma {:induction false} NothingDetokenized(passes: seq<Pass>, text: bytes)
    requires AllFindNothing(passes, text)
    ensures Detokenize(passes, text) == text
  {
    hide FindsNothing, RunPass;
    if passes != [] {
      FoundNothing(passes[0], text);
      NothingDetokenized(passes[1..], text);
    }
  }
}

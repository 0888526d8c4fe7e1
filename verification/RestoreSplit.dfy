/**
 Restoring text piece by piece: when the text is cut after a boundary byte, restoring the two
 pieces and restoring the whole give the same bytes.
 */
module RestoreSplit {
  import opened Bytes
  import opened Scanning
  import opened Restore

  lemma SearchAgrees(alts: seq<Alt>, a: bytes, b: bytes)
    requires AllLocal(alts, a, b) && AllTake(alts) && NoClash(alts) && Closed(a)
    ensures PrefixAgrees(At(alts, a + b), At(alts, a), |a|)
    ensures SuffixAgrees(At(alts, a + b), At(alts, b), |a|, |b|)
    ensures CutAgrees(At(alts, a + b), At(alts, b), |a|, |b|)
  {
    hide MatchAt, AllTake, NoClash, CutAgrees, Local;
    forall q: nat | q < |a| - 1
      ensures At(alts, a + b)(q) == At(alts, a)(q)
      ensures At(alts, a)(q).Some? ==> At(alts, a)(q).value.end < |a|
    {
      MatchInPrefix(alts, a, b, q);
    }
    AllLocalAlone(alts, a, b);
    NoMatchAtClose(alts, a);
    forall q: nat | 0 < q <= |b|
      ensures At(alts, a + b)(|a| + q) == Shift(At(alts, b)(q), |a|)
    {
      MatchInSuffix(alts, a, b, q);
    }
    CutIsAgreed(alts, a, b);
  }

  lemma AllLocalAlone(alts: seq<Alt>, a: bytes, b: bytes)
    requires AllLocal(alts, a, b)
    ensures AllLocal(alts, a, [])
  {
    hide Local;
    forall alt | alt in alts
      ensures Local(alt, a, [])
    {
      LocalAlone(alt, a, b);
    }
  }

  lemma CutIsAgreed(alts: seq<Alt>, a: bytes, b: bytes)
    requires AllLocal(alts, a, b) && AllTake(alts) && NoClash(alts) && Closed(a)
    ensures CutAgrees(At(alts, a + b), At(alts, b), |a|, |b|)
  {
    hide MatchAt, AllTake, NoClash, BoundedMatch, Local;
    if BoundedMatch(alts, b) {
      MatchOverCut(alts, a, b);
      MatchIsNotEmpty(alts, b, 0);
    } else {
      MatchAfterCut(alts, a, b);
    }
  }

  lemma EchoIsInside(p: Pass, a: bytes, b: bytes)
    requires Closed(a) && forall tok :: Free(p.rule.echo(tok))
    ensures EchoStays(p.rule, a, b)
  {
    forall g: Group | g.start <= g.end < |a|
      ensures EchoEnd(p.rule, a + b, g) == EchoEnd(p.rule, a, g) && EchoEnd(p.rule, a, g) < |a|
    {
      assert (a + b)[g.start..g.end] == a[g.start..g.end];
      assert (a + b)[g.end..] == a[g.end..] + b;
      WordIsLocal(p.rule.echo(a[g.start..g.end]), a[g.end..], b);
    }
  }

  /** One pass distributes over a cut after a boundary byte that no match of it goes over, and keeps
      that byte at the end. */
  lemma UncrossedPassSplits(p: Pass, a: bytes, b: bytes)
    requires AllLocal(p.alts, a, b) && NoClash(p.alts) && (forall tok :: Free(p.rule.echo(tok)))
    requires Proper(p) && Closed(a)
    ensures RunPass(p, a + b) == RunPass(p, a) + RunPass(p, b)
    ensures Closed(RunPass(p, a))
  {
    hide At, MatchAt, Sane, PrefixAgrees, CutAgrees, FindAll, ShiftAll, Write, IsBoundary;
    var atT, atA, atB := At(p.alts, a + b), At(p.alts, a), At(p.alts, b);
    SearchIsSane(p.alts, a + b);
    SearchIsSane(p.alts, a);
    SearchIsSane(p.alts, b);
    SearchAgrees(p.alts, a, b);
    FindInPrefix(atT, atA, atB, |a|, |b|, 0);
    FoundInside(atT, atA, |a|, 0);
    ShiftStaysWithin(Groups(p.alts, b), |b|, |a|);
    EchoIsInside(p, a, b);
    EchoIsInside(p, a, []);
    WriteInPrefix(p.rule, a, b, Groups(p.alts, a), Groups(p.alts, b), ShiftAll(Groups(p.alts, b), |a|), 0);
    WriteKeepsEnd(p.rule, a, Groups(p.alts, a), 0);
  }

  /** A pass whose shapes contain no boundary byte distributes over every such cut. */
  lemma RunPassSplits(p: Pass, a: bytes, b: bytes)
    requires Separable(p) && Proper(p) && Closed(a)
    ensures RunPass(p, a + b) == RunPass(p, a) + RunPass(p, b)
    ensures Closed(RunPass(p, a))
  {
    hide RunPass, Compact, Local, Closed;
    forall alt | alt in p.alts
      ensures Local(alt, a, b)
    {
      CompactIsLocal(alt, a, b);
    }
    UncrossedPassSplits(p, a, b);
  }

  /** Restoring distributes over a cut after a boundary byte, through all passes. */
  lemma {:induction false} DetokenizeSplits(passes: seq<Pass>, a: bytes, b: bytes)
    requires forall p | p in passes :: Separable(p) && Proper(p)
    requires Closed(a)
    ensures Detokenize(passes, a + b) == Detokenize(passes, a) + Detokenize(passes, b)
  {
    if passes != [] {
      RunPassSplits(passes[0], a, b);
      DetokenizeSplits(passes[1..], RunPass(passes[0], a), RunPass(passes[0], b));
    }
  }

  lemma {:induction false} DetokenizeEmpty(passes: seq<Pass>)
    requires forall p | p in passes :: Proper(p)
    ensures Detokenize(passes, []) == []
  {
    if passes != [] {
      DetokenizeEmpty(passes[1..]);
    }
  }
}

/**
 A text that shows one token, and every stretch of that text, under all the passes of Detokenize
 (internal/redact/engine.go): the stretches that hold the whole token restore it, the others stay as
 they are.
 */
module TokenTexts {
  import opened Bytes
  import opened Scanning
  import opened Restore
  import opened ExactShapes
  import opened SingleToken
  import opened WriteBack

  // ------------------------------------------------------------------ shapes that do not occur

  /** A run of varying length comes last or is followed by a word that it cannot swallow. */
  predicate Steady(items: seq<Item>) {
    forall i | 0 <= i < |items| :: SteadyAt(items, i)
  }

  predicate SteadyAt(items: seq<Item>, i: nat)
    requires i < |items|
  {
    match items[i]
    case Run(k, lo, hi) => lo == hi || Stops(k, items, i + 1)
    case Star(k) => Stops(k, items, i + 1)
    case _ => true
  }

  predicate Stops(k: Class, items: seq<Item>, i: nat)
    requires i <= |items|
  {
    i == |items| || (items[i].Word? && items[i].text != [] && !Has(k, items[i].text[0]))
  }

  lemma {:induction false} RunGoesOn(k: Class, x: bytes, y: bytes, n: nat, m: nat)
    requires n <= m
    ensures RunLen(k, x, n) <= RunLen(k, x + y, m)
    ensures RunLen(k, x, n) < |x| && RunLen(k, x, n) < n ==> RunLen(k, x + y, m) == RunLen(k, x, n)
    ensures n == m == RunLen(k, x, n) ==> RunLen(k, x + y, m) == n
  {
    if n > 0 && x != [] && Has(k, x[0]) {
      assert (x + y)[1..] == x[1..] + y;
      RunGoesOn(k, x[1..], y, n - 1, m - 1);
    } else if x != [] {
      assert (x + y)[0] == x[0];
    }
  }

  /** More text can only make an item longer, and only where the text ended. */
  lemma ItemGoesOn(item: Item, x: bytes, y: bytes)
    requires ItemLen(item, x).Some?
    ensures ItemLen(item, x + y).Some?
    ensures ItemLen(item, x + y) == ItemLen(item, x) || ItemLen(item, x).value == |x|
  {
    match item
    case Word(text) => assert (x + y)[..|text|] == x[..|text|];
    case Fold(text) =>
    case Run(k, lo, hi) => RunGoesOn(k, x, y, hi, hi);
    case Star(k) => RunGoesOn(k, x, y, |x|, |x + y|);
  }

  lemma ExactItemStays(item: Item, x: bytes, y: bytes)
    requires ItemLen(item, x).Some? && !item.Star? && (item.Run? ==> item.lo == item.hi)
    ensures ItemLen(item, x + y) == ItemLen(item, x)
  {
    assert [item][0] == item;
    ItemExtends(item, x, y);
  }

  lemma NothingBehind(items: seq<Item>, k: Class)
    requires 1 < |items| && Stops(k, items, 1)
    ensures ItemsLen(items[1..], []).None?
  {
    assert items[1..][0] == items[1];
  }

  lemma SteadyTail(items: seq<Item>)
    requires Steady(items) && items != []
    ensures Steady(items[1..]) && SteadyAt(items, 0)
  {
    forall i | 0 <= i < |items[1..]|
      ensures SteadyAt(items[1..], i)
    {
      assert SteadyAt(items, i + 1);
      assert items[1..][i] == items[i + 1];
    }
  }

  /** What begins in a text still begins there when the text goes on. */
  lemma {:induction false} ItemsGoOn(items: seq<Item>, x: bytes, y: bytes)
    requires Steady(items) && ItemsLen(items, x).Some?
    ensures ItemsLen(items, x + y).Some?
  {
    if items != [] {
      hide ItemLen, Steady;
      SteadyTail(items);
      ItemGoesOn(items[0], x, y);
      var n := ItemLen(items[0], x).value;
      if ItemLen(items[0], x + y).value == n {
        assert (x + y)[n..] == x[n..] + y;
        ItemsGoOn(items[1..], x[n..], y);
      } else {
        LastGrows(items, x, y);
      }
    }
  }

  lemma LastGrows(items: seq<Item>, x: bytes, y: bytes)
    requires items != [] && SteadyAt(items, 0) && ItemsLen(items, x).Some?
    requires ItemLen(items[0], x + y) != ItemLen(items[0], x)
    ensures |items| == 1
  {
    hide ItemLen;
    ItemsLenParts(items, x);
    ItemGoesOn(items[0], x, y);
    if !items[0].Star? && (items[0].Run? ==> items[0].lo == items[0].hi) {
      ExactItemStays(items[0], x, y);
    } else if |items| > 1 {
      NothingBehind(items, items[0].kind);
    }
  }

  /** The shape begins nowhere in the text, whatever stands around it. */
  ghost predicate Absent(alt: Alt, text: bytes) {
    forall q: nat | q <= |text| :: ItemsLen(alt.items, text[q..]).None?
  }

  ghost predicate AllAbsent(alts: seq<Alt>, text: bytes) {
    forall alt | alt in alts :: Absent(alt, text)
  }

  ghost predicate PassesAbsent(passes: seq<Pass>, text: bytes) {
    forall p | p in passes :: AllAbsent(p.alts, text)
  }

  /** Shapes that can be looked for in every stretch of a text. */
  predicate AllSteady(alts: seq<Alt>) {
    forall alt | alt in alts :: TakesSomething(alt) && Steady(alt.items)
  }

  ghost predicate PassesSteady(passes: seq<Pass>) {
    forall p | p in passes :: AllSteady(p.alts)
  }

  predicate AllRigid(alts: seq<Alt>) {
    forall alt | alt in alts :: Rigid(alt)
  }

  lemma StretchTail(text: bytes, i: nat, j: nat, q: nat)
    requires i <= j <= |text| && q <= j - i
    ensures text[i + q..] == text[i..j][q..] + text[j..]
  {}

  lemma AbsentInStretch(alt: Alt, text: bytes, i: nat, j: nat)
    requires Steady(alt.items) && Absent(alt, text) && i <= j <= |text|
    ensures Absent(alt, text[i..j])
  {
    hide Steady;
    forall q: nat | q <= j - i
      ensures ItemsLen(alt.items, text[i..j][q..]).None?
    {
      StretchTail(text, i, j, q);
      if ItemsLen(alt.items, text[i..j][q..]).Some? {
        ItemsGoOn(alt.items, text[i..j][q..], text[j..]);
      }
    }
  }

  lemma PassesAbsentInStretch(passes: seq<Pass>, text: bytes, i: nat, j: nat)
    requires PassesSteady(passes) && PassesAbsent(passes, text) && i <= j <= |text|
    ensures PassesAbsent(passes, text[i..j])
  {
    hide Absent, Steady;
    forall p, alt | p in passes && alt in p.alts
      ensures Absent(alt, text[i..j])
    {
      AbsentInStretch(alt, text, i, j);
    }
  }

  lemma AbsentDoesNotFit(alt: Alt, text: bytes, g: Group)
    requires Absent(alt, text)
    ensures !Fits(alt, text, g)
  {}

  lemma NoneIsFound(p: Pass, text: bytes)
    requires Proper(p) && AllAbsent(p.alts, text)
    ensures FindsNothing(p, text)
  {
    hide MatchAt, Fits, Absent;
    forall q: nat | q < |text|
      ensures MatchAt(p.alts, text, q).None?
    {
      if MatchAt(p.alts, text, q).Some? {
        FoundFits(p.alts, text, q);
        var alt :| alt in p.alts && Fits(alt, text, MatchAt(p.alts, text, q).value);
        AbsentDoesNotFit(alt, text, MatchAt(p.alts, text, q).value);
      }
    }
  }

  lemma AbsentFindNothing(passes: seq<Pass>, text: bytes)
    requires PassesSteady(passes) && PassesAbsent(passes, text)
    ensures AllFindNothing(passes, text)
  {
    hide FindsNothing, AllAbsent, Steady;
    forall p | p in passes
      ensures Proper(p) && FindsNothing(p, text)
    {
      NoneIsFound(p, text);
    }
  }

  // ------------------------------------------------------------------ the one token

  /** Whatever begins in the text begins at p and takes k bytes. */
  ghost predicate OnlyToken(alts: seq<Alt>, text: bytes, p: nat, k: nat) {
    forall alt, q: nat | alt in alts && q <= |text| :: OnlyTokenAt(alt, text, p, k, q)
  }

  predicate OnlyTokenAt(alt: Alt, text: bytes, p: nat, k: nat, q: nat)
    requires q <= |text|
  {
    AltLen(alt, text[q..]).Some? ==> q == p && AltLen(alt, text[q..]) == Some(k)
  }

  lemma OnlyTokenFits(alts: seq<Alt>, text: bytes, p: nat, k: nat)
    requires OnlyToken(alts, text, p, k) && SomeFits(alts, text, Group(p, p + k)) && AllTake(alts)
    ensures 0 < k && ShowsJust(alts, text, [Group(p, p + k)]) && Gapped([Group(p, p + k)], |text|)
  {
    hide AltLen, LeftFits, TakesSomething;
    var g := Group(p, p + k);
    var alt :| alt in alts && Fits(alt, text, g);
    AltTakesSomething(alt, text[p..]);
    forall h
      ensures SomeFits(alts, text, h) <==> h in [g]
    {
      if SomeFits(alts, text, h) {
        var other :| other in alts && Fits(other, text, h);
        assert OnlyTokenAt(other, text, p, k, h.start);
      }
    }
  }

  /** The token is found, and nothing else. */
  lemma TokenIsFound(p: Pass, before: bytes, token: bytes, tail: bytes)
    requires Proper(p) && var text := before + token + tail;
             ShowsJust(p.alts, text, [Group(|before|, |before| + |token|)]) && Gapped([Group(|before|, |before| + |token|)], |text|)
    ensures RunPass(p, before + token + tail) == before + p.rule.repl(token) + tail[|EchoIn(p.rule, token, tail)|..]
  {
    hide ShowsJust, Gapped;
    var text, g := before + token + tail, Group(|before|, |before| + |token|);
    GroupsAreThePlaces(p.alts, text, [g]);
    WriteOneGroup(p.rule, text, g);
    assert text[..g.start] == before && text[g.start..g.end] == token && text[g.end..] == tail;
    assert text[EchoEnd(p.rule, text, g)..] == tail[|EchoIn(p.rule, token, tail)|..];
  }

  /** What the rule takes away behind the token. */
  function EchoIn(r: Rule, token: bytes, tail: bytes): (e: bytes)
    ensures |e| <= |tail| && tail[..|e|] == e
  {
    if HasPrefix(tail, r.echo(token)) then r.echo(token) else []
  }

  /** A token of pass n stands between before and tail. The shapes of that pass have fixed sizes, none of
      them begins anywhere else, and no shape of another pass begins anywhere: those of the passes before
      not in the text, those of the passes behind neither there nor in what the pass leaves, with the echo
      of the token or without it. */
  ghost predicate Shown(passes: seq<Pass>, n: nat, before: bytes, token: bytes, tail: bytes) {
    && n < |passes| && PassesSteady(passes) && AllRigid(passes[n].alts)
    && var text, r := before + token + tail, passes[n].rule;
       && OnlyToken(passes[n].alts, text, |before|, |token|)
       && SomeFits(passes[n].alts, text, Group(|before|, |before| + |token|))
       && PassesAbsent(passes[..n], text) && PassesAbsent(passes[n + 1..], text)
       && PassesAbsent(passes[n + 1..], before + r.repl(token) + tail)
       && PassesAbsent(passes[n + 1..], before + r.repl(token) + tail[|EchoIn(r, token, tail)|..])
  }

  lemma SteadyIsProper(passes: seq<Pass>)
    requires PassesSteady(passes)
    ensures forall p | p in passes :: Proper(p)
  {
    hide TakesSomething, Steady;
  }

  lemma SteadyParts(passes: seq<Pass>, n: nat)
    requires PassesSteady(passes) && n < |passes|
    ensures PassesSteady(passes[..n]) && PassesSteady(passes[n + 1..]) && AllSteady(passes[n].alts) && Proper(passes[n])
  {
    hide TakesSomething, Steady;
    assert forall p | p in passes[..n] :: p in passes;
    assert forall p | p in passes[n + 1..] :: p in passes;
  }

  /** Detokenize of a text that shows the token. */
  lemma ShownIsRestored(passes: seq<Pass>, n: nat, before: bytes, token: bytes, tail: bytes)
    requires Shown(passes, n, before, token, tail)
    ensures token != [] && forall p | p in passes :: Proper(p)
    ensures var r := passes[n].rule;
            Detokenize(passes, before + token + tail) == before + r.repl(token) + tail[|EchoIn(r, token, tail)|..]
  {
    var text, r := before + token + tail, passes[n].rule;
    var out := before + r.repl(token) + tail[|EchoIn(r, token, tail)|..];
    SteadyIsProper(passes);
    SteadyParts(passes, n);
    hide PassesSteady, AllSteady, OnlyToken, SomeFits, PassesAbsent, AllRigid, ShowsJust, Gapped, EchoIn, FindsNothing, RunPass;
    OnlyTokenFits(passes[n].alts, text, |before|, |token|);
    TokenIsFound(passes[n], before, token, tail);
    AbsentFindNothing(passes[..n], text);
    AbsentFindNothing(passes[n + 1..], out);
    DetokenizedByOne(passes, n, text, out);
  }

  // ------------------------------------------------------------------ stretches of the text

  /** What restoring makes of the stretch i..j. */
  function StretchOut(r: Rule, before: bytes, token: bytes, tail: bytes, i: nat, j: nat): bytes
    requires i <= j <= |before + token + tail|
  {
    var p, end, e := |before|, |before| + |token|, |EchoIn(r, token, tail)|;
    if p < i || j < end then (before + token + tail)[i..j]
    else before[i..] + r.repl(token) + tail[if end + e <= j then e else 0..j - end]
  }

  lemma RigidIsMonotone(alt: Alt, x: bytes, y: bytes)
    requires Rigid(alt)
    ensures AltLen(alt, x).Some? ==> AltLen(alt, x + y) == AltLen(alt, x)
  {
    hide Exact;
    if AltLen(alt, x).Some? {
      ItemsExtend(alt.items, x, y);
    }
  }

  lemma OnlyTokenInStretch(alts: seq<Alt>, text: bytes, p: nat, k: nat, i: nat, j: nat)
    requires AllRigid(alts) && OnlyToken(alts, text, p, k) && i <= j <= |text|
    ensures i <= p ==> OnlyToken(alts, text[i..j], p - i, k)
    ensures p < i || j < p + k ==> forall alt, q: nat | alt in alts && q <= j - i :: AltLen(alt, text[i..j][q..]).None?
  {
    hide AltLen, Rigid;
    forall alt, q: nat | alt in alts && q <= j - i
      ensures AltLen(alt, text[i..j][q..]).Some? ==>
                i + q == p && AltLen(alt, text[i..j][q..]) == Some(k) && k <= j - i - q
    {
      StretchTail(text, i, j, q);
      RigidIsMonotone(alt, text[i..j][q..], text[j..]);
      assert OnlyTokenAt(alt, text, p, k, i + q);
    }
  }

  lemma FitsInStretch(alts: seq<Alt>, text: bytes, p: nat, k: nat, i: nat, j: nat)
    requires AllRigid(alts) && SomeFits(alts, text, Group(p, p + k)) && i <= p && p + k <= j <= |text|
    ensures SomeFits(alts, text[i..j], Group(p - i, p - i + k))
  {
    hide Rigid;
    var alt :| alt in alts && Fits(alt, text, Group(p, p + k));
    FitsShrinks(alt, text, p, k, i, j);
  }

  lemma FitsShrinks(alt: Alt, text: bytes, p: nat, k: nat, i: nat, j: nat)
    requires Rigid(alt) && Fits(alt, text, Group(p, p + k)) && i <= p && p + k <= j <= |text|
    ensures Fits(alt, text[i..j], Group(p - i, p - i + k))
  {
    var x := text[i..j][p - i..];
    StretchTail(text, i, j, p - i);
    RigidShrinks(alt, x, text[j..]);
    hide Rigid, AltLen;
    assert p > i ==> text[i..j][p - i - 1] == text[p - 1];
  }

  lemma RigidShrinks(alt: Alt, x: bytes, y: bytes)
    requires Rigid(alt) && AltLen(alt, x + y).Some? && AltLen(alt, x + y).value <= |x|
    ensures AltLen(alt, x) == AltLen(alt, x + y)
  {
    hide Exact;
    ItemsShrink(alt.items, x, y);
  }

  /** A stretch that holds the token shows it. */
  lemma ShownInStretch(passes: seq<Pass>, n: nat, before: bytes, token: bytes, tail: bytes, i: nat, j: nat)
    requires Shown(passes, n, before, token, tail) && i <= |before| && |before| + |token| <= j <= |before + token + tail|
    ensures Shown(passes, n, before[i..], token, tail[..j - |before| - |token|])
    ensures var t, e := tail[..j - |before| - |token|], EchoIn(passes[n].rule, token, tail);
            EchoIn(passes[n].rule, token, t) == if |e| <= |t| then e else []
  {
    var r, m := passes[n].rule, j - |before| - |token|;
    ShownParts(passes, n, before, token, tail);
    SteadyParts(passes, n);
    EchoInStretch(r, token, tail, m);
    hide *;
    TokenInStretch(passes[n].alts, before, token, tail, i, m);
    QuietInStretch(passes[..n], before, token, tail, i, m);
    QuietInStretch(passes[n + 1..], before, token, tail, i, m);
    RestoredInStretch(passes[n + 1..], r, before, token, tail, i, m);
    PartsAreShown(passes, n, before[i..], token, tail[..m]);
  }

  lemma TokenInStretch(alts: seq<Alt>, before: bytes, token: bytes, tail: bytes, i: nat, m: nat)
    requires i <= |before| && m <= |tail| && AllRigid(alts)
    requires var text := before + token + tail;
             OnlyToken(alts, text, |before|, |token|) && SomeFits(alts, text, Group(|before|, |before| + |token|))
    ensures var b := before[i..];
            var piece := b + token + tail[..m];
            OnlyToken(alts, piece, |b|, |token|) && SomeFits(alts, piece, Group(|b|, |b| + |token|))
  {
    hide *;
    var text, j := before + token + tail, |before| + |token| + m;
    assert text[i..j] == before[i..] + token + tail[..m];
    OnlyTokenInStretch(alts, text, |before|, |token|, i, j);
    FitsInStretch(alts, text, |before|, |token|, i, j);
  }

  lemma QuietInStretch(passes: seq<Pass>, before: bytes, token: bytes, tail: bytes, i: nat, m: nat)
    requires i <= |before| && m <= |tail| && PassesSteady(passes) && PassesAbsent(passes, before + token + tail)
    ensures PassesAbsent(passes, before[i..] + token + tail[..m])
  {
    hide *;
    var text, j := before + token + tail, |before| + |token| + m;
    assert text[i..j] == before[i..] + token + tail[..m];
    PassesAbsentInStretch(passes, text, i, j);
  }

  lemma ShownParts(passes: seq<Pass>, n: nat, before: bytes, token: bytes, tail: bytes)
    requires Shown(passes, n, before, token, tail)
    ensures n < |passes| && PassesSteady(passes) && AllRigid(passes[n].alts)
    ensures var text, r := before + token + tail, passes[n].rule;
            && OnlyToken(passes[n].alts, text, |before|, |token|)
            && SomeFits(passes[n].alts, text, Group(|before|, |before| + |token|))
            && PassesAbsent(passes[..n], text) && PassesAbsent(passes[n + 1..], text)
            && PassesAbsent(passes[n + 1..], before + r.repl(token) + tail)
            && PassesAbsent(passes[n + 1..], before + r.repl(token) + tail[|EchoIn(r, token, tail)|..])
  {
    hide PassesSteady, AllRigid, OnlyToken, SomeFits, PassesAbsent, EchoIn;
  }

  lemma PartsAreShown(passes: seq<Pass>, n: nat, before: bytes, token: bytes, tail: bytes)
    requires n < |passes| && PassesSteady(passes) && AllRigid(passes[n].alts)
    requires var text, r := before + token + tail, passes[n].rule;
             && OnlyToken(passes[n].alts, text, |before|, |token|)
             && SomeFits(passes[n].alts, text, Group(|before|, |before| + |token|))
             && PassesAbsent(passes[..n], text) && PassesAbsent(passes[n + 1..], text)
             && PassesAbsent(passes[n + 1..], before + r.repl(token) + tail)
             && PassesAbsent(passes[n + 1..], before + r.repl(token) + tail[|EchoIn(r, token, tail)|..])
    ensures Shown(passes, n, before, token, tail)
  {
    hide PassesSteady, AllRigid, OnlyToken, SomeFits, PassesAbsent, EchoIn;
  }

  /** What restoring leaves of the stretch. */
  lemma RestoredInStretch(passes: seq<Pass>, r: Rule, before: bytes, token: bytes, tail: bytes, i: nat, m: nat)
    requires PassesSteady(passes) && i <= |before| && m <= |tail|
    requires PassesAbsent(passes, before + r.repl(token) + tail)
    requires PassesAbsent(passes, before + r.repl(token) + tail[|EchoIn(r, token, tail)|..])
    ensures var t := tail[..m];
            && PassesAbsent(passes, before[i..] + r.repl(token) + t)
            && PassesAbsent(passes, before[i..] + r.repl(token) + t[|EchoIn(r, token, t)|..])
  {
    var t, value, e := tail[..m], r.repl(token), EchoIn(r, token, tail);
    EchoInStretch(r, token, tail, m);
    hide PassesSteady, PassesAbsent, EchoIn;
    assert tail[0..] == tail && tail[0..m] == t && t[0..] == t;
    AbsentBehind(passes, before, value, tail, i, 0, m);
    if |e| <= m {
      assert t[|e|..] == tail[|e|..m];
      AbsentBehind(passes, before, value, tail, i, |e|, m);
    }
  }

  lemma EchoInStretch(r: Rule, token: bytes, tail: bytes, m: nat)
    requires m <= |tail|
    ensures EchoIn(r, token, tail[..m]) == if |EchoIn(r, token, tail)| <= m then EchoIn(r, token, tail) else []
  {
    var e := r.echo(token);
    if |e| <= m {
      assert tail[..m][..|e|] == tail[..|e|];
    }
  }

  lemma AbsentBehind(passes: seq<Pass>, before: bytes, value: bytes, tail: bytes, i: nat, from: nat, m: nat)
    requires PassesSteady(passes) && i <= |before| && from <= m <= |tail|
    requires PassesAbsent(passes, before + value + tail[from..])
    ensures PassesAbsent(passes, before[i..] + value + tail[from..m])
  {
    var text := before + value + tail[from..];
    var j := |before| + |value| + (m - from);
    assert text[i..j] == before[i..] + value + tail[from..m];
    PassesAbsentInStretch(passes, text, i, j);
  }

  /** A stretch that does not hold all of the token stays as it is. */
  lemma UnshownStretch(passes: seq<Pass>, n: nat, before: bytes, token: bytes, tail: bytes, i: nat, j: nat)
    requires Shown(passes, n, before, token, tail) && i <= j <= |before + token + tail|
    requires |before| < i || j < |before| + |token|
    ensures forall p | p in passes :: Proper(p)
    ensures Detokenize(passes, (before + token + tail)[i..j]) == (before + token + tail)[i..j]
  {
    var text := before + token + tail;
    var piece := text[i..j];
    SteadyIsProper(passes);
    SteadyParts(passes, n);
    hide PassesSteady, AllSteady, OnlyToken, SomeFits, PassesAbsent, AllRigid, FindsNothing, RunPass;
    OnlyTokenInStretch(passes[n].alts, text, |before|, |token|, i, j);
    NothingBegins(passes[n], piece);
    FoundNothing(passes[n], piece);
    PassesAbsentInStretch(passes[..n], text, i, j);
    PassesAbsentInStretch(passes[n + 1..], text, i, j);
    AbsentFindNothing(passes[..n], piece);
    AbsentFindNothing(passes[n + 1..], piece);
    DetokenizedByOne(passes, n, piece, piece);
  }

  lemma NothingBegins(p: Pass, text: bytes)
    requires Proper(p) && forall alt, q: nat | alt in p.alts && q <= |text| :: AltLen(alt, text[q..]).None?
    ensures FindsNothing(p, text)
  {
    hide MatchAt, AltLen, LeftFits;
    forall q: nat | q < |text|
      ensures MatchAt(p.alts, text, q).None?
    {
      if MatchAt(p.alts, text, q).Some? {
        FoundFits(p.alts, text, q);
        var alt :| alt in p.alts && Fits(alt, text, MatchAt(p.alts, text, q).value);
      }
    }
  }

  /** Detokenize of every stretch. */
  lemma StretchIsRestored(passes: seq<Pass>, n: nat, before: bytes, token: bytes, tail: bytes, i: nat, j: nat)
    requires Shown(passes, n, before, token, tail) && i <= j <= |before + token + tail|
    ensures forall p | p in passes :: Proper(p)
    ensures Detokenize(passes, (before + token + tail)[i..j]) == StretchOut(passes[n].rule, before, token, tail, i, j)
  {
    hide Shown, EchoIn, Detokenize;
    if |before| < i || j < |before| + |token| {
      UnshownStretch(passes, n, before, token, tail, i, j);
    } else {
      var t := tail[..j - |before| - |token|];
      assert (before + token + tail)[i..j] == before[i..] + token + t;
      ShownInStretch(passes, n, before, token, tail, i, j);
      ShownIsRestored(passes, n, before[i..], token, t);
    }
  }
}

/**
 When Detokenize leaves a text as it is (internal/redact/engine.go), and a text that Tokenize leaves as
 it is and Detokenize does not.
 */
module Unchanged {
  import opened Bytes
  import opened Scanning
  import opened Restore
  import opened TokenShapes
  import opened ExactShapes
  import opened SingleToken
  import opened WriteBack
  import opened TokenTexts
  import opened AllShapes
  import opened StreamDetokenize
  import Utf8

  // ------------------------------------------------------------------ nothing found changes anything

  /** Every group that the pass finds is replaced by itself, and nothing is taken away behind it. */
  ghost predicate Idle(p: Pass, text: bytes)
    requires Proper(p)
  {
    forall i | 0 <= i < |Groups(p.alts, text)| :: IdleAt(p.rule, text, Groups(p.alts, text)[i])
  }

  predicate IdleAt(r: Rule, text: bytes, g: Group)
    requires g.start <= g.end <= |text|
  {
    r.repl(text[g.start..g.end]) == text[g.start..g.end] && EchoEnd(r, text, g) == g.end
  }

  lemma {:induction false} IdleWrites(r: Rule, text: bytes, groups: seq<Group>, last: nat)
    requires Within(groups, |text|) && last <= |text|
    requires forall i | 0 <= i < |groups| :: IdleAt(r, text, groups[i])
    ensures Write(r, text, groups, last) == text[last..]
  {
    hide EchoEnd;
    if groups != [] {
      var g := groups[0];
      assert IdleAt(r, text, g);
      forall i | 0 <= i < |groups[1..]|
        ensures IdleAt(r, text, groups[1..][i])
      {
        assert groups[1..][i] == groups[i + 1];
      }
      IdleWrites(r, text, groups[1..], last);
      IdleWrites(r, text, groups[1..], g.end);
      assert g.start >= last ==> text[last..] == text[last..g.start] + text[g.start..g.end] + text[g.end..];
    }
  }

  /** If every pass is idle, then every text stays as it is. */
  lemma {:induction false} IdleStays(passes: seq<Pass>, text: bytes)
    requires forall p | p in passes :: Proper(p) && Idle(p, text)
    ensures Detokenize(passes, text) == text
  {
    hide Idle, Proper;
    if passes != [] {
      var p := passes[0];
      IdlePass(p, text);
      IdleStays(passes[1..], text);
    }
  }

  lemma IdlePass(p: Pass, text: bytes)
    requires Proper(p) && Idle(p, text)
    ensures RunPass(p, text) == text
  {
    IdleWrites(p.rule, text, Groups(p.alts, text), 0);
    assert text[0..] == text;
  }

  /** A rule that changes nothing at all. */
  ghost predicate IdleRule(r: Rule) {
    forall tok: bytes :: r.repl(tok) == tok && r.echo(tok) == []
  }

  lemma IdleRuleIsIdle(p: Pass, text: bytes)
    requires Proper(p) && IdleRule(p.rule)
    ensures Idle(p, text)
  {}

  lemma RulesAreIdle(l: Lookups)
    requires l.token2real == map[] && forall m: bytes :: l.ipv6(m) == m
    ensures IdleRule(DomainRule(l)) && IdleRule(EmailRule(l)) && IdleRule(Ipv4Rule(l)) && IdleRule(Rule(l.ipv6, NoEcho()))
    ensures IdleRule(IntlPhoneRule(l)) && IdleRule(PlainRule(l))
  {}

  lemma FullRules(l: Lookups, p: Pass)
    requires p in Full(l)
    ensures p.rule == DomainRule(l) || p.rule == EmailRule(l) || p.rule == Ipv4Rule(l) || p.rule == Rule(l.ipv6, NoEcho())
            || p.rule == IntlPhoneRule(l) || p.rule == PlainRule(l)
  {
    FullParts(l);
    hide Full, DomainRule, EmailRule, Ipv4Rule, IntlPhoneRule, PlainRule, Join;
  }

  /** While no token is known, Detokenize leaves every text alone. */
  lemma NothingKnownStays(l: Lookups, text: bytes)
    requires l.token2real == map[] && forall m: bytes :: l.ipv6(m) == m
    ensures Detokenized(l, text) == text
  {
    DetokenizedIs(l, text);
    RulesAreIdle(l);
    hide Full, Detokenized, Proper, Idle, IdleRule, Detokenize, DomainRule, EmailRule, Ipv4Rule, IntlPhoneRule, PlainRule, NoEcho;
    forall p | p in Full(l)
      ensures Proper(p) && Idle(p, text)
    {
      FullRules(l, p);
      IdleRuleIsIdle(p, text);
    }
    IdleStays(Full(l), text);
  }

  // ------------------------------------------------------------------ a text that shows one credential

  /** The shapes of the last pass fit at one place of the text, and the passes before find nothing: the
      text is changed exactly if the rule turns the token into something else. */
  lemma LastPassChangesIff(passes: seq<Pass>, before: bytes, token: bytes, tail: bytes)
    requires passes != [] && Proper(passes[|passes| - 1]) && token != []
    requires ShowsJust(passes[|passes| - 1].alts, before + token + tail, [Group(|before|, |before| + |token|)])
    requires AllFindNothing(passes[..|passes| - 1], before + token + tail)
    requires EchoIn(passes[|passes| - 1].rule, token, tail) == []
    ensures forall p | p in passes :: Proper(p)
    ensures Detokenize(passes, before + token + tail) == before + passes[|passes| - 1].rule.repl(token) + tail
    ensures Detokenize(passes, before + token + tail) != before + token + tail
            <==> passes[|passes| - 1].rule.repl(token) != token
  {
    var n, text := |passes| - 1, before + token + tail;
    var p := passes[n];
    hide ShowsJust, FindsNothing, RunPass, EchoIn, AllTake;
    TokenIsFound(p, before, token, tail);
    assert tail[0..] == tail && passes[n + 1..] == [];
    DetokenizedByOne(passes, n, text, before + p.rule.repl(token) + tail);
    if p.rule.repl(token) != token {
      Different(before, token, tail, p.rule.repl(token));
    }
  }

  /** The same for a text and the place of the token in it. */
  lemma LastPassChangesAt(passes: seq<Pass>, text: bytes, g: Group)
    requires passes != [] && Proper(passes[|passes| - 1]) && g.start < g.end <= |text|
    requires ShowsJust(passes[|passes| - 1].alts, text, [g]) && AllFindNothing(passes[..|passes| - 1], text)
    requires EchoIn(passes[|passes| - 1].rule, text[g.start..g.end], text[g.end..]) == []
    ensures forall p | p in passes :: Proper(p)
    ensures Detokenize(passes, text) != text
            <==> passes[|passes| - 1].rule.repl(text[g.start..g.end]) != text[g.start..g.end]
  {
    hide *;
    var before, token, tail := text[..g.start], text[g.start..g.end], text[g.end..];
    assert text == before + token + tail;
    assert g == Group(|before|, |before| + |token|);
    LastPassChangesIff(passes, before, token, tail);
  }

  lemma LastOfFull(l: Lookups, token: bytes, tail: bytes)
    ensures |Full(l)| == 6 && Full(l)[..5] == StructuredPasses(l) && Full(l)[5].alts == Join(ALL_GROUPS)
    ensures EchoIn(Full(l)[5].rule, token, tail) == []
    ensures Full(l)[5].rule.repl(token) == if token in l.token2real then l.token2real[token] else token
    ensures forall p | p in Full(l) :: Proper(p)
  {
    FullIsSteady(l);
    FullIsProper(l);
    FullParts(l);
    hide Full, Join, Proper, StructuredPasses;
  }

  /** The credential shapes fit at one place of the text, and the passes before find nothing: Detokenize
      changes the text exactly if the token is known and stands for something else. */
  lemma RestoringChangesIff(l: Lookups, text: bytes, g: Group)
    requires g.start < g.end <= |text| && ShowsJust(Join(ALL_GROUPS), text, [g])
    requires AllFindNothing(StructuredPasses(l), text)
    ensures var token := text[g.start..g.end];
            Detokenized(l, text) != text <==> token in l.token2real && l.token2real[token] != token
  {
    hide *;
    DetokenizedIs(l, text);
    LastOfFull(l, text[g.start..g.end], text[g.end..]);
    LastPassChangesAt(Full(l), text, g);
  }

  lemma Different(before: bytes, token: bytes, tail: bytes, value: bytes)
    requires value != token
    ensures before + value + tail != before + token + tail
  {
    var a, b := before + value + tail, before + token + tail;
    assert a[|before|..|before| + |value|] == value && b[|before|..|before| + |token|] == token;
    assert a == b ==> |value| == |token|;
  }

  // ------------------------------------------------------------------ the tokens of blocked words

  predicate IsBlockToken(t: bytes) {
    |t| == 44 && t[..12] == "tok-blocked-" && forall i | 12 <= i < 44 :: Has(LowerHex, t[i])
  }

  /** Some byte of the word is no hexadecimal digit. */
  predicate NotHex(w: bytes) {
    || (|w| > 0 && !Has(LowerHex, w[0])) || (|w| > 2 && !Has(LowerHex, w[2]))
    || (|w| > 4 && !Has(LowerHex, w[4])) || (|w| > 6 && !Has(LowerHex, w[6]))
  }

  /** The word begins with no two bytes that follow each other in "ok-blocked-", and with no more than
      the first four of "tok-blocked-". */
  predicate ElsewhereOnly(w: bytes) {
    && |w| > 0 && w[0] != 'o' && w[0] != 'k' && w[0] != 'b' && w[0] != 'l'
    && (w[0] == 'c' ==> |w| > 1 && w[1] != 'k')
    && (w[0] == 'e' ==> |w| > 1 && w[1] != 'd')
    && (w[0] == 'd' ==> |w| > 1 && w[1] != '-')
    && (w[0] == '-' ==> |w| > 1 && w[1] == '-')
    && (w[0] == 't' ==> |w| > 5 && (w[4] != 'b' || w[5] != 'l'))
  }

  /** What tells the shape from every stretch of a block token. */
  predicate Foreign(alt: Alt) {
    && alt.items != []
    && match alt.items[0]
       case Word(w) => NotHex(w) && ElsewhereOnly(w)
       case Fold(w) => |w| > 0 && w[0] == 'r'
       case Run(k, lo, hi) => k == Digit && lo == hi == 3 && |alt.items| > 1 && alt.items[1].Word?
                              && |alt.items[1].text| > 0 && alt.items[1].text[0] == '-'
       case Star(_) => false
  }

  predicate AllForeign(alts: seq<Alt>) {
    forall alt | alt in alts :: Foreign(alt)
  }

  lemma BlockTokenBytes(t: bytes)
    requires IsBlockToken(t)
    ensures t[0] == 't' && t[1] == 'o' && t[2] == 'k' && t[3] == '-' && t[4] == 'b' && t[5] == 'l' && t[6] == 'o'
    ensures t[7] == 'c' && t[8] == 'k' && t[9] == 'e' && t[10] == 'd' && t[11] == '-'
  {
    assert forall i | 0 <= i < 12 :: t[i] == t[..12][i];
  }

  lemma PrefixAt(w: bytes, t: bytes, q: nat)
    requires q <= |t| && HasPrefix(t[q..], w)
    ensures q + |w| <= |t| && forall i | 0 <= i < |w| :: w[i] == t[q + i]
  {
    PrefixBytes(t[q..], w);
  }

  lemma ForeignWord(w: bytes, t: bytes, q: nat)
    requires IsBlockToken(t) && NotHex(w) && ElsewhereOnly(w) && q <= 44
    ensures !HasPrefix(t[q..], w)
  {
    BlockTokenBytes(t);
    hide HasPrefix;
    if HasPrefix(t[q..], w) {
      PrefixAt(w, t, q);
    }
  }

  lemma ForeignIsAbsent(alt: Alt, t: bytes)
    requires IsBlockToken(t) && Foreign(alt)
    ensures Absent(alt, t)
  {
    hide IsBlockToken, NotHex, ElsewhereOnly, ItemLen;
    forall q: nat | q <= |t|
      ensures ItemsLen(alt.items, t[q..]).None?
    {
      ForeignAt(alt, t, q);
    }
  }

  lemma ForeignAt(alt: Alt, t: bytes, q: nat)
    requires IsBlockToken(t) && Foreign(alt) && q <= |t|
    ensures ItemsLen(alt.items, t[q..]).None?
  {
    BlockTokenBytes(t);
    match alt.items[0]
    case Word(w) => ForeignWord(w, t, q);
    case Fold(w) => NoR(t, w, q);
    case Run(k, lo, hi) => DigitsThenDash(alt.items, t, q);
    case Star(k) =>
  }

  lemma NoR(t: bytes, w: bytes, q: nat)
    requires IsBlockToken(t) && |w| > 0 && w[0] == 'r' && q <= 44
    ensures !FoldedPrefix(t[q..], w)
  {
    BlockTokenBytes(t);
    if q < 44 {
      assert t[q..][0] == t[q];
      assert q >= 12 ==> Has(LowerHex, t[q]);
    }
  }

  lemma DigitsAndDash(items: seq<Item>, t: bytes, q: nat)
    requires q <= |t| && |items| > 1 && items[0] == Run(Digit, 3, 3) && ItemsLen(items, t[q..]).Some?
    requires items[1].Word? && |items[1].text| > 0 && items[1].text[0] == '-'
    ensures q + 3 < |t| && Has(Digit, t[q]) && t[q + 3] == '-'
  {
    var s := t[q..];
    ItemsLenParts(items, s);
    var n := RunLen(Digit, s, 3);
    assert n == 3 && Has(Digit, s[0]) && s[0] == t[q];
    ItemsLenParts(items[1..], s[3..]);
    PrefixBytes(s[3..], items[1].text);
    assert s[3..][0] == t[q + 3];
  }

  lemma DigitsThenDash(items: seq<Item>, t: bytes, q: nat)
    requires IsBlockToken(t) && q <= 44 && |items| > 1 && items[0] == Run(Digit, 3, 3)
    requires items[1].Word? && |items[1].text| > 0 && items[1].text[0] == '-'
    ensures ItemsLen(items, t[q..]).None?
  {
    BlockTokenBytes(t);
    hide ItemsLen;
    if ItemsLen(items, t[q..]).Some? {
      DigitsAndDash(items, t, q);
    }
  }

  lemma PhonesAreForeign()
    ensures AllForeign(PHONE_JWT) && AllForeign(BEARER_AWS) && AllForeign(MAC)
  {}

  lemma GitIsForeign()
    ensures AllForeign(PAN_GIT) && AllForeign(SLACK) && AllForeign(STRIPE_NPM)
  {}

  lemma SendgridIsForeign()
    ensures AllForeign(CONN_SENDGRID) && AllForeign(OCEAN_FLARE) && AllForeign(AZURE)
  {}

  lemma CircleIsForeign()
    ensures AllForeign(ARTIFACTORY_CIRCLE) && AllForeign(TERRAFORM) && AllForeign(SNYK)
  {}

  lemma OpenaiIsForeign()
    ensures AllForeign(BITBUCKET_VAULT) && AllForeign(OPENAI_ANTHROPIC) && AllForeign(RAZORPAY_SIGNED)
  {}

  lemma HashIsForeign()
    ensures Foreign(BLOCKED_HASH_HOST[1]) && Foreign(BLOCKED_HASH_HOST[2]) && AllForeign(CPASSWORD)
    ensures Foreign(PEM) && Foreign(AADHAAR)
  {}

  lemma StructuredAreForeign()
    ensures Foreign(EMAIL_LOCAL) && Foreign(IPV4) && Foreign(IPV6) && Foreign(INTL_PHONE)
  {}

  lemma GroupsAreForeign(i: nat, alt: Alt)
    requires i < |COMPACT_GROUPS| && alt in COMPACT_GROUPS[i]
    ensures Foreign(alt) || alt == Prefixed("tok-blocked-", 32)
  {
    PhonesAreForeign();
    GitIsForeign();
    SendgridIsForeign();
    CircleIsForeign();
    OpenaiIsForeign();
    HashIsForeign();
    hide Foreign;
  }

  /** Every credential shape but that of the block tokens is foreign to them. */
  lemma CredentialsAreForeign(alt: Alt)
    requires alt in Join(ALL_GROUPS)
    ensures Foreign(alt) || alt == Prefixed("tok-blocked-", 32)
  {
    InJoin(ALL_GROUPS, alt);
    var i :| 0 <= i < |ALL_GROUPS| && alt in ALL_GROUPS[i];
    FromGroups(i);
    hide Foreign, Join;
    if alt == PEM || alt == AADHAAR {
      HashIsForeign();
    } else {
      var k :| 0 <= k < |COMPACT_GROUPS| && COMPACT_GROUPS[k] == ALL_GROUPS[i];
      GroupsAreForeign(k, alt);
    }
  }

  function BlockShape(): Alt { Prefixed("tok-blocked-", 32) }

  lemma {:induction false} HasJoin(groups: seq<seq<Alt>>, i: nat, alt: Alt)
    requires i < |groups| && alt in groups[i]
    ensures alt in Join(groups)
  {
    if i > 0 {
      HasJoin(groups[1..], i - 1, alt);
    }
  }

  lemma BlockShapeIsThere()
    ensures BlockShape() in Join(ALL_GROUPS)
  {
    assert ALL_GROUPS[17] == BLOCKED_HASH_HOST;
    HasJoin(ALL_GROUPS, 17, BlockShape());
  }

  /** The shape of the block tokens takes all of one, and begins nowhere else in it. */
  lemma BlockShapeAt(t: bytes, q: nat)
    requires IsBlockToken(t) && q <= 44
    ensures AltLen(BlockShape(), t[q..]) == if q == 0 then Some(44) else None
  {
    BlockTokenBytes(t);
    var items := BlockShape().items;
    assert items[1..] == [Hex(32)] && items[1..][1..] == [];
    if q == 0 {
      var hex := t[12..];
      assert t[0..] == t && t[12..] == hex + [];
      RunOfAll(LowerHex, hex, []);
      ItemsLenStep(items[1..], hex, 32);
      ItemsLenStep(items, t, 12);
    } else if AltLen(BlockShape(), t[q..]).Some? {
      PrefixAt("tok-blocked-", t, q);
    }
  }

  lemma DomainIsAbsent(t: bytes)
    requires IsBlockToken(t)
    ensures Absent(DOMAIN, t)
  {
    BlockTokenBytes(t);
    hide IsBlockToken;
    forall q: nat | q <= |t|
      ensures ItemsLen(DOMAIN.items, t[q..]).None?
    {
      NoDomainAt(t, q);
    }
  }

  lemma NoDomainAt(t: bytes, q: nat)
    requires IsBlockToken(t) && q <= 44
    ensures ItemsLen(DOMAIN.items, t[q..]).None?
  {
    BlockTokenBytes(t);
    if q == 0 {
      var items := DOMAIN.items;
      assert items[1..] == [Hex(16)];
      assert t[0..] == t && t[3..][0] == '-';
      assert ItemLen(items[0], t) == Some(3) || ItemLen(items[0], t).None?;
      assert RunLen(LowerHex, t[3..], 16) == 0;
      assert ItemLen(Hex(16), t[3..]).None?;
    } else {
      NoDomainToken(t[q..]);
    }
  }

  lemma OnlyTheBlockToken(t: bytes)
    requires IsBlockToken(t)
    ensures OnlyToken(Join(ALL_GROUPS), t, 0, 44) && SomeFits(Join(ALL_GROUPS), t, Group(0, 44))
  {
    BlockShapeIsThere();
    BlockShapeAt(t, 0);
    assert t[0..] == t;
    assert Fits(BlockShape(), t, Group(0, 44));
    hide Join, IsBlockToken, AltLen, Foreign;
    forall alt, q: nat | alt in Join(ALL_GROUPS) && q <= |t|
      ensures OnlyTokenAt(alt, t, 0, 44, q)
    {
      CredentialsAreForeign(alt);
      if alt == BlockShape() {
        BlockShapeAt(t, q);
      } else {
        ForeignIsAbsent(alt, t);
        AbsentDoesNotBegin(alt, t, q);
      }
    }
  }

  lemma AbsentDoesNotBegin(alt: Alt, t: bytes, q: nat)
    requires Absent(alt, t) && q <= |t|
    ensures AltLen(alt, t[q..]).None?
  {}

  lemma ShapeIsAbsent(t: bytes, alt: Alt)
    requires IsBlockToken(t) && (alt == DOMAIN || Foreign(alt))
    ensures AllAbsent([alt], t)
  {
    if alt == DOMAIN {
      DomainIsAbsent(t);
    } else {
      ForeignIsAbsent(alt, t);
    }
    hide Absent;
  }

  lemma StructuredAreAbsent(l: Lookups, t: bytes)
    requires IsBlockToken(t)
    ensures PassesAbsent(StructuredPasses(l), t)
  {
    StructuredAreForeign();
    hide AllAbsent, IsBlockToken, Foreign, StructuredPasses;
    forall p | p in StructuredPasses(l)
      ensures AllAbsent(p.alts, t)
    {
      StructuredPass(l, p);
      ShapeIsAbsent(t, p.alts[0]);
    }
  }

  lemma ShownByLast(passes: seq<Pass>, t: bytes)
    requires passes != [] && PassesSteady(passes) && AllRigid(passes[|passes| - 1].alts)
    requires OnlyToken(passes[|passes| - 1].alts, t, 0, |t|) && SomeFits(passes[|passes| - 1].alts, t, Group(0, |t|))
    requires PassesAbsent(passes[..|passes| - 1], t)
    ensures Shown(passes, |passes| - 1, [], t, [])
  {
    hide OnlyToken, SomeFits, PassesAbsent, PassesSteady, AllRigid, EchoIn;
    assert [] + t + [] == t && passes[|passes|..] == [];
    NoPassesAbsent(passes[|passes| - 1].rule.repl(t), t);
  }

  /** The token of a blocked word shows itself and nothing else. */
  lemma BlockTokenIsShown(l: Lookups, t: bytes)
    requires IsBlockToken(t)
    ensures Shown(Full(l), 5, [], t, [])
  {
    hide *;
    assert |t| == 44 by { BlockTokenSize(t); }
    OnlyTheBlockToken(t);
    StructuredAreAbsent(l, t);
    FullIsSteady(l);
    LastOfFull(l, t, []);
    CredentialsAreRigid();
    ShownByLast(Full(l), t);
  }

  lemma BlockTokenSize(t: bytes)
    requires IsBlockToken(t)
    ensures |t| == 44
  {}

  lemma BlockTokenIsAscii(t: bytes)
    requires IsBlockToken(t)
    ensures Utf8.WellFormed(t)
  {
    BlockTokenBytes(t);
    Utf8.AsciiIsWellFormed(t);
  }

  lemma AloneIsReadable(alts: seq<Alt>, passes: seq<Pass>, t: bytes)
    requires OnlyToken(alts, t, 0, |t|) && SomeFits(alts, t, Group(0, |t|)) && AllTake(alts)
    requires PassesSteady(passes) && PassesAbsent(passes, t)
    ensures t != [] && ShowsJust(alts, t, [Group(0, |t|)]) && AllFindNothing(passes, t)
  {
    hide OnlyToken, SomeFits, PassesAbsent, PassesSteady, AllTake, ShowsJust, FindsNothing;
    OnlyTokenFits(alts, t, 0, |t|);
    AbsentFindNothing(passes, t);
  }

  lemma BlockTokenIsReadable(l: Lookups, t: bytes)
    requires IsBlockToken(t)
    ensures t != [] && ShowsJust(Join(ALL_GROUPS), t, [Group(0, |t|)]) && AllFindNothing(StructuredPasses(l), t)
  {
    hide *;
    BlockTokenSize(t);
    OnlyTheBlockToken(t);
    StructuredAreAbsent(l, t);
    StructuredAreSteady(l);
    CredentialsTake();
    AloneIsReadable(Join(ALL_GROUPS), StructuredPasses(l), t);
  }

  lemma CredentialsTake()
    ensures AllTake(Join(ALL_GROUPS))
  {
    AllShapesTakeSomething();
  }

  lemma NoPassesAbsent(value: bytes, t: bytes)
    ensures PassesAbsent([], t) && forall tail: bytes :: PassesAbsent([], [] + value + tail)
  {}
}

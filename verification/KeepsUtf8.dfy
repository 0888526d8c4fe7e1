/**
 Detokenize does not make invalid UTF-8 of valid text (internal/redact/engine.go,
 internal/redact/fuzz_test.go), when the values that it restores are valid themselves.
 */
module KeepsUtf8 {
  import opened Bytes
  import opened Scanning
  import opened Restore
  import opened TokenShapes
  import opened StreamDetokenize
  import opened Utf8
  import AllShapes
  import ExactShapes
  import WriteBack

  lemma {:induction false} Cancel(a: bytes, b: bytes)
    requires WellFormed(a) && WellFormed(a + b)
    ensures WellFormed(b)
  {
    if a == [] {
      ConcatNil(b);
    } else {
      var k := RuneLen(a);
      RuneLenIsLocal(a, b);
      assert (a + b)[k..] == a[k..] + b;
      Cancel(a[k..], b);
    }
  }

  // ------------------------------------------------------------------ every match begins and ends with ASCII

  predicate IsAscii(c: byte) { c as int < 0x80 }

  predicate FirstIsAscii(item: Item) {
    match item
    case Word(text) => text != [] && IsAscii(text[0])
    case Fold(text) => text != [] && IsAscii(text[0])
    case Run(_, lo, _) => 0 < lo
    case Star(_) => false
  }

  predicate LastIsAscii(item: Item) {
    match item
    case Word(text) => text != [] && IsAscii(text[|text| - 1])
    case Fold(text) => text != [] && IsAscii(text[|text| - 1])
    case Run(_, lo, _) => 0 < lo
    case Star(_) => false
  }

  /** The first item begins with an ASCII byte, and the last one ends with one; a last run may be empty if
      the item in front of it ends with an ASCII byte. */
  predicate AsciiEdges(alt: Alt) {
    && alt.items != [] && FirstIsAscii(alt.items[0])
    && (LastIsAscii(alt.items[|alt.items| - 1])
        || (|alt.items| > 1 && alt.items[|alt.items| - 1].Star? && LastIsAscii(alt.items[|alt.items| - 2])))
  }

  predicate AllAscii(alts: seq<Alt>) {
    forall alt | alt in alts :: AsciiEdges(alt)
  }

  lemma ItemBegins(item: Item, s: bytes)
    requires FirstIsAscii(item) && ItemLen(item, s).Some?
    ensures 0 < ItemLen(item, s).value && IsAscii(s[0])
  {
    if item.Word? {
      PrefixBytes(s, item.text);
    }
  }

  lemma ItemEnds(item: Item, s: bytes)
    requires LastIsAscii(item) && ItemLen(item, s).Some?
    ensures var n := ItemLen(item, s).value; 0 < n && IsAscii(s[n - 1])
  {
    if item.Word? {
      PrefixBytes(s, item.text);
    }
  }

  lemma StarEnds(item: Item, s: bytes)
    requires item.Star? && ItemLen(item, s).Some?
    ensures var n := ItemLen(item, s).value; n > 0 ==> IsAscii(s[n - 1])
  {}

  /** The first item and the others. */
  lemma TwoParts(items: seq<Item>, s: bytes)
    requires items != [] && ItemsLen(items, s).Some?
    ensures ItemLen(items[0], s).Some? && ItemsLen(items[1..], s[ItemLen(items[0], s).value..]).Some?
    ensures var n := ItemLen(items[0], s).value;
            var m := ItemsLen(items[1..], s[n..]).value;
            && ItemsLen(items, s).value == n + m
            && (m > 0 ==> s[n + m - 1] == s[n..][m - 1])
            && (|items| == 1 ==> m == 0)
            && (|items| == 2 ==> ItemsLen(items[1..], s[n..]) == ItemLen(items[1], s[n..]))
  {
    hide ItemLen;
    ExactShapes.ItemsLenParts(items, s);
    assert |items| == 2 ==> items[1..][0] == items[1] && items[1..][1..] == [];
  }

  lemma {:induction false} ItemsEnd(items: seq<Item>, s: bytes)
    requires items != [] && ItemsLen(items, s).Some?
    requires LastIsAscii(items[|items| - 1]) || (|items| > 1 && items[|items| - 1].Star? && LastIsAscii(items[|items| - 2]))
    ensures var n := ItemsLen(items, s).value; 0 < n && IsAscii(s[n - 1])
  {
    hide ItemLen, ItemsLen, IsAscii, LastIsAscii;
    TwoParts(items, s);
    var n := ItemLen(items[0], s).value;
    if |items| == 1 {
      ItemEnds(items[0], s);
    } else if |items| == 2 && !LastIsAscii(items[1]) {
      ItemEnds(items[0], s);
      StarEnds(items[1], s[n..]);
    } else {
      ItemsEnd(items[1..], s[n..]);
    }
  }

  /** The group lies between characters, and is valid text. */
  predicate Whole(text: bytes, g: Group) {
    g.start <= g.end <= |text| && CutPoint(text, g.start) && CutPoint(text, g.end) && WellFormed(text[g.start..g.end])
  }

  lemma {:induction false} EdgesAreWhole(text: bytes, g: Group)
    requires WellFormed(text) && g.start < g.end <= |text| && IsAscii(text[g.start]) && IsAscii(text[g.end - 1])
    ensures Whole(text, g)
  {
    if g.end < |text| {
      RuneStartNearby(text, g.end);
    }
    hide WellFormed;
    CutWellFormed(text, g.end);
    assert text[..g.end][g.start] == text[g.start];
    CutWellFormed(text[..g.end], g.start);
    assert text[..g.end][g.start..] == text[g.start..g.end];
  }

  lemma MatchEdges(alt: Alt, s: bytes)
    requires AsciiEdges(alt) && AltLen(alt, s).Some?
    ensures var n := AltLen(alt, s).value; 0 < n && IsAscii(s[0]) && IsAscii(s[n - 1])
  {
    hide ItemLen, ItemsLen, FirstIsAscii, LastIsAscii, IsAscii;
    TwoParts(alt.items, s);
    ItemBegins(alt.items[0], s);
    ItemsEnd(alt.items, s);
  }

  lemma FitsWhole(alt: Alt, text: bytes, g: Group)
    requires WellFormed(text) && AsciiEdges(alt) && WriteBack.Fits(alt, text, g)
    ensures Whole(text, g)
  {
    hide WellFormed, AltLen, AsciiEdges, IsAscii, LeftFits;
    var s := text[g.start..];
    MatchEdges(alt, s);
    assert s[0] == text[g.start] && s[g.end - g.start - 1] == text[g.end - 1];
    EdgesAreWhole(text, g);
  }

  lemma {:induction false} FoundAllWhole(alts: seq<Alt>, text: bytes, q: nat)
    requires WellFormed(text) && AllTake(alts) && AllAscii(alts) && Sane(At(alts, text), |text|)
    ensures forall g | g in FindAll(At(alts, text), |text|, q) :: Whole(text, g)
    decreases |text| - q
  {
    hide WellFormed, MatchAt, TakesSomething, AsciiEdges, Whole;
    if q < |text| {
      var m := MatchAt(alts, text, q);
      if m.None? {
        FoundAllWhole(alts, text, q + 1);
      } else {
        assert Advances(At(alts, text), |text|, q);
        FoundAllWhole(alts, text, m.value.end);
        WriteBack.FoundFits(alts, text, q);
        var alt :| alt in alts && WriteBack.Fits(alt, text, m.value);
        FitsWhole(alt, text, m.value);
      }
    }
  }

  // ------------------------------------------------------------------ rewriting

  /** The rule makes valid text of valid tokens, and takes valid text away. */
  ghost predicate Tame(r: Rule) {
    forall tok: bytes | WellFormed(tok) :: WellFormed(r.repl(tok)) && WellFormed(r.echo(tok))
  }

  lemma TailIsWellFormed(text: bytes, last: nat, g: Group)
    requires WellFormed(text) && last <= g.start && Whole(text, g) && WellFormed(text[last..])
    ensures WellFormed(text[last..g.start]) && WellFormed(text[g.end..])
  {
    hide WellFormed;
    var tail := text[last..];
    assert g.start < |text| ==> tail[g.start - last] == text[g.start];
    CutWellFormed(tail, g.start - last);
    assert tail[..g.start - last] == text[last..g.start];
    CutWellFormed(text, g.end);
  }

  lemma BehindEcho(r: Rule, text: bytes, g: Group)
    requires Tame(r) && Whole(text, g) && WellFormed(text[g.end..])
    ensures WellFormed(r.repl(text[g.start..g.end])) && WellFormed(text[EchoEnd(r, text, g)..])
  {
    hide WellFormed;
    var e, tail := r.echo(text[g.start..g.end]), text[g.end..];
    if HasPrefix(tail, e) {
      assert tail == e + tail[|e|..] && text[g.end + |e|..] == tail[|e|..];
      Cancel(e, tail[|e|..]);
    }
  }

  lemma {:induction false} WriteKeepsUtf8(r: Rule, text: bytes, groups: seq<Group>, last: nat)
    requires Tame(r) && WellFormed(text) && Within(groups, |text|) && last <= |text| && WellFormed(text[last..])
    requires forall g | g in groups :: Whole(text, g)
    ensures WellFormed(Write(r, text, groups, last))
  {
    hide WellFormed, Tame, Whole, EchoEnd;
    if groups != [] {
      var g := groups[0];
      if g.start < last {
        WriteKeepsUtf8(r, text, groups[1..], last);
      } else {
        assert g in groups;
        TailIsWellFormed(text, last, g);
        BehindEcho(r, text, g);
        WriteKeepsUtf8(r, text, groups[1..], EchoEnd(r, text, g));
        JoinWellFormed(text[last..g.start], r.repl(text[g.start..g.end]));
        JoinWellFormed(Piece(r, text, last, g), Write(r, text, groups[1..], EchoEnd(r, text, g)));
      }
    }
  }

  lemma PassKeepsUtf8(p: Pass, text: bytes)
    requires Proper(p) && AllAscii(p.alts) && Tame(p.rule) && WellFormed(text)
    ensures WellFormed(RunPass(p, text))
  {
    hide WellFormed, Tame, AllAscii, Whole;
    SearchIsSane(p.alts, text);
    FoundAllWhole(p.alts, text, 0);
    assert text[0..] == text;
    WriteKeepsUtf8(p.rule, text, Groups(p.alts, text), 0);
  }

  lemma {:induction false} PassesKeepUtf8(passes: seq<Pass>, text: bytes)
    requires forall p | p in passes :: Proper(p) && AllAscii(p.alts) && Tame(p.rule)
    requires WellFormed(text)
    ensures WellFormed(Detokenize(passes, text))
  {
    hide WellFormed, Tame, AllAscii, Proper, RunPass;
    if passes != [] {
      PassKeepsUtf8(passes[0], text);
      PassesKeepUtf8(passes[1..], RunPass(passes[0], text));
    }
  }

  // ------------------------------------------------------------------ the passes of Detokenize

  /** Real values, their suffixes and restored IPv6 addresses are valid text. */
  ghost predicate ValuesWellFormed(l: Lookups) {
    && (forall tok | tok in l.token2real :: WellFormed(l.token2real[tok]) && WellFormed(l.suffixOf(l.token2real[tok])))
    && (forall m: bytes | WellFormed(m) :: WellFormed(l.ipv6(m)))
  }

  lemma DomainRuleIsTame(l: Lookups)
    requires ValuesWellFormed(l)
    ensures Tame(DomainRule(l)) && Tame(PlainRule(l)) && Tame(Rule(l.ipv6, NoEcho()))
  {
    assert WellFormed([]);
    AsciiIsWellFormed(".");
    hide WellFormed;
    var r := DomainRule(l);
    forall tok: bytes | WellFormed(tok)
      ensures WellFormed(r.repl(tok)) && WellFormed(r.echo(tok))
    {
      if tok in l.token2real {
        JoinWellFormed(".", l.suffixOf(l.token2real[tok]));
      }
    }
  }

  /** Cutting valid text at an ASCII byte. */
  lemma CutAtAscii(s: bytes, i: nat)
    requires WellFormed(s) && i < |s| && s[i] as int < 0x80
    ensures WellFormed(s[..i]) && WellFormed(s[i..])
  {
    CutWellFormed(s, i);
  }

  lemma EmailRuleIsTame(l: Lookups)
    requires ValuesWellFormed(l)
    ensures Tame(EmailRule(l))
  {
    assert WellFormed([]);
    hide WellFormed, LastIndex;
    var r := EmailRule(l);
    forall tok: bytes | WellFormed(tok)
      ensures WellFormed(r.repl(tok)) && WellFormed(r.echo(tok))
    {
      if tok in l.token2real {
        var whole := l.token2real[tok];
        var at := LastIndex(whole, '@');
        if at >= 0 {
          CutAtAscii(whole, at);
        }
      }
    }
  }

  lemma Ipv4RuleIsTame(l: Lookups)
    requires ValuesWellFormed(l)
    ensures Tame(Ipv4Rule(l)) && Tame(IntlPhoneRule(l))
  {
    assert WellFormed([]);
    hide WellFormed, LastIndex, IndexOf, HasPrefix;
    var r := Ipv4Rule(l);
    forall m: bytes | WellFormed(m)
      ensures WellFormed(r.repl(m)) && WellFormed(r.echo(m))
    {
      var dot := LastIndex(m, '.');
      if dot >= 0 && m[..dot] in l.token2real {
        CutAtAscii(m, dot);
        JoinWellFormed(l.token2real[m[..dot]], m[dot..]);
      }
    }
  }

  lemma PhonesAreAscii()
    ensures AllAscii(PHONE_JWT) && AllAscii(BEARER_AWS) && AllAscii(MAC)
  {}

  lemma GitIsAscii()
    ensures AllAscii(PAN_GIT) && AllAscii(STRIPE_NPM)
  {}

  lemma SlackIsAscii()
    ensures AllAscii(SLACK) && AllAscii(OCEAN_FLARE)
  {}

  lemma SendgridIsAscii()
    ensures AllAscii(CONN_SENDGRID) && AllAscii(AZURE)
  {}

  lemma CircleIsAscii()
    ensures AllAscii(ARTIFACTORY_CIRCLE) && AllAscii(TERRAFORM)
  {}

  lemma SnykIsAscii()
    ensures AllAscii(SNYK) && AllAscii(BITBUCKET_VAULT)
  {}

  lemma OpenaiIsAscii()
    ensures AllAscii(OPENAI_ANTHROPIC) && AllAscii(RAZORPAY_SIGNED)
  {}

  lemma HashIsAscii()
    ensures AllAscii(BLOCKED_HASH_HOST) && AllAscii(CPASSWORD) && AsciiEdges(AADHAAR)
  {}

  lemma PemIsAscii()
    ensures AsciiEdges(PEM)
  {}

  lemma StructuredIsAscii()
    ensures AsciiEdges(DOMAIN) && AsciiEdges(EMAIL_LOCAL) && AsciiEdges(IPV4) && AsciiEdges(IPV6) && AsciiEdges(INTL_PHONE)
  {}

  lemma GroupsAreAscii()
    ensures forall i | 0 <= i < |COMPACT_GROUPS| :: AllAscii(COMPACT_GROUPS[i])
  {
    hide AllAscii;
    PhonesAreAscii();
    GitIsAscii();
    SlackIsAscii();
    SendgridIsAscii();
    CircleIsAscii();
    SnykIsAscii();
    OpenaiIsAscii();
    HashIsAscii();
  }

  lemma CredentialsAreAscii()
    ensures AllAscii(Join(ALL_GROUPS))
  {
    hide AsciiEdges, Join;
    GroupsAreAscii();
    HashIsAscii();
    PemIsAscii();
    forall alt | alt in Join(ALL_GROUPS)
      ensures AsciiEdges(alt)
    {
      InJoin(ALL_GROUPS, alt);
      var i :| 0 <= i < |ALL_GROUPS| && alt in ALL_GROUPS[i];
      FromGroups(i);
    }
  }

  lemma StructuredPassesTame(l: Lookups)
    requires ValuesWellFormed(l)
    ensures forall p | p in StructuredPasses(l) :: AllAscii(p.alts) && Tame(p.rule)
  {
    hide *;
    DomainRuleIsTame(l);
    EmailRuleIsTame(l);
    Ipv4RuleIsTame(l);
    forall p | p in StructuredPasses(l)
      ensures AllAscii(p.alts) && Tame(p.rule)
    {
      AllShapes.StructuredPass(l, p);
      OneIsAscii(p.alts[0]);
    }
  }

  lemma OneIsAscii(alt: Alt)
    requires alt == DOMAIN || alt == EMAIL_LOCAL || alt == IPV4 || alt == IPV6 || alt == INTL_PHONE
    ensures AllAscii([alt])
  {
    StructuredIsAscii();
    hide AsciiEdges;
  }

  lemma OnePassMore(a: seq<Pass>, last: Pass, text: bytes)
    requires forall p | p in a :: Proper(p) && AllAscii(p.alts) && Tame(p.rule)
    requires Proper(last) && AllAscii(last.alts) && Tame(last.rule) && WellFormed(text)
    ensures (forall p | p in a + [last] :: Proper(p)) && WellFormed(Detokenize(a + [last], text))
  {
    hide WellFormed, Tame, AllAscii, Proper, Detokenize;
    PassesKeepUtf8(a + [last], text);
  }

  /** Detokenize keeps valid text valid. */
  lemma DetokenizeKeepsUtf8(l: Lookups, text: bytes)
    requires ValuesWellFormed(l) && WellFormed(text)
    ensures WellFormed(Detokenized(l, text))
  {
    hide *;
    DetokenizedIs(l, text);
    FullIsProper(l);
    StructuredPassesTame(l);
    CredentialsAreAscii();
    DomainRuleIsTame(l);
    AllShapes.FullParts(l);
    AllShapes.CredentialsAreProper(l);
    OnePassMore(StructuredPasses(l), Pass(Join(ALL_GROUPS), PlainRule(l)), text);
  }
}

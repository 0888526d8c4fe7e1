/**
 What the passes for addresses, IPv4 networks and international phone numbers restore
 (detokenizeEmailLocalTokens, detokenizeIPv4Tokens and detokenizeIntlPhoneTokens in
 internal/redact/engine.go), in a text that shows one such token.
 */
module StructuredTokens {
  import opened Bytes
  import opened Scanning
  import opened Restore
  import opened TokenShapes
  import opened ExactShapes
  import opened SingleToken
  import opened WriteBack
  import opened TokenTexts
  import opened AllShapes
  import opened StreamDetokenize

  predicate Digits1to3(s: bytes) { 1 <= |s| <= 3 && AllDigits(s) }

  predicate AllDigits(s: bytes) { forall i | 0 <= i < |s| :: IsDigit(s[i]) }

  // ------------------------------------------------------------------ e-mail addresses

  function AtDomain(dom: bytes): bytes { "@" + dom }

  lemma {:induction false} LastIndexIs(s: bytes, c: byte, i: nat)
    requires i < |s| && s[i] == c && forall k | i < k < |s| :: s[k] != c
    ensures LastIndex(s, c) == i
  {}

  /** The token stands for the part in front of the "@" of the stored address, and nothing more. */
  lemma EmailRuleGives(l: Lookups, token: bytes, local: bytes, dom: bytes)
    requires token in l.token2real && l.token2real[token] == local + AtDomain(dom)
    requires forall i | 0 <= i < |dom| :: dom[i] != '@'
    ensures EmailRule(l).repl(token) == local && EmailRule(l).echo(token) == []
  {
    var whole := l.token2real[token];
    assert whole[|local|] == '@' && forall k | |local| < k < |whole| :: whole[k] == dom[k - |local| - 1];
    LastIndexIs(whole, '@', |local|);
    assert whole[..|local|] == local;
  }

  /** A text that shows the token of an address: Detokenize puts the local part in its place. */
  lemma EmailComesBack(l: Lookups, before: bytes, token: bytes, tail: bytes, local: bytes, dom: bytes)
    requires Shown(Full(l), 1, before, token, tail)
    requires token in l.token2real && l.token2real[token] == local + AtDomain(dom)
    requires forall i | 0 <= i < |dom| :: dom[i] != '@'
    ensures Detokenized(l, before + token + tail) == before + local + tail
  {
    hide *;
    EmailRuleGives(l, token, local, dom);
    EmailPass(l, token, tail);
    DetokenizedIs(l, before + token + tail);
    ShownIsRestored(Full(l), 1, before, token, tail);
    assert tail[0..] == tail;
  }

  lemma EmailPass(l: Lookups, token: bytes, tail: bytes)
    requires EmailRule(l).echo(token) == []
    ensures |Full(l)| == 6 && Full(l)[1].rule == EmailRule(l) && Full(l)[1..][0] == Full(l)[1] && EchoIn(EmailRule(l), token, tail) == []
  {
    FullIsSteady(l);
    FullParts(l);
    hide Full, StructuredPasses, EmailRule;
  }

  lemma AddressInPasses(passes: seq<Pass>, text: bytes, before: bytes, token: bytes, local: bytes, rest: bytes)
    requires passes != [] && (forall p | p in passes :: Proper(p)) && RunPass(passes[0], text) == before + token + rest
    requires Shown(passes[1..], 0, before, token, rest)
    requires var r := passes[1..][0].rule; r.repl(token) == local && EchoIn(r, token, rest) == []
    ensures Detokenize(passes, text) == before + local + rest
  {
    hide *;
    FirstPass(passes, text);
    ShownIsRestored(passes[1..], 0, before, token, rest);
    assert rest[0..] == rest;
  }

  /** The whole address: when the domain pass has restored what stands behind the "@", the address is
      back, once. */
  lemma AddressComesBack(l: Lookups, text: bytes, before: bytes, token: bytes, local: bytes, dom: bytes, after: bytes)
    requires token in l.token2real && l.token2real[token] == local + AtDomain(dom)
    requires forall i | 0 <= i < |dom| :: dom[i] != '@'
    requires Full(l) != [] && Proper(Full(l)[0]) && RunPass(Full(l)[0], text) == before + token + (AtDomain(dom) + after)
    requires Shown(Full(l)[1..], 0, before, token, AtDomain(dom) + after)
    ensures Detokenized(l, text) == before + (local + AtDomain(dom)) + after
  {
    hide *;
    var rest: bytes := AtDomain(dom) + after;
    EmailRuleGives(l, token, local, dom);
    EmailPass(l, token, rest);
    DetokenizedIs(l, text);
    AddressInPasses(Full(l), text, before, token, local, rest);
    Regrouped(before, local, AtDomain(dom), after);
  }

  lemma Regrouped(a: bytes, b: bytes, c: bytes, d: bytes)
    ensures a + b + (c + d) == a + (b + c) + d
  {}

  lemma FirstPass(passes: seq<Pass>, text: bytes)
    requires passes != [] && forall p | p in passes :: Proper(p)
    ensures Detokenize(passes, text) == Detokenize(passes[1..], RunPass(passes[0], text))
  {}

  // ------------------------------------------------------------------ one shape that varies in length

  /** A pass with one shape over a text in which it matches m, between before and after, and begins nowhere
      else. */
  lemma OnePass(alt: Alt, rule: Rule, before: bytes, m: bytes, after: bytes)
    requires Searchable(alt) && alt.left.AnyByte? && OnlyAt(alt, before + m + after, |before|)
    requires AltLen(alt, m + after) == Some(|m|) && rule.echo(m) == []
    ensures RunPass(Pass([alt], rule), before + m + after) == before + rule.repl(m) + after
  {
    hide AltLen, OnlyAt, Searchable, RunPass;
    var text := before + m + after;
    assert text[|before|..] == m + after;
    PassOfOne(alt, rule, text, |before|);
    assert text[..|before|] == before && text[|before|..|before| + |m|] == m && text[|before| + |m|..] == after;
  }

  lemma {:induction false} RunEnds(k: Class, x: bytes, rest: bytes, hi: nat)
    requires |x| <= hi && (forall i | 0 <= i < |x| :: Has(k, x[i])) && (|x| < hi ==> rest == [] || !Has(k, rest[0]))
    ensures RunLen(k, x + rest, hi) == |x|
  {
    if x == [] {
      ConcatNil(rest);
    } else {
      assert (x + rest)[1..] == x[1..] + rest;
      RunEnds(k, x[1..], rest, hi - 1);
    }
  }

  lemma WordTakes(w: bytes, rest: bytes)
    ensures ItemLen(Word(w), w + rest) == Some(|w|) && (w + rest)[|w|..] == rest
  {
    assert (w + rest)[..|w|] == w;
  }

  /** A word, up to three digits, another word, and some more digits. */
  lemma FourItems(items: seq<Item>, w: bytes, a: bytes, v: bytes, lo: nat, hi: nat, b: bytes, after: bytes)
    requires items == [Word(w), Run(Digit, 1, 3), Word(v), Run(Digit, lo, hi)] && v != [] && !IsDigit(v[0])
    requires Digits1to3(a) && lo <= |b| <= hi && AllDigits(b) && (|b| == hi || after == [] || !IsDigit(after[0]))
    ensures ItemsLen(items, w + (a + (v + (b + after)))) == Some(|w| + |a| + |v| + |b|)
  {
    var s3, s2 := b + after, v + (b + after);
    var s1 := a + s2;
    assert items[1..] == [Run(Digit, 1, 3), Word(v), Run(Digit, lo, hi)];
    assert items[1..][1..] == [Word(v), Run(Digit, lo, hi)] && items[1..][1..][1..] == [Run(Digit, lo, hi)];
    assert items[1..][1..][1..][1..] == [];
    RunEnds(Digit, b, after, hi);
    RunEnds(Digit, a, s2, 3);
    WordTakes(v, s3);
    WordTakes(w, s1);
    assert s1[|a|..] == s2 && s3[|b|..] == after;
    hide RunLen;
    ItemsLenStep(items[1..][1..][1..], s3, |b|);
    ItemsLenStep(items[1..][1..], s2, |v|);
    ItemsLenStep(items[1..], s1, |a|);
    ItemsLenStep(items, w + s1, |w|);
  }

  // ------------------------------------------------------------------ IPv4 networks

  function NetToken(net: bytes): bytes { "198.18." + net }

  function Ipv4Text(net: bytes, host: bytes): bytes { NetToken(net) + ("." + host) }

  lemma InFive(w: bytes, a: bytes, v: bytes, b: bytes, after: bytes)
    ensures var m := (w + a) + (v + b);
            && m + after == w + (a + (v + (b + after))) && |m| == |w| + |a| + |v| + |b|
            && (after != [] ==> (m + after)[|m|] == after[0])
  {}

  lemma EndsThere(alt: Alt, m: bytes, after: bytes)
    requires ItemsLen(alt.items, m + after) == Some(|m|) && (after == [] || !IsWordByte(after[0]))
    ensures AltLen(alt, m + after) == Some(|m|)
  {
    hide ItemsLen;
    assert after != [] ==> (m + after)[|m|] == after[0];
  }

  lemma Ipv4Takes(net: bytes, host: bytes, after: bytes)
    requires Digits1to3(net) && Digits1to3(host) && (after == [] || !IsWordByte(after[0]))
    ensures AltLen(IPV4, Ipv4Text(net, host) + after) == Some(|Ipv4Text(net, host)|)
  {
    hide AltLen, ItemsLen;
    FourItems(IPV4.items, "198.18.", net, ".", 1, 3, host, after);
    InFive("198.18.", net, ".", host, after);
    EndsThere(IPV4, Ipv4Text(net, host), after);
  }

  lemma Ipv4RuleGives(l: Lookups, net: bytes, host: bytes)
    requires Digits1to3(net) && Digits1to3(host)
    ensures var m, r := Ipv4Text(net, host), Ipv4Rule(l);
            && r.echo(m) == []
            && r.repl(m) == if NetToken(net) in l.token2real then l.token2real[NetToken(net)] + ("." + host) else m
  {
    var m, n := Ipv4Text(net, host), |NetToken(net)|;
    assert m[n] == '.' && forall k | n < k < |m| :: m[k] == host[k - n - 1];
    LastIndexIs(m, '.', n);
    assert m[..n] == NetToken(net) && m[n..] == "." + host;
  }

  lemma ShapesAreSearchable()
    ensures Searchable(IPV4) && Searchable(INTL_PHONE)
  {}

  /** The network part is looked up, and the last octet is carried through. */
  lemma Ipv4PassRestores(l: Lookups, before: bytes, net: bytes, host: bytes, after: bytes)
    requires Digits1to3(net) && Digits1to3(host) && (after == [] || !IsWordByte(after[0]))
    requires OnlyAt(IPV4, before + Ipv4Text(net, host) + after, |before|)
    ensures AllTake([IPV4])
    ensures RunPass(Pass([IPV4], Ipv4Rule(l)), before + Ipv4Text(net, host) + after) ==
            before + (if NetToken(net) in l.token2real then l.token2real[NetToken(net)] + ("." + host) else Ipv4Text(net, host)) + after
  {
    Ipv4Takes(net, host, after);
    Ipv4RuleGives(l, net, host);
    ShapesAreSearchable();
    hide AltLen, OnlyAt, RunPass, Ipv4Text, NetToken, Ipv4Rule;
    OnePass(IPV4, Ipv4Rule(l), before, Ipv4Text(net, host), after);
  }

  // ------------------------------------------------------------------ international phone numbers

  function PhoneKey(number: bytes): bytes { "555-" + number }

  function PhoneText(cc: bytes, number: bytes): bytes { ("+" + cc) + ("-" + PhoneKey(number)) }

  /** What is looked up: the token of the number, unless the country code hides it. */
  function LookedUp(cc: bytes, number: bytes): bytes { if cc == "555" then PhoneKey(PhoneKey(number)) else PhoneKey(number) }

  lemma PhoneTakes(cc: bytes, number: bytes, after: bytes)
    requires Digits1to3(cc) && |number| == 4 && AllDigits(number)
    ensures AltLen(INTL_PHONE, PhoneText(cc, number) + after) == Some(|PhoneText(cc, number)|)
  {
    hide ItemsLen;
    FourItems(INTL_PHONE.items, "+", cc, "-555-", 4, 4, number, after);
    InFive("+", cc, "-555-", number, after);
    assert PhoneText(cc, number) == ("+" + cc) + ("-555-" + number);
  }

  lemma {:induction false} IndexOfIs(s: bytes, p: bytes, i: nat)
    requires i <= |s| && HasPrefix(s[i..], p) && forall k | 0 <= k < i :: !HasPrefix(s[k..], p)
    ensures IndexOf(s, p) == i
    decreases i
  {
    assert s[0..] == s;
    if i > 0 {
      assert s[1..][i - 1..] == s[i..];
      forall k | 0 <= k < i - 1
        ensures !HasPrefix(s[1..][k..], p)
      {
        assert s[1..][k..] == s[k + 1..];
      }
      IndexOfIs(s[1..], p, i - 1);
    }
  }

  /** Where the stored part of the token begins: behind the country code, unless that is 555 itself. */
  lemma KeyAt(cc: bytes, number: bytes)
    requires Digits1to3(cc) && |number| == 4 && AllDigits(number)
    ensures IndexOf(PhoneText(cc, number), "555-") == if cc == "555" then 1 else |cc| + 2
    ensures PhoneText(cc, number)[if cc == "555" then 1 else |cc| + 2..] == LookedUp(cc, number)
  {
    var m, n := PhoneText(cc, number), |cc| + 2;
    KeyIsBehind(cc, number);
    hide PhoneText, HasPrefix, IndexOf;
    if cc == "555" {
      IndexOfIs(m, "555-", 1);
    } else {
      forall k | 0 <= k < n
        ensures !HasPrefix(m[k..], "555-")
      {
        NoKeyBefore(cc, number, k);
      }
      IndexOfIs(m, "555-", n);
    }
  }

  lemma KeyIsBehind(cc: bytes, number: bytes)
    requires Digits1to3(cc)
    ensures var m, n := PhoneText(cc, number), |cc| + 2;
            && n <= |m| && m[n..] == PhoneKey(number) && HasPrefix(m[n..], "555-") && !HasPrefix(m[0..], "555-")
            && (cc == "555" ==> m[1..] == PhoneKey(PhoneKey(number)) && HasPrefix(m[1..], "555-"))
  {
    var m, n := PhoneText(cc, number), |cc| + 2;
    assert m[n..] == PhoneKey(number) && m[n..][..4] == "555-";
    assert m[0..][0] == '+';
    if cc == "555" {
      assert m[1..] == PhoneKey(PhoneKey(number)) && m[1..][..4] == "555-";
    }
  }

  lemma NoKeyBefore(cc: bytes, number: bytes, k: nat)
    requires Digits1to3(cc) && |number| == 4 && cc != "555" && k < |cc| + 2
    ensures !HasPrefix(PhoneText(cc, number)[k..], "555-")
  {
    var m := PhoneText(cc, number);
    assert (forall i | 0 <= i < |cc| :: m[1 + i] == cc[i]) && m[0] == '+' && m[|cc| + 1] == '-';
    KeyBytes(m, k);
    FiveFiveFive(cc, m, k);
  }

  lemma KeyBytes(m: bytes, k: nat)
    requires k <= |m|
    ensures HasPrefix(m[k..], "555-") ==> k + 3 < |m| && m[k] == '5' && m[k + 1] == '5' && m[k + 2] == '5'
  {
    if HasPrefix(m[k..], "555-") {
      PrefixBytes(m[k..], "555-");
    }
  }

  /** Three fives and a dash can only be the country code. */
  lemma FiveFiveFive(cc: bytes, m: bytes, k: nat)
    requires Digits1to3(cc) && cc != "555" && k < |cc| + 2 < |m|
    requires (forall i | 0 <= i < |cc| :: m[1 + i] == cc[i]) && m[0] == '+' && m[|cc| + 1] == '-'
    ensures !(k + 3 < |m| && m[k] == '5' && m[k + 1] == '5' && m[k + 2] == '5')
  {
    assert |cc| == 3 ==> cc[0] != '5' || cc[1] != '5' || cc[2] != '5';
  }

  lemma PhoneRuleGives(l: Lookups, cc: bytes, number: bytes)
    requires Digits1to3(cc) && |number| == 4 && AllDigits(number)
    ensures var m, r := PhoneText(cc, number), IntlPhoneRule(l);
            var stored := LookedUp(cc, number);
            && r.echo(m) == []
            && r.repl(m) == if HasPrefix(stored, "555-01") || stored !in l.token2real then m else l.token2real[stored]
  {
    hide *;
    KeyAt(cc, number);
    RuleAt(l, PhoneText(cc, number), if cc == "555" then 1 else |cc| + 2);
  }

  lemma RuleAt(l: Lookups, m: bytes, i: nat)
    requires i <= |m| && IndexOf(m, "555-") == i
    ensures IntlPhoneRule(l).echo(m) == []
    ensures IntlPhoneRule(l).repl(m) == if HasPrefix(m[i..], "555-01") || m[i..] !in l.token2real then m else l.token2real[m[i..]]
  {
    hide IndexOf, HasPrefix;
  }

  /** The stored number takes the place of country code and token. A number in 555-01 is left to the pass of
      the credentials. The country code 555, which does not exist, would hide the token. */
  lemma PhonePassRestores(l: Lookups, before: bytes, cc: bytes, number: bytes, after: bytes)
    requires Digits1to3(cc) && |number| == 4 && AllDigits(number)
    requires OnlyAt(INTL_PHONE, before + PhoneText(cc, number) + after, |before|)
    ensures AllTake([INTL_PHONE])
    ensures var stored := LookedUp(cc, number);
            RunPass(Pass([INTL_PHONE], IntlPhoneRule(l)), before + PhoneText(cc, number) + after) ==
            before + (if HasPrefix(stored, "555-01") || stored !in l.token2real then PhoneText(cc, number)
                      else l.token2real[stored]) + after
  {
    PhoneTakes(cc, number, after);
    PhoneRuleGives(l, cc, number);
    ShapesAreSearchable();
    hide AltLen, OnlyAt, RunPass, PhoneText, IntlPhoneRule, HasPrefix;
    OnePass(INTL_PHONE, IntlPhoneRule(l), before, PhoneText(cc, number), after);
  }

  // ------------------------------------------------------------------ all passes

  /** What one of the passes makes of a text is what Detokenize makes of it, when the others find nothing. */
  lemma ByOnePass(l: Lookups, n: nat, text: bytes, out: bytes)
    requires n < |Full(l)| && Proper(Full(l)[n]) && RunPass(Full(l)[n], text) == out
    requires AllFindNothing(Full(l)[..n], text) && AllFindNothing(Full(l)[n + 1..], out)
    ensures Detokenized(l, text) == out
  {
    hide *;
    DetokenizedIs(l, text);
    DetokenizedByOne(Full(l), n, text, out);
  }

  lemma WhichPass(l: Lookups)
    ensures |Full(l)| == 6
    ensures Full(l)[2] == Pass([IPV4], Ipv4Rule(l)) && Full(l)[4] == Pass([INTL_PHONE], IntlPhoneRule(l))
  {
    FullParts(l);
    hide Full, Join, DomainRule, EmailRule, Ipv4Rule, IntlPhoneRule, PlainRule, NoEcho;
  }

  /** A known network in a text that shows nothing else: the real address is back. */
  lemma Ipv4ComesBack(l: Lookups, before: bytes, net: bytes, host: bytes, after: bytes, text: bytes, out: bytes)
    requires Digits1to3(net) && Digits1to3(host) && (after == [] || !IsWordByte(after[0]))
    requires NetToken(net) in l.token2real && text == before + Ipv4Text(net, host) + after
    requires out == before + (l.token2real[NetToken(net)] + ("." + host)) + after
    requires OnlyAt(IPV4, text, |before|)
    requires |Full(l)| == 6 && AllFindNothing(Full(l)[..2], text) && AllFindNothing(Full(l)[3..], out)
    ensures Detokenized(l, text) == out
  {
    hide *;
    WhichPass(l);
    Ipv4PassRestores(l, before, net, host, after);
    ProperIs(Full(l)[2]);
    ByOnePass(l, 2, text, out);
  }

  lemma ProperIs(p: Pass)
    ensures AllTake(p.alts) ==> Proper(p)
  {}

  /** A known number in a text that shows nothing else: the real number is back. */
  lemma PhoneComesBack(l: Lookups, before: bytes, cc: bytes, number: bytes, after: bytes, text: bytes, out: bytes)
    requires Digits1to3(cc) && |number| == 4 && AllDigits(number) && cc != "555"
    requires !HasPrefix(PhoneKey(number), "555-01") && PhoneKey(number) in l.token2real
    requires text == before + PhoneText(cc, number) + after && out == before + l.token2real[PhoneKey(number)] + after
    requires OnlyAt(INTL_PHONE, text, |before|)
    requires |Full(l)| == 6 && AllFindNothing(Full(l)[..4], text) && AllFindNothing(Full(l)[5..], out)
    ensures Detokenized(l, text) == out
  {
    hide *;
    WhichPass(l);
    PhonePassRestores(l, before, cc, number, after);
    NotHidden(cc, number);
    ProperIs(Full(l)[4]);
    ByOnePass(l, 4, text, out);
  }

  lemma NotHidden(cc: bytes, number: bytes)
    requires cc != "555"
    ensures LookedUp(cc, number) == PhoneKey(number)
  {}
}

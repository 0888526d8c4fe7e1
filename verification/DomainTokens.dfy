/**
 From a domain to its token and back: the tenant split is tried before the public suffix split,
 the token replaces the organization label, and restoring finds the same suffix again from the
 stored value alone (internal/redact/domainsplit.go, domainReplacement and lastNLabels in
 internal/redact/detector.go, detokenizeDomainTokens in internal/redact/engine.go).
 */
module DomainTokens {
  import opened Bytes
  import opened Scanning
  import opened Restore
  import opened TokenShapes
  import opened ExactShapes
  import opened SingleToken
  import opened StreamDetokenize
  import opened DomainSplit

  // ------------------------------------------------------------------ tenants

  /** The tenant label in front of one vendor suffix. */
  function TenantOf(fqdn: bytes, suffix: bytes): Option<Parts> {
    if !HasSuffix(fqdn, "." + suffix) then None
    else
      var rest := TrimSuffix(fqdn, "." + suffix);
      var d := LastIndex(rest, '.');
      if rest == [] || rest[d + 1..] == [] then None else Some(Parts(rest[..d + 1], rest[d + 1..], suffix))
  }

  /** The first suffix of the list that has a tenant in front. */
  function SplitTenantFrom(tenants: seq<bytes>, fqdn: bytes): Option<Parts> {
    if tenants == [] then None
    else if TenantOf(fqdn, tenants[0]).Some? then TenantOf(fqdn, tenants[0])
    else SplitTenantFrom(tenants[1..], fqdn)
  }

  predicate RealTenants(tenants: seq<bytes>) {
    forall i | 0 <= i < |tenants| :: tenants[i] != []
  }

  method SplitTenant(l: Lists, fqdn: bytes) returns (parts: Option<Parts>)
    ensures parts == SplitTenantFrom(l.tenants, fqdn)
  {
    for i := 0 to |l.tenants|
      invariant SplitTenantFrom(l.tenants[i..], fqdn) == SplitTenantFrom(l.tenants, fqdn)
    {
      parts := TenantOf(fqdn, l.tenants[i]);
      if parts.Some? {
        return;
      }
    }
    return None;
  }

  /** Both the token and its restoration split this way. */
  function Split(l: Lists, fqdn: bytes): Option<Parts> {
    if SplitTenantFrom(l.tenants, fqdn).Some? then SplitTenantFrom(l.tenants, fqdn) else SplitDomain(l, fqdn)
  }

  /** The tenant split is tried first. */
  method SplitEither(l: Lists, fqdn: bytes) returns (parts: Option<Parts>)
    ensures parts == Split(l, fqdn)
  {
    parts := SplitTenant(l, fqdn);
    if parts.None? {
      parts := SplitDomainOf(l, fqdn);
    }
  }

  /** front and the tenant label org stand in front of the vendor suffix. */
  predicate IsTenant(fqdn: bytes, suffix: bytes, front: bytes, org: bytes) {
    && IsLabel(org) && (front == [] || front[|front| - 1] == '.')
    && fqdn == (front + org) + ("." + suffix)
  }

  lemma TenantIff(fqdn: bytes, suffix: bytes, front: bytes, org: bytes)
    ensures IsTenant(fqdn, suffix, front, org) <==> TenantOf(fqdn, suffix) == Some(Parts(front, org, suffix))
  {
    if IsTenant(fqdn, suffix, front, org) {
      TenantIsFound(fqdn, suffix, front, org);
    } else if TenantOf(fqdn, suffix).Some? {
      TenantParts(fqdn, suffix);
    }
  }

  lemma TenantIsFound(fqdn: bytes, suffix: bytes, front: bytes, org: bytes)
    requires IsTenant(fqdn, suffix, front, org)
    ensures TenantOf(fqdn, suffix) == Some(Parts(front, org, suffix))
  {
    var rest := front + org;
    TrimOf(rest, "." + suffix);
    LastIndexBehind(front, org);
    NoDotInLabel(org);
    assert rest[..|front|] == front && rest[|front|..] == org;
  }

  lemma {:induction false} NoDotInLabel(org: bytes)
    requires IsLabel(org)
    ensures LastIndex(org, '.') == -1
  {}

  /** A vendor suffix with a tenant in front decides the split, whatever the public suffix list says; of
      several the first in the list. */
  lemma {:induction false} FirstTenantWins(l: Lists, tenants: seq<bytes>, fqdn: bytes, i: nat, front: bytes, org: bytes)
    requires i < |tenants| && IsTenant(fqdn, tenants[i], front, org)
    requires forall k, f, g | 0 <= k < i :: !IsTenant(fqdn, tenants[k], f, g)
    ensures SplitTenantFrom(tenants, fqdn) == Some(Parts(front, org, tenants[i]))
    ensures tenants == l.tenants ==> Split(l, fqdn) == Some(Parts(front, org, tenants[i]))
  {
    if i == 0 {
      TenantIff(fqdn, tenants[0], front, org);
    } else {
      NoTenant(fqdn, tenants[0]);
      FirstTenantWins(l, tenants[1..], fqdn, i - 1, front, org);
    }
  }

  lemma NoTenant(fqdn: bytes, suffix: bytes)
    requires forall f, g :: !IsTenant(fqdn, suffix, f, g)
    ensures TenantOf(fqdn, suffix).None?
  {
    hide TenantOf, IsTenant;
    if TenantOf(fqdn, suffix).Some? {
      var p := TenantOf(fqdn, suffix).value;
      TenantSuffix(fqdn, suffix);
      TenantIff(fqdn, suffix, p.subdomainPrefix, p.orgLabel);
    }
  }

  lemma TenantSuffix(fqdn: bytes, suffix: bytes)
    requires TenantOf(fqdn, suffix).Some?
    ensures TenantOf(fqdn, suffix).value.suffix == suffix
  {
    hide LastIndex, HasSuffix, TrimSuffix;
  }

  lemma TrimOf(a: bytes, t: bytes)
    ensures HasSuffix(a + t, t) && TrimSuffix(a + t, t) == a
  {
    assert (a + t)[|a|..] == t;
  }

  lemma {:induction false} LastIndexBehind(front: bytes, head: bytes)
    requires front == [] || front[|front| - 1] == '.'
    ensures LastIndex(front + head, '.') == |front| + LastIndex(head, '.')
  {
    hide LastIndex;
    var whole := front + head;
    assert forall k | 0 <= k < |head| :: whole[|front| + k] == head[k];
    if front != [] {
      assert whole[|front| - 1] == '.';
    }
  }

  lemma {:induction false} LastLabelBehind(front: bytes, head: bytes)
    requires front == [] || front[|front| - 1] == '.'
    ensures LastIndex(front + head, '.') == |front| + LastIndex(head, '.')
    ensures LastLabel(front + head) == LastLabel(head)
  {
    hide LastIndex;
    LastIndexBehind(front, head);
    DropJoined(front, head, LastIndex(head, '.') + 1);
  }

  lemma DropJoined(a: bytes, b: bytes, n: nat)
    requires n <= |b|
    ensures (a + b)[|a| + n..] == b[n..]
  {}

  /** A trailing part of the domain that has a tenant in front of a vendor suffix: so has the
      domain, and the tenant is the same. */
  lemma TenantOfEnd(fqdn: bytes, reg: bytes, suffix: bytes)
    requires EndsInLabels(fqdn, reg) && TenantOf(reg, suffix).Some?
    ensures TenantOf(fqdn, suffix).Some?
    ensures TenantOf(fqdn, suffix).value.orgLabel == TenantOf(reg, suffix).value.orgLabel
  {
    hide LastIndex, EndsInLabels, HasSuffix, TrimSuffix;
    var dotted: bytes := "." + suffix;
    var front := EndSplits(fqdn, reg);
    var head := SuffixSplits(reg, dotted);
    ConcatAssoc(front, head, dotted);
    TrimOf(head, dotted);
    TrimOf(front + head, dotted);
    LastLabelBehind(front, head);
  }

  lemma EndSplits(s: bytes, t: bytes) returns (front: bytes)
    requires EndsInLabels(s, t)
    ensures s == front + t && |front| == |s| - |t| && (front == [] || front[|front| - 1] == '.')
  {
    front := s[..|s| - |t|];
    assert s == front + t;
  }

  lemma SuffixSplits(s: bytes, t: bytes) returns (front: bytes)
    requires HasSuffix(s, t)
    ensures s == front + t
  {
    front := s[..|s| - |t|];
  }

  /** The registrable part has the same tenant and nothing in front of it. */
  lemma TenantParts(fqdn: bytes, suffix: bytes)
    requires TenantOf(fqdn, suffix).Some?
    ensures var p := TenantOf(fqdn, suffix).value;
            && p.suffix == suffix && IsLabel(p.orgLabel)
            && (p.subdomainPrefix == [] || p.subdomainPrefix[|p.subdomainPrefix| - 1] == '.')
            && fqdn == (p.subdomainPrefix + p.orgLabel) + ("." + suffix)
  {
    hide LastIndex, IsLabel;
    var p, dotted: bytes := TenantOf(fqdn, suffix).value, "." + suffix;
    var rest := TrimSuffix(fqdn, dotted);
    assert fqdn == rest + dotted;
    RestSplits(rest, p.subdomainPrefix, p.orgLabel);
  }

  lemma {:induction false} TenantOfLabel(org: bytes, suffix: bytes)
    requires IsLabel(org)
    ensures TenantOf(org + ("." + suffix), suffix) == Some(Parts([], org, suffix))
  {
    OneLabel(org);
    TrimOf(org, "." + suffix);
    hide LastIndex, IsLabel, HasSuffix, TrimSuffix;
  }

  lemma TenantOfRegistrable(fqdn: bytes, suffix: bytes)
    requires TenantOf(fqdn, suffix).Some?
    ensures var p := TenantOf(fqdn, suffix).value;
            && p.suffix == suffix && IsLabel(p.orgLabel)
            && EndsInLabels(fqdn, Registrable(p)) && p.subdomainPrefix + Registrable(p) == fqdn
            && TenantOf(Registrable(p), suffix) == Some(Parts([], p.orgLabel, suffix))
  {
    hide TenantOf, EndsInLabels, IsLabel, LastIndex, TrimSuffix;
    var p, dotted: bytes := TenantOf(fqdn, suffix).value, "." + suffix;
    TenantParts(fqdn, suffix);
    TenantOfLabel(p.orgLabel, suffix);
    ConcatAssoc(p.subdomainPrefix, p.orgLabel, dotted);
    ConcatAssoc(p.orgLabel, ".", suffix);
    EndsBehind(p.subdomainPrefix, Registrable(p));
  }

  lemma {:induction false} RestSplits(rest: bytes, front: bytes, last: bytes)
    requires var d := LastIndex(rest, '.'); front == rest[..d + 1] && last == rest[d + 1..] && last != []
    ensures rest == front + last && IsLabel(last) && (front == [] || front[|front| - 1] == '.')
  {
    hide LastIndex;
    var d := LastIndex(rest, '.');
    assert forall i | 0 <= i < |last| :: last[i] == rest[d + 1 + i];
  }

  lemma EndsBehind(front: bytes, reg: bytes)
    requires front == [] || front[|front| - 1] == '.'
    ensures EndsInLabels(front + reg, reg)
  {
    assert (front + reg)[|front|..] == reg;
  }

  lemma {:induction false} OneLabel(s: bytes)
    requires IsLabel(s)
    ensures s != [] && LastIndex(s, '.') == -1 && s[..0] == [] && s[0..] == s
  {}

  /** The list gives the same answer for the registrable part. */
  lemma {:induction false} TenantIsIdempotent(tenants: seq<bytes>, fqdn: bytes)
    requires SplitTenantFrom(tenants, fqdn).Some? && RealTenants(tenants)
    ensures var p := SplitTenantFrom(tenants, fqdn).value;
            && IsLabel(p.orgLabel) && EndsInLabels(fqdn, Registrable(p)) && p.subdomainPrefix + Registrable(p) == fqdn
            && p.suffix != []
            && SplitTenantFrom(tenants, Registrable(p)) == Some(Parts([], p.orgLabel, p.suffix))
  {
    hide TenantOf, EndsInLabels, IsLabel;
    if TenantOf(fqdn, tenants[0]).Some? {
      TenantOfRegistrable(fqdn, tenants[0]);
    } else {
      TenantIsIdempotent(tenants[1..], fqdn);
      var reg := Registrable(SplitTenantFrom(tenants[1..], fqdn).value);
      if TenantOf(reg, tenants[0]).Some? {
        TenantOfEnd(fqdn, reg, tenants[0]);
      }
    }
  }

  lemma {:induction false} NoTenantInEnd(tenants: seq<bytes>, fqdn: bytes, reg: bytes)
    requires SplitTenantFrom(tenants, fqdn).None? && EndsInLabels(fqdn, reg)
    ensures SplitTenantFrom(tenants, reg).None?
  {
    hide TenantOf, EndsInLabels;
    if tenants != [] {
      NoTenantInEnd(tenants[1..], fqdn, reg);
      if TenantOf(reg, tenants[0]).Some? {
        TenantOfEnd(fqdn, reg, tenants[0]);
      }
    }
  }

  /** What the store keeps splits like the domain it came from. */
  lemma SplitSurvivesStoring(l: Lists, fqdn: bytes)
    requires Trailing(l) && RealTenants(l.tenants) && Split(l, fqdn).Some?
    ensures var p := Split(l, fqdn).value;
            && p.subdomainPrefix + Registrable(p) == fqdn && p.suffix != []
            && Split(l, Registrable(p)) == Some(Parts([], p.orgLabel, p.suffix))
  {
    hide EndsInLabels, SplitDomain, SplitTenantFrom, IsLabel;
    if SplitTenantFrom(l.tenants, fqdn).Some? {
      TenantIsIdempotent(l.tenants, fqdn);
    } else {
      SplitRebuilds(l, fqdn);
      SplitIsIdempotent(l, fqdn);
      NoTenantInEnd(l.tenants, fqdn, Registrable(SplitDomain(l, fqdn).value));
      SuffixIsSomething(l, fqdn);
    }
  }

  // ------------------------------------------------------------------ the token in the text

  /** The words of the organization label: its parts between "-" and "_". */
  function Words(org: bytes): seq<bytes> {
    if org == [] then []
    else if org[0] == '-' || org[0] == '_' then Words(org[1..])
    else [org[..WordLen(org)]] + Words(org[WordLen(org)..])
  }

  function WordLen(org: bytes): (n: nat)
    ensures n <= |org|
    ensures org != [] && org[0] != '-' && org[0] != '_' ==> n > 0
  {
    if org == [] || org[0] == '-' || org[0] == '_' then 0 else WordLen(org[1..]) + 1
  }

  predicate Contains(s: bytes, t: bytes) {
    HasPrefix(s, t) || (s != [] && Contains(s[1..], t))
  }

  /** subdomainLeaksOrgName: some word of three letters or more occurs in the subdomain. lower is
      strings.ToLower. */
  predicate Leaks(prefix: bytes, org: bytes, lower: bytes -> bytes) {
    prefix != [] && exists i | 0 <= i < |Words(org)| :: |Words(org)[i]| >= 3 && Contains(lower(prefix), lower(Words(org)[i]))
  }

  /** The prefix that is kept. */
  function Shown(p: Parts, lower: bytes -> bytes): bytes {
    if Leaks(p.subdomainPrefix, p.orgLabel, lower) then [] else p.subdomainPrefix
  }

  /** domainReplacementPlan.format. A token of another type is used as it is. */
  function Format(p: Parts, lower: bytes -> bytes, token: bytes): bytes {
    if IsDomainToken(token) then Shown(p, lower) + token + "." + p.suffix else token
  }

  /** The suffix that restoring expects behind the token of a stored value. */
  function EchoOf(l: Lists): bytes -> bytes {
    (value: bytes) => if Split(l, value).Some? then Split(l, value).value.suffix else []
  }

  /** a..b is a word of the label: letters between "-", "_" and the ends. */
  predicate WordAt(org: bytes, a: int, b: int) {
    && 0 <= a < b <= |org| && (a == 0 || IsJoint(org[a - 1])) && (b == |org| || IsJoint(org[b]))
    && forall k | a <= k < b :: !IsJoint(org[k])
  }

  predicate IsJoint(c: byte) { c == '-' || c == '_' }

  predicate OccursAt(s: bytes, t: bytes, i: int) { 0 <= i && i + |t| <= |s| && s[i..i + |t|] == t }

  lemma {:induction false} ContainsIff(s: bytes, t: bytes)
    ensures Contains(s, t) <==> exists i :: OccursAt(s, t, i)
  {
    if HasPrefix(s, t) {
      assert OccursAt(s, t, 0);
    } else if s != [] {
      ContainsIff(s[1..], t);
      if i :| OccursAt(s[1..], t, i) {
        assert s[i + 1..i + 1 + |t|] == s[1..][i..i + |t|];
        assert OccursAt(s, t, i + 1);
      }
      if i :| OccursAt(s, t, i) {
        assert i > 0;
        assert s[1..][i - 1..i - 1 + |t|] == s[i..i + |t|];
        assert OccursAt(s[1..], t, i - 1);
      }
    }
  }

  lemma {:induction false} WordEnds(org: bytes)
    ensures forall k | 0 <= k < WordLen(org) :: !IsJoint(org[k])
    ensures WordLen(org) < |org| ==> IsJoint(org[WordLen(org)])
  {
    if org != [] && !IsJoint(org[0]) {
      WordEnds(org[1..]);
      assert forall k | 0 < k < WordLen(org) :: org[k] == org[1..][k - 1];
    }
  }

  ghost predicate WordBehind(org: bytes, from: nat, w: bytes) {
    exists a, b :: from <= a && WordAt(org, a, b) && w == org[a..b]
  }

  lemma NoWordAtJoint(org: bytes, from: nat, w: bytes)
    requires from < |org| && IsJoint(org[from])
    ensures WordBehind(org, from, w) <==> WordBehind(org, from + 1, w)
  {}

  /** The words of the rest of the label, from a place where a word may begin. */
  lemma {:induction false} WordsFrom(org: bytes, from: nat, w: bytes)
    requires from <= |org| && (from == 0 || from == |org| || IsJoint(org[from - 1]) || IsJoint(org[from]))
    ensures w in Words(org[from..]) <==> WordBehind(org, from, w)
    decreases |org| - from
  {
    hide WordBehind, IsJoint;
    var rest := org[from..];
    if rest == [] {
      NothingBehind(org, w);
    } else if IsJoint(rest[0]) {
      assert rest[1..] == org[from + 1..];
      NoWordAtJoint(org, from, w);
      JointIs(rest[0]);
      WordsFrom(org, from + 1, w);
    } else {
      var n := WordLen(rest);
      WordEnds(rest);
      JointIs(rest[0]);
      assert rest[..n] == org[from..from + n] && rest[n..] == org[from + n..];
      assert (forall k | from <= k < from + n :: org[k] == rest[k - from]) && (n < |rest| ==> org[from + n] == rest[n]);
      WordsFrom(org, from + n, w);
      FirstWord(org, from, n, w);
    }
  }

  lemma JointIs(c: byte)
    ensures IsJoint(c) <==> c == '-' || c == '_'
  {}

  lemma NothingBehind(org: bytes, w: bytes)
    ensures !WordBehind(org, |org|, w)
  {}

  lemma FirstWord(org: bytes, from: nat, n: nat, w: bytes)
    requires 0 < n && from + n <= |org| && (from == 0 || IsJoint(org[from - 1]))
    requires (forall k | from <= k < from + n :: !IsJoint(org[k])) && (from + n < |org| ==> IsJoint(org[from + n]))
    ensures WordBehind(org, from, w) <==> w == org[from..from + n] || WordBehind(org, from + n, w)
  {
    assert WordAt(org, from, from + n);
    forall a, b | from <= a < from + n && WordAt(org, a, b)
      ensures a == from && b == from + n
    {
      OneWord(org, from, n, a, b);
    }
  }

  lemma OneWord(org: bytes, from: nat, n: nat, a: int, b: int)
    requires 0 < n && from + n <= |org| && from <= a < from + n && WordAt(org, a, b)
    requires (forall k | from <= k < from + n :: !IsJoint(org[k])) && (from + n < |org| ==> IsJoint(org[from + n]))
    ensures a == from && b == from + n
  {}

  /** The subdomain leaks exactly if some word of the label, of three bytes or more, occurs in it, whatever
      the case. */
  lemma {:induction false} LeaksIff(prefix: bytes, org: bytes, lower: bytes -> bytes)
    ensures Leaks(prefix, org, lower) <==> prefix != [] && exists a, b, i :: LeaksAt(prefix, org, lower, a, b, i)
  {
    assert org[0..] == org;
    if Leaks(prefix, org, lower) {
      var k :| 0 <= k < |Words(org)| && |Words(org)[k]| >= 3 && Contains(lower(prefix), lower(Words(org)[k]));
      var w := Words(org)[k];
      WordsFrom(org, 0, w);
      var a, b :| 0 <= a && WordAt(org, a, b) && w == org[a..b];
      ContainsIff(lower(prefix), lower(w));
      var i :| OccursAt(lower(prefix), lower(w), i);
      assert LeaksAt(prefix, org, lower, a, b, i);
    }
    if prefix != [] && exists a, b, i :: LeaksAt(prefix, org, lower, a, b, i) {
      var a, b, i :| LeaksAt(prefix, org, lower, a, b, i);
      WordsFrom(org, 0, org[a..b]);
      ContainsIff(lower(prefix), lower(org[a..b]));
      var k :| 0 <= k < |Words(org)| && Words(org)[k] == org[a..b];
    }
  }

  predicate LeaksAt(prefix: bytes, org: bytes, lower: bytes -> bytes, a: int, b: int, i: int) {
    WordAt(org, a, b) && b - a >= 3 && OccursAt(lower(prefix), lower(org[a..b]), i)
  }

  /** The text with the formatted token, and where the token stands in it. */
  function Formatted(p: Parts, lower: bytes -> bytes, token: bytes, before: bytes, after: bytes): bytes {
    before + (Format(p, lower, token) + after)
  }

  function TokenStart(p: Parts, lower: bytes -> bytes, before: bytes): nat { |before| + |Shown(p, lower)| }

  /** detokenizeDomainTokens. */
  function DomainsRestored(look: Lookups, text: bytes): bytes {
    DomainIsSearchable();
    RunPass(Pass([DOMAIN], DomainRule(look)), text)
  }

  /** The byte in front of the token does not hide it: the kept prefix ends in a dot, and without one
      the text in front must not end in a letter or digit. */
  predicate LeftAllows(p: Parts, lower: bytes -> bytes, before: bytes) {
    Shown(p, lower) != [] || before == [] || !IsAlnum(before[|before| - 1])
  }

  /** A domain that was replaced by its formatted token comes back exactly if its subdomain was not
      dropped for leaking the organization's name and the token is not hidden by a letter or digit in
      front of it. Nothing else in the text looks like a domain token, and the token is not the
      organization's own label. */
  lemma DomainComesBackIff(l: Lists, look: Lookups, lower: bytes -> bytes, fqdn: bytes, token: bytes, before: bytes, after: bytes)
    requires Trailing(l) && RealTenants(l.tenants) && Split(l, fqdn).Some? && IsDomainToken(token)
    requires look.suffixOf == EchoOf(l)
    requires token in look.token2real && look.token2real[token] == Registrable(Split(l, fqdn).value)
    requires var p := Split(l, fqdn).value;
             token != p.orgLabel && OnlyAt(DOMAIN, Formatted(p, lower, token, before, after), TokenStart(p, lower, before))
    ensures var p := Split(l, fqdn).value;
            DomainsRestored(look, Formatted(p, lower, token, before, after)) == before + (fqdn + after)
            <==> !Leaks(p.subdomainPrefix, p.orgLabel, lower) && LeftAllows(p, lower, before)
  {
    var p := Split(l, fqdn).value;
    SplitSurvivesStoring(l, fqdn);
    PrefixEndsInDot(l, fqdn);
    DomainIsSearchable();
    hide Split, Leaks, DomainRule, EchoOf, IsDomainToken, OnlyAt, AltLen, RunPass, Searchable, Trailing, RealTenants, LeftAllows;
    var front, echoed: bytes := before + Shown(p, lower), "." + p.suffix;
    var text := Formatted(p, lower, token, before, after);
    FormatInText(p, lower, token, before, after);
    TokenInText(token, front, echoed + after);
    PassOfOne(DOMAIN, DomainRule(look), text, |front|);
    LeftAllowsIff(p, lower, token, before, echoed + after);
    if LeftAllows(p, lower, before) {
      EchoIsEaten(l, look, p, token, front, after);
      SameIffShown(p, lower, before, after);
    } else {
      TextIsDifferent(p, lower, token, before, after);
    }
  }

  lemma DomainIsSearchable()
    ensures Searchable(DOMAIN) && AllTake([DOMAIN])
  {}

  lemma TokenInText(token: bytes, front: bytes, rest: bytes)
    requires IsDomainToken(token)
    ensures var text := front + token + rest;
            && AltLen(DOMAIN, text[|front|..]) == Some(|token|)
            && text[|front|..|front| + |token|] == token
  {
    DomainTokenMatches(token, rest);
    hide AltLen;
    assert (front + token + rest)[|front|..] == token + rest;
  }

  /** What the search asks of the left side, in terms of the prefix and the text in front. */
  lemma LeftAllowsIff(p: Parts, lower: bytes -> bytes, token: bytes, before: bytes, rest: bytes)
    requires p.subdomainPrefix == [] || p.subdomainPrefix[|p.subdomainPrefix| - 1] == '.'
    ensures var front := before + Shown(p, lower);
            LeftFits(DOMAIN, front + token + rest, |front|) <==> LeftAllows(p, lower, before)
  {
    hide Leaks;
    var front := before + Shown(p, lower);
    var text := front + token + rest;
    assert |front| > 0 ==> text[|front| - 1] == front[|front| - 1];
  }

  /** An unrestored text is not the original one. */
  lemma TextIsDifferent(p: Parts, lower: bytes -> bytes, token: bytes, before: bytes, after: bytes)
    requires token != p.orgLabel && IsDomainToken(token)
    requires p.subdomainPrefix == [] || p.subdomainPrefix[|p.subdomainPrefix| - 1] == '.'
    ensures before + (Format(p, lower, token) + after) != before + ((p.subdomainPrefix + Registrable(p)) + after)
  {
    hide Leaks, Format, Shown, Registrable;
    var shown, echoed: bytes := Shown(p, lower), "." + p.suffix;
    DomainTokenBytes(token);
    PartsAreDifferent(p, lower, token);
    FormatInText(p, lower, token, before, after);
    SameGrouping(before, shown, token, echoed + after);
    OriginalGrouping(p, before, after);
    DifferentInside(before, shown + token, p.subdomainPrefix + p.orgLabel, echoed + after);
  }

  lemma SameGrouping(a: bytes, x: bytes, y: bytes, r: bytes)
    ensures (a + x) + y + r == a + ((x + y) + r)
  {}

  lemma OriginalGrouping(p: Parts, before: bytes, after: bytes)
    ensures before + ((p.subdomainPrefix + Registrable(p)) + after)
         == before + ((p.subdomainPrefix + p.orgLabel) + (("." + p.suffix) + after))
  {}

  lemma PartsAreDifferent(p: Parts, lower: bytes -> bytes, token: bytes)
    requires token != p.orgLabel && (forall i | 0 <= i < |token| :: IsAlnum(token[i]))
    requires p.subdomainPrefix == [] || p.subdomainPrefix[|p.subdomainPrefix| - 1] == '.'
    ensures Shown(p, lower) + token != p.subdomainPrefix + p.orgLabel
  {
    var a, b := Shown(p, lower) + token, p.subdomainPrefix + p.orgLabel;
    if Shown(p, lower) == p.subdomainPrefix {
      hide Leaks, Shown;
      assert a[|p.subdomainPrefix|..] == token && b[|p.subdomainPrefix|..] == p.orgLabel;
    } else {
      hide Leaks;
      assert a == token;
      var n := |p.subdomainPrefix|;
      assert b[n - 1] == '.';
    }
  }

  lemma DifferentInside(front: bytes, x: bytes, y: bytes, rest: bytes)
    ensures front + (x + rest) == front + (y + rest) ==> x == y
  {
    var a, b := front + (x + rest), front + (y + rest);
    if a == b {
      assert |x| == |y|;
      assert a[|front|..|front| + |x|] == x && b[|front|..|front| + |y|] == y;
    }
  }

  lemma PrefixEndsInDot(l: Lists, fqdn: bytes)
    requires Trailing(l) && RealTenants(l.tenants) && Split(l, fqdn).Some?
    ensures var prefix := Split(l, fqdn).value.subdomainPrefix; prefix == [] || prefix[|prefix| - 1] == '.'
  {
    if SplitTenantFrom(l.tenants, fqdn).Some? {
      TenantPrefix(l.tenants, fqdn);
    } else {
      SplitRebuilds(l, fqdn);
      hide SplitDomain, SplitTenantFrom, Trailing;
      var prefix := Split(l, fqdn).value.subdomainPrefix;
      if prefix != [] {
        assert prefix[|prefix| - 1..] == ".";
      }
    }
  }

  lemma {:induction false} TenantPrefix(tenants: seq<bytes>, fqdn: bytes)
    requires SplitTenantFrom(tenants, fqdn).Some?
    ensures var prefix := SplitTenantFrom(tenants, fqdn).value.subdomainPrefix; prefix == [] || prefix[|prefix| - 1] == '.'
  {
    hide TenantOf;
    if TenantOf(fqdn, tenants[0]).Some? {
      TenantParts(fqdn, tenants[0]);
    } else {
      TenantPrefix(tenants[1..], fqdn);
    }
  }

  /** The same for all of Detokenize, when its other passes find nothing in what the domain pass
      leaves. */
  lemma DomainIsRestoredIff(l: Lists, look: Lookups, lower: bytes -> bytes, fqdn: bytes, token: bytes, before: bytes, after: bytes)
    requires Trailing(l) && RealTenants(l.tenants) && Split(l, fqdn).Some? && IsDomainToken(token)
    requires look.suffixOf == EchoOf(l)
    requires token in look.token2real && look.token2real[token] == Registrable(Split(l, fqdn).value)
    requires var p := Split(l, fqdn).value;
             token != p.orgLabel && OnlyAt(DOMAIN, Formatted(p, lower, token, before, after), TokenStart(p, lower, before))
    requires AllFindNothing(Full(look)[1..], DomainsRestored(look, Formatted(Split(l, fqdn).value, lower, token, before, after)))
    ensures forall p | p in Full(look) :: Proper(p)
    ensures var p := Split(l, fqdn).value;
            Detokenize(Full(look), Formatted(p, lower, token, before, after)) == before + (fqdn + after)
            <==> !Leaks(p.subdomainPrefix, p.orgLabel, lower) && LeftAllows(p, lower, before)
  {
    FullIsProper(look);
    FullStartsWithDomains(look);
    DomainComesBackIff(l, look, lower, fqdn, token, before, after);
    hide *;
    var text := Formatted(Split(l, fqdn).value, lower, token, before, after);
    FirstPass(Full(look), text);
    SingleToken.NothingDetokenized(Full(look)[1..], RunPass(Full(look)[0], text));
  }

  lemma FullStartsWithDomains(look: Lookups)
    ensures Full(look) != [] && Full(look)[0] == Pass([DOMAIN], DomainRule(look))
  {}

  lemma FirstPass(passes: seq<Pass>, text: bytes)
    requires passes != [] && forall p | p in passes :: Proper(p)
    ensures Detokenize(passes, text) == Detokenize(passes[1..], RunPass(passes[0], text))
  {}

  lemma SameIffShown(p: Parts, lower: bytes -> bytes, before: bytes, after: bytes)
    ensures (before + Shown(p, lower)) + Registrable(p) + after == before + ((p.subdomainPrefix + Registrable(p)) + after)
       <==> !Leaks(p.subdomainPrefix, p.orgLabel, lower)
  {
    hide Registrable;
    if Leaks(p.subdomainPrefix, p.orgLabel, lower) {
      LeakIsNonempty(p, lower);
      assert |(before + Shown(p, lower)) + Registrable(p) + after| < |before + ((p.subdomainPrefix + Registrable(p)) + after)|;
    } else {
      hide Leaks;
    }
  }

  lemma LeakIsNonempty(p: Parts, lower: bytes -> bytes)
    requires Leaks(p.subdomainPrefix, p.orgLabel, lower)
    ensures p.subdomainPrefix != []
  {}

  lemma FormatInText(p: Parts, lower: bytes -> bytes, token: bytes, before: bytes, after: bytes)
    requires IsDomainToken(token)
    ensures var front, echoed: bytes := before + Shown(p, lower), "." + p.suffix;
            && before + (Format(p, lower, token) + after) == front + token + (echoed + after)
            && (front + token + (echoed + after))[|front|..|front| + |token|] == token
  {
    hide Leaks, IsDomainToken;
    var shown, echoed: bytes := Shown(p, lower), "." + p.suffix;
    assert shown + token + "." + p.suffix == shown + token + echoed;
  }

  lemma EchoIsEaten(l: Lists, look: Lookups, p: Parts, token: bytes, before: bytes, after: bytes)
    requires look.suffixOf == EchoOf(l) && token in look.token2real && look.token2real[token] == Registrable(p)
    requires Split(l, Registrable(p)) == Some(Parts([], p.orgLabel, p.suffix)) && p.suffix != []
    ensures var text := before + token + (("." + p.suffix) + after);
            RestoredAt(DomainRule(look), text, Group(|before|, |before| + |token|)) == before + Registrable(p) + after
  {
    hide Split;
    var echoed: bytes := "." + p.suffix;
    var r := DomainRule(look);
    assert EchoOf(l)(Registrable(p)) == p.suffix;
    assert r.echo(token) == echoed && r.repl(token) == Registrable(p);
    hide DomainRule, EchoOf;
    EatenAt(r, before, token, echoed, after);
  }

  lemma EatenAt(r: Rule, before: bytes, token: bytes, echoed: bytes, after: bytes)
    requires r.echo(token) == echoed
    ensures var text := before + token + (echoed + after);
            RestoredAt(r, text, Group(|before|, |before| + |token|)) == before + r.repl(token) + after
  {
    var text, g := before + token + (echoed + after), Group(|before|, |before| + |token|);
    assert text[g.start..g.end] == token && text[g.end..] == echoed + after && text[..g.start] == before;
    assert (echoed + after)[..|echoed|] == echoed;
    assert text[g.end + |echoed|..] == after;
  }

  lemma SuffixIsSomething(l: Lists, fqdn: bytes)
    requires SplitDomain(l, fqdn).Some?
    ensures SplitDomain(l, fqdn).value.suffix != []
  {
    hide StepBack, FirstDot, LastIndex;
    var suffix := l.publicSuffix(fqdn);
    var org := TrimSuffix(EffectiveTldPlusOne(l, fqdn).value, "." + suffix);
    WalkKeepsSuffix(l, fqdn, org, suffix);
  }

  lemma {:induction false} WalkKeepsSuffix(l: Lists, fqdn: bytes, org: bytes, suffix: bytes)
    requires suffix != []
    ensures WalkBack(l, fqdn, org, suffix).1 != []
    decreases |fqdn| - |suffix|
  {
    hide FirstDot, LastIndex;
    match StepBack(l, fqdn, org, suffix) {
      case None =>
      case Some(next) => WalkKeepsSuffix(l, fqdn, next, org + "." + suffix);
    }
  }

  // ------------------------------------------------------------------ the stored value

  function CountDots(s: bytes): nat {
    if s == [] then 0 else CountDots(s[..|s| - 1]) + if s[|s| - 1] == '.' then 1 else 0
  }

  /** lastNLabels: n more labels of s before idx. */
  function LastLabels(s: bytes, idx: nat, n: nat): bytes
    requires idx <= |s|
    decreases n
  {
    if n == 0 then s[if idx < |s| then idx + 1 else idx..]
    else
      var dot := LastIndex(s[..idx], '.');
      if dot == -1 then s else LastLabels(s, dot, n - 1)
  }

  method LastNLabels(s: bytes, n: nat) returns (r: bytes)
    requires n > 0
    ensures r == LastLabels(s, |s|, n)
  {
    var idx: nat := |s|;
    for k := 0 to n
      invariant idx <= |s| && (k > 0 ==> idx < |s|)
      invariant LastLabels(s, idx, n - k) == LastLabels(s, |s|, n)
    {
      var dot := LastIndex(s[..idx], '.');
      if dot == -1 {
        return s;
      }
      idx := dot;
    }
    return s[idx + 1..];
  }

  /** Counting the dots of a beginning of the registrable part leads to where that part starts. */
  lemma {:induction false} LastLabelsAre(s: bytes, front: bytes, head: bytes, tail: bytes)
    requires s == front + (head + tail) && (front == [] || front[|front| - 1] == '.')
    ensures LastLabels(s, |front| + |head|, CountDots(head) + 1) == head + tail
    decreases |head|
  {
    hide *;
    var dot, idx := LastIndex(head, '.'), |front| + |head|;
    assert s[..idx] == front + head && s[|front|..] == head + tail by {
      BeforeTail(front, head, tail);
    }
    assert LastIndex(s[..idx], '.') == |front| + dot by {
      LastIndexBehind(front, head);
    }
    CountAfterDot(head);
    if dot == -1 {
      LastLabelStart(s, head + tail, idx, |front|);
    } else {
      CutHead(head, dot, tail);
      LastLabelsAre(s, front, head[..dot], head[dot..] + tail);
      OneMoreLabel(s, idx, CountDots(head[..dot]) + 1);
    }
  }

  lemma CutHead<T>(head: seq<T>, dot: nat, tail: seq<T>)
    requires dot <= |head|
    ensures head[..dot] + (head[dot..] + tail) == head + tail
  {}

  lemma BeforeTail(front: bytes, head: bytes, tail: bytes)
    ensures var s := front + (head + tail); s[..|front| + |head|] == front + head && s[|front|..] == head + tail
  {}

  lemma {:induction false} LastLabelStart(s: bytes, reg: bytes, idx: nat, n: nat)
    requires n <= idx <= |s| && LastIndex(s[..idx], '.') == n - 1 && s[n..] == reg
    ensures LastLabels(s, idx, 1) == reg
  {
    hide LastIndex;
    assert n == 0 ==> s[0..] == s;
  }

  lemma {:induction false} OneMoreLabel(s: bytes, idx: nat, n: nat)
    requires idx <= |s| && LastIndex(s[..idx], '.') >= 0
    ensures LastLabels(s, idx, n + 1) == LastLabels(s, LastIndex(s[..idx], '.'), n)
  {
    hide LastIndex;
  }

  lemma {:induction false} CountAfterDot(s: bytes)
    ensures CountDots(s) == if LastIndex(s, '.') == -1 then 0 else CountDots(s[..LastIndex(s, '.')]) + 1
  {
    if s != [] && s[|s| - 1] != '.' {
      CountAfterDot(s[..|s| - 1]);
      var d := LastIndex(s, '.');
      if d != -1 {
        assert s[..|s| - 1][..d] == s[..d];
      }
    }
  }

  /** The value stored for a candidate that ends in its registrable part is that part. */
  lemma {:induction false} StoredValueIsRegistrable(candidate: bytes, reg: bytes)
    requires EndsInLabels(candidate, reg)
    ensures LastLabels(candidate, |candidate|, CountDots(reg) + 1) == reg
  {
    hide LastLabels, CountDots;
    var front := EndSplits(candidate, reg);
    ConcatNil(reg);
    LastLabelsAre(candidate, front, reg, []);
  }
}

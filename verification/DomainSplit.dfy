/**
 Splitting a domain into subdomain, organization label and public suffix
 (internal/redact/domainsplit.go), and why a token formatted from the split restores to the domain
 (domainReplacement in internal/redact/detector.go, detokenizeDomainTokens in
 internal/redact/engine.go). The public suffix list, the table of real top-level domains, the list
 of tenant suffixes and case folding are parameters.
 */
module DomainSplit {
  import opened Bytes
  import opened Scanning
  import opened TokenShapes

  datatype Parts = Parts(subdomainPrefix: bytes, orgLabel: bytes, suffix: bytes)

  function Registrable(p: Parts): bytes { p.orgLabel + "." + p.suffix }

  /** The public suffix of a domain, whether a suffix's last label is a real top-level domain,
      strings.EqualFold, and tenantSubdomainSaaSSuffixes. */
  datatype Lists = Lists(
    publicSuffix: bytes -> bytes,
    knownTld: bytes -> bool,
    fold: (bytes, bytes) -> bool,
    tenants: seq<bytes>)

  /** t is made of the last labels of s. */
  predicate EndsInLabels(s: bytes, t: bytes) {
    HasSuffix(s, t) && (|s| == |t| || s[|s| - |t| - 1] == '.')
  }

  /** The public suffix is a trailing part, and is decided by the labels up to the one before it. */
  ghost predicate Trailing(l: Lists) {
    && (forall s :: HasSuffix(s, l.publicSuffix(s)))
    && (forall s, t | EndsInLabels(s, t) && EndsInLabels(t, l.publicSuffix(s)) && |l.publicSuffix(s)| < |t| ::
          l.publicSuffix(t) == l.publicSuffix(s))
  }

  predicate NoEmptyLabel(s: bytes) {
    && s != [] && s[0] != '.' && s[|s| - 1] != '.'
    && forall i | 0 <= i < |s| - 1 :: !(s[i] == '.' && s[i + 1] == '.')
  }

  function LastLabel(s: bytes): bytes { s[LastIndex(s, '.') + 1..] }

  function FirstDot(s: bytes): (i: nat)
    ensures i <= |s| && (i < |s| ==> s[i] == '.') && forall k | 0 <= k < i :: s[k] != '.'
  {
    if s == [] || s[0] == '.' then 0 else FirstDot(s[1..]) + 1
  }

  function FirstLabel(s: bytes): bytes { s[..FirstDot(s)] }

  function TrimSuffix(s: bytes, t: bytes): bytes {
    if HasSuffix(s, t) then s[..|s| - |t|] else s
  }

  /** The domain one label longer than its public suffix. */
  function EffectiveTldPlusOne(l: Lists, fqdn: bytes): Option<bytes> {
    var suffix := l.publicSuffix(fqdn);
    if !NoEmptyLabel(fqdn) || |fqdn| <= |suffix| then None
    else
      var i := |fqdn| - |suffix| - 1;
      if fqdn[i] != '.' then None else Some(fqdn[LastIndex(fqdn[..i], '.') + 1..])
  }

  // ------------------------------------------------------------------ splitDomain

  /** One label further left, if the organization label repeats the suffix's first label and there
      is one. */
  function StepBack(l: Lists, fqdn: bytes, org: bytes, suffix: bytes): (next: Option<bytes>)
    ensures next.Some? ==> HasSuffix(fqdn, "." + (org + "." + suffix)) && |suffix| < |org + "." + suffix| < |fqdn|
  {
    if !l.fold(org, FirstLabel(suffix)) then None
    else
      var remaining := TrimSuffix(fqdn, "." + (org + "." + suffix));
      if remaining == fqdn || remaining == [] || LastLabel(remaining) == [] then None else Some(LastLabel(remaining))
  }

  /** Where the walk ends. The last label of the suffix grows at every step. */
  function WalkBack(l: Lists, fqdn: bytes, org: bytes, suffix: bytes): (bytes, bytes)
    decreases |fqdn| - |suffix|
  {
    match StepBack(l, fqdn, org, suffix)
    case None => (org, suffix)
    case Some(next) => WalkBack(l, fqdn, next, org + "." + suffix)
  }

  function SplitDomain(l: Lists, fqdn: bytes): Option<Parts> {
    var reg, suffix := EffectiveTldPlusOne(l, fqdn), l.publicSuffix(fqdn);
    if reg.None? then None
    else
      var org := TrimSuffix(reg.value, "." + suffix);
      if org == reg.value || org == [] || !l.knownTld(LastLabel(suffix)) then None
      else
        var (org', suffix') := WalkBack(l, fqdn, org, suffix);
        var reg' := org' + "." + suffix';
        var prefix := if |fqdn| > |reg'| then TrimSuffix(fqdn, reg') else [];
        if |fqdn| > |reg'| && !HasSuffix(prefix, ".") then None else Some(Parts(prefix, org', suffix'))
  }

  /** The walk-back loop. */
  method WalkBackLoop(l: Lists, fqdn: bytes, org: bytes, suffix: bytes) returns (org': bytes, suffix': bytes)
    ensures (org', suffix') == WalkBack(l, fqdn, org, suffix)
  {
    org', suffix' := org, suffix;
    while true
      invariant WalkBack(l, fqdn, org', suffix') == WalkBack(l, fqdn, org, suffix)
      decreases |fqdn| - |suffix'|
    {
      ghost var step := StepBack(l, fqdn, org', suffix');
      if !l.fold(org', FirstLabel(suffix')) {
        break;
      }
      var extended: bytes := org' + "." + suffix';
      var remaining := TrimSuffix(fqdn, "." + extended);
      if remaining == fqdn || remaining == [] {
        break;
      }
      var next := LastLabel(remaining);
      if next == [] {
        break;
      }
      assert step == Some(next);
      org', suffix' := next, extended;
    }
  }

  method SplitDomainOf(l: Lists, fqdn: bytes) returns (parts: Option<Parts>)
    ensures parts == SplitDomain(l, fqdn)
  {
    hide LastLabel, EffectiveTldPlusOne, NoEmptyLabel;
    var reg, suffix := EffectiveTldPlusOne(l, fqdn), l.publicSuffix(fqdn);
    if reg.None? {
      return None;
    }
    var org: bytes := TrimSuffix(reg.value, "." + suffix);
    if org == reg.value || org == [] || !l.knownTld(LastLabel(suffix)) {
      return None;
    }
    org, suffix := WalkBackLoop(l, fqdn, org, suffix);
    var reg': bytes := org + "." + suffix;
    var prefix: bytes := [];
    if |fqdn| > |reg'| {
      prefix := TrimSuffix(fqdn, reg');
      if !HasSuffix(prefix, ".") {
        return None;
      }
    }
    return Some(Parts(prefix, org, suffix));
  }

  // ------------------------------------------------------------------ the parts rebuild the domain

  predicate IsLabel(s: bytes) {
    s != [] && forall i | 0 <= i < |s| :: s[i] != '.'
  }

  /** t ends with first + "." + rest. */
  lemma LabelBefore(t: bytes, first: bytes, rest: bytes)
    requires IsLabel(first) && EndsInLabels(t, first + "." + rest)
    ensures HasSuffix(t, "." + rest) && TrimSuffix(t, "." + rest) != [] && LastLabel(TrimSuffix(t, "." + rest)) == first
    ensures TrimSuffix(t, "." + rest) != t
  {
    var whole, dotted: bytes := first + "." + rest, "." + rest;
    var n, m := |t| - |whole|, |t| - |dotted|;
    assert whole == first + dotted;
    assert t[n..] == whole;
    assert t[m..] == t[n..][|first|..] == dotted;
    var head := t[..m];
    assert head[n..] == t[n..][..|first|] == first;
    assert TrimSuffix(t, dotted) == head;
    var d := LastIndex(head, '.');
    assert forall k | n <= k < m :: head[k] == first[k - n];
    if n > 0 {
      assert head[n - 1] == '.';
    }
    assert d == n - 1;
  }

  lemma LastLabelIsLabel(head: bytes)
    requires head != [] && head[|head| - 1] != '.'
    ensures IsLabel(LastLabel(head)) && EndsInLabels(head, LastLabel(head))
  {
    hide LastIndex;
    var d := LastIndex(head, '.');
    assert forall i | 0 <= i < |LastLabel(head)| :: LastLabel(head)[i] == head[d + 1 + i];
  }

  lemma EndsInLonger(t: bytes, head: bytes, last: bytes, dotted: bytes)
    requires t == head + dotted && EndsInLabels(head, last)
    ensures EndsInLabels(t, last + dotted)
  {
    assert t[|t| - |last + dotted|..] == last + dotted;
    if |last| < |head| {
      assert t[|t| - |last + dotted| - 1] == head[|head| - |last| - 1];
    }
  }

  /** With no empty label, what stands before a trailing part ends in a label. */
  lemma DottedBehind(t: bytes, rest: bytes)
    requires NoEmptyLabel(t) && EndsInLabels(t, rest) && |rest| < |t|
    ensures HasSuffix(t, "." + rest) && TrimSuffix(t, "." + rest) != []
    ensures t == TrimSuffix(t, "." + rest) + ("." + rest)
    ensures var head := TrimSuffix(t, "." + rest); head[|head| - 1] != '.'
  {
    var dotted: bytes := "." + rest;
    var m := |t| - |dotted|;
    assert t[m..] == dotted;
    assert m > 0 && t[m - 1] != '.';
    assert t == t[..m] + dotted;
  }

  lemma LabelInFront(t: bytes, rest: bytes)
    requires NoEmptyLabel(t) && EndsInLabels(t, rest) && |rest| < |t|
    ensures HasSuffix(t, "." + rest) && TrimSuffix(t, "." + rest) != [] && TrimSuffix(t, "." + rest) != t
    ensures var first := LastLabel(TrimSuffix(t, "." + rest));
            IsLabel(first) && EndsInLabels(t, first + "." + rest)
  {
    hide LastLabel, IsLabel, EndsInLabels, TrimSuffix, HasSuffix, NoEmptyLabel;
    DottedBehind(t, rest);
    var dotted: bytes := "." + rest;
    var head := TrimSuffix(t, dotted);
    LastLabelIsLabel(head);
    EndsInLonger(t, head, LastLabel(head), dotted);
    ConcatAssoc(LastLabel(head), ".", rest);
  }

  lemma EndsInLabelsAgain(s: bytes, t: bytes, u: bytes)
    requires EndsInLabels(s, t) && EndsInLabels(t, u)
    ensures EndsInLabels(s, u)
  {
    assert s[|s| - |u|..] == s[|s| - |t|..][|t| - |u|..];
    if |u| < |t| {
      assert s[|s| - |u| - 1] == s[|s| - |t|..][|t| - |u| - 1];
    }
  }

  lemma NoEmptyLabelInEnd(s: bytes, t: bytes)
    requires NoEmptyLabel(s) && EndsInLabels(s, t) && t != []
    ensures NoEmptyLabel(t)
  {
    var n := |s| - |t|;
    assert forall i | 0 <= i < |t| :: t[i] == s[n + i];
    if n > 0 {
      assert s[n - 1] == '.';
    }
  }

  lemma LongerEnd(first: bytes, rest: bytes)
    requires IsLabel(first)
    ensures EndsInLabels(first + "." + rest, rest)
  {
    var whole: bytes := first + "." + rest;
    assert whole[|whole| - |rest|..] == rest;
  }

  /** One step of the walk: a label and "." in front of what there was. */
  lemma StepBackIs(l: Lists, fqdn: bytes, org: bytes, suffix: bytes)
    requires NoEmptyLabel(fqdn) && IsLabel(org) && EndsInLabels(fqdn, org + "." + suffix)
    ensures var next := StepBack(l, fqdn, org, suffix);
            && (next.Some? ==> IsLabel(next.value) && EndsInLabels(fqdn, next.value + "." + (org + "." + suffix)))
            && (next.None? ==> !l.fold(org, FirstLabel(suffix)) || fqdn == org + "." + suffix)
  {
    var ext: bytes := org + "." + suffix;
    hide FirstDot, NoEmptyLabel;
    if |ext| < |fqdn| {
      LabelInFront(fqdn, ext);
    } else {
      assert fqdn == ext;
    }
  }

  ghost predicate WalkedTo(l: Lists, fqdn: bytes, org: bytes, suffix: bytes, org': bytes, suffix': bytes) {
    && IsLabel(org') && EndsInLabels(fqdn, org' + "." + suffix') && EndsInLabels(org' + "." + suffix', org + "." + suffix)
    && (l.fold(org', FirstLabel(suffix')) ==> fqdn == org' + "." + suffix')
  }

  /** The walk ends with an organization label that differs from the suffix's first label, unless
      the labels ran out. */
  lemma {:induction false} WalkBackStops(l: Lists, fqdn: bytes, org: bytes, suffix: bytes)
    requires NoEmptyLabel(fqdn) && IsLabel(org) && EndsInLabels(fqdn, org + "." + suffix)
    ensures var (org', suffix') := WalkBack(l, fqdn, org, suffix);
            WalkedTo(l, fqdn, org, suffix, org', suffix')
    decreases |fqdn| - |suffix|
  {
    hide FirstDot, NoEmptyLabel, IsLabel, LastIndex;
    StepBackIs(l, fqdn, org, suffix);
    match StepBack(l, fqdn, org, suffix) {
      case None =>
      case Some(next) =>
        var ext: bytes := org + "." + suffix;
        WalkBackStops(l, fqdn, next, ext);
        LongerEnd(next, ext);
        var (org', suffix') := WalkBack(l, fqdn, next, ext);
        EndsInLabelsAgain(org' + "." + suffix', next + "." + ext, ext);
    }
  }

  /** The registrable part is the label before the public suffix, and the suffix. */
  lemma TldPlusOneIs(l: Lists, t: bytes, org: bytes, suffix: bytes)
    requires NoEmptyLabel(t) && l.publicSuffix(t) == suffix && IsLabel(org) && EndsInLabels(t, org + "." + suffix)
    ensures EffectiveTldPlusOne(l, t) == Some(org + "." + suffix)
  {
    hide LastIndex, IsLabel, EndsInLabels, NoEmptyLabel, HasSuffix, TrimSuffix;
    LabelBefore(t, org, suffix);
    SplitAtSuffix(t, suffix);
    var i := |t| - |suffix| - 1;
    DropAround(t, i, LastIndex(t[..i], '.') + 1);
    ConcatAssoc(org, ".", suffix);
  }

  lemma SplitAtSuffix(t: bytes, suffix: bytes)
    requires HasSuffix(t, "." + suffix)
    ensures var i := |t| - |suffix| - 1;
            0 <= i && t[i] == '.' && t[i..] == "." + suffix && TrimSuffix(t, "." + suffix) == t[..i]
  {
    var dotted: bytes := "." + suffix;
    assert t[|t| - |dotted|..][0] == dotted[0];
  }

  lemma DropAround<T>(t: seq<T>, i: nat, d: nat)
    requires d <= i <= |t|
    ensures t[d..] == t[..i][d..] + t[i..]
  {}

  /** How a domain splits before the walk. */
  lemma FirstSplit(l: Lists, fqdn: bytes)
    requires Trailing(l) && EffectiveTldPlusOne(l, fqdn).Some?
    ensures var suffix := l.publicSuffix(fqdn);
            var org := TrimSuffix(EffectiveTldPlusOne(l, fqdn).value, "." + suffix);
            && NoEmptyLabel(fqdn) && IsLabel(org) && EffectiveTldPlusOne(l, fqdn).value == org + "." + suffix
            && EndsInLabels(fqdn, org + "." + suffix) && org != EffectiveTldPlusOne(l, fqdn).value
  {
    var suffix := l.publicSuffix(fqdn);
    assert HasSuffix(fqdn, suffix);
    LabelInFront(fqdn, suffix);
    var first := LastLabel(TrimSuffix(fqdn, "." + suffix));
    TldPlusOneIs(l, fqdn, first, suffix);
    TrimAdded(first, suffix);
  }

  lemma TrimAdded(first: bytes, suffix: bytes)
    ensures TrimSuffix(first + "." + suffix, "." + suffix) == first
  {
    var whole, dotted: bytes := first + "." + suffix, "." + suffix;
    assert whole == first + dotted;
    assert whole[|first|..] == dotted;
  }

  /** What the two parts after the walk leave in front. */
  lemma PrefixOf(fqdn: bytes, reg: bytes)
    requires EndsInLabels(fqdn, reg)
    ensures var prefix := if |fqdn| > |reg| then TrimSuffix(fqdn, reg) else [];
            && prefix + reg == fqdn && (|fqdn| > |reg| ==> HasSuffix(prefix, ".")) && (prefix == [] <==> fqdn == reg)
  {
    assert fqdn == fqdn[..|fqdn| - |reg|] + reg;
    if |fqdn| > |reg| {
      var prefix := TrimSuffix(fqdn, reg);
      assert prefix[|prefix| - 1..] == ".";
    } else {
      ConcatNil(reg);
    }
  }

  /** A domain splits unless it has no registrable part or its suffix is not a real top-level
      domain; the parts rebuild it; and the organization label differs from the suffix's first
      label unless the whole domain has been used up. */
  lemma SplitRebuilds(l: Lists, fqdn: bytes)
    requires Trailing(l)
    ensures SplitDomain(l, fqdn).None? <==>
              EffectiveTldPlusOne(l, fqdn).None? || !l.knownTld(LastLabel(l.publicSuffix(fqdn)))
    ensures SplitDomain(l, fqdn).Some? ==>
              var p := SplitDomain(l, fqdn).value;
              && p.subdomainPrefix + Registrable(p) == fqdn
              && (p.subdomainPrefix == [] || HasSuffix(p.subdomainPrefix, "."))
              && IsLabel(p.orgLabel) && EndsInLabels(fqdn, Registrable(p))
              && (l.fold(p.orgLabel, FirstLabel(p.suffix)) ==> p.subdomainPrefix == [])
  {
    hide EffectiveTldPlusOne, FirstDot, LastIndex, IsLabel, NoEmptyLabel, EndsInLabels, StepBack, WalkBack, TrimSuffix;
    if EffectiveTldPlusOne(l, fqdn).Some? {
      FirstSplit(l, fqdn);
      var suffix := l.publicSuffix(fqdn);
      var org := TrimSuffix(EffectiveTldPlusOne(l, fqdn).value, "." + suffix);
      NotEmpty(org);
      WalkBackStops(l, fqdn, org, suffix);
      var (org', suffix') := WalkBack(l, fqdn, org, suffix);
      PrefixOf(fqdn, org' + "." + suffix');
    }
  }

  lemma NotEmpty(s: bytes)
    ensures IsLabel(s) ==> s != []
  {}

  // ------------------------------------------------------------------ no further than the repeats

  function BehindLabel(s: bytes): bytes { if FirstDot(s) < |s| then s[FirstDot(s) + 1..] else [] }

  /** s is the suffix with labels in front, each of which repeats the first label of what stands behind it. */
  ghost predicate Repeats(l: Lists, s: bytes, suffix: bytes) {
    || s == suffix
    || (FirstDot(s) < |s| && l.fold(FirstLabel(s), FirstLabel(BehindLabel(s))) && Repeats(l, BehindLabel(s), suffix))
  }

  lemma {:induction false} LabelInFrontOf(first: bytes, rest: bytes)
    requires IsLabel(first)
    ensures var s: bytes := first + "." + rest;
            FirstDot(s) == |first| < |s| && FirstLabel(s) == first && BehindLabel(s) == rest
  {
    var s: bytes := first + "." + rest;
    assert s[|first|] == '.' && forall k | 0 <= k < |first| :: s[k] == first[k];
    FirstDotIs(s, |first|);
    assert s[..|first|] == first && s[|first| + 1..] == rest;
  }

  lemma {:induction false} FirstDotIs(s: bytes, n: nat)
    requires n < |s| && s[n] == '.' && forall k | 0 <= k < n :: s[k] != '.'
    ensures FirstDot(s) == n
  {
    if n > 0 {
      FirstDotIs(s[1..], n - 1);
    }
  }

  /** A step is taken only over a label that repeats the first label of the suffix. */
  lemma StepsOverRepeat(l: Lists, fqdn: bytes, org: bytes, suffix: bytes)
    requires StepBack(l, fqdn, org, suffix).Some?
    ensures l.fold(org, FirstLabel(suffix))
  {
    hide FirstDot, LastIndex;
  }

  lemma {:induction false} WalkBackRepeats(l: Lists, fqdn: bytes, org: bytes, suffix: bytes, from: bytes)
    requires NoEmptyLabel(fqdn) && IsLabel(org) && EndsInLabels(fqdn, org + "." + suffix) && Repeats(l, suffix, from)
    ensures var (org', suffix') := WalkBack(l, fqdn, org, suffix);
            && Repeats(l, suffix', from)
            && (!l.fold(org, FirstLabel(suffix)) ==> org' == org && suffix' == suffix)
    decreases |fqdn| - |suffix|
  {
    hide FirstDot, NoEmptyLabel, IsLabel, LastIndex, EndsInLabels;
    StepBackIs(l, fqdn, org, suffix);
    match StepBack(l, fqdn, org, suffix) {
      case None =>
      case Some(next) =>
        StepsOverRepeat(l, fqdn, org, suffix);
        LabelInFrontOf(org, suffix);
        WalkBackRepeats(l, fqdn, next, org + "." + suffix, from);
    }
  }

  /** The suffix of a split is the public suffix with repeats in front, and nothing else; and when the label
      in front of the public suffix is no repeat, then it is the organization label. */
  lemma SplitStops(l: Lists, fqdn: bytes, org: bytes)
    requires Trailing(l) && SplitDomain(l, fqdn).Some?
    requires IsLabel(org) && EndsInLabels(fqdn, org + "." + l.publicSuffix(fqdn))
    ensures var p, suffix := SplitDomain(l, fqdn).value, l.publicSuffix(fqdn);
            && Repeats(l, p.suffix, suffix)
            && (!l.fold(org, FirstLabel(suffix)) ==> p.orgLabel == org && p.suffix == suffix)
  {
    hide FirstDot, LastIndex, IsLabel, NoEmptyLabel, EndsInLabels, StepBack, WalkBack, TrimSuffix, EffectiveTldPlusOne;
    var suffix := l.publicSuffix(fqdn);
    FirstSplit(l, fqdn);
    TldPlusOneIs(l, fqdn, org, suffix);
    TrimAdded(org, suffix);
    WalkBackRepeats(l, fqdn, org, suffix, suffix);
  }

  // ------------------------------------------------------------------ splitting again

  /** The walk on a trailing part of the domain that still holds its end goes the same way. */
  lemma {:induction false} WalkBackSame(l: Lists, fqdn: bytes, org: bytes, suffix: bytes, reg: bytes)
    requires NoEmptyLabel(fqdn) && IsLabel(org) && EndsInLabels(fqdn, org + "." + suffix)
    requires var (org', suffix') := WalkBack(l, fqdn, org, suffix); reg == org' + "." + suffix'
    ensures WalkBack(l, reg, org, suffix) == WalkBack(l, fqdn, org, suffix)
    decreases |fqdn| - |suffix|
  {
    hide FirstDot, NoEmptyLabel, IsLabel, LastIndex, EndsInLabels;
    StepBackIs(l, fqdn, org, suffix);
    var ext: bytes := org + "." + suffix;
    match StepBack(l, fqdn, org, suffix) {
      case None =>
        EndsHere(l, reg, org, suffix);
      case Some(next) =>
        WalkBackSame(l, fqdn, next, ext, reg);
        WalkBackStops(l, fqdn, next, ext);
        StepBackAgain(l, reg, org, suffix, next);
    }
  }

  /** There is nothing left to walk into. */
  lemma EndsHere(l: Lists, reg: bytes, org: bytes, suffix: bytes)
    requires reg == org + "." + suffix
    ensures StepBack(l, reg, org, suffix).None?
  {}

  lemma StepBackAgain(l: Lists, reg: bytes, org: bytes, suffix: bytes, next: bytes)
    requires l.fold(org, FirstLabel(suffix)) && IsLabel(next) && EndsInLabels(reg, next + "." + (org + "." + suffix))
    ensures StepBack(l, reg, org, suffix) == Some(next)
  {
    LabelBefore(reg, next, org + "." + suffix);
    NotEmpty(next);
  }

  /** Splitting the registrable part again gives the same organization label and suffix. */
  lemma SplitIsIdempotent(l: Lists, fqdn: bytes)
    requires Trailing(l) && SplitDomain(l, fqdn).Some?
    ensures var p := SplitDomain(l, fqdn).value;
            SplitDomain(l, Registrable(p)) == Some(Parts([], p.orgLabel, p.suffix))
  {
    hide EffectiveTldPlusOne, FirstDot, LastIndex, IsLabel, NoEmptyLabel, EndsInLabels, StepBack, WalkBack, TrimSuffix;
    var p, suffix := SplitDomain(l, fqdn).value, l.publicSuffix(fqdn);
    var reg := Registrable(p);
    FirstSplit(l, fqdn);
    var org := TrimSuffix(EffectiveTldPlusOne(l, fqdn).value, "." + suffix);
    WalkBackStops(l, fqdn, org, suffix);
    WalkBackSame(l, fqdn, org, suffix, reg);
    SameSuffix(l, fqdn, reg, org, suffix);
    TldPlusOneIs(l, reg, org, suffix);
    TrimAdded(org, suffix);
    NotEmpty(org);
  }

  lemma SameSuffix(l: Lists, fqdn: bytes, reg: bytes, org: bytes, suffix: bytes)
    requires Trailing(l) && NoEmptyLabel(fqdn) && l.publicSuffix(fqdn) == suffix && IsLabel(org)
    requires EndsInLabels(fqdn, reg) && EndsInLabels(reg, org + "." + suffix)
    ensures NoEmptyLabel(reg) && l.publicSuffix(reg) == suffix
  {
    LongerEnd(org, suffix);
    EndsInLabelsAgain(reg, org + "." + suffix, suffix);
    NoEmptyLabelInEnd(fqdn, reg);
  }
}

/**
 Which detections are dropped before substitution: allow-listed values, and whatever overlaps a
 token that is already in the text (filterAllowed and filterAlreadyTokenized in
 internal/redact/engine.go).
 */
module Filters {
  import opened Bytes
  import opened SpanTries
  import opened TokenStores
  import opened Detections

  /** The list without the detections that drop holds of, in the same order. */
  ghost function Without(dets: seq<Detection>, drop: Detection -> bool): (kept: seq<Detection>)
  {
    if dets == [] then [] else (if drop(dets[0]) then [] else [dets[0]]) + Without(dets[1..], drop)
  }

  lemma {:induction false} WithoutSnoc(dets: seq<Detection>, d: Detection, drop: Detection -> bool)
    ensures Without(dets + [d], drop) == Without(dets, drop) + if drop(d) then [] else [d]
  {
    if dets == [] {
      assert [d][1..] == [];
      ConcatNil(if drop(d) then [] else [d]);
    } else {
      ConsConcat(dets, [d]);
      WithoutSnoc(dets[1..], d, drop);
      ConcatAssoc(if drop(dets[0]) then [] else [dets[0]], Without(dets[1..], drop), if drop(d) then [] else [d]);
    }
  }

  /** Exactly the detections that are not dropped are kept. */
  lemma {:induction false} KeepsTheRest(dets: seq<Detection>, drop: Detection -> bool, d: Detection)
    ensures d in Without(dets, drop) <==> d in dets && !drop(d)
  {
    if dets != [] {
      KeepsTheRest(dets[1..], drop, d);
      assert dets == [dets[0]] + dets[1..];
    }
  }

  predicate SomeAllowed(d: Detection, allowed: bytes -> bool) {
    exists k | 0 <= k < |d.lookups| :: allowed(d.lookups[k].value)
  }

  method IsAllowed(d: Detection, patterns: seq<bytes -> bool>) returns (found: bool)
    ensures found == SomeAllowed(d, MatchesAny(patterns))
  {
    for k := 0 to |d.lookups|
      invariant forall i | 0 <= i < k :: !MatchesAny(patterns)(d.lookups[i].value)
    {
      for p := 0 to |patterns|
        invariant forall i | 0 <= i < p :: !patterns[i](d.lookups[k].value)
      {
        if patterns[p](d.lookups[k].value) {
          assert MatchesAny(patterns)(d.lookups[k].value);
          return true;
        }
      }
    }
    return false;
  }

  function MatchesAny(patterns: seq<bytes -> bool>): bytes -> bool {
    (value: bytes) => exists i | 0 <= i < |patterns| :: patterns[i](value)
  }

  ghost function Allowed(patterns: seq<bytes -> bool>): Detection -> bool {
    (d: Detection) => SomeAllowed(d, MatchesAny(patterns))
  }

  /** The allow pattern p matches the value k of the detection. */
  predicate NamesAllowed(d: Detection, patterns: seq<bytes -> bool>, k: int, p: int) {
    0 <= k < |d.lookups| && 0 <= p < |patterns| && patterns[p](d.lookups[k].value)
  }

  lemma AllowedIff(patterns: seq<bytes -> bool>, d: Detection)
    ensures Allowed(patterns)(d) <==> exists k, p :: NamesAllowed(d, patterns, k, p)
  {
    if Allowed(patterns)(d) {
      var k :| 0 <= k < |d.lookups| && MatchesAny(patterns)(d.lookups[k].value);
      var p :| 0 <= p < |patterns| && patterns[p](d.lookups[k].value);
      assert NamesAllowed(d, patterns, k, p);
    }
    if k, p :| NamesAllowed(d, patterns, k, p) {
      assert MatchesAny(patterns)(d.lookups[k].value);
    }
  }

  lemma KeptUnlessAllowed(dets: seq<Detection>, patterns: seq<bytes -> bool>, d: Detection)
    ensures d in Without(dets, Allowed(patterns)) <==> d in dets && !(exists k, p :: NamesAllowed(d, patterns, k, p))
  {
    KeepsTheRest(dets, Allowed(patterns), d);
    AllowedIff(patterns, d);
  }

  method FilterAllowed(dets: seq<Detection>, patterns: seq<bytes -> bool>) returns (out: seq<Detection>)
    ensures out == Without(dets, Allowed(patterns))
    ensures forall d :: d in out <==> d in dets && !(exists k, p :: NamesAllowed(d, patterns, k, p))
  {
    out := [];
    for i := 0 to |dets|
      invariant out == Without(dets[..i], Allowed(patterns))
    {
      WithoutSnoc(dets[..i], dets[i], Allowed(patterns));
      assert dets[..i + 1] == dets[..i] + [dets[i]];
      var allowed := IsAllowed(dets[i], patterns);
      if !allowed {
        out := out + [dets[i]];
      }
    }
    assert dets[..|dets|] == dets;
    forall d
      ensures d in out <==> d in dets && !(exists k, p :: NamesAllowed(d, patterns, k, p))
    {
      KeptUnlessAllowed(dets, patterns, d);
    }
  }

  predicate Overlaps(d: Detection, r: Span) {
    d.start < r.end && r.start < d.end
  }

  /** Ranges that are not empty overlap exactly if they share a byte. */
  lemma OverlapIsSharedByte(d: Detection, r: Span)
    requires d.start < d.end && r.start < r.end
    ensures Overlaps(d, r) <==> exists k :: IsIn(k, d.start, d.end) && IsIn(k, r.start, r.end)
  {
    if Overlaps(d, r) {
      var k := if d.start < r.start then r.start else d.start;
      assert IsIn(k, d.start, d.end) && IsIn(k, r.start, r.end);
    }
  }

  predicate IsIn(k: int, start: nat, end: nat) { start <= k < end }

  /** Some registered span is there and overlaps the detection. */
  ghost predicate Touches(spans: set<bytes>, text: bytes, d: Detection) {
    exists r :: Occurs(spans, text, r) && Overlaps(d, r)
  }

  ghost function Touching(spans: set<bytes>, text: bytes): Detection -> bool {
    (d: Detection) => Touches(spans, text, d)
  }

  method FilterAlreadyTokenized(store: Store, dets: seq<Detection>, text: bytes) returns (out: seq<Detection>)
    requires store.Valid()
    ensures out == Without(dets, Touching(store.Model().spans, text))
  {
    hide SpanTrie.Valid, Lists;
    ghost var touching := Touching(store.Model().spans, text);
    var spans := store.spanTrie.FindFullSpans(text);
    assert forall r :: r in spans <==> Occurs(store.Model().spans, text, r);
    out := [];
    for i := 0 to |dets|
      invariant out == Without(dets[..i], touching)
    {
      WithoutSnoc(dets[..i], dets[i], touching);
      assert dets[..i + 1] == dets[..i] + [dets[i]];
      var overlaps := OverlapsAny(dets[i], spans);
      if !overlaps {
        out := out + [dets[i]];
      }
    }
    assert dets[..|dets|] == dets;
  }

  method OverlapsAny(d: Detection, spans: seq<Span>) returns (overlaps: bool)
    ensures overlaps <==> exists r :: r in spans && Overlaps(d, r)
  {
    for k := 0 to |spans|
      invariant forall i | 0 <= i < k :: !Overlaps(d, spans[i])
    {
      if Overlaps(d, spans[k]) {
        return true;
      }
    }
    return false;
  }
}

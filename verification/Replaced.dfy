/**
 What the first pass of Tokenize replaces (internal/redact/engine.go), in terms of what the
 detectors report, the allow patterns and the registered spans.
 */
module Replaced {
  import opened Bytes
  import opened Scanning
  import opened SpanTries
  import opened Splicing
  import opened Minting
  import opened StoreStates
  import opened Detections
  import opened Filters
  import opened Substitution
  import opened Engines
  import Utf8

  /** Reported, with no value that an allow pattern matches, and clear of every registered span. */
  ghost predicate Counts(s: State, c: Config, text: bytes, d: Detection)
    requires c.detect(text).Some?
  {
    && d in c.detect(text).value
    && !(exists k, p :: NamesAllowed(d, c.allow, k, p))
    && !(exists r :: Occurs(s.spans, text, r) && Overlaps(d, r))
  }

  predicate EditOf(e: Edit, d: Detection) { e.start == d.start && e.end == d.end }

  ghost predicate IsEdited(edits: seq<Edit>, d: Detection) {
    exists k :: 0 <= k < |edits| && EditOf(edits[k], d)
  }

  /** An ordinary detection that counts and is replaced names the value. */
  ghost predicate IsNamed(s: State, c: Config, text: bytes, edits: seq<Edit>, value: bytes)
    requires c.detect(text).Some?
  {
    exists d, k :: Counts(s, c, text, d) && !d.preserve && IsEdited(edits, d) && LooksUp(d, k, value)
  }

  predicate LooksUp(d: Detection, k: int, value: bytes) { 0 <= k < |d.lookups| && d.lookups[k].value == value }

  /** d may be replaced: it is an ordinary one, or its value was known, or an ordinary one names it. */
  ghost predicate MayBeReplaced(s: State, c: Config, text: bytes, edits: seq<Edit>, d: Detection)
    requires c.detect(text).Some?
  {
    Counts(s, c, text, d) && d.lookups != []
    && (!d.preserve || d.lookups[0].value in s.r2t || IsNamed(s, c, text, edits, d.lookups[0].value))
  }

  /** The detection d stands for x: it is x, or x begins inside it and d begins earlier or reaches at
      least as far. */
  ghost predicate StandsFor(d: Detection, x: Detection) {
    d == x || (x.start < d.end && (d.start < x.start || (d.start == x.start && d.end >= x.end)))
  }

  /** d is replaced, or it is doubtful and its value was not known. */
  ghost predicate IsDealtWith(s: State, edits: seq<Edit>, d: Detection) {
    IsEdited(edits, d) || (d.preserve && d.lookups != [] && d.lookups[0].value !in s.r2t)
  }

  lemma ChosenCount(s: State, c: Config, text: bytes, d: Detection)
    requires c.detect(text).Some?
    ensures d in Remaining(s, text, c.detect(text).value, c.allow) <==> Counts(s, c, text, d)
  {
    var found := c.detect(text).value;
    KeepsTheRest(Without(found, Allowed(c.allow)), Touching(s.spans, text), d);
    KeptUnlessAllowed(found, c.allow, d);
  }

  lemma {:induction false} EditIsOfReplaced(s: State, dets: seq<Detection>, n: nat, k: nat)
    requires n <= |dets| && Named(dets) && k < ReplacedBefore(s, dets, n)
    ensures exists i :: 0 <= i < n && IsReplaced(s, dets, i) && ReplacedBefore(s, dets, i) == k
  {
    hide IsReplaced;
    if n > 0 && k < ReplacedBefore(s, dets, n - 1) {
      EditIsOfReplaced(s, dets, n - 1, k);
    }
  }

  /** Everything that the first pass replaces counts and may be replaced. */
  lemma OnlyTheseAreReplaced(s: State, c: Config, o: Oracle, text: bytes, k: nat)
    requires Fit(c) && Utf8.WellFormed(text) && c.detect(text).Some? && Doubtful(c.detect(text).value)
    requires var p := Traced(s, c, o, text).first; p.ok && k < |p.edits|
    ensures var edits := Traced(s, c, o, text).first.edits;
            exists d :: MayBeReplaced(s, c, text, edits, d) && EditOf(edits[k], d)
  {
    var found := c.detect(text).value;
    var dets := Chosen(s, text, found, c.allow);
    var edits := Traced(s, c, o, text).first.edits;
    FirstPass(s, c, o, text);
    EditIsOfReplaced(s, dets, |dets|, k);
    var i :| 0 <= i < |dets| && IsReplaced(s, dets, i) && ReplacedBefore(s, dets, i) == k;
    ChosenCounts(s, c, text, i);
    if dets[i].preserve && dets[i].lookups[0].value !in s.r2t {
      var j, m :| Names(dets, j, m, dets[i].lookups[0].value);
      ChosenCounts(s, c, text, j);
      assert IsReplaced(s, dets, j);
      assert IsEdited(edits, dets[j]);
      assert LooksUp(dets[j], m, dets[i].lookups[0].value);
    }
    assert MayBeReplaced(s, c, text, edits, dets[i]);
  }

  /** The edits of the first pass, one for each detection that the rule names. */
  lemma FirstPass(s: State, c: Config, o: Oracle, text: bytes)
    requires Fit(c) && Utf8.WellFormed(text) && c.detect(text).Some? && Doubtful(c.detect(text).value)
    requires Traced(s, c, o, text).first.ok
    ensures var dets, edits := Chosen(s, text, c.detect(text).value, c.allow), Traced(s, c, o, text).first.edits;
            && Named(dets) && |edits| == ReplacedBefore(s, dets, |dets|)
            && (forall i | 0 <= i < |dets| && IsReplaced(s, dets, i) ::
                  ReplacedBefore(s, dets, i) < |edits| && EditOf(edits[ReplacedBefore(s, dets, i)], dets[i]))
  {
    var found := c.detect(text).value;
    var dets := Chosen(s, text, found, c.allow);
    ChosenIsFit(s, text, found, c.allow);
    TracedInSteps(s, c, o, text);
    forall i | 0 <= i < |dets| && dets[i].preserve
      ensures |dets[i].lookups| == 1
    {
      ChosenCounts(s, c, text, i);
    }
    hide Chosen, Traced, Named, IsReplaced;
    ReplacedByRule(s, dets, o.faults, |dets|);
  }

  lemma ChosenCounts(s: State, c: Config, text: bytes, i: nat)
    requires c.detect(text).Some? && i < |Chosen(s, text, c.detect(text).value, c.allow)|
    ensures Counts(s, c, text, Chosen(s, text, c.detect(text).value, c.allow)[i])
  {
    ChosenCount(s, c, text, Chosen(s, text, c.detect(text).value, c.allow)[i]);
  }

  /** Every detection that counts has one that stands for it and is replaced, unless that one is
      doubtful and its value was not known. */
  lemma EveryOneIsDealtWith(s: State, c: Config, o: Oracle, text: bytes, x: Detection)
    requires Fit(c) && Utf8.WellFormed(text) && c.detect(text).Some? && Doubtful(c.detect(text).value)
    requires Traced(s, c, o, text).first.ok && Counts(s, c, text, x)
    ensures var edits := Traced(s, c, o, text).first.edits;
            exists d :: Counts(s, c, text, d) && StandsFor(d, x) && IsDealtWith(s, edits, d)
  {
    var found := c.detect(text).value;
    var all, dets := Remaining(s, text, found, c.allow), Chosen(s, text, found, c.allow);
    ChosenCount(s, c, text, x);
    RemainingIsFit(s, text, found, c.allow);
    var i := StandIn(all, x, |text|);
    FirstPass(s, c, o, text);
    ChosenCounts(s, c, text, i);
    ChosenIsDealtWith(s, dets, Traced(s, c, o, text).first.edits, i);
    hide Remaining, Traced, Counts, IsDealtWith, StandsFor;
  }

  lemma ChosenIsDealtWith(s: State, dets: seq<Detection>, edits: seq<Edit>, i: nat)
    requires i < |dets| && Named(dets)
    requires forall i | 0 <= i < |dets| && IsReplaced(s, dets, i) ::
               ReplacedBefore(s, dets, i) < |edits| && EditOf(edits[ReplacedBefore(s, dets, i)], dets[i])
    ensures IsDealtWith(s, edits, dets[i])
  {}

  /** The place among the chosen of what stands for x. */
  lemma StandIn(all: seq<Detection>, x: Detection, n: nat) returns (i: nat)
    requires x in all && InText(all, n)
    ensures i < |Kept(all)| && StandsFor(Pick(all, Kept(all))[i], x)
  {
    var p :| 0 <= p < |all| && all[p] == x;
    hide Kept;
    if p in Kept(all) {
      i :| 0 <= i < |Kept(all)| && Kept(all)[i] == p;
    } else {
      DroppedForPreferred(all, n, p);
      var k: nat :| k in Kept(all) && k < |all| && all[p].start < all[k].end && Preferred(all, k, p);
      i :| 0 <= i < |Kept(all)| && Kept(all)[i] == k;
    }
  }

  // ------------------------------------------------------------------ when it fails

  /** The tokens of detection n cannot be had when its turn comes. */
  ghost predicate MintFailsAt(s: State, dets: seq<Detection>, faults: nat -> bool, n: nat)
    requires Named(dets)
  {
    && n < |dets|
    && var p := Applied(s, dets, Established(dets, |dets|), faults, n);
       && !LeftAlone(p.state, Established(dets, |dets|), dets[n])
       && Mint(p.state, dets[n].lookups, Build(dets[n]), faults(n)).tokens.None?
  }

  lemma {:induction false} AppliedUntil(s: State, dets: seq<Detection>, faults: nat -> bool, n: nat)
    requires n <= |dets| && Named(dets)
    ensures Applied(s, dets, Established(dets, |dets|), faults, n).ok <==> forall i: nat | i < n :: !MintFailsAt(s, dets, faults, i)
  {
    hide Mint, Established, LeftAlone, Build;
    if n > 0 {
      AppliedUntil(s, dets, faults, n - 1);
      if (forall i: nat | i < n - 1 :: !MintFailsAt(s, dets, faults, i)) && MintFailsAt(s, dets, faults, n - 1) {
        assert !Applied(s, dets, Established(dets, |dets|), faults, n).ok;
      }
    }
  }

  /** Some detection that is chosen in this pass cannot be given its tokens. */
  ghost predicate PassFails(s: State, text: bytes, found: seq<Detection>, allow: seq<bytes -> bool>, faults: nat -> bool)
    requires Named(found) && InText(found, |text|)
  {
    ChosenIsFit(s, text, found, allow);
    exists n: nat :: MintFailsAt(s, Chosen(s, text, found, allow), faults, n)
  }

  lemma PassFailsIff(s: State, text: bytes, found: seq<Detection>, allow: seq<bytes -> bool>, faults: nat -> bool)
    requires Named(found) && InText(found, |text|)
    ensures !Pass(s, text, found, allow, faults).ok <==> PassFails(s, text, found, allow, faults)
  {
    ChosenIsFit(s, text, found, allow);
    var dets := Chosen(s, text, found, allow);
    hide Chosen, Applied, Established;
    AppliedUntil(s, dets, faults, |dets|);
  }

  /** Tokenize fails exactly for text that is not valid UTF-8, for the error of a detector, or when the
      tokens of a detection cannot be had. Without valid text and detections nothing is minted. */
  lemma TokenizeFailsIff(s: State, c: Config, o: Oracle, text: bytes)
    requires Fit(c)
    ensures var t := Traced(s, c, o, text);
            t.result.None? <==>
              || !Utf8.WellFormed(text) || c.detect(text).None?
              || PassFails(s, text, c.detect(text).value, c.allow, o.faults)
              || PassFails(t.first.state, Substituted(s, c, o, text), Survivors(c, o, Substituted(s, c, o, text)), c.allow, o.blockFaults)
    ensures !Utf8.WellFormed(text) || c.detect(text).None? ==> Traced(s, c, o, text).second.state == s
  {
    if Utf8.WellFormed(text) && c.detect(text).Some? {
      TracedInSteps(s, c, o, text);
      hide Traced, Pass, PassFails, Survivors, Substituted;
      var t := Traced(s, c, o, text);
      PassFailsIff(s, text, c.detect(text).value, c.allow, o.faults);
      PassFailsIff(t.first.state, Substituted(s, c, o, text), Survivors(c, o, Substituted(s, c, o, text)), c.allow, o.blockFaults);
    }
  }
}

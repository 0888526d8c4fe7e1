/**
 Tokenize calls racing with SetDetectors and SetAllowPatterns (internal/redact/engine.go,
 internal/redact/tokenize_cache.go). Each atomic access is one step: the two configuration
 pointers, the generation counter, and the cache behind its mutex. A configuration is known by its
 version, the number of stores to its pointer so far, and a value by the versions it was computed
 from.
 */
module ReloadProtocol {
  import opened Bytes

  /** What a call has loaded, in its order: the detectors, the allow patterns, and both again for
      the final pass. */
  type Loads = seq<nat>

  datatype CallPc =
    | Starting
    | Looking(gen: nat)
    | Loading(gen: nat, loads: Loads)
    | Returned(gen: nat, loads: Loads)

  datatype Call = Call(text: bytes, pc: CallPc)

  datatype Kind = Detectors | AllowPatterns

  /** version is what the setter stored, gen the generation that its bump began. */
  datatype SetPc = Storing | Bumping(version: nat) | Clearing(version: nat, gen: nat) | Finished(version: nat, gen: nat)

  datatype Setter = Setter(kind: Kind, pc: SetPc)

  datatype Cached = Cached(loads: Loads, gen: nat)

  datatype Versions = Versions(detectors: nat, allow: nat)

  /** began is a history: the versions in force when each generation began. */
  datatype Sys = Sys(
    current: Versions,
    gen: nat,
    cache: map<bytes, Cached>,
    calls: seq<Call>,
    setters: seq<Setter>,
    began: seq<Versions>)

  function Version(v: Versions, kind: Kind): nat { if kind.Detectors? then v.detectors else v.allow }

  function Bumped(v: Versions, kind: Kind): Versions {
    if kind.Detectors? then v.(detectors := v.detectors + 1) else v.(allow := v.allow + 1)
  }

  function KindOf(k: nat): Kind { if k % 2 == 0 then Detectors else AllowPatterns }

  function WithCall(s: Sys, i: nat, pc: CallPc): Sys
    requires i < |s.calls|
  {
    s.(calls := s.calls[i := s.calls[i].(pc := pc)])
  }

  function WithSetter(s: Sys, i: nat, pc: SetPc): Sys
    requires i < |s.setters|
  {
    s.(setters := s.setters[i := s.setters[i].(pc := pc)])
  }

  /** The next step of a call; keep says whether its result may be cached. */
  function NextOfCall(s: Sys, i: nat, keep: bool): Sys
    requires i < |s.calls|
  {
    var c := s.calls[i];
    match c.pc
    case Starting => WithCall(s, i, Looking(s.gen))
    case Looking(gen) =>
      if c.text in s.cache && s.cache[c.text].gen == gen then WithCall(s, i, Returned(gen, s.cache[c.text].loads))
      else WithCall(s, i, Loading(gen, []))
    case Loading(gen, loads) =>
      if |loads| < 4 then WithCall(s, i, Loading(gen, loads + [Version(s.current, KindOf(|loads|))]))
      else
        var s' := WithCall(s, i, Returned(gen, loads));
        if keep then s'.(cache := s.cache[c.text := Cached(loads, gen)]) else s'
    case Returned(_, _) => s
  }

  /** The next step of a setter: store, bump, clear. */
  function NextOfSetter(s: Sys, i: nat): Sys
    requires i < |s.setters|
  {
    var kind := s.setters[i].kind;
    match s.setters[i].pc
    case Storing =>
      var now := Bumped(s.current, kind);
      WithSetter(s, i, Bumping(Version(now, kind))).(current := now)
    case Bumping(version) =>
      WithSetter(s, i, Clearing(version, s.gen + 1)).(gen := s.gen + 1, began := s.began + [s.current])
    case Clearing(version, gen) => WithSetter(s, i, Finished(version, gen)).(cache := map[])
    case Finished(_, _) => s
  }

  /** A cache entry can be evicted at any time. */
  datatype Event =
    | CallRuns(i: nat, keep: bool)
    | SetterRuns(i: nat)
    | Evicts(text: bytes)
    | NewCall(text: bytes)
    | NewSetter(kind: Kind)

  function Step(s: Sys, e: Event): Sys {
    match e
    case CallRuns(i, keep) => if i < |s.calls| then NextOfCall(s, i, keep) else s
    case SetterRuns(i) => if i < |s.setters| then NextOfSetter(s, i) else s
    case Evicts(text) => s.(cache := s.cache - {text})
    case NewCall(text) => s.(calls := s.calls + [Call(text, Starting)])
    case NewSetter(kind) => s.(setters := s.setters + [Setter(kind, Storing)])
  }

  function Exec(s: Sys, events: seq<Event>): Sys
    decreases events
  {
    if events == [] then s else Exec(Step(s, events[0]), events[1..])
  }

  const START: Sys := Sys(Versions(0, 0), 0, map[], [], [], [Versions(0, 0)])

  // ------------------------------------------------------------------ the invariant

  predicate NotOlder(a: Versions, b: Versions) { b.detectors <= a.detectors && b.allow <= a.allow }

  /** Nothing was loaded before the generation began. */
  ghost predicate LoadedSince(loads: Loads, v: Versions) {
    forall k | 0 <= k < |loads| :: Version(v, KindOf(k)) <= loads[k]
  }

  ghost predicate GenOk(s: Sys, gen: nat, loads: Loads) {
    gen <= s.gen && gen < |s.began| && LoadedSince(loads, s.began[gen])
  }

  ghost predicate CallOk(s: Sys, c: Call) {
    match c.pc
    case Starting => true
    case Looking(gen) => GenOk(s, gen, [])
    case Loading(gen, loads) => GenOk(s, gen, loads) && |loads| <= 4
    case Returned(gen, loads) => GenOk(s, gen, loads) && |loads| == 4
  }

  ghost predicate SetterOk(s: Sys, t: Setter) {
    match t.pc
    case Storing => true
    case Bumping(version) => version <= Version(s.current, t.kind)
    case Clearing(version, gen) => gen <= s.gen && gen < |s.began| && version <= Version(s.began[gen], t.kind)
    case Finished(version, gen) => gen <= s.gen && gen < |s.began| && version <= Version(s.began[gen], t.kind)
  }

  ghost predicate Histories(s: Sys) {
    && |s.began| == s.gen + 1
    && (forall g, h | 0 <= g <= h <= s.gen :: NotOlder(s.began[h], s.began[g]))
    && NotOlder(s.current, s.began[s.gen])
  }

  ghost predicate Inv(s: Sys) {
    && Histories(s)
    && (forall i | 0 <= i < |s.calls| :: CallOk(s, s.calls[i]))
    && (forall i | 0 <= i < |s.setters| :: SetterOk(s, s.setters[i]))
    && (forall text | text in s.cache :: CachedOk(s, s.cache[text]))
  }

  ghost predicate CachedOk(s: Sys, e: Cached) { GenOk(s, e.gen, e.loads) && |e.loads| == 4 }

  /** What has happened stays true. */
  ghost predicate Later(s: Sys, s': Sys) {
    s.began <= s'.began && s.gen <= s'.gen && NotOlder(s'.current, s.current)
  }

  lemma CallStaysOk(s: Sys, s': Sys, c: Call)
    requires CallOk(s, c) && Later(s, s')
    ensures CallOk(s', c)
  {}

  lemma SetterStaysOk(s: Sys, s': Sys, t: Setter)
    requires SetterOk(s, t) && Later(s, s')
    ensures SetterOk(s', t)
  {}

  lemma CachedStaysOk(s: Sys, s': Sys, e: Cached)
    requires CachedOk(s, e) && Later(s, s')
    ensures CachedOk(s', e)
  {}

  /** One load more is of the current version, which is not older than any generation. */
  lemma LoadIsSince(s: Sys, gen: nat, loads: Loads)
    requires Histories(s) && GenOk(s, gen, loads)
    ensures GenOk(s, gen, loads + [Version(s.current, KindOf(|loads|))])
  {
    assert NotOlder(s.began[s.gen], s.began[gen]);
  }

  lemma CallStep(s: Sys, i: nat, keep: bool)
    requires Inv(s) && i < |s.calls|
    ensures var s' := NextOfCall(s, i, keep);
            && s'.setters == s.setters && s'.current == s.current && s'.gen == s.gen && s'.began == s.began
            && |s'.calls| == |s.calls| && (forall j | 0 <= j < |s.calls| && j != i :: s'.calls[j] == s.calls[j])
            && CallOk(s', s'.calls[i])
            && (forall text | text in s'.cache :: (text in s.cache && s'.cache[text] == s.cache[text]) || CachedOk(s', s'.cache[text]))
  {
    var c := s.calls[i];
    assert CallOk(s, c);
    match c.pc {
      case Starting =>
      case Looking(gen) =>
        if c.text in s.cache {
          assert CachedOk(s, s.cache[c.text]);
        }
      case Loading(gen, loads) =>
        if |loads| < 4 {
          LoadIsSince(s, gen, loads);
        }
      case Returned(_, _) =>
    }
  }

  lemma CallKeepsInv(s: Sys, i: nat, keep: bool)
    requires Inv(s) && i < |s.calls|
    ensures Inv(NextOfCall(s, i, keep))
  {
    CallStep(s, i, keep);
    hide NextOfCall, CallOk, SetterOk, CachedOk;
    var s' := NextOfCall(s, i, keep);
    InvCarries(s, s', i, |s.setters|);
  }

  /** All but one call and one setter carry over to a later state. */
  lemma InvCarries(s: Sys, s': Sys, i: nat, j: nat)
    requires Inv(s) && Later(s, s') && Histories(s')
    requires |s'.calls| == |s.calls| && |s'.setters| == |s.setters|
    requires forall k | 0 <= k < |s.calls| :: s'.calls[k] == s.calls[k] || CallOk(s', s'.calls[k])
    requires forall k | 0 <= k < |s.setters| :: s'.setters[k] == s.setters[k] || SetterOk(s', s'.setters[k])
    requires forall text | text in s'.cache :: (text in s.cache && s'.cache[text] == s.cache[text]) || CachedOk(s', s'.cache[text])
    ensures Inv(s')
  {
    hide CallOk, SetterOk, CachedOk, Histories, Later;
    forall k | 0 <= k < |s.calls| && s'.calls[k] == s.calls[k]
      ensures CallOk(s', s.calls[k])
    {
      CallStaysOk(s, s', s.calls[k]);
    }
    forall k | 0 <= k < |s.setters| && s'.setters[k] == s.setters[k]
      ensures SetterOk(s', s.setters[k])
    {
      SetterStaysOk(s, s', s.setters[k]);
    }
    forall text | text in s.cache
      ensures CachedOk(s', s.cache[text])
    {
      CachedStaysOk(s, s', s.cache[text]);
    }
  }

  lemma SetterKeepsInv(s: Sys, i: nat)
    requires Inv(s) && i < |s.setters|
    ensures Inv(NextOfSetter(s, i))
  {
    var s', t := NextOfSetter(s, i), s.setters[i];
    assert SetterOk(s, t);
    if t.pc.Bumping? {
      forall g, h | 0 <= g <= h <= s'.gen
        ensures NotOlder(s'.began[h], s'.began[g])
      {
        if g <= s.gen && h == s'.gen {
          assert NotOlder(s.began[s.gen], s.began[g]);
        }
      }
    }
    assert Histories(s') && Later(s, s') && SetterOk(s', s'.setters[i]);
    hide CallOk, SetterOk, CachedOk, Histories, Later;
    InvCarries(s, s', |s.calls|, i);
  }

  lemma StepKeepsInv(s: Sys, e: Event)
    requires Inv(s)
    ensures Inv(Step(s, e))
  {
    match e {
      case CallRuns(i, keep) => if i < |s.calls| { CallKeepsInv(s, i, keep); }
      case SetterRuns(i) => if i < |s.setters| { SetterKeepsInv(s, i); }
      case _ =>
        hide GenOk;
    }
  }

  lemma {:induction false} ExecKeepsInv(s: Sys, events: seq<Event>)
    requires Inv(s)
    ensures Inv(Exec(s, events))
    decreases events
  {
    if events != [] {
      hide Inv;
      StepKeepsInv(s, events[0]);
      ExecKeepsInv(Step(s, events[0]), events[1..]);
    }
  }

  /** In every interleaving: a call whose generation is not before the one that a setter's bump
      began returns a value, cached or not, that was computed only from what that setter stored or
      from something stored later. */
  lemma {:induction false} NoStaleValue(events: seq<Event>, i: nat, j: nat, k: nat)
    requires var s := Exec(START, events);
             && i < |s.calls| && s.calls[i].pc.Returned?
             && j < |s.setters| && (s.setters[j].pc.Clearing? || s.setters[j].pc.Finished?)
             && s.setters[j].pc.gen <= s.calls[i].pc.gen
             && k < 4 && KindOf(k) == s.setters[j].kind
    ensures var s := Exec(START, events);
            |s.calls[i].pc.loads| == 4 && s.calls[i].pc.loads[k] >= s.setters[j].pc.version
  {
    var s := Exec(START, events);
    ExecKeepsInv(START, events);
    assert CallOk(s, s.calls[i]) && SetterOk(s, s.setters[j]);
    assert NotOlder(s.began[s.calls[i].pc.gen], s.began[s.setters[j].pc.gen]);
  }

  // ------------------------------------------------------------------ reading after the bump

  /** Call i has not read the generation yet, or read one not before g. */
  ghost predicate ReadsSince(s: Sys, i: nat, g: nat) {
    && g <= s.gen
    && (i < |s.calls| ==>
          match s.calls[i].pc
          case Starting => true
          case Looking(gen) => g <= gen
          case Loading(gen, _) => g <= gen
          case Returned(gen, _) => g <= gen)
  }

  /** Setter j has bumped the generation to g after storing this version. */
  predicate HasBumped(s: Sys, j: nat, kind: Kind, version: nat, g: nat) {
    j < |s.setters| && s.setters[j].kind == kind && (s.setters[j].pc == Clearing(version, g) || s.setters[j].pc == Finished(version, g))
  }

  lemma {:induction false} StaysSince(s: Sys, events: seq<Event>, i: nat, j: nat, kind: Kind, version: nat, g: nat)
    requires ReadsSince(s, i, g) && HasBumped(s, j, kind, version, g)
    ensures ReadsSince(Exec(s, events), i, g) && HasBumped(Exec(s, events), j, kind, version, g)
    decreases events
  {
    if events != [] {
      StepStaysSince(s, events[0], i, j, kind, version, g);
      hide ReadsSince, HasBumped, Step;
      StaysSince(Step(s, events[0]), events[1..], i, j, kind, version, g);
    }
  }

  lemma StepStaysSince(s: Sys, e: Event, i: nat, j: nat, kind: Kind, version: nat, g: nat)
    requires ReadsSince(s, i, g) && HasBumped(s, j, kind, version, g)
    ensures ReadsSince(Step(s, e), i, g) && HasBumped(Step(s, e), j, kind, version, g)
  {}

  lemma {:induction false} ExecJoins(s: Sys, a: seq<Event>, b: seq<Event>)
    ensures Exec(s, a + b) == Exec(Exec(s, a), b)
    decreases a
  {
    if a == [] {
      assert a + b == b;
    } else {
      assert (a + b)[1..] == a[1..] + b;
      ExecJoins(Step(s, a[0]), a[1..], b);
    }
  }

  /** Whatever happens before and after: once a setter has bumped the generation, a call that reads
      the generation from then on returns nothing that was computed from an older configuration. */
  lemma {:induction false} ReloadTakesEffect(before: seq<Event>, after: seq<Event>, i: nat, j: nat, kind: Kind, version: nat, g: nat, k: nat)
    requires HasBumped(Exec(START, before), j, kind, version, g)
    requires i < |Exec(START, before).calls| ==> Exec(START, before).calls[i].pc.Starting?
    requires var s := Exec(START, before + after); i < |s.calls| && s.calls[i].pc.Returned?
    requires k < 4 && KindOf(k) == kind
    ensures var loads := Exec(START, before + after).calls[i].pc.loads;
            |loads| == 4 && loads[k] >= version
  {
    var s := Exec(START, before);
    ExecJoins(START, before, after);
    ExecKeepsInv(START, before);
    assert SetterOk(s, s.setters[j]);
    StaysSince(s, after, i, j, kind, version, g);
    NoStaleValue(before + after, i, j, k);
  }

  // ------------------------------------------------------------------ a cached value is used

  /** The event does not take away or replace what is cached for the text. */
  predicate Spares(s: Sys, e: Event, text: bytes) {
    match e
    case CallRuns(i, _) => i < |s.calls| && s.calls[i].text == text ==> !s.calls[i].pc.Loading?
    case SetterRuns(i) => i < |s.setters| ==> !s.setters[i].pc.Clearing?
    case Evicts(t) => t != text
    case _ => true
  }

  predicate AllSpare(s: Sys, events: seq<Event>, text: bytes)
    decreases events
  {
    events != [] ==> Spares(s, events[0], text) && AllSpare(Step(s, events[0]), events[1..], text)
  }

  lemma {:induction false} EntryStays(s: Sys, events: seq<Event>, text: bytes)
    requires text in s.cache && AllSpare(s, events, text)
    ensures text in Exec(s, events).cache && Exec(s, events).cache[text] == s.cache[text]
    decreases events
  {
    if events != [] {
      EntryStays(Step(s, events[0]), events[1..], text);
    }
  }

  /** A value that a call has computed and kept is what a later call for the same text returns without
      computing anything, if it reads the same generation and the entry has not been touched. */
  lemma {:induction false} KeptIsReused(s: Sys, i: nat, events: seq<Event>, j: nat, keep: bool)
    requires i < |s.calls| && s.calls[i].pc.Loading? && |s.calls[i].pc.loads| == 4
    requires var now := Step(s, CallRuns(i, true)); AllSpare(now, events, s.calls[i].text)
    requires var later := Exec(Step(s, CallRuns(i, true)), events);
             j < |later.calls| && later.calls[j] == Call(s.calls[i].text, Looking(s.calls[i].pc.gen))
    ensures var later := Exec(Step(s, CallRuns(i, true)), events);
            Step(later, CallRuns(j, keep)).calls[j].pc == Returned(s.calls[i].pc.gen, s.calls[i].pc.loads)
  {
    EntryStays(Step(s, CallRuns(i, true)), events, s.calls[i].text);
  }
}

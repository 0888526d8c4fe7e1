/**
 Concurrent callers of MintAndRegisterSpan and RegisterSpan (internal/tokenstore/spans.go), one
 step at a time: the lock mu around the maps, the database's single write transaction, and the
 trie's own lock. A crash drops every caller and all memory at any point.
 */
module StoreProtocol {
  import opened Bytes
  import opened Scanning
  import opened Minting
  import opened StoreStates
  import opened StoreLaws
  import opened StoreCounters
  import opened StoreRuns

  /** Where a caller is. The names of the waiting states say which lock it waits for. */
  datatype Pc =
    | Looking(found: seq<bytes>)
    | WantMu
    | WantTx
    | InTx
    | Recording(tokens: seq<bytes>, span: bytes)
    | WantTrie(tokens: seq<bytes>, span: bytes)
    | Inserting(tokens: seq<bytes>, span: bytes)
    | Checking(tokens: seq<bytes>, span: bytes)
    | RegWantTx(tokens: seq<bytes>, span: bytes)
    | RegInTx(tokens: seq<bytes>, span: bytes)
    | Done(tokens: seq<bytes>, span: bytes)
    | Failed

  /** A call of MintAndRegisterSpan starts as Looking([]), a call of RegisterSpan as
      Checking([], span) without requests. */
  datatype Caller = Caller(reqs: seq<Request>, build: seq<bytes> -> bytes, pc: Pc)

  /** covered is a history: the tokens minted so far, each with the span minted with it. */
  datatype Sys = Sys(
    store: State,
    mu: Option<nat>,
    tx: Option<nat>,
    trieLock: Option<nat>,
    callers: seq<Caller>,
    covered: set<(bytes, bytes)>)

  function At(s: Sys, t: nat, pc: Pc): Sys
    requires t < |s.callers|
  {
    s.(callers := s.callers[t := s.callers[t].(pc := pc)])
  }

  function Pairs(tokens: seq<bytes>, span: bytes): set<(bytes, bytes)> {
    set i | 0 <= i < |tokens| :: (tokens[i], span)
  }

  /** The transaction of MintAndRegisterSpan either commits or leaves everything as it was. */
  function Commit(s: Sys, t: nat, fault: bool): Sys
    requires t < |s.callers|
  {
    var c, st := s.callers[t], s.store;
    match MintUpTo(MinterOf(st.r2t, st.t2r), st.disk, c.reqs, |c.reqs|)
    case None => At(s, t, Failed).(tx := None, mu := None)
    case Some(m) =>
      var span := c.build(m.tokens);
      if fault || !Storable(span) then At(s, t, Failed).(tx := None, mu := None)
      else
        At(s, t, Recording(m.tokens, span)).(
          tx := None,
          store := st.(disk := m.disk.(spans := m.disk.spans + {span})),
          covered := s.covered + Pairs(m.tokens, span))
  }

  /** The maps in memory follow, and mu is released. */
  function Record(s: Sys, t: nat, tokens: seq<bytes>, span: bytes): Sys
    requires t < |s.callers| && |tokens| == |s.callers[t].reqs|
  {
    var c, st := s.callers[t], s.store;
    At(s, t, WantTrie(tokens, span)).(
      mu := None,
      store := st.(r2t := Recorded(st.r2t, Values(c.reqs), tokens, |c.reqs|),
                   t2r := Recorded(st.t2r, tokens, Values(c.reqs), |c.reqs|)))
  }

  /** The next step of caller t; None if it waits for a lock or has returned. */
  function Next(s: Sys, t: nat, fault: bool): Option<Sys>
    requires t < |s.callers|
  {
    var c, st := s.callers[t], s.store;
    match c.pc
    case Looking(found) =>
      if |found| >= |c.reqs| then Some(At(s, t, Checking(found, c.build(found))))
      else if s.mu.Some? then None
      else if c.reqs[|found|].value in st.r2t then Some(At(s, t, Looking(found + [st.r2t[c.reqs[|found|].value]])))
      else Some(At(s, t, WantMu))
    case WantMu => if s.mu.Some? then None else Some(At(s, t, WantTx).(mu := Some(t)))
    case WantTx => if s.tx.Some? then None else Some(At(s, t, InTx).(tx := Some(t)))
    case InTx => Some(Commit(s, t, fault))
    case Recording(tokens, span) => if |tokens| == |c.reqs| then Some(Record(s, t, tokens, span)) else None
    case WantTrie(tokens, span) =>
      if s.trieLock.Some? then None else Some(At(s, t, Inserting(tokens, span)).(trieLock := Some(t)))
    case Inserting(tokens, span) =>
      Some(At(s, t, Done(tokens, span)).(trieLock := None, store := st.(spans := st.spans + {span})))
    case Checking(tokens, span) =>
      if span == [] then Some(At(s, t, Done(tokens, span)))
      else if s.trieLock.Some? then None
      else if span in st.spans then Some(At(s, t, Done(tokens, span)))
      else Some(At(s, t, RegWantTx(tokens, span)))
    case RegWantTx(tokens, span) => if s.tx.Some? then None else Some(At(s, t, RegInTx(tokens, span)).(tx := Some(t)))
    case RegInTx(tokens, span) =>
      if fault || !Storable(span) then Some(At(s, t, Failed).(tx := None))
      else Some(At(s, t, WantTrie(tokens, span)).(tx := None, store := st.(disk := st.disk.(spans := st.disk.spans + {span}))))
    case Done(_, _) => None
    case Failed => None
  }

  /** A process that opens the database: nobody calls yet. */
  function Opened(d: Disk, t2r: Mapping, covered: set<(bytes, bytes)>): Sys {
    Sys(Loaded(d, t2r), None, None, None, [], covered)
  }

  datatype Event =
    | Runs(t: nat, fault: bool)
    | Calls(caller: Caller)
    | Crashes(t2r: Mapping)

  function Step(s: Sys, e: Event): Sys {
    match e
    case Runs(t, fault) => if t < |s.callers| && Next(s, t, fault).Some? then Next(s, t, fault).value else s
    case Calls(caller) => s.(callers := s.callers + [caller])
    case Crashes(t2r) => Opened(s.store.disk, t2r, s.covered)
  }

  function Exec(s: Sys, events: seq<Event>): Sys
    decreases events
  {
    if events == [] then s else Exec(Step(s, events[0]), events[1..])
  }

  // ------------------------------------------------------------------ the invariant

  predicate HoldsMu(pc: Pc) { pc.WantTx? || pc.InTx? || pc.Recording? }

  predicate HoldsTx(pc: Pc) { pc.InTx? || pc.RegInTx? }

  /** Each lock is held by the one caller that is inside it. */
  ghost predicate LockHeldBy(lock: Option<nat>, callers: seq<Caller>, holds: Pc -> bool) {
    && (lock.Some? ==> lock.value < |callers| && holds(callers[lock.value].pc))
    && (forall t | 0 <= t < |callers| && holds(callers[t].pc) :: lock == Some(t))
  }

  ghost predicate Locks(s: Sys) {
    && LockHeldBy(s.mu, s.callers, (pc: Pc) => HoldsMu(pc))
    && LockHeldBy(s.tx, s.callers, (pc: Pc) => HoldsTx(pc))
    && LockHeldBy(s.trieLock, s.callers, (pc: Pc) => pc.Inserting?)
  }

  /** The tokens are the ones in the map. */
  ghost predicate Given(r2t: Mapping, reqs: seq<Request>, tokens: seq<bytes>) {
    && |tokens| == |reqs|
    && forall i | 0 <= i < |reqs| :: reqs[i].value in r2t && r2t[reqs[i].value] == tokens[i]
  }

  ghost predicate FoundSoFar(r2t: Mapping, reqs: seq<Request>, found: seq<bytes>) {
    && |found| <= |reqs|
    && forall i | 0 <= i < |found| :: reqs[i].value in r2t && r2t[reqs[i].value] == found[i]
  }

  /** What memory will be once the caller that has committed has also recorded. */
  ghost predicate Catching(st: State, c: Caller) {
    && c.pc.Recording? && |c.pc.tokens| == |c.reqs|
    && Recorded(st.r2t, Values(c.reqs), c.pc.tokens, |c.reqs|) == st.disk.r2t
    && Recorded(st.t2r, c.pc.tokens, Values(c.reqs), |c.reqs|) == st.disk.t2r
    && Given(st.disk.r2t, c.reqs, c.pc.tokens) && Extends(st.r2t, st.disk.r2t)
  }

  /** Memory is the disk, except while a caller stands between its commit and its recording. */
  ghost predicate Memory(s: Sys) {
    if s.mu.Some? && s.mu.value < |s.callers| && s.callers[s.mu.value].pc.Recording?
    then Catching(s.store, s.callers[s.mu.value])
    else s.store.r2t == s.store.disk.r2t && s.store.t2r == s.store.disk.t2r
  }

  ghost predicate CallerOk(st: State, c: Caller) {
    && |c.reqs| < UINT32 && AllApart(c.reqs) && AskedOnce(map[], c.reqs)
    && match c.pc
       case Looking(found) => FoundSoFar(st.r2t, c.reqs, found)
       case Recording(tokens, span) => span in st.disk.spans && span != []
       case WantTrie(tokens, span) => span in st.disk.spans && span != [] && Given(st.r2t, c.reqs, tokens)
       case Inserting(tokens, span) => span in st.disk.spans && span != [] && Given(st.r2t, c.reqs, tokens)
       case Checking(tokens, span) => Given(st.r2t, c.reqs, tokens)
       case RegWantTx(tokens, span) => Given(st.r2t, c.reqs, tokens)
       case RegInTx(tokens, span) => Given(st.r2t, c.reqs, tokens)
       case Done(tokens, span) => (span == [] || span in st.spans) && Given(st.r2t, c.reqs, tokens)
       case _ => true
  }

  ghost predicate CallersOk(st: State, callers: seq<Caller>) {
    forall t | 0 <= t < |callers| :: CallerOk(st, callers[t])
  }

  ghost predicate Disks(s: Sys) {
    && Sound(s.store.disk)
    && s.store.spans <= s.store.disk.spans
    && (forall p | p in s.covered :: p.1 in s.store.disk.spans)
  }

  ghost predicate Inv(s: Sys) {
    Locks(s) && Memory(s) && CallersOk(s.store, s.callers) && Disks(s)
  }

  // ------------------------------------------------------------------ every step keeps it

  /** Caller t moves and may take or leave the lock. */
  lemma LockMoves(lock: Option<nat>, lock': Option<nat>, callers: seq<Caller>, t: nat, pc: Pc, holds: Pc -> bool)
    requires t < |callers| && LockHeldBy(lock, callers, holds)
    requires holds(pc) ==> lock' == Some(t) && (lock == None || lock == Some(t))
    requires !holds(pc) ==> lock' == if holds(callers[t].pc) then None else lock
    ensures LockHeldBy(lock', callers[t := callers[t].(pc := pc)], holds)
  {}

  /** What the other callers need from the store only grows. */
  ghost predicate Grows(st: State, st': State) {
    Extends(st.r2t, st'.r2t) && st.spans <= st'.spans && st.disk.spans <= st'.disk.spans
  }

  lemma CallerStaysOk(st: State, st': State, c: Caller)
    requires CallerOk(st, c) && Grows(st, st')
    ensures CallerOk(st', c)
  {
    hide AllApart, AskedOnce;
  }

  lemma CallersMove(st: State, st': State, callers: seq<Caller>, t: nat, pc: Pc)
    requires CallersOk(st, callers) && t < |callers| && Grows(st, st') && CallerOk(st', callers[t].(pc := pc))
    ensures CallersOk(st', callers[t := callers[t].(pc := pc)])
  {
    forall u | 0 <= u < |callers| && u != t
      ensures CallerOk(st', callers[u])
    {
      CallerStaysOk(st, st', callers[u]);
    }
  }

  /** All three locks after a move of caller t. */
  lemma LocksMove(s: Sys, s': Sys, t: nat, pc: Pc)
    requires Locks(s) && t < |s.callers| && s'.callers == s.callers[t := s.callers[t].(pc := pc)]
    requires Moves(s.mu, s'.mu, t, HoldsMu(s.callers[t].pc), HoldsMu(pc))
    requires Moves(s.tx, s'.tx, t, HoldsTx(s.callers[t].pc), HoldsTx(pc))
    requires Moves(s.trieLock, s'.trieLock, t, s.callers[t].pc.Inserting?, pc.Inserting?)
    ensures Locks(s')
  {
    LockMoves(s.mu, s'.mu, s.callers, t, pc, (pc: Pc) => HoldsMu(pc));
    LockMoves(s.tx, s'.tx, s.callers, t, pc, (pc: Pc) => HoldsTx(pc));
    LockMoves(s.trieLock, s'.trieLock, s.callers, t, pc, (pc: Pc) => pc.Inserting?);
  }

  /** A lock is taken only when it is free and released only by its holder. */
  predicate Moves(lock: Option<nat>, lock': Option<nat>, t: nat, held: bool, holds: bool) {
    if holds then lock' == Some(t) && (held || lock == None) else lock' == if held then None else lock
  }

  /** A step that changes no data. */
  lemma QuietStep(s: Sys, s': Sys, t: nat, pc: Pc)
    requires Inv(s) && t < |s.callers| && s'.callers == s.callers[t := s.callers[t].(pc := pc)]
    requires s'.store == s.store && s'.covered == s.covered && Locks(s')
    requires !s.callers[t].pc.Recording? && !pc.Recording? && CallerOk(s.store, s.callers[t].(pc := pc))
    requires s'.mu == s.mu || s'.mu == Some(t) || s.mu == Some(t)
    requires s'.mu.Some? && s.mu.Some? ==> s'.mu == s.mu
    ensures Inv(s')
  {
    hide CallerOk, Sound, LockHeldBy, Recorded, Given, Extends;
    GrowsItself(s.store);
    CallersMove(s.store, s.store, s.callers, t, pc);
  }

  lemma GrowsItself(st: State)
    ensures Grows(st, st)
  {}

  /** The state in which the transaction works: what the trie holds does not matter to it. */
  function Settled(st: State): State { st.(spans := st.disk.spans) }

  /** What a commit writes. */
  lemma {:induction false} CommitWrites(st: State, reqs: seq<Request>, m: MintedAll, span: bytes)
    requires Good(Settled(st)) && |reqs| < UINT32 && AllApart(reqs) && AskedOnce(map[], reqs) && Storable(span)
    requires MintUpTo(MinterOf(st.r2t, st.t2r), st.disk, reqs, |reqs|) == Some(m)
    ensures |m.tokens| == |reqs|
    ensures Recorded(st.r2t, Values(reqs), m.tokens, |reqs|) == m.disk.r2t
    ensures Recorded(st.t2r, m.tokens, Values(reqs), |reqs|) == m.disk.t2r
    ensures Given(m.disk.r2t, reqs, m.tokens) && Extends(st.r2t, m.disk.r2t)
    ensures m.disk.spans == st.disk.spans && Sound(m.disk.(spans := m.disk.spans + {span}))
  {
    hide MintUpTo, MinterOf, Recorded, Values, AllApart, AskedOnce, Consistent, Inverse, Given, Extends, Granted, Resolves;
    var st0, n := Settled(st), |reqs|;
    CommitMirrors(st0, reqs, m, span);
    CommitGrants(st0, reqs, m);
    ConsistentIffAskedOnce(st0, reqs, m);
    DistinctIsAskedOnce(st.r2t, reqs);
    IpAfter(st0, reqs, m);
    Ip6After(st0, reqs, m);
    NothingEmptyIsRecorded(st0, reqs, m);
    CommitKeepsSpans(st0, reqs, m);
    ConsistentResolves(st0, reqs, m, span);
    CommittedIsGood(st0, reqs, m, span);
    ResolvedIsGiven(Committed(st0, reqs, m, span), reqs, m.tokens);
    KnownExtends(st.r2t, st.t2r, reqs, m.tokens, n);
  }

  lemma {:induction false} CommitKeepsSpans(st: State, reqs: seq<Request>, m: MintedAll)
    requires Good(st) && MintUpTo(MinterOf(st.r2t, st.t2r), st.disk, reqs, |reqs|) == Some(m)
    ensures m.disk.spans == st.disk.spans
  {
    MintWrites(st, reqs, |reqs|);
  }

  lemma ResolvedIsGiven(st: State, reqs: seq<Request>, tokens: seq<bytes>)
    requires |tokens| == |reqs| && Resolves(st, reqs, tokens)
    ensures Given(st.r2t, reqs, tokens)
  {
    forall i | 0 <= i < |reqs|
      ensures reqs[i].value in st.r2t && st.r2t[reqs[i].value] == tokens[i]
    {
      assert st.t2r[tokens[i]] == reqs[i].value;
    }
  }

  /** A step that only moves caller t and takes or leaves locks. */
  lemma MoveKeepsInv(s: Sys, s': Sys, t: nat, pc: Pc)
    requires Inv(s) && t < |s.callers| && s'.callers == s.callers[t := s.callers[t].(pc := pc)]
    requires s'.store == s.store && s'.covered == s.covered
    requires !s.callers[t].pc.Recording? && !pc.Recording? && CallerOk(s.store, s.callers[t].(pc := pc))
    requires Moves(s.mu, s'.mu, t, HoldsMu(s.callers[t].pc), HoldsMu(pc))
    requires Moves(s.tx, s'.tx, t, HoldsTx(s.callers[t].pc), HoldsTx(pc))
    requires Moves(s.trieLock, s'.trieLock, t, s.callers[t].pc.Inserting?, pc.Inserting?)
    ensures Inv(s')
  {
    LocksMove(s, s', t, pc);
    assert HoldsMu(s.callers[t].pc) ==> s.mu == Some(t);
    QuietStep(s, s', t, pc);
  }

  /** The steps of a caller that change no data. */
  lemma LookupKeepsInv(s: Sys, t: nat, fault: bool)
    requires Inv(s) && t < |s.callers| && Next(s, t, fault).Some?
    requires s.callers[t].pc.Looking?
    ensures Inv(Next(s, t, fault).value)
  {
    var c, s' := s.callers[t], Next(s, t, fault).value;
    assert CallerOk(s.store, c);
    hide Inv, AllApart, AskedOnce, Extends;
    MoveKeepsInv(s, s', t, s'.callers[t].pc);
  }

  lemma WaitingKeepsInv(s: Sys, t: nat, fault: bool)
    requires Inv(s) && t < |s.callers| && Next(s, t, fault).Some?
    requires var pc := s.callers[t].pc; pc.WantMu? || pc.WantTx? || pc.WantTrie? || pc.Checking? || pc.RegWantTx?
    ensures Inv(Next(s, t, fault).value)
  {
    hide Memory, Disks, Commit, Record, Good, Sound;
    var c, s' := s.callers[t], Next(s, t, fault).value;
    assert CallerOk(s.store, c);
    hide Inv, AllApart, AskedOnce, Extends, Given;
    MoveKeepsInv(s, s', t, s'.callers[t].pc);
  }

  lemma NotRecording(s: Sys, t: nat)
    requires Inv(s) && t < |s.callers| && s.callers[t].pc.InTx?
    ensures s.mu == Some(t) && s.tx == Some(t) && Good(Settled(s.store))
  {
    assert HoldsMu(s.callers[t].pc) && HoldsTx(s.callers[t].pc);
  }

  /** A transaction that fails releases both locks; one that commits leaves only the recording. */
  lemma CommitKeepsInv(s: Sys, t: nat, fault: bool)
    requires Inv(s) && t < |s.callers| && s.callers[t].pc.InTx?
    ensures Inv(Commit(s, t, fault))
  {
    hide LockHeldBy, MintUpTo, MinterOf, Recorded, Values, AllApart, AskedOnce, Sound, Given, Extends;
    NotRecording(s, t);
    var c, st, s' := s.callers[t], s.store, Commit(s, t, fault);
    assert CallerOk(st, c);
    var m := MintUpTo(MinterOf(st.r2t, st.t2r), st.disk, c.reqs, |c.reqs|);
    if m.None? || fault || !Storable(c.build(m.value.tokens)) {
      MoveKeepsInv(s, s', t, Failed);
    } else {
      var tokens, span := m.value.tokens, c.build(m.value.tokens);
      CommitWrites(st, c.reqs, m.value, span);
      LocksMove(s, s', t, Recording(tokens, span));
      SameMapsGrow(st, s'.store);
      CallersMove(st, s'.store, s.callers, t, Recording(tokens, span));
    }
  }

  lemma SameMapsGrow(st: State, st': State)
    requires st'.r2t == st.r2t && st.spans <= st'.spans && st.disk.spans <= st'.disk.spans
    ensures Grows(st, st')
  {}

  lemma RecordKeepsInv(s: Sys, t: nat)
    requires Inv(s) && t < |s.callers| && s.callers[t].pc.Recording? && |s.callers[t].pc.tokens| == |s.callers[t].reqs|
    ensures Inv(Record(s, t, s.callers[t].pc.tokens, s.callers[t].pc.span))
  {
    hide Inverse, Mirrors, Good, Grows;
    var c, st := s.callers[t], s.store;
    var s' := Record(s, t, c.pc.tokens, c.pc.span);
    assert HoldsMu(c.pc);
    assert CallerOk(st, c);
    hide LockHeldBy, Recorded, Values, AllApart, AskedOnce, Sound, Given, Extends;
    LocksMove(s, s', t, WantTrie(c.pc.tokens, c.pc.span));
    CallersMove(st, s'.store, s.callers, t, WantTrie(c.pc.tokens, c.pc.span));
  }

  lemma InsertKeepsInv(s: Sys, t: nat)
    requires Inv(s) && t < |s.callers| && s.callers[t].pc.Inserting?
    ensures Inv(Next(s, t, false).value)
  {
    var c, s' := s.callers[t], Next(s, t, false).value;
    assert CallerOk(s.store, c);
    hide LockHeldBy, Recorded, Values, AllApart, AskedOnce, Sound, Given;
    LocksMove(s, s', t, s'.callers[t].pc);
    SameMapsGrow(s.store, s'.store);
    CallersMove(s.store, s'.store, s.callers, t, s'.callers[t].pc);
  }

  lemma PutKeepsInv(s: Sys, t: nat, fault: bool)
    requires Inv(s) && t < |s.callers| && s.callers[t].pc.RegInTx?
    ensures Inv(Next(s, t, fault).value)
  {
    hide Mirrors, Grows, Extends, Commit, Record;
    var c, s' := s.callers[t], Next(s, t, fault).value;
    assert CallerOk(s.store, c);
    hide LockHeldBy, Recorded, Values, AllApart, AskedOnce, Inverse, Given;
    if fault || !Storable(c.pc.span) {
      MoveKeepsInv(s, s', t, Failed);
    } else {
      LocksMove(s, s', t, s'.callers[t].pc);
      SameMapsGrow(s.store, s'.store);
      CallersMove(s.store, s'.store, s.callers, t, s'.callers[t].pc);
    }
  }

  lemma RunsKeepsInv(s: Sys, t: nat, fault: bool)
    requires Inv(s) && t < |s.callers| && Next(s, t, fault).Some?
    ensures Inv(Next(s, t, fault).value)
  {
    hide Inv;
    match s.callers[t].pc {
      case InTx => CommitKeepsInv(s, t, fault);
      case Recording(_, _) => RecordKeepsInv(s, t);
      case Inserting(_, _) => InsertKeepsInv(s, t);
      case RegInTx(_, _) => PutKeepsInv(s, t, fault);
      case Looking(_) => LookupKeepsInv(s, t, fault);
      case _ => WaitingKeepsInv(s, t, fault);
    }
  }

  // ------------------------------------------------------------------ every run

  /** A new call of one of the two operations. A call does not ask for a value twice. */
  ghost predicate IsCall(c: Caller) {
    && |c.reqs| < UINT32 && AllApart(c.reqs) && AskedOnce(map[], c.reqs)
    && (c.pc == Looking([]) || (c.reqs == [] && c.pc.Checking? && c.pc.tokens == []))
  }

  ghost predicate ProperEvent(s: Sys, e: Event) {
    match e
    case Runs(_, _) => true
    case Calls(caller) => IsCall(caller)
    case Crashes(t2r) => Inverts(t2r, s.store.disk.r2t)
  }

  ghost predicate ProperRun(s: Sys, events: seq<Event>)
    decreases events
  {
    events != [] ==> ProperEvent(s, events[0]) && ProperRun(Step(s, events[0]), events[1..])
  }

  lemma CallKeepsInv(s: Sys, c: Caller)
    requires Inv(s) && IsCall(c)
    ensures Inv(Step(s, Calls(c)))
  {
    hide AllApart, AskedOnce, Sound;
    assert CallerOk(s.store, c);
  }

  /** A crash at any step leaves a disk from which a good store is loaded. */
  lemma CrashKeepsInv(s: Sys, t2r: Mapping)
    requires Inv(s) && Inverts(t2r, s.store.disk.r2t)
    ensures Inv(Step(s, Crashes(t2r))) && Good(Step(s, Crashes(t2r)).store)
  {
    var st := State(s.store.disk, s.store.disk.r2t, s.store.disk.t2r, s.store.disk.spans);
    LoadedIsSame(st, t2r);
  }

  lemma StepKeepsInv(s: Sys, e: Event)
    requires Inv(s) && ProperEvent(s, e)
    ensures Inv(Step(s, e))
  {
    hide Inv;
    match e {
      case Runs(t, fault) =>
        if t < |s.callers| && Next(s, t, fault).Some? {
          RunsKeepsInv(s, t, fault);
        }
      case Calls(caller) => CallKeepsInv(s, caller);
      case Crashes(t2r) => CrashKeepsInv(s, t2r);
    }
  }

  lemma {:induction false} ExecKeepsInv(s: Sys, events: seq<Event>)
    requires Inv(s) && ProperRun(s, events)
    ensures Inv(Exec(s, events))
    decreases events
  {
    if events != [] {
      hide Inv;
      StepKeepsInv(s, events[0]);
      ExecKeepsInv(Step(s, events[0]), events[1..]);
    }
  }

  /** In every interleaving, with crashes: a call that has returned without error has its span in
      the trie, no matter which caller minted the token, and its tokens in the map. */
  lemma {:induction false} ReturnedSpanIsInTrie(s: Sys, events: seq<Event>, t: nat)
    requires Inv(s) && ProperRun(s, events)
    requires t < |Exec(s, events).callers| && Exec(s, events).callers[t].pc.Done?
    ensures var now, c := Exec(s, events), Exec(s, events).callers[t];
            && (c.pc.span == [] || (c.pc.span in now.store.spans && c.pc.span in now.store.disk.spans))
            && Given(now.store.r2t, c.reqs, c.pc.tokens)
  {
    ExecKeepsInv(s, events);
    assert CallerOk(Exec(s, events).store, Exec(s, events).callers[t]);
  }

  /** Concurrent calls for the same value return the same token. */
  lemma {:induction false} SameValueSameToken(s: Sys, events: seq<Event>, t: nat, u: nat, i: nat, j: nat)
    requires Inv(s) && ProperRun(s, events) && t < |Exec(s, events).callers| && u < |Exec(s, events).callers|
    requires var a, b := Exec(s, events).callers[t], Exec(s, events).callers[u];
             && a.pc.Done? && b.pc.Done? && i < |a.reqs| && j < |b.reqs| && a.reqs[i].value == b.reqs[j].value
    ensures var a, b := Exec(s, events).callers[t], Exec(s, events).callers[u];
            i < |a.pc.tokens| && j < |b.pc.tokens| && a.pc.tokens[i] == b.pc.tokens[j]
  {
    hide Inv, Exec, ProperRun;
    ReturnedSpanIsInTrie(s, events, t);
    ReturnedSpanIsInTrie(s, events, u);
  }

  // ------------------------------------------------------------------ every token has its span

  ghost predicate HasCover(covered: set<(bytes, bytes)>, token: bytes) {
    exists p :: p in covered && p.0 == token
  }

  /** Every token on disk was minted together with some span that is on disk. */
  ghost predicate Covering(s: Sys) {
    forall token | token in s.store.disk.t2r :: HasCover(s.covered, token)
  }

  /** The database right after its creation, nobody calling yet. */
  function NewSys(): Sys { Opened(NEW_DISK, map[], {}) }

  lemma NewSysStartsRight()
    ensures Inv(NewSys()) && Covering(NewSys())
  {
    NewStoreIsGood(map[]);
  }

  lemma CommitKeepsCovering(s: Sys, t: nat, fault: bool)
    requires Inv(s) && Covering(s) && t < |s.callers| && s.callers[t].pc.InTx?
    ensures Covering(Commit(s, t, fault))
  {
    hide LockHeldBy, MintUpTo, MinterOf, Recorded, Values, AllApart, AskedOnce, Sound, Given, Extends;
    NotRecording(s, t);
    var c, st, s' := s.callers[t], s.store, Commit(s, t, fault);
    assert CallerOk(st, c);
    var m := MintUpTo(MinterOf(st.r2t, st.t2r), st.disk, c.reqs, |c.reqs|);
    if m.Some? && !fault && Storable(c.build(m.value.tokens)) {
      var tokens, span := m.value.tokens, c.build(m.value.tokens);
      CommitWrites(st, c.reqs, m.value, span);
      forall token | token in s'.store.disk.t2r
        ensures HasCover(s'.covered, token)
      {
        RecordedKeys(st.t2r, tokens, Values(c.reqs), |c.reqs|, token);
        if token in st.t2r {
          var p :| p in s.covered && p.0 == token;
          assert p in s'.covered;
        } else {
          var i :| 0 <= i < |c.reqs| && tokens[i] == token;
          assert (tokens[i], span) in Pairs(tokens, span);
        }
      }
    }
  }

  lemma StepKeepsCovering(s: Sys, e: Event)
    requires Inv(s) && Covering(s) && ProperEvent(s, e)
    ensures Covering(Step(s, e))
  {
    hide Inv;
    if e.Runs? && e.t < |s.callers| && s.callers[e.t].pc.InTx? {
      CommitKeepsCovering(s, e.t, e.fault);
    }
  }

  /** Wherever a run is cut off by a crash, every token on disk has a span that the reopened trie
      contains. */
  lemma {:induction false} EveryTokenIsCovered(s: Sys, events: seq<Event>, t2r: Mapping)
    requires Inv(s) && Covering(s) && ProperRun(s, events)
    requires Inverts(t2r, Exec(s, events).store.disk.r2t)
    ensures var reopened := Step(Exec(s, events), Crashes(t2r));
            && Good(reopened.store)
            && (forall token | token in reopened.store.t2r :: HasCover(reopened.covered, token))
            && (forall p | p in reopened.covered :: p.1 in reopened.store.spans)
    decreases events
  {
    if events == [] {
      CrashKeepsInv(s, t2r);
    } else {
      StepKeepsInv(s, events[0]);
      StepKeepsCovering(s, events[0]);
      EveryTokenIsCovered(Step(s, events[0]), events[1..], t2r);
    }
  }

  /** From the creation of the database on: in every interleaving, whenever the process crashes, every
      token that is on disk has its span there, and reopening gives a good store. */
  lemma EveryTokenEverIsCovered(events: seq<Event>, t2r: Mapping)
    requires ProperRun(NewSys(), events) && Inverts(t2r, Exec(NewSys(), events).store.disk.r2t)
    ensures var reopened := Step(Exec(NewSys(), events), Crashes(t2r));
            && Inv(Exec(NewSys(), events)) && Good(reopened.store)
            && (forall token | token in reopened.store.t2r :: HasCover(reopened.covered, token))
            && (forall p | p in reopened.covered :: p.1 in reopened.store.spans)
  {
    NewSysStartsRight();
    ExecKeepsInv(NewSys(), events);
    EveryTokenIsCovered(NewSys(), events, t2r);
  }

  // ------------------------------------------------------------------ nobody waits forever

  predicate Finished(c: Caller) { c.pc.Done? || c.pc.Failed? }

  /** While some call has not returned, some call can take a step: the callers never wait for each
      other in a circle. */
  lemma SomeoneCanRun(s: Sys, t: nat) returns (u: nat)
    requires Inv(s) && t < |s.callers| && !Finished(s.callers[t])
    ensures u < |s.callers| && !Finished(s.callers[u])
    ensures forall fault :: Next(s, u, fault).Some?
  {
    if s.trieLock.Some? {
      u := s.trieLock.value;
    } else if s.tx.Some? {
      u := s.tx.value;
    } else if s.mu.Some? {
      u := s.mu.value;
      assert s.callers[u].pc.WantTx? || s.callers[u].pc.Recording?;
    } else {
      u := t;
    }
    assert CallerOk(s.store, s.callers[u]);
    hide AllApart, AskedOnce, Sound, Extends, Given, MintUpTo, Recorded;
  }

  /** How many steps a call still has at most. */
  function Rank(c: Caller): nat {
    match c.pc
    case Looking(found) => 7 + if |found| <= |c.reqs| then |c.reqs| - |found| else 0
    case WantMu => 6
    case WantTx => 5
    case InTx => 4
    case Recording(_, _) => 3
    case Checking(_, _) => 5
    case RegWantTx(_, _) => 4
    case RegInTx(_, _) => 3
    case WantTrie(_, _) => 2
    case Inserting(_, _) => 1
    case _ => 0
  }

  function TotalRank(callers: seq<Caller>): nat {
    if callers == [] then 0 else Rank(callers[0]) + TotalRank(callers[1..])
  }

  lemma {:induction false} TotalRankDrops(callers: seq<Caller>, t: nat, c: Caller)
    requires t < |callers| && Rank(c) < Rank(callers[t])
    ensures TotalRank(callers[t := c]) < TotalRank(callers)
  {
    hide Rank;
    if t > 0 {
      assert callers[t := c][1..] == callers[1..][t - 1 := c];
      TotalRankDrops(callers[1..], t - 1, c);
    } else {
      assert callers[t := c][1..] == callers[1..];
    }
  }

  /** Only the caller that takes the step moves. */
  lemma OnlyCallerMoves(s: Sys, t: nat, fault: bool)
    requires t < |s.callers| && Next(s, t, fault).Some?
    ensures |Next(s, t, fault).value.callers| == |s.callers|
    ensures Next(s, t, fault).value.callers == s.callers[t := Next(s, t, fault).value.callers[t]]
  {
    hide MintUpTo, MinterOf, Recorded, Values, Pairs, Storable;
  }

  lemma NextDropsRank(s: Sys, t: nat, fault: bool)
    requires t < |s.callers| && CallerOk(s.store, s.callers[t]) && Next(s, t, fault).Some?
    ensures |Next(s, t, fault).value.callers| == |s.callers|
    ensures Rank(Next(s, t, fault).value.callers[t]) < Rank(s.callers[t])
  {
    hide MintUpTo, MinterOf, Recorded, Values, Pairs, Storable, AllApart, AskedOnce, Given;
  }

  lemma InvGivesCaller(s: Sys, t: nat)
    requires Inv(s) && t < |s.callers|
    ensures CallerOk(s.store, s.callers[t])
  {}

  predicate CanRun(s: Sys, e: Event) {
    e.Runs? && e.t < |s.callers| && Next(s, e.t, e.fault).Some?
  }

  function StepsTaken(s: Sys, events: seq<Event>): nat
    decreases events
  {
    if events == [] then 0 else (if CanRun(s, events[0]) then 1 else 0) + StepsTaken(Step(s, events[0]), events[1..])
  }

  /** Without new calls no schedule takes more than TotalRank steps. */
  lemma {:induction false} RunsAreBounded(s: Sys, events: seq<Event>)
    requires Inv(s) && forall i | 0 <= i < |events| :: events[i].Runs?
    ensures StepsTaken(s, events) + TotalRank(Exec(s, events).callers) <= TotalRank(s.callers)
    decreases events
  {
    if events != [] {
      hide Inv, Next, Rank;
      var e := events[0];
      if CanRun(s, e) {
        RunsKeepsInv(s, e.t, e.fault);
        InvGivesCaller(s, e.t);
        NextDropsRank(s, e.t, e.fault);
        OnlyCallerMoves(s, e.t, e.fault);
        TotalRankDrops(s.callers, e.t, Next(s, e.t, e.fault).value.callers[e.t]);
      }
      RunsAreBounded(Step(s, e), events[1..]);
    }
  }

  /** From every reachable state there is a schedule that lets every call return. */
  lemma {:induction false} AllCanReturn(s: Sys) returns (events: seq<Event>)
    requires Inv(s)
    ensures ProperRun(s, events) && |events| <= TotalRank(s.callers)
    ensures forall c | c in Exec(s, events).callers :: Finished(c)
    decreases TotalRank(s.callers)
  {
    hide Inv;
    if t: nat :| t < |s.callers| && !Finished(s.callers[t]) {
      var u := SomeoneCanRun(s, t);
      RunsKeepsInv(s, u, false);
      InvGivesCaller(s, u);
      NextDropsRank(s, u, false);
      OnlyCallerMoves(s, u, false);
      var s' := Next(s, u, false).value;
      TotalRankDrops(s.callers, u, s'.callers[u]);
      var rest := AllCanReturn(s');
      events := [Runs(u, false)] + rest;
      assert events[1..] == rest && Step(s, events[0]) == s';
    } else {
      events := [];
    }
  }
}

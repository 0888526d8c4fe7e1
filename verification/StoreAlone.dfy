/**
 The steps of the store protocol and the operations they make up: a call that runs while nobody
 else does has the effect of the operation as one piece, and a call fails only for a reason
 (internal/tokenstore/spans.go).
 */
module StoreAlone {
  import opened Bytes
  import opened Scanning
  import opened Minting
  import opened StoreStates
  import opened StoreGrants
  import opened StoreProtocol

  /** Caller t takes n steps, and nobody else takes any. */
  function Alone(t: nat, fault: bool, n: nat): seq<Event> {
    if n == 0 then [] else [Runs(t, fault)] + Alone(t, fault, n - 1)
  }

  lemma {:induction false} AloneOn(s: Sys, t: nat, fault: bool, n: nat)
    requires t < |s.callers| && StoreProtocol.Next(s, t, fault).Some?
    ensures Exec(s, Alone(t, fault, n + 1)) == Exec(StoreProtocol.Next(s, t, fault).value, Alone(t, fault, n))
  {
    hide StoreProtocol.Next;
    assert Alone(t, fault, n + 1)[1..] == Alone(t, fault, n);
  }

  ghost predicate Unlocked(s: Sys) { s.mu.None? && s.tx.None? && s.trieLock.None? }

  /** Caller t makes its call with these requests, and stands here. */
  ghost predicate StandsAt(s: Sys, t: nat, reqs: seq<Request>, build: seq<bytes> -> bytes, pc: Pc) {
    t < |s.callers| && s.callers[t] == Caller(reqs, build, pc)
  }

  /** The call has returned with these tokens, or has failed. */
  ghost predicate Returned(s: Sys, t: nat, tokens: Option<seq<bytes>>) {
    && t < |s.callers|
    && match tokens
       case None => s.callers[t].pc.Failed?
       case Some(given) => s.callers[t].pc.Done? && s.callers[t].pc.tokens == given
  }

  /** A call that has its tokens registers its span. */
  lemma {:induction false} RegistersAlone(s: Sys, t: nat, reqs: seq<Request>, build: seq<bytes> -> bytes, tokens: seq<bytes>, span: bytes, fault: bool)
    returns (n: nat)
    requires Unlocked(s) && StandsAt(s, t, reqs, build, Checking(tokens, span))
    ensures var e, r := Exec(s, Alone(t, fault, n)), Register(s.store, span, fault);
            e.store == r.state && Unlocked(e) && Returned(e, t, if r.ok then Some(tokens) else None)
  {
    var s1 := StoreProtocol.Next(s, t, fault).value;
    if span == [] || span in s.store.spans {
      n := 1;
      AloneOn(s, t, fault, 0);
    } else {
      var s2 := StoreProtocol.Next(s1, t, fault).value;
      var s3 := StoreProtocol.Next(s2, t, fault).value;
      if fault || !Storable(span) {
        n := 3;
      } else {
        n := InsertsAlone(s3, t, reqs, build, tokens, span, fault);
        n := n + 3;
      }
      AloneOn(s, t, fault, n - 1);
      AloneOn(s1, t, fault, n - 2);
      AloneOn(s2, t, fault, n - 3);
    }
  }

  lemma {:induction false} InsertsAlone(s: Sys, t: nat, reqs: seq<Request>, build: seq<bytes> -> bytes, tokens: seq<bytes>, span: bytes, fault: bool)
    returns (n: nat)
    requires Unlocked(s) && StandsAt(s, t, reqs, build, WantTrie(tokens, span))
    ensures var e := Exec(s, Alone(t, fault, n));
            && e.store == s.store.(spans := s.store.spans + {span}) && Unlocked(e) && Returned(e, t, Some(tokens))
  {
    var s1 := StoreProtocol.Next(s, t, fault).value;
    n := 2;
    AloneOn(s, t, fault, 1);
    AloneOn(s1, t, fault, 0);
  }

  /** From the lock on: one transaction for all values, then the maps, then the span. */
  lemma {:induction false} MintsAlone(s: Sys, t: nat, reqs: seq<Request>, build: seq<bytes> -> bytes, fault: bool) returns (n: nat)
    requires Unlocked(s) && StandsAt(s, t, reqs, build, WantMu) && !AllKnown(s.store.r2t, reqs, |reqs|)
    ensures var e, r := Exec(s, Alone(t, fault, n)), Mint(s.store, reqs, build, fault);
            e.store == r.state && Unlocked(e) && Returned(e, t, r.tokens)
  {
    var s1 := StoreProtocol.Next(s, t, fault).value;
    var s2 := StoreProtocol.Next(s1, t, fault).value;
    var s3 := StoreProtocol.Next(s2, t, fault).value;
    hide MintUpTo, MinterOf, Recorded, Values, Pairs, Storable;
    var m := MintUpTo(MinterOf(s.store.r2t, s.store.t2r), s.store.disk, reqs, |reqs|);
    if m.None? || fault || !Storable(build(m.value.tokens)) {
      n := 3;
    } else {
      n := RecordsAlone(s3, t, reqs, build, m.value.tokens, build(m.value.tokens), fault);
      n := n + 3;
    }
    AloneOn(s, t, fault, n - 1);
    AloneOn(s1, t, fault, n - 2);
    AloneOn(s2, t, fault, n - 3);
  }

  lemma {:induction false} RecordsAlone(s: Sys, t: nat, reqs: seq<Request>, build: seq<bytes> -> bytes, tokens: seq<bytes>, span: bytes, fault: bool)
    returns (n: nat)
    requires s.tx.None? && s.trieLock.None? && StandsAt(s, t, reqs, build, Recording(tokens, span)) && |tokens| == |reqs|
    ensures var e := Exec(s, Alone(t, fault, n));
            && e.store == s.store.(r2t := Recorded(s.store.r2t, Values(reqs), tokens, |reqs|),
                                   t2r := Recorded(s.store.t2r, tokens, Values(reqs), |reqs|),
                                   spans := s.store.spans + {span})
            && Unlocked(e) && Returned(e, t, Some(tokens))
  {
    hide Recorded, Values;
    var s1 := StoreProtocol.Next(s, t, fault).value;
    n := InsertsAlone(s1, t, reqs, build, tokens, span, fault);
    AloneOn(s, t, fault, n);
    n := n + 1;
  }

  /** From the look-up of request |found| on. */
  lemma {:induction false} LooksAlone(s: Sys, t: nat, reqs: seq<Request>, build: seq<bytes> -> bytes, found: seq<bytes>, fault: bool)
    returns (n: nat)
    requires Unlocked(s) && StandsAt(s, t, reqs, build, Looking(found))
    requires |found| <= |reqs| && AllKnown(s.store.r2t, reqs, |found|) && found == KnownTokens(s.store.r2t, reqs, |found|)
    ensures var e, r := Exec(s, Alone(t, fault, n)), Mint(s.store, reqs, build, fault);
            e.store == r.state && Unlocked(e) && Returned(e, t, r.tokens)
    decreases |reqs| - |found|
  {
    var s1 := StoreProtocol.Next(s, t, fault).value;
    hide MintUpTo, MinterOf, Recorded, Values, Storable, Exec;
    if |found| == |reqs| {
      n := RegistersAlone(s1, t, reqs, build, found, build(found), fault);
    } else if reqs[|found|].value in s.store.r2t {
      n := LooksAlone(s1, t, reqs, build, found + [s.store.r2t[reqs[|found|].value]], fault);
    } else {
      n := MintsAlone(s1, t, reqs, build, fault);
    }
    AloneOn(s, t, fault, n);
    n := n + 1;
  }

  /** A call of MintAndRegisterSpan that runs while no other holds a lock: its steps have the effect and
      the result of the operation. */
  lemma {:induction false} AloneIsMint(s: Sys, t: nat, reqs: seq<Request>, build: seq<bytes> -> bytes, fault: bool) returns (n: nat)
    requires Unlocked(s) && StandsAt(s, t, reqs, build, Looking([]))
    ensures var e, r := Exec(s, Alone(t, fault, n)), Mint(s.store, reqs, build, fault);
            e.store == r.state && Unlocked(e) && Returned(e, t, r.tokens)
  {
    n := LooksAlone(s, t, reqs, build, [], fault);
  }

  // ------------------------------------------------------------------ why a call fails

  /** In every interleaving a call fails only if the database does, or cannot store the span, or if there
      are no tokens that could be given at that moment. */
  lemma {:induction false} FailsOnlyIf(s: Sys, t: nat, fault: bool)
    requires t < |s.callers| && StoreProtocol.Next(s, t, fault).Some? && s.store.disk.ip <= 256 && s.store.disk.ip6 < UINT32
    requires !s.callers[t].pc.Failed? && StoreProtocol.Next(s, t, fault).value.callers[t].pc.Failed?
    ensures var c := s.callers[t];
            || fault
            || (c.pc.RegInTx? && !Storable(c.pc.span))
            || (c.pc.InTx? && forall tokens | |tokens| == |c.reqs| && AllGiven(s.store, c.reqs, tokens, |c.reqs|) :: !Storable(c.build(tokens)))
  {
    hide MintUpTo, MinterOf, Recorded, Values, Pairs, Storable, AllGiven;
    var c := s.callers[t];
    if c.pc.InTx? {
      forall tokens | |tokens| == |c.reqs| && AllGiven(s.store, c.reqs, tokens, |c.reqs|)
        ensures fault || !Storable(c.build(tokens))
      {
        MintedIffGiven(s.store, c.reqs, |c.reqs|, tokens);
      }
    }
  }
}

/**
 The token store (internal/tokenstore/store.go and spans.go): two maps and the span trie in memory,
 kept in step with the committed buckets. Every method is tied to the operation of StoreStates
 that says what it does to the whole state.
 */
module TokenStores {
  import opened Bytes
  import opened Scanning
  import opened SpanTries
  import opened Minting
  import opened StoreStates
  import opened StoreRuns

  class Store {
    var db: Disk
    var real2token: Mapping
    var token2real: Mapping
    const spanTrie: SpanTrie

    ghost predicate Valid()
      reads this, spanTrie, spanTrie.nodes.Values
    {
      spanTrie.Valid()
    }

    ghost function Model(): State
      reads this, spanTrie
    {
      State(db, real2token, token2real, spanTrie.spans)
    }

    /** Open and loadAll. */
    constructor Open(disk: Disk)
      ensures Valid() && fresh(spanTrie) && fresh(spanTrie.nodes.Values)
      ensures Inverts(token2real, disk.r2t) && Model() == Loaded(disk, token2real)
    {
      db := disk;
      real2token, token2real := map[], map[];
      spanTrie := new SpanTrie();
      new;
      hide SpanTrie.Valid;
      LoadMaps();
      LoadSpans(disk.spans);
    }

    /** Both maps are filled from one bucket, whose entries come in any order. */
    method LoadMaps()
      requires real2token == map[] && token2real == map[]
      modifies this`real2token, this`token2real
      ensures real2token == db.r2t && Inverts(token2real, db.r2t)
    {
      var rest := db.r2t.Keys;
      while rest != {}
        invariant rest <= db.r2t.Keys && real2token.Keys == db.r2t.Keys - rest
        invariant forall r | r in real2token :: real2token[r] == db.r2t[r] && real2token[r] in token2real
        invariant forall t | t in token2real :: token2real[t] in db.r2t && db.r2t[token2real[t]] == t
        decreases rest
      {
        var r :| r in rest;
        real2token, token2real := real2token[r := db.r2t[r]], token2real[db.r2t[r] := r];
        rest := rest - {r};
      }
    }

    method LoadSpans(spans: set<bytes>)
      requires Valid() && spanTrie.spans == {}
      modifies spanTrie, spanTrie.nodes.Values
      ensures Valid() && fresh(spanTrie.nodes.Values - old(spanTrie.nodes.Values))
      ensures spanTrie.spans == spans - {[]}
    {
      hide SpanTrie.Valid;
      var rest := spans;
      while rest != {}
        invariant rest <= spans && spanTrie.Valid() && spanTrie.spans == spans - rest - {[]}
        invariant fresh(spanTrie.nodes.Values - old(spanTrie.nodes.Values))
        decreases rest
      {
        var span :| span in rest;
        var _ := spanTrie.Insert(span);
        rest := rest - {span};
      }
    }

    method LookupToken(value: bytes) returns (token: Option<bytes>)
      ensures token == if value in real2token then Some(real2token[value]) else None
    {
      return if value in real2token then Some(real2token[value]) else None;
    }

    /** The tokens of all values, if all are known. */
    method LookupAll(reqs: seq<Request>) returns (tokens: Option<seq<bytes>>)
      ensures tokens == if AllKnown(real2token, reqs, |reqs|) then Some(KnownTokens(real2token, reqs, |reqs|)) else None
    {
      var found := [];
      for i := 0 to |reqs|
        invariant AllKnown(real2token, reqs, i) && found == KnownTokens(real2token, reqs, i)
      {
        var token := LookupToken(reqs[i].value);
        if token.None? {
          return None;
        }
        found := found + [token.value];
      }
      return Some(found);
    }

    method RegisterSpan(span: bytes, fault: bool) returns (ok: bool)
      requires Valid()
      modifies this`db, spanTrie, spanTrie.nodes.Values
      ensures Valid() && fresh(spanTrie.nodes.Values - old(spanTrie.nodes.Values))
      ensures Model() == Register(old(Model()), span, fault).state
      ensures ok == Register(old(Model()), span, fault).ok
    {
      hide SpanTrie.Valid;
      if span == [] {
        return true;
      }
      var known := spanTrie.Contains(span);
      if known {
        return true;
      }
      if fault || !Storable(span) {
        return false;
      }
      ghost var before := Model();
      db := db.(spans := db.spans + {span});
      var _ := spanTrie.Insert(span);
      assert Model() == State(before.disk.(spans := before.disk.spans + {span}), before.r2t, before.t2r, before.spans + {span});
      return true;
    }

    /** The write transaction of MintAndRegisterSpan: nothing is kept unless it commits. */
    method Update(reqs: seq<Request>, build: seq<bytes> -> bytes, fault: bool) returns (tokens: Option<seq<bytes>>)
      modifies this`db
      ensures var m := MintUpTo(MinterOf(real2token, token2real), old(db), reqs, |reqs|);
              match tokens
              case None => db == old(db) && (m.None? || fault || !Storable(build(m.value.tokens)))
              case Some(t) =>
                && m.Some? && t == m.value.tokens && !fault && Storable(build(t))
                && db == m.value.disk.(spans := m.value.disk.spans + {build(t)})
    {
      var tx := new Tx(db);
      var minted: seq<bytes> := [];
      for i := 0 to |reqs|
        invariant MintUpTo(MinterOf(real2token, token2real), db, reqs, i) == Some(MintedAll(minted, tx.disk))
        invariant db == old(db) && fresh(tx)
      {
        if reqs[i].value in real2token {
          minted := minted + [real2token[reqs[i].value]];
        } else {
          var token := tx.MintNew(token2real, reqs[i]);
          if token.None? {
            NoneLater(MinterOf(real2token, token2real), db, reqs, i + 1, |reqs|);
            return None;
          }
          minted := minted + [token.value];
        }
      }
      if fault || !Storable(build(minted)) {
        return None;
      }
      db := tx.disk.(spans := tx.disk.spans + {build(minted)});
      return Some(minted);
    }

    method MintAndRegisterSpan(reqs: seq<Request>, build: seq<bytes> -> bytes, fault: bool) returns (tokens: Option<seq<bytes>>)
      requires Valid()
      modifies this, spanTrie, spanTrie.nodes.Values
      ensures Valid() && fresh(spanTrie.nodes.Values - old(spanTrie.nodes.Values))
      ensures Outcome(Model(), tokens) == Mint(old(Model()), reqs, build, fault)
    {
      hide MintUpTo, MinterOf, Recorded, KnownTokens, AllKnown, Storable, Values, SpanTrie.Valid;
      var known := LookupAll(reqs);
      if known.Some? {
        var ok := RegisterSpan(build(known.value), fault);
        return if ok then known else None;
      }
      tokens := Update(reqs, build, fault);
      if tokens.None? {
        return;
      }
      Record(reqs, tokens.value);
      var _ := spanTrie.Insert(build(tokens.value));
    }

    /** The maps in memory follow the committed transaction. */
    method Record(reqs: seq<Request>, tokens: seq<bytes>)
      requires |tokens| == |reqs|
      modifies this`real2token, this`token2real
      ensures real2token == Recorded(old(real2token), Values(reqs), tokens, |reqs|)
      ensures token2real == Recorded(old(token2real), tokens, Values(reqs), |reqs|)
    {
      hide Values;
      for i := 0 to |reqs|
        invariant real2token == Recorded(old(real2token), Values(reqs), tokens, i)
        invariant token2real == Recorded(old(token2real), tokens, Values(reqs), i)
      {
        real2token := real2token[reqs[i].value := tokens[i]];
        token2real := token2real[tokens[i] := reqs[i].value];
      }
    }

    method GetOrCreateToken(req: Request, fault: bool) returns (token: Option<bytes>)
      modifies this
      ensures Created(Model(), token) == Create(old(Model()), req, fault)
    {
      if req.value in real2token {
        return Some(real2token[req.value]);
      }
      var tx := new Tx(db);
      token := tx.MintNew(token2real, req);
      if token.None? || fault {
        return None;
      }
      db := tx.disk;
      real2token := real2token[req.value := token.value];
      token2real := token2real[token.value := req.value];
    }

    method Delete(value: bytes, fault: bool) returns (found: Option<bool>)
      modifies this
      ensures Removed(Model(), found) == Remove(old(Model()), value, fault)
    {
      if value !in real2token {
        return Some(false);
      }
      var token := real2token[value];
      if fault {
        return None;
      }
      db := db.(r2t := db.r2t - {value}, t2r := db.t2r - {token}, meta := db.meta - {value});
      real2token, token2real := real2token - {value}, token2real - {token};
      return Some(true);
    }
  }

  lemma {:induction false} NoneLater(mint: Minter, d: Disk, reqs: seq<Request>, n: nat, m: nat)
    requires n <= m <= |reqs| && MintUpTo(mint, d, reqs, n).None?
    ensures MintUpTo(mint, d, reqs, m).None?
  {
    if n < m {
      NoneLater(mint, d, reqs, n, m - 1);
    }
  }
}

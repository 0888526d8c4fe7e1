/**
 What the bounded cache keeps over any run of its operations (internal/redact/tokenize_cache.go).
 */
module CacheLaws {
  import opened Bytes
  import opened Scanning
  import opened TokenizeCaches

  datatype Op = Get(key: bytes, gen: nat) | Put(key: bytes, value: bytes, gen: nat) | Clear

  function Step(l: seq<Record>, op: Op): seq<Record> {
    match op
    case Get(key, gen) => AfterGet(l, key, gen).0
    case Put(key, value, gen) => AfterPut(l, key, value, gen)
    case Clear => []
  }

  /** The list after the first n operations. */
  function After(ops: seq<Op>, n: nat): seq<Record>
    requires n <= |ops|
  {
    if n == 0 then [] else Step(After(ops, n - 1), ops[n - 1])
  }

  /** A hit or a store of the key. */
  predicate Uses(l: seq<Record>, op: Op, key: bytes) {
    match op
    case Get(k, gen) => k == key && AfterGet(l, k, gen).1.Some?
    case Put(k, _, _) => k == key
    case Clear => false
  }

  /** The last of the first n operations that used the key. */
  function LastUse(ops: seq<Op>, n: nat, key: bytes): int
    requires n <= |ops|
    ensures LastUse(ops, n, key) < n
  {
    if n == 0 then -1
    else if Uses(After(ops, n - 1), ops[n - 1], key) then n - 1
    else LastUse(ops, n - 1, key)
  }

  /** The keys stand in the order of their last use, most recent first. */
  ghost predicate ByRecency(ops: seq<Op>, n: nat, l: seq<Record>)
    requires n <= |ops|
  {
    forall i, j | 0 <= i < j < |l| :: LastUse(ops, n, l[i].key) > LastUse(ops, n, l[j].key)
  }

  lemma {:induction false} ToFrontByRecency(ops: seq<Op>, n: nat, l: seq<Record>, i: nat, r: Record)
    requires n < |ops| && i < |l| && l == After(ops, n) && r.key == l[i].key
    requires ByRecency(ops, n, l) && Distinct(l)
    requires forall key :: Uses(l, ops[n], key) <==> key == r.key
    ensures ByRecency(ops, n + 1, ToFront(l[i := r], i)) && Distinct(ToFront(l[i := r], i))
  {
    var l' := l[i := r];
    forall a | 0 <= a < |l|
      ensures ToFront(l', i)[a] == l'[Source(i, a)] && |ToFront(l', i)| == |l|
    {
      ToFrontAt(l', i, a);
    }
    hide ToFront, After;
  }

  lemma PushedByRecency(ops: seq<Op>, n: nat, l: seq<Record>, r: Record, kept: nat)
    requires n < |ops| && l == After(ops, n) && ByRecency(ops, n, l) && Distinct(l)
    requires Find(l, r.key) == -1 && kept <= |l| + 1
    requires forall key :: Uses(l, ops[n], key) <==> key == r.key
    ensures ByRecency(ops, n + 1, ([r] + l)[..kept]) && Distinct(([r] + l)[..kept])
  {
    hide After;
  }

  lemma MissByRecency(ops: seq<Op>, n: nat, l: seq<Record>)
    requires n < |ops| && l == After(ops, n) && ByRecency(ops, n, l)
    requires forall key :: !Uses(l, ops[n], key)
    ensures ByRecency(ops, n + 1, l)
  {
    hide After, Uses;
  }

  lemma {:induction false} GetByRecency(ops: seq<Op>, n: nat, l: seq<Record>)
    requires n < |ops| && l == After(ops, n) && ops[n].Get? && ByRecency(ops, n, l) && Distinct(l)
    ensures ByRecency(ops, n + 1, Step(l, ops[n])) && Distinct(Step(l, ops[n])) && |Step(l, ops[n])| == |l|
  {
    hide After, ByRecency, Distinct, ToFront;
    var key, gen := ops[n].key, ops[n].gen;
    var i := Find(l, key);
    if i >= 0 && l[i].gen == gen {
      ToFrontByRecency(ops, n, l, i, l[i]);
      assert l[i := l[i]] == l;
      ToFrontAt(l, i, i);
    } else {
      MissByRecency(ops, n, l);
    }
  }

  lemma {:induction false} PutByRecency(ops: seq<Op>, n: nat, l: seq<Record>)
    requires n < |ops| && l == After(ops, n) && ops[n].Put? && ByRecency(ops, n, l) && Distinct(l) && |l| <= CAPACITY
    ensures ByRecency(ops, n + 1, Step(l, ops[n])) && Distinct(Step(l, ops[n])) && |Step(l, ops[n])| <= CAPACITY
  {
    hide After, ByRecency, Distinct, ToFront;
    var r := Record(ops[n].key, ops[n].value, ops[n].gen);
    var i := Find(l, r.key);
    if i >= 0 {
      ToFrontByRecency(ops, n, l, i, r);
      ToFrontAt(l[i := r], i, i);
    } else {
      assert ([r] + l)[..|l| + 1] == [r] + l;
      PushedByRecency(ops, n, l, r, if |l| + 1 > CAPACITY then |l| else |l| + 1);
    }
  }

  /** In every run: no key twice, never more than the capacity, and always in order of last use. */
  lemma {:induction false} StaysByRecency(ops: seq<Op>, n: nat)
    requires n <= |ops|
    ensures |After(ops, n)| <= CAPACITY && Distinct(After(ops, n)) && ByRecency(ops, n, After(ops, n))
  {
    if n > 0 {
      hide ByRecency, Distinct, Step;
      StaysByRecency(ops, n - 1);
      match ops[n - 1] {
        case Get(_, _) => GetByRecency(ops, n - 1, After(ops, n - 1));
        case Put(_, _, _) => PutByRecency(ops, n - 1, After(ops, n - 1));
        case Clear => NothingByRecency(ops, n);
      }
    } else {
      NothingByRecency(ops, 0);
    }
  }

  lemma NothingByRecency(ops: seq<Op>, n: nat)
    requires n <= |ops|
    ensures Distinct([]) && ByRecency(ops, n, []) && Step([], Clear) == [] && forall l :: Step(l, Clear) == []
  {}

  /** A full cache makes room for a new key by giving up the one used least recently, and only it. */
  lemma EvictsLeastRecent(ops: seq<Op>, n: nat, key: bytes, value: bytes, gen: nat)
    requires n < |ops| && ops[n] == Put(key, value, gen)
    requires Find(After(ops, n), key) == -1 && |After(ops, n)| == CAPACITY
    ensures var l, l' := After(ops, n), After(ops, n + 1);
            var victim := l[CAPACITY - 1];
            && l' == [Record(key, value, gen)] + l[..CAPACITY - 1]
            && (forall i | 0 <= i < CAPACITY - 1 :: LastUse(ops, n, victim.key) < LastUse(ops, n, l[i].key))
            && Find(l', victim.key) == -1
  {
    StaysByRecency(ops, n);
    var l, l' := After(ops, n), After(ops, n + 1);
    var victim := l[CAPACITY - 1];
    var r := Record(key, value, gen);
    assert l' == ([r] + l)[..CAPACITY] == [r] + l[..CAPACITY - 1];
    forall k | 0 <= k < |l'|
      ensures l'[k].key != victim.key
    {
      assert k > 0 ==> l'[k] == l[k - 1];
    }
  }

  // ------------------------------------------------------------------ what a hit returns

  /** Operation p stored this record, and nothing since has stored the key again or cleared. */
  ghost predicate StoredAt(ops: seq<Op>, n: nat, r: Record, p: nat)
    requires n <= |ops|
  {
    && p < n && ops[p] == Put(r.key, r.value, r.gen)
    && forall q | p < q < n :: !ops[q].Clear? && !(ops[q].Put? && ops[q].key == r.key)
  }

  ghost predicate Stored(ops: seq<Op>, n: nat, r: Record)
    requires n <= |ops|
  {
    exists p :: StoredAt(ops, n, r, p)
  }

  lemma StaysStored(ops: seq<Op>, n: nat, r: Record)
    requires n < |ops| && Stored(ops, n, r) && !ops[n].Clear? && !(ops[n].Put? && ops[n].key == r.key)
    ensures Stored(ops, n + 1, r)
  {
    var p :| StoredAt(ops, n, r, p);
    assert StoredAt(ops, n + 1, r, p);
  }

  ghost predicate EachStored(ops: seq<Op>, n: nat, l: seq<Record>)
    requires n <= |ops|
  {
    forall i | 0 <= i < |l| :: Stored(ops, n, l[i])
  }

  lemma NothingStored(ops: seq<Op>)
    ensures EachStored(ops, 0, [])
  {}

  lemma {:induction false} AllStored(ops: seq<Op>, n: nat)
    requires n <= |ops|
    ensures EachStored(ops, n, After(ops, n))
  {
    hide ByRecency, Step, EachStored;
    if n == 0 {
      NothingStored(ops);
    } else {
      AllStored(ops, n - 1);
      StaysByRecency(ops, n - 1);
      EachStoredNext(ops, n - 1, After(ops, n - 1));
    }
  }

  lemma EachStoredNext(ops: seq<Op>, n: nat, l: seq<Record>)
    requires n < |ops| && Distinct(l) && EachStored(ops, n, l)
    ensures EachStored(ops, n + 1, Step(l, ops[n]))
  {
    hide Step, Stored, Distinct;
    forall k | 0 <= k < |Step(l, ops[n])|
      ensures Stored(ops, n + 1, Step(l, ops[n])[k])
    {
      StoredNext(ops, n, l, k);
    }
  }

  lemma StoredNext(ops: seq<Op>, n: nat, l: seq<Record>, k: nat)
    requires n < |ops| && Distinct(l) && k < |Step(l, ops[n])|
    requires forall i | 0 <= i < |l| :: Stored(ops, n, l[i])
    ensures Stored(ops, n + 1, Step(l, ops[n])[k])
  {
    hide Step, Distinct;
    var op, r := ops[n], Step(l, ops[n])[k];
    ComesFrom(l, op, k);
    if op.Put? && r == Record(op.key, op.value, op.gen) {
      assert StoredAt(ops, n + 1, r, n);
    } else {
      assert StillThere(l, op, r);
      var i :| 0 <= i < |l| && l[i] == r;
      StaysStored(ops, n, r);
    }
  }

  /** An old record whose key the operation does not overwrite. */
  ghost predicate StillThere(l: seq<Record>, op: Op, r: Record) {
    !op.Clear? && !(op.Put? && op.key == r.key) && exists i :: 0 <= i < |l| && l[i] == r
  }

  /** Every record was there before or is the one just stored. */
  lemma ComesFrom(l: seq<Record>, op: Op, k: nat)
    requires Distinct(l) && k < |Step(l, op)|
    ensures || (op.Put? && Step(l, op)[k] == Record(op.key, op.value, op.gen))
            || StillThere(l, op, Step(l, op)[k])
  {
    match op {
      case Get(key, gen) => GetComesFrom(l, key, gen, k);
      case Put(key, value, gen) => PutComesFrom(l, Record(key, value, gen), k);
      case Clear =>
    }
  }

  lemma GetComesFrom(l: seq<Record>, key: bytes, gen: nat, k: nat)
    requires k < |AfterGet(l, key, gen).0|
    ensures StillThere(l, Get(key, gen), AfterGet(l, key, gen).0[k])
  {
    var i := Find(l, key);
    if i >= 0 && l[i].gen == gen {
      hide ToFront;
      ToFrontAt(l, i, 0);
      ToFrontAt(l, i, k);
    }
  }

  lemma PutComesFrom(l: seq<Record>, r: Record, k: nat)
    requires Distinct(l) && k < |AfterPut(l, r.key, r.value, r.gen)|
    ensures var l' := AfterPut(l, r.key, r.value, r.gen);
            l'[k] == r || StillThere(l, Put(r.key, r.value, r.gen), l'[k])
  {
    var i := Find(l, r.key);
    if i >= 0 {
      hide ToFront;
      ToFrontAt(l[i := r], i, 0);
      ToFrontAt(l[i := r], i, k);
      if k > 0 {
        assert Source(i, k) != i && l[Source(i, k)].key != r.key;
      }
    } else if k > 0 {
      assert AfterPut(l, r.key, r.value, r.gen)[k] == l[k - 1];
    }
  }

  /** A lookup hits only with the value stored last for the text, and only if that was stored
      under the same generation. */
  lemma {:induction false} HitIsLastStored(ops: seq<Op>, n: nat, key: bytes, gen: nat)
    requires n <= |ops| && AfterGet(After(ops, n), key, gen).1.Some?
    ensures Stored(ops, n, Record(key, AfterGet(After(ops, n), key, gen).1.value, gen))
  {
    AllStored(ops, n);
  }

  // ------------------------------------------------------------------ what stays

  /** The other key that an operation uses, if it uses one. */
  function UsedBy(l: seq<Record>, op: Op, key: bytes): set<bytes> {
    if !op.Clear? && op.key != key && Uses(l, op, op.key) then {op.key} else {}
  }

  /** The keys, other than this one, that operations from .. n - 1 have used. */
  function OthersUsed(ops: seq<Op>, from: nat, n: nat, key: bytes): set<bytes>
    requires from <= n <= |ops|
  {
    if n == from then {}
    else
      OthersUsed(ops, from, n - 1, key)
      + UsedBy(After(ops, n - 1), ops[n - 1], key)
  }

  /** The key is there, and only keys used since then stand in front of it. */
  ghost predicate Behind(l: seq<Record>, key: bytes, used: set<bytes>, i: nat) {
    i < |l| && l[i].key == key && forall j | 0 <= j < i :: l[j].key in used
  }

  ghost predicate StillIn(l: seq<Record>, key: bytes, used: set<bytes>) {
    exists i: nat :: Behind(l, key, used, i)
  }

  /** Different keys in a set that is at least as large. */
  lemma {:induction false} AtLeast(l: seq<Record>, used: set<bytes>)
    requires Distinct(l) && forall i | 0 <= i < |l| :: l[i].key in used
    ensures |l| <= |used|
  {
    if l != [] {
      var n := |l| - 1;
      assert l[n].key in used;
      AtLeast(l[..n], used - {l[n].key});
    }
  }

  lemma StoredIsFirst(l: seq<Record>, key: bytes, value: bytes, gen: nat)
    ensures AfterPut(l, key, value, gen) != [] && AfterPut(l, key, value, gen)[0] == Record(key, value, gen)
  {
    var i, r := Find(l, key), Record(key, value, gen);
    if i >= 0 {
      ToFrontAt(l[i := r], i, 0);
    }
    hide ToFront;
  }

  /** An entry that is used again or stored goes to the front. */
  lemma MovedStays(l: seq<Record>, key: bytes, used: set<bytes>, k: nat, r: Record)
    requires StillIn(l, key, used) && Distinct(l) && k < |l| && r.key == l[k].key
    ensures StillIn(ToFront(l[k := r], k), key, used + if r.key == key then {} else {r.key})
  {
    var i: nat :| Behind(l, key, used, i);
    var l', used' := ToFront(l[k := r], k), used + if r.key == key then {} else {r.key};
    forall j | 0 <= j < |l|
      ensures |l'| == |l| && l'[j] == l[k := r][Source(k, j)]
    {
      ToFrontAt(l[k := r], k, j);
    }
    hide ToFront;
    var i' := if r.key == key then 0 else if i < k then i + 1 else i;
    assert r.key == key ==> i == k;
    assert Behind(l', key, used', i');
  }

  lemma PushedStays(l: seq<Record>, key: bytes, used: set<bytes>, r: Record)
    requires StillIn(l, key, used) && Distinct(l) && Find(l, r.key) == -1 && |l| <= CAPACITY
    requires |used + {r.key}| < CAPACITY
    ensures StillIn(if |l| + 1 > CAPACITY then ([r] + l)[..|l|] else [r] + l, key, used + {r.key})
  {
    var i: nat :| Behind(l, key, used, i);
    var l' := if |l| + 1 > CAPACITY then ([r] + l)[..|l|] else [r] + l;
    FrontIsUsed(l, key, used, r, i);
    BehindPushed(l, key, used, r, i, |l'|);
    assert ([r] + l)[..|l'|] == l';
  }

  /** The entries in front are as many as the keys used. */
  lemma FrontIsUsed(l: seq<Record>, key: bytes, used: set<bytes>, r: Record, i: nat)
    requires Behind(l, key, used, i) && Distinct(l) && Find(l, r.key) == -1
    ensures i + 1 <= |used + {r.key}|
  {
    AtLeast([r] + l[..i], used + {r.key});
  }

  lemma BehindPushed(l: seq<Record>, key: bytes, used: set<bytes>, r: Record, i: nat, kept: nat)
    requires Behind(l, key, used, i) && i + 1 < kept <= |l| + 1
    ensures StillIn(([r] + l)[..kept], key, used + {r.key})
  {
    var l' := ([r] + l)[..kept];
    forall j | 0 <= j <= i + 1
      ensures l'[j] == if j == 0 then r else l[j - 1]
    {}
    assert Behind(l', key, used + {r.key}, i + 1);
  }

  lemma StepStays(l: seq<Record>, op: Op, key: bytes, used: set<bytes>)
    requires StillIn(l, key, used) && Distinct(l) && |l| <= CAPACITY && !op.Clear?
    requires |used + UsedBy(l, op, key)| < CAPACITY
    ensures StillIn(Step(l, op), key, used + UsedBy(l, op, key))
  {
    hide StillIn, Distinct, ToFront;
    match op {
      case Get(k, gen) =>
        var i := Find(l, k);
        if i >= 0 && l[i].gen == gen {
          MovedStays(l, key, used, i, l[i]);
          assert l[i := l[i]] == l;
        }
      case Put(k, value, gen) =>
        var i := Find(l, k);
        if i >= 0 {
          MovedStays(l, key, used, i, Record(k, value, gen));
        } else {
          PresentKey(l, key, used);
          PushedStays(l, key, used, Record(k, value, gen));
        }
    }
  }

  lemma PresentKey(l: seq<Record>, key: bytes, used: set<bytes>)
    requires StillIn(l, key, used)
    ensures Find(l, key) >= 0
  {
    var i: nat :| Behind(l, key, used, i);
  }

  /** The cache is not cleared in between. */
  predicate NoClear(ops: seq<Op>, from: nat, n: nat)
    requires n <= |ops|
  {
    forall q | from <= q < n :: !ops[q].Clear?
  }

  predicate Few(used: set<bytes>) { |used| < CAPACITY }

  /** An entry is given up only for as many other entries as the cache holds: until then a stored value
      stays. */
  lemma {:induction false} StaysStoredUntilFull(ops: seq<Op>, p: nat, n: nat, key: bytes)
    requires p < n <= |ops| && ops[p].Put? && ops[p].key == key && NoClear(ops, p, n)
    requires Few(OthersUsed(ops, p + 1, n, key))
    ensures StillIn(After(ops, n), key, OthersUsed(ops, p + 1, n, key))
    decreases n
  {
    hide *;
    var m: nat := n - 1;
    if m == p {
      StoredStays(ops, p, key);
    } else {
      FewBefore(ops, p + 1, m, key);
      LessToClear(ops, p, m);
      StaysStoredUntilFull(ops, p, m, key);
      StaysOneMore(ops, p + 1, m, key);
    }
  }

  lemma {:induction false} StoredStays(ops: seq<Op>, p: nat, key: bytes)
    requires p < |ops| && ops[p].Put? && ops[p].key == key
    ensures StillIn(After(ops, p + 1), key, OthersUsed(ops, p + 1, p + 1, key))
  {
    hide StillIn, Step;
    FirstIsIn(After(ops, p), ops[p]);
  }

  lemma LessToClear(ops: seq<Op>, from: nat, n: nat)
    requires from <= n < |ops| && NoClear(ops, from, n + 1)
    ensures NoClear(ops, from, n) && !ops[n].Clear?
  {}

  lemma {:induction false} FewBefore(ops: seq<Op>, from: nat, n: nat, key: bytes)
    requires from <= n < |ops| && Few(OthersUsed(ops, from, n + 1, key))
    ensures Few(OthersUsed(ops, from, n, key))
  {
    UsedMore(ops, from, n, key);
    SmallerSet(OthersUsed(ops, from, n, key), OthersUsed(ops, from, n + 1, key));
  }

  lemma {:induction false} StaysOneMore(ops: seq<Op>, from: nat, n: nat, key: bytes)
    requires from <= n < |ops| && !ops[n].Clear? && StillIn(After(ops, n), key, OthersUsed(ops, from, n, key))
    requires Few(OthersUsed(ops, from, n + 1, key))
    ensures StillIn(After(ops, n + 1), key, OthersUsed(ops, from, n + 1, key))
  {
    var before := OthersUsed(ops, from, n, key);
    UsedMore(ops, from, n, key);
    hide StillIn, Distinct, ByRecency, Step, UsedBy, OthersUsed;
    StaysByRecency(ops, n);
    StepStays(After(ops, n), ops[n], key, before);
  }

  lemma {:induction false} UsedMore(ops: seq<Op>, from: nat, n: nat, key: bytes)
    requires from <= n < |ops|
    ensures OthersUsed(ops, from, n + 1, key)
         == OthersUsed(ops, from, n, key)
            + UsedBy(After(ops, n), ops[n], key)
  {
    hide UsedBy, After;
  }

  lemma SmallerSet(a: set<bytes>, b: set<bytes>)
    requires a <= b
    ensures |a| <= |b|
  {
    assert b == a + (b - a);
  }

  lemma FirstIsIn(l: seq<Record>, op: Op)
    requires op.Put?
    ensures StillIn(Step(l, op), op.key, {})
  {
    StoredIsFirst(l, op.key, op.value, op.gen);
    assert Behind(Step(l, op), op.key, {}, 0);
  }

  /** So a lookup hits exactly as it should: a value stored under the same generation is found, unless the
      text has been stored again, the cache has been cleared, or 4096 other texts have been used since. */
  lemma {:induction false} StoredIsFound(ops: seq<Op>, p: nat, n: nat)
    requires p < n <= |ops| && ops[p].Put? && |OthersUsed(ops, p + 1, n, ops[p].key)| < 4096
    requires forall q | p < q < n :: !ops[q].Clear? && !(ops[q].Put? && ops[q].key == ops[p].key)
    ensures AfterGet(After(ops, n), ops[p].key, ops[p].gen).1 == Some(ops[p].value)
  {
    var key, l := ops[p].key, After(ops, n);
    hide Step, OthersUsed, After, Uses, StillIn, Stored;
    StaysStoredUntilFull(ops, p, n, key);
    PresentKey(l, key, OthersUsed(ops, p + 1, n, key));
    AllStored(ops, n);
    var r := l[Find(l, key)];
    assert Stored(ops, n, r);
    OnlyStore(ops, p, n, r);
  }

  lemma OnlyStore(ops: seq<Op>, p: nat, n: nat, r: Record)
    requires p < n <= |ops| && ops[p].Put? && r.key == ops[p].key && Stored(ops, n, r)
    requires forall q | p < q < n :: !ops[q].Clear? && !(ops[q].Put? && ops[q].key == ops[p].key)
    ensures r.value == ops[p].value && r.gen == ops[p].gen
  {
    hide After, Step;
    var q :| StoredAt(ops, n, r, q);
    assert q == p;
  }
}

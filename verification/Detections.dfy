/**
 Matches found in a text, and the choice among those that overlap (internal/redact/engine.go and
 the Detection type of internal/redact/detector.go). Detectors are arbitrary: the detections of a
 text are any list of ranges with the values to look up.
 */
module Detections {
  import opened Bytes
  import opened Scanning
  import opened Minting

  /** A match in some text. format combines the tokens of the lookups; without one the first token
      is used as it is. preserve is PreserveIfUnknown. */
  datatype Detection = Detection(
    start: nat,
    end: nat,
    lookups: seq<Request>,
    format: Option<seq<bytes> -> bytes>,
    preserve: bool)

  /** buildSpan. Every detector gives at least one lookup. */
  function Build(d: Detection): seq<bytes> -> bytes {
    if d.format.Some? then d.format.value
    else (tokens: seq<bytes>) => if tokens == [] then [] else tokens[0]
  }

  predicate InText(dets: seq<Detection>, n: nat) {
    forall i | 0 <= i < |dets| :: dets[i].start <= dets[i].end <= n
  }

  // ------------------------------------------------------------------ overlap resolution

  /** The sort order: by start, then longest first, then by place in the list, because the sort is
      stable. */
  predicate Less(dets: seq<Detection>, i: nat, j: nat)
    requires i < |dets| && j < |dets|
  {
    var a, b := dets[i], dets[j];
    || a.start < b.start
    || (a.start == b.start && a.end > b.end)
    || (a.start == b.start && a.end == b.end && i < j)
  }

  predicate Indices(order: seq<nat>, n: nat) {
    forall k | 0 <= k < |order| :: order[k] < n
  }

  predicate SortedBy(dets: seq<Detection>, order: seq<nat>)
    requires Indices(order, |dets|)
  {
    forall a, b | 0 <= a < b < |order| :: Less(dets, order[a], order[b])
  }

  function Insert(dets: seq<Detection>, order: seq<nat>, i: nat): (r: seq<nat>)
    requires Indices(order, |dets|) && i < |dets|
    ensures Indices(r, |dets|)
    ensures multiset(r) == multiset(order) + multiset{i}
  {
    if order == [] || Less(dets, i, order[0]) then [i] + order
    else
      assert order == [order[0]] + order[1..];
      [order[0]] + Insert(dets, order[1..], i)
  }

  /** The stable sort of the first n detections, as their indices. */
  function Sorted(dets: seq<Detection>, n: nat): (r: seq<nat>)
    requires n <= |dets|
    ensures Indices(r, |dets|)
    ensures forall i :: multiset(r)[i] == if 0 <= i < n then 1 else 0
  {
    if n == 0 then [] else Insert(dets, Sorted(dets, n - 1), n - 1)
  }

  lemma {:induction false} InsertSorts(dets: seq<Detection>, order: seq<nat>, i: nat)
    requires Indices(order, |dets|) && i < |dets| && SortedBy(dets, order) && i !in order
    ensures SortedBy(dets, Insert(dets, order, i))
    ensures forall k :: k in Insert(dets, order, i) <==> k in order || k == i
  {
    if order != [] && !Less(dets, i, order[0]) {
      InsertSorts(dets, order[1..], i);
      var rest := Insert(dets, order[1..], i);
      forall b | 0 <= b < |rest|
        ensures Less(dets, order[0], rest[b])
      {
        assert rest[b] in rest;
      }
    }
  }

  lemma NothingSorted(dets: seq<Detection>)
    ensures SortedBy(dets, [])
  {}

  lemma {:induction false} SortedIsSorted(dets: seq<Detection>, n: nat)
    requires n <= |dets|
    ensures SortedBy(dets, Sorted(dets, n))
    ensures forall i :: i in Sorted(dets, n) <==> 0 <= i < n
  {
    hide SortedBy, Less, Insert, Indices;
    if n == 0 {
      NothingSorted(dets);
    } else {
      SortedIsSorted(dets, n - 1);
      InsertSorts(dets, Sorted(dets, n - 1), n - 1);
    }
  }

  /** The greedy choice along the order. */
  function Greedy(dets: seq<Detection>, order: seq<nat>, lastEnd: int): (kept: seq<nat>)
    requires Indices(order, |dets|)
    ensures Indices(kept, |dets|)
  {
    if order == [] then []
    else if dets[order[0]].start >= lastEnd
    then [order[0]] + Greedy(dets, order[1..], dets[order[0]].end)
    else Greedy(dets, order[1..], lastEnd)
  }

  function Kept(dets: seq<Detection>): (kept: seq<nat>)
    ensures Indices(kept, |dets|)
  {
    Greedy(dets, Sorted(dets, |dets|), -1)
  }

  function Pick(dets: seq<Detection>, kept: seq<nat>): (r: seq<Detection>)
    requires Indices(kept, |dets|)
    ensures |r| == |kept| && forall k | 0 <= k < |kept| :: r[k] == dets[kept[k]]
  {
    if kept == [] then [] else [dets[kept[0]]] + Pick(dets, kept[1..])
  }

  method ResolveOverlaps(dets: seq<Detection>) returns (accepted: seq<Detection>)
    ensures accepted == Pick(dets, Kept(dets))
  {
    var order := Sorted(dets, |dets|);
    accepted := [];
    ghost var kept: seq<nat> := [];
    var lastEnd: int := -1;
    for k := 0 to |order|
      invariant Indices(kept, |dets|) && accepted == Pick(dets, kept)
      invariant kept + Greedy(dets, order[k..], lastEnd) == Kept(dets)
    {
      var d := dets[order[k]];
      assert order[k..][0] == order[k] && order[k..][1..] == order[k + 1..];
      if d.start >= lastEnd {
        ConcatAssoc(kept, [order[k]], Greedy(dets, order[k + 1..], d.end));
        PickSnoc(dets, kept, order[k]);
        accepted := accepted + [d];
        kept := kept + [order[k]];
        lastEnd := d.end;
      }
    }
    ConcatNil(kept);
  }

  lemma {:induction false} PickSnoc(dets: seq<Detection>, kept: seq<nat>, i: nat)
    requires Indices(kept, |dets|) && i < |dets|
    ensures Pick(dets, kept + [i]) == Pick(dets, kept) + [dets[i]]
  {
    if kept != [] {
      assert (kept + [i])[1..] == kept[1..] + [i];
      PickSnoc(dets, kept[1..], i);
    }
  }

  // ------------------------------------------------------------------ what is kept

  /** A choice without overlaps in which everything left out overlaps something chosen that comes
      before it in the order. */
  ghost predicate Resolves(dets: seq<Detection>, chosen: set<nat>) {
    && (forall i | i in chosen :: i < |dets|)
    && (forall i, j | i in chosen && j in chosen && Less(dets, i, j) :: dets[i].end <= dets[j].start)
    && (forall i: nat | i < |dets| && i !in chosen :: Blocked(dets, chosen, i))
  }

  ghost predicate Blocked(dets: seq<Detection>, chosen: set<nat>, i: nat)
    requires i < |dets|
  {
    exists k :: k in chosen && k < |dets| && Blocks(dets, k, i)
  }

  /** i starts inside k, which comes before it. */
  predicate Blocks(dets: seq<Detection>, k: nat, i: nat)
    requires k < |dets| && i < |dets|
  {
    Less(dets, k, i) && dets[k].start <= dets[i].start < dets[k].end
  }

  /** At most one choice resolves the overlaps. */
  lemma ResolvesIsUnique(dets: seq<Detection>, a: set<nat>, b: set<nat>)
    requires Resolves(dets, a) && Resolves(dets, b)
    ensures a == b
  {
    SortedIsSorted(dets, |dets|);
    var order := Sorted(dets, |dets|);
    AgreeAlong(dets, a, b, order, |order|);
    forall i: nat | i < |dets|
      ensures i in a <==> i in b
    {
      assert i in order;
    }
  }

  lemma {:induction false} AgreeAlong(dets: seq<Detection>, a: set<nat>, b: set<nat>, order: seq<nat>, n: nat)
    requires Resolves(dets, a) && Resolves(dets, b)
    requires Indices(order, |dets|) && SortedBy(dets, order) && n <= |order|
    requires forall i: nat | i < |dets| :: i in order
    ensures Agree(a, b, order, n)
  {
    hide Resolves, SortedBy;
    if n > 0 {
      AgreeAlong(dets, a, b, order, n - 1);
      assert order[n - 1] in a <==> order[n - 1] in b by {
        if order[n - 1] in a {
          AgreeAt(dets, a, b, order, n - 1);
        } else if order[n - 1] in b {
          AgreeAt(dets, b, a, order, n - 1);
        }
      }
      AgreeStep(a, b, order, n);
    }
  }

  lemma AgreeStep(a: set<nat>, b: set<nat>, order: seq<nat>, n: nat)
    requires 0 < n <= |order| && Agree(a, b, order, n - 1)
    requires order[n - 1] in a <==> order[n - 1] in b
    ensures Agree(a, b, order, n)
  {}

  ghost predicate Agree(a: set<nat>, b: set<nat>, order: seq<nat>, n: nat)
    requires n <= |order|
  {
    forall k | 0 <= k < n :: order[k] in a <==> order[k] in b
  }

  lemma AgreeAt(dets: seq<Detection>, a: set<nat>, b: set<nat>, order: seq<nat>, n: nat)
    requires Resolves(dets, a) && Resolves(dets, b)
    requires Indices(order, |dets|) && SortedBy(dets, order) && n < |order|
    requires forall i: nat | i < |dets| :: i in order
    requires Agree(a, b, order, n) && order[n] in a
    ensures order[n] in b
  {
    var i := order[n];
    if i !in b {
      var k := Blocker(dets, b, i);
      NoneBlocks(dets, a, k, i);
      ComesBefore(dets, order, k, n);
    }
  }

  lemma Blocker(dets: seq<Detection>, chosen: set<nat>, i: nat) returns (k: nat)
    requires Resolves(dets, chosen) && i < |dets| && i !in chosen
    ensures k in chosen && k < |dets| && Blocks(dets, k, i)
  {
    assert Blocked(dets, chosen, i);
    k :| k in chosen && k < |dets| && Blocks(dets, k, i);
  }

  lemma NoneBlocks(dets: seq<Detection>, chosen: set<nat>, k: nat, i: nat)
    requires Resolves(dets, chosen) && i in chosen && k < |dets| && Blocks(dets, k, i)
    ensures k !in chosen
  {}

  lemma ComesBefore(dets: seq<Detection>, order: seq<nat>, k: nat, n: nat)
    requires Indices(order, |dets|) && SortedBy(dets, order) && n < |order|
    requires k in order && Less(dets, k, order[n])
    ensures k in order[..n]
  {
    var p :| 0 <= p < |order| && order[p] == k;
    LessIsStrict(dets, order[n], k);
    assert order[..n][p] == k;
  }

  lemma LessIsStrict(dets: seq<Detection>, i: nat, j: nat)
    requires i < |dets| && j < |dets| && Less(dets, j, i)
    ensures !Less(dets, i, j) && i != j
  {}

  /** What Greedy keeps, when everything that ends after lastEnd is out of reach. */
  ghost predicate KeptWell(dets: seq<Detection>, order: seq<nat>, lastEnd: int, kept: seq<nat>)
    requires Indices(order, |dets|) && Indices(kept, |dets|)
  {
    && SortedBy(dets, kept)
    && (forall k | k in kept :: k in order && dets[k].start >= lastEnd)
    && (forall a, b | 0 <= a < b < |kept| :: dets[kept[a]].end <= dets[kept[b]].start)
    && (forall i | i in order && i !in kept :: dets[i].start < lastEnd || BlockedBy(dets, kept, i))
  }

  ghost predicate BlockedBy(dets: seq<Detection>, kept: seq<nat>, i: nat)
    requires Indices(kept, |dets|) && i < |dets|
  {
    exists b :: 0 <= b < |kept| && Blocks(dets, kept[b], i)
  }

  lemma {:induction false} GreedyKeepsWell(dets: seq<Detection>, order: seq<nat>, lastEnd: int, n: nat)
    requires InText(dets, n) && Indices(order, |dets|) && SortedBy(dets, order)
    ensures KeptWell(dets, order, lastEnd, Greedy(dets, order, lastEnd))
  {
    if order != [] {
      var i := order[0];
      if dets[i].start >= lastEnd {
        GreedyKeepsWell(dets, order[1..], dets[i].end, n);
        KeptFirst(dets, order, lastEnd, Greedy(dets, order[1..], dets[i].end));
      } else {
        GreedyKeepsWell(dets, order[1..], lastEnd, n);
      }
    }
  }

  lemma KeptFirst(dets: seq<Detection>, order: seq<nat>, lastEnd: int, rest: seq<nat>)
    requires Indices(order, |dets|) && SortedBy(dets, order) && order != [] && Indices(rest, |dets|)
    requires dets[order[0]].start <= dets[order[0]].end && dets[order[0]].start >= lastEnd
    requires KeptWell(dets, order[1..], dets[order[0]].end, rest)
    ensures KeptWell(dets, order, lastEnd, [order[0]] + rest)
  {
    var first, kept := order[0], [order[0]] + rest;
    forall b | 0 <= b < |rest|
      ensures rest[b] in order && Less(dets, first, rest[b]) && dets[first].end <= dets[rest[b]].start
    {
      AfterFirst(dets, order, rest[b]);
    }
    forall i | i in order && i !in kept
      ensures dets[i].start < lastEnd || BlockedBy(dets, kept, i)
    {
      AfterFirst(dets, order, i);
      BlockedByMore(dets, first, rest, i);
    }
  }

  lemma AfterFirst(dets: seq<Detection>, order: seq<nat>, i: nat)
    requires Indices(order, |dets|) && SortedBy(dets, order) && order != []
    requires (i in order && i != order[0]) || i in order[1..]
    ensures i in order[1..] && i in order && Less(dets, order[0], i)
  {
    assert order == [order[0]] + order[1..];
    var p :| 0 <= p < |order[1..]| && order[1..][p] == i;
    assert order[p + 1] == i;
  }

  lemma BlockedByMore(dets: seq<Detection>, first: nat, rest: seq<nat>, i: nat)
    requires first < |dets| && i < |dets| && Indices(rest, |dets|) && Less(dets, first, i)
    requires dets[i].start < dets[first].end || BlockedBy(dets, rest, i)
    ensures BlockedBy(dets, [first] + rest, i)
  {
    var kept := [first] + rest;
    if dets[i].start < dets[first].end {
      assert Blocks(dets, kept[0], i);
    } else {
      var b :| 0 <= b < |rest| && Blocks(dets, rest[b], i);
      assert kept[b + 1] == rest[b];
    }
  }

  function SetOf(kept: seq<nat>): set<nat> { set k | k in kept }

  lemma KeptApart(dets: seq<Detection>, kept: seq<nat>, i: nat, j: nat)
    requires Indices(kept, |dets|) && SortedBy(dets, kept)
    requires forall a, b | 0 <= a < b < |kept| :: dets[kept[a]].end <= dets[kept[b]].start
    requires i in kept && j in kept && Less(dets, i, j)
    ensures dets[i].end <= dets[j].start
  {
    var b :| 0 <= b < |kept| && kept[b] == j;
    ComesBefore(dets, kept, i, b);
    var a :| 0 <= a < b && kept[..b][a] == i;
  }

  /** resolveOverlaps keeps the one choice that resolves the overlaps, in the order of the text. */
  lemma KeptResolves(dets: seq<Detection>, n: nat)
    requires InText(dets, n)
    ensures Resolves(dets, SetOf(Kept(dets)))
    ensures forall a, b | 0 <= a < b < |Kept(dets)| :: dets[Kept(dets)[a]].end <= dets[Kept(dets)[b]].start
  {
    var order, kept := Sorted(dets, |dets|), Kept(dets);
    SortedIsSorted(dets, |dets|);
    GreedyKeepsWell(dets, order, -1, n);
    forall i, j | i in kept && j in kept && Less(dets, i, j)
      ensures dets[i].end <= dets[j].start
    {
      KeptApart(dets, kept, i, j);
    }
    forall i: nat | i < |dets| && i !in kept
      ensures Blocked(dets, SetOf(kept), i)
    {
      BlockedInSet(dets, kept, i);
    }
  }

  /** k begins earlier; or at the same place and reaches further; or both are the same range and k comes
      earlier in the list. */
  predicate Preferred(dets: seq<Detection>, k: nat, i: nat)
    requires k < |dets| && i < |dets|
  {
    || dets[k].start < dets[i].start
    || (dets[k].start == dets[i].start && dets[k].end > dets[i].end)
    || (dets[k].start == dets[i].start && dets[k].end == dets[i].end && k < i)
  }

  /** Whatever is dropped starts inside something kept that begins earlier, or is longer, or is the same
      range found earlier: of the matches at one place the longest is kept, and of equal ones the first. */
  lemma DroppedForPreferred(dets: seq<Detection>, n: nat, i: nat)
    requires InText(dets, n) && i < |dets| && i !in Kept(dets)
    ensures exists k: nat :: k in Kept(dets) && k < |dets| && dets[i].start < dets[k].end && Preferred(dets, k, i)
  {
    KeptResolves(dets, n);
    hide Resolves, Kept;
    var k := Blocker(dets, SetOf(Kept(dets)), i);
    assert k in Kept(dets) && Preferred(dets, k, i);
  }

  /** A choice in which preferred ones end before the others begin, and in which whatever is left out starts
      inside a preferred one. */
  ghost predicate LongestFirst(dets: seq<Detection>, chosen: set<nat>) {
    && (forall i | i in chosen :: i < |dets|)
    && (forall i, j | i in chosen && j in chosen && Preferred(dets, i, j) :: dets[i].end <= dets[j].start)
    && (forall i: nat | i < |dets| && i !in chosen :: LeftForPreferred(dets, chosen, i))
  }

  ghost predicate LeftForPreferred(dets: seq<Detection>, chosen: set<nat>, i: nat)
    requires i < |dets|
  {
    exists k :: k in chosen && k < |dets| && dets[i].start < dets[k].end && Preferred(dets, k, i)
  }

  /** resolveOverlaps makes this choice, and there is no other. */
  lemma KeptIsLongestFirst(dets: seq<Detection>, n: nat, chosen: set<nat>)
    requires InText(dets, n)
    ensures LongestFirst(dets, chosen) <==> chosen == SetOf(Kept(dets))
  {
    KeptResolves(dets, n);
    hide Kept;
    LongestFirstResolves(dets, chosen);
    LongestFirstResolves(dets, SetOf(Kept(dets)));
    if LongestFirst(dets, chosen) {
      ResolvesIsUnique(dets, chosen, SetOf(Kept(dets)));
    }
  }

  lemma LongestFirstResolves(dets: seq<Detection>, chosen: set<nat>)
    ensures LongestFirst(dets, chosen) <==> Resolves(dets, chosen)
  {
    forall i, j | 0 <= i < |dets| && 0 <= j < |dets|
      ensures Preferred(dets, i, j) <==> Less(dets, i, j)
    {}
    forall i: nat | i < |dets|
      ensures LeftForPreferred(dets, chosen, i) <==> Blocked(dets, chosen, i)
    {
      if k :| k in chosen && k < |dets| && dets[i].start < dets[k].end && Preferred(dets, k, i) {
        assert Blocks(dets, k, i);
      }
    }
  }

  lemma BlockedInSet(dets: seq<Detection>, kept: seq<nat>, i: nat)
    requires Indices(kept, |dets|) && i < |dets| && BlockedBy(dets, kept, i)
    ensures Blocked(dets, SetOf(kept), i)
  {
    var b :| 0 <= b < |kept| && Blocks(dets, kept[b], i);
    assert kept[b] in SetOf(kept);
  }
}

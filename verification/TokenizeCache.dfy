/**
 The bounded cache in front of Tokenize (internal/redact/tokenize_cache.go): a list of entries,
 most recently used first, and a map into it, both changed in place. The content hash is taken to
 be injective, so texts stand for their keys.
 */
module TokenizeCaches {
  import opened Bytes
  import opened Scanning

  const CAPACITY: nat := 4096

  datatype Record = Record(key: bytes, value: bytes, gen: nat)

  // ------------------------------------------------------------------ the cache as a value

  function Find(l: seq<Record>, key: bytes): (i: int)
    ensures -1 <= i < |l|
    ensures i >= 0 ==> l[i].key == key
    ensures i == -1 <==> forall k | 0 <= k < |l| :: l[k].key != key
  {
    if l == [] then -1
    else if l[0].key == key then 0
    else var i := Find(l[1..], key); if i == -1 then -1 else i + 1
  }

  /** Element i moved to the front. */
  function ToFront<T>(l: seq<T>, i: nat): seq<T>
    requires i < |l|
  {
    [l[i]] + (l[..i] + l[i + 1..])
  }

  /** Where position j of ToFront(l, i) comes from. */
  function Source(i: nat, j: nat): nat { if j == 0 then i else if j <= i then j - 1 else j }

  lemma ToFrontAt<T>(l: seq<T>, i: nat, j: nat)
    requires i < |l| && j < |l|
    ensures |ToFront(l, i)| == |l| && ToFront(l, i)[j] == l[Source(i, j)]
  {}

  /** The list and the hit after a lookup. An entry of another generation is a miss and keeps its
      place. */
  function AfterGet(l: seq<Record>, key: bytes, gen: nat): (seq<Record>, Option<bytes>) {
    var i := Find(l, key);
    if i == -1 || l[i].gen != gen then (l, None) else (ToFront(l, i), Some(l[i].value))
  }

  function AfterPut(l: seq<Record>, key: bytes, value: bytes, gen: nat): seq<Record> {
    var i, r := Find(l, key), Record(key, value, gen);
    if i >= 0 then ToFront(l[i := r], i)
    else if |l| + 1 > CAPACITY then ([r] + l)[..|l|]
    else [r] + l
  }

  predicate Distinct(l: seq<Record>) {
    forall i, j | 0 <= i < j < |l| :: l[i].key != l[j].key
  }

  // ------------------------------------------------------------------ the cache as it is

  class Entry {
    const key: bytes
    var value: bytes
    var gen: nat

    constructor (key: bytes, value: bytes, gen: nat)
      ensures this.key == key && this.value == value && this.gen == gen
    {
      this.key, this.value, this.gen := key, value, gen;
    }

    ghost function Model(): Record
      reads this
    {
      Record(key, value, gen)
    }
  }

  /** The records of the entries, in their order. */
  ghost function Records(ll: seq<Entry>): (l: seq<Record>)
    reads ll
    ensures |l| == |ll| && forall i | 0 <= i < |ll| :: l[i] == ll[i].Model()
  {
    if ll == [] then [] else [ll[0].Model()] + Records(ll[1..])
  }

  /** The map leads to exactly the listed entries, which have different keys. */
  ghost predicate Linked(ll: seq<Entry>, items: map<bytes, Entry>) {
    && (forall i, j | 0 <= i < j < |ll| :: ll[i].key != ll[j].key)
    && (forall i | 0 <= i < |ll| :: ll[i].key in items && items[ll[i].key] == ll[i])
    && (forall k | k in items :: Listed(ll, items[k], k))
  }

  ghost predicate Listed(ll: seq<Entry>, e: Entry, key: bytes) {
    e.key == key && exists i :: 0 <= i < |ll| && ll[i] == e
  }

  lemma ToFrontStaysLinked(ll: seq<Entry>, items: map<bytes, Entry>, i: nat)
    requires Linked(ll, items) && i < |ll|
    ensures Linked(ToFront(ll, i), items)
  {
    var l := ToFront(ll, i);
    forall j | 0 <= j < |ll|
      ensures l[j] == ll[Source(i, j)] && |l| == |ll|
    {
      ToFrontAt(ll, i, j);
    }
    hide ToFront;
    forall k | k in items
      ensures Listed(l, items[k], k)
    {
      var j :| 0 <= j < |ll| && ll[j] == items[k];
      assert l[if j == i then 0 else if j < i then j + 1 else j] == ll[j];
    }
  }

  lemma ToFrontKeeps(ll: seq<Entry>, i: nat)
    requires i < |ll|
    ensures |ToFront(ll, i)| == |ll| && forall x | x in ToFront(ll, i) :: x in ll
  {}

  lemma PushedStaysLinked(ll: seq<Entry>, items: map<bytes, Entry>, e: Entry)
    requires Linked(ll, items) && e.key !in items
    ensures Linked([e] + ll, items[e.key := e])
  {
    var l := [e] + ll;
    forall k | k in items
      ensures Listed(l, items[k], k)
    {
      var i :| 0 <= i < |ll| && ll[i] == items[k];
      assert l[i + 1] == ll[i];
    }
    assert l[0] == e;
  }

  lemma PoppedStaysLinked(ll: seq<Entry>, items: map<bytes, Entry>)
    requires Linked(ll, items) && ll != []
    ensures Linked(ll[..|ll| - 1], items - {ll[|ll| - 1].key})
  {
    var n := |ll| - 1;
    forall k | k in items && k != ll[n].key
      ensures Listed(ll[..n], items[k], k)
    {
      assert Listed(ll, items[k], k);
      var i :| 0 <= i < |ll| && ll[i] == items[k];
      assert ll[..n][i] == ll[i];
    }
  }

  lemma {:induction false} RecordsToFront(ll: seq<Entry>, i: nat)
    requires i < |ll|
    ensures Records(ToFront(ll, i)) == ToFront(Records(ll), i)
  {
    hide Records;
    forall j | 0 <= j < |ll|
      ensures |ToFront(ll, i)| == |ToFront(Records(ll), i)| == |ll|
      ensures ToFront(ll, i)[j].Model() == ToFront(Records(ll), i)[j]
    {
      ToFrontAt(ll, i, j);
      ToFrontAt(Records(ll), i, j);
    }
    hide ToFront;
  }

  class TokenizeCache {
    var ll: seq<Entry>
    var items: map<bytes, Entry>

    ghost predicate Valid()
      reads this
    {
      |ll| <= CAPACITY && Linked(ll, items)
    }

    ghost function Model(): seq<Record>
      reads this, ll
    {
      Records(ll)
    }

    constructor ()
      ensures Valid() && Model() == []
    {
      ll, items := [], map[];
    }

    /** Where the entry of a key is. */
    method Position(e: Entry) returns (i: nat)
      requires Valid() && e.key in items && items[e.key] == e
      ensures i < |ll| && ll[i] == e && Find(Model(), e.key) == i
    {
      assert Listed(ll, e, e.key);
      i := 0;
      while ll[i] != e
        invariant i < |ll| && exists k :: i <= k < |ll| && ll[k] == e
        decreases |ll| - i
      {
        i := i + 1;
      }
      assert Model()[i].key == e.key;
      var j := Find(Model(), e.key);
      assert Model()[j].key == ll[j].key == e.key;
    }

    method MoveToFront(e: Entry)
      requires Valid() && e.key in items && items[e.key] == e
      modifies this`ll
      ensures Valid() && |ll| == |old(ll)|
      ensures var i := Find(old(Model()), e.key);
              0 <= i < |old(Model())| && Model() == ToFront(old(Model()), i)
      ensures forall x | x in ll :: x in old(ll)
    {
      hide Linked, ToFront, Records, Find;
      var i := Position(e);
      ToFrontStaysLinked(ll, items, i);
      RecordsToFront(ll, i);
      ToFrontKeeps(ll, i);
      ll := ToFront(ll, i);
    }

    lemma {:induction false} NotListed(key: bytes)
      requires Valid() && key !in items
      ensures Find(Model(), key) == -1
    {
      forall i | 0 <= i < |ll|
        ensures Model()[i].key != key
      {
        assert ll[i].key in items;
      }
    }

    method Get(text: bytes, gen: nat) returns (hit: Option<bytes>)
      requires Valid()
      modifies this`ll
      ensures Valid() && (Model(), hit) == AfterGet(old(Model()), text, gen)
    {
      if text !in items {
        NotListed(text);
        return None;
      }
      var entry := items[text];
      assert Listed(ll, entry, text);
      var i := Position(entry);
      hide Linked;
      if entry.gen != gen {
        return None;
      }
      MoveToFront(entry);
      return Some(entry.value);
    }

    /** A known key gets its new value in place and moves to the front. */
    method Refresh(entry: Entry, value: bytes, gen: nat)
      requires Valid() && entry.key in items && items[entry.key] == entry
      modifies this`ll, entry
      ensures Valid()
      ensures var i := Find(old(Model()), entry.key);
              0 <= i < |old(Model())| && Model() == ToFront(old(Model())[i := Record(entry.key, value, gen)], i)
    {
      hide Linked, Records, ToFront, Find;
      var i := Position(entry);
      Overwrite(entry, i, value, gen);
      ToFrontStaysLinked(ll, items, i);
      RecordsToFront(ll, i);
      ToFrontKeeps(ll, i);
      ll := ToFront(ll, i);
    }

    method Overwrite(entry: Entry, ghost i: nat, value: bytes, gen: nat)
      requires Linked(ll, items) && i < |ll| && ll[i] == entry
      modifies entry
      ensures Model() == old(Model())[i := Record(entry.key, value, gen)]
    {
      hide Records;
      entry.value, entry.gen := value, gen;
      assert forall j | 0 <= j < |ll| && j != i :: ll[j].key != ll[i].key;
    }

    method PushFront(text: bytes, value: bytes, gen: nat)
      requires Valid() && text !in items
      modifies this
      ensures Linked(ll, items) && |ll| == |old(ll)| + 1
      ensures Model() == [Record(text, value, gen)] + old(Model())
    {
      hide Linked, Listed, Records;
      var e := new Entry(text, value, gen);
      PushedStaysLinked(ll, items, e);
      ll, items := [e] + ll, items[text := e];
    }

    /** The least recently used entry goes. */
    method RemoveOldest()
      requires Linked(ll, items) && 0 < |ll| <= CAPACITY + 1
      modifies this
      ensures Valid() && Model() == old(Model())[..|old(Model())| - 1]
    {
      hide Records;
      var oldest := ll[|ll| - 1];
      PoppedStaysLinked(ll, items);
      ll, items := ll[..|ll| - 1], items - {oldest.key};
    }

    method Put(text: bytes, value: bytes, gen: nat)
      requires Valid()
      modifies this, ll
      ensures Valid() && Model() == AfterPut(old(Model()), text, value, gen)
    {
      if text in items {
        assert Listed(ll, items[text], text);
        hide Linked, Records;
        Refresh(items[text], value, gen);
        return;
      }
      NotListed(text);
      hide Linked, Records;
      PushFront(text, value, gen);
      if |ll| > CAPACITY {
        RemoveOldest();
      }
    }

    method Clear()
      requires Valid()
      modifies this
      ensures Valid() && Model() == []
    {
      ll, items := [], map[];
    }
  }
}

/**
 Replacing ranges of a text in one pass from left to right, and where the untouched parts go.
 Both the substitution engine (internal/redact/engine.go) and the JSON rewriter
 (internal/jsonwalk/walk.go) work this way.
 */
module Splicing {
  import opened Bytes

  /** Replace the bytes start..end. */
  datatype Edit = Edit(start: nat, end: nat, text: bytes)

  /** The edits lie in last..n, one after the other. */
  predicate Ordered(edits: seq<Edit>, last: nat, n: nat) {
    if edits == [] then last <= n
    else last <= edits[0].start <= edits[0].end && Ordered(edits[1..], edits[0].end, n)
  }

  lemma {:induction false} OrderedBound(edits: seq<Edit>, last: nat, n: nat)
    requires Ordered(edits, last, n)
    ensures last <= n
    ensures forall i | 0 <= i < |edits| :: last <= edits[i].start <= edits[i].end <= n
  {
    if edits != [] {
      OrderedBound(edits[1..], edits[0].end, n);
    }
  }

  /** The rest of the output when everything before last is written. */
  function Splice(text: bytes, edits: seq<Edit>, last: nat): bytes
    requires Ordered(edits, last, |text|)
  {
    OrderedBound(edits, last, |text|);
    if edits == [] then text[last..]
    else text[last..edits[0].start] + edits[0].text + Splice(text, edits[1..], edits[0].end)
  }

  /** The running output and the position up to which the input is copied. */
  method SpliceAll(text: bytes, edits: seq<Edit>) returns (out: bytes)
    requires Ordered(edits, 0, |text|)
    ensures out == Splice(text, edits, 0)
  {
    out := [];
    var last := 0;
    for i := 0 to |edits|
      invariant 0 <= last && Ordered(edits[i..], last, |text|)
      invariant out + Splice(text, edits[i..], last) == Splice(text, edits, 0)
    {
      OrderedBound(edits[i..], last, |text|);
      var e := edits[i];
      assert edits[i..][0] == e && edits[i..][1..] == edits[i + 1..];
      var piece := text[last..e.start] + e.text;
      ConcatAssoc(out, piece, Splice(text, edits[i + 1..], e.end));
      out := out + piece;
      last := e.end;
    }
    OrderedBound(edits[|edits|..], last, |text|);
    out := out + text[last..];
  }

  /** What is written before the tail after the last edit. */
  function Written(text: bytes, edits: seq<Edit>, last: nat): bytes
    requires Ordered(edits, last, |text|)
  {
    OrderedBound(edits, last, |text|);
    if edits == [] then []
    else text[last..edits[0].start] + edits[0].text + Written(text, edits[1..], edits[0].end)
  }

  function LastEnd(edits: seq<Edit>, last: nat): nat {
    if edits == [] then last else edits[|edits| - 1].end
  }

  lemma {:induction false} SpliceIsWritten(text: bytes, edits: seq<Edit>, last: nat)
    requires Ordered(edits, last, |text|)
    ensures last <= LastEnd(edits, last) <= |text|
    ensures Splice(text, edits, last) == Written(text, edits, last) + text[LastEnd(edits, last)..]
  {
    OrderedBound(edits, last, |text|);
    if edits == [] {
      ConcatNil(text[last..]);
    } else {
      var e, rest := edits[0], edits[1..];
      SpliceIsWritten(text, rest, e.end);
      ConcatAssoc(text[last..e.start] + e.text, Written(text, rest, e.end), text[LastEnd(edits, last)..]);
    }
  }

  lemma {:induction false} OrderedSnoc(edits: seq<Edit>, last: nat, n: nat, e: Edit, n': nat)
    requires Ordered(edits, last, n) && n <= e.start <= e.end <= n'
    ensures Ordered(edits + [e], last, n')
  {
    if edits == [] {
      assert [e][1..] == [];
    } else {
      ConsConcat(edits, [e]);
      OrderedSnoc(edits[1..], edits[0].end, n, e, n');
    }
  }

  lemma {:induction false} OrderedMore(edits: seq<Edit>, last: nat, n: nat, n': nat)
    requires Ordered(edits, last, n) && n <= n'
    ensures Ordered(edits, last, n')
  {
    if edits != [] {
      OrderedMore(edits[1..], edits[0].end, n, n');
    }
  }

  /** One more edit at the end. */
  lemma {:induction false} WrittenSnoc(text: bytes, edits: seq<Edit>, last: nat, e: Edit)
    requires Ordered(edits, last, |text|) && Ordered(edits + [e], last, |text|)
    ensures last <= LastEnd(edits, last) <= e.start <= |text|
    ensures Written(text, edits + [e], last) == Written(text, edits, last) + (text[LastEnd(edits, last)..e.start] + e.text)
  {
    OrderedBound(edits, last, |text|);
    OrderedBound(edits + [e], last, |text|);
    if edits == [] {
      assert [e][1..] == [];
      ConcatNil(text[last..e.start] + e.text);
    } else {
      ConsConcat(edits, [e]);
      WrittenSnoc(text, edits[1..], edits[0].end, e);
      ConcatAssoc(text[last..edits[0].start] + edits[0].text, Written(text, edits[1..], edits[0].end),
                  text[LastEnd(edits, last)..e.start] + e.text);
    }
  }

  // ------------------------------------------------------------------ where things go

  /** The range s..t holds bytes of the text that no edit touches and into which none inserts. */
  predicate Untouched(edits: seq<Edit>, s: nat, t: nat) {
    s < t && forall i | 0 <= i < |edits| :: edits[i].end <= s || t <= edits[i].start
  }

  /** Where the untouched position s of the text is in Splice(text, edits, last). */
  function Moved(edits: seq<Edit>, last: nat, s: nat): int {
    if edits == [] || s < edits[0].end then s - last
    else edits[0].start - last + |edits[0].text| + Moved(edits[1..], edits[0].end, s)
  }

  /** Where the text of edit i is in Splice(text, edits, last). */
  function Placed(edits: seq<Edit>, last: nat, i: nat): int
    requires i < |edits|
  {
    if i == 0 then edits[0].start - last
    else edits[0].start - last + |edits[0].text| + Placed(edits[1..], edits[0].end, i - 1)
  }

  predicate Shows(out: bytes, p: int, piece: bytes) {
    0 <= p && p + |piece| <= |out| && out[p..p + |piece|] == piece
  }

  lemma ShowsAfter(a: bytes, out: bytes, p: int, piece: bytes)
    requires Shows(out, p, piece)
    ensures Shows(a + out, |a| + p, piece)
  {
    assert (a + out)[|a| + p..|a| + p + |piece|] == out[p..p + |piece|];
  }

  lemma ShowsBefore(a: bytes, b: bytes, p: int, piece: bytes)
    requires Shows(a, p, piece)
    ensures Shows(a + b, p, piece)
  {
    assert (a + b)[p..p + |piece|] == a[p..p + |piece|];
  }

  lemma SubrangeShown(text: bytes, a: nat, b: nat, s: nat, t: nat)
    requires a <= s <= t <= b <= |text|
    ensures Shows(text[a..b], s - a, text[s..t])
  {
    var x, y := text[a..b][s - a..t - a], text[s..t];
    assert |x| == |y| && forall i | 0 <= i < |y| :: x[i] == y[i];
    assert s - a + |y| == t - a;
  }

  /** Untouched bytes are copied. */
  lemma {:induction false} UntouchedIsCopied(text: bytes, edits: seq<Edit>, last: nat, s: nat, t: nat)
    requires Ordered(edits, last, |text|) && last <= s && t <= |text| && Untouched(edits, s, t)
    ensures Shows(Splice(text, edits, last), Moved(edits, last, s), text[s..t])
  {
    hide Shows;
    OrderedBound(edits, last, |text|);
    if edits == [] {
      SubrangeShown(text, last, |text|, s, t);
      assert text[last..|text|] == text[last..];
    } else {
      var e, rest := edits[0], Splice(text, edits[1..], edits[0].end);
      var head := text[last..e.start];
      if s < e.end {
        SubrangeShown(text, last, e.start, s, t);
        ShowsBefore(head, e.text, s - last, text[s..t]);
        ShowsBefore(head + e.text, rest, s - last, text[s..t]);
      } else {
        UntouchedIsCopied(text, edits[1..], e.end, s, t);
        ShowsAfter(head + e.text, rest, Moved(edits[1..], e.end, s), text[s..t]);
      }
    }
  }

  /** The text of each edit is in the output. */
  lemma {:induction false} EditIsShown(text: bytes, edits: seq<Edit>, last: nat, i: nat)
    requires Ordered(edits, last, |text|) && i < |edits|
    ensures Shows(Splice(text, edits, last), Placed(edits, last, i), edits[i].text)
  {
    OrderedBound(edits, last, |text|);
    var e, rest := edits[0], Splice(text, edits[1..], edits[0].end);
    var head := text[last..e.start];
    if i == 0 {
      assert Shows(e.text, 0, e.text);
      ShowsAfter(head, e.text, 0, e.text);
      ShowsBefore(head + e.text, rest, |head|, e.text);
    } else {
      EditIsShown(text, edits[1..], e.end, i - 1);
      ShowsAfter(head + e.text, rest, Placed(edits[1..], e.end, i - 1), edits[i].text);
    }
  }

  predicate Meets(p: int, q: int, a: int, b: int) { p < b && a < q }

  /** The range p..q of the output meets the text of some edit. */
  ghost predicate MeetsEdit(edits: seq<Edit>, last: nat, p: int, q: int) {
    exists i :: 0 <= i < |edits| && Meets(p, q, Placed(edits, last, i), Placed(edits, last, i) + |edits[i].text|)
  }

  /** A range of the output that meets no replacement comes from an untouched range of the text,
      provided that no replacement is empty. */
  lemma {:induction false} OutputIsCopied(text: bytes, edits: seq<Edit>, last: nat, p: nat, q: nat) returns (s: nat)
    requires Ordered(edits, last, |text|) && p < q <= |Splice(text, edits, last)|
    requires !MeetsEdit(edits, last, p, q)
    requires forall i | 0 <= i < |edits| :: edits[i].text != []
    ensures last <= s && s + (q - p) <= |text| && Untouched(edits, s, s + (q - p))
    ensures Moved(edits, last, s) == p
  {
    OrderedBound(edits, last, |text|);
    if edits == [] {
      return last + p;
    }
    var e, rest := edits[0], edits[1..];
    var off := e.start - last + |e.text|;
    assert !Meets(p, q, Placed(edits, last, 0), Placed(edits, last, 0) + |e.text|);
    OrderedBound(rest, e.end, |text|);
    if q <= e.start - last {
      s := last + p;
    } else {
      forall i | 0 <= i < |rest|
        ensures !Meets(p - off, q - off, Placed(rest, e.end, i), Placed(rest, e.end, i) + |rest[i].text|)
      {
        assert !Meets(p, q, Placed(edits, last, i + 1), Placed(edits, last, i + 1) + |edits[i + 1].text|);
      }
      s := OutputIsCopied(text, rest, e.end, p - off, q - off);
    }
  }

  /** Order is kept: of two untouched ranges, the earlier one goes to the earlier place. */
  lemma {:induction false} MovedInOrder(edits: seq<Edit>, last: nat, n: nat, s: nat, t: nat, s': nat, t': nat)
    requires Ordered(edits, last, n) && last <= s && t <= s' && t' <= n
    requires Untouched(edits, s, t) && Untouched(edits, s', t')
    ensures Moved(edits, last, s) + (t - s) <= Moved(edits, last, s')
  {
    if edits != [] {
      var e := edits[0];
      if s >= e.end {
        MovedInOrder(edits[1..], e.end, n, s, t, s', t');
      } else if s' >= e.end {
        OrderedBound(edits, last, n);
        MovedForward(edits[1..], e.end, n, s', t');
      }
    }
  }

  lemma {:induction false} MovedForward(edits: seq<Edit>, last: nat, n: nat, s: nat, t: nat)
    requires Ordered(edits, last, n) && last <= s && Untouched(edits, s, t)
    ensures 0 <= Moved(edits, last, s)
  {
    if edits != [] && s >= edits[0].end {
      MovedForward(edits[1..], edits[0].end, n, s, t);
    }
  }

  /** Overlapping untouched ranges move together. */
  lemma {:induction false} MovedTogether(edits: seq<Edit>, last: nat, n: nat, s: nat, t: nat, s': nat, t': nat)
    requires Ordered(edits, last, n) && Untouched(edits, s, t) && Untouched(edits, s', t')
    requires s < t' && s' < t
    ensures Moved(edits, last, s') - Moved(edits, last, s) == s' - s
  {
    if edits != [] && s >= edits[0].end {
      MovedTogether(edits[1..], edits[0].end, n, s, t, s', t');
    }
  }
}

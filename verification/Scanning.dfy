/**
 The left-to-right scan behind every replacement in the engine: find a match, go on where it
 ended, and copy the text between the captured groups. What a match is stays open here: at(q)
 is the group captured by the match that begins at position q, if there is one.
 */
module Scanning {
  import opened Bytes

  datatype Option<+T> = None | Some(value: T)

  /** A captured group: the bytes start..end. */
  datatype Group = Group(start: nat, end: nat)

  type Search = nat -> Option<Group>

  /** Matches lie within n bytes and are never empty. */
  ghost predicate Sane(at: Search, n: nat) {
    forall q: nat | q < n :: Advances(at, n, q)
  }

  predicate Advances(at: Search, n: nat, q: nat) {
    at(q).Some? ==> q < at(q).value.end <= n && at(q).value.start <= at(q).value.end
  }

  function FindAll(at: Search, n: nat, q: nat): seq<Group>
    requires Sane(at, n)
    decreases n - q
  {
    if q >= n then []
    else if at(q).None? then FindAll(at, n, q + 1)
    else
      assert Advances(at, n, q);
      [at(q).value] + FindAll(at, n, at(q).value.end)
  }

  predicate Within(groups: seq<Group>, n: nat) {
    forall i | 0 <= i < |groups| :: groups[i].start <= groups[i].end <= n
  }

  lemma {:induction false} FoundWithin(at: Search, n: nat, q: nat)
    requires Sane(at, n)
    ensures Within(FindAll(at, n, q), n)
    decreases n - q
  {
    if q < n {
      assert Advances(at, n, q);
      FoundWithin(at, n, if at(q).None? then q + 1 else at(q).value.end);
    }
  }

  /** A rule writes repl(group) for each group and swallows echo(group) where the text goes on
      with it. */
  datatype Rule = Rule(repl: bytes -> bytes, echo: bytes -> bytes)

  function EchoEnd(r: Rule, text: bytes, g: Group): (end: nat)
    requires g.start <= g.end <= |text|
    ensures g.end <= end <= |text|
  {
    var e := r.echo(text[g.start..g.end]);
    if HasPrefix(text[g.end..], e) then g.end + |e| else g.end
  }

  /** What is written for the group g when the text before last has been written. */
  function Piece(r: Rule, text: bytes, last: nat, g: Group): bytes
    requires last <= g.start <= g.end <= |text|
  {
    text[last..g.start] + r.repl(text[g.start..g.end])
  }

  /** The rest of the output. A group that starts inside an already swallowed echo is skipped. */
  function Write(r: Rule, text: bytes, groups: seq<Group>, last: nat): bytes
    requires Within(groups, |text|) && last <= |text|
  {
    if groups == [] then text[last..]
    else if groups[0].start < last then Write(r, text, groups[1..], last)
    else Piece(r, text, last, groups[0]) + Write(r, text, groups[1..], EchoEnd(r, text, groups[0]))
  }

  /** The rewriting loop: a running output and the position up to which the input is copied. */
  method WriteAll(r: Rule, text: bytes, groups: seq<Group>) returns (out: bytes)
    requires Within(groups, |text|)
    ensures out == Write(r, text, groups, 0)
  {
    out := [];
    var last := 0;
    for i := 0 to |groups|
      invariant 0 <= last <= |text|
      invariant out + Write(r, text, groups[i..], last) == Write(r, text, groups, 0)
    {
      var g := groups[i];
      assert groups[i..][0] == g && groups[i..][1..] == groups[i + 1..];
      if g.start >= last {
        var piece := text[last..g.start] + r.repl(text[g.start..g.end]);
        last := EchoEnd(r, text, g);
        var rest := Write(r, text, groups[i + 1..], last);
        assert out + (piece + rest) == (out + piece) + rest;
        out := out + piece;
      }
    }
    out := out + text[last..];
  }

  // ------------------------------------------------------------------ a scan of two joined texts

  function Shift(g: Option<Group>, n: nat): Option<Group> {
    match g
    case None => None
    case Some(g) => Some(Group(g.start + n, g.end + n))
  }

  function ShiftAll(groups: seq<Group>, n: nat): seq<Group> {
    if groups == [] then []
    else [Group(groups[0].start + n, groups[0].end + n)] + ShiftAll(groups[1..], n)
  }

  /** In a + b, with |a| = n and |b| = m, the search meets in b what it meets in b alone. */
  ghost predicate SuffixAgrees(atT: Search, atB: Search, n: nat, m: nat) {
    forall q: nat | 0 < q <= m :: atT(n + q) == Shift(atB(q), n)
  }

  lemma {:induction false} FindInSuffix(atT: Search, atB: Search, n: nat, m: nat, q: nat)
    requires Sane(atT, n + m) && Sane(atB, m) && SuffixAgrees(atT, atB, n, m) && 0 < q <= m
    ensures FindAll(atT, n + m, n + q) == ShiftAll(FindAll(atB, m, q), n)
    decreases m - q, 1
  {
    if q < m {
      assert atT(n + q) == Shift(atB(q), n);
      FindFrom(atT, atB, n, m, n + q, q);
    }
  }

  /** If the search meets the same match in b and, shifted, in a + b, then it goes on alike. */
  lemma {:induction false} FindFrom(atT: Search, atB: Search, n: nat, m: nat, p: nat, q: nat)
    requires Sane(atT, n + m) && Sane(atB, m) && SuffixAgrees(atT, atB, n, m)
    requires q < m && p < n + m && atT(p) == Shift(atB(q), n)
    requires atB(q).None? ==> p == n + q
    ensures FindAll(atT, n + m, p) == ShiftAll(FindAll(atB, m, q), n)
    decreases m - q, 0
  {
    assert Advances(atB, m, q);
    FindInSuffix(atT, atB, n, m, if atB(q).None? then q + 1 else atB(q).value.end);
  }

  /** The search reaches b through the last byte of a: either that byte starts the match that b
      starts with, or it starts none and the search goes on with b. */
  ghost predicate CutAgrees(atT: Search, atB: Search, n: nat, m: nat) {
    && 0 < n
    && (atT(n - 1).Some? ==> 0 < m && atT(n - 1) == Shift(atB(0), n))
    && (atT(n - 1).None? && 0 < m ==> atT(n) == Shift(atB(0), n))
  }

  lemma {:induction false} FindOverCut(atT: Search, atB: Search, n: nat, m: nat)
    requires Sane(atT, n + m) && Sane(atB, m) && SuffixAgrees(atT, atB, n, m) && CutAgrees(atT, atB, n, m)
    ensures FindAll(atT, n + m, n - 1) == ShiftAll(FindAll(atB, m, 0), n)
  {
    if atT(n - 1).Some? {
      FindFrom(atT, atB, n, m, n - 1, 0);
    } else if 0 < m {
      FindFrom(atT, atB, n, m, n, 0);
    }
  }

  /** Before the last byte of a the search meets what it meets in a alone, all of it inside a;
      at the last byte of a alone it meets nothing. */
  ghost predicate PrefixAgrees(atT: Search, atA: Search, n: nat) {
    && 0 < n && atA(n - 1).None?
    && (forall q: nat | q < n - 1 :: atT(q) == atA(q) && (atA(q).Some? ==> atA(q).value.end < n))
  }

  lemma {:induction false} FindInPrefix(atT: Search, atA: Search, atB: Search, n: nat, m: nat, q: nat)
    requires Sane(atT, n + m) && Sane(atA, n) && Sane(atB, m)
    requires PrefixAgrees(atT, atA, n) && SuffixAgrees(atT, atB, n, m) && CutAgrees(atT, atB, n, m) && q < n
    ensures FindAll(atT, n + m, q) == FindAll(atA, n, q) + ShiftAll(FindAll(atB, m, 0), n)
    decreases n - q
  {
    if q == n - 1 {
      FindOverCut(atT, atB, n, m);
      assert FindAll(atA, n, q) == [];
    } else {
      assert Advances(atA, n, q) && atT(q) == atA(q);
      if atA(q).None? {
        FindInPrefix(atT, atA, atB, n, m, q + 1);
      } else {
        var g := atA(q).value;
        FindInPrefix(atT, atA, atB, n, m, g.end);
        ConcatAssoc([g], FindAll(atA, n, g.end), ShiftAll(FindAll(atB, m, 0), n));
      }
    }
  }

  lemma {:induction false} FoundInside(atT: Search, atA: Search, n: nat, q: nat)
    requires Sane(atA, n) && PrefixAgrees(atT, atA, n) && q < n
    ensures Within(FindAll(atA, n, q), n - 1)
    decreases n - q
  {
    if q < n - 1 {
      assert Advances(atA, n, q) && atT(q) == atA(q);
      FoundInside(atT, atA, n, if atA(q).None? then q + 1 else atA(q).value.end);
    }
  }

  lemma {:induction false} ShiftStaysWithin(groups: seq<Group>, n: nat, m: nat)
    requires Within(groups, n)
    ensures |ShiftAll(groups, m)| == |groups|
    ensures Within(ShiftAll(groups, m), m + n)
  {
    if groups != [] {
      ShiftStaysWithin(groups[1..], n, m);
    }
  }

  /** What is still to be written of b when everything before last in a + b has been written. */
  function Past(a: bytes, last: nat): nat { if last <= |a| then 0 else last - |a| }

  /** What is still to be written of a. */
  function Left(a: bytes, last: nat): bytes { if last <= |a| then a[last..] else [] }

  lemma GroupInSuffix(r: Rule, a: bytes, b: bytes, last: nat, g: Group)
    requires last <= |a + b| && Past(a, last) <= g.start <= g.end <= |b|
    ensures var g' := Group(g.start + |a|, g.end + |a|);
            && EchoEnd(r, a + b, g') == EchoEnd(r, b, g) + |a|
            && last <= g'.start
            && Piece(r, a + b, last, g') == Left(a, last) + Piece(r, b, Past(a, last), g)
  {
    assert (a + b)[g.start + |a|..g.end + |a|] == b[g.start..g.end];
    assert (a + b)[g.end + |a|..] == b[g.end..];
    assert (a + b)[last..g.start + |a|] == Left(a, last) + b[Past(a, last)..g.start];
  }

  lemma {:induction false} WriteCons(r: Rule, text: bytes, g: Group, rest: seq<Group>, last: nat)
    requires g.start <= g.end <= |text| && Within(rest, |text|) && last <= |text|
    ensures Within([g] + rest, |text|)
    ensures g.start < last ==> Write(r, text, [g] + rest, last) == Write(r, text, rest, last)
    ensures last <= g.start ==>
              Write(r, text, [g] + rest, last) == Piece(r, text, last, g) + Write(r, text, rest, EchoEnd(r, text, g))
  {
    assert ([g] + rest)[1..] == rest;
  }

  lemma RestInSuffix(a: bytes, b: bytes, last: nat)
    requires last <= |a + b|
    ensures (a + b)[last..] == Left(a, last) + b[Past(a, last)..]
  {}

  lemma WriteNil(r: Rule, text: bytes, last: nat)
    requires last <= |text|
    ensures Write(r, text, [], last) == text[last..]
  {}

  lemma {:induction false} WriteInSuffix(r: Rule, a: bytes, b: bytes, groups: seq<Group>, last: nat)
    requires Within(groups, |b|) && last <= |a + b|
    requires Within(ShiftAll(groups, |a|), |a + b|)
    ensures Write(r, a + b, ShiftAll(groups, |a|), last) == Left(a, last) + Write(r, b, groups, Past(a, last))
  {
    hide Piece, EchoEnd, Write;
    RestInSuffix(a, b, last);
    if groups == [] {
      WriteNil(r, a + b, last);
      WriteNil(r, b, Past(a, last));
    } else {
      var g, rest := groups[0], groups[1..];
      assert groups == [g] + rest;
      ShiftStaysWithin(rest, |b|, |a|);
      WriteCons(r, a + b, Group(g.start + |a|, g.end + |a|), ShiftAll(rest, |a|), last);
      WriteCons(r, b, g, rest, Past(a, last));
      if g.start < Past(a, last) {
        WriteInSuffix(r, a, b, rest, last);
      } else {
        GroupInSuffix(r, a, b, last, g);
        WriteInSuffix(r, a, b, rest, EchoEnd(r, b, g) + |a|);
        var tail := Write(r, b, rest, EchoEnd(r, b, g));
        ConcatNil(tail);
        ConcatAssoc(Left(a, last), Piece(r, b, Past(a, last), g), tail);
      }
    }
  }

  /** No echo of a group of a reaches beyond what of a lies before its last byte, whatever b is. */
  ghost predicate EchoStays(r: Rule, a: bytes, b: bytes) {
    forall g: Group | g.start <= g.end < |a| ::
      EchoEnd(r, a + b, g) == EchoEnd(r, a, g) && EchoEnd(r, a, g) < |a|
  }

  lemma GroupInPrefix(r: Rule, a: bytes, b: bytes, last: nat, g: Group)
    requires EchoStays(r, a, b) && last <= g.start <= g.end < |a|
    ensures EchoEnd(r, a + b, g) == EchoEnd(r, a, g) < |a|
    ensures Piece(r, a + b, last, g) == Piece(r, a, last, g)
  {
    assert (a + b)[g.start..g.end] == a[g.start..g.end];
    assert (a + b)[last..g.start] == a[last..g.start];
  }

  lemma {:induction false} WriteInPrefix(r: Rule, a: bytes, b: bytes, ga: seq<Group>, gb: seq<Group>, gb': seq<Group>, last: nat)
    requires EchoStays(r, a, b) && last < |a| && Within(ga, |a| - 1) && Within(gb, |b|)
    requires Within(ga + gb', |a + b|) && gb' == ShiftAll(gb, |a|)
    ensures Write(r, a + b, ga + gb', last) == Write(r, a, ga, last) + Write(r, b, gb, 0)
  {
    hide Piece, EchoEnd, EchoStays, ShiftAll;
    if ga == [] {
      ConcatNil(gb');
      WriteInSuffix(r, a, b, gb, last);
      return;
    }
    var g, rest := ga[0], ga[1..] + gb';
    ConsConcat(ga, gb');
    WriteCons(r, a + b, g, rest, last);
    if g.start < last {
      WriteInPrefix(r, a, b, ga[1..], gb, gb', last);
    } else {
      GroupInPrefix(r, a, b, last, g);
      WriteInPrefix(r, a, b, ga[1..], gb, gb', EchoEnd(r, a, g));
      ConcatAssoc(Piece(r, a, last, g), Write(r, a, ga[1..], EchoEnd(r, a, g)), Write(r, b, gb, 0));
    }
  }

  predicate EndsAs(s: bytes, a: bytes) {
    s != [] && a != [] && s[|s| - 1] == a[|a| - 1]
  }

  lemma EndsAfter(s: bytes, w: bytes, a: bytes)
    requires EndsAs(w, a)
    ensures EndsAs(s + w, a)
  {}

  /** The last byte of a is copied. */
  lemma {:induction false} WriteKeepsEnd(r: Rule, a: bytes, ga: seq<Group>, last: nat)
    requires EchoStays(r, a, []) && last < |a| && Within(ga, |a| - 1)
    ensures EndsAs(Write(r, a, ga, last), a)
  {
    if ga != [] {
      var g, rest := ga[0], ga[1..];
      if g.start < last {
        WriteKeepsEnd(r, a, rest, last);
      } else {
        GroupInPrefix(r, a, [], last, g);
        WriteKeepsEnd(r, a, rest, EchoEnd(r, a, g));
        EndsAfter(Piece(r, a, last, g), Write(r, a, rest, EchoEnd(r, a, g)), a);
      }
    }
  }
}

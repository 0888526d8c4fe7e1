/**
 The Verhoeff checksum that gates Aadhaar numbers (internal/redact/verhoeff.go), for digit strings
 of any length.
 */
module Verhoeff {
  import opened Bytes

  const MULTIPLICATION: seq<seq<nat>> := [
    [0, 1, 2, 3, 4, 5, 6, 7, 8, 9],
    [1, 2, 3, 4, 0, 6, 7, 8, 9, 5],
    [2, 3, 4, 0, 1, 7, 8, 9, 5, 6],
    [3, 4, 0, 1, 2, 8, 9, 5, 6, 7],
    [4, 0, 1, 2, 3, 9, 5, 6, 7, 8],
    [5, 9, 8, 7, 6, 0, 4, 3, 2, 1],
    [6, 5, 9, 8, 7, 1, 0, 4, 3, 2],
    [7, 6, 5, 9, 8, 2, 1, 0, 4, 3],
    [8, 7, 6, 5, 9, 3, 2, 1, 0, 4],
    [9, 8, 7, 6, 5, 4, 3, 2, 1, 0]]

  const PERMUTATION: seq<seq<nat>> := [
    [0, 1, 2, 3, 4, 5, 6, 7, 8, 9],
    [1, 5, 7, 6, 2, 8, 3, 0, 9, 4],
    [5, 8, 0, 3, 7, 9, 6, 1, 4, 2],
    [8, 9, 1, 6, 0, 4, 3, 5, 2, 7],
    [9, 4, 5, 3, 1, 2, 6, 8, 7, 0],
    [4, 2, 8, 6, 5, 7, 3, 9, 0, 1],
    [2, 7, 9, 3, 8, 0, 6, 4, 1, 5],
    [7, 0, 4, 6, 9, 1, 3, 2, 5, 8]]

  type digit = d: nat | d < 10

  function Times(a: digit, b: digit): digit {
    RowsAreDigits();
    MULTIPLICATION[a][b]
  }

  function Permuted(i: nat, d: digit): digit {
    RowsAreDigits();
    PERMUTATION[i % 8][d]
  }

  lemma RowsAreDigits()
    ensures forall r | 0 <= r < 10 :: |MULTIPLICATION[r]| == 10 && forall k | 0 <= k < 10 :: MULTIPLICATION[r][k] < 10
    ensures forall r | 0 <= r < 8 :: |PERMUTATION[r]| == 10 && forall k | 0 <= k < 10 :: PERMUTATION[r][k] < 10
  {
    forall r | 0 <= r < 10
      ensures |MULTIPLICATION[r]| == 10 && forall k | 0 <= k < 10 :: MULTIPLICATION[r][k] < 10
    {
      RowShape(MULTIPLICATION[r]);
    }
    forall r | 0 <= r < 8
      ensures |PERMUTATION[r]| == 10 && forall k | 0 <= k < 10 :: PERMUTATION[r][k] < 10
    {
      RowShape(PERMUTATION[r]);
    }
  }

  lemma RowShape(row: seq<nat>)
    requires row in PERMUTATION || row in MULTIPLICATION
    ensures |row| == 10 && forall k | 0 <= k < 10 :: row[k] < 10
  {}

  // ------------------------------------------------------------------ the tables

  /** The symmetries of a pentagon: 0 to 4 are rotations, 5 to 9 reflections. */
  function Dihedral(a: digit, b: digit): digit {
    if a < 5 then (if b < 5 then Round(a + b) else 5 + Round(a + b - 5))
    else if b < 5 then 5 + Round(a - 5 - b)
    else Round(a - b)
  }

  /** Remainder by five, for numbers that are off by at most one round. */
  function Round(x: int): nat
    requires -5 < x < 10
  {
    if x < 0 then x + 5 else if x < 5 then x else x - 5
  }

  lemma RotationRows(a: digit, b: digit)
    requires a < 5
    ensures |MULTIPLICATION[a]| == 10 && MULTIPLICATION[a][b] == Dihedral(a, b)
  {}

  lemma ReflectionRows(a: digit, b: digit)
    requires a >= 5
    ensures |MULTIPLICATION[a]| == 10 && MULTIPLICATION[a][b] == Dihedral(a, b)
  {}

  lemma TableIsDihedral(a: digit, b: digit)
    ensures Times(a, b) == Dihedral(a, b)
  {
    hide Dihedral;
    if a < 5 {
      RotationRows(a, b);
    } else {
      ReflectionRows(a, b);
    }
  }

  lemma Associative(a: digit, b: digit, c: digit)
    ensures Times(Times(a, b), c) == Times(a, Times(b, c))
  {
    hide Times;
    TableIsDihedral(a, b);
    TableIsDihedral(b, c);
    TableIsDihedral(Dihedral(a, b), c);
    TableIsDihedral(a, Dihedral(b, c));
    DihedralAssociative(a, b, c);
  }

  lemma DihedralAssociative(a: digit, b: digit, c: digit)
    ensures Dihedral(Dihedral(a, b), c) == Dihedral(a, Dihedral(b, c))
  {
    if a < 5 {
      AfterRotation(a, b, c);
    } else {
      AfterReflection(a, b, c);
    }
  }

  lemma AfterRotation(a: digit, b: digit, c: digit)
    requires a < 5
    ensures Dihedral(Dihedral(a, b), c) == Dihedral(a, Dihedral(b, c))
  {}

  lemma AfterReflection(a: digit, b: digit, c: digit)
    requires a >= 5
    ensures Dihedral(Dihedral(a, b), c) == Dihedral(a, Dihedral(b, c))
  {}

  lemma Cancels(a: digit, b: digit, c: digit)
    ensures Times(a, b) == Times(a, c) ==> b == c
    ensures Times(b, a) == Times(c, a) ==> b == c
  {
    hide Times;
    TableIsDihedral(a, b);
    TableIsDihedral(a, c);
    TableIsDihedral(b, a);
    TableIsDihedral(c, a);
    DihedralCancels(a, b, c);
  }

  lemma DihedralCancels(a: digit, b: digit, c: digit)
    ensures Dihedral(a, b) == Dihedral(a, c) ==> b == c
    ensures Dihedral(b, a) == Dihedral(c, a) ==> b == c
  {}

  function Inverse(a: digit): digit { if a < 5 then (5 - a) % 5 else a }

  lemma InverseCancels(a: digit, b: digit)
    ensures Times(b, a) == 0 <==> b == Inverse(a)
  {
    TableIsDihedral(b, a);
  }

  lemma PermutedDiffers(i: nat, a: digit, b: digit)
    requires a != b
    ensures Permuted(i, a) != Permuted(i, b)
  {
    RowsAreDigits();
    if i % 8 < 4 {
      EarlyRowsDiffer(i % 8, a, b);
    } else {
      LateRowsDiffer(i % 8, a, b);
    }
  }

  lemma EarlyRowsDiffer(r: nat, a: digit, b: digit)
    requires r < 4 && a != b
    ensures |PERMUTATION[r]| == 10 && PERMUTATION[r][a] != PERMUTATION[r][b]
  {}

  lemma LateRowsDiffer(r: nat, a: digit, b: digit)
    requires 4 <= r < 8 && a != b
    ensures |PERMUTATION[r]| == 10 && PERMUTATION[r][a] != PERMUTATION[r][b]
  {}

  /** Each row of the permutation table is the first one applied once more; after eight the rows
      start again. */
  lemma NextRow(i: nat, d: digit)
    ensures Permuted(i + 1, d) == Permuted(1, Permuted(i, d))
  {
    var r := i % 8;
    assert (i + 1) % 8 == if r == 7 then 0 else r + 1;
    if r < 4 {
      EarlyRows(r, d);
    } else {
      LateRows(r, d);
    }
  }

  lemma EarlyRows(r: nat, d: digit)
    requires r < 4
    ensures |PERMUTATION[r]| == 10 && PERMUTATION[r][d] < 10 && |PERMUTATION[1]| == 10
    ensures PERMUTATION[r + 1] != [] && |PERMUTATION[r + 1]| == 10 && PERMUTATION[r + 1][d] == PERMUTATION[1][PERMUTATION[r][d]]
  {}

  lemma LateRows(r: nat, d: digit)
    requires 4 <= r < 8
    ensures |PERMUTATION[r]| == 10 && PERMUTATION[r][d] < 10 && |PERMUTATION[1]| == 10
    ensures |PERMUTATION[(r + 1) % 8]| == 10 && PERMUTATION[(r + 1) % 8][d] == PERMUTATION[1][PERMUTATION[r][d]]
  {}

  /** The permutation of the scheme, in cycles: 0 1 5 8 9 4 2 7 and 3 6. */
  lemma FirstRowIs()
    ensures Permuted(1, 0) == 1 && Permuted(1, 1) == 5 && Permuted(1, 5) == 8 && Permuted(1, 8) == 9
    ensures Permuted(1, 9) == 4 && Permuted(1, 4) == 2 && Permuted(1, 2) == 7 && Permuted(1, 7) == 0
    ensures Permuted(1, 3) == 6 && Permuted(1, 6) == 3
  {}

  /** The property that the first row is chosen for. */
  lemma FirstRowTellsOrder(a: digit, b: digit)
    requires a != b
    ensures Times(a, Permuted(1, b)) != Times(b, Permuted(1, a))
  {}

  // ------------------------------------------------------------------ the checksum

  predicate AllDigits(s: bytes) {
    forall k | 0 <= k < |s| :: IsDigit(s[k])
  }

  function DigitAt(s: bytes, k: nat): digit
    requires AllDigits(s) && k < |s|
  {
    s[k] as int - '0' as int
  }

  /** The accumulator after the last n digits, when it is c before digit number i from the right. */
  function Fold(s: bytes, i: nat, n: nat, c: digit): digit
    requires AllDigits(s) && i <= n <= |s|
  {
    if n == i then c else Times(Fold(s, i, n - 1, c), Permuted(n - 1, DigitAt(s, |s| - n)))
  }

  predicate Checks(s: bytes) {
    AllDigits(s) && Fold(s, 0, |s|, 0) == 0
  }

  method VerhoeffValid(digits: bytes) returns (valid: bool)
    ensures valid <==> Checks(digits)
  {
    var c: digit, n := 0, |digits|;
    for i := 0 to n
      invariant forall k | n - i <= k < n :: IsDigit(digits[k])
      invariant c == FoldEnd(digits, i)
    {
      var ch := digits[n - 1 - i];
      if ch < '0' || ch > '9' {
        return false;
      }
      var d: digit := ch as int - '0' as int;
      FoldEndStep(digits, i);
      c := Times(c, Permuted(i, d));
    }
    assert digits[n - n..] == digits;
    return c == 0;
  }

  /** The accumulator over the last n bytes, which are digits. */
  function FoldEnd(s: bytes, n: nat): digit
    requires n <= |s| && forall k | |s| - n <= k < |s| :: IsDigit(s[k])
  {
    assert AllDigits(s[|s| - n..]);
    Fold(s[|s| - n..], 0, n, 0)
  }

  lemma FoldEndStep(s: bytes, n: nat)
    requires n < |s| && forall k | |s| - n - 1 <= k < |s| :: IsDigit(s[k])
    ensures FoldEnd(s, n + 1) == Times(FoldEnd(s, n), Permuted(n, s[|s| - 1 - n] as int - '0' as int))
  {
    var a, b := s[|s| - n - 1..], s[|s| - n..];
    hide Times, Permuted;
    SameEnd(a, b, 0, n, 0);
  }

  function FromRight(s: bytes, k: nat): byte
    requires k < |s|
  {
    s[|s| - 1 - k]
  }

  /** Only the digits between i and n from the right matter. */
  lemma {:induction false} SameEnd(a: bytes, b: bytes, i: nat, n: nat, c: digit)
    requires AllDigits(a) && AllDigits(b) && i <= n <= |a| && n <= |b|
    requires forall k | i <= k < n :: FromRight(a, k) == FromRight(b, k)
    ensures Fold(a, i, n, c) == Fold(b, i, n, c)
  {
    hide Times, Permuted;
    if i < n {
      SameEnd(a, b, i, n - 1, c);
      assert FromRight(a, n - 1) == FromRight(b, n - 1);
    }
  }

  lemma {:induction false} FoldJoins(s: bytes, i: nat, m: nat, n: nat, c: digit)
    requires AllDigits(s) && i <= m <= n <= |s|
    ensures Fold(s, i, n, c) == Fold(s, m, n, Fold(s, i, m, c))
  {
    hide Times, Permuted;
    if m < n {
      FoldJoins(s, i, m, n - 1, c);
    }
  }

  /** A difference in the accumulator never goes away. */
  lemma {:induction false} FoldKeepsDifference(s: bytes, i: nat, n: nat, c: digit, d: digit)
    requires AllDigits(s) && i <= n <= |s| && c != d
    ensures Fold(s, i, n, c) != Fold(s, i, n, d)
  {
    hide Times, Permuted;
    if i < n {
      FoldKeepsDifference(s, i, n - 1, c, d);
      Cancels(Permuted(n - 1, DigitAt(s, |s| - n)), Fold(s, i, n - 1, c), Fold(s, i, n - 1, d));
    }
  }

  /** A valid string with one digit changed is not valid. */
  lemma ChangeIsDetected(s: bytes, k: nat, d: byte)
    requires Checks(s) && k < |s| && IsDigit(d) && d != s[k]
    ensures !Checks(s[k := d])
  {
    hide Times, Permuted;
    var t, n, i := s[k := d], |s|, |s| - 1 - k;
    SameEnd(s, t, 0, i, 0);
    var c := Fold(s, 0, i, 0);
    PermutedDiffers(i, DigitAt(s, k), DigitAt(t, k));
    Cancels(c, Permuted(i, DigitAt(s, k)), Permuted(i, DigitAt(t, k)));
    FoldJoins(s, 0, i + 1, n, 0);
    FoldJoins(t, 0, i + 1, n, 0);
    SameEnd(s, t, i + 1, n, Fold(t, 0, i + 1, 0));
    FoldKeepsDifference(s, i + 1, n, Fold(s, 0, i + 1, 0), Fold(t, 0, i + 1, 0));
  }

  /** Two neighbours swapped give different accumulators. */
  lemma SwapDiffers(c: digit, i: nat, a: digit, b: digit)
    requires a != b
    ensures Times(Times(c, Permuted(i, a)), Permuted(i + 1, b)) != Times(Times(c, Permuted(i, b)), Permuted(i + 1, a))
  {
    var x, y := Permuted(i, a), Permuted(i, b);
    NextRow(i, a);
    NextRow(i, b);
    PermutedDiffers(i, a, b);
    FirstRowTellsOrder(x, y);
    Associative(c, x, Permuted(1, y));
    Associative(c, y, Permuted(1, x));
    Cancels(c, Times(x, Permuted(1, y)), Times(y, Permuted(1, x)));
    hide *;
  }

  lemma SwapChangesFold(s: bytes, t: bytes, k: nat)
    requires AllDigits(s) && k + 1 < |s| && s[k] != s[k + 1] && t == s[k := s[k + 1]][k + 1 := s[k]]
    ensures AllDigits(t) && Fold(s, 0, |s| - k, 0) != Fold(t, 0, |s| - k, 0)
  {
    hide Times, Permuted, Fold;
    var i := |s| - 2 - k;
    SameEnd(s, t, 0, i, 0);
    SwapDiffers(Fold(s, 0, i, 0), i, DigitAt(s, k + 1), DigitAt(s, k));
    FoldTwice(s, i, 0);
    FoldTwice(t, i, 0);
  }

  /** A valid string with two different neighbours swapped is not valid. */
  lemma SwapIsDetected(s: bytes, k: nat)
    requires Checks(s) && k + 1 < |s| && s[k] != s[k + 1]
    ensures !Checks(s[k := s[k + 1]][k + 1 := s[k]])
  {
    hide Times, Permuted, Fold;
    var t, n, i := s[k := s[k + 1]][k + 1 := s[k]], |s|, |s| - k;
    SwapChangesFold(s, t, k);
    FoldJoins(s, 0, i, n, 0);
    FoldJoins(t, 0, i, n, 0);
    SameEnd(s, t, i, n, Fold(t, 0, i, 0));
    FoldKeepsDifference(s, i, n, Fold(s, 0, i, 0), Fold(t, 0, i, 0));
  }

  lemma FoldTwice(s: bytes, i: nat, c: digit)
    requires AllDigits(s) && i + 2 <= |s|
    ensures Fold(s, 0, i + 2, c)
         == Times(Times(Fold(s, 0, i, c), Permuted(i, DigitAt(s, |s| - 1 - i))), Permuted(i + 1, DigitAt(s, |s| - 2 - i)))
  {
    hide Times, Permuted;
    assert Fold(s, 0, i + 1, c) == Times(Fold(s, 0, i, c), Permuted(i, DigitAt(s, |s| - 1 - i)));
  }

  // ------------------------------------------------------------------ the check digit

  lemma {:induction false} FoldFrom(s: bytes, i: nat, n: nat, c: digit)
    requires AllDigits(s) && i <= n <= |s|
    ensures Fold(s, i, n, c) == Times(c, Fold(s, i, n, 0))
  {
    hide Times, Permuted;
    if i == n {
      TableIsDihedral(c, 0);
    } else {
      FoldFrom(s, i, n - 1, c);
      Associative(c, Fold(s, i, n - 1, 0), Permuted(n - 1, DigitAt(s, |s| - n)));
    }
  }

  function CheckDigit(body: bytes): byte
    requires AllDigits(body)
  {
    var padded := body + "0";
    ('0' as int + Inverse(Fold(padded, 1, |padded|, 0))) as char
  }

  /** Every body has exactly one valid check digit. */
  lemma CheckDigitIsUnique(body: bytes, c: byte)
    requires AllDigits(body)
    ensures Checks(body + [c]) <==> c == CheckDigit(body)
  {
    hide Times, Permuted, Fold, Inverse;
    if IsDigit(c) {
      var s, padded := body + [c], body + "0";
      var n := |s|;
      SameEnd(s, padded, 1, n, 0);
      FoldJoins(s, 0, 1, n, 0);
      var d := DigitAt(s, n - 1);
      FirstDigit(s, d);
      FoldFrom(s, 1, n, d);
      InverseCancels(Fold(s, 1, n, 0), d);
    } else {
      assert (body + [c])[|body|] == c;
    }
  }

  lemma {:induction false} FirstDigit(s: bytes, d: digit)
    requires AllDigits(s) && s != [] && d == DigitAt(s, |s| - 1)
    ensures Fold(s, 0, 1, 0) == d
  {
    FirstRowIsIdentity(d);
    TableIsDihedral(0, d);
    hide Times, Permuted;
    assert Fold(s, 0, 0, 0) == 0;
  }

  lemma FirstRowIsIdentity(d: digit)
    ensures Permuted(0, d) == d
  {}

  /** The number of the fuzz test's seed, and the one beside it. */
  lemma KnownNumber()
    ensures Checks("234123412346") && !Checks("234123412347")
  {
    var s: bytes := "234123412346";
    KnownEnd(s);
    KnownFront(s);
    ChangeIsDetected(s, 11, '7');
    assert s[11 := '7'] == "234123412347";
  }

  lemma OneStep(s: bytes, n: nat, c: digit, d: digit, x: digit, next: digit)
    requires AllDigits(s) && n < |s| && DigitAt(s, |s| - n - 1) == d && Fold(s, 0, n, 0) == c
    requires Permuted(n, d) == x && Times(c, x) == next
    ensures Fold(s, 0, n + 1, 0) == next
  {
    hide Times, Permuted;
  }

  lemma KnownEnd(s: bytes)
    requires s == "234123412346"
    ensures AllDigits(s)
    ensures Fold(s, 0, 6, 0) == 1
  {
    assert Fold(s, 0, 0, 0) == 0;
    hide Fold;
    OneStep(s, 0, 0, 6, 6, 6);
    OneStep(s, 1, 6, 4, 2, 9);
    OneStep(s, 2, 9, 3, 3, 6);
    OneStep(s, 3, 6, 2, 1, 5);
    OneStep(s, 4, 5, 1, 4, 6);
    OneStep(s, 5, 6, 4, 5, 1);
  }

  lemma KnownFront(s: bytes)
    requires s == "234123412346" && AllDigits(s) && Fold(s, 0, 6, 0) == 1
    ensures Fold(s, 0, 12, 0) == 0
  {
    hide Fold;
    OneStep(s, 6, 1, 3, 3, 4);
    OneStep(s, 7, 4, 2, 4, 3);
    OneStep(s, 8, 3, 1, 1, 4);
    OneStep(s, 9, 4, 4, 2, 1);
    OneStep(s, 10, 1, 3, 3, 4);
    OneStep(s, 11, 4, 2, 1, 0);
  }
}

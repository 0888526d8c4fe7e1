/**
 Restoring a text piece by piece (internal/redact/engine.go): when every replacement stands between
 boundary bytes of the text, or at its ends, then it is enough that each replacement comes back by itself
 and that each stretch between them stays as it is.
 */
module Fences {
  import opened Bytes
  import opened Restore
  import opened Splicing
  import opened TokenShapes
  import opened StreamDetokenize
  import opened TokenTexts
  import AllShapes
  import SingleToken
  import Unchanged

  /** Restoring may be done on both sides of the cut behind x. */
  ghost predicate CanCut(l: Lookups, x: bytes, y: bytes) {
    x == [] || (Closed(x) && Uncrossed(Structured(l, x), Structured(l, y)))
  }

  /** From last on, which is the start of the text or a position behind a fence: the text in front of each
      replacement stays as it is and ends with a boundary byte, or is empty; the replacement and the
      boundary byte behind it come back; and no match of a spaced shape goes over such a byte. */
  ghost predicate Fenced(l: Lookups, text: bytes, edits: seq<Edit>, last: nat)
    requires Ordered(edits, last, |text|)
    decreases |edits|
  {
    OrderedBound(edits, last, |text|);
    if edits == [] then Detokenized(l, text[last..]) == text[last..]
    else
      var e, x := edits[0], text[last..edits[0].start];
      && Detokenized(l, x) == x && CanCut(l, x, e.text + Splice(text, edits[1..], e.end))
      && if e.end == |text| then edits[1..] == [] && Detokenized(l, e.text) == text[e.start..]
         else
           && IsBoundary(text[e.end]) && Ordered(edits[1..], e.end + 1, |text|)
           && Detokenized(l, e.text + [text[e.end]]) == text[e.start..e.end + 1]
           && CanCut(l, e.text + [text[e.end]], Splice(text, edits[1..], e.end + 1))
           && Fenced(l, text, edits[1..], e.end + 1)
  }

  lemma DetokenizedSplits(l: Lookups, x: bytes, y: bytes)
    requires SuffixesFree(l) && CanCut(l, x, y)
    ensures Detokenized(l, x + y) == Detokenized(l, x) + Detokenized(l, y)
  {
    hide Uncrossed, Structured, Full, Detokenize, SuffixesFree, Detokenized, Closed;
    if x == [] {
      NothingDetokenized(l);
      DetokenizedIs(l, []);
      ConcatNil(y);
      ConcatNil(Detokenized(l, y));
    } else {
      FullSplits(l, x, y);
      DetokenizedIs(l, x + y);
      DetokenizedIs(l, x);
      DetokenizedIs(l, y);
    }
  }

  lemma NextByte(text: bytes, edits: seq<Edit>, last: nat)
    requires last < |text| && Ordered(edits, last, |text|) && Ordered(edits, last + 1, |text|)
    ensures Splice(text, edits, last) == [text[last]] + Splice(text, edits, last + 1)
  {
    hide Splice, Ordered;
    SpliceParts(text, edits, last);
    SpliceParts(text, edits, last + 1);
    if edits == [] {
      assert text[last..] == [text[last]] + text[last + 1..];
    } else {
      assert text[last..edits[0].start] == [text[last]] + text[last + 1..edits[0].start];
      ConcatAssoc([text[last]], text[last + 1..edits[0].start], edits[0].text + Splice(text, edits[1..], edits[0].end));
    }
  }

  /** A fenced text comes back. */
  lemma {:induction false} FencedComesBack(l: Lookups, text: bytes, edits: seq<Edit>, last: nat)
    requires SuffixesFree(l) && Ordered(edits, last, |text|) && Fenced(l, text, edits, last)
    ensures last <= |text| && Detokenized(l, Splice(text, edits, last)) == text[last..]
    decreases |edits|
  {
    hide SuffixesFree, Detokenized, CanCut, IsBoundary, Splice;
    OrderedBound(edits, last, |text|);
    SpliceParts(text, edits, last);
    if edits != [] {
      var e, x := edits[0], text[last..edits[0].start];
      var more := Splice(text, edits[1..], e.end);
      DetokenizedSplits(l, x, e.text + more);
      if e.end == |text| {
        SpliceParts(text, edits[1..], e.end);
        LastReplacement(text, e, last, more);
      } else {
        NextByte(text, edits[1..], e.end);
        FencedComesBack(l, text, edits[1..], e.end + 1);
        var y, rest := e.text + [text[e.end]], Splice(text, edits[1..], e.end + 1);
        ConcatAssoc(e.text, [text[e.end]], rest);
        DetokenizedSplits(l, y, rest);
        InThree(text, last, e.start, e.end + 1);
      }
    }
  }

  lemma SpliceParts(text: bytes, edits: seq<Edit>, last: nat)
    requires Ordered(edits, last, |text|)
    ensures last <= |text| && (edits == [] ==> Splice(text, edits, last) == text[last..])
    ensures edits != [] ==>
              && last <= edits[0].start <= edits[0].end <= |text| && Ordered(edits[1..], edits[0].end, |text|)
              && Splice(text, edits, last)
                 == text[last..edits[0].start] + (edits[0].text + Splice(text, edits[1..], edits[0].end))
  {
    OrderedBound(edits, last, |text|);
    if edits != [] {
      ConcatAssoc(text[last..edits[0].start], edits[0].text, Splice(text, edits[1..], edits[0].end));
    }
  }

  lemma LastReplacement(text: bytes, e: Edit, last: nat, more: bytes)
    requires last <= e.start <= e.end == |text|
    ensures text[last..] == text[last..e.start] + text[e.start..]
    ensures more == [] ==> e.text + more == e.text
  {}

  lemma InThree(text: bytes, a: nat, b: nat, c: nat)
    requires a <= b <= c <= |text|
    ensures text[a..] == text[a..b] + (text[b..c] + text[c..])
  {}

  /** In a text in which no shape begins anywhere, every stretch stays as it is. */
  lemma StretchStays(l: Lookups, text: bytes, i: nat, j: nat)
    requires PassesAbsent(Full(l), text) && i <= j <= |text|
    ensures Detokenized(l, text[i..j]) == text[i..j]
  {
    hide *;
    AllShapes.FullIsSteady(l);
    DetokenizedIs(l, text[i..j]);
    PassesAbsentInStretch(Full(l), text, i, j);
    AbsentFindNothing(Full(l), text[i..j]);
    SingleToken.NothingDetokenized(Full(l), text[i..j]);
  }

  // ------------------------------------------------------------------ one replacement between its fences

  /** A piece that shows one token comes back when the token with its suffix stands for what was there:
      any domain, address or credential token, with the text that its format writes in front of it. */
  lemma PieceComesBack(l: Lookups, n: nat, before: bytes, token: bytes, tail: bytes)
    requires Shown(Full(l), n, before, token, tail)
    ensures n < |Full(l)|
    ensures var r := Full(l)[n].rule;
            Detokenized(l, before + token + tail) == before + r.repl(token) + tail[|EchoIn(r, token, tail)|..]
  {
    ShownParts(Full(l), n, before, token, tail);
    hide *;
    DetokenizedIs(l, before + token + tail);
    ShownIsRestored(Full(l), n, before, token, tail);
  }

  /** In particular a credential in front of its fence. */
  lemma CredentialComesBack(l: Lookups, token: bytes, fence: bytes)
    requires Shown(Full(l), 5, [], token, fence) && token in l.token2real
    ensures Detokenized(l, token + fence) == l.token2real[token] + fence
  {
    hide *;
    PieceComesBack(l, 5, [], token, fence);
    Unchanged.LastOfFull(l, token, fence);
    ConcatNil(token);
    ConcatNil(l.token2real[token]);
    assert fence[0..] == fence;
  }
}

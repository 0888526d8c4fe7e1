/**
 The set of wire spans kept as a trie of nodes that are changed in place
 (internal/tokenstore/spans.go), and the two scanning queries over it.
 */
module SpanTries {
  import opened Bytes

  /** A byte range [start, end) within some text. */
  datatype Span = Span(start: nat, end: nat)

  class SpanNode {
    var children: map<byte, SpanNode>
    var isEnd: bool
    ghost const path: bytes  // the bytes that lead here from the root

    constructor (ghost path: bytes)
      ensures children == map[] && !isEnd && this.path == path
    {
      children, isEnd, this.path := map[], false, path;
    }
  }

  /** Some span is longer than p and begins with it. */
  ghost predicate LeadsOn(spans: set<bytes>, p: bytes) {
    exists s :: s in spans && |p| < |s| && p <= s
  }

  /** The suffix of buf that starts at i is a non-empty proper prefix of some span: more of that
      span may still arrive. */
  ghost predicate Growing(spans: set<bytes>, buf: bytes, i: nat) {
    i < |buf| && LeadsOn(spans, buf[i..])
  }

  /** The least growing position of buf, or its length. */
  ghost predicate IsFlushPoint(spans: set<bytes>, buf: bytes, cut: nat) {
    && cut <= |buf|
    && (cut < |buf| ==> Growing(spans, buf, cut))
    && NoneGrowing(spans, buf, cut)
  }

  ghost predicate NoneGrowing(spans: set<bytes>, buf: bytes, cut: nat) {
    forall i: nat | i < cut :: !Growing(spans, buf, i)
  }

  lemma NoneGrowingStep(spans: set<bytes>, buf: bytes, cut: nat)
    requires NoneGrowing(spans, buf, cut) && !Growing(spans, buf, cut)
    ensures NoneGrowing(spans, buf, cut + 1)
  {}

  lemma FlushPointIsUnique(spans: set<bytes>, buf: bytes, cut: nat, cut': nat)
    requires IsFlushPoint(spans, buf, cut) && IsFlushPoint(spans, buf, cut')
    ensures cut == cut'
  {}

  /** Behind the flush point lies less than one span: what the trie holds back is bounded. */
  lemma HeldBySpan(spans: set<bytes>, buf: bytes, cut: nat, maxLen: nat)
    requires IsFlushPoint(spans, buf, cut) && forall s | s in spans :: |s| <= maxLen
    ensures |buf| - cut <= if maxLen == 0 then 0 else maxLen - 1
  {}

  /** No occurrence that is still arriving starts before the flush point. */
  lemma FlushPointSparesArriving(spans: set<bytes>, buf: bytes, more: bytes, cut: nat, r: Span)
    requires IsFlushPoint(spans, buf, cut)
    requires Occurs(spans, buf + more, r) && r.start < |buf| < r.end
    ensures cut <= r.start
  {
    var s := (buf + more)[r.start..r.end];
    assert buf[r.start..] == s[..|buf| - r.start];
    assert |buf[r.start..]| < |s| && buf[r.start..] <= s;
    assert Growing(spans, buf, r.start);
  }

  /** Span r of text is a complete occurrence of a registered span. */
  ghost predicate Occurs(spans: set<bytes>, text: bytes, r: Span) {
    r.start < r.end <= |text| && text[r.start..r.end] in spans
  }

  ghost predicate Before(a: Span, b: Span) {
    a.start < b.start || (a.start == b.start && a.end < b.end)
  }

  /** out lists every occurrence that starts in from..to, ordered by start and then by end. */
  ghost predicate Lists(spans: set<bytes>, text: bytes, from: nat, to: nat, out: seq<Span>) {
    && (forall r :: r in out <==> Occurs(spans, text, r) && from <= r.start < to)
    && (forall a, b | 0 <= a < b < |out| :: Before(out[a], out[b]))
  }

  lemma ListsJoin(spans: set<bytes>, text: bytes, i: nat, out: seq<Span>, found: seq<Span>)
    requires Lists(spans, text, 0, i, out) && Lists(spans, text, i, i + 1, found)
    ensures Lists(spans, text, 0, i + 1, out + found)
  {
    forall a, b | 0 <= a < b < |out + found|
      ensures Before((out + found)[a], (out + found)[b])
    {
      if a < |out| <= b {
        assert out[a] in out && found[b - |out|] in found;
      }
    }
  }

  ghost predicate PrefixClosed(paths: set<bytes>) {
    forall p {:trigger HasPrefixes(paths, p)} | p in paths :: HasPrefixes(paths, p)
  }

  ghost predicate HasPrefixes(paths: set<bytes>, p: bytes) {
    forall k | 0 <= k <= |p| :: p[..k] in paths
  }

  lemma PrefixIn(paths: set<bytes>, p: bytes, q: bytes)
    requires PrefixClosed(paths) && q in paths && p <= q
    ensures p in paths
  {
    assert HasPrefixes(paths, q);
    assert p == q[..|p|];
  }

  lemma SnocIsInjective(p: bytes, b: byte, q: bytes, c: byte)
    ensures p + [b] == q + [c] ==> p == q && b == c
  {
    var x, y := p + [b], q + [c];
    assert x[..|x| - 1] == p && x[|x| - 1] == b;
    assert y[..|y| - 1] == q && y[|y| - 1] == c;
  }

  lemma ClosedAfterChild(paths: set<bytes>, path: bytes, b: byte)
    requires PrefixClosed(paths) && path in paths
    ensures PrefixClosed(paths + {path + [b]})
  {
    var q := path + [b];
    forall p | p in paths + {q}
      ensures HasPrefixes(paths + {q}, p)
    {
      if p == q {
        forall k | 0 <= k <= |q|
          ensures q[..k] in paths + {q}
        {
          assert HasPrefixes(paths, path);
          assert if k < |q| then q[..k] == path[..k] else q[..k] == q;
        }
      } else {
        assert HasPrefixes(paths, p);
      }
    }
  }

  /** out lists the occurrences that start at i and end by j. */
  ghost predicate ListsFrom(spans: set<bytes>, text: bytes, i: nat, j: nat, out: seq<Span>) {
    && (forall r :: r in out <==> Occurs(spans, text, r) && r.start == i && r.end <= j)
    && (forall a, b | 0 <= a < b < |out| :: Before(out[a], out[b]))
  }

  lemma NothingListed(spans: set<bytes>, text: bytes, i: nat)
    ensures ListsFrom(spans, text, i, i, [])
  {}

  /** No occurrence at i goes on behind j, so all of them are listed. */
  lemma AllListed(spans: set<bytes>, text: bytes, i: nat, j: nat, out: seq<Span>)
    requires ListsFrom(spans, text, i, j, out)
    requires forall r | Occurs(spans, text, r) && r.start == i :: r.end <= j
    ensures Lists(spans, text, i, i + 1, out)
  {}

  lemma ListsOneMore(spans: set<bytes>, text: bytes, i: nat, j: nat, out: seq<Span>)
    requires i <= j < |text| && ListsFrom(spans, text, i, j, out)
    ensures text[i..j + 1] in spans ==> ListsFrom(spans, text, i, j + 1, out + [Span(i, j + 1)])
    ensures text[i..j + 1] !in spans ==> ListsFrom(spans, text, i, j + 1, out)
  {
    assert Occurs(spans, text, Span(i, j + 1)) <==> text[i..j + 1] in spans;
    forall a | 0 <= a < |out|
      ensures Before(out[a], Span(i, j + 1))
    {
      assert out[a] in out;
    }
  }

  class SpanTrie {
    const root: SpanNode
    var maxLen: nat
    ghost var nodes: map<bytes, SpanNode>  // the node reached by each path from the root
    ghost var spans: set<bytes>            // the registered spans

    /** nodes describes exactly the tree below root, isEnd marks exactly the spans, and every
        prefix of a span has a node. */
    ghost predicate Shape()
      reads this, nodes.Values
    {
      && [] in nodes && nodes[[]] == root && [] !in spans
      && (forall p | p in nodes :: nodes[p].path == p && (nodes[p].isEnd <==> p in spans))
      && (forall p, b {:trigger Linked(p, b)} | p in nodes :: Linked(p, b))
      && PrefixClosed(nodes.Keys) && spans <= nodes.Keys
    }

    ghost predicate Linked(p: bytes, b: byte)
      requires p in nodes
      reads this, nodes.Values
    {
      && (b in nodes[p].children <==> p + [b] in nodes)
      && (p + [b] in nodes ==> nodes[p].children[b] == nodes[p + [b]])
    }

    /** Every node but the root lies on the way to a span; insert keeps this for all nodes
        outside the path that it is building. */
    ghost predicate LeadsToSpan(p: bytes)
      reads this
    {
      exists s :: s in spans && p <= s
    }

    ghost predicate Bounded()
      reads this
    {
      && (forall s | s in spans :: |s| <= maxLen)
      && (maxLen == 0 <==> spans == {})
    }

    ghost predicate Valid()
      reads this, nodes.Values
    {
      && Shape()
      && Bounded()
      && (forall p | p in nodes && p != [] :: LeadsToSpan(p))
    }

    constructor ()
      ensures Valid() && spans == {} && fresh(nodes.Values)
    {
      root := new SpanNode([]);
      maxLen := 0;
      new;
      nodes, spans := map[[] := root], {};
    }

    method Insert(span: bytes) returns (added: bool)
      requires Valid()
      modifies this, nodes.Values
      ensures Valid() && fresh(nodes.Values - old(nodes.Values))
      ensures added <==> span != [] && span !in old(spans)
      ensures spans == if span == [] then old(spans) else old(spans) + {span}
    {
      if span == [] {
        return false;
      }
      var n := BuildPath(span);
      assert Grown(span);
      if n.isEnd {
        GrownIsValid(span);
        return false;
      }
      hide SpanTrie.Shape, SpanTrie.Grown, SpanTrie.Bounded;
      MarkEnd(n, span);
      GrownIsValid(span);
      return true;
    }

    /** Every node but the root and those for the prefixes of span lies on the way to a span. */
    ghost predicate Grown(span: bytes)
      reads this
    {
      forall p | p in nodes && p != [] :: p <= span || LeadsToSpan(p)
    }

    lemma GrownIsValid(span: bytes)
      requires Shape() && Bounded() && Grown(span) && span in spans
      ensures Valid()
    {
      hide SpanTrie.Shape, SpanTrie.Bounded;
      forall p | p in nodes && p != []
        ensures LeadsToSpan(p)
      {
        assert p <= span ==> LeadsToSpan(p);
      }
    }

    method MarkEnd(n: SpanNode, span: bytes)
      requires Shape() && Bounded() && span != [] && span in nodes && nodes[span] == n && Grown(span)
      modifies this`spans, this`maxLen, n`isEnd
      ensures Shape() && Bounded() && Grown(span)
      ensures spans == old(spans) + {span}
    {
      n.isEnd := true;
      spans := spans + {span};
      if |span| > maxLen {
        maxLen := |span|;
      }
      forall p, b | p in nodes
        ensures Linked(p, b)
      {
        assert old(Linked(p, b));
      }
      forall p | p in nodes && p != [] && !(p <= span)
        ensures LeadsToSpan(p)
      {
        var s :| s in old(spans) && p <= s;
        assert s in spans;
      }
    }

    /** insert's walk over span: afterwards the path exists and nothing else has changed. */
    method BuildPath(span: bytes) returns (n: SpanNode)
      requires Shape()
      modifies this`nodes, nodes.Values
      ensures Shape() && fresh(nodes.Values - old(nodes.Values))
      ensures span in nodes && nodes[span] == n
      ensures forall p | p in nodes :: p in old(nodes) || p <= span
    {
      n := root;
      for i := 0 to |span|
        invariant Shape() && fresh(nodes.Values - old(nodes.Values))
        invariant span[..i] in nodes && nodes[span[..i]] == n
        invariant forall p | p in nodes :: p in old(nodes) || p <= span
      {
        assert span[..i + 1] == span[..i] + [span[i]];
        n := Descend(n, span[..i], span[i]);
      }
      assert span[..|span|] == span;
    }

    /** One step of insert's walk: the child of n under b, created when it is missing. */
    method Descend(n: SpanNode, ghost path: bytes, b: byte) returns (child: SpanNode)
      requires Shape() && path in nodes && nodes[path] == n
      modifies this`nodes, n`children
      ensures Shape()
      ensures path + [b] in nodes && nodes[path + [b]] == child
      ensures nodes.Keys == old(nodes.Keys) + {path + [b]}
      ensures fresh(nodes.Values - old(nodes.Values))
    {
      if b in n.children {
        child := n.children[b];
        assert Linked(path, b);
      } else {
        child := Grow(n, path, b);
      }
    }

    method Grow(n: SpanNode, ghost path: bytes, b: byte) returns (child: SpanNode)
      requires Shape() && path in nodes && nodes[path] == n && b !in n.children
      modifies this`nodes, n`children
      ensures Shape() && fresh(child)
      ensures nodes == old(nodes)[path + [b] := child]
    {
      assert path + [b] !in nodes by { assert Linked(path, b); }
      child := new SpanNode(path + [b]);
      n.children := n.children[b := child];
      ClosedAfterChild(nodes.Keys, path, b);
      nodes := nodes[path + [b] := child];
      assert nodes.Keys == old(nodes.Keys) + {path + [b]};
      forall p, c | p in nodes
        ensures Linked(p, c)
      {
        SnocIsInjective(p, c, path, b);
        if p in old(nodes) {
          assert old(Linked(p, c));
        } else if p + [c] in old(nodes) {
          PrefixIn(old(nodes.Keys), p, p + [c]);
        }
      }
    }

    method Contains(span: bytes) returns (found: bool)
      requires Valid()
      ensures found <==> span in spans
    {
      if span == [] {
        return false;
      }
      var n := root;
      for i := 0 to |span|
        invariant span[0..i] in nodes && nodes[span[0..i]] == n
      {
        StepAlong(span, 0, i);
        if span[i] !in n.children {
          assert span[0..] == span;
          return false;
        }
        n := n.children[span[i]];
      }
      assert span[0..|span|] == span;
      return n.isEnd;
    }

    lemma StepDown(p: bytes, b: byte)
      requires Shape() && p in nodes
      ensures b in nodes[p].children <==> p + [b] in nodes
      ensures p + [b] in nodes ==> nodes[p].children[b] == nodes[p + [b]]
    {
      assert Linked(p, b);
    }

    lemma RootIsThere()
      requires Valid()
      ensures Shape() && [] in nodes && nodes[[]] == root
    {}

    lemma EndMarksSpan(p: bytes)
      requires Shape() && p in nodes
      ensures nodes[p].isEnd <==> p in spans
    {}

    /** Along text[i..], the walk goes on after position j iff the next path has a node. */
    lemma StepAlong(text: bytes, i: nat, j: nat)
      requires Shape() && i <= j < |text| && text[i..j] in nodes
      ensures text[j] in nodes[text[i..j]].children <==> text[i..j + 1] in nodes
      ensures text[i..j + 1] in nodes ==> nodes[text[i..j]].children[text[j]] == nodes[text[i..j + 1]]
      ensures text[i..j + 1] !in nodes ==> text[i..] !in nodes
    {
      StepDown(text[i..j], text[j]);
      assert text[i..j + 1] == text[i..j] + [text[j]];
      if text[i..] in nodes {
        PrefixIn(nodes.Keys, text[i..j + 1], text[i..]);
      }
    }

    /** The nodes other than the root are exactly the non-empty prefixes of spans. */
    lemma NodesArePrefixes(p: bytes)
      requires Valid()
      ensures p in nodes <==> p == [] || LeadsToSpan(p)
    {
      if s :| s in spans && p <= s {
        PrefixIn(nodes.Keys, p, s);
      }
    }

    /** A node without children ends every span that passes through it. */
    lemma ChildlessIsComplete(p: bytes)
      requires Valid() && p in nodes
      ensures nodes[p].children != map[] <==> LeadsOn(spans, p)
    {
      if b :| b in nodes[p].children {
        StepDown(p, b);
        NodesArePrefixes(p + [b]);
        var s :| s in spans && p + [b] <= s;
        assert p <= p + [b];
      }
      if s :| s in spans && |p| < |s| && p <= s {
        ChildTowards(p, s);
      }
    }

    lemma ChildTowards(p: bytes, s: bytes)
      requires Shape() && p in nodes && s in spans && |p| < |s| && p <= s
      ensures s[|p|] in nodes[p].children
    {
      PrefixIn(nodes.Keys, p + [s[|p|]], s);
      StepDown(p, s[|p|]);
    }

    lemma OldBytesAreSafe(buf: bytes, start: nat)
      requires Bounded() && (start == 0 || start + maxLen <= |buf|)
      ensures NoneGrowing(spans, buf, start)
    {}

    /** The walk through buf[i..]: it survives iff that suffix leads to a span. */
    method Walk(buf: bytes, i: nat) returns (matched: bool, node: SpanNode)
      requires Valid() && i <= |buf|
      ensures matched <==> buf[i..] in nodes
      ensures matched ==> nodes[buf[i..]] == node
    {
      hide SpanTrie.Valid, SpanTrie.Shape;
      RootIsThere();
      node, matched := root, true;
      assert buf[i..i] == [];
      for j := i to |buf|
        invariant matched && buf[i..j] in nodes && nodes[buf[i..j]] == node
      {
        StepAlong(buf, i, j);
        if buf[j] !in node.children {
          return false, node;
        }
        node := node.children[buf[j]];
      }
      assert buf[i..|buf|] == buf[i..];
    }

    /** The largest cut of buf with no partial span behind it. */
    method SafeFlushPoint(buf: bytes) returns (cut: nat)
      requires Valid()
      ensures IsFlushPoint(spans, buf, cut)
    {
      var n := |buf|;
      if maxLen == 0 {
        OldBytesAreSafe(buf, n);
        return n;
      }
      var start := if n > maxLen then n - maxLen else 0;
      OldBytesAreSafe(buf, start);
      cut := start;
      while cut < n
        invariant start <= cut <= n && NoneGrowing(spans, buf, cut)
      {
        var growing := GrowingAt(buf, cut);
        if growing {
          return;
        }
        NoneGrowingStep(spans, buf, cut);
        cut := cut + 1;
      }
    }

    method GrowingAt(buf: bytes, i: nat) returns (growing: bool)
      requires Valid() && i < |buf|
      ensures growing <==> Growing(spans, buf, i)
    {
      var matched, node := Walk(buf, i);
      NodesArePrefixes(buf[i..]);
      if !matched {
        return false;
      }
      ChildlessIsComplete(buf[i..]);
      return node.children != map[];
    }

    /** Every complete occurrence of a span in text, ordered by start and then by end. */
    method FindFullSpans(text: bytes) returns (out: seq<Span>)
      requires Valid()
      ensures Lists(spans, text, 0, |text|, out)
    {
      out := [];
      if maxLen == 0 {
        return;
      }
      for i := 0 to |text|
        invariant Lists(spans, text, 0, i, out)
      {
        var found := SpansFrom(text, i);
        ListsJoin(spans, text, i, out, found);
        out := out + found;
      }
    }

    method SpansFrom(text: bytes, i: nat) returns (out: seq<Span>)
      requires Valid() && i < |text|
      ensures Lists(spans, text, i, i + 1, out)
    {
      hide SpanTrie.Valid, SpanTrie.Shape, Lists, ListsFrom;
      RootIsThere();
      NothingListed(spans, text, i);
      out := [];
      var node := root;
      assert text[i..i] == [];
      for j := i to |text|
        invariant text[i..j] in nodes && nodes[text[i..j]] == node
        invariant ListsFrom(spans, text, i, j, out)
      {
        StepAlong(text, i, j);
        if text[j] !in node.children {
          NoLongerSpan(text, i, j);
          AllListed(spans, text, i, j, out);
          return;
        }
        node := node.children[text[j]];
        ListsOneMore(spans, text, i, j, out);
        EndMarksSpan(text[i..j + 1]);
        if node.isEnd {
          out := out + [Span(i, j + 1)];
        }
      }
      AllListed(spans, text, i, |text|, out);
    }

    lemma NoLongerSpan(text: bytes, i: nat, j: nat)
      requires Shape() && i <= j < |text| && text[i..j + 1] !in nodes
      ensures forall r | Occurs(spans, text, r) && r.start == i :: r.end <= j
    {
      forall r | Occurs(spans, text, r) && r.start == i
        ensures r.end <= j
      {
        if r.end > j {
          PrefixIn(nodes.Keys, text[i..j + 1], text[i..r.end]);
        }
      }
    }
  }
}

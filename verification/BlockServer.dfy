/**
 The handlers of content_block_start, _delta and _stop (internal/proxyserver/sse.go): one
 buffering state per block index, changed in place.
 */
module BlockServer {
  import opened Bytes
  import opened Scanning
  import opened SpanTries
  import opened Stream

  datatype BlockType = TextBlock | ToolUse | McpToolUse | Unbuffered(name: bytes)

  datatype Delta = TextDelta(text: bytes) | JsonDelta(partial: bytes) | OtherDelta

  /** An upstream frame: its index and payload, and the frame itself for forwarding. */
  datatype Event =
    | Start(index: int, blockType: BlockType, frame: bytes)
    | BlockDelta(index: int, delta: Delta, frame: bytes)
    | Stop(index: int, frame: bytes)

  /** What the client receives: the frame as it came, or a delta built anew. */
  datatype Out =
    | Forward(ev: Event)
    | EmitText(at: int, text: bytes)
    | EmitJson(at: int, partial: bytes)

  function IndexOf(o: Out): int {
    match o
    case Forward(ev) => ev.index
    case EmitText(i, _) => i
    case EmitJson(i, _) => i
  }

  /** The engine as the handlers use it, and the size limit of one message. */
  datatype Engine = Engine(restore: bytes -> bytes, restoreJson: bytes -> bytes, maxBody: nat)

  /** The value of a blockState. */
  datatype Block = Block(blockType: BlockType, text: bytes, json: bytes, overflowed: bool)

  class BlockState {
    const blockType: BlockType
    var textBuf: bytes
    var jsonBuf: bytes
    var jsonOverflowed: bool

    constructor (blockType: BlockType)
      ensures View() == Block(blockType, [], [], false)
    {
      this.blockType, textBuf, jsonBuf, jsonOverflowed := blockType, [], [], false;
    }

    function View(): Block
      reads this
    {
      Block(blockType, textBuf, jsonBuf, jsonOverflowed)
    }
  }

  // ------------------------------------------------------------------ the specification

  /** A delta for a block that is buffered. */
  ghost function OnDelta(e: Engine, spans: set<bytes>, b: Block, ev: Event): (Block, seq<Out>)
    requires ev.BlockDelta?
  {
    match ev.delta
    case TextDelta(text) =>
      var buf := b.text + text;
      var cut := Cut(spans, buf);
      (b.(text := buf[cut..]), if cut > 0 then [EmitText(ev.index, e.restore(buf[..cut]))] else [])
    case JsonDelta(partial) =>
      if b.overflowed then (b, [Forward(ev)])
      else
        var json := b.json + partial;
        if |json| > e.maxBody
        then (b.(json := [], overflowed := true), [EmitJson(ev.index, json)])
        else (b.(json := json), [])
    case OtherDelta => (b, [Forward(ev)])
  }

  function OnStop(e: Engine, b: Block, ev: Event): seq<Out> {
    match b.blockType
    case TextBlock => if b.text != [] then [EmitText(ev.index, e.restore(b.text))] else []
    case Unbuffered(_) => []
    case _ => if b.json != [] then [EmitJson(ev.index, e.restoreJson(b.json))] else []
  }

  type Blocks = map<int, Block>

  lemma UpdatedAt(before: Blocks, after: Blocks, i: int, b: Block)
    requires i in before && after.Keys == before.Keys && after[i] == b
    requires forall j | j in after && j != i :: after[j] == before[j]
    ensures after == before[i := b]
  {}

  ghost function Handled(e: Engine, spans: set<bytes>, blocks: Blocks, ev: Event): (Blocks, seq<Out>) {
    match ev
    case Start(i, t, _) => (blocks[i := Block(t, [], [], false)], [Forward(ev)])
    case BlockDelta(i, _, _) =>
      if i !in blocks || blocks[i].blockType.Unbuffered? then (blocks, [Forward(ev)])
      else
        var r := OnDelta(e, spans, blocks[i], ev);
        (blocks[i := r.0], r.1)
    case Stop(i, _) =>
      (blocks - {i}, (if i in blocks then OnStop(e, blocks[i], ev) else []) + [Forward(ev)])
  }

  // ------------------------------------------------------------------ the handlers

  class Server {
    const engine: Engine
    const trie: SpanTrie
    var blocks: map<int, BlockState>

    /** No two indices share a state. */
    ghost predicate Valid()
      reads this
    {
      forall i, j | i in blocks && j in blocks && blocks[i] == blocks[j] :: i == j
    }

    ghost function View(): Blocks
      reads this, blocks.Values
    {
      map i | i in blocks :: blocks[i].View()
    }

    constructor (engine: Engine, trie: SpanTrie)
      ensures Valid() && View() == map[] && this.engine == engine && this.trie == trie
    {
      this.engine, this.trie, blocks := engine, trie, map[];
    }

    method HandleBlockStart(ev: Event) returns (out: seq<Out>)
      requires Valid() && ev.Start?
      modifies this`blocks
      ensures Valid() && fresh(blocks.Values - old(blocks.Values))
      ensures View() == Handled(engine, {}, old(View()), ev).0
      ensures out == Handled(engine, {}, old(View()), ev).1
    {
      var st := new BlockState(ev.blockType);
      blocks := blocks[ev.index := st];
      out := [Forward(ev)];
      assert View() == old(View())[ev.index := Block(ev.blockType, [], [], false)];
    }

    method HandleBlockDelta(ev: Event) returns (out: seq<Out>)
      requires Valid() && trie.Valid() && ev.BlockDelta?
      modifies blocks.Values
      ensures View() == Handled(engine, trie.spans, old(View()), ev).0
      ensures out == Handled(engine, trie.spans, old(View()), ev).1
    {
      if ev.index !in blocks || blocks[ev.index].blockType.Unbuffered? {
        out := [Forward(ev)];
      } else {
        var st := blocks[ev.index];
        ghost var before := View();
        out := Buffer(st, ev);
        assert forall j | j in blocks && j != ev.index :: blocks[j].View() == before[j];
        UpdatedAt(before, View(), ev.index, st.View());
      }
    }

    method Buffer(st: BlockState, ev: Event) returns (out: seq<Out>)
      requires trie.Valid() && ev.BlockDelta?
      modifies st
      ensures st.View() == OnDelta(engine, trie.spans, old(st.View()), ev).0
      ensures out == OnDelta(engine, trie.spans, old(st.View()), ev).1
    {
      hide SpanTrie.Valid, Cut, IsFlushPoint, FlushPoint;
      out := [];
      match ev.delta
      case TextDelta(text) =>
        st.textBuf := st.textBuf + text;
        var flushLen := FlushLength(st.textBuf);
        if flushLen > 0 {
          var toFlush := st.textBuf[..flushLen];
          st.textBuf := st.textBuf[flushLen..];
          out := [EmitText(ev.index, engine.restore(toFlush))];
        }
      case JsonDelta(partial) =>
        if st.jsonOverflowed {
          return [Forward(ev)];
        }
        st.jsonBuf := st.jsonBuf + partial;
        if |st.jsonBuf| > engine.maxBody {
          st.jsonOverflowed := true;
          out := [EmitJson(ev.index, st.jsonBuf)];
          st.jsonBuf := [];
        }
      case OtherDelta =>
        out := [Forward(ev)];
    }

    method FlushLength(buf: bytes) returns (flushLen: nat)
      requires trie.Valid()
      ensures flushLen == Cut(trie.spans, buf)
    {
      flushLen := trie.SafeFlushPoint(buf);
      FlushPointIsUnique(trie.spans, buf, flushLen, FlushPoint(trie.spans, buf));
      var boundary := TextFlushBoundary(buf);
      if boundary < flushLen {
        flushLen := boundary;
      }
    }

    method HandleBlockStop(ev: Event) returns (out: seq<Out>)
      requires Valid() && ev.Stop?
      modifies this`blocks
      ensures Valid() && blocks.Values <= old(blocks.Values)
      ensures View() == Handled(engine, {}, old(View()), ev).0
      ensures out == Handled(engine, {}, old(View()), ev).1
    {
      out := [];
      if ev.index in blocks {
        var st := blocks[ev.index];
        out := AtStop(st, ev);
        blocks := blocks - {ev.index};
      }
      out := out + [Forward(ev)];
      assert View() == old(View()) - {ev.index};
    }

    method AtStop(st: BlockState, ev: Event) returns (out: seq<Out>)
      ensures out == OnStop(engine, st.View(), ev)
    {
      out := [];
      match st.blockType {
        case TextBlock =>
          if |st.textBuf| > 0 {
            out := [EmitText(ev.index, engine.restore(st.textBuf))];
          }
        case Unbuffered(_) =>
        case _ =>
          if st.jsonBuf != [] {
            out := [EmitJson(ev.index, engine.restoreJson(st.jsonBuf))];
          }
      }
    }
  }

  // ------------------------------------------------------------------ runs

  /** An event and the spans registered when it arrives. */
  datatype Step = Step(ev: Event, spans: set<bytes>)

  ghost function Run(e: Engine, blocks: Blocks, steps: seq<Step>): seq<Out>
    decreases |steps|
  {
    if steps == [] then []
    else
      var r := Handled(e, steps[0].spans, blocks, steps[0].ev);
      r.1 + Run(e, r.0, steps[1..])
  }

  function OfIndex(outs: seq<Out>, i: int): seq<Out> {
    if outs == [] then []
    else (if IndexOf(outs[0]) == i then [outs[0]] else []) + OfIndex(outs[1..], i)
  }

  function StepsOf(steps: seq<Step>, i: int): seq<Step> {
    if steps == [] then []
    else (if steps[0].ev.index == i then [steps[0]] else []) + StepsOf(steps[1..], i)
  }

  lemma {:induction false} OfIndexConcat(a: seq<Out>, b: seq<Out>, i: int)
    ensures OfIndex(a + b, i) == OfIndex(a, i) + OfIndex(b, i)
  {
    if a == [] {
      ConcatNil(b);
    } else {
      ConsConcat(a, b);
      OfIndexConcat(a[1..], b, i);
      ConcatAssoc(if IndexOf(a[0]) == i then [a[0]] else [], OfIndex(a[1..], i), OfIndex(b, i));
    }
  }

  predicate SameAt(b1: Blocks, b2: Blocks, i: int) {
    (i in b1 <==> i in b2) && (i in b1 ==> b1[i] == b2[i])
  }

  lemma {:induction false} HandledIsLocal(e: Engine, spans: set<bytes>, b1: Blocks, b2: Blocks, ev: Event, i: int)
    requires SameAt(b1, b2, i)
    ensures ev.index == i ==>
              && Handled(e, spans, b1, ev).1 == Handled(e, spans, b2, ev).1
              && SameAt(Handled(e, spans, b1, ev).0, Handled(e, spans, b2, ev).0, i)
              && OfIndex(Handled(e, spans, b1, ev).1, i) == Handled(e, spans, b1, ev).1
    ensures ev.index != i ==>
              && SameAt(Handled(e, spans, b1, ev).0, b2, i)
              && OfIndex(Handled(e, spans, b1, ev).1, i) == []
  {
    var outs := Handled(e, spans, b1, ev).1;
    assert |outs| <= 2 && forall k | 0 <= k < |outs| :: IndexOf(outs[k]) == ev.index;
    AllOfIndex(outs, ev.index, i);
  }

  lemma {:induction false} AllOfIndex(outs: seq<Out>, j: int, i: int)
    requires forall k | 0 <= k < |outs| :: IndexOf(outs[k]) == j
    ensures OfIndex(outs, i) == if i == j then outs else []
  {
    if outs != [] {
      AllOfIndex(outs[1..], j, i);
      assert outs == [outs[0]] + outs[1..];
    }
  }

  /** What is sent for one index depends on the events of that index alone, whatever other blocks
      do in between. */
  lemma {:induction false} IndicesAreIndependent(e: Engine, b1: Blocks, b2: Blocks, steps: seq<Step>, i: int)
    requires SameAt(b1, b2, i)
    ensures OfIndex(Run(e, b1, steps), i) == Run(e, b2, StepsOf(steps, i))
    decreases |steps|
  {
    if steps != [] {
      var s := steps[0];
      var r := Handled(e, s.spans, b1, s.ev);
      HandledIsLocal(e, s.spans, b1, b2, s.ev, i);
      OfIndexConcat(r.1, Run(e, r.0, steps[1..]), i);
      if s.ev.index == i {
        var r2 := Handled(e, s.spans, b2, s.ev);
        IndicesAreIndependent(e, r.0, r2.0, steps[1..], i);
        assert ([s] + StepsOf(steps[1..], i))[1..] == StepsOf(steps[1..], i);
      } else {
        IndicesAreIndependent(e, r.0, b2, steps[1..], i);
        ConcatNil(Run(e, b2, StepsOf(steps[1..], i)));
        ConcatNil(StepsOf(steps[1..], i));
      }
    }
  }

  /** A start begins anew: what is sent for the index from then on does not depend on what was there. */
  lemma {:induction false} StartBeginsAnew(e: Engine, b1: Blocks, b2: Blocks, start: Step, steps: seq<Step>)
    requires start.ev.Start?
    ensures OfIndex(Run(e, b1, [start] + steps), start.ev.index) == OfIndex(Run(e, b2, [start] + steps), start.ev.index)
  {
    var i := start.ev.index;
    var r1, r2 := Handled(e, start.spans, b1, start.ev), Handled(e, start.spans, b2, start.ev);
    assert ([start] + steps)[1..] == steps;
    OfIndexConcat(r1.1, Run(e, r1.0, steps), i);
    OfIndexConcat(r2.1, Run(e, r2.0, steps), i);
    IndicesAreIndependent(e, r1.0, r2.0, steps, i);
    IndicesAreIndependent(e, r2.0, r2.0, steps, i);
  }

  // ------------------------------------------------------------------ nothing is sent outside a block

  /** Text and partial JSON are sent only between the forwarded start of their index and its forwarded stop.
      open are the indices that are open at the beginning. */
  ghost predicate EmitsInside(outs: seq<Out>, open: set<int>)
    decreases |outs|
  {
    outs != [] ==>
      match outs[0]
      case Forward(Start(i, _, _)) => EmitsInside(outs[1..], open + {i})
      case Forward(Stop(i, _)) => EmitsInside(outs[1..], open - {i})
      case Forward(_) => EmitsInside(outs[1..], open)
      case _ => IndexOf(outs[0]) in open && EmitsInside(outs[1..], open)
  }

  lemma {:induction false} EmitsFirst(out: Out, rest: seq<Out>, open: set<int>)
    requires out.EmitText? || out.EmitJson?
    requires IndexOf(out) in open && EmitsInside(rest, open)
    ensures EmitsInside([out] + rest, open)
  {
    assert ([out] + rest)[1..] == rest;
  }

  lemma {:induction false} ForwardsFirst(ev: Event, rest: seq<Out>, open: set<int>)
    requires EmitsInside(rest, if ev.Start? then open + {ev.index} else if ev.Stop? then open - {ev.index} else open)
    ensures EmitsInside([Forward(ev)] + rest, open)
  {
    assert ([Forward(ev)] + rest)[1..] == rest;
  }

  /** Over every run of the handlers. */
  lemma {:induction false} RunEmitsInside(e: Engine, blocks: Blocks, steps: seq<Step>)
    ensures EmitsInside(Run(e, blocks, steps), blocks.Keys)
    decreases |steps|
  {
    hide EmitsInside;
    if steps == [] {
      NothingEmitted(blocks.Keys);
    } else {
      var ev := steps[0].ev;
      var r := Handled(e, steps[0].spans, blocks, ev);
      var rest := Run(e, r.0, steps[1..]);
      RunEmitsInside(e, r.0, steps[1..]);
      HandledInside(e, steps[0].spans, blocks, ev, rest);
    }
  }

  lemma NothingEmitted(open: set<int>)
    ensures EmitsInside([], open)
  {}

  lemma {:induction false} HandledInside(e: Engine, spans: set<bytes>, blocks: Blocks, ev: Event, rest: seq<Out>)
    requires EmitsInside(rest, Handled(e, spans, blocks, ev).0.Keys)
    ensures EmitsInside(Handled(e, spans, blocks, ev).1 + rest, blocks.Keys)
  {
    hide EmitsInside, Cut;
    var r := Handled(e, spans, blocks, ev);
    match ev {
      case Start(i, t, _) =>
        assert r.0.Keys == blocks.Keys + {i};
        ForwardsFirst(ev, rest, blocks.Keys);
      case BlockDelta(i, _, _) =>
        assert r.0.Keys == blocks.Keys;
        if r.1 == [] {
          ConcatNil(rest);
        } else if r.1[0].Forward? {
          ForwardsFirst(ev, rest, blocks.Keys);
        } else {
          EmitsFirst(r.1[0], rest, blocks.Keys);
        }
      case Stop(i, _) =>
        assert r.0.Keys == blocks.Keys - {i};
        ForwardsFirst(ev, rest, blocks.Keys);
        if |r.1| == 1 {
          assert r.1 == [Forward(ev)];
        } else {
          assert r.1 + rest == [r.1[0]] + ([Forward(ev)] + rest);
          EmitsFirst(r.1[0], [Forward(ev)] + rest, blocks.Keys);
        }
    }
  }

  /** In terms of positions: between a forwarded stop and any text or partial JSON of the same index, a new
      start of that index is forwarded. */
  lemma {:induction false} SilentAfterStop(outs: seq<Out>, open: set<int>, a: nat, b: nat)
    requires EmitsInside(outs, open) && a < b < |outs|
    requires outs[a].Forward? && outs[a].ev.Stop? && !outs[b].Forward? && IndexOf(outs[a]) == IndexOf(outs[b])
    ensures exists c :: a < c < b && IsStartOf(outs[c], IndexOf(outs[b]))
    decreases a
  {
    var rest := outs[1..];
    if a > 0 {
      var open' := Opened(outs[0], open);
      SilentAfterStop(rest, open', a - 1, b - 1);
      var c :| a - 1 < c < b - 1 && IsStartOf(rest[c], IndexOf(rest[b - 1]));
      assert IsStartOf(outs[c + 1], IndexOf(outs[b]));
    } else {
      var c := StartBefore(rest, open - {IndexOf(outs[0])}, b - 1);
      assert IsStartOf(outs[c + 1], IndexOf(outs[b]));
    }
  }

  predicate IsStartOf(out: Out, i: int) { out.Forward? && out.ev.Start? && out.ev.index == i }

  function Opened(out: Out, open: set<int>): set<int> {
    match out
    case Forward(Start(i, _, _)) => open + {i}
    case Forward(Stop(i, _)) => open - {i}
    case _ => open
  }

  lemma {:induction false} StartBefore(outs: seq<Out>, open: set<int>, b: nat) returns (c: nat)
    requires EmitsInside(outs, open) && b < |outs| && !outs[b].Forward? && IndexOf(outs[b]) !in open
    ensures c < b && IsStartOf(outs[c], IndexOf(outs[b]))
    decreases b
  {
    assert EmitsInside(outs[1..], Opened(outs[0], open));
    if IsStartOf(outs[0], IndexOf(outs[b])) {
      assert b > 0;
      return 0;
    }
    assert b > 0;
    c := StartBefore(outs[1..], Opened(outs[0], open), b - 1);
    c := c + 1;
  }

  // ------------------------------------------------------------------ what is forwarded

  /** The events whose frames are forwarded, in their order. */
  function Forwarded(outs: seq<Out>): seq<Event> {
    if outs == [] then [] else (if outs[0].Forward? then [outs[0].ev] else []) + Forwarded(outs[1..])
  }

  lemma {:induction false} ForwardedConcat(a: seq<Out>, b: seq<Out>)
    ensures Forwarded(a + b) == Forwarded(a) + Forwarded(b)
  {
    if a == [] {
      ConcatNil(b);
      ConcatNil(Forwarded(b));
    } else {
      ConsConcat(a, b);
      ForwardedConcat(a[1..], b);
      ConcatAssoc(if a[0].Forward? then [a[0].ev] else [], Forwarded(a[1..]), Forwarded(b));
    }
  }

  /** The type of the block that is open at an index after n events. */
  function TypeAt(steps: seq<Step>, n: nat, i: int): Option<BlockType>
    requires n <= |steps|
  {
    if n == 0 then None
    else
      match steps[n - 1].ev
      case Start(j, t, _) => if j == i then Some(t) else TypeAt(steps, n - 1, i)
      case Stop(j, _) => if j == i then None else TypeAt(steps, n - 1, i)
      case BlockDelta(_, _, _) => TypeAt(steps, n - 1, i)
  }

  /** How much partial JSON it has received. */
  function JsonAt(steps: seq<Step>, n: nat, i: int): nat
    requires n <= |steps|
  {
    if n == 0 then 0
    else
      match steps[n - 1].ev
      case Start(j, _, _) => if j == i then 0 else JsonAt(steps, n - 1, i)
      case BlockDelta(j, JsonDelta(p), _) => JsonAt(steps, n - 1, i) + if j == i then |p| else 0
      case _ => JsonAt(steps, n - 1, i)
  }

  /** Event n is forwarded as it came: every start and stop, every delta of a block that is unknown or not
      buffered, every delta of another kind, and partial JSON once the limit has been passed. */
  predicate Passes(e: Engine, steps: seq<Step>, n: nat)
    requires n < |steps|
  {
    match steps[n].ev
    case BlockDelta(i, delta, _) =>
      || TypeAt(steps, n, i).None? || TypeAt(steps, n, i).value.Unbuffered?
      || delta.OtherDelta? || (delta.JsonDelta? && JsonAt(steps, n, i) > e.maxBody)
    case _ => true
  }

  function Passing(e: Engine, steps: seq<Step>, n: nat): seq<Event>
    requires n <= |steps|
  {
    if n == 0 then [] else Passing(e, steps, n - 1) + if Passes(e, steps, n - 1) then [steps[n - 1].ev] else []
  }

  /** The blocks after n events, in terms of these events. */
  ghost predicate Tracks(e: Engine, blocks: Blocks, steps: seq<Step>, n: nat)
    requires n <= |steps|
  {
    forall i :: TracksAt(e, blocks, steps, n, i)
  }

  ghost predicate TracksAt(e: Engine, blocks: Blocks, steps: seq<Step>, n: nat, i: int)
    requires n <= |steps|
  {
    && (i in blocks <==> TypeAt(steps, n, i).Some?)
    && (i in blocks ==>
          && TypeAt(steps, n, i) == Some(blocks[i].blockType)
          && (!blocks[i].blockType.Unbuffered? ==>
                && (blocks[i].overflowed <==> JsonAt(steps, n, i) > e.maxBody)
                && (!blocks[i].overflowed ==> |blocks[i].json| == JsonAt(steps, n, i))))
  }

  lemma {:induction false} HandledTracks(e: Engine, blocks: Blocks, steps: seq<Step>, n: nat)
    requires n < |steps| && Tracks(e, blocks, steps, n)
    ensures Tracks(e, Handled(e, steps[n].spans, blocks, steps[n].ev).0, steps, n + 1)
    ensures Forwarded(Handled(e, steps[n].spans, blocks, steps[n].ev).1) == if Passes(e, steps, n) then [steps[n].ev] else []
  {
    hide Cut;
    var ev := steps[n].ev;
    var r := Handled(e, steps[n].spans, blocks, ev);
    var m := n + 1;
    assert TracksAt(e, blocks, steps, n, ev.index);
    forall i
      ensures TracksAt(e, r.0, steps, m, i)
    {
      assert TracksAt(e, blocks, steps, n, i);
    }
    OneOrTwo(r.1);
  }

  lemma OneOrTwo(outs: seq<Out>)
    requires |outs| <= 2
    ensures Forwarded(outs) == (if |outs| > 0 && outs[0].Forward? then [outs[0].ev] else [])
                             + (if |outs| > 1 && outs[1].Forward? then [outs[1].ev] else [])
  {
    if |outs| > 0 {
      assert Forwarded(outs[1..]) == if |outs| > 1 && outs[1].Forward? then [outs[1].ev] else [] by {
        if |outs| > 1 {
          assert outs[1..][1..] == [];
        }
      }
    }
  }

  lemma {:induction false} RestForwards(e: Engine, blocks: Blocks, steps: seq<Step>, n: nat)
    requires n <= |steps| && Tracks(e, blocks, steps, n)
    ensures Passing(e, steps, n) + Forwarded(Run(e, blocks, steps[n..])) == Passing(e, steps, |steps|)
    decreases |steps| - n
  {
    hide Tracks, Handled, Passes;
    if n == |steps| {
      ConcatNil(Passing(e, steps, n));
    } else {
      var s := steps[n];
      var r := Handled(e, s.spans, blocks, s.ev);
      HandledTracks(e, blocks, steps, n);
      RestForwards(e, r.0, steps, n + 1);
      assert steps[n..][0] == s && steps[n..][1..] == steps[n + 1..];
      ForwardedConcat(r.1, Run(e, r.0, steps[n + 1..]));
      ConcatAssoc(Passing(e, steps, n), Forwarded(r.1), Forwarded(Run(e, r.0, steps[n + 1..])));
    }
  }

  /** Over every run from the beginning of a response: exactly those frames are forwarded, each once and in
      the order in which they came. */
  lemma {:induction false} RunForwards(e: Engine, steps: seq<Step>)
    ensures Forwarded(Run(e, map[], steps)) == Passing(e, steps, |steps|)
  {
    RestForwards(e, map[], steps, 0);
    assert steps[0..] == steps;
    ConcatNil(Forwarded(Run(e, map[], steps)));
  }

  // ------------------------------------------------------------------ one well-typed block

  /** The emitted text, the partial JSON, and the partial JSON of forwarded frames. */
  function Texts(outs: seq<Out>): bytes {
    if outs == [] then []
    else (match outs[0] case EmitText(_, t) => t case _ => []) + Texts(outs[1..])
  }

  lemma {:induction false} TextsConcat(a: seq<Out>, b: seq<Out>)
    ensures Texts(a + b) == Texts(a) + Texts(b)
  {
    if a == [] {
      ConcatNil(b);
      ConcatNil(Texts(b));
    } else {
      ConsConcat(a, b);
      TextsConcat(a[1..], b);
      ConcatAssoc(match a[0] case EmitText(_, t) => t case _ => [], Texts(a[1..]), Texts(b));
    }
  }

  /** The events of one text block after its start. */
  function TextRun(i: int, arrivals: seq<Arrival>, frame: bytes): seq<Step> {
    if arrivals == [] then [Step(Stop(i, frame), {})]
    else
      [Step(BlockDelta(i, TextDelta(arrivals[0].delta), frame), arrivals[0].spans)]
      + TextRun(i, arrivals[1..], frame)
  }

  /** The handlers send exactly the text that Sent describes, so the streaming law is theirs. */
  lemma {:induction false} TextBlockSends(e: Engine, b: Block, i: int, arrivals: seq<Arrival>, frame: bytes)
    requires b.blockType == TextBlock
    ensures Texts(Run(e, map[i := b], TextRun(i, arrivals, frame))) == Sent(e.restore, b.text, arrivals)
    decreases |arrivals|
  {
    var blocks, steps := map[i := b], TextRun(i, arrivals, frame);
    if arrivals == [] {
      var outs := Handled(e, {}, blocks, Stop(i, frame)).1;
      assert steps[1..] == [];
      TextsConcat(outs, []);
      ConcatNil(outs);
      StopTexts(e, b, i, frame);
    } else {
      var ev, spans := BlockDelta(i, TextDelta(arrivals[0].delta), frame), arrivals[0].spans;
      var next, outs := OnDelta(e, spans, b, ev).0, OnDelta(e, spans, b, ev).1;
      RunStep(e, b, Step(ev, spans), TextRun(i, arrivals[1..], frame));
      TextBlockSends(e, next, i, arrivals[1..], frame);
      TextsConcat(outs, Run(e, map[i := next], TextRun(i, arrivals[1..], frame)));
      DeltaTexts(outs);
    }
  }

  lemma {:induction false} RunStep(e: Engine, b: Block, s: Step, rest: seq<Step>)
    requires s.ev.BlockDelta? && !b.blockType.Unbuffered?
    ensures var r := OnDelta(e, s.spans, b, s.ev);
            Run(e, map[s.ev.index := b], [s] + rest) == r.1 + Run(e, map[s.ev.index := r.0], rest)
  {
    var i, r := s.ev.index, OnDelta(e, s.spans, b, s.ev);
    assert map[i := b][i := r.0] == map[i := r.0];
    assert ([s] + rest)[1..] == rest;
  }

  lemma {:induction false} DeltaTexts(outs: seq<Out>)
    requires |outs| <= 1
    ensures Texts(outs) == if |outs| == 1 && outs[0].EmitText? then outs[0].text else []
  {}

  lemma StopTexts(e: Engine, b: Block, i: int, frame: bytes)
    requires b.blockType == TextBlock
    ensures Texts(Handled(e, {}, map[i := b], Stop(i, frame)).1) == if b.text == [] then [] else e.restore(b.text)
  {
    var outs := OnStop(e, b, Stop(i, frame));
    TextsConcat(outs, [Forward(Stop(i, frame))]);
    DeltaTexts(outs);
    DeltaTexts([Forward(Stop(i, frame))]);
    ConcatNil(Texts(outs));
  }

  // ------------------------------------------------------------------ one tool_use block

  /** The partial JSON that an output carries: emitted, or in a frame forwarded as it came. */
  function Partial(o: Out): bytes {
    match o
    case EmitJson(_, p) => p
    case Forward(BlockDelta(_, JsonDelta(p), _)) => p
    case _ => []
  }

  function Partials(outs: seq<Out>): bytes {
    if outs == [] then [] else Partial(outs[0]) + Partials(outs[1..])
  }

  lemma {:induction false} PartialsConcat(a: seq<Out>, b: seq<Out>)
    ensures Partials(a + b) == Partials(a) + Partials(b)
  {
    if a == [] {
      ConcatNil(b);
      ConcatNil(Partials(b));
    } else {
      ConsConcat(a, b);
      PartialsConcat(a[1..], b);
      ConcatAssoc(Partial(a[0]), Partials(a[1..]), Partials(b));
    }
  }

  function JsonRun(i: int, deltas: seq<bytes>, frame: bytes): seq<Step> {
    if deltas == [] then [Step(Stop(i, frame), {})]
    else [Step(BlockDelta(i, JsonDelta(deltas[0]), frame), {})] + JsonRun(i, deltas[1..], frame)
  }

  /** What a tool_use block has to send for an input: restored if it fits, else as it came. */
  function JsonSent(e: Engine, input: bytes): bytes {
    if |input| > e.maxBody then input else if input == [] then [] else e.restoreJson(input)
  }

  /** The input of a tool_use block is buffered up to the size limit: within it the client gets
      the restored value of the whole input, beyond it exactly the bytes received. */
  lemma {:induction false} ToolBlockSends(e: Engine, b: Block, i: int, deltas: seq<bytes>, frame: bytes)
    requires b.blockType == ToolUse || b.blockType == McpToolUse
    requires |b.json| <= e.maxBody && (b.overflowed ==> b.json == [])
    ensures Partials(Run(e, map[i := b], JsonRun(i, deltas, frame))) ==
            if b.overflowed then Concat(deltas) else JsonSent(e, b.json + Concat(deltas))
    decreases |deltas|
  {
    if deltas == [] {
      var outs := Handled(e, {}, map[i := b], Stop(i, frame)).1;
      assert JsonRun(i, deltas, frame)[1..] == [];
      ConcatNil(outs);
      ConcatNil(b.json);
      PartialsConcat(OnStop(e, b, Stop(i, frame)), [Forward(Stop(i, frame))]);
      OnePartial(OnStop(e, b, Stop(i, frame)));
      OnePartial([Forward(Stop(i, frame))]);
      ConcatNil(JsonSent(e, b.json));
    } else {
      var ev := BlockDelta(i, JsonDelta(deltas[0]), frame);
      var next, outs := OnDelta(e, {}, b, ev).0, OnDelta(e, {}, b, ev).1;
      RunStep(e, b, Step(ev, {}), JsonRun(i, deltas[1..], frame));
      ToolBlockSends(e, next, i, deltas[1..], frame);
      PartialsConcat(outs, Run(e, map[i := next], JsonRun(i, deltas[1..], frame)));
      OnePartial(outs);
      ConcatAssoc(b.json, deltas[0], Concat(deltas[1..]));
      ConcatNil(JsonSent(e, b.json + Concat(deltas)));
    }
  }

  lemma {:induction false} OnePartial(outs: seq<Out>)
    requires |outs| <= 1
    ensures Partials(outs) == if |outs| == 1 then Partial(outs[0]) else []
  {
    if |outs| == 1 {
      assert outs[1..] == [];
    }
  }

  /** Between events no buffer exceeds the size limit, and an overflowed one is empty. */
  ghost predicate JsonBounded(e: Engine, blocks: Blocks) {
    forall i | i in blocks :: |blocks[i].json| <= e.maxBody && (blocks[i].overflowed ==> blocks[i].json == [])
  }

  lemma HandledKeepsBound(e: Engine, spans: set<bytes>, blocks: Blocks, ev: Event)
    requires JsonBounded(e, blocks)
    ensures JsonBounded(e, Handled(e, spans, blocks, ev).0)
  {}
}

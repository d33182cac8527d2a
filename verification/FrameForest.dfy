/** What a read to the end has seen: the files' frames, and in every payload, at every depth, all of its frames. */
module FrameForest {
  import opened Wrappers
  import opened Framing
  import opened Parser

  /** A frame, and the frames its content falls into when it is a payload. */
  datatype Node = Node(frame: Frame, children: seq<Node>)

  function Roots(nodes: seq<Node>): seq<Frame>
  {
    if nodes == [] then [] else [nodes[0].frame] + Roots(nodes[1..])
  }

  /** All frames in reading order: each in front of those it holds. */
  function Preorder(nodes: seq<Node>): seq<Frame>
  {
    if nodes == [] then [] else [nodes[0].frame] + Preorder(nodes[0].children) + Preorder(nodes[1..])
  }

  /** The frames that came out of payloads: all but the roots, unless these did too. */
  function Unpacked(nodes: seq<Node>, decompressed: bool): seq<Frame>
  {
    if nodes == [] then []
    else (if decompressed then [nodes[0].frame] else []) + Preorder(nodes[0].children) + Unpacked(nodes[1..], decompressed)
  }

  /** What decompressed frames have cost so far. */
  datatype Spent = Spent(bytes: nat, events: nat)

  function Charge(spent: Spent, frames: seq<Frame>): Spent
  {
    Spent(spent.bytes + SumLengths(frames), spent.events + |frames|)
  }

  /** 512 MiB and a million events may come out of payloads. */
  predicate IsAffordable(spent: Spent) { spent.bytes <= 536_870_912 && spent.events <= 1_000_000 }

  /**
   The children tile the content of the event's payload, to its end; an event without payload has none. A
   payload lies in fewer than eight others, and promises no more bytes than are left.
   */
  predicate HoldsWhole(env: Env, seen: seq<Frame>, spent: Spent, depth: nat, event: Decoded, children: seq<Node>)
    decreases children, 1
  {
    match event
    case Plain => children == []
    case Refused => false
    case Payload(declaredSize, content) =>
      && depth < 8 && spent.bytes + declaredSize <= 536_870_912
      && content.Some? && !content.value.broken
      && Tiles(Roots(children), content.value.bytes)
      && IsWhole(env, seen, spent, depth + 1, children, true)
  }

  /**
   Every event decodes, behind all frames seen before it, every payload among them is whole, and all that
   comes out of payloads can be afforded.
   */
  predicate IsWhole(env: Env, seen: seq<Frame>, spent: Spent, depth: nat, nodes: seq<Node>, decompressed: bool)
    decreases nodes, 0
  {
    nodes == [] ||
    var now := seen + [nodes[0].frame];
    var charged := if decompressed then Charge(spent, [nodes[0].frame]) else spent;
    && (decompressed ==> IsAffordable(charged))
    && env.decode(now, decompressed).Success?
    && HoldsWhole(env, now, charged, depth, env.decode(now, decompressed).value, nodes[0].children)
    && IsWhole(env, now + Preorder(nodes[0].children), Charge(charged, Preorder(nodes[0].children)), depth, nodes[1..],
               decompressed)
  }

  lemma {:induction false} SumOfBoth(left: seq<Frame>, right: seq<Frame>)
    ensures SumLengths(left + right) == SumLengths(left) + SumLengths(right)
    decreases |right|
  {
    if right == [] {
      assert left + right == left;
    } else {
      var n := |right| - 1;
      assert (left + right)[..|left + right| - 1] == left + right[..n];
      SumOfBoth(left, right[..n]);
    }
  }

  lemma ChargeBoth(spent: Spent, left: seq<Frame>, right: seq<Frame>)
    ensures Charge(Charge(spent, left), right) == Charge(spent, left + right)
  {
    SumOfBoth(left, right);
  }

  lemma ChargeNothing(spent: Spent)
    ensures Charge(spent, []) == spent
  {
  }

  lemma {:induction false} OrderOfBoth(left: seq<Node>, right: seq<Node>)
    ensures Preorder(left + right) == Preorder(left) + Preorder(right)
    decreases |left|
  {
    if left == [] {
      assert left + right == right;
    } else {
      OrderOfBoth(left[1..], right);
      assert (left + right)[0] == left[0] && (left + right)[1..] == left[1..] + right;
    }
  }

  lemma {:induction false} UnpackedOfBoth(left: seq<Node>, right: seq<Node>, decompressed: bool)
    ensures Unpacked(left + right, decompressed) == Unpacked(left, decompressed) + Unpacked(right, decompressed)
    decreases |left|
  {
    hide Preorder;
    if left == [] {
      assert left + right == right;
    } else {
      UnpackedOfBoth(left[1..], right, decompressed);
      assert (left + right)[0] == left[0] && (left + right)[1..] == left[1..] + right;
    }
  }

  lemma {:induction false} AllIsUnpacked(nodes: seq<Node>)
    ensures Unpacked(nodes, true) == Preorder(nodes)
  {
    if nodes != [] {
      AllIsUnpacked(nodes[1..]);
    }
  }

  /** What is seen behind a node. */
  function Behind(seen: seq<Frame>, node: Node): seq<Frame> { seen + [node.frame] + Preorder(node.children) }

  predicate FirstIsWhole(env: Env, seen: seq<Frame>, spent: Spent, depth: nat, node: Node, decompressed: bool)
  {
    var now := seen + [node.frame];
    var charged := if decompressed then Charge(spent, [node.frame]) else spent;
    && (decompressed ==> IsAffordable(charged))
    && env.decode(now, decompressed).Success?
    && HoldsWhole(env, now, charged, depth, env.decode(now, decompressed).value, node.children)
  }

  lemma OneNode(seen: seq<Frame>, spent: Spent, node: Node, decompressed: bool)
    ensures seen + Preorder([node]) == Behind(seen, node) && Roots([node]) == [node.frame]
    ensures Preorder([node]) == [node.frame] + Preorder(node.children)
    ensures Unpacked([node], decompressed) == (if decompressed then [node.frame] else []) + Preorder(node.children)
    ensures Charge(spent, Unpacked([node], decompressed)) ==
            Charge(if decompressed then Charge(spent, [node.frame]) else spent, Preorder(node.children))
  {
    assert [node][1..] == [] && Preorder([]) == [] && Roots([]) == [] && Unpacked([], decompressed) == [];
    assert [] + Preorder(node.children) == Preorder(node.children);
    ChargeBoth(spent, [node.frame], Preorder(node.children));
  }

  lemma WholeInFront(env: Env, seen: seq<Frame>, spent: Spent, depth: nat, node: Node, rest: seq<Node>, decompressed: bool)
    ensures IsWhole(env, seen, spent, depth, [node] + rest, decompressed) <==>
            && FirstIsWhole(env, seen, spent, depth, node, decompressed)
            && IsWhole(env, Behind(seen, node), Charge(spent, Unpacked([node], decompressed)), depth, rest, decompressed)
  {
    hide HoldsWhole, Charge;
    var nodes := [node] + rest;
    assert nodes[0] == node && nodes[1..] == rest;
    OneNode(seen, spent, node, decompressed);
  }

  lemma WholeAlone(env: Env, seen: seq<Frame>, spent: Spent, depth: nat, node: Node, decompressed: bool)
    ensures IsWhole(env, seen, spent, depth, [node], decompressed) <==>
            FirstIsWhole(env, seen, spent, depth, node, decompressed)
  {
    hide HoldsWhole, Charge, FirstIsWhole;
    assert [node] + [] == [node];
    WholeInFront(env, seen, spent, depth, node, [], decompressed);
  }

  /** Nodes are whole together exactly when those in front are, and the others behind them. */
  lemma {:induction false} WholeOfBoth(
    env: Env, seen: seq<Frame>, spent: Spent, depth: nat, left: seq<Node>, right: seq<Node>, decompressed: bool)
    ensures IsWhole(env, seen, spent, depth, left + right, decompressed) <==>
            && IsWhole(env, seen, spent, depth, left, decompressed)
            && IsWhole(env, seen + Preorder(left), Charge(spent, Unpacked(left, decompressed)), depth, right, decompressed)
    decreases |left|
  {
    if left == [] {
      assert left + right == right && seen + Preorder(left) == seen;
      ChargeNothing(spent);
    } else {
      var node, rest := left[0], left[1..];
      assert left == [node] + rest && left + right == [node] + (rest + right);
      hide IsWhole, Preorder, Unpacked, Charge, FirstIsWhole;
      WholeInFront(env, seen, spent, depth, node, rest, decompressed);
      WholeInFront(env, seen, spent, depth, node, rest + right, decompressed);
      var charged := Charge(spent, Unpacked([node], decompressed));
      WholeOfBoth(env, Behind(seen, node), charged, depth, rest, right, decompressed);
      OneNode(seen, spent, node, decompressed);
      OrderOfBoth([node], rest);
      UnpackedOfBoth([node], rest, decompressed);
      ChargeBoth(spent, Unpacked([node], decompressed), Unpacked(rest, decompressed));
      assert seen + Preorder(left) == Behind(seen, node) + Preorder(rest);
    }
  }

  // ----- polls

  lemma {:induction false} EventPollsOn(env: Env, c: Counters, event: Decoded)
    requires c.depth <= MAX_PAYLOAD_DEPTH
    ensures c.polls <= ProcessEvent(env, c, event).counters.polls
    decreases MAX_PAYLOAD_DEPTH - c.depth, 0
  {
    if event.Payload? && Enter(c, event.declaredSize).Success? && event.content.Some? {
      var content := event.content.value;
      PayloadPollsOn(env, Enter(c, event.declaredSize).value, content.bytes, content.broken);
    }
  }

  lemma {:induction false} PayloadPollsOn(env: Env, c: Counters, payload: seq<byte>, broken: bool)
    requires c.depth <= MAX_PAYLOAD_DEPTH
    ensures c.polls <= ProcessPayload(env, c, payload, broken).counters.polls
    decreases MAX_PAYLOAD_DEPTH - c.depth, 1 + |payload|
  {
    hide ReadEventFrame, ProcessFrame;
    if payload != [] && c.polls < env.cancelAt {
      FrameRead(payload, None, 0, FrameLimit(c));
      match ReadEventFrame(payload, None, 0, FrameLimit(c)) {
        case Success(Some(frame)) =>
          var polled := c.(polls := c.polls + 1);
          FramePollsOn(env, polled, frame);
          var r := ProcessFrame(env, polled, frame);
          if r.error.None? {
            PayloadPollsOn(env, r.counters, payload[|frame|..], broken);
          }
        case _ =>
      }
    }
  }

  lemma {:induction false} FramePollsOn(env: Env, c: Counters, frame: Frame)
    requires c.depth <= MAX_PAYLOAD_DEPTH
    ensures c.polls <= ProcessFrame(env, c, frame).counters.polls
    decreases MAX_PAYLOAD_DEPTH - c.depth, 1
  {
    if Record(c, frame).Success? {
      var recorded := Record(c, frame).value;
      var event := env.decode(recorded.seen, true);
      if event.Success? {
        EventPollsOn(env, recorded.(eventCount := recorded.eventCount + 1), event.value);
      }
    }
  }

  // ----- events processed without an error, and without a poll that answered yes

  predicate IsClean(env: Env, r: Outcome) { r.error.None? && r.counters.polls <= env.cancelAt }

  function SpentBy(c: Counters): Spent { Spent(c.bytes, c.events) }

  /** The counters when the nodes have been read too, with a poll for each frame. */
  function Having(c: Counters, nodes: seq<Node>, decompressed: bool): Counters
  {
    var all, unpacked := Preorder(nodes), Unpacked(nodes, decompressed);
    var spent := Charge(SpentBy(c), unpacked);
    Counters(c.eventCount + |all|, spent.bytes, spent.events, c.depth, c.polls + |all|, c.seen + all, c.inner + unpacked)
  }

  lemma HavingBoth(c: Counters, left: seq<Node>, right: seq<Node>, decompressed: bool)
    ensures Having(Having(c, left, decompressed), right, decompressed) == Having(c, left + right, decompressed)
  {
    hide Preorder, Unpacked, Charge;
    OrderOfBoth(left, right);
    UnpackedOfBoth(left, right, decompressed);
    ChargeBoth(SpentBy(c), Unpacked(left, decompressed), Unpacked(right, decompressed));
    assert c.seen + Preorder(left) + Preorder(right) == c.seen + (Preorder(left) + Preorder(right));
    assert c.inner + Unpacked(left, decompressed) + Unpacked(right, decompressed)
        == c.inner + (Unpacked(left, decompressed) + Unpacked(right, decompressed));
  }

  lemma HavingNothing(c: Counters, decompressed: bool)
    ensures Having(c, [], decompressed) == c
  {
  }

  /** The counters when the frame itself has been counted, and not yet what it holds. */
  function Counted(c: Counters, frame: Frame, decompressed: bool): Counters
  {
    var unpacked := if decompressed then [frame] else [];
    var spent := Charge(SpentBy(c), unpacked);
    Counters(c.eventCount + 1, spent.bytes, spent.events, c.depth, c.polls + 1, c.seen + [frame], c.inner + unpacked)
  }

  lemma HavingNode(c: Counters, node: Node, decompressed: bool)
    ensures Having(Counted(c, node.frame, decompressed), node.children, true) == Having(c, [node], decompressed)
  {
    hide Preorder, Unpacked, Charge;
    OneNode(c.seen, SpentBy(c), node, decompressed);
    AllIsUnpacked(node.children);
    ChargeNothing(SpentBy(c));
    assert c.inner + (if decompressed then [node.frame] else []) + Preorder(node.children)
        == c.inner + ((if decompressed then [node.frame] else []) + Preorder(node.children));
  }

  lemma HavingIsDeeper(c: Counters, deeper: Counters, nodes: seq<Node>)
    requires deeper == c.(depth := deeper.depth)
    ensures Having(deeper, nodes, true) == Having(c, nodes, true).(depth := deeper.depth)
  {
    hide Preorder, Unpacked, Charge;
  }

  lemma PayloadIsEntered(c: Counters, declaredSize: nat)
    requires WithinBudget(c)
    ensures Enter(c, declaredSize).Success? <==> c.depth < 8 && c.bytes + declaredSize <= 536_870_912
    ensures Enter(c, declaredSize) == Failure(PayloadTooDeep) <==> c.depth == 8
    ensures Enter(c, declaredSize) == Failure(PayloadTooLarge) <==> c.depth < 8 && c.bytes + declaredSize > 536_870_912
    ensures Enter(c, declaredSize).Success? ==>
              Enter(c, declaredSize).value == c.(depth := c.depth + 1) && WithinBudget(Enter(c, declaredSize).value)
  {
  }

  /** An event read without an error is whole. */
  lemma {:induction false} EventIsWhole(env: Env, c: Counters, event: Decoded) returns (children: seq<Node>)
    requires WithinBudget(c) && IsClean(env, ProcessEvent(env, c, event))
    ensures HoldsWhole(env, c.seen, SpentBy(c), c.depth, event, children)
    ensures ProcessEvent(env, c, event).counters == Having(c, children, true)
    decreases MAX_PAYLOAD_DEPTH - c.depth, 0
  {
    children := [];
    HavingNothing(c, true);
    if event.Payload? {
      hide Tiles, Having, IsWhole, ProcessPayload;
      PayloadIsEntered(c, event.declaredSize);
      var entered, content := Enter(c, event.declaredSize).value, event.content.value;
      children := PayloadIsWhole(env, entered, content.bytes, content.broken);
      HavingIsDeeper(c, entered, children);
    }
  }

  /** A payload read without an error begins with a frame processed without one. */
  lemma PayloadGoesOn(env: Env, c: Counters, payload: seq<byte>, broken: bool) returns (frame: Frame)
    requires c.depth <= MAX_PAYLOAD_DEPTH && payload != [] && IsClean(env, ProcessPayload(env, c, payload, broken))
    ensures IsFrame(frame) && frame <= payload && payload == frame + payload[|frame|..]
    ensures var r := ProcessFrame(env, c.(polls := c.polls + 1), frame);
            && IsClean(env, r)
            && ProcessPayload(env, c, payload, broken) == ProcessPayload(env, r.counters, payload[|frame|..], broken)
  {
    hide ReadEventFrame, ProcessFrame, IsFrame;
    FrameRead(payload, None, 0, FrameLimit(c));
    frame := ReadEventFrame(payload, None, 0, FrameLimit(c)).value.value;
    var r := ProcessFrame(env, c.(polls := c.polls + 1), frame);
    PayloadPollsOn(env, r.counters, payload[|frame|..], broken);
  }

  lemma {:induction false} PayloadIsWhole(env: Env, c: Counters, payload: seq<byte>, broken: bool) returns (nodes: seq<Node>)
    requires WithinBudget(c) && IsClean(env, ProcessPayload(env, c, payload, broken))
    ensures !broken && Tiles(Roots(nodes), payload) && IsWhole(env, c.seen, SpentBy(c), c.depth, nodes, true)
    ensures ProcessPayload(env, c, payload, broken).counters == Having(c, nodes, true)
    decreases MAX_PAYLOAD_DEPTH - c.depth, 1 + |payload|
  {
    nodes := [];
    HavingNothing(c, true);
    if payload != [] {
      hide ProcessPayload, ProcessFrame, IsFrame, FirstIsWhole, IsWhole, Having, Roots, Tiles, IsClean;
      var frame := PayloadGoesOn(env, c, payload, broken);
      assert |frame| > 0 by {
        LongEnough(frame);
      }
      var rest := payload[|frame|..];
      var node := FrameIsWhole(env, c, frame);
      var middle := Having(c, [node], true);
      HavingMoves(c, [node]);
      var later := PayloadIsWhole(env, middle, rest, broken);
      nodes := [node] + later;
      HavingBoth(c, [node], later, true);
      WholeAlone(env, c.seen, SpentBy(c), c.depth, node, true);
      WholeOfBoth(env, c.seen, SpentBy(c), c.depth, [node], later, true);
      RootsInFront(node, later);
      TilesInFront(frame, Roots(later), rest);
    }
  }

  lemma HavingMoves(c: Counters, nodes: seq<Node>)
    ensures var after := Having(c, nodes, true);
            && after.seen == c.seen + Preorder(nodes) && after.depth == c.depth
            && SpentBy(after) == Charge(SpentBy(c), Unpacked(nodes, true)) && after.polls == c.polls + |Preorder(nodes)|
  {
    hide Preorder, Unpacked, Charge;
  }

  lemma LongEnough(frame: Frame)
    requires IsFrame(frame)
    ensures |frame| > 0
  {
  }

  lemma RootsInFront(node: Node, later: seq<Node>)
    ensures Roots([node] + later) == [node.frame] + Roots(later)
  {
    assert ([node] + later)[1..] == later;
  }

  lemma TilesInFront(frame: Frame, frames: seq<Frame>, rest: seq<byte>)
    requires IsFrame(frame) && Tiles(frames, rest)
    ensures Tiles([frame] + frames, frame + rest)
  {
    hide IsFrame;
    assert ([frame] + frames)[1..] == frames;
  }

  lemma FrameIsRecorded(c: Counters, frame: Frame)
    requires WithinBudget(c)
    ensures var polled, now := c.(polls := c.polls + 1), Counted(c, frame, true);
            && (Record(polled, frame).Success? <==> IsAffordable(SpentBy(now)))
            && (Record(polled, frame) == Failure(PayloadEventLimit) <==> now.events > 1_000_000)
            && (Record(polled, frame) == Failure(PayloadTooLarge) <==> now.events <= 1_000_000 && now.bytes > 536_870_912)
            && (Record(polled, frame).Success? ==>
                  var recorded := Record(polled, frame).value;
                  recorded.(eventCount := recorded.eventCount + 1) == now && WithinBudget(now) && recorded.seen == now.seen)
  {
    SumOfOne(frame);
    if Record(c, frame).Success? {
      RecordKeepsBudget(c, frame);
    }
  }

  lemma SumOfOne(frame: Frame)
    ensures SumLengths([frame]) == |frame|
  {
    assert [frame][..0] == [];
  }

  lemma {:induction false} FrameIsWhole(env: Env, c: Counters, frame: Frame) returns (node: Node)
    requires WithinBudget(c) && IsClean(env, ProcessFrame(env, c.(polls := c.polls + 1), frame))
    ensures node.frame == frame && FirstIsWhole(env, c.seen, SpentBy(c), c.depth, node, true)
    ensures ProcessFrame(env, c.(polls := c.polls + 1), frame).counters == Having(c, [node], true)
    ensures WithinBudget(Having(c, [node], true))
    decreases MAX_PAYLOAD_DEPTH - c.depth, 1
  {
    hide HoldsWhole, ProcessEvent, Record, Having, IsAffordable, WithinBudget;
    FrameIsRecorded(c, frame);
    CountedIs(c, frame, true);
    var now := Counted(c, frame, true);
    var event := env.decode(now.seen, true).value;
    var children := EventIsWhole(env, now, event);
    node := Node(frame, children);
    HavingNode(c, node, true);
    EventKeepsBudget(env, now, event);
  }

  lemma CountedIs(c: Counters, frame: Frame, decompressed: bool)
    ensures var now := Counted(c, frame, decompressed);
            && now.seen == c.seen + [frame] && now.depth == c.depth && now.polls == c.polls + 1
            && SpentBy(now) == if decompressed then Charge(SpentBy(c), [frame]) else SpentBy(c)
  {
    ChargeNothing(SpentBy(c));
  }

  // ----- what is whole is read

  /** A frame at the front of a payload is read when there are bytes left for it. */
  lemma PayloadFrameIsRead(c: Counters, frame: Frame, rest: seq<byte>)
    requires WithinBudget(c) && IsFrame(frame) && IsAffordable(Charge(SpentBy(c), [frame]))
    ensures frame + rest != [] && (frame + rest)[|frame|..] == rest
    ensures ReadEventFrame(frame + rest, None, 0, FrameLimit(c)) == Success(Some(frame))
  {
    var input := frame + rest;
    SumOfOne(frame);
    assert input[9] == frame[9] && input[10] == frame[10] && input[11] == frame[11] && input[12] == frame[12];
    assert input[..|frame|] == frame;
  }

  /** A whole event is read without an error, when no poll answers yes. */
  lemma {:induction false} WholeEventIsRead(env: Env, c: Counters, event: Decoded, children: seq<Node>)
    requires WithinBudget(c) && HoldsWhole(env, c.seen, SpentBy(c), c.depth, event, children)
    requires c.polls + |Preorder(children)| <= env.cancelAt
    ensures ProcessEvent(env, c, event) == Outcome(Having(c, children, true), None)
    decreases children, 3
  {
    HavingNothing(c, true);
    if event.Payload? {
      hide Tiles, Having, IsWhole, ProcessPayload, Preorder;
      PayloadIsEntered(c, event.declaredSize);
      var entered, content := Enter(c, event.declaredSize).value, event.content.value;
      WholePayloadIsRead(env, entered, content.bytes, false, children);
      HavingIsDeeper(c, entered, children);
      HavingMoves(c, children);
    }
  }

  /** The first frame of a payload is read, and the others are whole behind it. */
  lemma PayloadFrontIsRead(env: Env, c: Counters, nodes: seq<Node>, rest: seq<byte>, broken: bool) returns (middle: Counters)
    requires nodes != [] && WithinBudget(c)
    requires AreFrames(Roots(nodes)) && IsWhole(env, c.seen, SpentBy(c), c.depth, nodes, true)
    requires c.polls + |Preorder(nodes)| <= env.cancelAt
    ensures middle == Having(c, [nodes[0]], true) && WithinBudget(middle)
    ensures AreFrames(Roots(nodes[1..])) && IsWhole(env, middle.seen, SpentBy(middle), middle.depth, nodes[1..], true)
    ensures middle.polls + |Preorder(nodes[1..])| <= env.cancelAt
    ensures ProcessPayload(env, c, Concat(Roots(nodes)) + rest, broken) ==
            ProcessPayload(env, middle, Concat(Roots(nodes[1..])) + rest, broken)
    decreases nodes, 0
  {
    var node, later := nodes[0], nodes[1..];
    assert nodes == [node] + later;
    FramesBehind(node, later);
    hide ProcessFrame, IsFrame, AreFrames, FirstIsWhole, IsWhole, Having, Roots, Concat, Preorder, ReadEventFrame, IsAffordable,
      WithinBudget;
    var tail := Concat(Roots(later)) + rest;
    assert Concat(Roots(nodes)) + rest == node.frame + tail;
    WholeInFront(env, c.seen, SpentBy(c), c.depth, node, later, true);
    OneNode(c.seen, SpentBy(c), node, true);
    OrderOfBoth([node], later);
    WholeFrameIsRead(env, c, node);
    HavingMoves(c, [node]);
    middle := Having(c, [node], true);
    PayloadStep(env, c, node, tail, broken);
  }

  predicate AreFrames(frames: seq<Frame>) { forall i :: 0 <= i < |frames| ==> IsFrame(frames[i]) }

  lemma PayloadStep(env: Env, c: Counters, node: Node, rest: seq<byte>, broken: bool)
    requires WithinBudget(c) && IsFrame(node.frame) && c.polls < env.cancelAt
    requires FirstIsWhole(env, c.seen, SpentBy(c), c.depth, node, true)
    requires ProcessFrame(env, c.(polls := c.polls + 1), node.frame) == Outcome(Having(c, [node], true), None)
    requires WithinBudget(Having(c, [node], true))
    ensures ProcessPayload(env, c, node.frame + rest, broken) == ProcessPayload(env, Having(c, [node], true), rest, broken)
  {
    FirstIsAffordable(env, c, node);
    PayloadFrameIsRead(c, node.frame, rest);
    assert c.depth <= MAX_PAYLOAD_DEPTH && Having(c, [node], true).depth <= MAX_PAYLOAD_DEPTH;
    hide ProcessFrame, IsFrame, FirstIsWhole, Having, ReadEventFrame, IsAffordable, WithinBudget;
  }

  /** Whole frames at the front of a payload are read, and what is behind them is read on from there. */
  lemma {:induction false} WholeFrontIsRead(env: Env, c: Counters, nodes: seq<Node>, rest: seq<byte>, broken: bool)
    requires WithinBudget(c) && AreFrames(Roots(nodes)) && IsWhole(env, c.seen, SpentBy(c), c.depth, nodes, true)
    requires c.polls + |Preorder(nodes)| <= env.cancelAt
    ensures WithinBudget(Having(c, nodes, true))
    ensures ProcessPayload(env, c, Concat(Roots(nodes)) + rest, broken) ==
            ProcessPayload(env, Having(c, nodes, true), rest, broken)
    decreases nodes, 1
  {
    if nodes == [] {
      HavingNothing(c, true);
      assert Concat(Roots(nodes)) + rest == rest;
    } else {
      assert nodes == [nodes[0]] + nodes[1..];
      hide ProcessPayload, AreFrames, IsWhole, Having, Roots, Concat, Preorder, WithinBudget;
      var middle := PayloadFrontIsRead(env, c, nodes, rest, broken);
      WholeFrontIsRead(env, middle, nodes[1..], rest, broken);
      HavingBoth(c, [nodes[0]], nodes[1..], true);
    }
  }

  /** A payload that tiles into whole frames is read; content that breaks off behind them is an error. */
  lemma WholePayloadIsRead(env: Env, c: Counters, payload: seq<byte>, broken: bool, nodes: seq<Node>)
    requires WithinBudget(c) && Tiles(Roots(nodes), payload) && IsWhole(env, c.seen, SpentBy(c), c.depth, nodes, true)
    requires c.polls + |Preorder(nodes)| <= env.cancelAt
    ensures ProcessPayload(env, c, payload, broken) ==
            Outcome(Having(c, nodes, true), if broken then Some(PayloadReadFailed) else None)
    decreases nodes, 2
  {
    assert payload == Concat(Roots(nodes)) + [] && AreFrames(Roots(nodes));
    hide IsWhole, Having, Roots, Preorder, Tiles, Concat, AreFrames;
    WholeFrontIsRead(env, c, nodes, [], broken);
    NothingToRead(env, Having(c, nodes, true), broken);
  }

  lemma NothingToRead(env: Env, c: Counters, broken: bool)
    requires WithinBudget(c)
    ensures ProcessPayload(env, c, [], broken) == Outcome(c, if broken then Some(PayloadReadFailed) else None)
  {
  }

  /** The largest frame that may still come out of payloads. */
  function LargestFrame(bytes: nat): nat
  {
    if bytes > 536_870_912 then 0 else if 536_870_912 - bytes < 268_435_456 then 536_870_912 - bytes else 268_435_456
  }

  /** What reading the next frame of a payload, counting it, or decoding it fails with. */
  ghost predicate FailsAtFront(env: Env, c: Counters, rest: seq<byte>, error: Failure)
  {
    var read := ReadEventFrame(rest, None, 0, LargestFrame(c.bytes));
    if read.Failure? then error == read.error
    else
      && read.value.Some?
      && var seen := c.seen + [read.value.value];
         if c.events >= 1_000_000 then error == PayloadEventLimit
         else if env.decode(seen, true).Failure? then error == env.decode(seen, true).error
         else env.decode(seen, true) == Success(Refused) && error == Rejected
  }

  lemma FrontFailureIsReported(env: Env, c: Counters, rest: seq<byte>, broken: bool, error: Failure)
    requires WithinBudget(c) && c.polls < env.cancelAt && rest != [] && FailsAtFront(env, c, rest, error)
    ensures ProcessPayload(env, c, rest, broken).error == Some(error)
  {
    assert LargestFrame(c.bytes) == FrameLimit(c);
    FrameRead(rest, None, 0, FrameLimit(c));
    hide ReadEventFrame, IsFrame;
    var read := ReadEventFrame(rest, None, 0, FrameLimit(c));
    if read.Success? {
      var frame := read.value.value;
      assert Record(c.(polls := c.polls + 1), frame) != Failure(PayloadTooLarge);
      assert ProcessFrame(env, c.(polls := c.polls + 1), frame).error == Some(error);
    }
  }

  /** The first frame behind whole ones that cannot be read, counted or decoded is what the payload fails with. */
  lemma FirstFailureIsReported(
    env: Env, c: Counters, nodes: seq<Node>, rest: seq<byte>, broken: bool, error: Failure)
    requires WithinBudget(c) && AreFrames(Roots(nodes)) && IsWhole(env, c.seen, SpentBy(c), c.depth, nodes, true)
    requires c.polls + |Preorder(nodes)| < env.cancelAt && rest != []
    requires FailsAtFront(env, Having(c, nodes, true), rest, error)
    ensures ProcessPayload(env, c, Concat(Roots(nodes)) + rest, broken).error == Some(error)
  {
    hide IsWhole, Having, Roots, Preorder, Concat, AreFrames, FailsAtFront;
    WholeFrontIsRead(env, c, nodes, rest, broken);
    HavingMoves(c, nodes);
    FrontFailureIsReported(env, Having(c, nodes, true), rest, broken, error);
  }

  lemma FirstIsAffordable(env: Env, c: Counters, node: Node)
    requires FirstIsWhole(env, c.seen, SpentBy(c), c.depth, node, true)
    ensures IsAffordable(Charge(SpentBy(c), [node.frame]))
  {
  }

  lemma FramesBehind(node: Node, later: seq<Node>)
    requires AreFrames(Roots([node] + later))
    ensures IsFrame(node.frame) && AreFrames(Roots(later)) && Concat(Roots([node] + later)) == node.frame + Concat(Roots(later))
  {
    hide IsFrame;
    RootsInFront(node, later);
    var frames := Roots([node] + later);
    assert frames[0] == node.frame && frames[1..] == Roots(later);
    assert forall i :: 0 <= i < |frames[1..]| ==> frames[1..][i] == frames[i + 1];
  }

  lemma {:induction false} WholeFrameIsRead(env: Env, c: Counters, node: Node)
    requires WithinBudget(c) && FirstIsWhole(env, c.seen, SpentBy(c), c.depth, node, true)
    requires c.polls + 1 + |Preorder(node.children)| <= env.cancelAt
    ensures ProcessFrame(env, c.(polls := c.polls + 1), node.frame) == Outcome(Having(c, [node], true), None)
    ensures WithinBudget(Having(c, [node], true))
    decreases node, 1
  {
    hide HoldsWhole, ProcessEvent, Record, Having, IsAffordable, WithinBudget;
    FrameIsRecorded(c, node.frame);
    CountedIs(c, node.frame, true);
    var now := Counted(c, node.frame, true);
    var event := env.decode(now.seen, true).value;
    WholeEventIsRead(env, now, event, node.children);
    HavingNode(c, node, true);
    EventKeepsBudget(env, now, event);
  }

  /** What refuses an event that is not read into: its kind, or a payload that cannot be entered or decompressed. */
  lemma RefusalsAre(env: Env, c: Counters, event: Decoded)
    requires WithinBudget(c)
    requires event.Payload? && event.content.Some? ==> c.depth == 8 || c.bytes + event.declaredSize > 536_870_912
    ensures ProcessEvent(env, c, event) ==
            Outcome(
              c,
              match event
              case Plain => None
              case Refused => Some(Rejected)
              case Payload(declaredSize, _) =>
                Some(if c.depth == 8 then PayloadTooDeep
                     else if c.bytes + declaredSize > 536_870_912 then PayloadTooLarge
                     else DecompressFailed))
  {
    if event.Payload? {
      PayloadIsEntered(c, event.declaredSize);
    }
  }
}

/**
 Reading the input files one after another, and when that completes: exactly when every file falls into
 frames, every payload in them is whole and can be afforded, and no poll answers yes.
 */
module Reading {
  import opened Wrappers
  import opened Framing
  import opened Parser
  import opened FrameForest

  datatype InputFile = InputFile(content: seq<byte>, sizeBytes: nat, opens: bool)

  datatype Terminal = Completed | Canceled | Failed(failure: Failure)

  /** How reading ends, and with which counters. */
  datatype End = End(counters: Counters, terminal: Terminal)

  const MAGIC: seq<byte> := [0xFE, 0x62, 0x69, 0x6E]

  function ReadFileHeader(content: seq<byte>): Option<Failure>
  {
    if |content| < FILE_HEADER_LENGTH then Some(TruncatedFileHeader)
    else if content[..FILE_HEADER_LENGTH] != MAGIC then Some(InvalidFileHeader)
    else None
  }

  function NextFrame(file: InputFile, position: nat): Result<Option<Frame>, Failure>
    requires position <= |file.content|
  {
    ReadEventFrame(file.content[position..], Some(file.sizeBytes), position, MAX_EVENT_SIZE_BYTES)
  }

  /** A frame of the file is decoded, counted and processed. */
  function ReadFrame(env: Env, c: Counters, frame: Frame): (r: Outcome)
    requires c.depth <= MAX_PAYLOAD_DEPTH
    ensures r.counters.depth == c.depth
  {
    var now := c.(seen := c.seen + [frame]);
    match env.decode(now.seen, false)
    case Failure(error) => Outcome(now, Some(error))
    case Success(event) => ProcessEvent(env, now.(eventCount := now.eventCount + 1), event)
  }

  function ReadOn(env: Env, c: Counters, file: InputFile, position: nat): End
    requires c.depth <= MAX_PAYLOAD_DEPTH && position <= |file.content|
    decreases |file.content| - position
  {
    var polled := c.(polls := c.polls + 1);
    if c.polls >= env.cancelAt then End(polled, Canceled)
    else
      FrameRead(file.content[position..], Some(file.sizeBytes), position, MAX_EVENT_SIZE_BYTES);
      match NextFrame(file, position)
      case Failure(error) => End(polled, Failed(error))
      case Success(None) => End(polled, Completed)
      case Success(Some(frame)) =>
        var r := ReadFrame(env, polled, frame);
        if r.error.Some? then End(r.counters, Failed(r.error.value))
        else ReadOn(env, r.counters, file, position + |frame|)
  }

  function ReadFile(env: Env, c: Counters, file: InputFile): End
    requires c.depth <= MAX_PAYLOAD_DEPTH
  {
    var polled := c.(polls := c.polls + 1);
    if c.polls >= env.cancelAt then End(polled, Canceled)
    else if !file.opens then End(polled, Failed(FileOpenFailed))
    else
      match ReadFileHeader(file.content)
      case Some(error) => End(polled, Failed(error))
      case None => ReadOn(env, polled, file, FILE_HEADER_LENGTH)
  }

  lemma {:induction false} ReadOnKeepsBudget(env: Env, c: Counters, file: InputFile, position: nat)
    requires WithinBudget(c) && position <= |file.content|
    ensures WithinBudget(ReadOn(env, c, file, position).counters)
    ensures ReadOn(env, c, file, position).counters.depth == c.depth
    ensures c.polls <= ReadOn(env, c, file, position).counters.polls
    ensures ReadOn(env, c, file, position).terminal.Canceled? ==>
              env.cancelAt < ReadOn(env, c, file, position).counters.polls
    decreases |file.content| - position
  {
    hide ReadFrame, NextFrame;
    var polled := c.(polls := c.polls + 1);
    PollKeepsBudget(c, polled);
    match NextFrame(file, position) {
      case Success(Some(frame)) =>
        NextIsFrame(file, position, frame);
        ReadFrameKeepsBudget(env, polled, frame);
        var r := ReadFrame(env, polled, frame);
        if c.polls < env.cancelAt && r.error.None? {
          ReadOnKeepsBudget(env, r.counters, file, position + |frame|);
        }
      case _ =>
    }
  }

  lemma PollKeepsBudget(before: Counters, after: Counters)
    requires WithinBudget(before) && after == before.(polls := after.polls)
    ensures WithinBudget(after)
  {
  }

  lemma DepthIsBounded(c: Counters)
    requires WithinBudget(c)
    ensures c.depth <= MAX_PAYLOAD_DEPTH
  {
  }

  lemma NextIsFrame(file: InputFile, position: nat, frame: Frame)
    requires position <= |file.content| && NextFrame(file, position) == Success(Some(frame))
    ensures 0 < |frame| && position + |frame| <= |file.content| && position + |frame| <= file.sizeBytes
  {
    FrameRead(file.content[position..], Some(file.sizeBytes), position, MAX_EVENT_SIZE_BYTES);
  }

  lemma ReadOnStep(env: Env, c: Counters, file: InputFile, position: nat)
    requires c.depth <= MAX_PAYLOAD_DEPTH && position <= |file.content|
    ensures var polled, next, end := c.(polls := c.polls + 1), NextFrame(file, position), ReadOn(env, c, file, position);
            if c.polls >= env.cancelAt then end == End(polled, Canceled)
            else if next.Failure? then end == End(polled, Failed(next.error))
            else if next.value.None? then end == End(polled, Completed)
            else
              var frame := next.value.value;
              var r := ReadFrame(env, polled, frame);
              if r.error.Some? then end == End(r.counters, Failed(r.error.value))
              else position + |frame| <= |file.content| && end == ReadOn(env, r.counters, file, position + |frame|)
  {
    hide ReadFrame, NextFrame;
    match NextFrame(file, position) {
      case Success(Some(frame)) => NextIsFrame(file, position, frame);
      case _ =>
    }
  }

  lemma ReadFrameKeepsBudget(env: Env, c: Counters, frame: Frame)
    requires WithinBudget(c)
    ensures WithinBudget(ReadFrame(env, c, frame).counters) && c.polls <= ReadFrame(env, c, frame).counters.polls
  {
    hide SumLengths, ProcessEvent;
    var now := c.(seen := c.seen + [frame]);
    match env.decode(now.seen, false) {
      case Failure(_) =>
      case Success(event) =>
        EventKeepsBudget(env, now.(eventCount := now.eventCount + 1), event);
        EventPollsOn(env, now.(eventCount := now.eventCount + 1), event);
    }
  }

  lemma ReadFileKeepsBudget(env: Env, c: Counters, file: InputFile)
    requires WithinBudget(c)
    ensures WithinBudget(ReadFile(env, c, file).counters) && ReadFile(env, c, file).counters.depth == c.depth
    ensures ReadFile(env, c, file).terminal.Canceled? ==> env.cancelAt < ReadFile(env, c, file).counters.polls
  {
    hide ReadOn;
    var polled := c.(polls := c.polls + 1);
    PollKeepsBudget(c, polled);
    if ReadFileHeader(file.content).None? {
      ReadOnKeepsBudget(env, polled, file, FILE_HEADER_LENGTH);
    }
  }

  // ----- one file

  /** The bytes from `position` on are the frames, and lie within the recorded size. */
  predicate IsCutFrom(file: InputFile, position: nat, frames: seq<Frame>)
    requires position <= |file.content|
  {
    Tiles(frames, file.content[position..]) && (position == |file.content| || |file.content| <= file.sizeBytes)
  }

  /** What is behind the four magic bytes falls into these frames. */
  predicate IsCutInto(file: InputFile, frames: seq<Frame>)
  {
    && file.opens && 4 <= |file.content| && file.content[..4] == [0xFE, 0x62, 0x69, 0x6E]
    && Tiles(frames, file.content[4..]) && (|file.content| == 4 || |file.content| <= file.sizeBytes)
  }

  lemma CutAtEnd(file: InputFile, position: nat)
    requires position <= |file.content|
    ensures NextFrame(file, position) == Success(None) <==> position == |file.content|
    ensures position == |file.content| ==> IsCutFrom(file, position, [])
  {
    EndIsEmpty(file.content[position..], file.sizeBytes, position);
  }

  lemma CutInFront(file: InputFile, position: nat, frame: Frame, rest: seq<Frame>)
    requires position <= |file.content| && IsCutFrom(file, position, [frame] + rest)
    ensures NextFrame(file, position) == Success(Some(frame)) && 0 < |frame| && position + |frame| <= |file.content|
    ensures IsCutFrom(file, position + |frame|, rest)
  {
    hide EventSize;
    var frames, input := [frame] + rest, file.content[position..];
    assert frames[0] == frame && frames[1..] == rest;
    assert input == frame + Concat(rest);
    FrameIsRead(frame, Concat(rest), file.sizeBytes, position);
    assert file.content[position + |frame|..] == input[|frame|..] == Concat(rest);
    assert forall i :: 0 <= i < |rest| ==> rest[i] == frames[i + 1];
  }

  lemma CutAfter(file: InputFile, position: nat, frame: Frame, rest: seq<Frame>)
    requires position <= |file.content| && NextFrame(file, position) == Success(Some(frame))
    requires position + |frame| <= |file.content| && IsCutFrom(file, position + |frame|, rest)
    ensures IsCutFrom(file, position, [frame] + rest)
  {
    hide ReadEventFrame, IsFrame;
    var input := file.content[position..];
    FrameRead(input, Some(file.sizeBytes), position, MAX_EVENT_SIZE_BYTES);
    assert input == frame + input[|frame|..] && input[|frame|..] == file.content[position + |frame|..];
    TilesInFront(frame, rest, file.content[position + |frame|..]);
  }

  /** A frame of a file is whole exactly when it is read without an error. */
  lemma ReadFrameIsWhole(env: Env, c: Counters, frame: Frame) returns (node: Node)
    requires WithinBudget(c) && IsClean(env, ReadFrame(env, c.(polls := c.polls + 1), frame))
    ensures node.frame == frame && FirstIsWhole(env, c.seen, SpentBy(c), c.depth, node, false)
    ensures ReadFrame(env, c.(polls := c.polls + 1), frame).counters == Having(c, [node], false)
    ensures WithinBudget(Having(c, [node], false))
  {
    hide HoldsWhole, ProcessEvent, Having, WithinBudget;
    FrameIsCounted(c, frame);
    CountedIs(c, frame, false);
    var now := Counted(c, frame, false);
    var event := env.decode(now.seen, false).value;
    var children := EventIsWhole(env, now, event);
    node := Node(frame, children);
    HavingNode(c, node, false);
    EventKeepsBudget(env, now, event);
  }

  lemma WholeFrameIsReadToo(env: Env, c: Counters, node: Node)
    requires WithinBudget(c) && FirstIsWhole(env, c.seen, SpentBy(c), c.depth, node, false)
    requires c.polls + 1 + |Preorder(node.children)| <= env.cancelAt
    ensures ReadFrame(env, c.(polls := c.polls + 1), node.frame) == Outcome(Having(c, [node], false), None)
    ensures WithinBudget(Having(c, [node], false))
  {
    hide HoldsWhole, ProcessEvent, Having, WithinBudget;
    FrameIsCounted(c, node.frame);
    CountedIs(c, node.frame, false);
    var now := Counted(c, node.frame, false);
    var event := env.decode(now.seen, false).value;
    WholeEventIsRead(env, now, event, node.children);
    HavingNode(c, node, false);
    EventKeepsBudget(env, now, event);
  }

  lemma FrameIsCounted(c: Counters, frame: Frame)
    requires WithinBudget(c)
    ensures var seen := c.(polls := c.polls + 1, seen := c.seen + [frame]);
            Counted(c, frame, false) == seen.(eventCount := seen.eventCount + 1) && WithinBudget(Counted(c, frame, false))
  {
    assert c.inner + [] == c.inner;
  }

  lemma HavingMovesOn(c: Counters, nodes: seq<Node>)
    ensures var after := Having(c, nodes, false);
            && after.seen == c.seen + Preorder(nodes) && after.depth == c.depth
            && SpentBy(after) == Charge(SpentBy(c), Unpacked(nodes, false)) && after.polls == c.polls + |Preorder(nodes)|
  {
    hide Preorder, Unpacked, Charge;
  }

  /** A file read to its end falls into whole nodes. */
  lemma {:induction false} CompletedIsWhole(env: Env, c: Counters, file: InputFile, position: nat)
    returns (nodes: seq<Node>)
    requires WithinBudget(c) && position <= |file.content| && ReadOn(env, c, file, position).terminal.Completed?
    ensures IsCutFrom(file, position, Roots(nodes)) && IsWhole(env, c.seen, SpentBy(c), c.depth, nodes, false)
    ensures c.polls + |Preorder(nodes)| < env.cancelAt
    ensures var after := Having(c, nodes, false);
            ReadOn(env, c, file, position).counters == after.(polls := after.polls + 1)
    decreases |file.content| - position
  {
    hide ReadOn, ReadFrame, NextFrame, IsCutFrom, FirstIsWhole, IsWhole, Having, Roots, Preorder, WithinBudget;
    DepthIsBounded(c);
    ReadOnStep(env, c, file, position);
    if NextFrame(file, position).value.None? {
      nodes := [];
      NothingIsWhole(env, c);
      CutAtEnd(file, position);
    } else {
      var frame := NextFrame(file, position).value.value;
      var node := CompletedGoesOn(env, c, file, position, frame);
      var later := CompletedIsWhole(env, Having(c, [node], false), file, position + |frame|);
      nodes := [node] + later;
      CompletedInFront(env, c, file, position, node, later);
    }
  }

  lemma CompletedGoesOn(env: Env, c: Counters, file: InputFile, position: nat, frame: Frame) returns (node: Node)
    requires WithinBudget(c) && position <= |file.content| && ReadOn(env, c, file, position).terminal.Completed?
    requires NextFrame(file, position) == Success(Some(frame))
    ensures 0 < |frame| && position + |frame| <= |file.content|
    ensures node.frame == frame && FirstIsWhole(env, c.seen, SpentBy(c), c.depth, node, false)
    ensures WithinBudget(Having(c, [node], false))
    ensures ReadOn(env, c, file, position) == ReadOn(env, Having(c, [node], false), file, position + |frame|)
  {
    hide ReadOn, ReadFrame, NextFrame, FirstIsWhole, Having, WithinBudget;
    DepthIsBounded(c);
    NextIsFrame(file, position, frame);
    CompletedIsClean(env, c, file, position, frame);
    node := ReadFrameIsWhole(env, c, frame);
  }

  lemma CompletedInFront(env: Env, c: Counters, file: InputFile, position: nat, node: Node, later: seq<Node>)
    requires position + |node.frame| <= |file.content| && NextFrame(file, position) == Success(Some(node.frame))
    requires FirstIsWhole(env, c.seen, SpentBy(c), c.depth, node, false)
    requires IsCutFrom(file, position + |node.frame|, Roots(later))
    requires var middle := Having(c, [node], false);
             IsWhole(env, middle.seen, SpentBy(middle), middle.depth, later, false)
    ensures IsCutFrom(file, position, Roots([node] + later))
    ensures IsWhole(env, c.seen, SpentBy(c), c.depth, [node] + later, false)
    ensures Having(Having(c, [node], false), later, false) == Having(c, [node] + later, false)
    ensures Having(c, [node], false).polls + |Preorder(later)| == c.polls + |Preorder([node] + later)|
  {
    hide NextFrame, IsCutFrom, FirstIsWhole, IsWhole, Having, Roots, Preorder, Unpacked, Charge;
    HavingMovesOn(c, [node]);
    HavingBoth(c, [node], later, false);
    OrderOfBoth([node], later);
    WholeAlone(env, c.seen, SpentBy(c), c.depth, node, false);
    WholeOfBoth(env, c.seen, SpentBy(c), c.depth, [node], later, false);
    RootsInFront(node, later);
    CutAfter(file, position, node.frame, Roots(later));
  }

  lemma NothingIsWhole(env: Env, c: Counters)
    ensures Roots([]) == [] && Preorder([]) == [] && IsWhole(env, c.seen, SpentBy(c), c.depth, [], false)
    ensures Having(c, [], false) == c
  {
  }

  lemma CompletedIsClean(env: Env, c: Counters, file: InputFile, position: nat, frame: Frame)
    requires WithinBudget(c) && position <= |file.content| && ReadOn(env, c, file, position).terminal.Completed?
    requires NextFrame(file, position) == Success(Some(frame)) && position + |frame| <= |file.content|
    ensures var r := ReadFrame(env, c.(polls := c.polls + 1), frame);
            && IsClean(env, r) && WithinBudget(r.counters)
            && ReadOn(env, c, file, position) == ReadOn(env, r.counters, file, position + |frame|)
  {
    hide ReadFrame, NextFrame;
    var polled := c.(polls := c.polls + 1);
    var r := ReadFrame(env, polled, frame);
    PollKeepsBudget(c, polled);
    ReadFrameKeepsBudget(env, polled, frame);
    var next := ReadOn(env, r.counters, file, position + |frame|);
  }

  /** A file that falls into whole nodes is read to its end, when no poll answers yes. */
  lemma {:induction false} WholeIsCompleted(env: Env, c: Counters, file: InputFile, position: nat, nodes: seq<Node>)
    requires WithinBudget(c) && position <= |file.content|
    requires IsCutFrom(file, position, Roots(nodes)) && IsWhole(env, c.seen, SpentBy(c), c.depth, nodes, false)
    requires c.polls + |Preorder(nodes)| < env.cancelAt
    ensures var after := Having(c, nodes, false);
            ReadOn(env, c, file, position) == End(after.(polls := after.polls + 1), Completed)
    decreases |nodes|
  {
    hide ReadFrame, NextFrame, FirstIsWhole, IsWhole, Having, Preorder, WithinBudget;
    if nodes == [] {
      NothingIsWhole(env, c);
      CutAtEnd(file, position);
    } else {
      var node, later := nodes[0], nodes[1..];
      assert nodes == [node] + later;
      RootsInFront(node, later);
      hide IsCutFrom, Roots;
      CutInFront(file, position, node.frame, Roots(later));
      WholeInFront(env, c.seen, SpentBy(c), c.depth, node, later, false);
      OneNode(c.seen, SpentBy(c), node, false);
      OrderOfBoth([node], later);
      WholeFrameIsReadToo(env, c, node);
      HavingMovesOn(c, [node]);
      WholeIsCompleted(env, Having(c, [node], false), file, position + |node.frame|, later);
      HavingBoth(c, [node], later, false);
    }
  }

  /** A file is read to its end by these nodes: two polls besides those of its frames. */
  predicate IsReadBy(env: Env, c: Counters, file: InputFile, nodes: seq<Node>)
  {
    && IsCutInto(file, Roots(nodes)) && IsWhole(env, c.seen, SpentBy(c), c.depth, nodes, false)
    && c.polls + |Preorder(nodes)| + 2 <= env.cancelAt
  }

  function HavingFile(c: Counters, nodes: seq<Node>): Counters
  {
    Having(c, nodes, false).(polls := c.polls + |Preorder(nodes)| + 2)
  }

  lemma HavingPolled(c: Counters, nodes: seq<Node>)
    ensures var polled := c.(polls := c.polls + 1);
            var after := Having(polled, nodes, false);
            after.(polls := after.polls + 1) == HavingFile(c, nodes) && SpentBy(polled) == SpentBy(c)
  {
    hide Preorder, Unpacked;
  }

  lemma HeaderIsMagic(file: InputFile)
    ensures ReadFileHeader(file.content).None? <==> 4 <= |file.content| && file.content[..4] == [0xFE, 0x62, 0x69, 0x6E]
  {
  }

  lemma CompletedFileIsRead(env: Env, c: Counters, file: InputFile) returns (nodes: seq<Node>)
    requires WithinBudget(c) && ReadFile(env, c, file).terminal.Completed?
    ensures IsReadBy(env, c, file, nodes) && ReadFile(env, c, file).counters == HavingFile(c, nodes)
  {
    hide ReadOn, IsWhole, Having, Roots, Preorder, Tiles;
    var polled := c.(polls := c.polls + 1);
    PollKeepsBudget(c, polled);
    HeaderIsMagic(file);
    nodes := CompletedIsWhole(env, polled, file, FILE_HEADER_LENGTH);
    HavingPolled(c, nodes);
  }

  lemma ReadFileIsCompleted(env: Env, c: Counters, file: InputFile, nodes: seq<Node>)
    requires WithinBudget(c) && IsReadBy(env, c, file, nodes)
    ensures ReadFile(env, c, file) == End(HavingFile(c, nodes), Completed)
  {
    hide ReadOn, IsWhole, Having, Roots, Preorder, Tiles;
    var polled := c.(polls := c.polls + 1);
    PollKeepsBudget(c, polled);
    HeaderIsMagic(file);
    HavingPolled(c, nodes);
    WholeIsCompleted(env, polled, file, FILE_HEADER_LENGTH, nodes);
  }

  // ----- all files

  function ReadFiles(env: Env, c: Counters, files: seq<InputFile>): End
    requires c.depth <= MAX_PAYLOAD_DEPTH && WithinBudget(c)
    decreases |files|
  {
    if files == [] then End(c, Completed)
    else
      var first := ReadFile(env, c, files[0]);
      ReadFileKeepsBudget(env, c, files[0]);
      if first.terminal.Completed? then ReadFiles(env, first.counters, files[1..]) else first
  }

  lemma {:induction false} ReadFilesKeepsBudget(env: Env, c: Counters, files: seq<InputFile>)
    requires WithinBudget(c)
    ensures var end := ReadFiles(env, c, files);
            && WithinBudget(end.counters) && end.counters.depth == c.depth
            && (end.terminal.Canceled? ==> env.cancelAt < end.counters.polls)
    decreases |files|
  {
    hide ReadFile, WithinBudget;
    DepthIsBounded(c);
    if files != [] {
      ReadFileKeepsBudget(env, c, files[0]);
      var first := ReadFile(env, c, files[0]);
      if first.terminal.Completed? {
        ReadFilesKeepsBudget(env, first.counters, files[1..]);
      }
    }
  }

  /** The nodes of all files, in order. */
  function AllNodes(plan: seq<seq<Node>>): seq<Node>
  {
    if plan == [] then [] else plan[0] + AllNodes(plan[1..])
  }

  predicate AreCutInto(files: seq<InputFile>, plan: seq<seq<Node>>)
  {
    |plan| == |files| && forall i :: 0 <= i < |files| ==> IsCutInto(files[i], Roots(plan[i]))
  }

  /** The frames of the files, from `c` on: every file cut, every payload whole, and no poll that answers yes. */
  predicate AreReadBy(env: Env, c: Counters, files: seq<InputFile>, plan: seq<seq<Node>>)
  {
    && AreCutInto(files, plan)
    && IsWhole(env, c.seen, SpentBy(c), c.depth, AllNodes(plan), false)
    && c.polls + |Preorder(AllNodes(plan))| + 2 * |files| <= env.cancelAt
  }

  function HavingFiles(c: Counters, plan: seq<seq<Node>>): Counters
  {
    Having(c, AllNodes(plan), false).(polls := c.polls + |Preorder(AllNodes(plan))| + 2 * |plan|)
  }

  lemma HavingPolls(c: Counters, nodes: seq<Node>, more: nat)
    ensures Having(c.(polls := c.polls + more), nodes, false) ==
            Having(c, nodes, false).(polls := c.polls + more + |Preorder(nodes)|)
  {
    hide Preorder, Unpacked;
  }

  lemma PlanInFront(env: Env, c: Counters, files: seq<InputFile>, first: seq<Node>, later: seq<seq<Node>>)
    requires files != []
    ensures var middle := HavingFile(c, first);
            && (AreReadBy(env, c, files, [first] + later) <==>
                  IsReadBy(env, c, files[0], first) && AreReadBy(env, middle, files[1..], later))
            && HavingFiles(c, [first] + later) == HavingFiles(middle, later)
  {
    hide IsCutInto, IsWhole, Having, Roots, Preorder, Unpacked, Charge;
    var plan, middle := [first] + later, HavingFile(c, first);
    assert plan[0] == first && plan[1..] == later;
    assert AllNodes(plan) == first + AllNodes(later);
    CutFilesInFront(files, first, later);
    OrderOfBoth(first, AllNodes(later));
    HavingMovesOn(c, first);
    WholeOfBoth(env, c.seen, SpentBy(c), c.depth, first, AllNodes(later), false);
    HavingBoth(c, first, AllNodes(later), false);
    HavingPolls(Having(c, first, false), AllNodes(later), 2);
  }

  lemma CutFilesInFront(files: seq<InputFile>, first: seq<Node>, later: seq<seq<Node>>)
    requires files != []
    ensures AreCutInto(files, [first] + later) <==> IsCutInto(files[0], Roots(first)) && AreCutInto(files[1..], later)
  {
    hide IsCutInto, Roots;
    var plan := [first] + later;
    assert plan[0] == first && forall i :: 0 <= i < |later| ==> plan[i + 1] == later[i];
    if AreCutInto(files, plan) {
      forall i | 0 <= i < |files[1..]| ensures IsCutInto(files[1..][i], Roots(later[i])) {
        assert IsCutInto(files[i + 1], Roots(plan[i + 1]));
      }
    }
  }

  lemma {:induction false} CompletedFilesAreRead(env: Env, c: Counters, files: seq<InputFile>)
    returns (plan: seq<seq<Node>>)
    requires WithinBudget(c) && ReadFiles(env, c, files).terminal.Completed? && c.polls <= env.cancelAt
    ensures AreReadBy(env, c, files, plan) && ReadFiles(env, c, files).counters == HavingFiles(c, plan)
    decreases |files|
  {
    hide ReadFile, Having, Preorder, IsCutInto, Roots, IsWhole, WithinBudget;
    if files == [] {
      plan := [];
      NothingIsWhole(env, c);
    } else {
      hide AreReadBy, HavingFiles;
      ReadFileKeepsBudget(env, c, files[0]);
      var first := CompletedFileIsRead(env, c, files[0]);
      var later := CompletedFilesAreRead(env, HavingFile(c, first), files[1..]);
      plan := [first] + later;
      PlanInFront(env, c, files, first, later);
    }
  }

  lemma {:induction false} ReadFilesAreCompleted(env: Env, c: Counters, files: seq<InputFile>, plan: seq<seq<Node>>)
    requires WithinBudget(c) && AreReadBy(env, c, files, plan)
    ensures ReadFiles(env, c, files) == End(HavingFiles(c, plan), Completed)
    decreases |files|
  {
    hide ReadFile, Having, Preorder, IsCutInto, Roots, IsWhole, WithinBudget;
    if files == [] {
      NothingIsWhole(env, c);
    } else {
      var first, later := plan[0], plan[1..];
      assert plan == [first] + later;
      hide AreReadBy, HavingFiles;
      PlanInFront(env, c, files, first, later);
      ReadFileIsCompleted(env, c, files[0], first);
      ReadFileKeepsBudget(env, c, files[0]);
      ReadFilesAreCompleted(env, HavingFile(c, first), files[1..], later);
    }
  }

  /**
   An analysis completes exactly when its files fall into frames whose payloads are whole, at every depth,
   and can be afforded, and the polls for the frames and two for each file all answer no.
   */
  lemma CompletesExactly(env: Env, files: seq<InputFile>)
    ensures WithinBudget(INITIAL)
    ensures ReadFiles(env, INITIAL, files).terminal.Completed? <==>
            exists plan: seq<seq<Node>> ::
              && AreCutInto(files, plan) && IsWhole(env, [], Spent(0, 0), 0, AllNodes(plan), false)
              && |Preorder(AllNodes(plan))| + 2 * |files| <= env.cancelAt
  {
    hide ReadFiles, IsWhole, AreCutInto, Preorder, AllNodes;
    if ReadFiles(env, INITIAL, files).terminal.Completed? {
      var plan := CompletedFilesAreRead(env, INITIAL, files);
      assert AreCutInto(files, plan);
    }
    if plan: seq<seq<Node>> :|
        && AreCutInto(files, plan) && IsWhole(env, [], Spent(0, 0), 0, AllNodes(plan), false)
        && |Preorder(AllNodes(plan))| + 2 * |files| <= env.cancelAt {
      ReadFilesAreCompleted(env, INITIAL, files, plan);
    }
  }
}

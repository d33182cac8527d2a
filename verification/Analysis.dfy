/** The loop over the input files: frames, cancellation, progress and the terminal outcome. */
module Analysis {
  import opened Wrappers
  import opened Framing
  import opened Parser
  import opened FrameForest
  import opened Reading

  datatype Progress = Progress(bytesRead: nat, totalBytes: nat, filesCompleted: nat, eventCount: nat)

  function TotalBytes(files: seq<InputFile>): nat
  {
    if files == [] then 0 else TotalBytes(files[..|files| - 1]) + files[|files| - 1].sizeBytes
  }

  // ----- progress

  predicate IsMonotone(progress: seq<Progress>)
  {
    forall i, j :: 0 <= i < j < |progress| ==> progress[i].bytesRead <= progress[j].bytesRead
  }

  predicate IsAtMost(progress: seq<Progress>, bytes: nat)
  {
    forall i :: 0 <= i < |progress| ==> progress[i].bytesRead <= bytes
  }

  predicate EndsWith(progress: seq<Progress>, p: Progress) { progress != [] && progress[|progress| - 1] == p }

  /** Within a file the next report is 1 MiB or 256 events behind the one before, or behind the start. */
  predicate IsSpaced(bytes: nat, events: nat, filesCompleted: nat, p: Progress)
  {
    p.filesCompleted == filesCompleted ==> p.bytesRead >= bytes + 1_048_576 || p.eventCount >= events + 256
  }

  predicate IsPaced(progress: seq<Progress>)
  {
    && (progress != [] ==> IsSpaced(0, 0, 0, progress[0]))
    && forall i :: 0 < i < |progress| ==>
         var before := progress[i - 1];
         IsSpaced(before.bytesRead, before.eventCount, before.filesCompleted, progress[i])
  }

  lemma ReportKeepsOrder(progress: seq<Progress>, p: Progress, bound: nat)
    requires IsMonotone(progress) && IsAtMost(progress, p.bytesRead) && p.bytesRead <= bound
    ensures IsMonotone(progress + [p]) && IsAtMost(progress + [p], bound)
  {
  }

  lemma AtMostMore(progress: seq<Progress>, low: nat, high: nat)
    requires IsAtMost(progress, low) && low <= high
    ensures IsAtMost(progress, high)
  {
  }

  /** The state of the progress reports: what was reported, and when last. */
  datatype Reports = Reports(progress: seq<Progress>, lastBytes: nat, lastEvents: nat)

  predicate AreRight(reports: Reports, bytes: nat)
  {
    IsMonotone(reports.progress) && IsAtMost(reports.progress, bytes)
  }

  /** The reports are paced, and the last one is remembered, also with the number of files completed. */
  predicate ArePaced(reports: Reports, filesCompleted: nat)
  {
    && IsPaced(reports.progress)
    && if reports.progress == [] then reports.lastBytes == reports.lastEvents == filesCompleted == 0
       else
         var last := reports.progress[|reports.progress| - 1];
         last.bytesRead == reports.lastBytes && last.eventCount == reports.lastEvents && last.filesCompleted == filesCompleted
  }

  function Report(reports: Reports, p: Progress): Reports
  {
    Reports(reports.progress + [p], p.bytesRead, p.eventCount)
  }

  predicate IsDue(reports: Reports, bytes: nat, events: nat)
  {
    bytes >= reports.lastBytes + PROGRESS_BYTE_INTERVAL || events >= reports.lastEvents + PROGRESS_EVENT_INTERVAL
  }

  lemma ReportIsPaced(reports: Reports, filesCompleted: nat, p: Progress)
    requires ArePaced(reports, filesCompleted) && p.filesCompleted >= filesCompleted
    requires IsDue(reports, p.bytesRead, p.eventCount) || p.filesCompleted > filesCompleted
    ensures ArePaced(Report(reports, p), p.filesCompleted)
  {
    var all := reports.progress + [p];
    forall i | 0 < i < |all|
      ensures IsSpaced(all[i - 1].bytesRead, all[i - 1].eventCount, all[i - 1].filesCompleted, all[i])
    {
      if i < |reports.progress| {
        assert all[i - 1] == reports.progress[i - 1] && all[i] == reports.progress[i];
      }
    }
  }

  /** No report is overdue. */
  predicate IsTimely(reports: Reports, bytes: nat, events: nat)
  {
    bytes < reports.lastBytes + 1_048_576 && events < reports.lastEvents + 256
  }

  // ----- one file

  /** A frame is counted, decoded and processed. */
  method AnalyzeFrame(env: Env, state: ParserState, frame: Frame) returns (error: Option<Failure>)
    requires state.depth <= MAX_PAYLOAD_DEPTH
    modifies state
    ensures Outcome(state.Value(), error) == ReadFrame(env, old(state.Value()), frame)
  {
    hide ProcessEvent;
    state.seen := state.seen + [frame];
    var event := env.decode(state.seen, false);
    if event.Failure? {
      return Some(event.error);
    }
    state.eventCount := state.eventCount + 1;
    error := state.Process(env, event.value);
  }

  /**
   One file: it is completed exactly when it falls into frames whose payloads are whole and no poll answers
   yes, and has then seen these; reports are in order, paced, and, when the file is completed, not overdue.
   */
  method AnalyzeFile(
    env: Env, state: ParserState, file: InputFile, completedBytes: nat, totalBytes: nat, filesCompleted: nat,
    reports: Reports)
    returns (terminal: Terminal, after: Reports, ghost nodes: seq<Node>)
    requires WithinBudget(state.Value())
    requires AreRight(reports, completedBytes) && completedBytes + file.sizeBytes <= totalBytes
    requires ArePaced(reports, filesCompleted) && IsTimely(reports, completedBytes + 4, state.eventCount)
    modifies state
    ensures End(state.Value(), terminal) == ReadFile(env, old(state.Value()), file)
    ensures WithinBudget(state.Value()) && state.depth == old(state.depth)
    ensures AreRight(after, completedBytes + file.sizeBytes) && ArePaced(after, filesCompleted)
    ensures terminal.Completed? ==>
              && IsReadBy(env, old(state.Value()), file, nodes)
              && state.Value() == HavingFile(old(state.Value()), nodes)
              && IsTimely(after, completedBytes + |file.content|, state.eventCount)
    ensures (exists n: seq<Node> :: IsReadBy(env, old(state.Value()), file, n)) ==> terminal.Completed?
    ensures terminal.Canceled? ==> state.polls > env.cancelAt
  {
    hide AreRight, ArePaced, IsTimely, IsDue, WithinBudget, NextFrame, ReadFrame, ReadOn, ReadFile, IsReadBy, HavingFile, Report,
      ReadFileHeader;
    ghost var start := state.Value();
    nodes := FileIsRead(env, start, file);
    ghost var whole := ReadFile(env, start, file);
    ReadFileStarts(env, start, file);
    StartsRight(reports, completedBytes, file.sizeBytes);
    after := reports;
    var cancelled := state.IsCancelled(env);
    if cancelled {
      return Canceled, after, nodes;
    }
    if !file.opens {
      return Failed(FileOpenFailed), after, nodes;
    }
    var header := ReadFileHeader(file.content);
    if header.Some? {
      return Failed(header.value), after, nodes;
    }
    var position: nat := FILE_HEADER_LENGTH;
    ghost var bound := completedBytes;
    while true
      invariant FILE_HEADER_LENGTH <= position <= |file.content| && state.depth == start.depth
      invariant ReadOn(env, state.Value(), file, position) == whole
      invariant completedBytes <= bound <= completedBytes + file.sizeBytes && bound <= completedBytes + position
      invariant AreRight(after, bound) && ArePaced(after, filesCompleted)
      invariant IsTimely(after, completedBytes + position, state.eventCount)
      decreases |file.content| - position
    {
      ReadOnStep(env, state.Value(), file, position);
      StartsRight(after, bound, completedBytes + file.sizeBytes - bound);
      cancelled := state.IsCancelled(env);
      if cancelled {
        return Canceled, after, nodes;
      }
      var next := NextFrame(file, position);
      if next.Failure? {
        return Failed(next.error), after, nodes;
      }
      if next.value.None? {
        CutAtEnd(file, position);
        return Completed, after, nodes;
      }
      var frame := next.value.value;
      NextIsFrame(file, position, frame);
      var end := position + |frame|;
      var error := AnalyzeFrame(env, state, frame);
      if error.Some? {
        return Failed(error.value), after, nodes;
      }
      after := ReportWhenDue(after, bound, Progress(completedBytes + end, totalBytes, filesCompleted, state.eventCount));
      bound := completedBytes + end;
      position := end;
    }
  }

  lemma ReadFileStarts(env: Env, c: Counters, file: InputFile)
    requires c.depth <= MAX_PAYLOAD_DEPTH
    ensures var polled := c.(polls := c.polls + 1);
            ReadFile(env, c, file) ==
            if c.polls >= env.cancelAt then End(polled, Canceled)
            else if !file.opens then End(polled, Failed(FileOpenFailed))
            else if ReadFileHeader(file.content).Some? then End(polled, Failed(ReadFileHeader(file.content).value))
            else ReadOn(env, polled, file, FILE_HEADER_LENGTH)
    ensures ReadFileHeader(file.content).None? ==> FILE_HEADER_LENGTH <= |file.content|
  {
  }

  lemma StartsRight(reports: Reports, bytes: nat, more: nat)
    requires AreRight(reports, bytes)
    ensures AreRight(reports, bytes + more)
  {
    AtMostMore(reports.progress, bytes, bytes + more);
  }

  method ReportWhenDue(reports: Reports, ghost bytes: nat, p: Progress) returns (after: Reports)
    requires AreRight(reports, bytes) && bytes <= p.bytesRead && ArePaced(reports, p.filesCompleted)
    ensures after == if IsDue(reports, p.bytesRead, p.eventCount) then Report(reports, p) else reports
    ensures AreRight(after, p.bytesRead) && ArePaced(after, p.filesCompleted)
    ensures IsTimely(after, p.bytesRead, p.eventCount)
  {
    StartsRight(reports, bytes, p.bytesRead - bytes);
    after := reports;
    if IsDue(reports, p.bytesRead, p.eventCount) {
      ReportKeepsOrder(reports.progress, p, p.bytesRead);
      ReportIsPaced(reports, p.filesCompleted, p);
      after := Report(reports, p);
    }
  }

  /** How a file ends: what the budget is then, and when it is completed. */
  lemma FileIsRead(env: Env, c: Counters, file: InputFile) returns (nodes: seq<Node>)
    requires WithinBudget(c)
    ensures c.depth <= MAX_PAYLOAD_DEPTH
    ensures WithinBudget(ReadFile(env, c, file).counters) && ReadFile(env, c, file).counters.depth == c.depth
    ensures var end := ReadFile(env, c, file);
            && (end.terminal.Completed? ==> IsReadBy(env, c, file, nodes) && end.counters == HavingFile(c, nodes))
            && ((exists n: seq<Node> :: IsReadBy(env, c, file, n)) ==> end.terminal.Completed?)
            && (end.terminal.Canceled? ==> end.counters.polls > env.cancelAt)
  {
    hide ReadFile, IsReadBy, HavingFile, WithinBudget;
    DepthIsBounded(c);
    ReadFileKeepsBudget(env, c, file);
    nodes := [];
    if ReadFile(env, c, file).terminal.Completed? {
      nodes := CompletedFileIsRead(env, c, file);
    }
    if n: seq<Node> :| IsReadBy(env, c, file, n) {
      ReadFileIsCompleted(env, c, file, n);
    }
  }

  /** What is parsed without an error is counted: inner frames add as much to the one count as to the other. */
  lemma {:induction false} EventCountsInner(env: Env, c: Counters, event: Decoded)
    requires c.depth <= MAX_PAYLOAD_DEPTH
    ensures var r := ProcessEvent(env, c, event);
            r.error.None? ==>
              && r.counters.eventCount - |r.counters.inner| == c.eventCount - |c.inner|
              && r.counters.eventCount - |r.counters.seen| == c.eventCount - |c.seen|
    decreases MAX_PAYLOAD_DEPTH - c.depth, 0
  {
    if event.Payload? && Enter(c, event.declaredSize).Success? && event.content.Some? {
      var content := event.content.value;
      PayloadCountsInner(env, Enter(c, event.declaredSize).value, content.bytes, content.broken);
    }
  }

  lemma {:induction false} PayloadCountsInner(env: Env, c: Counters, payload: seq<byte>, broken: bool)
    requires c.depth <= MAX_PAYLOAD_DEPTH
    ensures var r := ProcessPayload(env, c, payload, broken);
            r.error.None? ==>
              && r.counters.eventCount - |r.counters.inner| == c.eventCount - |c.inner|
              && r.counters.eventCount - |r.counters.seen| == c.eventCount - |c.seen|
    decreases MAX_PAYLOAD_DEPTH - c.depth, 1 + |payload|
  {
    hide ReadEventFrame, ProcessFrame;
    if payload != [] && c.polls < env.cancelAt {
      FrameRead(payload, None, 0, FrameLimit(c));
      match ReadEventFrame(payload, None, 0, FrameLimit(c)) {
        case Success(Some(frame)) =>
          var polled := c.(polls := c.polls + 1);
          FrameCountsInner(env, polled, frame);
          var r := ProcessFrame(env, polled, frame);
          if r.error.None? {
            PayloadCountsInner(env, r.counters, payload[|frame|..], broken);
          }
        case _ =>
      }
    }
  }

  lemma {:induction false} FrameCountsInner(env: Env, c: Counters, frame: Frame)
    requires c.depth <= MAX_PAYLOAD_DEPTH
    ensures var r := ProcessFrame(env, c, frame);
            r.error.None? ==>
              && r.counters.eventCount - |r.counters.inner| == c.eventCount - |c.inner|
              && r.counters.eventCount - |r.counters.seen| == c.eventCount - |c.seen|
    decreases MAX_PAYLOAD_DEPTH - c.depth, 1
  {
    if Record(c, frame).Success? {
      var recorded := Record(c, frame).value;
      var event := env.decode(recorded.seen, true);
      if event.Success? {
        EventCountsInner(env, recorded.(eventCount := recorded.eventCount + 1), event.value);
      }
    }
  }

  // ----- all files

  lemma TotalOfMore(files: seq<InputFile>, i: nat)
    requires i < |files|
    ensures TotalBytes(files[..i + 1]) == TotalBytes(files[..i]) + files[i].sizeBytes
    ensures TotalBytes(files[..i + 1]) <= TotalBytes(files)
  {
    assert files[..i + 1][..i] == files[..i];
    TotalGrows(files, i + 1);
  }

  lemma {:induction false} TotalGrows(files: seq<InputFile>, i: nat)
    requires i <= |files|
    ensures TotalBytes(files[..i]) <= TotalBytes(files)
    decreases |files|
  {
    if i == |files| {
      assert files[..i] == files;
    } else {
      var n := |files| - 1;
      assert files[..n][..i] == files[..i];
      TotalGrows(files[..n], i);
    }
  }

  /**
   The whole analysis. Progress never goes back and never passes the total, and reports are paced; the budget
   holds at every end. It completes exactly when every file falls into its frames and every payload in them, at
   every depth, into its own to its end, all within the limits, and no poll answers yes; it has then seen these
   and no others in reading order, has counted each once, and has reported all bytes.
   */
  method AnalyzeFiles(env: Env, files: seq<InputFile>)
    returns (terminal: Terminal, progress: seq<Progress>, counters: Counters, ghost plan: seq<seq<Node>>)
    ensures IsMonotone(progress) && IsAtMost(progress, TotalBytes(files)) && IsPaced(progress)
    ensures WithinBudget(counters) && counters.depth == 0
    ensures terminal.Completed? <==>
            exists p: seq<seq<Node>> ::
              && AreCutInto(files, p) && IsWhole(env, [], Spent(0, 0), 0, AllNodes(p), false)
              && |Preorder(AllNodes(p))| + 2 * |files| <= env.cancelAt
    ensures terminal.Completed? ==>
              && AreCutInto(files, plan) && IsWhole(env, [], Spent(0, 0), 0, AllNodes(plan), false)
              && counters.seen == Preorder(AllNodes(plan)) && counters.inner == Unpacked(AllNodes(plan), false)
              && counters.eventCount == |counters.seen|
              && (files != [] ==> EndsWith(progress, Progress(TotalBytes(files), TotalBytes(files), |files|, counters.eventCount)))
    ensures terminal.Canceled? ==> counters.polls > env.cancelAt
  {
    CompletesExactly(env, files);
    ReadFilesKeepsBudget(env, INITIAL, files);
    plan := [];
    if ReadFiles(env, INITIAL, files).terminal.Completed? {
      plan := CompletedFilesAreRead(env, INITIAL, files);
      FromTheStart(plan);
    }
    hide IsMonotone, IsAtMost, IsPaced, ArePaced, IsTimely, TotalBytes, WithinBudget, ReadFile, IsReadBy, AreCutInto, IsWhole,
      AllNodes, HavingFiles, HavingFile, Preorder, Unpacked;
    var state := new ParserState();
    var total := TotalBytes(files);
    var completedBytes := 0;
    var reports := Reports([], 0, 0);
    StartIsRight(files);
    for i := 0 to |files|
      invariant fresh(state) && WithinBudget(state.Value()) && state.depth == 0
      invariant ReadFiles(env, state.Value(), files[i..]) == ReadFiles(env, INITIAL, files)
      invariant completedBytes == TotalBytes(files[..i]) && completedBytes <= total
      invariant AreRight(reports, completedBytes) && ArePaced(reports, i)
      invariant IsTimely(reports, completedBytes + 4, state.eventCount)
      invariant i > 0 ==> EndsWith(reports.progress, Progress(completedBytes, total, i, state.eventCount))
    {
      assert files[i..][0] == files[i] && files[i..][1..] == files[i + 1..];
      TotalOfMore(files, i);
      var outcome, after, nodes := AnalyzeFile(env, state, files[i], completedBytes, total, i, reports);
      if !outcome.Completed? {
        AtMostMore(after.progress, completedBytes + files[i].sizeBytes, total);
        PacedReports(after, i);
        return outcome, after.progress, state.Value(), plan;
      }
      completedBytes := completedBytes + files[i].sizeBytes;
      var p := Progress(completedBytes, total, i + 1, state.eventCount);
      ReportKeepsOrder(after.progress, p, completedBytes);
      ReportIsPaced(after, i, p);
      FileReportIsTimely(after, p);
      reports := Report(after, p);
    }
    assert files[|files|..] == [] && files[..|files|] == files;
    PacedReports(reports, |files|);
    terminal, progress, counters := Completed, reports.progress, state.Value();
  }

  lemma FileReportIsTimely(reports: Reports, p: Progress)
    ensures IsTimely(Report(reports, p), p.bytesRead + 4, p.eventCount)
  {
  }

  lemma PacedReports(reports: Reports, filesCompleted: nat)
    requires ArePaced(reports, filesCompleted)
    ensures IsPaced(reports.progress)
  {
  }

  lemma FromTheStart(plan: seq<seq<Node>>)
    ensures var after := HavingFiles(INITIAL, plan);
            && after.seen == Preorder(AllNodes(plan)) && after.inner == Unpacked(AllNodes(plan), false)
            && after.eventCount == |after.seen|
  {
    hide Preorder, Unpacked, AllNodes;
    assert [] + Preorder(AllNodes(plan)) == Preorder(AllNodes(plan));
  }

  lemma StartIsRight(files: seq<InputFile>)
    ensures IsMonotone([]) && IsAtMost([], 0) && TotalBytes(files[..0]) == 0
    ensures ArePaced(Reports([], 0, 0), 0) && IsTimely(Reports([], 0, 0), 4, 0)
  {
  }
}

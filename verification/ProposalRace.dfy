/**
 Proposals made, confirmed and dismissed concurrently. Confirming takes three separate steps, claim, run
 and update, between which anything else may happen; making one takes two, since its id and its time are
 taken before the queue is locked.
 */
module ProposalRace {
  import opened Wrappers
  import opened ProposalQueue

  /** A confirmation in progress: claimed, and perhaps already submitted to the database. */
  datatype Task = Task(id: nat, submitted: bool)

  /**
   `submitted` and `dismissed` are the history of what reached the database and what the user turned down;
   `arrived` numbers the proposals in the order the queue accepted them.
   */
  datatype State = State(
    queue: seq<Proposal>, clock: nat, drafts: seq<Proposal>, tasks: seq<Task>, submitted: seq<nat>,
    dismissed: set<nat>, arrivals: nat, arrived: map<nat, nat>)

  const START := State([], 0, [], [], [], {}, 0, map[])

  // ----- steps

  predicate Creates(s: State, s': State, sql: string)
  {
    s' == s.(clock := s.clock + 1, drafts := s.drafts + [Proposal(s.clock, sql, s.clock, Pending, None)])
  }

  function DraftsWithout(s: State, k: nat): seq<Proposal>
    requires k < |s.drafts|
  {
    Removed(s.drafts, k)
  }

  predicate Pushes(s: State, s': State, k: nat)
  {
    k < |s.drafts| &&
    match Enqueue(s.queue, s.drafts[k])
    case Failure(_) => s' == s.(drafts := DraftsWithout(s, k))
    case Success(queue) =>
      s' == s.(queue := queue, drafts := DraftsWithout(s, k), arrivals := s.arrivals + 1,
               arrived := s.arrived[s.drafts[k].id := s.arrivals])
  }

  predicate ClaimsToExecute(s: State, s': State, id: nat)
  {
    match ClaimExecute(s.queue, id)
    case Failure(_) => s' == s
    case Success(queue) => s' == s.(queue := queue, tasks := s.tasks + [Task(id, false)])
  }

  predicate Submits(s: State, s': State, k: nat)
  {
    && k < |s.tasks| && !s.tasks[k].submitted
    && s' == s.(tasks := s.tasks[k := s.tasks[k].(submitted := true)], submitted := s.submitted + [s.tasks[k].id])
  }

  /** The outcome is written back; without a submission it can only be a failure. */
  predicate Updates(s: State, s': State, k: nat, ok: bool, summary: string)
  {
    && k < |s.tasks| && (ok ==> s.tasks[k].submitted)
    && s' == s.(queue := Update(s.queue, s.tasks[k].id, if ok then Executed else Failed, Some(summary)),
                tasks := s.tasks[..k] + s.tasks[k + 1..])
  }

  predicate Dismisses(s: State, s': State, id: nat)
  {
    match ClaimDismiss(s.queue, id)
    case Failure(_) => s' == s
    case Success(queue) => s' == s.(queue := queue, dismissed := s.dismissed + {id})
  }

  ghost predicate Next(s: State, s': State)
  {
    || (exists sql :: Creates(s, s', sql))
    || (exists k :: Pushes(s, s', k))
    || (exists id :: ClaimsToExecute(s, s', id))
    || (exists k :: Submits(s, s', k))
    || (exists k, ok, summary :: Updates(s, s', k, ok, summary))
    || (exists id :: Dismisses(s, s', id))
  }

  ghost predicate IsRun(run: seq<State>)
  {
    run != [] && run[0] == START && forall i :: 0 <= i < |run| - 1 ==> Next(run[i], run[i + 1])
  }

  // ----- the invariant

  predicate IsKnown(s: State, id: nat) { id < s.clock }

  predicate EntryIsRight(s: State, p: Proposal)
  {
    && IsKnown(s, p.id) && p.id in s.arrived && s.arrived[p.id] < s.arrivals
    && (p.status.Pending? ==> p.id !in s.submitted && p.id !in s.dismissed)
  }

  predicate Ordered(queue: seq<Proposal>, arrived: map<nat, nat>)
  {
    && (forall i :: 0 <= i < |queue| ==> queue[i].id in arrived)
    && (forall i, j :: 0 <= i < j < |queue| ==> arrived[queue[i].id] > arrived[queue[j].id])
  }

  predicate DraftIsRight(s: State, d: Proposal)
  {
    d.status.Pending? && IsKnown(s, d.id) && d.id !in s.arrived && d.id !in s.submitted && d.id !in s.dismissed
  }

  ghost predicate IsExecuting(queue: seq<Proposal>, id: nat)
  {
    exists p :: p in queue && p.id == id && p.status.Executing?
  }

  ghost predicate TaskIsRight(s: State, t: Task)
  {
    IsExecuting(s.queue, t.id) && t.id !in s.dismissed && (!t.submitted ==> t.id !in s.submitted)
  }

  predicate HistoryIsRight(s: State)
  {
    && (forall i :: 0 <= i < |s.submitted| ==> IsKnown(s, s.submitted[i]))
    && (forall id :: id in s.dismissed ==> IsKnown(s, id) && id !in s.submitted)
    && (forall i, j :: 0 <= i < j < |s.submitted| ==> s.submitted[i] != s.submitted[j])
    && (forall id :: id in s.arrived ==> IsKnown(s, id))
  }

  predicate DistinctDrafts(drafts: seq<Proposal>)
  {
    forall i, j :: 0 <= i < j < |drafts| ==> drafts[i].id != drafts[j].id
  }

  predicate DistinctTasks(tasks: seq<Task>)
  {
    forall i, j :: 0 <= i < j < |tasks| ==> tasks[i].id != tasks[j].id
  }

  ghost predicate Invariant(s: State)
  {
    && |s.queue| <= 100
    && Ordered(s.queue, s.arrived)
    && (forall i :: 0 <= i < |s.queue| ==> EntryIsRight(s, s.queue[i]))
    && DistinctDrafts(s.drafts)
    && (forall i :: 0 <= i < |s.drafts| ==> DraftIsRight(s, s.drafts[i]))
    && DistinctTasks(s.tasks)
    && (forall i :: 0 <= i < |s.tasks| ==> TaskIsRight(s, s.tasks[i]))
    && HistoryIsRight(s)
  }

  lemma CreateKeeps(s: State, s': State, sql: string)
    requires Invariant(s) && Creates(s, s', sql)
    ensures Invariant(s')
  {
    forall i | 0 <= i < |s'.drafts| ensures DraftIsRight(s', s'.drafts[i]) {
      if i < |s.drafts| {
        assert DraftIsRight(s, s.drafts[i]);
      } else {
        assert forall j :: 0 <= j < |s.submitted| ==> IsKnown(s, s.submitted[j]);
      }
    }
    forall i | 0 <= i < |s'.tasks| ensures TaskIsRight(s', s'.tasks[i]) {
      assert TaskIsRight(s, s.tasks[i]);
    }
    forall i | 0 <= i < |s'.queue| ensures EntryIsRight(s', s'.queue[i]) {
      assert EntryIsRight(s, s.queue[i]);
    }
  }

  /** The queue after an addition: the newcomer, then the old ones, less perhaps one finished proposal. */
  ghost predicate IsGrown(queue: seq<Proposal>, p: Proposal, queue': seq<Proposal>)
  {
    || queue' == [p] + queue
    || exists k: nat :: k < |queue| && IsTerminal(queue[k].status) && queue' == [p] + Removed(queue, k)
  }

  lemma AdditionGrows(queue: seq<Proposal>, p: Proposal)
    requires |queue| <= 100 && !IsTerminal(p.status) && Enqueue(queue, p).Success?
    ensures IsGrown(queue, p, Enqueue(queue, p).value)
  {
    hide Enqueue, Removed;
    EnqueueMakesRoom(queue, p);
    if |queue| == 100 {
      var k: nat :| IsOldestFinished(queue, k) && Enqueue(queue, p) == Success([p] + Removed(queue, k));
      assert k < |queue|;
    }
  }

  /** A queue with a newcomer that arrived after all the others. */
  lemma InFrontKeepsOrder(queue: seq<Proposal>, p: Proposal, arrived: map<nat, nat>, arrivals: nat)
    requires Ordered(queue, arrived) && p.id !in arrived
    requires forall i :: 0 <= i < |queue| ==> arrived[queue[i].id] < arrivals
    ensures Ordered([p] + queue, arrived[p.id := arrivals])
  {
    var queue' := [p] + queue;
    assert forall i :: 1 <= i < |queue'| ==> queue'[i] == queue[i - 1];
  }

  lemma RemovedKeepsOrder(queue: seq<Proposal>, k: nat, arrived: map<nat, nat>)
    requires k < |queue| && Ordered(queue, arrived)
    ensures Ordered(Removed(queue, k), arrived)
    ensures forall q :: q in Removed(queue, k) ==> q in queue
    ensures forall q :: q in queue && q != queue[k] ==> q in Removed(queue, k)
  {
    var rest := Removed(queue, k);
    forall q | q in queue && q != queue[k] ensures q in rest {
      var i: nat :| i < |queue| && queue[i] == q;
      assert q == rest[if i < k then i else i - 1];
    }
  }

  lemma GrownKeepsOrder(queue: seq<Proposal>, p: Proposal, queue': seq<Proposal>, arrived: map<nat, nat>, arrivals: nat)
    requires IsGrown(queue, p, queue') && Ordered(queue, arrived) && p.id !in arrived
    requires forall i :: 0 <= i < |queue| ==> arrived[queue[i].id] < arrivals
    ensures Ordered(queue', arrived[p.id := arrivals])
    ensures forall q :: q in queue' ==> q == p || q in queue
    ensures forall q :: q in queue && !IsTerminal(q.status) ==> q in queue'
  {
    hide Ordered;
    if queue' == [p] + queue {
      InFrontKeepsOrder(queue, p, arrived, arrivals);
    } else {
      var k: nat :| k < |queue| && IsTerminal(queue[k].status) && queue' == [p] + Removed(queue, k);
      RemovedKeepsOrder(queue, k, arrived);
      var rest := Removed(queue, k);
      forall i | 0 <= i < |rest| ensures arrived[rest[i].id] < arrivals {
        assert rest[i] in queue;
      }
      InFrontKeepsOrder(rest, p, arrived, arrivals);
    }
  }

  lemma PushRefusedKeeps(s: State, s': State, k: nat)
    requires Invariant(s) && Pushes(s, s', k) && Enqueue(s.queue, s.drafts[k]).Failure?
    ensures Invariant(s')
  {
    hide Ordered, Enqueue, IsExecuting;
    forall i | 0 <= i < |s'.drafts| ensures DraftIsRight(s', s'.drafts[i]) {
      assert DraftIsRight(s, s.drafts[if i < k then i else i + 1]);
    }
    forall i | 0 <= i < |s'.tasks| ensures TaskIsRight(s', s'.tasks[i]) {
      assert TaskIsRight(s, s.tasks[i]);
    }
    forall i | 0 <= i < |s'.queue| ensures EntryIsRight(s', s'.queue[i]) {
      assert EntryIsRight(s, s.queue[i]);
    }
  }

  /** The queue of an accepted push. */
  lemma PushedQueue(s: State, s': State, k: nat)
    requires Invariant(s) && Pushes(s, s', k) && Enqueue(s.queue, s.drafts[k]).Success?
    ensures Ordered(s'.queue, s'.arrived) && |s'.queue| <= 100
    ensures forall q :: q in s'.queue ==> q == s.drafts[k] || q in s.queue
    ensures forall q :: q in s.queue && !IsTerminal(q.status) ==> q in s'.queue
  {
    hide Ordered, Enqueue, IsGrown;
    var p := s.drafts[k];
    assert DraftIsRight(s, p);
    AdditionGrows(s.queue, p);
    forall i | 0 <= i < |s.queue| ensures s.arrived[s.queue[i].id] < s.arrivals {
      assert EntryIsRight(s, s.queue[i]);
    }
    GrownKeepsOrder(s.queue, p, s'.queue, s.arrived, s.arrivals);
    EnqueueIsBounded(s.queue, p);
  }

  lemma PushAcceptedKeeps(s: State, s': State, k: nat)
    requires Invariant(s) && Pushes(s, s', k) && Enqueue(s.queue, s.drafts[k]).Success?
    ensures Invariant(s')
  {
    hide Ordered, Enqueue;
    var p := s.drafts[k];
    assert DraftIsRight(s, p);
    PushedQueue(s, s', k);
    forall i | 0 <= i < |s'.queue| ensures EntryIsRight(s', s'.queue[i]) {
      if s'.queue[i] != p {
        assert s'.queue[i] in s.queue;
      }
    }
    forall i | 0 <= i < |s'.tasks| ensures TaskIsRight(s', s'.tasks[i]) {
      assert TaskIsRight(s, s.tasks[i]);
    }
    forall i | 0 <= i < |s'.drafts| ensures DraftIsRight(s', s'.drafts[i]) {
      assert DraftIsRight(s, s.drafts[if i < k then i else i + 1]);
    }
  }

  lemma PushKeeps(s: State, s': State, k: nat)
    requires Invariant(s) && Pushes(s, s', k)
    ensures Invariant(s')
  {
    hide Invariant, Enqueue;
    if Enqueue(s.queue, s.drafts[k]).Success? {
      PushAcceptedKeeps(s, s', k);
    } else {
      PushRefusedKeeps(s, s', k);
    }
  }

  lemma EnqueueIsBounded(queue: seq<Proposal>, p: Proposal)
    requires Enqueue(queue, p).Success?
    ensures |Enqueue(queue, p).value| <= 100
  {
  }

  // ----- changing the status of one entry

  lemma OrderedIsDistinct(queue: seq<Proposal>, arrived: map<nat, nat>, i: nat, j: nat)
    requires Ordered(queue, arrived) && i < |queue| && j < |queue| && queue[i].id == queue[j].id
    ensures i == j
  {
  }

  /** All entries but one stay, and the one keeps its id. */
  lemma StatusKeepsOthers(queue: seq<Proposal>, arrived: map<nat, nat>, k: nat, status: Status, summary: Option<string>)
    requires k < |queue| && Ordered(queue, arrived)
    ensures Ordered(WithStatus(queue, k, status, summary), arrived)
    ensures forall p :: p in queue && p.id != queue[k].id ==> p in WithStatus(queue, k, status, summary)
    ensures forall id :: id != queue[k].id && IsExecuting(queue, id) ==> IsExecuting(WithStatus(queue, k, status, summary), id)
  {
    var queue' := WithStatus(queue, k, status, summary);
    assert forall i :: 0 <= i < |queue| ==> queue'[i].id == queue[i].id;
    forall p | p in queue && p.id != queue[k].id ensures p in queue' {
      var i :| 0 <= i < |queue| && queue[i] == p;
      assert queue'[i] == p;
    }
  }

  /** A pending entry is no task's. */
  lemma PendingHasNoTask(s: State, k: nat)
    requires Invariant(s) && k < |s.queue| && s.queue[k].status.Pending?
    ensures forall i :: 0 <= i < |s.tasks| ==> s.tasks[i].id != s.queue[k].id
  {
    OthersHaveOtherIds(s, k);
    forall i | 0 <= i < |s.tasks| ensures s.tasks[i].id != s.queue[k].id {
      assert TaskIsRight(s, s.tasks[i]);
      var p :| p in s.queue && p.id == s.tasks[i].id && p.status.Executing?;
      var j :| 0 <= j < |s.queue| && s.queue[j] == p;
      assert s.queue[j].id != s.queue[k].id;
    }
  }

  lemma ClaimKeeps(s: State, s': State, id: nat)
    requires Invariant(s) && ClaimsToExecute(s, s', id)
    ensures Invariant(s')
  {
    hide Ordered, IsExecuting;
    match Claimable(s.queue, id) {
      case Failure(_) =>
      case Success(k) =>
        PendingHasNoTask(s, k);
        StatusKeepsOthers(s.queue, s.arrived, k, Executing, s.queue[k].resultSummary);
        assert EntryIsRight(s, s.queue[k]);
        EntriesStayRight(s, s', k);
        NowExecuting(s'.queue, k);
        forall i | 0 <= i < |s'.tasks| ensures TaskIsRight(s', s'.tasks[i]) {
          if i < |s.tasks| {
            assert TaskIsRight(s, s.tasks[i]);
          }
        }
        forall i | 0 <= i < |s'.drafts| ensures DraftIsRight(s', s'.drafts[i]) {
          assert DraftIsRight(s, s.drafts[i]);
        }
    }
  }

  lemma NowExecuting(queue: seq<Proposal>, k: nat)
    requires k < |queue| && queue[k].status.Executing?
    ensures IsExecuting(queue, queue[k].id)
  {
    assert queue[k] in queue;
  }

  /** Entries stay right when one of them leaves the pending state and the histories agree. */
  lemma EntriesStayRight(s: State, s': State, k: nat)
    requires forall i :: 0 <= i < |s.queue| ==> EntryIsRight(s, s.queue[i])
    requires k < |s.queue| && |s'.queue| == |s.queue| && !s'.queue[k].status.Pending? && s'.queue[k].id == s.queue[k].id
    requires forall i :: 0 <= i < |s.queue| && i != k ==> s'.queue[i] == s.queue[i] && s.queue[i].id != s.queue[k].id
    requires s'.clock == s.clock && s'.arrived == s.arrived && s'.arrivals == s.arrivals
    requires s'.submitted == s.submitted && s'.dismissed <= s.dismissed + {s.queue[k].id}
    ensures forall i :: 0 <= i < |s'.queue| ==> EntryIsRight(s', s'.queue[i])
  {
    forall i | 0 <= i < |s'.queue| ensures EntryIsRight(s', s'.queue[i]) {
      assert EntryIsRight(s, s.queue[i]);
    }
  }

  lemma DismissKeeps(s: State, s': State, id: nat)
    requires Invariant(s) && Dismisses(s, s', id)
    ensures Invariant(s')
  {
    hide Ordered, IsExecuting;
    match Claimable(s.queue, id) {
      case Failure(_) =>
      case Success(k) =>
        PendingHasNoTask(s, k);
        StatusKeepsOthers(s.queue, s.arrived, k, Dismissed, Some("dismissed"));
        assert EntryIsRight(s, s.queue[k]);
        OthersHaveOtherIds(s, k);
        EntriesStayRight(s, s', k);
        forall i | 0 <= i < |s'.tasks| ensures TaskIsRight(s', s'.tasks[i]) {
          assert TaskIsRight(s, s.tasks[i]);
        }
        forall i | 0 <= i < |s'.drafts| ensures DraftIsRight(s', s'.drafts[i]) {
          assert DraftIsRight(s, s.drafts[i]);
        }
    }
  }

  lemma OthersHaveOtherIds(s: State, k: nat)
    requires Ordered(s.queue, s.arrived) && k < |s.queue|
    ensures forall i :: 0 <= i < |s.queue| && i != k ==> s.queue[i].id != s.queue[k].id
  {
  }

  lemma SubmitKeeps(s: State, s': State, k: nat)
    requires Invariant(s) && Submits(s, s', k)
    ensures Invariant(s')
  {
    hide Ordered;
    var id := s.tasks[k].id;
    assert TaskIsRight(s, s.tasks[k]);
    var p :| p in s.queue && p.id == id && p.status.Executing?;
    var e :| 0 <= e < |s.queue| && s.queue[e] == p;
    assert EntryIsRight(s, s.queue[e]);
    OthersHaveOtherIds(s, e);
    forall i | 0 <= i < |s'.queue| ensures EntryIsRight(s', s'.queue[i]) {
      assert EntryIsRight(s, s.queue[i]);
    }
    forall i | 0 <= i < |s'.tasks| ensures TaskIsRight(s', s'.tasks[i]) {
      assert TaskIsRight(s, s.tasks[i]);
    }
    forall i | 0 <= i < |s'.drafts| ensures DraftIsRight(s', s'.drafts[i]) {
      assert DraftIsRight(s, s.drafts[i]);
    }
    forall i | 0 <= i < |s'.submitted| ensures IsKnown(s', s'.submitted[i]) {
      if i < |s.submitted| {
        assert IsKnown(s, s.submitted[i]);
      }
    }
  }

  /** The update of a task finds its entry, and the entry is executing. */
  lemma UpdateFindsItsEntry(s: State, k: nat)
    requires Invariant(s) && k < |s.tasks|
    ensures IndexOf(s.queue, s.tasks[k].id).Some?
    ensures s.queue[IndexOf(s.queue, s.tasks[k].id).value].status.Executing?
  {
    assert TaskIsRight(s, s.tasks[k]);
    var p :| p in s.queue && p.id == s.tasks[k].id && p.status.Executing?;
    var j :| 0 <= j < |s.queue| && s.queue[j] == p;
    OrderedIsDistinct(s.queue, s.arrived, j, IndexOf(s.queue, s.tasks[k].id).value);
  }

  lemma UpdateKeeps(s: State, s': State, k: nat, ok: bool, summary: string)
    requires Invariant(s) && Updates(s, s', k, ok, summary)
    ensures Invariant(s')
  {
    hide Ordered, IsExecuting;
    UpdateFindsItsEntry(s, k);
    var e := IndexOf(s.queue, s.tasks[k].id).value;
    StatusKeepsOthers(s.queue, s.arrived, e, if ok then Executed else Failed, Some(summary));
    OthersHaveOtherIds(s, e);
    EntriesStayRight(s, s', e);
    forall i | 0 <= i < |s'.tasks| ensures TaskIsRight(s', s'.tasks[i]) {
      assert TaskIsRight(s, s.tasks[if i < k then i else i + 1]);
    }
    forall i | 0 <= i < |s'.drafts| ensures DraftIsRight(s', s'.drafts[i]) {
      assert DraftIsRight(s, s.drafts[i]);
    }
  }

  lemma NextKeeps(s: State, s': State)
    requires Invariant(s) && Next(s, s')
    ensures Invariant(s')
  {
    hide Invariant, Creates, Pushes, ClaimsToExecute, Submits, Updates, Dismisses;
    if sql :| Creates(s, s', sql) {
      CreateKeeps(s, s', sql);
    } else if k :| Pushes(s, s', k) {
      PushKeeps(s, s', k);
    } else if id :| ClaimsToExecute(s, s', id) {
      ClaimKeeps(s, s', id);
    } else if k :| Submits(s, s', k) {
      SubmitKeeps(s, s', k);
    } else if k, ok, summary :| Updates(s, s', k, ok, summary) {
      UpdateKeeps(s, s', k, ok, summary);
    } else {
      var id :| Dismisses(s, s', id);
      DismissKeeps(s, s', id);
    }
  }

  lemma {:induction false} RunKeepsInvariant(run: seq<State>, i: nat)
    requires IsRun(run) && i < |run|
    ensures Invariant(run[i])
  {
    hide Next, Invariant;
    if i == 0 {
      StartIsRight();
    } else {
      RunKeepsInvariant(run, i - 1);
      assert Next(run[i - 1], run[i - 1 + 1]);
      NextKeeps(run[i - 1], run[i]);
    }
  }

  lemma StartIsRight()
    ensures Invariant(START)
  {
  }

  // ----- safety

  /**
   At every moment of every run: the queue is within its limit, holds each proposal once, and is newest
   first by arrival; nothing is submitted twice, and nothing dismissed is submitted at all.
   */
  lemma QueueIsSafe(run: seq<State>, i: nat)
    requires IsRun(run) && i < |run|
    ensures var s := run[i];
            && |s.queue| <= 100
            && Ordered(s.queue, s.arrived)
            && (forall j, k :: 0 <= j < k < |s.queue| ==> s.queue[j].id != s.queue[k].id)
            && (forall j, k :: 0 <= j < k < |s.submitted| ==> s.submitted[j] != s.submitted[k])
            && (forall id :: id in s.dismissed ==> id !in s.submitted)
  {
    RunKeepsInvariant(run, i);
  }

  /** In every run, the update that follows a claim finds its proposal, still executing. */
  lemma UpdatesFindTheirEntries(run: seq<State>, i: nat, k: nat)
    requires IsRun(run) && i < |run| && k < |run[i].tasks|
    ensures var s := run[i];
            var index := IndexOf(s.queue, s.tasks[k].id);
            index.Some? && s.queue[index.value].status.Executing?
  {
    hide Invariant;
    RunKeepsInvariant(run, i);
    UpdateFindsItsEntry(run[i], k);
  }

  /** Claim, run and update, one after the other. */
  ghost predicate Confirms(s: State, id: nat, summary: string, s': State)
  {
    exists claimed: State, ran: State ::
      && ClaimsToExecute(s, claimed, id) && Submits(claimed, ran, |s.tasks|)
      && Updates(ran, s', |s.tasks|, true, summary)
  }

  lemma FirstInOrder(queue: seq<Proposal>, arrived: map<nat, nat>, k: nat)
    requires k < |queue| && Ordered(queue, arrived)
    ensures IndexOf(queue, queue[k].id) == Some(k)
  {
    OrderedIsDistinct(queue, arrived, k, IndexOf(queue, queue[k].id).value);
  }

  /**
   In every run a pending proposal can be confirmed at once: its own three steps are open to it, the
   database receives it for the first time, its entry alone changes, and no task is left behind.
   */
  lemma PendingCanBeConfirmed(run: seq<State>, i: nat, k: nat, summary: string) returns (s': State)
    requires IsRun(run) && i < |run| && k < |run[i].queue| && run[i].queue[k].status.Pending?
    ensures var s := run[i];
            var p := s.queue[k];
            && Confirms(s, p.id, summary, s')
            && p.id !in s.submitted
            && s' == s.(queue := s.queue[k := p.(status := Executed, resultSummary := Some(summary))],
                        submitted := s.submitted + [p.id])
  {
    var s := run[i];
    var p := s.queue[k];
    RunKeepsInvariant(run, i);
    FirstInOrder(s.queue, s.arrived, k);
    assert EntryIsRight(s, p);
    var executing := WithStatus(s.queue, k, Executing, p.resultSummary);
    StatusKeepsOthers(s.queue, s.arrived, k, Executing, p.resultSummary);
    FirstInOrder(executing, s.arrived, k);
    var claimed := s.(queue := executing, tasks := s.tasks + [Task(p.id, false)]);
    var ran := claimed.(tasks := s.tasks + [Task(p.id, true)], submitted := s.submitted + [p.id]);
    s' := ran.(queue := WithStatus(executing, k, Executed, Some(summary)), tasks := s.tasks);
    ConfirmedInThree(s, claimed, ran, s', p.id, summary);
  }

  lemma ConfirmedInThree(s: State, claimed: State, ran: State, s': State, id: nat, summary: string)
    requires ClaimExecute(s.queue, id).Success?
    requires claimed == s.(queue := ClaimExecute(s.queue, id).value, tasks := s.tasks + [Task(id, false)])
    requires ran == claimed.(tasks := s.tasks + [Task(id, true)], submitted := s.submitted + [id])
    requires s' == ran.(queue := Update(claimed.queue, id, Executed, Some(summary)), tasks := s.tasks)
    ensures Confirms(s, id, summary, s')
  {
    hide ClaimExecute, Update;
    var n := |s.tasks|;
    assert claimed.tasks[n := Task(id, true)] == ran.tasks;
    assert ran.tasks[..n] + ran.tasks[n + 1..] == s.tasks;
    assert Submits(claimed, ran, n);
  }

  /** An entry with the same id and text. */
  ghost predicate IsStillThere(p: Proposal, queue: seq<Proposal>)
  {
    exists q :: q in queue && q.id == p.id && q.sql == p.sql
  }

  lemma StatusKeepsAll(queue: seq<Proposal>, k: nat, status: Status, summary: Option<string>)
    requires k < |queue|
    ensures forall p :: p in queue ==> IsStillThere(p, WithStatus(queue, k, status, summary))
  {
    var queue' := WithStatus(queue, k, status, summary);
    forall p | p in queue ensures IsStillThere(p, queue') {
      var i :| 0 <= i < |queue| && queue[i] == p;
      assert queue'[i] in queue';
    }
  }

  /** No step evicts a proposal that is still open. */
  lemma OpenIsNeverEvicted(s: State, s': State, p: Proposal)
    requires Invariant(s) && Next(s, s') && p in s.queue && !IsTerminal(p.status)
    ensures IsStillThere(p, s'.queue)
  {
    hide Invariant, Creates, Enqueue, Claimable, IndexOf, WithStatus;
    if p in s'.queue {
    } else if k: nat :| Pushes(s, s', k) {
      if Enqueue(s.queue, s.drafts[k]).Success? {
        PushedQueue(s, s', k);
      }
    } else if id: nat :| ClaimsToExecute(s, s', id) {
      var k := Claimable(s.queue, id).value;
      StatusKeepsAll(s.queue, k, Executing, s.queue[k].resultSummary);
    } else if id: nat :| Dismisses(s, s', id) {
      StatusKeepsAll(s.queue, Claimable(s.queue, id).value, Dismissed, Some("dismissed"));
    } else if k: nat, ok, summary :| Updates(s, s', k, ok, summary) {
      UpdateFindsItsEntry(s, k);
      StatusKeepsAll(s.queue, IndexOf(s.queue, s.tasks[k].id).value, if ok then Executed else Failed, Some(summary));
    } else if k: nat :| Submits(s, s', k) {
    } else {
      var sql :| Creates(s, s', sql);
      CreateKeepsQueue(s, s', sql);
    }
  }

  lemma CreateKeepsQueue(s: State, s': State, sql: string)
    requires Creates(s, s', sql)
    ensures s'.queue == s.queue
  {
  }

  lemma TwoPushes(a: Proposal, b: Proposal)
    requires a.status.Pending? && b.status.Pending?
    ensures Enqueue([], b) == Success([b]) && Enqueue([b], a) == Success([a, b])
    ensures Removed([a, b], 1) == [a] && Removed([a], 0) == []
  {
    EnqueueMakesRoom([], b);
    EnqueueMakesRoom([b], a);
    assert [b] + [] == [b] && [a] + [b] == [a, b];
  }

  predicate NewestFirstByTime(queue: seq<Proposal>)
  {
    forall i, j :: 0 <= i < j < |queue| ==> queue[i].createdAt >= queue[j].createdAt
  }

  lemma PushesTo(s: State, k: nat, queue: seq<Proposal>, rest: seq<Proposal>) returns (s': State)
    requires k < |s.drafts| && Enqueue(s.queue, s.drafts[k]) == Success(queue) && Removed(s.drafts, k) == rest
    ensures Next(s, s') && s'.queue == queue && s'.drafts == rest
  {
    hide Enqueue, Removed;
    s' := s.(queue := queue, drafts := rest, arrivals := s.arrivals + 1, arrived := s.arrived[s.drafts[k].id := s.arrivals]);
    assert Pushes(s, s', k);
  }

  lemma CreatesOne(s: State, sql: string) returns (s': State)
    ensures Next(s, s') && s'.queue == s.queue && s'.clock == s.clock + 1
    ensures s'.drafts == s.drafts + [Proposal(s.clock, sql, s.clock, Pending, None)]
  {
    s' := s.(clock := s.clock + 1, drafts := s.drafts + [Proposal(s.clock, sql, s.clock, Pending, None)]);
    assert Creates(s, s', sql);
  }

  /**
   By creation time the queue need not be newest first: of two proposals made at once, the one with the
   earlier time may reach the queue last.
   */
  lemma TimesMayBeOutOfOrder()
    ensures exists run: seq<State> :: IsRun(run) && !NewestFirstByTime(run[|run| - 1].queue)
  {
    hide Next, Enqueue, Removed;
    var a, b := Proposal(0, "a", 0, Pending, None), Proposal(1, "b", 1, Pending, None);
    TwoPushes(a, b);
    var s1 := CreatesOne(START, "a");
    var s2 := CreatesOne(s1, "b");
    assert s2.drafts == [a, b];
    var s3 := PushesTo(s2, 1, [b], [a]);
    var s4 := PushesTo(s3, 0, [a, b], []);
    var run := [START, s1, s2, s3, s4];
    assert IsRun(run);
    assert run[|run| - 1].queue[0].createdAt < run[|run| - 1].queue[1].createdAt;
  }

  /** The entry a newcomer will stand in front of: the first one, unless that one is evicted to make room. */
  function Neighbour(queue: seq<Proposal>): Option<Proposal>
  {
    if queue == [] then None
    else if |queue| == 100 && LastTerminal(queue) == Some(0) then Some(queue[1])
    else Some(queue[0])
  }

  /** Comparable before the queue is touched: the newcomer is no older than its neighbour. */
  predicate InTime(queue: seq<Proposal>, p: Proposal)
  {
    match Neighbour(queue)
    case None => true
    case Some(next) => p.createdAt >= next.createdAt
  }

  lemma InFrontByTime(queue: seq<Proposal>, p: Proposal)
    requires NewestFirstByTime(queue)
    ensures NewestFirstByTime([p] + queue) <==> queue == [] || p.createdAt >= queue[0].createdAt
  {
    var grown := [p] + queue;
    assert forall i :: 1 <= i < |grown| ==> grown[i] == queue[i - 1];
    if queue != [] {
      assert grown[0] == p && grown[1] == queue[0];
    }
  }

  /** What stands behind the newcomer, in time order as before. */
  lemma RestByTime(queue: seq<Proposal>, k: nat)
    requires |queue| == 100 && IsOldestFinished(queue, k) && NewestFirstByTime(queue)
    ensures NewestFirstByTime(Removed(queue, k)) && Removed(queue, k) != []
    ensures Neighbour(queue) == Some(Removed(queue, k)[0])
  {
    var rest := Removed(queue, k);
    assert forall i :: 0 <= i < |rest| ==> rest[i] == queue[if i < k then i else i + 1];
    assert LastTerminal(queue) == Some(k);
  }

  /** The exact condition for one push: a time-ordered queue stays so iff the newcomer is in time. */
  lemma PushKeepsTimesExactly(queue: seq<Proposal>, p: Proposal)
    requires |queue| <= 100 && !IsTerminal(p.status) && Enqueue(queue, p).Success?
    requires NewestFirstByTime(queue)
    ensures NewestFirstByTime(Enqueue(queue, p).value) <==> InTime(queue, p)
  {
    hide Enqueue, Removed, NewestFirstByTime, LastTerminal;
    EnqueueMakesRoom(queue, p);
    if |queue| == 100 {
      var k: nat :| IsOldestFinished(queue, k) && Enqueue(queue, p) == Success([p] + Removed(queue, k));
      RestByTime(queue, k);
      InFrontByTime(Removed(queue, k), p);
    } else {
      InFrontByTime(queue, p);
    }
  }

  predicate SameTimes(left: seq<Proposal>, right: seq<Proposal>)
  {
    |left| == |right| && forall i :: 0 <= i < |left| ==> left[i].createdAt == right[i].createdAt
  }

  ghost predicate IsAcceptedPush(s: State, s': State, k: nat)
  {
    k < |s.drafts| && Pushes(s, s', k) && Enqueue(s.queue, s.drafts[k]).Success?
  }

  /** Every step but an accepted push leaves the times of the queue alone. */
  lemma OnlyPushesChangeTimes(s: State, s': State)
    requires Next(s, s') && forall k: nat :: !IsAcceptedPush(s, s', k)
    ensures SameTimes(s.queue, s'.queue)
  {
    hide Creates, Enqueue, Claimable, IndexOf;
    if k: nat :| Pushes(s, s', k) {
      assert !IsAcceptedPush(s, s', k);
    } else if id: nat :| ClaimsToExecute(s, s', id) {
    } else if id: nat :| Dismisses(s, s', id) {
    } else if k: nat, ok, summary :| Updates(s, s', k, ok, summary) {
    } else if k: nat :| Submits(s, s', k) {
    } else {
      var sql :| Creates(s, s', sql);
      CreateKeepsQueue(s, s', sql);
    }
  }

  lemma SameTimesSameOrder(left: seq<Proposal>, right: seq<Proposal>)
    requires SameTimes(left, right) && NewestFirstByTime(left)
    ensures NewestFirstByTime(right)
  {
  }

  ghost predicate PushesInTime(s: State, s': State)
  {
    forall k: nat :: IsAcceptedPush(s, s', k) ==> InTime(s.queue, s.drafts[k])
  }

  lemma AcceptedPushByTime(s: State, s': State, k: nat)
    requires Invariant(s) && IsAcceptedPush(s, s', k) && NewestFirstByTime(s.queue)
    ensures NewestFirstByTime(s'.queue) <==> InTime(s.queue, s.drafts[k])
  {
    hide Enqueue, NewestFirstByTime, InTime, Ordered;
    assert DraftIsRight(s, s.drafts[k]);
    PushKeepsTimesExactly(s.queue, s.drafts[k]);
  }

  lemma StepKeepsTimesExactly(s: State, s': State)
    requires Invariant(s) && Next(s, s') && NewestFirstByTime(s.queue)
    ensures NewestFirstByTime(s'.queue) <==> PushesInTime(s, s')
  {
    hide Invariant, Next, Pushes, Enqueue, NewestFirstByTime, InTime, SameTimes;
    if k: nat :| IsAcceptedPush(s, s', k) {
      forall k: nat | IsAcceptedPush(s, s', k)
        ensures NewestFirstByTime(s'.queue) <==> InTime(s.queue, s.drafts[k])
      {
        AcceptedPushByTime(s, s', k);
      }
    } else {
      OnlyPushesChangeTimes(s, s');
      SameTimesSameOrder(s.queue, s'.queue);
    }
  }

  ghost predicate AlwaysInTimeOrder(run: seq<State>)
  {
    forall i :: 0 <= i < |run| ==> NewestFirstByTime(run[i].queue)
  }

  ghost predicate EveryPushInTime(run: seq<State>)
  {
    forall i :: 0 <= i < |run| - 1 ==> PushesInTime(run[i], run[i + 1])
  }

  lemma {:induction false} InTimeUpTo(run: seq<State>, i: nat)
    requires IsRun(run) && i < |run| && EveryPushInTime(run)
    ensures NewestFirstByTime(run[i].queue)
  {
    hide Next, Invariant, PushesInTime;
    if i > 0 {
      InTimeUpTo(run, i - 1);
      RunKeepsInvariant(run, i - 1);
      assert Next(run[i - 1], run[i - 1 + 1]) && PushesInTime(run[i - 1], run[i - 1 + 1]);
      StepKeepsTimesExactly(run[i - 1], run[i]);
    }
  }

  /** The exact condition for a run: newest first by creation time throughout iff every accepted push is in time. */
  lemma TimesInOrderExactly(run: seq<State>)
    requires IsRun(run)
    ensures AlwaysInTimeOrder(run) <==> EveryPushInTime(run)
  {
    hide Next, Invariant, PushesInTime, NewestFirstByTime;
    if EveryPushInTime(run) {
      forall i | 0 <= i < |run| ensures NewestFirstByTime(run[i].queue) {
        InTimeUpTo(run, i);
      }
    }
    if AlwaysInTimeOrder(run) {
      forall i | 0 <= i < |run| - 1 ensures PushesInTime(run[i], run[i + 1]) {
        RunKeepsInvariant(run, i);
        StepKeepsTimesExactly(run[i], run[i + 1]);
      }
    }
  }
}

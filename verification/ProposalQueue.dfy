/**
 The queue of SQL proposals waiting for the user: bounded, newest first, and only finished proposals are
 ever evicted. Each method holds the queue's lock for its whole body.
 */
module ProposalQueue {
  import opened Wrappers

  const PROPOSAL_LIMIT: nat := 100

  datatype Status = Pending | Executing | Executed | Dismissed | Failed

  predicate IsTerminal(status: Status) { status.Executed? || status.Dismissed? || status.Failed? }

  /** `createdAt` is read from the clock before the queue is locked. */
  datatype Proposal = Proposal(id: nat, sql: string, createdAt: nat, status: Status, resultSummary: Option<string>)

  datatype QueueError = QueueFull | NotFound | NotPending(status: Status)

  // ----- what the operations do to the queue

  function IndexOf(queue: seq<Proposal>, id: nat): (index: Option<nat>)
    ensures index.Some? ==> index.value < |queue| && queue[index.value].id == id
    ensures index.Some? ==> forall k :: 0 <= k < index.value ==> queue[k].id != id
    ensures index.None? ==> forall p :: p in queue ==> p.id != id
  {
    if queue == [] then None
    else if queue[0].id == id then Some(0)
    else
      match IndexOf(queue[1..], id)
      case None => None
      case Some(k) => Some(k + 1)
  }

  function LastTerminal(queue: seq<Proposal>): (index: Option<nat>)
    ensures index.Some? ==> index.value < |queue| && IsTerminal(queue[index.value].status)
    ensures index.Some? ==> forall k :: index.value < k < |queue| ==> !IsTerminal(queue[k].status)
    ensures index.None? ==> forall k :: 0 <= k < |queue| ==> !IsTerminal(queue[k].status)
  {
    if queue == [] then None
    else
      var n := |queue| - 1;
      if IsTerminal(queue[n].status) then Some(n) else LastTerminal(queue[..n])
  }

  function Removed(queue: seq<Proposal>, k: nat): seq<Proposal>
    requires k < |queue|
  {
    queue[..k] + queue[k + 1..]
  }

  function Trim(queue: seq<Proposal>): seq<Proposal>
    decreases |queue|
  {
    if |queue| <= PROPOSAL_LIMIT || LastTerminal(queue).None? then queue
    else Trim(Removed(queue, LastTerminal(queue).value))
  }

  /** The queue with one more proposal in front, or an error. */
  function Enqueue(queue: seq<Proposal>, proposal: Proposal): Result<seq<Proposal>, QueueError>
  {
    var trimmed := Trim([proposal] + queue);
    if |trimmed| > PROPOSAL_LIMIT then Failure(QueueFull) else Success(trimmed)
  }

  function WithStatus(queue: seq<Proposal>, k: nat, status: Status, summary: Option<string>): seq<Proposal>
    requires k < |queue|
  {
    queue[k := queue[k].(status := status, resultSummary := summary)]
  }

  /** The index of a pending proposal, or why it cannot be claimed. */
  function Claimable(queue: seq<Proposal>, id: nat): (r: Result<nat, QueueError>)
    ensures r.Success? ==> r.value < |queue| && queue[r.value].id == id && queue[r.value].status.Pending?
  {
    match IndexOf(queue, id)
    case None => Failure(NotFound)
    case Some(k) => if queue[k].status.Pending? then Success(k) else Failure(NotPending(queue[k].status))
  }

  function ClaimExecute(queue: seq<Proposal>, id: nat): Result<seq<Proposal>, QueueError>
  {
    match Claimable(queue, id)
    case Failure(error) => Failure(error)
    case Success(k) => Success(WithStatus(queue, k, Executing, queue[k].resultSummary))
  }

  function ClaimDismiss(queue: seq<Proposal>, id: nat): Result<seq<Proposal>, QueueError>
  {
    match Claimable(queue, id)
    case Failure(error) => Failure(error)
    case Success(k) => Success(WithStatus(queue, k, Dismissed, Some("dismissed")))
  }

  function Update(queue: seq<Proposal>, id: nat, status: Status, summary: Option<string>): seq<Proposal>
  {
    match IndexOf(queue, id)
    case None => queue
    case Some(k) => WithStatus(queue, k, status, summary)
  }

  // ----- the shared queue

  class McpQueue {
    var proposals: seq<Proposal>

    constructor ()
      ensures proposals == []
    {
      proposals := [];
    }

    method TrimTerminalProposals()
      modifies this
      ensures proposals == Trim(old(proposals))
    {
      while |proposals| > PROPOSAL_LIMIT
        invariant Trim(proposals) == Trim(old(proposals))
        decreases |proposals|
      {
        var index := LastTerminal(proposals);
        if index.None? {
          break;
        }
        proposals := Removed(proposals, index.value);
      }
    }

    method Propose(id: nat, sql: string, createdAt: nat) returns (r: Result<Proposal, QueueError>)
      requires |proposals| <= PROPOSAL_LIMIT
      modifies this
      ensures var proposal := Proposal(id, sql, createdAt, Pending, None);
              match Enqueue(old(proposals), proposal)
              case Failure(error) => r == Failure(error) && proposals == old(proposals)
              case Success(queue) => r == Success(proposal) && proposals == queue
    {
      var proposal := Proposal(id, sql, createdAt, Pending, None);
      proposals := [proposal] + proposals;
      TrimTerminalProposals();
      if |proposals| > PROPOSAL_LIMIT {
        proposals := proposals[1..];
        return Failure(QueueFull);
      }
      r := Success(proposal);
    }

    method ClaimForExecute(id: nat) returns (r: Result<Proposal, QueueError>)
      modifies this
      ensures match ClaimExecute(old(proposals), id)
              case Failure(error) => r == Failure(error) && proposals == old(proposals)
              case Success(queue) =>
                r.Success? && proposals == queue && r.value in queue && r.value.id == id && r.value.status.Executing?
    {
      var index := IndexOf(proposals, id);
      if index.None? {
        return Failure(NotFound);
      }
      var proposal := proposals[index.value];
      if !proposal.status.Pending? {
        return Failure(NotPending(proposal.status));
      }
      proposal := proposal.(status := Executing);
      proposals := proposals[index.value := proposal];
      assert proposals[index.value] in proposals;
      r := Success(proposal);
    }

    method ClaimForDismiss(id: nat) returns (r: Result<Proposal, QueueError>)
      modifies this
      ensures match ClaimDismiss(old(proposals), id)
              case Failure(error) => r == Failure(error) && proposals == old(proposals)
              case Success(queue) =>
                r.Success? && proposals == queue && r.value in queue && r.value.id == id && r.value.status.Dismissed?
    {
      var index := IndexOf(proposals, id);
      if index.None? {
        return Failure(NotFound);
      }
      var proposal := proposals[index.value];
      if !proposal.status.Pending? {
        return Failure(NotPending(proposal.status));
      }
      proposal := proposal.(status := Dismissed, resultSummary := Some("dismissed"));
      proposals := proposals[index.value := proposal];
      assert proposals[index.value] in proposals;
      r := Success(proposal);
    }

    method UpdateProposal(id: nat, status: Status, summary: Option<string>) returns (r: Option<Proposal>)
      modifies this
      ensures proposals == Update(old(proposals), id, status, summary)
      ensures r.Some? <==> exists p :: p in old(proposals) && p.id == id
      ensures r.Some? ==> IndexOf(old(proposals), id).Some?
      ensures r.Some? ==> r.value == old(proposals)[IndexOf(old(proposals), id).value].(status := status, resultSummary := summary)
    {
      var index := IndexOf(proposals, id);
      if index.None? {
        return None;
      }
      var proposal := proposals[index.value].(status := status, resultSummary := summary);
      assert proposals[index.value] in proposals;
      proposals := proposals[index.value := proposal];
      r := Some(proposal);
    }
  }

  // ----- what a claim means

  /** The proposal of that identifier nearest to the front. */
  predicate IsFirst(queue: seq<Proposal>, id: nat, k: nat)
  {
    k < |queue| && queue[k].id == id && forall j :: 0 <= j < k ==> queue[j].id != id
  }

  lemma FirstIsFound(queue: seq<Proposal>, id: nat)
    ensures forall k: nat :: IsFirst(queue, id, k) ==> IndexOf(queue, id) == Some(k)
    ensures IndexOf(queue, id).Some? ==> IsFirst(queue, id, IndexOf(queue, id).value)
    ensures IndexOf(queue, id).None? <==> forall p :: p in queue ==> p.id != id
  {
    if IndexOf(queue, id).Some? {
      var k := IndexOf(queue, id).value;
      assert queue[k] in queue;
    }
  }

  /** Only a pending proposal is claimed; it is changed where it stands, and nothing else is. */
  lemma ClaimsExactly(queue: seq<Proposal>, id: nat, k: nat)
    requires IsFirst(queue, id, k)
    ensures queue[k].status == Pending ==>
              && ClaimExecute(queue, id) == Success(queue[k := queue[k].(status := Executing)])
              && ClaimDismiss(queue, id) ==
                 Success(queue[k := queue[k].(status := Dismissed, resultSummary := Some("dismissed"))])
    ensures queue[k].status != Pending ==>
              && ClaimExecute(queue, id) == Failure(NotPending(queue[k].status))
              && ClaimDismiss(queue, id) == Failure(NotPending(queue[k].status))
  {
    hide IndexOf;
    FirstIsFound(queue, id);
  }

  /** An update changes the status and the summary of the one proposal, whatever its status was. */
  lemma UpdateExactly(queue: seq<Proposal>, id: nat, status: Status, summary: Option<string>)
    ensures forall k: nat :: IsFirst(queue, id, k) ==>
              Update(queue, id, status, summary) == queue[k := queue[k].(status := status, resultSummary := summary)]
    ensures (forall p :: p in queue ==> p.id != id) ==>
              && Update(queue, id, status, summary) == queue
              && ClaimExecute(queue, id) == Failure(NotFound) && ClaimDismiss(queue, id) == Failure(NotFound)
  {
    hide IndexOf;
    FirstIsFound(queue, id);
  }

  // ----- what an addition means

  predicate IsFullOfOpen(queue: seq<Proposal>)
  {
    |queue| == 100 && forall k :: 0 <= k < |queue| ==> !IsTerminal(queue[k].status)
  }

  /** The oldest finished proposal: the one that makes room. */
  predicate IsOldestFinished(queue: seq<Proposal>, k: nat)
  {
    k < |queue| && IsTerminal(queue[k].status) && forall j :: k < j < |queue| ==> !IsTerminal(queue[j].status)
  }

  /**
   Adding an open proposal to a queue within its limit fails exactly when the queue is full of open ones;
   otherwise it goes to the front, and only a full queue loses a proposal: its oldest finished one.
   */
  lemma EnqueueMakesRoom(queue: seq<Proposal>, proposal: Proposal)
    requires |queue| <= 100 && !IsTerminal(proposal.status)
    ensures Enqueue(queue, proposal).Failure? <==> IsFullOfOpen(queue)
    ensures Enqueue(queue, proposal).Failure? ==> Enqueue(queue, proposal) == Failure(QueueFull)
    ensures |queue| < 100 ==> Enqueue(queue, proposal) == Success([proposal] + queue)
    ensures |queue| == 100 && Enqueue(queue, proposal).Success? ==>
              exists k :: IsOldestFinished(queue, k) && Enqueue(queue, proposal) == Success([proposal] + Removed(queue, k))
  {
    hide Trim, Removed;
    if |queue| < 100 {
      TrimOfFew([proposal] + queue);
    } else {
      TrimOfOneTooMany(queue, proposal);
    }
  }

  lemma TrimOfFew(queue: seq<Proposal>)
    requires |queue| <= 100
    ensures Trim(queue) == queue
  {
  }

  lemma TrimOfOneTooMany(queue: seq<Proposal>, proposal: Proposal)
    requires |queue| == 100 && !IsTerminal(proposal.status)
    ensures IsFullOfOpen(queue) ==> Trim([proposal] + queue) == [proposal] + queue
    ensures !IsFullOfOpen(queue) ==>
              exists k :: IsOldestFinished(queue, k) && Trim([proposal] + queue) == [proposal] + Removed(queue, k)
    ensures !IsFullOfOpen(queue) ==> |Trim([proposal] + queue)| == 100
  {
    hide Removed;
    var all := [proposal] + queue;
    assert forall k :: 0 <= k < |queue| ==> all[k + 1] == queue[k];
    assert forall k :: 1 <= k < |all| ==> all[k] == queue[k - 1];
    match LastTerminal(all) {
      case None =>
      case Some(last) =>
        assert IsOldestFinished(queue, last - 1);
        RemovedBehind(proposal, queue, last);
        TrimOfFew(Removed(all, last));
    }
  }

  lemma RemovedBehind(proposal: Proposal, queue: seq<Proposal>, k: nat)
    requires 0 < k <= |queue|
    ensures Removed([proposal] + queue, k) == [proposal] + Removed(queue, k - 1)
    ensures |Removed(queue, k - 1)| == |queue| - 1
  {
  }
}

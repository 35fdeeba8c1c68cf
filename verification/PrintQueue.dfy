/**
 Printing several jobs on one printer. Each request is a thread that takes the print lock, sends its pages
 until one fails, releases the lock and then writes its log row; any interleaving of any number of requests
 is a run of the state machine below.
 */
module PrintQueue {
  import opened Common

  type Page = seq<Byte>

  /** Requests always hold at least one page. Only work tickets are logged. */
  datatype Job = Job(orderId: int, itemId: int, workTicket: bool, pages: seq<Page>)

  type Jobs = jobs: seq<Job> | forall j :: 0 <= j < |jobs| ==> jobs[j].pages != [] witness []

  /**
   Printing: holds the lock. Stopped: has left the lock, after a failure or after the last page.
   Answered: the log is written and the response sent.
   */
  datatype Phase = Waiting | Printing(sent: nat) | Stopped(sent: nat) | Answered(sent: nat)

  /** A row of print_log; it does not say how many pages came out. */
  datatype LogRow = LogRow(orderId: int, itemId: int, job: nat)

  datatype State = State(
    holder: Option<nat>,
    phases: seq<Phase>,
    stream: seq<Page>,
    log: seq<LogRow>,
    turns: seq<nat>)

  datatype Event =
    | Acquire(job: nat)
    | SendPage(job: nat, ok: bool)
    | Leave(job: nat)
    | Answer(job: nat)

  function Start(jobs: Jobs): State {
    State(None, seq(|jobs|, _ => Waiting), [], [], [])
  }

  /** One step of one thread; None when that thread cannot take it now. */
  function Step(jobs: Jobs, s: State, e: Event): Option<State>
    requires |s.phases| == |jobs|
  {
    if e.job >= |jobs| then None
    else
      var phase := s.phases[e.job];
      match e
      case Acquire(j) =>
        if s.holder.None? && phase.Waiting?
        then Some(s.(holder := Some(j), phases := s.phases[j := Printing(0)], turns := s.turns + [j]))
        else None
      case SendPage(j, ok) =>
        if phase.Printing? && phase.sent < |jobs[j].pages| then
          if ok
          then Some(s.(phases := s.phases[j := Printing(phase.sent + 1)],
                       stream := s.stream + [jobs[j].pages[phase.sent]]))
          else Some(s.(holder := None, phases := s.phases[j := Stopped(phase.sent)]))
        else None
      case Leave(j) =>
        if phase.Printing? && phase.sent == |jobs[j].pages|
        then Some(s.(holder := None, phases := s.phases[j := Stopped(phase.sent)]))
        else None
      case Answer(j) =>
        if phase.Stopped?
        then Some(s.(phases := s.phases[j := Answered(phase.sent)], log := s.log + RowsFor(jobs, j, phase.sent)))
        else None
  }

  /** A complete print is logged, a partial one when at least one page came out; both only for work tickets. */
  function RowsFor(jobs: Jobs, j: nat, sent: nat): seq<LogRow>
    requires j < |jobs|
  {
    var job := jobs[j];
    if job.workTicket && (sent == |job.pages| || sent > 0) then [LogRow(job.orderId, job.itemId, j)] else []
  }

  function Run(jobs: Jobs, s: State, events: seq<Event>): (r: Option<State>)
    requires |s.phases| == |jobs|
    ensures r.Some? ==> |r.value.phases| == |jobs|
    decreases |events|
  {
    if events == [] then Some(s)
    else
      match Run(jobs, s, events[..|events| - 1])
      case None => None
      case Some(t) => Step(jobs, t, events[|events| - 1])
  }

  // ----- what every run keeps -----

  function Sent(phase: Phase): nat {
    if phase.Waiting? then 0 else phase.sent
  }

  predicate TurnsBelow(turns: seq<nat>, n: nat) {
    forall i :: 0 <= i < |turns| ==> turns[i] < n
  }

  /** The pages of the jobs in turn, each job's as one block: what it sent, from its first page on. */
  function Blocks(jobs: Jobs, phases: seq<Phase>, turns: seq<nat>): seq<Page>
    requires |phases| == |jobs| && TurnsBelow(turns, |jobs|)
    requires forall j :: 0 <= j < |jobs| ==> Sent(phases[j]) <= |jobs[j].pages|
  {
    if turns == [] then []
    else
      var j := turns[|turns| - 1];
      Blocks(jobs, phases, turns[..|turns| - 1]) + jobs[j].pages[..Sent(phases[j])]
  }

  function RowsOf(log: seq<LogRow>, j: nat): nat {
    if log == [] then 0
    else RowsOf(log[..|log| - 1], j) + if log[|log| - 1].job == j then 1 else 0
  }

  /** The lock has one holder, and it is the job whose turn came last. */
  predicate OneHolder(s: State) {
    && (forall j :: 0 <= j < |s.phases| ==> (s.phases[j].Printing? <==> s.holder == Some(j)))
    && (s.holder.Some? ==> s.holder.value < |s.phases| && s.turns != [] && s.turns[|s.turns| - 1] == s.holder.value)
  }

  /** Each job that is past waiting had exactly one turn. */
  predicate OneTurnEach(s: State) {
    && TurnsBelow(s.turns, |s.phases|)
    && (forall i, k :: 0 <= i < k < |s.turns| ==> s.turns[i] != s.turns[k])
    && (forall j :: 0 <= j < |s.phases| ==> (j in s.turns <==> !s.phases[j].Waiting?))
  }

  predicate WithinPages(jobs: Jobs, s: State) {
    |s.phases| == |jobs| && forall j :: 0 <= j < |jobs| ==> Sent(s.phases[j]) <= |jobs[j].pages|
  }

  /** The row carries the order and the item of its job. */
  predicate NamesItsJob(jobs: Jobs, row: LogRow) {
    row.job < |jobs| && row.orderId == jobs[row.job].orderId && row.itemId == jobs[row.job].itemId
  }

  /** An answered work ticket has one row, for its order and item, if any page came out; every other job has none. */
  predicate LoggedRight(jobs: Jobs, s: State)
    requires |s.phases| == |jobs|
  {
    && (forall i :: 0 <= i < |s.log| ==> NamesItsJob(jobs, s.log[i]))
    && forall j :: 0 <= j < |jobs| ==>
      RowsOf(s.log, j) == if jobs[j].workTicket && s.phases[j].Answered? && Sent(s.phases[j]) > 0 then 1 else 0
  }

  predicate Orderly(jobs: Jobs, s: State) {
    && WithinPages(jobs, s)
    && OneHolder(s)
    && OneTurnEach(s)
    && s.stream == Blocks(jobs, s.phases, s.turns)
    && LoggedRight(jobs, s)
  }

  /** Blocks looks only at the jobs that had a turn. */
  lemma {:induction false} BlocksSame(jobs: Jobs, before: seq<Phase>, after: seq<Phase>, turns: seq<nat>)
    requires |before| == |after| == |jobs| && TurnsBelow(turns, |jobs|)
    requires forall j :: 0 <= j < |jobs| ==> Sent(before[j]) <= |jobs[j].pages| && Sent(after[j]) <= |jobs[j].pages|
    requires forall j :: j in turns ==> Sent(before[j]) == Sent(after[j])
    ensures Blocks(jobs, before, turns) == Blocks(jobs, after, turns)
    decreases |turns|
  {
    if turns == [] {
    } else {
      assert turns[|turns| - 1] in turns;
      BlocksSame(jobs, before, after, turns[..|turns| - 1]);
    }
  }

  lemma RowsOfAppend(log: seq<LogRow>, row: LogRow, j: nat)
    ensures RowsOf(log + [row], j) == RowsOf(log, j) + if row.job == j then 1 else 0
  {
    assert (log + [row])[..|log|] == log;
  }

  /** The pages of an order of turns, with a job that has sent nothing at the end. */
  lemma BlocksWithTurn(jobs: Jobs, before: seq<Phase>, after: seq<Phase>, turns: seq<nat>, j: nat)
    requires |before| == |after| == |jobs| && TurnsBelow(turns, |jobs|) && j < |jobs| && j !in turns
    requires forall k :: 0 <= k < |jobs| ==> Sent(before[k]) <= |jobs[k].pages|
    requires after == before[j := Printing(0)]
    ensures Blocks(jobs, after, turns + [j]) == Blocks(jobs, before, turns)
  {
    assert (turns + [j])[..|turns|] == turns;
    assert forall k :: 0 <= k < |jobs| ==> Sent(after[k]) <= |jobs[k].pages|;
    BlocksSame(jobs, before, after, turns);
    assert Blocks(jobs, after, turns + [j]) == Blocks(jobs, after, turns) + jobs[j].pages[..0];
  }

  lemma AcquireKeeps(jobs: Jobs, s: State, j: nat)
    requires Orderly(jobs, s)
    requires Step(jobs, s, Acquire(j)).Some?
    ensures Orderly(jobs, Step(jobs, s, Acquire(j)).value)
  {
    hide Blocks, LoggedRight;
    var t := Step(jobs, s, Acquire(j)).value;
    assert j !in s.turns;
    BlocksWithTurn(jobs, s.phases, t.phases, s.turns, j);
    TurnAdded(s, j);
    LogUntouched(jobs, s, t, j);
  }

  lemma TurnAdded(s: State, j: nat)
    requires OneTurnEach(s) && j < |s.phases| && s.phases[j].Waiting?
    ensures OneTurnEach(s.(holder := Some(j), phases := s.phases[j := Printing(0)], turns := s.turns + [j]))
  {
    assert j !in s.turns;
  }

  /** A step that answers nobody leaves the log right. */
  lemma LogUntouched(jobs: Jobs, s: State, t: State, j: nat)
    requires |s.phases| == |jobs| == |t.phases| && LoggedRight(jobs, s) && t.log == s.log && j < |jobs|
    requires t.phases == s.phases[j := t.phases[j]] && !s.phases[j].Answered? && !t.phases[j].Answered?
    ensures LoggedRight(jobs, t)
  {
    hide RowsOf;
  }

  lemma SendKeeps(jobs: Jobs, s: State, j: nat, ok: bool)
    requires Orderly(jobs, s)
    requires Step(jobs, s, SendPage(j, ok)).Some?
    ensures Orderly(jobs, Step(jobs, s, SendPage(j, ok)).value)
  {
    hide LoggedRight;
    var t := Step(jobs, s, SendPage(j, ok)).value;
    LogUntouched(jobs, s, t, j);
    var sent := s.phases[j].sent;
    if ok {
      var n := |s.turns| - 1;
      assert s.turns[n] == j;
      BlocksSame(jobs, s.phases, t.phases, s.turns[..n]);
      assert jobs[j].pages[..sent] + [jobs[j].pages[sent]] == jobs[j].pages[..sent + 1];
    } else {
      BlocksSame(jobs, s.phases, t.phases, s.turns);
    }
  }

  lemma LeaveKeeps(jobs: Jobs, s: State, j: nat)
    requires Orderly(jobs, s)
    requires Step(jobs, s, Leave(j)).Some?
    ensures Orderly(jobs, Step(jobs, s, Leave(j)).value)
  {
    hide Blocks, LoggedRight;
    var t := Step(jobs, s, Leave(j)).value;
    LogUntouched(jobs, s, t, j);
    BlocksSame(jobs, s.phases, t.phases, s.turns);
  }

  lemma AnswerLogs(jobs: Jobs, s: State, j: nat)
    requires WithinPages(jobs, s) && LoggedRight(jobs, s)
    requires Step(jobs, s, Answer(j)).Some?
    ensures LoggedRight(jobs, Step(jobs, s, Answer(j)).value)
  {
    hide RowsOf;
    var t := Step(jobs, s, Answer(j)).value;
    var sent := s.phases[j].sent;
    assert RowsOf(s.log, j) == 0;
    assert |jobs[j].pages| > 0;
    var row := LogRow(jobs[j].orderId, jobs[j].itemId, j);
    assert t.log == if jobs[j].workTicket && sent > 0 then s.log + [row] else s.log;
    forall k: nat | k < |jobs|
      ensures RowsOf(t.log, k) == RowsOf(s.log, k) + if k == j && jobs[j].workTicket && sent > 0 then 1 else 0
    {
      RowsOfAppend(s.log, row, k);
    }
  }

  lemma AnswerKeeps(jobs: Jobs, s: State, j: nat)
    requires Orderly(jobs, s)
    requires Step(jobs, s, Answer(j)).Some?
    ensures Orderly(jobs, Step(jobs, s, Answer(j)).value)
  {
    hide LoggedRight, RowsFor;
    AnswerLogs(jobs, s, j);
    BlocksSame(jobs, s.phases, Step(jobs, s, Answer(j)).value.phases, s.turns);
  }

  /** Every reachable state is orderly, whatever the interleaving and whichever pages fail. */
  lemma {:induction false} RunIsOrderly(jobs: Jobs, events: seq<Event>)
    requires Run(jobs, Start(jobs), events).Some?
    ensures Orderly(jobs, Run(jobs, Start(jobs), events).value)
    decreases |events|
  {
    if events == [] {
    } else {
      hide Orderly, Step;
      var n := |events| - 1;
      RunIsOrderly(jobs, events[..n]);
      var s := Run(jobs, Start(jobs), events[..n]).value;
      match events[n]
      case Acquire(j) => AcquireKeeps(jobs, s, j);
      case SendPage(j, ok) => SendKeeps(jobs, s, j, ok);
      case Leave(j) => LeaveKeeps(jobs, s, j);
      case Answer(j) => AnswerKeeps(jobs, s, j);
    }
  }

  /** No deadlock: while a request is unanswered, some thread can move. */
  lemma SomeThreadCanMove(jobs: Jobs, s: State, j: nat) returns (e: Event)
    requires Orderly(jobs, s)
    requires j < |jobs| && !s.phases[j].Answered?
    ensures Step(jobs, s, e).Some?
  {
    hide Blocks, RowsOf, LoggedRight;
    if s.phases[j].Stopped? {
      e := Answer(j);
    } else if s.holder.None? {
      e := Acquire(j);
    } else {
      var k := s.holder.value;
      e := if s.phases[k].sent < |jobs[k].pages| then SendPage(k, true) else Leave(k);
    }
  }

  // ----- one request -----

  /** The events of one request whose first `sent` pages go through and whose next page, if any, fails. */
  function Script(jobs: Jobs, j: nat, sent: nat): seq<Event>
    requires j < |jobs| && sent <= |jobs[j].pages|
  {
    [Acquire(j)] + Sends(j, sent) + [if sent == |jobs[j].pages| then Leave(j) else SendPage(j, false)] + [Answer(j)]
  }

  function Sends(j: nat, n: nat): seq<Event> {
    if n == 0 then [] else Sends(j, n - 1) + [SendPage(j, true)]
  }

  lemma RunThen(jobs: Jobs, s: State, events: seq<Event>, e: Event)
    requires |s.phases| == |jobs|
    requires Run(jobs, s, events).Some?
    ensures Run(jobs, s, events + [e]) == Step(jobs, Run(jobs, s, events).value, e)
  {
    assert (events + [e])[..|events|] == events;
  }

  lemma {:induction false} SendsRun(jobs: Jobs, s: State, j: nat, n: nat)
    requires |s.phases| == |jobs| && j < |jobs|
    requires s.holder.None? && s.phases[j].Waiting? && n <= |jobs[j].pages|
    ensures Run(jobs, s, [Acquire(j)] + Sends(j, n))
         == Some(s.(holder := Some(j), phases := s.phases[j := Printing(n)],
                    stream := s.stream + jobs[j].pages[..n], turns := s.turns + [j]))
    decreases n
  {
    hide Run, Blocks, RowsOf;
    if n == 0 {
      RunNothing(jobs, s);
      RunThen(jobs, s, [], Acquire(j));
      assert [] + [Acquire(j)] == [Acquire(j)] + Sends(j, 0);
      assert s.stream + jobs[j].pages[..0] == s.stream;
    } else {
      SendsRun(jobs, s, j, n - 1);
      RunThen(jobs, s, [Acquire(j)] + Sends(j, n - 1), SendPage(j, true));
      assert [Acquire(j)] + Sends(j, n) == [Acquire(j)] + Sends(j, n - 1) + [SendPage(j, true)];
      assert s.stream + jobs[j].pages[..n - 1] + [jobs[j].pages[n - 1]] == s.stream + jobs[j].pages[..n];
      assert s.phases[j := Printing(n - 1)][j := Printing(n)] == s.phases[j := Printing(n)];
    }
  }

  lemma RunNothing(jobs: Jobs, s: State)
    requires |s.phases| == |jobs|
    ensures Run(jobs, s, []) == Some(s)
  {
  }

  /** A request that finds the lock free and is not interleaved runs its script to the end. */
  lemma {:induction false} ScriptRuns(jobs: Jobs, s: State, j: nat, sent: nat)
    requires |s.phases| == |jobs| && j < |jobs|
    requires s.holder.None? && s.phases[j].Waiting? && sent <= |jobs[j].pages|
    ensures Run(jobs, s, Script(jobs, j, sent))
         == Some(State(None, s.phases[j := Answered(sent)], s.stream + jobs[j].pages[..sent],
                       s.log + RowsFor(jobs, j, sent), s.turns + [j]))
  {
    hide Run, RowsFor, Sends;
    SendsRun(jobs, s, j, sent);
    var last := if sent == |jobs[j].pages| then Leave(j) else SendPage(j, false);
    var sends := [Acquire(j)] + Sends(j, sent);
    RunThen(jobs, s, sends, last);
    assert s.phases[j := Printing(sent)][j := Stopped(sent)] == s.phases[j := Stopped(sent)];
    RunThen(jobs, s, sends + [last], Answer(j));
    assert s.phases[j := Stopped(sent)][j := Answered(sent)] == s.phases[j := Answered(sent)];
  }

  class PrintServer {
    var stream: seq<Page>
    var log: seq<LogRow>

    /**
     The body of one request: outcomes[i] says whether the transport takes page i. Pages go out in order up
     to the first failure; the request succeeds when there is none; the log gains what RowsFor says.
     */
    method PrintReceipt(jobs: Jobs, j: nat, outcomes: seq<bool>) returns (ok: bool, pagesSent: nat)
      requires j < |jobs| && |outcomes| == |jobs[j].pages|
      modifies this
      ensures pagesSent <= |outcomes| && (forall i :: 0 <= i < pagesSent ==> outcomes[i])
      ensures ok <==> pagesSent == |outcomes|
      ensures !ok ==> !outcomes[pagesSent]
      ensures stream == old(stream) + jobs[j].pages[..pagesSent]
      ensures log == old(log) + RowsFor(jobs, j, pagesSent)
    {
      var job := jobs[j];
      var aborted := false;
      pagesSent := 0;
      while pagesSent < |job.pages| && !aborted
        invariant pagesSent <= |job.pages|
        invariant forall i :: 0 <= i < pagesSent ==> outcomes[i]
        invariant aborted ==> pagesSent < |job.pages| && !outcomes[pagesSent]
        invariant stream == old(stream) + job.pages[..pagesSent]
        invariant log == old(log)
        decreases |job.pages| - pagesSent, !aborted
      {
        if outcomes[pagesSent] {
          stream := stream + [job.pages[pagesSent]];
          pagesSent := pagesSent + 1;
        } else {
          aborted := true;
        }
      }
      if aborted {
        if pagesSent > 0 && job.workTicket {
          log := log + [LogRow(job.orderId, job.itemId, j)];
        }
        return false, pagesSent;
      }
      if job.workTicket {
        log := log + [LogRow(job.orderId, job.itemId, j)];
      }
      return true, pagesSent;
    }
  }
}

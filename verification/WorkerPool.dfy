/** The pool that refreshes a batch of feeds: a producer, a buffered channel, workers and a
    WaitGroup, interleaved in any way (internal/cli/refresh_feeds.go). Jobs are named by their
    position in the batch; refreshing a feed is assumed to return. */
module WorkerPool {

  datatype Worker =
    | Receiving             // at the head of the range loop over the channel
    | Busy(job: nat)
    | Exited                // left the loop, WaitGroup.Done called

  datatype Producer =
    | Starting(started: nat)
    | Sending(next: nat)
    | Waiting               // channel closed, in WaitGroup.Wait
    | Returned

  datatype Work = Work(worker: nat, job: nat)

  /** nbJobs is the length of the batch and the capacity of the channel. */
  datatype Pool = Pool(
    nbJobs: nat, size: nat, producer: Producer,
    queue: seq<nat>, closed: bool, workers: seq<Worker>, waitGroup: int, done: seq<Work>)

  datatype Event =
    | StartWorker | BeginSending | Send | Close | Return
    | Receive(w: nat) | Finish(w: nat) | Exit(w: nat)

  function Initial(nbJobs: nat, size: nat): Pool {
    Pool(nbJobs, size, Starting(0), [], false, [], 0, [])
  }

  /** The step can be taken; a send to a full channel and a receive from an empty open channel
      block. */
  predicate Enabled(p: Pool, e: Event) {
    match e
    case StartWorker => p.producer.Starting? && p.producer.started < p.size
    case BeginSending => p.producer == Starting(p.size)
    case Send => p.producer.Sending? && p.producer.next < p.nbJobs && |p.queue| < p.nbJobs
    case Close => p.producer == Sending(p.nbJobs)
    case Return => p.producer.Waiting? && p.waitGroup == 0
    case Receive(w) => w < |p.workers| && p.workers[w].Receiving? && p.queue != []
    case Finish(w) => w < |p.workers| && p.workers[w].Busy?
    case Exit(w) => w < |p.workers| && p.workers[w].Receiving? && p.queue == [] && p.closed
  }

  function Apply(p: Pool, e: Event): Pool
    requires Enabled(p, e)
  {
    match e
    case StartWorker =>
      p.(producer := Starting(p.producer.started + 1), workers := p.workers + [Receiving], waitGroup := p.waitGroup + 1)
    case BeginSending => p.(producer := Sending(0))
    case Send => p.(producer := Sending(p.producer.next + 1), queue := p.queue + [p.producer.next])
    case Close => p.(producer := Waiting, closed := true)
    case Return => p.(producer := Returned)
    case Receive(w) => p.(workers := p.workers[w := Busy(p.queue[0])], queue := p.queue[1..])
    case Finish(w) => p.(workers := p.workers[w := Receiving], done := p.done + [Work(w, p.workers[w].job)])
    case Exit(w) => p.(workers := p.workers[w := Exited], waitGroup := p.waitGroup - 1)
  }

  /** A job is recorded as done when its worker finishes it, under that worker, and at no other
      step; a job comes into a worker's hands from the head of the queue. */
  lemma WorkIsRecorded(p: Pool, e: Event)
    requires Enabled(p, e)
    ensures var p' := Apply(p, e);
            && (e.Finish? ==> exists job: nat ::
                  p.workers[e.w] == Busy(job) && p'.done == p.done + [Work(e.w, job)] && p'.workers[e.w] == Receiving)
            && (!e.Finish? ==> p'.done == p.done)
            && (e.Receive? ==> p'.workers[e.w] == Busy(p.queue[0]) && [p.queue[0]] + p'.queue == p.queue)
            && (e.Send? ==> p'.queue == p.queue + [p.producer.next])
            && (!e.Receive? && !e.Send? ==> p'.queue == p.queue)
  {
    if e.Finish? {
      assert p.workers[e.w] == Busy(p.workers[e.w].job);
    }
  }

  // ----- Where the jobs are -----

  function Sent(p: Pool): int {
    match p.producer
    case Starting(_) => 0
    case Sending(n) => n
    case _ => p.nbJobs
  }

  function Received(p: Pool): int { Sent(p) - |p.queue| }

  /** How many workers have job j in hand. */
  function Holders(ws: seq<Worker>, j: nat): nat {
    if ws == [] then 0 else Holders(ws[..|ws| - 1], j) + if ws[|ws| - 1] == Busy(j) then 1 else 0
  }

  /** How many times job j has been done. */
  function TimesDone(done: seq<Work>, j: nat): nat {
    if done == [] then 0 else TimesDone(done[..|done| - 1], j) + if done[|done| - 1].job == j then 1 else 0
  }

  function BusyCount(ws: seq<Worker>): nat {
    if ws == [] then 0 else BusyCount(ws[..|ws| - 1]) + if ws[|ws| - 1].Busy? then 1 else 0
  }

  ghost predicate AllDoneOnce(p: Pool) {
    forall j: nat :: TimesDone(p.done, j) == if j < p.nbJobs then 1 else 0
  }

  function ExitedCount(ws: seq<Worker>): nat {
    if ws == [] then 0 else ExitedCount(ws[..|ws| - 1]) + if ws[|ws| - 1].Exited? then 1 else 0
  }

  /** Jobs are conserved: the queue holds the sent jobs not yet received, in order, and every
      received job is in the hands of one worker or done once. */
  ghost predicate Conserved(p: Pool) {
    && 0 <= Received(p)
    && (forall i :: 0 <= i < |p.queue| ==> p.queue[i] == Received(p) + i)
    && (forall j: nat :: Holders(p.workers, j) + TimesDone(p.done, j) == if j < Received(p) then 1 else 0)
    && BusyCount(p.workers) + |p.done| == Received(p)
  }

  ghost predicate Inv(p: Pool) {
    && Conserved(p)
    && (match p.producer
        case Starting(k) => k <= p.size && |p.workers| == k
        case Sending(n) => n <= p.nbJobs && |p.workers| == p.size
        case _ => |p.workers| == p.size)
    && (p.closed <==> p.producer.Waiting? || p.producer.Returned?)
    && p.waitGroup == |p.workers| - ExitedCount(p.workers)
    && (ExitedCount(p.workers) > 0 ==> p.closed && p.queue == [])
    && (p.producer.Returned? ==> p.waitGroup == 0)
    && (p.size == 0 ==> p.done == [])
  }

  // ----- Counting lemmas -----

  lemma {:induction false} UpdateHolders(ws: seq<Worker>, w: nat, x: Worker, j: nat)
    requires w < |ws|
    ensures Holders(ws[w := x], j) == Holders(ws, j) - (if ws[w] == Busy(j) then 1 else 0) + if x == Busy(j) then 1 else 0
  {
    var last := |ws| - 1;
    if w == last {
      assert ws[w := x][..last] == ws[..last];
    } else {
      assert ws[w := x][..last] == ws[..last][w := x];
      UpdateHolders(ws[..last], w, x, j);
    }
  }

  lemma {:induction false} UpdateCounts(ws: seq<Worker>, w: nat, x: Worker)
    requires w < |ws|
    ensures BusyCount(ws[w := x]) == BusyCount(ws) - (if ws[w].Busy? then 1 else 0) + if x.Busy? then 1 else 0
    ensures ExitedCount(ws[w := x]) == ExitedCount(ws) - (if ws[w].Exited? then 1 else 0) + if x.Exited? then 1 else 0
  {
    var last := |ws| - 1;
    if w == last {
      assert ws[w := x][..last] == ws[..last];
    } else {
      assert ws[w := x][..last] == ws[..last][w := x];
      UpdateCounts(ws[..last], w, x);
    }
  }

  lemma {:induction false} AllExited(ws: seq<Worker>)
    ensures ExitedCount(ws) + BusyCount(ws) <= |ws|
    ensures ExitedCount(ws) < |ws| <==> exists w :: 0 <= w < |ws| && !ws[w].Exited?
  {
    if ws != [] {
      var last := |ws| - 1;
      AllExited(ws[..last]);
      if w :| 0 <= w < last && !ws[..last][w].Exited? {
        assert !ws[w].Exited?;
      }
    }
  }

  lemma {:induction false} NoBusyNoHolder(ws: seq<Worker>, j: nat)
    requires BusyCount(ws) == 0
    ensures Holders(ws, j) == 0
  {
    if ws != [] { NoBusyNoHolder(ws[..|ws| - 1], j); }
  }

  // ----- Every step keeps the invariant -----

  lemma {:induction false} OneMoreDone(done: seq<Work>, work: Work, j: nat)
    ensures TimesDone(done + [work], j) == TimesDone(done, j) + if work.job == j then 1 else 0
  {
    assert (done + [work])[..|done|] == done;
  }

  lemma ReceiveKeepsJob(p: Pool, w: nat, j: nat)
    requires Conserved(p) && w < |p.workers| && p.workers[w].Receiving? && p.queue != []
    ensures Holders(p.workers[w := Busy(p.queue[0])], j) + TimesDone(p.done, j) == if j < Received(p) + 1 then 1 else 0
  {
    UpdateHolders(p.workers, w, Busy(p.queue[0]), j);
    assert p.queue[0] == Received(p);
  }

  lemma FinishKeepsJob(p: Pool, w: nat, j: nat)
    requires Conserved(p) && w < |p.workers| && p.workers[w].Busy?
    ensures Holders(p.workers[w := Receiving], j) + TimesDone(p.done + [Work(w, p.workers[w].job)], j)
         == if j < Received(p) then 1 else 0
  {
    UpdateHolders(p.workers, w, Receiving, j);
    OneMoreDone(p.done, Work(w, p.workers[w].job), j);
  }

  lemma ExitKeepsJob(p: Pool, w: nat, j: nat)
    requires Conserved(p) && w < |p.workers| && p.workers[w].Receiving?
    ensures Holders(p.workers[w := Exited], j) + TimesDone(p.done, j) == if j < Received(p) then 1 else 0
  {
    UpdateHolders(p.workers, w, Exited, j);
  }

  lemma WorkerStepKeepsConserved(p: Pool, e: Event)
    requires Inv(p) && Enabled(p, e) && (e.Receive? || e.Finish? || e.Exit?)
    ensures Conserved(Apply(p, e))
  {
    var p' := Apply(p, e);
    UpdateCounts(p.workers, e.w, p'.workers[e.w]);
    forall j: nat ensures Holders(p'.workers, j) + TimesDone(p'.done, j) == if j < Received(p') then 1 else 0 {
      match e
      case Receive(w) => ReceiveKeepsJob(p, w, j);
      case Finish(w) => FinishKeepsJob(p, w, j);
      case Exit(w) => ExitKeepsJob(p, w, j);
    }
  }

  lemma ProducerStepKeepsConserved(p: Pool, e: Event)
    requires Inv(p) && Enabled(p, e) && !(e.Receive? || e.Finish? || e.Exit?)
    ensures Conserved(Apply(p, e))
  {
    var p' := Apply(p, e);
    if e.StartWorker? {
      assert p'.workers[..|p.workers|] == p.workers;
    }
  }

  lemma StepKeepsInv(p: Pool, e: Event)
    requires Inv(p) && Enabled(p, e)
    ensures Inv(Apply(p, e))
  {
    var p' := Apply(p, e);
    if e.Receive? || e.Finish? || e.Exit? {
      WorkerStepKeepsConserved(p, e);
      UpdateCounts(p.workers, e.w, p'.workers[e.w]);
      AllExited(p.workers);
      assert !p.workers[e.w].Exited?;
    } else {
      ProducerStepKeepsConserved(p, e);
      if e.StartWorker? {
        assert p'.workers[..|p.workers|] == p.workers;
      }
    }
  }

  // ----- What the invariant gives -----

  /** The producer never blocks: whenever it has a job to send there is room in the channel. */
  lemma ProducerNeverBlocks(p: Pool)
    requires Inv(p) && p.producer.Sending? && p.producer.next < p.nbJobs
    ensures Enabled(p, Send)
  {
  }

  lemma {:induction false} HolderCounts(ws: seq<Worker>, w: nat, j: nat)
    requires w < |ws| && ws[w] == Busy(j)
    ensures Holders(ws, j) >= 1
  {
    if w < |ws| - 1 { HolderCounts(ws[..|ws| - 1], w, j); }
  }

  /** Two workers never have the same job in hand, and a job in hand has not been done. */
  lemma OneWorkerPerJob(p: Pool, w: nat, v: nat)
    requires Inv(p) && w < |p.workers| && v < |p.workers| && w != v
    requires p.workers[w].Busy?
    ensures p.workers[v] != p.workers[w]
    ensures TimesDone(p.done, p.workers[w].job) == 0
  {
    var j := p.workers[w].job;
    HolderCounts(p.workers, w, j);
    if p.workers[v] == Busy(j) {
      UpdateHolders(p.workers, w, Receiving, j);
      HolderCounts(p.workers[w := Receiving], v, j);
    }
  }

  /** When Wait returns the queue is empty and every job of the batch has been done exactly once,
      if and only if there is a worker or there was nothing to do; without workers nothing is
      done at all. */
  lemma WaitReturnsAfterAllJobs(p: Pool)
    requires Inv(p) && p.producer.Returned?
    ensures AllDoneOnce(p) && p.queue == [] <==> p.size > 0 || p.nbJobs == 0
    ensures p.size == 0 ==> p.done == [] && |p.queue| == p.nbJobs
  {
    AllExited(p.workers);
    forall j: nat ensures Holders(p.workers, j) == 0 {
      NoBusyNoHolder(p.workers, j);
    }
    if p.size == 0 {
      assert TimesDone(p.done, 0) == 0;
    }
  }

  // ----- Progress and termination -----

  /** The steps left: starts, the switch to sending, sends, close, receives, finishes, exits and
      the return. */
  function StepsLeft(p: Pool): int {
    (match p.producer
     case Starting(k) => p.size - k + p.nbJobs + 3
     case Sending(n) => p.nbJobs - n + 2
     case Waiting => 1
     case Returned => 0)
    + (p.nbJobs - Received(p)) + (p.nbJobs - |p.done|) + (p.size - ExitedCount(p.workers))
  }

  lemma EachStepCountsDown(p: Pool, e: Event)
    requires Inv(p) && Enabled(p, e)
    ensures StepsLeft(Apply(p, e)) == StepsLeft(p) - 1
  {
    var p' := Apply(p, e);
    if e.Receive? || e.Finish? || e.Exit? {
      UpdateCounts(p.workers, e.w, p'.workers[e.w]);
    } else if e.StartWorker? {
      assert p'.workers[..|p.workers|] == p.workers;
    }
  }

  lemma StepsLeftIsNonNegative(p: Pool)
    requires Inv(p)
    ensures StepsLeft(p) >= 0
  {
    AllExited(p.workers);
  }

  /** There is no deadlock: until the pool has returned, someone can move. */
  lemma SomeoneCanMove(p: Pool) returns (e: Event)
    requires Inv(p) && !p.producer.Returned?
    ensures Enabled(p, e)
  {
    match p.producer
    case Starting(k) => e := if k < p.size then StartWorker else BeginSending;
    case Sending(n) => e := if n < p.nbJobs then Send else Close;
    case Waiting =>
      AllExited(p.workers);
      if p.waitGroup == 0 {
        e := Return;
      } else {
        var w :| 0 <= w < |p.workers| && !p.workers[w].Exited?;
        e := if p.workers[w].Busy? then Finish(w) else if p.queue != [] then Receive(w) else Exit(w);
      }
  }

  ghost predicate IsRun(run: seq<Pool>, events: seq<Event>, nbJobs: nat, size: nat) {
    && |run| == |events| + 1
    && run[0] == Initial(nbJobs, size)
    && forall i :: 0 <= i < |events| ==> Enabled(run[i], events[i]) && run[i + 1] == Apply(run[i], events[i])
  }

  /** After some steps of a pool that started with this batch and size. */
  ghost predicate IsAfter(p: Pool, nbJobs: nat, size: nat, steps: nat) {
    && Inv(p) && p.nbJobs == nbJobs && p.size == size
    && StepsLeft(p) == 3 * nbJobs + 2 * size + 3 - steps
  }

  lemma OneStepAfter(p: Pool, e: Event, nbJobs: nat, size: nat, steps: nat)
    requires IsAfter(p, nbJobs, size, steps) && Enabled(p, e)
    ensures IsAfter(Apply(p, e), nbJobs, size, steps + 1)
  {
    StepKeepsInv(p, e);
    EachStepCountsDown(p, e);
  }

  lemma {:induction false} RunsKeepInv(run: seq<Pool>, events: seq<Event>, nbJobs: nat, size: nat)
    requires IsRun(run, events, nbJobs, size)
    ensures IsAfter(run[|events|], nbJobs, size, |events|)
    decreases |events|
  {
    if events != [] {
      var n := |events| - 1;
      assert run[..|run| - 1][n] == run[n];
      RunsKeepInv(run[..|run| - 1], events[..n], nbJobs, size);
      OneStepAfter(run[n], events[n], nbJobs, size, n);
    }
  }

  /** Every maximal run, under any schedule, ends with the return of the pool, after a number of
      steps that depends only on the batch and the pool size. With a worker, each job has then
      been refreshed exactly once. */
  lemma EveryMaximalRunFinishes(run: seq<Pool>, events: seq<Event>, nbJobs: nat, size: nat)
    requires IsRun(run, events, nbJobs, size)
    requires forall e :: !Enabled(run[|events|], e)
    ensures run[|events|].producer.Returned?
    ensures |events| == if size > 0 then 3 * nbJobs + 2 * size + 3 else nbJobs + 3
    ensures size > 0 ==> AllDoneOnce(run[|events|]) && run[|events|].queue == []
  {
    var last := run[|events|];
    RunsKeepInv(run, events, nbJobs, size);
    if !last.producer.Returned? {
      var e := SomeoneCanMove(last);
      assert false;
    }
    WaitReturnsAfterAllJobs(last);
    AllExited(last.workers);
  }

  /** No run goes on for longer. */
  lemma RunsAreBounded(run: seq<Pool>, events: seq<Event>, nbJobs: nat, size: nat)
    requires IsRun(run, events, nbJobs, size)
    ensures |events| <= 3 * nbJobs + 2 * size + 3
  {
    RunsKeepInv(run, events, nbJobs, size);
    StepsLeftIsNonNegative(run[|events|]);
  }

  function AllEvents(p: Pool): set<Event> {
    {StartWorker, BeginSending, Send, Close, Return}
    + (set w | 0 <= w < |p.workers| :: Receive(w))
    + (set w | 0 <= w < |p.workers| :: Finish(w))
    + (set w | 0 <= w < |p.workers| :: Exit(w))
  }

  /** The scheduler. */
  method PickEnabled(p: Pool) returns (e: Event)
    requires Inv(p) && !p.producer.Returned?
    ensures Enabled(p, e)
  {
    ghost var move := SomeoneCanMove(p);
    var enabled := set e | e in AllEvents(p) && Enabled(p, e);
    assert move in enabled;
    e :| e in enabled;
  }

  /** refreshFeeds under a scheduler that picks any enabled step. */
  method RefreshFeeds(nbJobs: nat, size: nat) returns (p: Pool)
    ensures p.producer.Returned?
    ensures size > 0 ==> p.nbJobs == nbJobs && AllDoneOnce(p) && p.queue == []
  {
    p := Initial(nbJobs, size);
    while !p.producer.Returned?
      invariant Inv(p) && p.nbJobs == nbJobs && p.size == size
      decreases StepsLeft(p)
    {
      StepsLeftIsNonNegative(p);
      var e := PickEnabled(p);
      StepKeepsInv(p, e);
      EachStepCountsDown(p, e);
      p := Apply(p, e);
    }
    WaitReturnsAfterAllJobs(p);
  }
}

/** The benchmark's dispatch pipeline: one dispatcher, a pool of workers, and two bounded channels whose
    results are drained only after every worker has been joined. */
module Pipeline {

  const WORKER_CHANNEL_SIZE: nat := 4096

  datatype Worker = Idle | Busy(job: nat) | Ready(ok: bool) | Exited

  datatype Phase = Dispatching | Joining | Draining | Done

  datatype State = State(
    phase: Phase,
    dispatched: nat,
    jobs: seq<nat>,
    workers: seq<Worker>,
    results: seq<bool>,
    acks: nat,
    failed: nat)

  datatype Action =
    | Dispatch
    | CloseJobs
    | Take(i: nat)
    | Exchange(i: nat, ok: bool)
    | Send(i: nat)
    | Exit(i: nat)
    | Joined
    | Drain
    | Finish

  function Init(workers: nat): State {
    State(Dispatching, 0, [], seq(workers, _ => Idle), [], 0, 0)
  }

  ghost predicate AllExited(ws: seq<Worker>) {
    forall i | 0 <= i < |ws| :: ws[i].Exited?
  }

  /** Sends block on a full channel, receives on an empty open one; a join waits for every worker. */
  ghost predicate Enabled(s: State, a: Action, total: nat) {
    match a
    case Dispatch => s.phase.Dispatching? && s.dispatched < total && |s.jobs| < WORKER_CHANNEL_SIZE
    case CloseJobs => s.phase.Dispatching? && s.dispatched == total
    case Take(i) => i < |s.workers| && s.workers[i].Idle? && s.jobs != []
    case Exchange(i, _) => i < |s.workers| && s.workers[i].Busy?
    case Send(i) => i < |s.workers| && s.workers[i].Ready? && |s.results| < WORKER_CHANNEL_SIZE
    case Exit(i) => i < |s.workers| && s.workers[i].Idle? && s.jobs == [] && !s.phase.Dispatching?
    case Joined => s.phase.Joining? && AllExited(s.workers)
    case Drain => s.phase.Draining? && s.results != []
    case Finish => s.phase.Draining? && s.results == []
  }

  ghost function Apply(s: State, a: Action, total: nat): State
    requires Enabled(s, a, total)
  {
    match a
    case Dispatch => s.(jobs := s.jobs + [s.dispatched], dispatched := s.dispatched + 1)
    case CloseJobs => s.(phase := Joining)
    case Take(i) => s.(workers := s.workers[i := Busy(s.jobs[0])], jobs := s.jobs[1..])
    case Exchange(i, ok) => s.(workers := s.workers[i := Ready(ok)])
    case Send(i) => s.(workers := s.workers[i := Idle], results := s.results + [s.workers[i].ok])
    case Exit(i) => s.(workers := s.workers[i := Exited])
    case Joined => s.(phase := Draining)
    case Drain =>
      if s.results[0] then s.(results := s.results[1..], acks := s.acks + 1)
      else s.(results := s.results[1..], failed := s.failed + 1)
    case Finish => s.(phase := Done)
  }

  // ---------------------------------------------------------------- counting workers

  function Load(w: Worker): nat { if w.Busy? || w.Ready? then 1 else 0 }

  function InFlight(ws: seq<Worker>): nat {
    if ws == [] then 0 else Load(ws[0]) + InFlight(ws[1..])
  }

  /** Steps a worker still has ahead of it. */
  function Ahead(w: Worker): nat {
    match w
    case Idle => 1
    case Busy(_) => 4
    case Ready(_) => 3
    case Exited => 0
  }

  function AllAhead(ws: seq<Worker>): nat {
    if ws == [] then 0 else Ahead(ws[0]) + AllAhead(ws[1..])
  }

  lemma {:induction false} SetWorker(ws: seq<Worker>, i: nat, w: Worker)
    requires i < |ws|
    ensures InFlight(ws[i := w]) + Load(ws[i]) == InFlight(ws) + Load(w)
    ensures AllAhead(ws[i := w]) + Ahead(ws[i]) == AllAhead(ws) + Ahead(w)
    ensures Load(ws[i]) <= InFlight(ws)
  {
    if i > 0 {
      SetWorker(ws[1..], i - 1, w);
      assert ws[i := w][1..] == ws[1..][i - 1 := w];
    } else {
      assert ws[i := w][1..] == ws[1..];
    }
  }

  lemma {:induction false} NoneInFlight(ws: seq<Worker>)
    requires AllExited(ws)
    ensures InFlight(ws) == 0
  {
    if ws != [] {
      NoneInFlight(ws[1..]);
    }
  }

  lemma {:induction false} IdleStart(n: nat)
    ensures InFlight(seq(n, _ => Idle)) == 0 && AllAhead(seq(n, _ => Idle)) == n
  {
    if n > 0 {
      IdleStart(n - 1);
      assert seq(n, _ => Idle)[1..] == seq(n - 1, _ => Idle);
    }
  }

  // ---------------------------------------------------------------- the invariant

  ghost predicate Inv(s: State, total: nat) {
    && s.dispatched <= total
    && |s.jobs| <= WORKER_CHANNEL_SIZE && |s.results| <= WORKER_CHANNEL_SIZE
    // conservation: queued, in flight, waiting as results, or counted
    && |s.jobs| + InFlight(s.workers) + |s.results| + s.acks + s.failed == s.dispatched
    && (!s.phase.Dispatching? ==> s.dispatched == total)
    && ((exists i :: 0 <= i < |s.workers| && s.workers[i].Exited?) ==> s.jobs == [] && !s.phase.Dispatching?)
    && (s.phase.Dispatching? || s.phase.Joining? ==> s.acks == 0 && s.failed == 0)
    && (s.phase.Draining? || s.phase.Done? ==>
          AllExited(s.workers) && s.jobs == [] && total <= WORKER_CHANNEL_SIZE)
    && (s.phase.Done? ==> s.results == [])
  }

  lemma InitInv(workers: nat, total: nat)
    ensures Inv(Init(workers), total)
  {
    IdleStart(workers);
  }

  lemma StepInv(s: State, a: Action, total: nat)
    requires Inv(s, total) && |s.workers| > 0 && Enabled(s, a, total)
    ensures Inv(Apply(s, a, total), total) && |Apply(s, a, total).workers| == |s.workers|
  {
    match a {
      case Take(i) => SetWorker(s.workers, i, Busy(s.jobs[0]));
      case Exchange(i, ok) => SetWorker(s.workers, i, Ready(ok));
      case Send(i) => SetWorker(s.workers, i, Idle);
      case Exit(i) => SetWorker(s.workers, i, Exited);
      case Joined =>
        NoneInFlight(s.workers);
        assert s.workers[0].Exited?;
      case _ =>
    }
  }

  // ---------------------------------------------------------------- termination

  /** The number of steps left, whatever is scheduled. */
  ghost function StepsLeft(s: State, total: nat): nat
    requires s.dispatched <= total
  {
    5 * (total - s.dispatched) + 4 * |s.jobs| + AllAhead(s.workers) + |s.results|
    + (match s.phase case Dispatching => 3 case Joining => 2 case Draining => 1 case Done => 0)
  }

  lemma StepCounts(s: State, a: Action, total: nat)
    requires Inv(s, total) && Enabled(s, a, total)
    ensures Apply(s, a, total).dispatched <= total
    ensures StepsLeft(Apply(s, a, total), total) == StepsLeft(s, total) - 1
  {
    match a {
      case Take(i) => SetWorker(s.workers, i, Busy(s.jobs[0]));
      case Exchange(i, ok) => SetWorker(s.workers, i, Ready(ok));
      case Send(i) => SetWorker(s.workers, i, Idle);
      case Exit(i) => SetWorker(s.workers, i, Exited);
      case _ =>
    }
  }

  // ---------------------------------------------------------------- deadlock

  ghost predicate Stuck(s: State, total: nat) {
    forall a :: !Enabled(s, a, total)
  }

  /** A worker that has not exited can move, unless the result channel is full. */
  lemma WorkerMoves(s: State, total: nat, i: nat) returns (a: Action)
    requires Inv(s, total) && i < |s.workers| && !s.workers[i].Exited?
    requires !s.phase.Dispatching? && total <= WORKER_CHANNEL_SIZE
    ensures Enabled(s, a, total)
  {
    match s.workers[i] {
      case Idle => a := if s.jobs != [] then Take(i) else Exit(i);
      case Busy(_) => a := Exchange(i, true);
      case Ready(_) =>
        SetWorker(s.workers, i, Idle);
        a := Send(i);
    }
  }

  /** With room for every result, some step is possible until the benchmark is done. */
  lemma Progress(s: State, total: nat) returns (a: Action)
    requires Inv(s, total) && |s.workers| > 0 && !s.phase.Done? && total <= WORKER_CHANNEL_SIZE
    ensures Enabled(s, a, total)
  {
    match s.phase {
      case Dispatching =>
        a := if s.dispatched == total then CloseJobs else Dispatch;
      case Joining =>
        if AllExited(s.workers) {
          a := Joined;
        } else {
          var i :| 0 <= i < |s.workers| && !s.workers[i].Exited?;
          a := WorkerMoves(s, total, i);
        }
      case Draining =>
        a := if s.results != [] then Drain else Finish;
    }
  }

  // ---------------------------------------------------------------- whole runs

  ghost predicate IsRun(s: State, acts: seq<Action>, total: nat)
    decreases |acts|
  {
    acts != [] ==> Enabled(s, acts[0], total) && IsRun(Apply(s, acts[0], total), acts[1..], total)
  }

  ghost function End(s: State, acts: seq<Action>, total: nat): State
    requires IsRun(s, acts, total)
    decreases |acts|
  {
    if acts == [] then s else End(Apply(s, acts[0], total), acts[1..], total)
  }

  lemma {:induction false} RunInv(s: State, acts: seq<Action>, total: nat)
    requires Inv(s, total) && |s.workers| > 0 && IsRun(s, acts, total)
    ensures var e := End(s, acts, total);
            Inv(e, total) && |e.workers| == |s.workers| && |acts| + StepsLeft(e, total) == StepsLeft(s, total)
    decreases |acts|
  {
    hide Inv;
    DispatchedBound(s, total);
    if acts != [] {
      StepInv(s, acts[0], total);
      StepCounts(s, acts[0], total);
      RunInv(Apply(s, acts[0], total), acts[1..], total);
    }
  }

  lemma DispatchedBound(s: State, total: nat)
    requires Inv(s, total)
    ensures s.dispatched <= total
  {
  }

  /** In every reachable state no job is lost: queued, in flight, waiting as a result, or counted. */
  lemma JobsConserved(workers: nat, acts: seq<Action>, total: nat)
    requires workers > 0 && IsRun(Init(workers), acts, total)
    ensures var s := End(Init(workers), acts, total);
            |s.jobs| + InFlight(s.workers) + |s.results| + s.acks + s.failed == s.dispatched <= total
  {
    InitInv(workers, total);
    RunInv(Init(workers), acts, total);
  }

  /** The exact bound: whatever the schedule, a run takes at most 5 * total + workers + 3 steps; one that
      cannot go on has finished exactly when every result fits the channel, and then has counted every order. */
  lemma CompletesIff(workers: nat, acts: seq<Action>, total: nat)
    requires workers > 0 && IsRun(Init(workers), acts, total)
    ensures |acts| <= 5 * total + workers + 3
    ensures var s := End(Init(workers), acts, total);
            && (Stuck(s, total) ==> (s.phase.Done? <==> total <= 4096))
            && (s.phase.Done? ==> Stuck(s, total) && s.acks + s.failed == total && |acts| == 5 * total + workers + 3)
  {
    var s0 := Init(workers);
    InitInv(workers, total);
    RunInv(s0, acts, total);
    IdleStart(workers);
    var s := End(s0, acts, total);
    if Stuck(s, total) && total <= WORKER_CHANNEL_SIZE && !s.phase.Done? {
      var a := Progress(s, total);
    }
    if s.phase.Done? {
      NoneInFlight(s.workers);
      NoneAhead(s.workers);
    }
  }

  // ---------------------------------------------------------------- what is counted

  /** How many exchanges of the run ended this way. */
  ghost function Exchanges(acts: seq<Action>, ok: bool): nat {
    if acts == [] then 0
    else (if acts[0].Exchange? && acts[0].ok == ok then 1 else 0) + Exchanges(acts[1..], ok)
  }

  function TrueCount(bs: seq<bool>, ok: bool): nat {
    if bs == [] then 0 else (if bs[0] == ok then 1 else 0) + TrueCount(bs[1..], ok)
  }

  function ReadyCount(ws: seq<Worker>, ok: bool): nat {
    if ws == [] then 0 else (if ws[0] == Ready(ok) then 1 else 0) + ReadyCount(ws[1..], ok)
  }

  /** The exchanges of this outcome that a state still knows of: counted, queued as results, or held by a worker. */
  ghost function Known(s: State, ok: bool): nat {
    (if ok then s.acks else s.failed) + TrueCount(s.results, ok) + ReadyCount(s.workers, ok)
  }

  lemma {:induction false} SetReady(ws: seq<Worker>, i: nat, w: Worker, ok: bool)
    requires i < |ws|
    ensures ReadyCount(ws[i := w], ok) + (if ws[i] == Ready(ok) then 1 else 0)
            == ReadyCount(ws, ok) + (if w == Ready(ok) then 1 else 0)
  {
    if i > 0 {
      SetReady(ws[1..], i - 1, w, ok);
      assert ws[i := w][1..] == ws[1..][i - 1 := w];
    } else {
      assert ws[i := w][1..] == ws[1..];
    }
  }

  lemma {:induction false} CountSnoc(bs: seq<bool>, b: bool, ok: bool)
    ensures TrueCount(bs + [b], ok) == TrueCount(bs, ok) + (if b == ok then 1 else 0)
  {
    if bs != [] {
      assert (bs + [b])[1..] == bs[1..] + [b];
      CountSnoc(bs[1..], b, ok);
    }
  }

  lemma StepKnown(s: State, a: Action, total: nat, ok: bool)
    requires Enabled(s, a, total)
    ensures Known(Apply(s, a, total), ok) == Known(s, ok) + (if a.Exchange? && a.ok == ok then 1 else 0)
  {
    match a {
      case Take(i) => SetReady(s.workers, i, Busy(s.jobs[0]), ok);
      case Exchange(i, b) => SetReady(s.workers, i, Ready(b), ok);
      case Send(i) =>
        SetReady(s.workers, i, Idle, ok);
        CountSnoc(s.results, s.workers[i].ok, ok);
      case Exit(i) => SetReady(s.workers, i, Exited, ok);
      case _ =>
    }
  }

  lemma {:induction false} RunKnown(s: State, acts: seq<Action>, total: nat, ok: bool)
    requires IsRun(s, acts, total)
    ensures Known(End(s, acts, total), ok) == Known(s, ok) + Exchanges(acts, ok)
    decreases |acts|
  {
    hide Known;
    if acts != [] {
      StepKnown(s, acts[0], total, ok);
      RunKnown(Apply(s, acts[0], total), acts[1..], total, ok);
    }
  }

  lemma {:induction false} NoneReady(ws: seq<Worker>, ok: bool)
    requires forall w | w in ws :: !w.Ready?
    ensures ReadyCount(ws, ok) == 0
  {
    if ws != [] {
      NoneReady(ws[1..], ok);
    }
  }

  /** What the benchmark reports when it ends: as many successes as exchanges that succeeded, and as many failures as
      exchanges that failed. */
  lemma CountsReported(workers: nat, acts: seq<Action>, total: nat)
    requires workers > 0 && IsRun(Init(workers), acts, total) && End(Init(workers), acts, total).phase.Done?
    ensures var s := End(Init(workers), acts, total);
            s.acks == Exchanges(acts, true) && s.failed == Exchanges(acts, false)
  {
    var s0, s := Init(workers), End(Init(workers), acts, total);
    InitInv(workers, total);
    RunInv(s0, acts, total);
    forall ok ensures (if ok then s.acks else s.failed) == Exchanges(acts, ok) {
      RunKnown(s0, acts, total, ok);
      NoneReady(s0.workers, ok);
      NoneReady(s.workers, ok);
    }
    assert (if true then s.acks else s.failed) == Exchanges(acts, true);
    assert (if false then s.acks else s.failed) == Exchanges(acts, false);
  }

  // ---------------------------------------------------------------- which jobs

  /** The jobs taken by workers, in the order taken. */
  ghost function Taken(s: State, acts: seq<Action>, total: nat): seq<nat>
    requires IsRun(s, acts, total)
    decreases |acts|
  {
    if acts == [] then []
    else (if acts[0].Take? then [s.jobs[0]] else []) + Taken(Apply(s, acts[0], total), acts[1..], total)
  }

  /** How often an exchange of job `j` ended. */
  ghost function TimesExchanged(s: State, acts: seq<Action>, total: nat, j: nat): nat
    requires IsRun(s, acts, total)
    decreases |acts|
  {
    if acts == [] then 0
    else (if acts[0].Exchange? && s.workers[acts[0].i] == Busy(j) then 1 else 0)
         + TimesExchanged(Apply(s, acts[0], total), acts[1..], total, j)
  }

  /** The numbers from `a` up to, not including, `b`. */
  function Upto(a: nat, b: nat): seq<nat>
    requires a <= b
  {
    seq(b - a, i requires 0 <= i => a + i)
  }

  /** From `s` to `e`, the jobs taken are those queued and then those dispatched, in order. */
  ghost predicate InTurn(s: State, e: State, taken: seq<nat>) {
    s.dispatched <= e.dispatched && taken + e.jobs == s.jobs + Upto(s.dispatched, e.dispatched)
  }

  lemma StepTaken(s: State, a: Action, total: nat, e: State, later: seq<nat>)
    requires Enabled(s, a, total) && InTurn(Apply(s, a, total), e, later)
    ensures InTurn(s, e, (if a.Take? then [s.jobs[0]] else []) + later)
  {
    var t := Apply(s, a, total);
    var first := if a.Take? then [s.jobs[0]] else [];
    assert first + later + e.jobs == first + (later + e.jobs);
    if a.Take? {
      assert s.jobs == [s.jobs[0]] + t.jobs;
    } else if a.Dispatch? {
      assert Upto(s.dispatched, e.dispatched) == [s.dispatched] + Upto(t.dispatched, e.dispatched);
    }
  }

  lemma TakenFirst(s: State, acts: seq<Action>, total: nat)
    requires acts != [] && IsRun(s, acts, total)
    ensures var t := Apply(s, acts[0], total);
            && IsRun(t, acts[1..], total) && End(s, acts, total) == End(t, acts[1..], total)
            && Taken(s, acts, total) == (if acts[0].Take? then [s.jobs[0]] else []) + Taken(t, acts[1..], total)
  {
  }

  /** First in, first out. */
  lemma {:induction false} RunTaken(s: State, acts: seq<Action>, total: nat)
    requires IsRun(s, acts, total)
    ensures InTurn(s, End(s, acts, total), Taken(s, acts, total))
    decreases |acts|
  {
    if acts == [] {
      assert [] + s.jobs == s.jobs + [];
    } else {
      TakenFirst(s, acts, total);
      assert Enabled(s, acts[0], total);
      hide *;
      var t := Apply(s, acts[0], total);
      RunTaken(t, acts[1..], total);
      StepTaken(s, acts[0], total, End(t, acts[1..], total), Taken(t, acts[1..], total));
    }
  }

  function BusyOn(ws: seq<Worker>, j: nat): nat {
    if ws == [] then 0 else (if ws[0] == Busy(j) then 1 else 0) + BusyOn(ws[1..], j)
  }

  function Times(js: seq<nat>, j: nat): nat {
    if js == [] then 0 else (if js[0] == j then 1 else 0) + Times(js[1..], j)
  }

  lemma {:induction false} SetBusy(ws: seq<Worker>, i: nat, w: Worker, j: nat)
    requires i < |ws|
    ensures BusyOn(ws[i := w], j) + (if ws[i] == Busy(j) then 1 else 0)
            == BusyOn(ws, j) + (if w == Busy(j) then 1 else 0)
  {
    if i > 0 {
      SetBusy(ws[1..], i - 1, w, j);
      assert ws[i := w][1..] == ws[1..][i - 1 := w];
    } else {
      assert ws[i := w][1..] == ws[1..];
    }
  }

  /** A job taken is with a worker until its exchange ends. */
  lemma StepBusy(s: State, a: Action, total: nat, j: nat)
    requires Enabled(s, a, total)
    ensures (if a.Exchange? && s.workers[a.i] == Busy(j) then 1 else 0) + BusyOn(Apply(s, a, total).workers, j)
            == (if a.Take? && s.jobs[0] == j then 1 else 0) + BusyOn(s.workers, j)
  {
    match a {
      case Take(i) => SetBusy(s.workers, i, Busy(s.jobs[0]), j);
      case Exchange(i, ok) => SetBusy(s.workers, i, Ready(ok), j);
      case Send(i) => SetBusy(s.workers, i, Idle, j);
      case Exit(i) => SetBusy(s.workers, i, Exited, j);
      case _ =>
    }
  }

  lemma {:induction false} RunBusy(s: State, acts: seq<Action>, total: nat, j: nat)
    requires IsRun(s, acts, total)
    ensures TimesExchanged(s, acts, total, j) + BusyOn(End(s, acts, total).workers, j)
            == Times(Taken(s, acts, total), j) + BusyOn(s.workers, j)
    decreases |acts|
  {
    if acts != [] {
      var t := Apply(s, acts[0], total);
      var rest := Taken(t, acts[1..], total);
      StepBusy(s, acts[0], total, j);
      RunBusy(t, acts[1..], total, j);
      if acts[0].Take? {
        assert ([s.jobs[0]] + rest)[1..] == rest;
      } else {
        assert [] + rest == rest;
      }
    }
  }

  lemma {:induction false} NoneBusy(ws: seq<Worker>, j: nat)
    requires forall w | w in ws :: !w.Busy?
    ensures BusyOn(ws, j) == 0
  {
    if ws != [] {
      NoneBusy(ws[1..], j);
    }
  }

  lemma {:induction false} OnceEach(a: nat, b: nat, j: nat)
    requires a <= b
    ensures Times(Upto(a, b), j) == if a <= j < b then 1 else 0
    decreases b - a
  {
    if a < b {
      OnceEach(a + 1, b, j);
      assert Upto(a, b) == [a] + Upto(a + 1, b);
    }
  }

  /** A benchmark that ends has handed the orders 0 to total - 1 to the workers in this order, and each of them has been
      exchanged exactly once. */
  lemma EachOrderOnce(workers: nat, acts: seq<Action>, total: nat, j: nat)
    requires workers > 0 && IsRun(Init(workers), acts, total) && End(Init(workers), acts, total).phase.Done?
    ensures Taken(Init(workers), acts, total) == seq(total, i => i)
    ensures TimesExchanged(Init(workers), acts, total, j) == if j < total then 1 else 0
  {
    var s0, s := Init(workers), End(Init(workers), acts, total);
    InitInv(workers, total);
    RunInv(s0, acts, total);
    RunTaken(s0, acts, total);
    RunBusy(s0, acts, total, j);
    NoneBusy(s0.workers, j);
    NoneBusy(s.workers, j);
    OnceEach(0, total, j);
    hide *;
    var taken := Taken(s0, acts, total);
    assert taken + [] == taken && [] + Upto(0, total) == Upto(0, total);
    assert Upto(0, total) == seq(total, i => i);
  }

  lemma {:induction false} NoneAhead(ws: seq<Worker>)
    requires AllExited(ws)
    ensures AllAhead(ws) == 0
  {
    if ws != [] {
      NoneAhead(ws[1..]);
    }
  }
}

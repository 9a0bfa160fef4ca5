/** The parallel test-job pool of `test.py`, as interleaved steps: the main thread
    dispatches jobs and stop pills and collects results, workers take, run and report
    jobs, and an interrupt may raise `threadExit` at any moment. */
module TestPool {
  import opened Sequences

  /** `id` numbers the Job objects in the order of their creation: the dispatched jobs
      first, then one stop pill per worker. */
  datatype Job = Job(id: nat, isBreak: bool, isSkip: bool, returncode: int)

  datatype Worker =
    | Waiting                 // in input_queue.get()
    | Holding(job: Job)       // took a job, looked at nothing yet
    | Running(job: Job)       // executing the shell command
    | Reporting(job: Job)     // about to put the job on output_queue
    | Stopped(pill: Job)      // returned from run()

  /** Where the main thread is in run_tests. */
  datatype Phase =
    | Dispatching(next: nat)
    | Stopping(pills: nat)
    | Collecting
    | Joining(joined: nat)
    | Returned(code: int)

  datatype Tally = Tally(passed: nat, failed: nat, valgrind: nat, crashed: nat, skipped: nat)

  /** `skips[i]` says whether job `i` is dispatched only to be skipped; `collected` is the
      history of what the collector read. */
  datatype State = State(
    skips: seq<bool>, input: seq<Job>, output: seq<Job>, workers: seq<Worker>,
    threadExit: bool, phase: Phase, tally: Tally, collected: seq<Job>)

  datatype Action =
    | Dispatch | PutPill | Collect | JoinNext | NextPhase | Interrupt
    | Take(w: nat) | Check(w: nat) | Finish(w: nat, returncode: int) | Report(w: nat)

  function Init(skips: seq<bool>, processors: nat): State {
    State(skips, [], [], seq(processors, _ => Waiting), false, Dispatching(0), Tally(0, 0, 0, 0, 0), [])
  }

  function NewJob(s: State, i: nat): Job
    requires i < |s.skips|
  {
    Job(i, false, s.skips[i], 0)
  }

  function NewPill(s: State, i: nat): Job {
    Job(|s.skips| + i, true, false, 0)
  }

  predicate Enabled(s: State, a: Action) {
    match a
    case Dispatch => s.phase.Dispatching? && s.phase.next < |s.skips|
    case PutPill => s.phase.Stopping? && s.phase.pills < |s.workers|
    case Collect => s.phase.Collecting? && |s.collected| < |s.skips| && s.output != []
    case JoinNext => s.phase.Joining? && s.phase.joined < |s.workers| && s.workers[s.phase.joined].Stopped?
    case NextPhase =>
      match s.phase {
        case Dispatching(next) => next == |s.skips|
        case Stopping(pills) => pills == |s.workers|
        case Collecting => |s.collected| == |s.skips|
        case Joining(joined) => joined == |s.workers|
        case Returned(_) => false
      }
    case Interrupt => !s.threadExit
    case Take(w) => w < |s.workers| && s.workers[w].Waiting? && s.input != []
    case Check(w) => w < |s.workers| && s.workers[w].Holding?
    case Finish(w, _) => w < |s.workers| && s.workers[w].Running?
    case Report(w) => w < |s.workers| && s.workers[w].Reporting?
  }

  /** A worker looks at the job it took. */
  function Checked(job: Job, threadExit: bool): Worker {
    if job.isBreak then Stopped(job)
    else if threadExit then Reporting(job.(isBreak := true))
    else if job.isSkip then Reporting(job)
    else Running(job)
  }

  /** The collector's classification; interrupted jobs are not counted. */
  function Counted(t: Tally, job: Job): Tally {
    if job.isBreak then t
    else if job.isSkip then t.(skipped := t.skipped + 1)
    else if job.returncode == 0 then t.(passed := t.passed + 1)
    else if job.returncode == 1 then t.(failed := t.failed + 1)
    else if job.returncode == 2 then t.(valgrind := t.valgrind + 1)
    else t.(crashed := t.crashed + 1)
  }

  function ExitCode(s: State): int {
    if s.tally.passed + s.tally.skipped == |s.skips| then 0 else 1
  }

  function AdvancePhase(s: State): Phase {
    match s.phase
    case Dispatching(_) => Stopping(0)
    case Stopping(_) => Collecting
    case Collecting => Joining(0)
    case Joining(_) => Returned(ExitCode(s))
    case Returned(code) => Returned(code)
  }

  function Apply(s: State, a: Action): State
    requires Enabled(s, a)
  {
    match a
    case Dispatch => s.(input := s.input + [NewJob(s, s.phase.next)], phase := Dispatching(s.phase.next + 1))
    case PutPill => s.(input := s.input + [NewPill(s, s.phase.pills)], phase := Stopping(s.phase.pills + 1))
    case Collect =>
      s.(output := s.output[1..], tally := Counted(s.tally, s.output[0]), collected := s.collected + [s.output[0]])
    case JoinNext => s.(phase := Joining(s.phase.joined + 1))
    case NextPhase => s.(phase := AdvancePhase(s))
    case Interrupt => s.(threadExit := true)
    case Take(w) => s.(input := s.input[1..], workers := s.workers[w := Holding(s.input[0])])
    case Check(w) => s.(workers := s.workers[w := Checked(s.workers[w].job, s.threadExit)])
    case Finish(w, code) => s.(workers := s.workers[w := Reporting(s.workers[w].job.(returncode := code))])
    case Report(w) => s.(output := s.output + [s.workers[w].job], workers := s.workers[w := Waiting])
  }

  /** The actions of `acts`, in this order, lead from `s` to `t`. */
  ghost predicate Run(s: State, acts: seq<Action>, t: State)
    decreases |acts|
  {
    if acts == [] then s == t
    else Enabled(s, acts[0]) && Run(Apply(s, acts[0]), acts[1..], t)
  }

  // ---------------------------------------------------------------- where jobs are

  ghost function Copies(js: seq<Job>, id: nat): nat {
    if js == [] then 0 else Copies(js[..|js| - 1], id) + if js[|js| - 1].id == id then 1 else 0
  }

  ghost function InHand(w: Worker, id: nat): nat {
    match w
    case Waiting => 0
    case Stopped(pill) => if pill.id == id then 1 else 0
    case _ => if w.job.id == id then 1 else 0
  }

  ghost function InHands(ws: seq<Worker>, id: nat): nat {
    if ws == [] then 0 else InHands(ws[..|ws| - 1], id) + InHand(ws[|ws| - 1], id)
  }

  ghost function Created(s: State): nat {
    match s.phase
    case Dispatching(next) => next
    case Stopping(pills) => |s.skips| + pills
    case _ => |s.skips| + |s.workers|
  }

  /** Every Job object created so far is in exactly one place. */
  ghost predicate Conserved(s: State) {
    forall id: nat :: Places(s, id) == if id < Created(s) then 1 else 0
  }

  ghost function Places(s: State, id: nat): nat {
    Copies(s.input, id) + InHands(s.workers, id) + Copies(s.output, id) + Copies(s.collected, id)
  }

  // ---------------------------------------------------------------- invariant

  ghost predicate IsPill(s: State, job: Job) {
    job.isBreak && job.id >= |s.skips|
  }

  /** A dispatched job as it was created. */
  ghost predicate IsFresh(s: State, job: Job) {
    job.id < |s.skips| && !job.isBreak && job.isSkip == s.skips[job.id]
  }

  /** A dispatched job, handled or not. */
  ghost predicate IsReal(s: State, job: Job) {
    job.id < |s.skips| && job.isSkip == s.skips[job.id]
  }

  ghost predicate WorkerOk(s: State, w: Worker) {
    match w
    case Waiting => true
    case Holding(job) => IsFresh(s, job) || IsPill(s, job)
    case Running(job) => IsFresh(s, job) && !job.isSkip
    case Reporting(job) => IsReal(s, job)
    case Stopped(pill) => IsPill(s, pill)
  }

  /** Real jobs, then stop pills. */
  ghost predicate QueueShape(s: State) {
    && (forall i :: 0 <= i < |s.input| ==> IsFresh(s, s.input[i]) || IsPill(s, s.input[i]))
    && (forall i, j :: 0 <= i <= j < |s.input| && s.input[i].isBreak ==> s.input[j].isBreak)
  }

  ghost predicate AllPills(s: State) {
    forall i :: 0 <= i < |s.input| ==> IsPill(s, s.input[i])
  }

  ghost predicate HasPill(w: Worker) {
    w.Stopped? || (w.Holding? && w.job.isBreak)
  }

  ghost function PillsQueued(js: seq<Job>): nat {
    if js == [] then 0 else PillsQueued(js[..|js| - 1]) + if js[|js| - 1].isBreak then 1 else 0
  }

  ghost function PillsTaken(ws: seq<Worker>): nat {
    if ws == [] then 0 else PillsTaken(ws[..|ws| - 1]) + if HasPill(ws[|ws| - 1]) then 1 else 0
  }

  ghost function PillsPut(s: State): nat {
    match s.phase
    case Dispatching(_) => 0
    case Stopping(pills) => pills
    case _ => |s.workers|
  }

  ghost function TallyOf(js: seq<Job>): Tally {
    if js == [] then Tally(0, 0, 0, 0, 0) else Counted(TallyOf(js[..|js| - 1]), js[|js| - 1])
  }

  ghost predicate PhaseOk(s: State) {
    match s.phase
    case Dispatching(next) => next <= |s.skips| && s.collected == [] && AllFresh(s)
    case Stopping(pills) => pills <= |s.workers| && s.collected == []
    case Collecting => |s.collected| <= |s.skips|
    case Joining(joined) =>
      |s.collected| == |s.skips| && joined <= |s.workers| && forall i :: 0 <= i < joined ==> s.workers[i].Stopped?
    case Returned(code) =>
      |s.collected| == |s.skips| && (forall i :: 0 <= i < |s.workers| ==> s.workers[i].Stopped?) && code == ExitCode(s)
  }

  ghost predicate AllFresh(s: State) {
    forall i :: 0 <= i < |s.input| ==> IsFresh(s, s.input[i])
  }

  ghost predicate Inv(s: State) {
    && |s.workers| >= 1
    && Conserved(s) && QueueShape(s) && PhaseOk(s)
    && (forall i :: 0 <= i < |s.workers| ==> WorkerOk(s, s.workers[i]))
    && (forall i :: 0 <= i < |s.workers| && HasPill(s.workers[i]) ==> AllPills(s))
    && (forall i :: 0 <= i < |s.output| ==> IsReal(s, s.output[i]))
    && (forall i :: 0 <= i < |s.collected| ==> IsReal(s, s.collected[i]))
    && PillsQueued(s.input) + PillsTaken(s.workers) == PillsPut(s)
    && s.tally == TallyOf(s.collected)
  }

  // ---------------------------------------------------------------- counting lemmas

  lemma {:induction false} CopiesPop(js: seq<Job>, id: nat)
    requires js != []
    ensures Copies(js, id) == Copies(js[1..], id) + if js[0].id == id then 1 else 0
  {
    if |js| > 1 {
      CopiesPop(js[..|js| - 1], id);
      assert js[..|js| - 1][1..] == js[1..][..|js| - 2];
    }
  }

  lemma CopiesPush(js: seq<Job>, job: Job, id: nat)
    ensures Copies(js + [job], id) == Copies(js, id) + if job.id == id then 1 else 0
  {
  }

  lemma {:induction false} PillsPop(js: seq<Job>)
    requires js != []
    ensures PillsQueued(js) == PillsQueued(js[1..]) + if js[0].isBreak then 1 else 0
  {
    if |js| > 1 {
      PillsPop(js[..|js| - 1]);
      assert js[..|js| - 1][1..] == js[1..][..|js| - 2];
    }
  }

  lemma PillsPush(js: seq<Job>, job: Job)
    ensures PillsQueued(js + [job]) == PillsQueued(js) + if job.isBreak then 1 else 0
  {
  }

  lemma {:induction false} HandsUpdate(ws: seq<Worker>, w: nat, x: Worker, id: nat)
    requires w < |ws|
    ensures InHands(ws[w := x], id) + InHand(ws[w], id) == InHands(ws, id) + InHand(x, id)
  {
    hide InHand;
    var n := |ws| - 1;
    if w == n {
      assert ws[w := x][..n] == ws[..n];
    } else {
      HandsUpdate(ws[..n], w, x, id);
      assert ws[w := x][..n] == ws[..n][w := x];
    }
  }

  lemma {:induction false} TakenUpdate(ws: seq<Worker>, w: nat, x: Worker)
    requires w < |ws|
    ensures PillsTaken(ws[w := x]) + (if HasPill(ws[w]) then 1 else 0) == PillsTaken(ws) + if HasPill(x) then 1 else 0
  {
    hide HasPill;
    var n := |ws| - 1;
    if w == n {
      assert ws[w := x][..n] == ws[..n];
    } else {
      TakenUpdate(ws[..n], w, x);
      assert ws[w := x][..n] == ws[..n][w := x];
    }
  }

  lemma {:induction false} NoneTaken(ws: seq<Worker>)
    requires forall i :: 0 <= i < |ws| ==> ws[i] == Waiting
    ensures PillsTaken(ws) == 0 && forall id :: InHands(ws, id) == 0
  {
    if ws != [] { NoneTaken(ws[..|ws| - 1]); }
  }

  // ---------------------------------------------------------------- every step keeps the invariant

  lemma InitInv(skips: seq<bool>, processors: nat)
    requires processors >= 1
    ensures Inv(Init(skips, processors))
  {
    NoneTaken(Init(skips, processors).workers);
  }

  lemma StepConserves(s: State, a: Action)
    requires Enabled(s, a) && Conserved(s) && PhaseOk(s)
    ensures Conserved(Apply(s, a))
  {
    hide Places;
    forall id: nat {
      StepMovesOne(s, a, id);
    }
  }

  lemma StepMovesOne(s: State, a: Action, id: nat)
    requires Enabled(s, a) && PhaseOk(s)
    ensures Places(Apply(s, a), id) - Places(s, id)
      == (if id < Created(Apply(s, a)) then 1 else 0) - (if id < Created(s) then 1 else 0)
  {
    hide Copies, InHands;
    match a
    case Dispatch => CopiesPush(s.input, NewJob(s, s.phase.next), id);
    case PutPill => CopiesPush(s.input, NewPill(s, s.phase.pills), id);
    case Collect => CopiesPop(s.output, id); CopiesPush(s.collected, s.output[0], id);
    case Take(w) => CopiesPop(s.input, id); HandsUpdate(s.workers, w, Holding(s.input[0]), id);
    case Check(w) => HandsUpdate(s.workers, w, Checked(s.workers[w].job, s.threadExit), id);
    case Finish(w, code) => HandsUpdate(s.workers, w, Reporting(s.workers[w].job.(returncode := code)), id);
    case Report(w) => CopiesPush(s.output, s.workers[w].job, id); HandsUpdate(s.workers, w, Waiting, id);
    case _ =>
  }

  lemma StepPills(s: State, a: Action)
    requires Enabled(s, a) && PillsQueued(s.input) + PillsTaken(s.workers) == PillsPut(s)
    requires PhaseOk(s)
    ensures var t := Apply(s, a); PillsQueued(t.input) + PillsTaken(t.workers) == PillsPut(t)
  {
    hide PillsQueued, PillsTaken;
    match a
    case Dispatch => PillsPush(s.input, NewJob(s, s.phase.next));
    case PutPill => PillsPush(s.input, NewPill(s, s.phase.pills));
    case Take(w) => PillsPop(s.input); TakenUpdate(s.workers, w, Holding(s.input[0]));
    case Check(w) => TakenUpdate(s.workers, w, Checked(s.workers[w].job, s.threadExit));
    case Finish(w, code) => TakenUpdate(s.workers, w, Reporting(s.workers[w].job.(returncode := code)));
    case Report(w) => TakenUpdate(s.workers, w, Waiting);
    case _ =>
  }

  lemma StepShape(s: State, a: Action)
    requires Inv(s) && Enabled(s, a)
    ensures var t := Apply(s, a);
      && QueueShape(t) && (t.phase.Dispatching? ==> AllFresh(t))
      && (forall i :: 0 <= i < |t.workers| && HasPill(t.workers[i]) ==> AllPills(t))
  {
    hide Conserved, PillsQueued, PillsTaken, TallyOf;
    if a.Dispatch? {
      // No pill has left the queue yet.
      forall i | 0 <= i < |s.workers| ensures !HasPill(s.workers[i]) {
        if HasPill(s.workers[i]) { PillCounted(s.workers, i); }
      }
    }
  }

  lemma {:induction false} PillCounted(ws: seq<Worker>, i: nat)
    requires i < |ws| && HasPill(ws[i])
    ensures PillsTaken(ws) >= 1
  {
    if i < |ws| - 1 { PillCounted(ws[..|ws| - 1], i); }
  }

  lemma StepWorkers(s: State, a: Action)
    requires Inv(s) && Enabled(s, a)
    ensures var t := Apply(s, a);
      && (forall i :: 0 <= i < |t.workers| ==> WorkerOk(t, t.workers[i]))
      && (forall i :: 0 <= i < |t.output| ==> IsReal(t, t.output[i]))
      && (forall i :: 0 <= i < |t.collected| ==> IsReal(t, t.collected[i]))
  {
    hide Conserved, PillsQueued, PillsTaken, TallyOf;
  }

  lemma StepPhase(s: State, a: Action)
    requires PhaseOk(s) && Enabled(s, a)
    requires Apply(s, a).phase.Dispatching? ==> AllFresh(Apply(s, a))
    ensures PhaseOk(Apply(s, a))
  {
  }

  lemma StepTally(s: State, a: Action)
    requires Enabled(s, a) && s.tally == TallyOf(s.collected)
    ensures Apply(s, a).tally == TallyOf(Apply(s, a).collected)
  {
  }

  lemma StepInv(s: State, a: Action)
    requires Inv(s) && Enabled(s, a)
    ensures Inv(Apply(s, a))
  {
    StepConserves(s, a);
    StepPills(s, a);
    StepShape(s, a);
    StepWorkers(s, a);
    StepPhase(s, a);
    StepTally(s, a);
    hide Conserved, PillsQueued, PillsTaken, QueueShape, AllFresh, PhaseOk, WorkerOk;
    hide AllPills, HasPill, IsReal, TallyOf;
  }

  /** Whatever the schedule and whenever the interrupt comes. */
  lemma {:induction false} RunInv(s: State, acts: seq<Action>, t: State)
    requires Inv(s) && Run(s, acts, t)
    ensures Inv(t)
    decreases |acts|
  {
    hide Inv;
    if acts != [] {
      StepInv(s, acts[0]);
      RunInv(Apply(s, acts[0]), acts[1..], t);
    }
  }

  // ---------------------------------------------------------------- termination

  ghost function Toil(w: Worker): nat {
    match w
    case Holding(_) => 4
    case Running(_) => 3
    case Reporting(_) => 2
    case _ => 0
  }

  ghost function Toils(ws: seq<Worker>): nat {
    if ws == [] then 0 else Toils(ws[..|ws| - 1]) + Toil(ws[|ws| - 1])
  }

  /** What the main thread has still to do besides collecting. */
  ghost function Chores(s: State): nat {
    match s.phase
    case Dispatching(next) => 6 * (if next <= |s.skips| then |s.skips| - next else 0) + 7 * |s.workers| + 4
    case Stopping(pills) => 6 * (if pills <= |s.workers| then |s.workers| - pills else 0) + |s.workers| + 3
    case Collecting => |s.workers| + 2
    case Joining(joined) => (if joined <= |s.workers| then |s.workers| - joined else 0) + 1
    case Returned(_) => 0
  }

  /** An upper bound on the number of steps any schedule has left. */
  ghost function StepsLeft(s: State): nat {
    Chores(s) + 5 * |s.input| + Toils(s.workers) + |s.output| + if s.threadExit then 0 else 1
  }

  lemma {:induction false} ToilUpdate(ws: seq<Worker>, w: nat, x: Worker)
    requires w < |ws|
    ensures Toils(ws[w := x]) + Toil(ws[w]) == Toils(ws) + Toil(x)
  {
    hide Toil;
    var n := |ws| - 1;
    if w == n {
      assert ws[w := x][..n] == ws[..n];
    } else {
      ToilUpdate(ws[..n], w, x);
      assert ws[w := x][..n] == ws[..n][w := x];
    }
  }

  lemma StepProgress(s: State, a: Action)
    requires PhaseOk(s) && Enabled(s, a)
    ensures StepsLeft(Apply(s, a)) < StepsLeft(s)
  {
    hide Toils;
    match a
    case Take(w) => ToilUpdate(s.workers, w, Holding(s.input[0]));
    case Check(w) => ToilUpdate(s.workers, w, Checked(s.workers[w].job, s.threadExit));
    case Finish(w, code) => ToilUpdate(s.workers, w, Reporting(s.workers[w].job.(returncode := code)));
    case Report(w) => ToilUpdate(s.workers, w, Waiting);
    case _ =>
  }

  lemma {:induction false} IdleToil(ws: seq<Worker>)
    requires forall i :: 0 <= i < |ws| ==> ws[i] == Waiting
    ensures Toils(ws) == 0
  {
    if ws != [] { IdleToil(ws[..|ws| - 1]); }
  }

  /** No schedule goes on for longer than a bound fixed by the numbers of jobs and workers. */
  lemma {:induction false} RunsEnd(s: State, acts: seq<Action>, t: State)
    requires Inv(s) && Run(s, acts, t)
    ensures |acts| + StepsLeft(t) <= StepsLeft(s)
    decreases |acts|
  {
    hide Inv, StepsLeft;
    if acts != [] {
      StepInv(s, acts[0]);
      assert PhaseOk(s) by { InvPhase(s); }
      StepProgress(s, acts[0]);
      RunsEnd(Apply(s, acts[0]), acts[1..], t);
    }
  }

  lemma InvPhase(s: State)
    requires Inv(s)
    ensures PhaseOk(s)
  {
  }

  lemma PoolRunsEnd(skips: seq<bool>, processors: nat, acts: seq<Action>, t: State)
    requires processors >= 1 && Run(Init(skips, processors), acts, t)
    ensures Inv(t) && |acts| <= 6 * |skips| + 7 * processors + 5
  {
    var s := Init(skips, processors);
    InitInv(skips, processors);
    IdleToil(s.workers);
    RunInv(s, acts, t);
    RunsEnd(s, acts, t);
  }

  // ---------------------------------------------------------------- no deadlock

  ghost predicate Idle(w: Worker) {
    w.Waiting? || w.Stopped?
  }

  lemma {:induction false} TakenAtMost(ws: seq<Worker>, i: nat)
    requires i < |ws| && !HasPill(ws[i])
    ensures PillsTaken(ws) < |ws|
  {
    if i < |ws| - 1 { TakenAtMost(ws[..|ws| - 1], i); } else { TakenBounded(ws[..|ws| - 1]); }
  }

  lemma {:induction false} TakenBounded(ws: seq<Worker>)
    ensures PillsTaken(ws) <= |ws|
  {
    if ws != [] { TakenBounded(ws[..|ws| - 1]); }
  }

  lemma {:induction false} IdleHandsHoldPills(s: State, ws: seq<Worker>, id: nat)
    requires forall i :: 0 <= i < |ws| ==> Idle(ws[i]) && WorkerOk(s, ws[i])
    requires id < |s.skips|
    ensures InHands(ws, id) == 0
  {
    if ws != [] { IdleHandsHoldPills(s, ws[..|ws| - 1], id); }
  }

  ghost function Ids(js: seq<Job>): seq<nat> {
    seq(|js|, i requires 0 <= i < |js| => js[i].id)
  }

  ghost function Below(n: nat): (ns: set<nat>)
    ensures |ns| == n && forall i: nat :: i in ns <==> i < n
  {
    if n == 0 then {} else Below(n - 1) + {n - 1}
  }

  /** Fewer than `n` jobs cannot have all the ids below `n`. */
  lemma SomeIdMissing(js: seq<Job>, n: nat) returns (id: nat)
    requires |js| < n
    ensures id < n && Copies(js, id) == 0
  {
    var below, ids := seq(n, i => i), Elements(Ids(js));
    ElementsFit(Ids(js));
    if forall i :: 0 <= i < n ==> below[i] in ids {
      DistinctFits(below, ids);
    }
    id :| id < n && below[id] !in ids;
    forall i | 0 <= i < |js| ensures js[i].id != id {
      assert Ids(js)[i] in ids;
    }
    NotThere(js, id);
  }

  lemma {:induction false} NotThere(js: seq<Job>, id: nat)
    requires forall i :: 0 <= i < |js| ==> js[i].id != id
    ensures Copies(js, id) == 0
  {
    if js != [] { NotThere(js[..|js| - 1], id); }
  }

  lemma {:induction false} There(js: seq<Job>, i: nat)
    requires i < |js|
    ensures Copies(js, js[i].id) >= 1
  {
    if i < |js| - 1 { There(js[..|js| - 1], i); }
  }

  /** When all workers wait or are gone and results are still due, a real job heads the queue. */
  lemma RealJobQueued(s: State) returns (k: nat)
    requires Inv(s) && s.phase.Collecting? && |s.collected| < |s.skips| && s.output == []
    requires forall i :: 0 <= i < |s.workers| ==> Idle(s.workers[i])
    ensures k < |s.input| && !IsPill(s, s.input[k])
  {
    var id := SomeIdMissing(s.collected, |s.skips|);
    IdleHandsHoldPills(s, s.workers, id);
    assert Places(s, id) == 1 && Copies(s.output, id) == 0;
    if forall i :: 0 <= i < |s.input| ==> s.input[i].id != id {
      NotThere(s.input, id);
    }
    k :| 0 <= k < |s.input| && s.input[k].id == id;
  }

  /** The pool can always go on until run_tests returns, without waiting for an interrupt. */
  lemma NoDeadlock(s: State) returns (a: Action)
    requires Inv(s) && !s.phase.Returned?
    ensures Enabled(s, a) && a != Interrupt
  {
    hide Conserved, Places, QueueShape, TallyOf;
    if w :| 0 <= w < |s.workers| && !Idle(s.workers[w]) {
      a := if s.workers[w].Holding? then Check(w) else if s.workers[w].Running? then Finish(w, 0) else Report(w);
    } else if Enabled(s, Dispatch) {
      a := Dispatch;
    } else if Enabled(s, PutPill) {
      a := PutPill;
    } else if Enabled(s, NextPhase) {
      a := NextPhase;
    } else if Enabled(s, Collect) {
      a := Collect;
    } else if s.phase.Collecting? {
      var k := RealJobQueued(s);
      assert !AllPills(s);
      assert !HasPill(s.workers[0]) && Idle(s.workers[0]);
      a := Take(0);
    } else if s.workers[s.phase.joined].Stopped? {
      a := JoinNext;
    } else {
      TakenAtMost(s.workers, s.phase.joined);
      a := Take(s.phase.joined);
    }
  }

  // ---------------------------------------------------------------- the end

  ghost predicate Succeeded(job: Job) {
    !job.isBreak && (job.isSkip || job.returncode == 0)
  }

  datatype Status = Pass | Fail | Valgrind | Crash | Skip | Cut

  /** What became of a collected job. */
  ghost function StatusOf(job: Job): Status {
    if job.isBreak then Cut
    else if job.isSkip then Skip
    else match job.returncode case 0 => Pass case 1 => Fail case 2 => Valgrind case _ => Crash
  }

  ghost function WithStatus(js: seq<Job>, status: Status): set<nat> {
    set i: nat | i < |js| && StatusOf(js[i]) == status
  }

  ghost function HowMany(js: seq<Job>, status: Status): nat {
    |WithStatus(js, status)|
  }

  lemma WithStatusPush(js: seq<Job>, job: Job, status: Status, i: nat)
    ensures i in WithStatus(js + [job], status) <==>
      i in WithStatus(js, status) || (i == |js| && StatusOf(job) == status)
  {
    hide StatusOf;
    assert i < |js| ==> (js + [job])[i] == js[i];
  }

  lemma HowManyPush(js: seq<Job>, job: Job, status: Status)
    ensures HowMany(js + [job], status) == HowMany(js, status) + if StatusOf(job) == status then 1 else 0
  {
    hide StatusOf, WithStatus;
    var before, after := WithStatus(js, status), WithStatus(js + [job], status);
    forall i: nat { WithStatusPush(js, job, status, i); }
    assert |js| !in before by { NotYet(js, status); }
    assert after == if StatusOf(job) == status then before + {|js|} else before;
  }

  lemma NotYet(js: seq<Job>, status: Status)
    ensures |js| !in WithStatus(js, status)
  {
  }

  lemma NoneYet(status: Status)
    ensures HowMany([], status) == 0
  {
  }

  /** The collector's counters are the numbers of jobs of each status. */
  lemma {:induction false} TallyCounts(js: seq<Job>)
    ensures TallyOf(js) == Tally(HowMany(js, Pass), HowMany(js, Fail), HowMany(js, Valgrind),
                                 HowMany(js, Crash), HowMany(js, Skip))
  {
    if js != [] {
      hide HowMany;
      var front, last := js[..|js| - 1], js[|js| - 1];
      TallyCounts(front);
      assert js == front + [last];
      HowManyPush(front, last, Pass);
      HowManyPush(front, last, Fail);
      HowManyPush(front, last, Valgrind);
      HowManyPush(front, last, Crash);
      HowManyPush(front, last, Skip);
    } else {
      NoneYet(Pass);
      NoneYet(Fail);
      NoneYet(Valgrind);
      NoneYet(Crash);
      NoneYet(Skip);
    }
  }

  lemma {:induction false} TallySums(js: seq<Job>)
    ensures var t := TallyOf(js);
      t.passed + t.failed + t.valgrind + t.crashed + t.skipped + HowMany(js, Cut) == |js|
    ensures var t := TallyOf(js);
      t.passed + t.skipped <= |js| && (t.passed + t.skipped == |js| <==> forall i :: 0 <= i < |js| ==> Succeeded(js[i]))
  {
    hide HowMany;
    if js == [] {
      NoneYet(Cut);
    } else {
      var front, last := js[..|js| - 1], js[|js| - 1];
      TallySums(front);
      assert js == front + [last] && forall i :: 0 <= i < |front| ==> js[i] == front[i];
      HowManyPush(front, last, Cut);
    }
  }

  lemma {:induction false} AllTaken(ws: seq<Worker>)
    requires forall i :: 0 <= i < |ws| ==> ws[i].Stopped?
    ensures PillsTaken(ws) == |ws|
  {
    if ws != [] { AllTaken(ws[..|ws| - 1]); }
  }

  lemma {:induction false} PillsCounted(js: seq<Job>, i: nat)
    requires i < |js| && js[i].isBreak
    ensures PillsQueued(js) >= 1
  {
    if i < |js| - 1 { PillsCounted(js[..|js| - 1], i); }
  }

  /** Nothing with a dispatched job's id is left anywhere but among the collected results. */
  lemma AllCollected(s: State)
    requires Inv(s) && |s.collected| == |s.skips| && Created(s) >= |s.skips|
    ensures forall id: nat :: id < |s.skips| ==> Copies(s.collected, id) == 1
  {
    forall id: nat | id < |s.skips| ensures Copies(s.collected, id) == 1 {
      assert Places(s, id) == 1;
      forall k: nat ensures Copies(s.collected, k) <= 1 { assert Places(s, k) <= 1; }
      if Copies(s.collected, id) == 0 {
        var k := RepeatedId(s.collected, id, |s.skips|);
      }
    }
  }

  /** `n` jobs with ids below `n` that miss an id repeat another one. */
  lemma RepeatedId(js: seq<Job>, missing: nat, n: nat) returns (k: nat)
    requires |js| == n && missing < n && Copies(js, missing) == 0
    requires forall i :: 0 <= i < |js| ==> js[i].id < n
    ensures Copies(js, k) >= 2
  {
    var i, j := SameId(js, missing, n);
    k := js[i].id;
    TwoCopies(js, i, j);
  }

  lemma {:induction false} TwoCopies(js: seq<Job>, i: nat, j: nat)
    requires i < j < |js| && js[i].id == js[j].id
    ensures Copies(js, js[i].id) >= 2
  {
    if j < |js| - 1 { TwoCopies(js[..|js| - 1], i, j); } else { There(js[..|js| - 1], i); }
  }

  lemma SameId(js: seq<Job>, missing: nat, n: nat) returns (i: nat, j: nat)
    requires |js| == n && missing < n && Copies(js, missing) == 0
    requires forall i :: 0 <= i < |js| ==> js[i].id < n
    ensures i < j < n && js[i].id == js[j].id
  {
    if forall i, j :: 0 <= i < j < n ==> js[i].id != js[j].id {
      forall id | id in Ids(js) ensures id in Below(n) - {missing} {
        var i :| 0 <= i < n && js[i].id == id;
        There(js, i);
      }
      DistinctFits(Ids(js), Below(n) - {missing});
    }
    i, j :| 0 <= i < j < n && js[i].id == js[j].id;
  }

  /** What holds when run_tests returns. */
  lemma Finished(s: State)
    requires Inv(s) && s.phase.Returned?
    ensures s.input == [] && s.output == []
    ensures forall w :: 0 <= w < |s.workers| ==> s.workers[w].Stopped? && IsPill(s, s.workers[w].pill)
    ensures forall v, w :: 0 <= v < w < |s.workers| ==> s.workers[v].pill != s.workers[w].pill
    ensures |s.collected| == |s.skips| && forall id: nat :: id < |s.skips| ==> Copies(s.collected, id) == 1
    ensures s.tally == Tally(HowMany(s.collected, Pass), HowMany(s.collected, Fail), HowMany(s.collected, Valgrind),
                             HowMany(s.collected, Crash), HowMany(s.collected, Skip))
    ensures s.tally.passed + s.tally.failed + s.tally.valgrind + s.tally.crashed + s.tally.skipped
      + HowMany(s.collected, Cut) == |s.skips|
    ensures s.phase.code == if forall i :: 0 <= i < |s.collected| ==> Succeeded(s.collected[i]) then 0 else 1
  {
    hide TallyOf, QueueShape, Conserved, HowMany;
    TallyCounts(s.collected);
    AllCollected(s);
    TallySums(s.collected);
    AllTaken(s.workers);
    QueuesEmpty(s);
    forall v, w | 0 <= v < w < |s.workers| ensures s.workers[v].pill != s.workers[w].pill {
      OnePillEach(s, v, w);
    }
  }

  lemma QueuesEmpty(s: State)
    requires Inv(s) && PillsTaken(s.workers) == |s.workers| && PillsPut(s) == |s.workers| && |s.skips| <= Created(s)
    requires forall id: nat :: id < |s.skips| ==> Copies(s.collected, id) == 1
    ensures s.input == [] && s.output == []
  {
    hide PillsQueued, Copies, InHands;
    if s.input != [] {
      if IsPill(s, s.input[0]) {
        PillsCounted(s.input, 0);
      } else {
        assert Places(s, s.input[0].id) <= 1;
        There(s.input, 0);
      }
    }
    if s.output != [] {
      assert Places(s, s.output[0].id) <= 1;
      There(s.output, 0);
    }
  }

  lemma {:induction false} HandCounted(ws: seq<Worker>, v: nat, w: nat, id: nat)
    requires v < w < |ws| && InHand(ws[v], id) == InHand(ws[w], id) == 1
    ensures InHands(ws, id) >= 2
  {
    if w < |ws| - 1 { HandCounted(ws[..|ws| - 1], v, w, id); } else { HandThere(ws[..|ws| - 1], v, id); }
  }

  lemma {:induction false} HandThere(ws: seq<Worker>, v: nat, id: nat)
    requires v < |ws| && InHand(ws[v], id) == 1
    ensures InHands(ws, id) >= 1
  {
    if v < |ws| - 1 { HandThere(ws[..|ws| - 1], v, id); }
  }

  lemma OnePillEach(s: State, v: nat, w: nat)
    requires Conserved(s) && v < w < |s.workers| && s.workers[v].Stopped? && s.workers[w].Stopped?
    ensures s.workers[v].pill.id != s.workers[w].pill.id
  {
    var id := s.workers[v].pill.id;
    if id == s.workers[w].pill.id {
      assert Places(s, id) <= 1;
      HandCounted(s.workers, v, w, id);
    }
  }

  // ---------------------------------------------------------------- what became of each job

  /** What a schedule does to a dispatched job: its command is run and returns a code, the job is
      passed over as one to be skipped, or it is cut off by the interrupt. */
  datatype Deed = Ran(code: int) | PassedOver | CutOff

  /** What an action does to the job numbered `id`, if anything. */
  ghost function DeedOf(s: State, a: Action, id: nat): seq<Deed>
    requires Enabled(s, a)
  {
    match a
    case Check(w) =>
      var job := s.workers[w].job;
      if job.id != id || job.isBreak then []
      else if s.threadExit then [CutOff]
      else if job.isSkip then [PassedOver]
      else []
    case Finish(w, code) => if s.workers[w].job.id == id then [Ran(code)] else []
    case _ => []
  }

  /** All that a schedule does to it, in order. */
  ghost function Deeds(s: State, acts: seq<Action>, t: State, id: nat): seq<Deed>
    requires Run(s, acts, t)
    decreases |acts|
  {
    if acts == [] then [] else DeedOf(s, acts[0], id) + Deeds(Apply(s, acts[0]), acts[1..], t, id)
  }

  /** The job's fields tell the one thing that was done to it. */
  ghost predicate Handled(job: Job, deeds: seq<Deed>) {
    deeds == [if job.isBreak then CutOff else if job.isSkip then PassedOver else Ran(job.returncode)]
  }

  ghost predicate StampedIn(w: Worker, id: nat, deeds: seq<Deed>) {
    match w
    case Holding(job) => job.id == id ==> deeds == []
    case Running(job) => job.id == id ==> deeds == []
    case Reporting(job) => job.id == id ==> Handled(job, deeds)
    case _ => true
  }

  ghost predicate AllHandled(js: seq<Job>, id: nat, deeds: seq<Deed>) {
    forall i :: 0 <= i < |js| && js[i].id == id ==> Handled(js[i], deeds)
  }

  /** Wherever the job numbered `id` is, `deeds` is what was done to it so far. */
  ghost predicate Stamped(s: State, id: nat, deeds: seq<Deed>) {
    && (id >= Created(s) ==> deeds == [])
    && (forall i :: 0 <= i < |s.input| && s.input[i].id == id ==> deeds == [])
    && (forall w :: 0 <= w < |s.workers| ==> StampedIn(s.workers[w], id, deeds))
    && AllHandled(s.output, id, deeds) && AllHandled(s.collected, id, deeds)
    && (CutOff in deeds ==> s.threadExit)
  }

  /** A job in a worker's hands is nowhere else. */
  lemma InOneHand(s: State, w: nat, id: nat)
    requires Conserved(s) && w < |s.workers| && InHand(s.workers[w], id) == 1
    ensures id < Created(s)
    ensures forall i :: 0 <= i < |s.input| ==> s.input[i].id != id
    ensures forall i :: 0 <= i < |s.output| ==> s.output[i].id != id
    ensures forall i :: 0 <= i < |s.collected| ==> s.collected[i].id != id
    ensures forall v :: 0 <= v < |s.workers| && v != w ==> InHand(s.workers[v], id) == 0
  {
    hide InHand, Copies, InHands;
    assert Places(s, id) <= 1;
    HandThere(s.workers, w, id);
    forall i | 0 <= i < |s.input| ensures s.input[i].id != id {
      if s.input[i].id == id { There(s.input, i); }
    }
    forall i | 0 <= i < |s.output| ensures s.output[i].id != id {
      if s.output[i].id == id { There(s.output, i); }
    }
    forall i | 0 <= i < |s.collected| ensures s.collected[i].id != id {
      if s.collected[i].id == id { There(s.collected, i); }
    }
    forall v | 0 <= v < |s.workers| && v != w ensures InHand(s.workers[v], id) == 0 {
      ZeroOrOne(s.workers[v], id);
      if InHand(s.workers[v], id) == 1 {
        if v < w { HandCounted(s.workers, v, w, id); } else { HandCounted(s.workers, w, v, id); }
      }
    }
  }

  lemma ZeroOrOne(w: Worker, id: nat)
    ensures InHand(w, id) <= 1
  {
  }

  /** The steps that do nothing to any job only move jobs about. */
  lemma MoveStamped(s: State, a: Action, id: nat, deeds: seq<Deed>)
    requires PhaseOk(s) && Enabled(s, a) && !a.Check? && !a.Finish? && id < |s.skips| && Stamped(s, id, deeds)
    ensures Stamped(Apply(s, a), id, deeds)
  {
    hide Handled, AllFresh, Counted, ExitCode;
  }

  lemma CheckStamped(s: State, w: nat, id: nat, deeds: seq<Deed>)
    requires Enabled(s, Check(w)) && Conserved(s) && WorkerOk(s, s.workers[w])
    requires id < |s.skips| && Stamped(s, id, deeds)
    ensures Stamped(Apply(s, Check(w)), id, deeds + DeedOf(s, Check(w), id))
  {
    hide Conserved;
    assert deeds + [] == deeds && [] + DeedOf(s, Check(w), id) == DeedOf(s, Check(w), id);
    if s.workers[w].job.id == id {
      InOneHand(s, w, id);
      assert IsFresh(s, s.workers[w].job) && deeds == [];
    }
  }

  lemma FinishStamped(s: State, w: nat, code: int, id: nat, deeds: seq<Deed>)
    requires Enabled(s, Finish(w, code)) && Conserved(s) && WorkerOk(s, s.workers[w])
    requires id < |s.skips| && Stamped(s, id, deeds)
    ensures Stamped(Apply(s, Finish(w, code)), id, deeds + DeedOf(s, Finish(w, code), id))
  {
    hide Conserved;
    assert deeds + [] == deeds && [] + [Ran(code)] == [Ran(code)];
    if s.workers[w].job.id == id {
      InOneHand(s, w, id);
    }
  }

  lemma StepStamped(s: State, a: Action, id: nat, deeds: seq<Deed>)
    requires Inv(s) && Enabled(s, a) && id < |s.skips| && Stamped(s, id, deeds)
    ensures Stamped(Apply(s, a), id, deeds + DeedOf(s, a, id))
  {
    hide Conserved, PillsQueued, PillsTaken, TallyOf, QueueShape, AllPills, HasPill, Counted, Stamped, WorkerOk, Apply;
    match a
    case Check(w) => CheckStamped(s, w, id, deeds);
    case Finish(w, code) => FinishStamped(s, w, code, id, deeds);
    case _ =>
      MoveStamped(s, a, id, deeds);
      assert deeds + [] == deeds;
  }

  lemma {:induction false} RunStamped(s: State, acts: seq<Action>, t: State, id: nat, deeds: seq<Deed>)
    requires Inv(s) && Run(s, acts, t) && id < |s.skips| && Stamped(s, id, deeds)
    ensures t.skips == s.skips && Stamped(t, id, deeds + Deeds(s, acts, t, id))
    decreases |acts|
  {
    hide Inv, Stamped, DeedOf;
    if acts == [] {
      assert deeds + [] == deeds;
    } else {
      var s', did := Apply(s, acts[0]), DeedOf(s, acts[0], id);
      StepInv(s, acts[0]);
      StepStamped(s, acts[0], id, deeds);
      RunStamped(s', acts[1..], t, id, deeds + did);
      assert deeds + did + Deeds(s', acts[1..], t, id) == deeds + (did + Deeds(s', acts[1..], t, id));
    }
  }

  /** What a schedule of the whole pool does to the job numbered `id`. */
  ghost function Fate(skips: seq<bool>, processors: nat, acts: seq<Action>, t: State, id: nat): seq<Deed>
    requires Run(Init(skips, processors), acts, t)
  {
    Deeds(Init(skips, processors), acts, t, id)
  }

  /** In every schedule exactly one thing was done to a collected job, and the job tells which: it was
      cut off after the interrupt, it was passed over, or its command ran once and gave its code. */
  lemma RanOnce(skips: seq<bool>, processors: nat, acts: seq<Action>, t: State, i: nat)
    requires processors >= 1 && Run(Init(skips, processors), acts, t) && i < |t.collected|
    ensures var job := t.collected[i];
      && job.id < |skips| && job.isSkip == skips[job.id]
      && Handled(job, Fate(skips, processors, acts, t, job.id)) && (job.isBreak ==> t.threadExit)
  {
    hide Run, Deeds, Places;
    var s, id := Init(skips, processors), t.collected[i].id;
    InitInv(skips, processors);
    RunInv(s, acts, t);
    RunSkips(s, acts, t);
    assert IsReal(t, t.collected[i]);
    assert Stamped(s, id, []);
    RunStamped(s, acts, t, id, []);
    assert [] + Deeds(s, acts, t, id) == Deeds(s, acts, t, id);
  }

  lemma {:induction false} RunSkips(s: State, acts: seq<Action>, t: State)
    requires Run(s, acts, t)
    ensures t.skips == s.skips
    decreases |acts|
  {
    if acts != [] { RunSkips(Apply(s, acts[0]), acts[1..], t); }
  }

  /** Nothing was done to a job but pass it over, or run it once with code 0. */
  ghost predicate Fine(deeds: seq<Deed>) {
    deeds == [PassedOver] || deeds == [Ran(0)]
  }

  /** Just one thing was done to the job: only jobs to be skipped are passed over, only others run,
      and none is cut off without an interrupt. */
  ghost predicate Fitting(deeds: seq<Deed>, isSkip: bool, threadExit: bool) {
    |deeds| == 1 && match deeds[0] case Ran(_) => !isSkip case PassedOver => isSkip case CutOff => threadExit
  }

  lemma FineIfSucceeded(job: Job, deeds: seq<Deed>)
    requires Handled(job, deeds)
    ensures Succeeded(job) <==> Fine(deeds)
    ensures forall threadExit :: (job.isBreak ==> threadExit) ==> Fitting(deeds, job.isSkip, threadExit)
  {
    assert deeds[0] == if job.isBreak then CutOff else if job.isSkip then PassedOver else Ran(job.returncode);
  }

  lemma CollectedAt(js: seq<Job>, id: nat) returns (i: nat)
    requires Copies(js, id) == 1
    ensures i < |js| && js[i].id == id
  {
    if forall i :: 0 <= i < |js| ==> js[i].id != id {
      NotThere(js, id);
    }
    i :| 0 <= i < |js| && js[i].id == id;
  }

  /** The code is 0 exactly if every dispatched job was passed over or ran once and returned 0. */
  lemma ExitCodeMeans(skips: seq<bool>, processors: nat, acts: seq<Action>, t: State)
    requires processors >= 1 && Run(Init(skips, processors), acts, t) && t.phase.Returned?
    ensures t.phase.code ==
      if forall id: nat :: id < |skips| ==> Fine(Fate(skips, processors, acts, t, id)) then 0 else 1
    ensures forall id: nat :: id < |skips| ==>
      Fitting(Fate(skips, processors, acts, t, id), skips[id], t.threadExit)
  {
    hide Run, Fate, Inv, Copies, Fine, Succeeded, Handled;
    var s := Init(skips, processors);
    InitInv(skips, processors);
    RunInv(s, acts, t);
    RunSkips(s, acts, t);
    Finished(t);
    forall i | 0 <= i < |t.collected|
      ensures t.collected[i].id < |skips|
      ensures Succeeded(t.collected[i]) <==> Fine(Fate(skips, processors, acts, t, t.collected[i].id))
      ensures Fitting(Fate(skips, processors, acts, t, t.collected[i].id), skips[t.collected[i].id], t.threadExit)
    {
      RanOnce(skips, processors, acts, t, i);
      FineIfSucceeded(t.collected[i], Fate(skips, processors, acts, t, t.collected[i].id));
    }
    forall id: nat | id < |skips|
      ensures Fitting(Fate(skips, processors, acts, t, id), skips[id], t.threadExit)
      ensures t.phase.code == 0 ==> Fine(Fate(skips, processors, acts, t, id))
    {
      var i := CollectedAt(t.collected, id);
    }
    if forall id: nat :: id < |skips| ==> Fine(Fate(skips, processors, acts, t, id)) {
      forall i | 0 <= i < |t.collected| ensures Succeeded(t.collected[i]) {
        assert Fine(Fate(skips, processors, acts, t, t.collected[i].id));
      }
    }
  }

  // ---------------------------------------------------------------- first in, first out

  /** The results read and those waiting to be read. */
  ghost function Results(s: State): seq<Job> {
    s.collected + s.output
  }

  /** The jobs that the workers report in a schedule, in the order of the reports. */
  ghost function Reports(s: State, acts: seq<Action>, t: State): seq<Job>
    requires Run(s, acts, t)
    decreases |acts|
  {
    if acts == [] then []
    else
      (match acts[0] case Report(w) => [s.workers[w].job] case _ => []) + Reports(Apply(s, acts[0]), acts[1..], t)
  }

  /** The numbers of the jobs that the workers take in a schedule, in the order of the takes. */
  ghost function Takes(s: State, acts: seq<Action>, t: State): seq<nat>
    requires Run(s, acts, t)
    decreases |acts|
  {
    if acts == [] then []
    else
      (match acts[0]
       case Take(w) => [Apply(s, acts[0]).workers[w].job.id]
       case _ => []) + Takes(Apply(s, acts[0]), acts[1..], t)
  }

  /** The queued jobs are the last ones created, in the order of their creation. */
  ghost predicate QueuedLast(s: State) {
    |s.input| <= Created(s) && forall i :: 0 <= i < |s.input| ==> s.input[i].id == Created(s) - |s.input| + i
  }

  lemma StepQueued(s: State, a: Action)
    requires PhaseOk(s) && Enabled(s, a) && QueuedLast(s)
    ensures QueuedLast(Apply(s, a))
    ensures a.Take? ==> Apply(s, a).workers[a.w].job.id == Created(s) - |s.input|
    ensures Created(Apply(s, a)) - |Apply(s, a).input| == Created(s) - |s.input| + if a.Take? then 1 else 0
  {
    hide AllFresh, Checked, Counted, ExitCode;
  }

  lemma StepResults(s: State, a: Action)
    requires Enabled(s, a)
    ensures Results(Apply(s, a)) == Results(s) + if a.Report? then [s.workers[a.w].job] else []
  {
    hide Checked, Counted, ExitCode;
    if a.Collect? {
      assert s.output == [s.output[0]] + s.output[1..];
    }
  }

  /** Jobs are taken in the order in which they were dispatched, without leaving one out. */
  lemma {:induction false} TakenInOrder(s: State, acts: seq<Action>, t: State, k: nat)
    requires Inv(s) && Run(s, acts, t) && QueuedLast(s) && k < |Takes(s, acts, t)|
    ensures Takes(s, acts, t)[k] == Created(s) - |s.input| + k
    decreases |acts|
  {
    hide Inv, QueuedLast;
    InvPhase(s);
    StepQueued(s, acts[0]);
    StepInv(s, acts[0]);
    if !acts[0].Take? {
      TakenInOrder(Apply(s, acts[0]), acts[1..], t, k);
    } else if k > 0 {
      TakenInOrder(Apply(s, acts[0]), acts[1..], t, k - 1);
    }
  }

  /** Results are read in the order in which they were reported. */
  lemma {:induction false} ReadInOrder(s: State, acts: seq<Action>, t: State)
    requires Run(s, acts, t)
    ensures Results(t) == Results(s) + Reports(s, acts, t)
    decreases |acts|
  {
    hide Apply, Enabled;
    if acts == [] {
      assert Results(s) + [] == Results(s);
    } else {
      StepResults(s, acts[0]);
      ReadInOrder(Apply(s, acts[0]), acts[1..], t);
    }
  }

  /** So it is in a schedule of the whole pool: the k-th take is of job k, and what was collected is
      the beginning of what was reported. */
  lemma FirstInFirstOut(skips: seq<bool>, processors: nat, acts: seq<Action>, t: State)
    requires processors >= 1 && Run(Init(skips, processors), acts, t)
    ensures var s := Init(skips, processors);
      && (forall k :: 0 <= k < |Takes(s, acts, t)| ==> Takes(s, acts, t)[k] == k)
      && t.collected <= Reports(s, acts, t)
  {
    hide Run, Takes, Reports;
    var s := Init(skips, processors);
    InitInv(skips, processors);
    forall k | 0 <= k < |Takes(s, acts, t)| ensures Takes(s, acts, t)[k] == k {
      TakenInOrder(s, acts, t, k);
    }
    ReadInOrder(s, acts, t);
    assert Results(t) == Reports(s, acts, t);
  }

  // ---------------------------------------------------------------- after an interrupt

  /** How many real runs worker `w` completes in `acts`. */
  ghost function RealRuns(acts: seq<Action>, w: nat): nat {
    if acts == [] then 0 else RealRuns(acts[1..], w) + if acts[0].Finish? && acts[0].w == w then 1 else 0
  }

  /** Once `threadExit` is up a worker completes at most the run it is in the middle of. */
  lemma {:induction false} LateRuns(s: State, acts: seq<Action>, t: State, w: nat)
    requires s.threadExit && w < |s.workers| && Run(s, acts, t)
    ensures RealRuns(acts, w) <= if s.workers[w].Running? then 1 else 0
    decreases |acts|
  {
    if acts != [] {
      LateRuns(Apply(s, acts[0]), acts[1..], t, w);
    }
  }

  lemma RunNothing(s: State)
    ensures Run(s, [], s)
  {
  }

  /** A schedule can be continued by any enabled action. */
  lemma {:induction false} RunOn(s: State, acts: seq<Action>, t: State, a: Action)
    requires Run(s, acts, t) && Enabled(t, a)
    ensures Run(s, acts + [a], Apply(t, a))
    decreases |acts|
  {
    hide Apply, Enabled;
    if acts == [] {
      assert ([] + [a])[0] == a && ([] + [a])[1..] == [];
      RunNothing(Apply(t, a));
    } else {
      RunOn(Apply(s, acts[0]), acts[1..], t, a);
      assert (acts + [a])[0] == acts[0] && (acts + [a])[1..] == acts[1..] + [a];
    }
  }

  lemma InterruptRaises(s: State)
    requires !s.threadExit
    ensures Apply(s, Interrupt) == s.(threadExit := true)
  {
  }

  // ---------------------------------------------------------------- the pool itself

  /** The shared queues, the interrupt flag, the worker threads and the collector's counters.
      Each method is one step of one thread. */
  class Pool {
    const skips: seq<bool>
    var inputQueue: seq<Job>
    var outputQueue: seq<Job>
    var workers: seq<Worker>
    var threadExit: bool
    var phase: Phase
    var tally: Tally
    var collected: seq<Job>

    function Snapshot(): State
      reads this
    {
      State(skips, inputQueue, outputQueue, workers, threadExit, phase, tally, collected)
    }

    constructor (skips: seq<bool>, processors: nat)
      ensures Snapshot() == Init(skips, processors)
    {
      this.skips := skips;
      inputQueue, outputQueue := [], [];
      workers := seq(processors, _ => Waiting);
      threadExit, phase, tally, collected := false, Dispatching(0), Tally(0, 0, 0, 0, 0), [];
    }

    /** Raising the flag once more changes nothing. */
    method SigintHook()
      modifies this`threadExit
      ensures Snapshot() == old(Snapshot()).(threadExit := true)
    {
      threadExit := true;
    }

    method PutJob()
      requires Enabled(Snapshot(), Dispatch)
      modifies this`inputQueue, this`phase
      ensures Snapshot() == Apply(old(Snapshot()), Dispatch)
    {
      var job := Job(phase.next, false, skips[phase.next], 0);
      inputQueue := inputQueue + [job];
      phase := Dispatching(phase.next + 1);
    }

    method PutStopPill()
      requires Enabled(Snapshot(), PutPill)
      modifies this`inputQueue, this`phase
      ensures Snapshot() == Apply(old(Snapshot()), PutPill)
    {
      var job := Job(|skips| + phase.pills, true, false, 0);
      inputQueue := inputQueue + [job];
      phase := Stopping(phase.pills + 1);
    }

    method CollectResult()
      requires Enabled(Snapshot(), Collect)
      modifies this`outputQueue, this`tally, this`collected
      ensures Snapshot() == Apply(old(Snapshot()), Collect)
    {
      var job := outputQueue[0];
      outputQueue := outputQueue[1..];
      collected := collected + [job];
      if job.isBreak {
        return;
      }
      if job.isSkip {
        tally := tally.(skipped := tally.skipped + 1);
      } else if job.returncode == 0 {
        tally := tally.(passed := tally.passed + 1);
      } else if job.returncode == 1 {
        tally := tally.(failed := tally.failed + 1);
      } else if job.returncode == 2 {
        tally := tally.(valgrind := tally.valgrind + 1);
      } else {
        tally := tally.(crashed := tally.crashed + 1);
      }
    }

    method JoinThread()
      requires Enabled(Snapshot(), JoinNext)
      modifies this`phase
      ensures Snapshot() == Apply(old(Snapshot()), JoinNext)
    {
      phase := Joining(phase.joined + 1);
    }

    /** One loop of the main thread is over: go on to the next, or return. */
    method NextLoop()
      requires Enabled(Snapshot(), NextPhase)
      modifies this`phase
      ensures Snapshot() == Apply(old(Snapshot()), NextPhase)
    {
      match phase {
        case Dispatching(_) => phase := Stopping(0);
        case Stopping(_) => phase := Collecting;
        case Collecting => phase := Joining(0);
        case Joining(_) =>
          phase := Returned(if tally.passed + tally.skipped == |skips| then 0 else 1);
      }
    }

    method WorkerGet(w: nat)
      requires Enabled(Snapshot(), Take(w))
      modifies this`inputQueue, this`workers
      ensures Snapshot() == Apply(old(Snapshot()), Take(w))
    {
      var job := inputQueue[0];
      inputQueue := inputQueue[1..];
      workers := workers[w := Holding(job)];
    }

    method WorkerCheck(w: nat)
      requires Enabled(Snapshot(), Check(w))
      modifies this`workers
      ensures Snapshot() == Apply(old(Snapshot()), Check(w))
    {
      var job := workers[w].job;
      if job.isBreak {
        workers := workers[w := Stopped(job)];
      } else if threadExit {
        job := job.(isBreak := true);
        workers := workers[w := Reporting(job)];
      } else if job.isSkip {
        workers := workers[w := Reporting(job)];
      } else {
        workers := workers[w := Running(job)];
      }
    }

    method WorkerRan(w: nat, returncode: int)
      requires Enabled(Snapshot(), Finish(w, returncode))
      modifies this`workers
      ensures Snapshot() == Apply(old(Snapshot()), Finish(w, returncode))
    {
      var job := workers[w].job.(returncode := returncode);
      workers := workers[w := Reporting(job)];
    }

    method WorkerPut(w: nat)
      requires Enabled(Snapshot(), Report(w))
      modifies this`outputQueue, this`workers
      ensures Snapshot() == Apply(old(Snapshot()), Report(w))
    {
      outputQueue := outputQueue + [workers[w].job];
      workers := workers[w := Waiting];
    }

    /** Some thread goes on, or the interrupt comes. That a branch is always open is the absence of
        deadlock. */
    method OneStep() returns (ghost a: Action)
      requires Inv(Snapshot()) && !phase.Returned?
      modifies this
      ensures Enabled(old(Snapshot()), a) && Snapshot() == Apply(old(Snapshot()), a)
    {
      hide Inv, Apply;
      ghost var open := NoDeadlock(Snapshot());
      var returncode: int := *;
      if {
        case !threadExit => a := Interrupt; InterruptRaises(Snapshot()); SigintHook();
        case Enabled(Snapshot(), Dispatch) => a := Dispatch; PutJob();
        case Enabled(Snapshot(), PutPill) => a := PutPill; PutStopPill();
        case Enabled(Snapshot(), Collect) => a := Collect; CollectResult();
        case Enabled(Snapshot(), JoinNext) => a := JoinNext; JoinThread();
        case Enabled(Snapshot(), NextPhase) => a := NextPhase; NextLoop();
        case w :| 0 <= w < |workers| && workers[w].Waiting? && inputQueue != [] => a := Take(w); WorkerGet(w);
        case w :| 0 <= w < |workers| && workers[w].Holding? => a := Check(w); WorkerCheck(w);
        case w :| 0 <= w < |workers| && workers[w].Running? => a := Finish(w, returncode); WorkerRan(w, returncode);
        case w :| 0 <= w < |workers| && workers[w].Reporting? => a := Report(w); WorkerPut(w);
      }
    }

    /** Any interleaving of the threads, any return codes, and an interrupt at any moment or
        never. `acts` is the schedule it came to. */
    method RunTests() returns (code: int, ghost acts: seq<Action>)
      requires exists processors: nat :: processors >= 1 && Snapshot() == Init(skips, processors)
      modifies this
      ensures Inv(Snapshot()) && phase == Returned(code)
      ensures inputQueue == [] && outputQueue == []
      ensures code == if forall i :: 0 <= i < |collected| ==> Succeeded(collected[i]) then 0 else 1
      ensures forall id: nat :: id < |skips| ==> Copies(collected, id) == 1
      ensures Run(Init(skips, old(|workers|)), acts, Snapshot())
      ensures code ==
        if forall id: nat :: id < |skips| ==> Fine(Fate(skips, old(|workers|), acts, Snapshot(), id)) then 0 else 1
    {
      hide Inv, Apply, Enabled, StepsLeft, Copies, Succeeded, Run, Fate, Fine;
      ghost var processors: nat :| processors >= 1 && Snapshot() == Init(skips, processors);
      InitInv(skips, processors);
      acts := [];
      RunNothing(Snapshot());
      while !phase.Returned?
        invariant Inv(Snapshot()) && Run(Init(skips, processors), acts, Snapshot())
        decreases StepsLeft(Snapshot())
      {
        ghost var s := Snapshot();
        ghost var a := OneStep();
        InvPhase(s);
        StepInv(s, a);
        StepProgress(s, a);
        RunOn(Init(skips, processors), acts, s, a);
        acts := acts + [a];
      }
      Finished(Snapshot());
      ExitCodeMeans(skips, processors, acts, Snapshot());
      code := phase.code;
    }
  }
}

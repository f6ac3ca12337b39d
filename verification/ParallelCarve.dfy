/** The parallel carve phase (native/src/scan_coordinator.cpp): workers claim ranges and push what
    they find into a bounded queue, one consumer pops and reports, and both the normal and the
    exceptional shutdown join every worker. A critical section, an atomic access or a notification is
    one step, and a push that finds the queue full sleeps until it is notified. */
module ParallelCarve {
  import opened Common

  datatype FileRecord = FileRecord(id: int, name: string, startSector: nat, contents: nat)

  /** A progress tick carries no record. */
  predicate IsTick(fr: FileRecord) {
    fr.id == -1 && fr.name == ""
  }

  function Reported(found: seq<FileRecord>): seq<FileRecord> {
    if found == [] then [] else (if IsTick(found[0]) then [] else [found[0]]) + Reported(found[1..])
  }

  /** found[i] is what the scan of work range i hands to its sink. */
  datatype Config = Config(found: seq<seq<FileRecord>>, cap: nat, workerCount: nat)

  predicate ValidConfig(cfg: Config) {
    0 < cfg.cap && 0 < cfg.workerCount
  }

  /** Whether a push waits for room; a woken one has still to look at the queue again. */
  datatype Wait = Awake | Asleep | Woken

  datatype Worker = LoopTop | Claiming | Scanning(range: nat, todo: seq<FileRecord>, wait: Wait) | Leaving | Gone

  datatype Consumer = Polling | Signalling(popped: FileRecord) | Holding(fr: FileRecord) | ReadingLive | ReadingEmpty
                    | Joining | Closing | CloseSignalling
                    | Draining | DrainSignalling(taken: FileRecord) | DrainHolding(rec: FileRecord) | Finishing | Finished
                    | Caught | CaughtClosing | CaughtSignalling | CaughtJoining | Rethrown

  /** What the workers share: the range counter, the live counter, and who claimed which range. */
  datatype Pool = Pool(nextRange: nat, workers: seq<Worker>, live: int, owner: map<nat, nat>, failed: bool)

  datatype Queue = Queue(items: seq<FileRecord>, closed: bool)

  /** A closed queue drops what is pushed. */
  function Pushed(q: Queue, fr: FileRecord): Queue {
    if q.closed then q else q.(items := q.items + [fr])
  }

  function Popped(q: Queue): Queue
    requires q.items != []
  {
    q.(items := q.items[1..])
  }

  /** lost collects the records dropped by a failure, a cancel or a closed queue. */
  datatype State = State(
    pool: Pool, queue: Queue, consumer: Consumer, consumerGone: bool, cancelled: bool,
    emitted: seq<FileRecord>, lost: seq<FileRecord>)

  datatype WorkerAct = Check | Claim | Deliver | Sleep | FinishRange | StopScan | Throw | Exit

  /** Signal is notify_one, which wakes some sleeper if there is one; SignalAll is notify_all. */
  datatype ConsumerAct = Pop | Signal(sleeper: nat) | Timeout | CheckLive | CheckEmpty | Emit | Join | Close | SignalAll
                       | DrainPop | DrainDone | Finish | Fail | MarkGone | CloseCaught | JoinCaught

  /** Spurious wakes a sleeper that nobody notified. */
  datatype Step = ByWorker(w: nat, act: WorkerAct) | ByConsumer(move: ConsumerAct) | Cancel | Spurious(sleeper: nat)

  function Init(cfg: Config): State {
    State(Pool(0, seq(cfg.workerCount, _ => LoopTop), cfg.workerCount, map[], false), Queue([], false),
          Polling, false, false, [], [])
  }

  predicate AllGone(workers: seq<Worker>) {
    forall w :: 0 <= w < |workers| ==> workers[w].Gone?
  }

  predicate IsAsleep(me: Worker) {
    me.Scanning? && me.wait.Asleep?
  }

  predicate NoneAsleep(workers: seq<Worker>) {
    forall w :: 0 <= w < |workers| ==> !IsAsleep(workers[w])
  }

  function Wake(me: Worker): Worker {
    if IsAsleep(me) then me.(wait := Woken) else me
  }

  function WakeAll(workers: seq<Worker>): seq<Worker> {
    if workers == [] then [] else [Wake(workers[0])] + WakeAll(workers[1..])
  }

  /** The push of the next record has to wait. */
  predicate MustWait(cfg: Config, s: State, fr: FileRecord) {
    !IsTick(fr) && !s.queue.closed && |s.queue.items| >= cfg.cap
  }

  predicate WorkerEnabled(cfg: Config, s: State, w: nat, act: WorkerAct) {
    w < |s.pool.workers| &&
    var me := s.pool.workers[w];
    match act
    case Check => me.LoopTop?
    case Claim => me.Claiming?
    case Deliver => me.Scanning? && !me.wait.Asleep? && me.todo != [] && !MustWait(cfg, s, me.todo[0])
    case Sleep => me.Scanning? && !me.wait.Asleep? && me.todo != [] && MustWait(cfg, s, me.todo[0])
    case FinishRange => me.Scanning? && me.wait.Awake? && me.todo == []
    case StopScan => me.Scanning? && me.wait.Awake? && s.cancelled
    case Throw => me.Scanning? && me.wait.Awake?
    case Exit => me.Leaving?
  }

  /** One step of worker w. The two flags read by Check only ever go from false to true. */
  function WorkerApply(cfg: Config, s: State, w: nat, act: WorkerAct): State
    requires WorkerEnabled(cfg, s, w, act)
  {
    var me := s.pool.workers[w];
    match act
    case Check => s.(pool := Become(s.pool, w, if s.consumerGone || s.cancelled then Leaving else Claiming))
    case Claim => s.(pool := ClaimRange(cfg, s.pool, w))
    case Deliver =>
      s.(pool := Become(s.pool, w, Scanning(me.range, me.todo[1..], Awake)),
         queue := if IsTick(me.todo[0]) then s.queue else Pushed(s.queue, me.todo[0]),
         lost := if !IsTick(me.todo[0]) && s.queue.closed then s.lost + [me.todo[0]] else s.lost)
    case Sleep => s.(pool := Become(s.pool, w, me.(wait := Asleep)))
    case FinishRange => s.(pool := Become(s.pool, w, LoopTop))
    case StopScan => s.(pool := Become(s.pool, w, LoopTop), lost := s.lost + Reported(me.todo))
    case Throw => s.(pool := Become(s.pool, w, Leaving).(failed := true), lost := s.lost + Reported(me.todo))
    case Exit => s.(pool := Become(s.pool, w, Gone).(live := s.pool.live - 1))
  }

  function Become(pool: Pool, w: nat, me: Worker): Pool
    requires w < |pool.workers|
  {
    pool.(workers := pool.workers[w := me])
  }

  /** fetch_add on the shared counter; past the last range the worker leaves. */
  function ClaimRange(cfg: Config, pool: Pool, w: nat): Pool
    requires w < |pool.workers|
  {
    var i := pool.nextRange;
    if i < |cfg.found| then
      Become(pool, w, Scanning(i, cfg.found[i], Awake)).(nextRange := i + 1, owner := pool.owner[i := w])
    else
      Become(pool, w, Leaving).(nextRange := i + 1)
  }

  predicate ConsumerEnabled(s: State, act: ConsumerAct) {
    match act
    case Pop => s.consumer.Polling? && s.queue.items != []
    case Signal(w) => (s.consumer.Signalling? || s.consumer.DrainSignalling?)
                      && ((w < |s.pool.workers| && IsAsleep(s.pool.workers[w])) || NoneAsleep(s.pool.workers))
    case Timeout => s.consumer.Polling? && s.queue.items == []
    case CheckLive => s.consumer.ReadingLive?
    case CheckEmpty => s.consumer.ReadingEmpty?
    case Emit => s.consumer.Holding? || s.consumer.DrainHolding?
    case Join => s.consumer.Joining? && AllGone(s.pool.workers)
    case Close => s.consumer.Closing?
    case SignalAll => s.consumer.CloseSignalling? || s.consumer.CaughtSignalling?
    case DrainPop => s.consumer.Draining? && s.queue.items != []
    case DrainDone => s.consumer.Draining? && s.queue.items == []
    case Finish => s.consumer.Finishing?
    case Fail => s.consumer.Holding? || s.consumer.DrainHolding? || s.consumer.ReadingLive? || s.consumer.Closing? || s.consumer.Finishing?
    case MarkGone => s.consumer.Caught?
    case CloseCaught => s.consumer.CaughtClosing?
    case JoinCaught => s.consumer.CaughtJoining? && AllGone(s.pool.workers)
  }

  /** The callback reports a record unless the scan was cancelled. */
  function Report(s: State, fr: FileRecord): State {
    if s.cancelled then s.(lost := s.lost + [fr]) else s.(emitted := s.emitted + [fr])
  }

  /** Closing is also where the telemetry of the readers is merged, which may throw, as the callback
      and the progress report may. */
  function ConsumerApply(s: State, act: ConsumerAct): State
    requires ConsumerEnabled(s, act)
  {
    match act
    case Pop => s.(queue := Popped(s.queue), consumer := Signalling(s.queue.items[0]))
    case Signal(w) => s.(pool := WakeOne(s.pool, w),
                         consumer := if s.consumer.Signalling? then Holding(s.consumer.popped) else DrainHolding(s.consumer.taken))
    case Timeout => s.(consumer := ReadingLive)
    case CheckLive => s.(consumer := if s.pool.live == 0 then ReadingEmpty else Polling)
    case CheckEmpty => s.(consumer := if s.queue.items == [] then Joining else Polling)
    case Emit =>
      if s.consumer.Holding? then Report(s, s.consumer.fr).(consumer := Polling)
      else Report(s, s.consumer.rec).(consumer := Draining)
    case Join => s.(consumer := Closing)
    case Close => s.(consumer := CloseSignalling, queue := s.queue.(closed := true))
    case SignalAll => s.(pool := s.pool.(workers := WakeAll(s.pool.workers)),
                         consumer := if s.consumer.CloseSignalling? then Draining else CaughtJoining)
    case DrainPop => s.(queue := Popped(s.queue), consumer := DrainSignalling(s.queue.items[0]))
    case DrainDone => s.(consumer := Finishing)
    case Finish => s.(consumer := Finished)
    case Fail => s.(consumer := Caught, lost := s.lost + Held(s.consumer))
    case MarkGone => s.(consumer := CaughtClosing, consumerGone := true)
    case CloseCaught => s.(consumer := CaughtSignalling, queue := s.queue.(closed := true))
    case JoinCaught => s.(consumer := Rethrown)
  }

  function WakeOne(pool: Pool, w: nat): Pool {
    if w < |pool.workers| then Become(pool, w, Wake(pool.workers[w])) else pool
  }

  function Held(c: Consumer): seq<FileRecord> {
    match c
    case Signalling(fr) => [fr]
    case DrainSignalling(fr) => [fr]
    case Holding(fr) => [fr]
    case DrainHolding(fr) => [fr]
    case _ => []
  }

  predicate Enabled(cfg: Config, s: State, step: Step) {
    match step
    case ByWorker(w, act) => WorkerEnabled(cfg, s, w, act)
    case ByConsumer(act) => ConsumerEnabled(s, act)
    case Cancel => !s.cancelled
    case Spurious(w) => w < |s.pool.workers| && IsAsleep(s.pool.workers[w])
  }

  function Apply(cfg: Config, s: State, step: Step): State
    requires Enabled(cfg, s, step)
  {
    match step
    case ByWorker(w, act) => WorkerApply(cfg, s, w, act)
    case ByConsumer(act) => ConsumerApply(s, act)
    case Cancel => s.(cancelled := true)
    case Spurious(w) => s.(pool := WakeOne(s.pool, w))
  }

  // ----- runs -----

  /** The state after the given steps in order, if each was enabled when its turn came. */
  function Run(cfg: Config, steps: seq<Step>): Option<State> {
    if steps == [] then Some(Init(cfg))
    else match Run(cfg, steps[..|steps| - 1])
         case None => None
         case Some(s) =>
           var step := steps[|steps| - 1];
           if Enabled(cfg, s, step) then Some(Apply(cfg, s, step)) else None
  }

  // ----- counting a record -----

  function Count(records: seq<FileRecord>, r: FileRecord): nat {
    multiset(records)[r]
  }

  lemma CountAppend(a: seq<FileRecord>, b: seq<FileRecord>, r: FileRecord)
    ensures Count(a + b, r) == Count(a, r) + Count(b, r)
  {
  }

  lemma CountFirst(a: seq<FileRecord>, r: FileRecord)
    requires a != []
    ensures Count(a, r) == Count([a[0]], r) + Count(a[1..], r)
  {
    assert a == [a[0]] + a[1..];
  }

  function TodoOf(me: Worker): seq<FileRecord> {
    if me.Scanning? then Reported(me.todo) else []
  }

  function Todos(workers: seq<Worker>, r: FileRecord): nat {
    if workers == [] then 0 else Count(TodoOf(workers[0]), r) + Todos(workers[1..], r)
  }

  function LiveCount(workers: seq<Worker>): nat {
    if workers == [] then 0 else (if workers[0].Gone? then 0 else 1) + LiveCount(workers[1..])
  }

  lemma {:induction false} TodosSet(workers: seq<Worker>, w: nat, me: Worker, r: FileRecord)
    requires w < |workers|
    ensures Todos(workers[w := me], r) + Count(TodoOf(workers[w]), r) == Todos(workers, r) + Count(TodoOf(me), r)
  {
    hide Count, TodoOf;
    var after := workers[w := me];
    if w == 0 {
      assert after[1..] == workers[1..];
    } else {
      TodosSet(workers[1..], w - 1, me, r);
      assert after[1..] == workers[1..][w - 1 := me];
    }
  }

  lemma {:induction false} LiveSet(workers: seq<Worker>, w: nat, me: Worker)
    requires w < |workers|
    ensures LiveCount(workers[w := me]) + (if workers[w].Gone? then 0 else 1) == LiveCount(workers) + if me.Gone? then 0 else 1
  {
    var after := workers[w := me];
    if w == 0 {
      assert after[1..] == workers[1..];
    } else {
      LiveSet(workers[1..], w - 1, me);
      assert after[1..] == workers[1..][w - 1 := me];
    }
  }

  lemma {:induction false} NoneLive(workers: seq<Worker>)
    ensures LiveCount(workers) == 0 <==> AllGone(workers)
  {
    if workers != [] {
      NoneLive(workers[1..]);
      if AllGone(workers[1..]) && workers[0].Gone? {
        forall w | 0 <= w < |workers|
          ensures workers[w].Gone?
        {
          assert w > 0 ==> workers[1..][w - 1].Gone?;
        }
      }
    }
  }

  /** How often r is reported by the ranges that no worker has claimed. */
  function Unclaimed(found: seq<seq<FileRecord>>, n: nat, r: FileRecord): nat
    decreases |found| - n
  {
    if n >= |found| then 0 else Count(Reported(found[n]), r) + Unclaimed(found, n + 1, r)
  }

  // ----- what every step keeps -----

  /** Every record of every range is reported, held, queued, still to be pushed, still to be
      scanned for, or lost, and counted once. */
  ghost predicate Conserved(cfg: Config, s: State, r: FileRecord) {
    Count(s.emitted, r) + Count(Held(s.consumer), r) + Count(s.queue.items, r) + Todos(s.pool.workers, r)
    + Unclaimed(cfg.found, s.pool.nextRange, r) + Count(s.lost, r) == Unclaimed(cfg.found, 0, r)
  }

  lemma {:induction false} IdleTodos(workers: seq<Worker>, r: FileRecord)
    requires forall w :: 0 <= w < |workers| ==> !workers[w].Scanning?
    ensures Todos(workers, r) == 0
  {
    if workers != [] {
      IdleTodos(workers[1..], r);
    }
  }

  lemma CountFound(found: seq<FileRecord>, r: FileRecord)
    ensures Count([], r) == 0 && Count(Reported([]), r) == 0
    ensures found != [] ==>
              Count(Reported(found), r) == (if IsTick(found[0]) then 0 else Count([found[0]], r)) + Count(Reported(found[1..]), r)
  {
    if found != [] {
      CountAppend(if IsTick(found[0]) then [] else [found[0]], Reported(found[1..]), r);
    }
  }

  lemma DeliverConserves(cfg: Config, s: State, w: nat, r: FileRecord)
    requires WorkerEnabled(cfg, s, w, Deliver) && Conserved(cfg, s, r)
    ensures Conserved(cfg, WorkerApply(cfg, s, w, Deliver), r)
  {
    hide Count, Todos, Reported, Unclaimed, IsTick;
    var me := s.pool.workers[w];
    TodosSet(s.pool.workers, w, Scanning(me.range, me.todo[1..], Awake), r);
    CountFound(me.todo, r);
    CountAppend(s.queue.items, [me.todo[0]], r);
    CountAppend(s.lost, [me.todo[0]], r);
  }

  lemma ClaimConserves(cfg: Config, s: State, w: nat, r: FileRecord)
    requires WorkerEnabled(cfg, s, w, Claim) && Conserved(cfg, s, r)
    ensures Conserved(cfg, WorkerApply(cfg, s, w, Claim), r)
  {
    hide Count, Todos, Reported;
    TodosSet(s.pool.workers, w, WorkerApply(cfg, s, w, Claim).pool.workers[w], r);
    CountFound([], r);
  }

  lemma WorkerConserves(cfg: Config, s: State, w: nat, act: WorkerAct, r: FileRecord)
    requires WorkerEnabled(cfg, s, w, act) && Conserved(cfg, s, r)
    ensures Conserved(cfg, WorkerApply(cfg, s, w, act), r)
  {
    hide Conserved, WorkerApply;
    if act == Deliver {
      DeliverConserves(cfg, s, w, r);
    } else if act == Claim {
      ClaimConserves(cfg, s, w, r);
    } else {
      OtherConserves(cfg, s, w, act, r);
    }
  }

  /** The scan goes on, waits, ends or gives up. */
  lemma OtherConserves(cfg: Config, s: State, w: nat, act: WorkerAct, r: FileRecord)
    requires WorkerEnabled(cfg, s, w, act) && Conserved(cfg, s, r) && act != Deliver && act != Claim
    ensures Conserved(cfg, WorkerApply(cfg, s, w, act), r)
  {
    hide Count, Todos, Reported, Unclaimed, MustWait;
    TodosSet(s.pool.workers, w, WorkerApply(cfg, s, w, act).pool.workers[w], r);
    CountFound([], r);
    CountAppend(s.lost, TodoOf(s.pool.workers[w]), r);
  }

  /** Waking workers moves no record and ends no worker. */
  lemma WakeOneKeeps(pool: Pool, w: nat, r: FileRecord)
    ensures Todos(WakeOne(pool, w).workers, r) == Todos(pool.workers, r)
    ensures LiveCount(WakeOne(pool, w).workers) == LiveCount(pool.workers)
  {
    hide Count, Reported, Todos, LiveCount;
    if w < |pool.workers| {
      TodosSet(pool.workers, w, Wake(pool.workers[w]), r);
      LiveSet(pool.workers, w, Wake(pool.workers[w]));
    }
  }

  lemma {:induction false} WakeAllKeeps(workers: seq<Worker>, r: FileRecord)
    ensures Todos(WakeAll(workers), r) == Todos(workers, r)
    ensures LiveCount(WakeAll(workers)) == LiveCount(workers)
  {
    hide Count, Reported;
    if workers != [] {
      WakeAllKeeps(workers[1..], r);
      assert WakeAll(workers)[1..] == WakeAll(workers[1..]);
    }
  }

  lemma {:induction false} WakeAllAt(workers: seq<Worker>)
    ensures |WakeAll(workers)| == |workers|
    ensures forall w :: 0 <= w < |workers| ==> WakeAll(workers)[w] == Wake(workers[w])
  {
    if workers != [] {
      WakeAllAt(workers[1..]);
      forall w | 0 <= w < |workers|
        ensures WakeAll(workers)[w] == Wake(workers[w])
      {
        assert w > 0 ==> WakeAll(workers)[w] == WakeAll(workers[1..])[w - 1];
      }
    }
  }

  lemma ConsumerConserves(cfg: Config, s: State, act: ConsumerAct, r: FileRecord)
    requires ConsumerEnabled(s, act) && Conserved(cfg, s, r)
    ensures Conserved(cfg, ConsumerApply(s, act), r)
  {
    hide Count, Todos, Unclaimed, AllGone, NoneAsleep, WakeAll, Reported, LiveCount;
    CountFound([], r);
    WakeAllKeeps(s.pool.workers, r);
    if act.Signal? {
      WakeOneKeeps(s.pool, act.sleeper, r);
    }
    if act in {Pop, DrainPop} {
      CountFirst(s.queue.items, r);
    }
    CountAppend(s.emitted, Held(s.consumer), r);
    CountAppend(s.lost, Held(s.consumer), r);
  }

  // ----- control -----

  predicate HasCaught(c: Consumer) {
    c.Caught? || c.CaughtClosing? || c.CaughtSignalling? || c.CaughtJoining? || c.Rethrown?
  }

  /** What each place of the consumer knows about the flags, the live workers and the queue. */
  predicate PlaceOk(s: State) {
    match s.consumer
    case Polling => !s.queue.closed && !s.consumerGone
    case Signalling(_) => !s.queue.closed && !s.consumerGone
    case Holding(_) => !s.queue.closed && !s.consumerGone
    case ReadingLive => !s.queue.closed && !s.consumerGone
    case ReadingEmpty => !s.queue.closed && !s.consumerGone && s.pool.live == 0
    case Joining => !s.queue.closed && !s.consumerGone && s.pool.live == 0 && s.queue.items == []
    case Closing => !s.queue.closed && !s.consumerGone && s.pool.live == 0 && s.queue.items == []
    case CloseSignalling => s.queue.closed && !s.consumerGone && s.pool.live == 0 && s.queue.items == []
    case Draining => s.queue.closed && !s.consumerGone && s.pool.live == 0 && s.queue.items == []
    case DrainSignalling(_) => false
    case DrainHolding(_) => false
    case Finishing => s.queue.closed && !s.consumerGone && s.pool.live == 0 && s.queue.items == []
    case Finished => s.queue.closed && !s.consumerGone && s.pool.live == 0 && s.queue.items == []
    case Caught => !s.consumerGone
    case CaughtClosing => s.consumerGone
    case CaughtSignalling => s.consumerGone && s.queue.closed
    case CaughtJoining => s.consumerGone && s.queue.closed
    case Rethrown => s.consumerGone && s.queue.closed && s.pool.live == 0
  }

  ghost predicate ControlOk(cfg: Config, s: State) {
    && |s.pool.workers| == cfg.workerCount
    && s.pool.live == LiveCount(s.pool.workers)
    && |s.queue.items| <= cfg.cap
    && PlaceOk(s)
  }

  lemma WorkerKeepsControl(cfg: Config, s: State, w: nat, act: WorkerAct)
    requires WorkerEnabled(cfg, s, w, act) && ControlOk(cfg, s)
    ensures ControlOk(cfg, WorkerApply(cfg, s, w, act))
  {
    hide LiveCount, Reported, IsTick;
    NoneLive(s.pool.workers);
    LiveSet(s.pool.workers, w, WorkerApply(cfg, s, w, act).pool.workers[w]);
  }

  lemma ConsumerKeepsControl(cfg: Config, s: State, act: ConsumerAct)
    requires ConsumerEnabled(s, act) && ControlOk(cfg, s)
    ensures ControlOk(cfg, ConsumerApply(s, act))
  {
    NoneLive(s.pool.workers);
    hide LiveCount, AllGone, NoneAsleep, WakeAll, Todos;
    WakeAllKeeps(s.pool.workers, FileRecord(0, "", 0, 0));
    WakeAllAt(s.pool.workers);
    if act.Signal? {
      WakeOneKeeps(s.pool, act.sleeper, FileRecord(0, "", 0, 0));
    }
  }

  // ----- claims -----

  /** The claimed ranges are the first nextRange ones, and a range is scanned by its owner only. */
  ghost predicate ClaimsOk(cfg: Config, s: State) {
    && (forall i: nat :: i in s.pool.owner <==> i < s.pool.nextRange && i < |cfg.found|)
    && (forall w :: 0 <= w < |s.pool.workers| && s.pool.workers[w].Scanning? ==>
          s.pool.workers[w].range in s.pool.owner && s.pool.owner[s.pool.workers[w].range] == w)
  }

  lemma ClaimKeepsClaims(cfg: Config, s: State, w: nat)
    requires WorkerEnabled(cfg, s, w, Claim) && ClaimsOk(cfg, s)
    ensures ClaimsOk(cfg, WorkerApply(cfg, s, w, Claim))
  {
  }

  lemma WorkerKeepsClaims(cfg: Config, s: State, w: nat, act: WorkerAct)
    requires WorkerEnabled(cfg, s, w, act) && ClaimsOk(cfg, s)
    ensures ClaimsOk(cfg, WorkerApply(cfg, s, w, act))
  {
    hide Reported, IsTick;
    if act == Claim {
      ClaimKeepsClaims(cfg, s, w);
    }
  }

  lemma ConsumerClaimsNothing(s: State, act: ConsumerAct)
    requires ConsumerEnabled(s, act)
    ensures OnlyWakes(s.pool, ConsumerApply(s, act).pool)
  {
    hide AllGone, NoneAsleep, Held, WakeAll;
    WakeAllAt(s.pool.workers);
  }

  /** All that happened to the workers is that some woke up. */
  ghost predicate OnlyWakes(pool: Pool, pool': Pool) {
    && pool' == pool.(workers := pool'.workers) && |pool'.workers| == |pool.workers|
    && forall w :: 0 <= w < |pool.workers| ==> pool'.workers[w] == pool.workers[w] || pool'.workers[w] == Wake(pool.workers[w])
  }

  /** A range changes hands by its one claim only. */
  lemma ClaimedOnce(cfg: Config, s: State, step: Step, i: nat)
    requires Enabled(cfg, s, step) && ClaimsOk(cfg, s)
    ensures var s' := Apply(cfg, s, step);
            && (i in s.pool.owner ==> i in s'.pool.owner && s'.pool.owner[i] == s.pool.owner[i])
            && (i !in s.pool.owner && i in s'.pool.owner ==> step.ByWorker? && step.act == Claim && s'.pool.owner[i] == step.w)
  {
    hide Reported, IsTick;
    if step.ByConsumer? {
      ConsumerClaimsNothing(s, step.move);
    }
  }

  // ----- why records are lost and why workers leave -----

  ghost predicate CausesOk(cfg: Config, s: State) {
    && (s.lost != [] ==> s.cancelled || s.pool.failed || HasCaught(s.consumer))
    && (s.consumerGone ==> HasCaught(s.consumer))
    && (forall w :: 0 <= w < |s.pool.workers| && (s.pool.workers[w].Leaving? || s.pool.workers[w].Gone?) ==>
          s.cancelled || s.pool.failed || s.consumerGone || s.pool.nextRange >= |cfg.found|)
  }

  lemma WorkerKeepsCauses(cfg: Config, s: State, w: nat, act: WorkerAct)
    requires WorkerEnabled(cfg, s, w, act) && ControlOk(cfg, s) && CausesOk(cfg, s)
    ensures CausesOk(cfg, WorkerApply(cfg, s, w, act))
  {
    hide LiveCount, Reported, IsTick;
    NoneLive(s.pool.workers);
  }

  lemma ConsumerKeepsCauses(cfg: Config, s: State, act: ConsumerAct)
    requires ConsumerEnabled(s, act) && ControlOk(cfg, s) && CausesOk(cfg, s)
    ensures CausesOk(cfg, ConsumerApply(s, act))
  {
    ConsumerClaimsNothing(s, act);
    hide LiveCount, AllGone, NoneAsleep, WakeAll;
  }

  // ----- no lost wake-up -----

  /** How many workers are inside a push in the given way. */
  function Waiters(workers: seq<Worker>, wait: Wait): nat {
    if workers == [] then 0
    else (if workers[0].Scanning? && workers[0].wait == wait then 1 else 0) + Waiters(workers[1..], wait)
  }

  function Waits(me: Worker, wait: Wait): nat {
    if me.Scanning? && me.wait == wait then 1 else 0
  }

  lemma {:induction false} WaitersSet(workers: seq<Worker>, w: nat, me: Worker, wait: Wait)
    requires w < |workers|
    ensures Waiters(workers[w := me], wait) + Waits(workers[w], wait) == Waiters(workers, wait) + Waits(me, wait)
  {
    var after := workers[w := me];
    if w == 0 {
      assert after[1..] == workers[1..];
    } else {
      WaitersSet(workers[1..], w - 1, me, wait);
      assert after[1..] == workers[1..][w - 1 := me];
    }
  }

  /** There is a waiter if and only if the count is not zero. */
  lemma {:induction false} SomeWaiter(workers: seq<Worker>, wait: Wait) returns (w: nat)
    ensures if Waiters(workers, wait) > 0 then w < |workers| && Waits(workers[w], wait) == 1
            else forall v :: 0 <= v < |workers| ==> Waits(workers[v], wait) == 0
  {
    w := 0;
    if workers != [] && Waits(workers[0], wait) == 0 {
      w := SomeWaiter(workers[1..], wait);
      w := w + 1;
      assert forall v :: 0 < v < |workers| ==> workers[v] == workers[1..][v - 1];
    }
  }

  lemma {:induction false} NoneAsleepCount(workers: seq<Worker>)
    ensures NoneAsleep(workers) <==> Waiters(workers, Asleep) == 0
  {
    var w := SomeWaiter(workers, Asleep);
  }

  lemma {:induction false} WakeAllWakes(workers: seq<Worker>)
    ensures Waiters(WakeAll(workers), Asleep) == 0
  {
    if workers != [] {
      WakeAllWakes(workers[1..]);
      assert WakeAll(workers)[1..] == WakeAll(workers[1..]);
    }
  }

  function Pending(c: Consumer): nat {
    if c.Signalling? || c.DrainSignalling? then 1 else 0
  }

  /** While a worker sleeps, every free place of the queue has a woken worker or a notification under
      way; after a close the sleepers are woken before the consumer does anything else. */
  ghost predicate SignalsOk(cfg: Config, s: State) {
    && (!s.queue.closed && Waiters(s.pool.workers, Asleep) > 0 ==>
          cfg.cap <= |s.queue.items| + Waiters(s.pool.workers, Woken) + Pending(s.consumer))
    && (s.queue.closed && Waiters(s.pool.workers, Asleep) > 0 ==> s.consumer.CloseSignalling? || s.consumer.CaughtSignalling?)
    && WaitsOk(s.pool.workers)
  }

  /** Whoever waits, waits with a record to push. */
  ghost predicate WaitsOk(workers: seq<Worker>) {
    forall w :: 0 <= w < |workers| && workers[w].Scanning? && !workers[w].wait.Awake? ==>
      workers[w].todo != [] && !IsTick(workers[w].todo[0])
  }

  lemma WorkerKeepsSignals(cfg: Config, s: State, w: nat, act: WorkerAct)
    requires WorkerEnabled(cfg, s, w, act) && ControlOk(cfg, s) && SignalsOk(cfg, s)
    ensures SignalsOk(cfg, WorkerApply(cfg, s, w, act))
  {
    hide LiveCount, Reported, IsTick, Waiters;
    var me := WorkerApply(cfg, s, w, act).pool.workers[w];
    WaitersSet(s.pool.workers, w, me, Asleep);
    WaitersSet(s.pool.workers, w, me, Woken);
  }

  lemma WakeOneKeepsSignals(cfg: Config, s: State, w: nat)
    requires SignalsOk(cfg, s) && w < |s.pool.workers| && IsAsleep(s.pool.workers[w])
    ensures var workers := WakeOne(s.pool, w).workers;
            && Waiters(workers, Asleep) == Waiters(s.pool.workers, Asleep) - 1
            && Waiters(workers, Woken) == Waiters(s.pool.workers, Woken) + 1
            && WaitsOk(workers)
  {
    hide IsTick, Waiters;
    WaitersSet(s.pool.workers, w, Wake(s.pool.workers[w]), Asleep);
    WaitersSet(s.pool.workers, w, Wake(s.pool.workers[w]), Woken);
  }

  lemma ConsumerKeepsSignals(cfg: Config, s: State, act: ConsumerAct)
    requires ConsumerEnabled(s, act) && ControlOk(cfg, s) && SignalsOk(cfg, s)
    ensures SignalsOk(cfg, ConsumerApply(s, act))
  {
    hide LiveCount, IsTick, Waiters, AllGone, WakeAll, NoneAsleep;
    NoneAsleepCount(s.pool.workers);
    NoSleeperIfGone(s.pool.workers);
    if act.SignalAll? {
      WakeAllWakes(s.pool.workers);
      WakeAllAt(s.pool.workers);
    } else if act.Signal? {
      if act.sleeper < |s.pool.workers| && IsAsleep(s.pool.workers[act.sleeper]) {
        WakeOneKeepsSignals(cfg, s, act.sleeper);
      } else {
        assert WakeOne(s.pool, act.sleeper) == s.pool;
      }
    }
  }

  lemma NoSleeperIfGone(workers: seq<Worker>)
    ensures LiveCount(workers) == 0 ==> Waiters(workers, Asleep) == 0
  {
    NoneLive(workers);
    var w := SomeWaiter(workers, Asleep);
  }

  lemma SpuriousKeepsSignals(cfg: Config, s: State, w: nat)
    requires SignalsOk(cfg, s) && w < |s.pool.workers| && IsAsleep(s.pool.workers[w])
    ensures SignalsOk(cfg, s.(pool := WakeOne(s.pool, w)))
  {
    WakeOneKeepsSignals(cfg, s, w);
    hide Waiters, WaitsOk;
  }

  // ----- every reachable state -----

  ghost predicate Inv(cfg: Config, s: State) {
    && ControlOk(cfg, s)
    && ClaimsOk(cfg, s)
    && CausesOk(cfg, s)
    && SignalsOk(cfg, s)
    && forall r :: Conserved(cfg, s, r)
  }

  lemma {:induction false} IdleWorkers(workers: seq<Worker>, r: FileRecord)
    requires forall w :: 0 <= w < |workers| ==> workers[w].LoopTop?
    ensures LiveCount(workers) == |workers| && Todos(workers, r) == 0 && Waiters(workers, Asleep) == 0
  {
    if workers != [] {
      IdleWorkers(workers[1..], r);
    }
  }

  lemma InitInv(cfg: Config)
    ensures Inv(cfg, Init(cfg))
  {
    forall r
      ensures Conserved(cfg, Init(cfg), r) && LiveCount(Init(cfg).pool.workers) == cfg.workerCount
      ensures Waiters(Init(cfg).pool.workers, Asleep) == 0
    {
      IdleWorkers(Init(cfg).pool.workers, r);
    }
    assert Conserved(cfg, Init(cfg), FileRecord(0, "", 0, 0));
  }

  lemma StepInv(cfg: Config, s: State, step: Step)
    requires Inv(cfg, s) && Enabled(cfg, s, step)
    ensures Inv(cfg, Apply(cfg, s, step))
  {
    hide ControlOk, ClaimsOk, CausesOk, SignalsOk, Conserved, WorkerApply, WorkerEnabled, ConsumerApply, ConsumerEnabled;
    match step
    case ByWorker(w, act) =>
      WorkerKeepsControl(cfg, s, w, act);
      WorkerKeepsClaims(cfg, s, w, act);
      WorkerKeepsCauses(cfg, s, w, act);
      WorkerKeepsSignals(cfg, s, w, act);
      forall r
        ensures Conserved(cfg, Apply(cfg, s, step), r)
      {
        WorkerConserves(cfg, s, w, act, r);
      }
    case ByConsumer(act) =>
      ConsumerKeepsControl(cfg, s, act);
      ConsumerKeepsClaims(cfg, s, act);
      ConsumerKeepsCauses(cfg, s, act);
      ConsumerKeepsSignals(cfg, s, act);
      forall r
        ensures Conserved(cfg, Apply(cfg, s, step), r)
      {
        ConsumerConserves(cfg, s, act, r);
      }
    case Cancel =>
      CancelInv(cfg, s);
    case Spurious(w) =>
      SpuriousInv(cfg, s, w);
  }

  lemma SpuriousConserves(cfg: Config, s: State, w: nat, r: FileRecord)
    requires Conserved(cfg, s, r)
    ensures Conserved(cfg, s.(pool := WakeOne(s.pool, w)), r)
    ensures LiveCount(WakeOne(s.pool, w).workers) == LiveCount(s.pool.workers)
  {
    WakeOneKeeps(s.pool, w, r);
    hide Count, Todos, Unclaimed, LiveCount;
  }

  lemma SpuriousKeepsClaims(cfg: Config, s: State, w: nat)
    requires ClaimsOk(cfg, s)
    ensures ClaimsOk(cfg, s.(pool := WakeOne(s.pool, w)))
  {
  }

  lemma SpuriousKeepsCauses(cfg: Config, s: State, w: nat)
    requires CausesOk(cfg, s)
    ensures CausesOk(cfg, s.(pool := WakeOne(s.pool, w)))
  {
  }

  lemma SpuriousKeepsControl(cfg: Config, s: State, w: nat)
    requires ControlOk(cfg, s) && LiveCount(WakeOne(s.pool, w).workers) == LiveCount(s.pool.workers)
    ensures ControlOk(cfg, s.(pool := WakeOne(s.pool, w)))
  {
    hide LiveCount;
  }

  lemma SpuriousInv(cfg: Config, s: State, w: nat)
    requires Inv(cfg, s) && w < |s.pool.workers| && IsAsleep(s.pool.workers[w])
    ensures Inv(cfg, s.(pool := WakeOne(s.pool, w)))
  {
    hide SignalsOk, Conserved, LiveCount, ControlOk, ClaimsOk, CausesOk, WakeOne, IsAsleep;
    SpuriousKeepsSignals(cfg, s, w);
    SpuriousConserves(cfg, s, w, FileRecord(0, "", 0, 0));
    SpuriousKeepsClaims(cfg, s, w);
    SpuriousKeepsCauses(cfg, s, w);
    SpuriousKeepsControl(cfg, s, w);
    forall r
      ensures Conserved(cfg, s.(pool := WakeOne(s.pool, w)), r)
    {
      SpuriousConserves(cfg, s, w, r);
    }
  }

  lemma ConsumerKeepsClaims(cfg: Config, s: State, act: ConsumerAct)
    requires ConsumerEnabled(s, act) && ClaimsOk(cfg, s)
    ensures ClaimsOk(cfg, ConsumerApply(s, act))
  {
    ConsumerClaimsNothing(s, act);
    hide ConsumerApply, ConsumerEnabled;
  }

  lemma CancelInv(cfg: Config, s: State)
    requires Inv(cfg, s)
    ensures Inv(cfg, s.(cancelled := true))
  {
    var s' := s.(cancelled := true);
    hide Count, Todos, Unclaimed, LiveCount, Waiters;
    forall r
      ensures Conserved(cfg, s', r)
    {
      assert Conserved(cfg, s, r);
    }
  }

  /** Whatever the interleaving, every state of a run satisfies the invariant. */
  lemma {:induction false} RunInv(cfg: Config, steps: seq<Step>)
    ensures Run(cfg, steps).Some? ==> Inv(cfg, Run(cfg, steps).value)
  {
    if steps == [] {
      InitInv(cfg);
    } else {
      var before := Run(cfg, steps[..|steps| - 1]);
      RunInv(cfg, steps[..|steps| - 1]);
      hide Inv;
      if before.Some? && Enabled(cfg, before.value, steps[|steps| - 1]) {
        StepInv(cfg, before.value, steps[|steps| - 1]);
      }
    }
  }

  // ----- against the sequential loop -----

  /** What the sequential loop reports: range after range, ticks left out. */
  function Sequential(found: seq<seq<FileRecord>>): seq<FileRecord> {
    if found == [] then [] else Reported(found[0]) + Sequential(found[1..])
  }

  lemma {:induction false} UnclaimedIsSequential(found: seq<seq<FileRecord>>, n: nat, r: FileRecord)
    requires n <= |found|
    ensures Unclaimed(found, n, r) == Count(Sequential(found[n..]), r)
    decreases |found| - n
  {
    hide Count;
    CountFound([], r);
    if n < |found| {
      UnclaimedIsSequential(found, n + 1, r);
      assert found[n..][1..] == found[n + 1..];
      CountAppend(Reported(found[n]), Sequential(found[n + 1..]), r);
    } else {
      assert Sequential(found[n..]) == [];
    }
  }

  /** All that the scans hand to their sinks, ticks included. */
  function HandedOver(found: seq<seq<FileRecord>>): seq<FileRecord> {
    if found == [] then [] else found[0] + HandedOver(found[1..])
  }

  /** The reports keep every record with a name or an id, as often as it comes, and nothing else. */
  lemma {:induction false} ReportedKeeps(found: seq<FileRecord>, r: FileRecord)
    ensures Count(Reported(found), r) == if r.id == -1 && r.name == "" then 0 else Count(found, r)
  {
    if found != [] {
      ReportedKeeps(found[1..], r);
      CountFound(found, r);
      CountFirst(found, r);
    }
  }

  /** They keep the order. */
  lemma {:induction false} ReportedAppends(a: seq<FileRecord>, b: seq<FileRecord>)
    ensures Reported(a + b) == Reported(a) + Reported(b)
  {
    if a == [] {
      assert a + b == b;
    } else {
      assert (a + b)[0] == a[0] && (a + b)[1..] == a[1..] + b;
      ReportedAppends(a[1..], b);
    }
  }

  /** The sequential loop reports of everything handed over just what carries a record, in order. */
  lemma {:induction false} SequentialIs(found: seq<seq<FileRecord>>)
    ensures Sequential(found) == Reported(HandedOver(found))
  {
    if found != [] {
      SequentialIs(found[1..]);
      hide Reported;
      ReportedAppends(found[0], HandedOver(found[1..]));
    }
  }

  lemma SequentialKeeps(found: seq<seq<FileRecord>>, r: FileRecord)
    ensures Count(Sequential(found), r) == if r.id == -1 && r.name == "" then 0 else Count(HandedOver(found), r)
  {
    SequentialIs(found);
    hide Count, Reported, Sequential;
    ReportedKeeps(HandedOver(found), r);
  }

  lemma ReportedAdds(before: seq<FileRecord>, found: seq<FileRecord>)
    ensures forall r :: Count(before + Reported(found), r) == Count(before, r) + if r.id == -1 && r.name == "" then 0 else Count(found, r)
  {
    forall r
      ensures Count(before + Reported(found), r) == Count(before, r) + if r.id == -1 && r.name == "" then 0 else Count(found, r)
    {
      CountAppend(before, Reported(found), r);
      ReportedKeeps(found, r);
      hide Count, Reported;
    }
  }

  lemma SequentialCounts(found: seq<seq<FileRecord>>)
    ensures forall r :: Count(Sequential(found), r) == if r.id == -1 && r.name == "" then 0 else Count(HandedOver(found), r)
  {
    hide Count, Sequential, HandedOver;
    forall r
      ensures Count(Sequential(found), r) == if r.id == -1 && r.name == "" then 0 else Count(HandedOver(found), r)
    {
      SequentialKeeps(found, r);
    }
  }

  lemma CountsMakeMultiset(a: seq<FileRecord>, b: seq<FileRecord>)
    requires forall r :: Count(a, r) == Count(b, r)
    ensures multiset(a) == multiset(b)
  {
    forall r
      ensures multiset(a)[r] == multiset(b)[r]
    {
      assert Count(a, r) == Count(b, r);
    }
  }

  lemma FinishedCounts(cfg: Config, s: State, r: FileRecord)
    requires ValidConfig(cfg) && Inv(cfg, s) && s.consumer.Finished? && !s.cancelled && !s.pool.failed
    ensures s.pool.nextRange >= |cfg.found|
    ensures Count(s.emitted, r) == Count(Sequential(cfg.found), r)
  {
    NoneLive(s.pool.workers);
    assert s.pool.workers[0].Gone?;
    assert Conserved(cfg, s, r);
    UnclaimedIsSequential(cfg.found, 0, r);
    assert cfg.found[0..] == cfg.found;
    IdleTodos(s.pool.workers, r);
    CountFound([], r);
  }

  /** Without a cancel, an exception or a failed worker, the parallel phase claims every range and
      reports exactly the records of the sequential loop, which are all that were handed over with a
      name or an id. */
  lemma ParallelRefinesSequential(cfg: Config, steps: seq<Step>, s: State)
    requires ValidConfig(cfg) && Run(cfg, steps) == Some(s)
    requires s.consumer.Finished? && !s.cancelled && !s.pool.failed
    ensures multiset(s.emitted) == multiset(Sequential(cfg.found))
    ensures forall r :: Count(s.emitted, r) == if r.id == -1 && r.name == "" then 0 else Count(HandedOver(cfg.found), r)
    ensures forall i: nat :: i < |cfg.found| <==> i in s.pool.owner
  {
    RunInv(cfg, steps);
    forall r
      ensures s.pool.nextRange >= |cfg.found| && Count(s.emitted, r) == Count(Sequential(cfg.found), r)
      ensures Count(s.emitted, r) == if r.id == -1 && r.name == "" then 0 else Count(HandedOver(cfg.found), r)
    {
      FinishedCounts(cfg, s, r);
      SequentialKeeps(cfg.found, r);
    }
    hide Count, Sequential;
    CountsMakeMultiset(s.emitted, Sequential(cfg.found));
    assert Count(s.emitted, FileRecord(0, "", 0, 0)) == Count(Sequential(cfg.found), FileRecord(0, "", 0, 0));
  }

  /** In every state of every run, failures included, nothing is reported that the sequential loop
      would not report, and nothing more often. */
  lemma NothingInvented(cfg: Config, steps: seq<Step>, s: State)
    requires Run(cfg, steps) == Some(s)
    ensures multiset(s.emitted) <= multiset(Sequential(cfg.found))
    ensures forall r :: Count(s.emitted, r) <= if r.id == -1 && r.name == "" then 0 else Count(HandedOver(cfg.found), r)
  {
    RunInv(cfg, steps);
    forall r
      ensures Count(s.emitted, r) <= Count(Sequential(cfg.found), r)
      ensures Count(s.emitted, r) <= if r.id == -1 && r.name == "" then 0 else Count(HandedOver(cfg.found), r)
    {
      SequentialKeeps(cfg.found, r);
      assert Conserved(cfg, s, r);
      UnclaimedIsSequential(cfg.found, 0, r);
      assert cfg.found[0..] == cfg.found;
    }
    forall r
      ensures multiset(s.emitted)[r] <= multiset(Sequential(cfg.found))[r]
    {
      assert Count(s.emitted, r) <= Count(Sequential(cfg.found), r);
    }
  }

  /** The queue never exceeds its cap, a range is scanned by the worker that claimed it and no
      other, and after the joins the drain finds an empty queue. */
  lemma SafeThroughout(cfg: Config, steps: seq<Step>, s: State)
    requires Run(cfg, steps) == Some(s)
    ensures |s.queue.items| <= cfg.cap
    ensures forall v, w :: 0 <= v < w < |s.pool.workers| && s.pool.workers[v].Scanning? && s.pool.workers[w].Scanning? ==>
              s.pool.workers[v].range != s.pool.workers[w].range
    ensures s.consumer.Joining? || s.consumer.Draining? || s.consumer.Finished? ==> s.queue.items == [] && AllGone(s.pool.workers)
    ensures !s.consumer.DrainHolding?
  {
    RunInv(cfg, steps);
    NoneLive(s.pool.workers);
    hide Conserved, LiveCount;
  }

  lemma RemoveAt<T>(b: seq<T>, k: nat)
    requires k < |b|
    ensures multiset(b) == multiset{b[k]} + multiset(b[..k] + b[k + 1..])
  {
    assert b == b[..k] + [b[k]] + b[k + 1..];
  }

  lemma SameRest<T>(a: seq<T>, b: seq<T>, k: nat)
    requires multiset(a) == multiset(b) && a != [] && k < |b| && b[k] == a[0]
    ensures multiset(a[1..]) == multiset(b[..k] + b[k + 1..])
  {
    RemoveAt(a, 0);
    RemoveAt(b, k);
    assert a[..0] + a[1..] == a[1..];
    CancelOne(a[0], multiset(a[1..]), multiset(b[..k] + b[k + 1..]));
  }

  lemma CancelOne<T>(x: T, a: multiset<T>, b: multiset<T>)
    requires multiset{x} + a == multiset{x} + b
    ensures a == b
  {
    forall y
      ensures a[y] == b[y]
    {
      assert (multiset{x} + a)[y] == (multiset{x} + b)[y];
    }
  }

  /** Scheduling order does not matter: sorting the work list leaves the reported records alone. */
  lemma {:induction false} OrderIsIrrelevant(a: seq<seq<FileRecord>>, b: seq<seq<FileRecord>>)
    requires multiset(a) == multiset(b)
    ensures multiset(Sequential(a)) == multiset(Sequential(b))
  {
    if a == [] {
      assert |multiset(b)| == 0;
    } else {
      var k := IndexOf(a, b);
      var rest := b[..k] + b[k + 1..];
      SameRest(a, b, k);
      OrderIsIrrelevant(a[1..], rest);
      hide Reported;
      SequentialWithout(b, k);
    }
  }

  lemma IndexOf<T>(a: seq<T>, b: seq<T>) returns (k: nat)
    requires multiset(a) == multiset(b) && a != []
    ensures k < |b| && b[k] == a[0]
  {
    assert a[0] in multiset(b);
    k :| k < |b| && b[k] == a[0];
  }

  lemma {:induction false} SequentialWithout(b: seq<seq<FileRecord>>, k: nat)
    requires k < |b|
    ensures multiset(Sequential(b)) == multiset(Reported(b[k])) + multiset(Sequential(b[..k] + b[k + 1..]))
  {
    hide Reported;
    var rest := b[..k] + b[k + 1..];
    if k == 0 {
      assert rest == b[1..];
    } else {
      SequentialWithout(b[1..], k - 1);
      assert rest[0] == b[0] && rest[1..] == b[1..][..k - 1] + b[1..][k..];
    }
  }

  /** The callback wrapper on the stream of one range: ticks are skipped. */
  method ReportRange(before: seq<FileRecord>, found: seq<FileRecord>) returns (emitted: seq<FileRecord>)
    ensures emitted == before + Reported(found)
    ensures forall r :: Count(emitted, r) == Count(before, r) + if r.id == -1 && r.name == "" then 0 else Count(found, r)
  {
    ReportedAdds(before, found);
    hide Count;
    emitted := before;
    for k := 0 to |found|
      invariant emitted + Reported(found[k..]) == before + Reported(found)
    {
      var fr := found[k];
      assert found[k..][1..] == found[k + 1..];
      ghost var later := Reported(found[k + 1..]);
      assert emitted + ([fr] + later) == (emitted + [fr]) + later;
      if fr.name != "" || fr.id != -1 {
        emitted := emitted + [fr];
      }
    }
  }

  /** The sequential loop: every range in order. */
  method SequentialCarve(found: seq<seq<FileRecord>>) returns (emitted: seq<FileRecord>)
    ensures emitted == Sequential(found)
    ensures forall r :: Count(emitted, r) == if r.id == -1 && r.name == "" then 0 else Count(HandedOver(found), r)
  {
    SequentialCounts(found);
    hide Reported, Count;
    emitted := [];
    for i := 0 to |found|
      invariant emitted + Sequential(found[i..]) == Sequential(found)
    {
      assert found[i..][1..] == found[i + 1..];
      ghost var later := Sequential(found[i + 1..]);
      assert emitted + (Reported(found[i]) + later) == (emitted + Reported(found[i])) + later;
      emitted := ReportRange(emitted, found[i]);
    }
  }

  // ----- cancel and failure stop the claims -----

  /** How many workers are about to claim a range. */
  function Claimers(workers: seq<Worker>): nat {
    if workers == [] then 0 else (if workers[0].Claiming? then 1 else 0) + Claimers(workers[1..])
  }

  lemma {:induction false} ClaimersSet(workers: seq<Worker>, w: nat, me: Worker)
    requires w < |workers|
    ensures Claimers(workers[w := me]) + (if workers[w].Claiming? then 1 else 0) == Claimers(workers) + if me.Claiming? then 1 else 0
  {
    var after := workers[w := me];
    if w == 0 {
      assert after[1..] == workers[1..];
    } else {
      ClaimersSet(workers[1..], w - 1, me);
      assert after[1..] == workers[1..][w - 1 := me];
    }
  }

  lemma {:induction false} WakeAllClaimers(workers: seq<Worker>)
    ensures Claimers(WakeAll(workers)) == Claimers(workers)
  {
    if workers != [] {
      WakeAllClaimers(workers[1..]);
      assert WakeAll(workers)[1..] == WakeAll(workers[1..]);
    }
  }

  predicate IsStopping(s: State) {
    s.cancelled || s.consumerGone
  }

  lemma StopWorkerStep(cfg: Config, s: State, w: nat, act: WorkerAct)
    requires WorkerEnabled(cfg, s, w, act) && IsStopping(s)
    ensures var t := WorkerApply(cfg, s, w, act);
            IsStopping(t) && t.pool.nextRange + Claimers(t.pool.workers) <= s.pool.nextRange + Claimers(s.pool.workers)
  {
    hide Claimers, Reported, IsTick;
    ClaimersSet(s.pool.workers, w, WorkerApply(cfg, s, w, act).pool.workers[w]);
  }

  lemma StopConsumerStep(s: State, act: ConsumerAct)
    requires ConsumerEnabled(s, act) && IsStopping(s)
    ensures var t := ConsumerApply(s, act);
            IsStopping(t) && t.pool.nextRange + Claimers(t.pool.workers) <= s.pool.nextRange + Claimers(s.pool.workers)
  {
    hide Claimers, WakeAll, AllGone, NoneAsleep;
    WakeAllClaimers(s.pool.workers);
    if act.Signal? && act.sleeper < |s.pool.workers| {
      ClaimersSet(s.pool.workers, act.sleeper, Wake(s.pool.workers[act.sleeper]));
    }
  }

  /** No step makes room for more claims once the scan is cancelled or the consumer gone. */
  lemma StopStep(cfg: Config, s: State, step: Step)
    requires Enabled(cfg, s, step) && IsStopping(s)
    ensures IsStopping(Apply(cfg, s, step))
    ensures var t := Apply(cfg, s, step);
            t.pool.nextRange + Claimers(t.pool.workers) <= s.pool.nextRange + Claimers(s.pool.workers)
  {
    match step
    case ByWorker(w, act) =>
      StopWorkerStep(cfg, s, w, act);
    case ByConsumer(act) =>
      StopConsumerStep(s, act);
    case Cancel =>
    case Spurious(w) =>
      ClaimersSet(s.pool.workers, w, Wake(s.pool.workers[w]));
  }

  /** After a cancel or a failure of the consumer, at most the ranges that workers were just about to
      claim are still claimed, however long the run goes on. */
  lemma {:induction false} ClaimsStop(cfg: Config, steps: seq<Step>, more: seq<Step>)
    requires Run(cfg, steps).Some? && IsStopping(Run(cfg, steps).value) && Run(cfg, steps + more).Some?
    ensures var s, t := Run(cfg, steps).value, Run(cfg, steps + more).value;
            IsStopping(t) && t.pool.nextRange + Claimers(t.pool.workers) <= s.pool.nextRange + Claimers(s.pool.workers)
    decreases |more|
  {
    if more == [] {
      assert steps + more == steps;
    } else {
      var n := |more| - 1;
      assert (steps + more)[..|steps + more| - 1] == steps + more[..n];
      ClaimsStop(cfg, steps, more[..n]);
      StopStep(cfg, Run(cfg, steps + more[..n]).value, more[n]);
      hide Apply, Enabled, Claimers;
    }
  }

  // ----- no deadlock -----

  function WorkerCost(me: Worker): nat {
    match me
    case LoopTop => 3
    case Claiming => 2
    case Scanning(_, todo, wait) => 5 + 5 * |todo| - if wait.Asleep? then 1 else 0
    case Leaving => 1
    case Gone => 0
  }

  function WorkersCost(workers: seq<Worker>): nat {
    if workers == [] then 0 else WorkerCost(workers[0]) + WorkersCost(workers[1..])
  }

  function RangesCost(found: seq<seq<FileRecord>>, n: nat): nat
    decreases |found| - n
  {
    if n >= |found| then 0 else 4 + 5 * |found[n]| + RangesCost(found, n + 1)
  }

  /** Before a notify_all there are up to n sleepers that it may wake. */
  function PlaceCost(c: Consumer, n: nat): nat {
    match c
    case Finished => 0
    case Rethrown => 0
    case CaughtJoining => 1
    case CaughtSignalling => 2 + n
    case CaughtClosing => 3 + n
    case Caught => 4 + n
    case Finishing => 5 + n
    case Draining => 6 + n
    case DrainHolding(_) => 7 + n
    case DrainSignalling(_) => 9 + n
    case CloseSignalling => 7 + 2 * n
    case Closing => 8 + 2 * n
    case Joining => 9 + 2 * n
    case Polling => 10 + 2 * n
    case ReadingLive => 10 + 2 * n
    case ReadingEmpty => 10 + 2 * n
    case Holding(_) => 11 + 2 * n
    case Signalling(_) => 13 + 2 * n
  }

  /** What is left to do. */
  function Cost(cfg: Config, s: State): nat {
    WorkersCost(s.pool.workers) + RangesCost(cfg.found, s.pool.nextRange) + 4 * |s.queue.items|
    + PlaceCost(s.consumer, |s.pool.workers|) + if s.cancelled then 0 else 1
  }

  /** How far the consumer is from its next useful step while it polls. */
  function PollRank(s: State): nat {
    if s.queue.items != [] then (if s.consumer.ReadingLive? then 2 else if s.consumer.ReadingEmpty? then 1 else 0)
    else if s.pool.live != 0 then 0
    else if s.consumer.Polling? then 2 else if s.consumer.ReadingLive? then 1 else 0
  }

  function Measure(cfg: Config, s: State): nat {
    3 * Cost(cfg, s) + PollRank(s)
  }

  lemma {:induction false} WorkersCostSet(workers: seq<Worker>, w: nat, me: Worker)
    requires w < |workers|
    ensures WorkersCost(workers[w := me]) + WorkerCost(workers[w]) == WorkersCost(workers) + WorkerCost(me)
  {
    hide WorkerCost;
    var after := workers[w := me];
    if w == 0 {
      assert after[1..] == workers[1..];
    } else {
      WorkersCostSet(workers[1..], w - 1, me);
      assert after[1..] == workers[1..][w - 1 := me];
    }
  }

  /** A poll that finds the queue empty while workers are still at it changes nothing. */
  predicate IsIdlePoll(s: State, step: Step) {
    s.queue.items == [] && s.pool.live != 0 && step in {ByConsumer(Timeout), ByConsumer(CheckLive)}
  }

  lemma {:induction false} WakeAllCost(workers: seq<Worker>)
    ensures |WakeAll(workers)| == |workers|
    ensures WorkersCost(WakeAll(workers)) <= WorkersCost(workers) + |workers|
  {
    if workers != [] {
      WakeAllCost(workers[1..]);
      assert WakeAll(workers)[1..] == WakeAll(workers[1..]);
    }
  }

  /** Waking a sleeper costs one step more: it looks at the queue again. */
  lemma WakeOneCost(pool: Pool, w: nat)
    ensures |WakeOne(pool, w).workers| == |pool.workers|
    ensures WorkersCost(WakeOne(pool, w).workers)
         == WorkersCost(pool.workers) + if w < |pool.workers| && IsAsleep(pool.workers[w]) then 1 else 0
  {
    hide WorkersCost;
    if w < |pool.workers| {
      WorkersCostSet(pool.workers, w, Wake(pool.workers[w]));
    }
  }

  lemma WorkerDecreases(cfg: Config, s: State, w: nat, act: WorkerAct)
    requires WorkerEnabled(cfg, s, w, act)
    ensures Cost(cfg, WorkerApply(cfg, s, w, act)) < Cost(cfg, s)
  {
    hide WorkersCost, Reported, IsTick, Count;
    if act == Claim {
      WorkersCostSet(s.pool.workers, w, ClaimRange(cfg, s.pool, w).workers[w]);
    } else {
      hide RangesCost;
      WorkersCostSet(s.pool.workers, w, WorkerApply(cfg, s, w, act).pool.workers[w]);
    }
  }

  lemma ConsumerDecreases(cfg: Config, s: State, act: ConsumerAct)
    requires ConsumerEnabled(s, act) && ControlOk(cfg, s)
    ensures if IsIdlePoll(s, ByConsumer(act)) then Measure(cfg, ConsumerApply(s, act)) == Measure(cfg, s)
            else Measure(cfg, ConsumerApply(s, act)) < Measure(cfg, s)
  {
    RankIsSmall(s);
    RankIsSmall(ConsumerApply(s, act));
    if act.SignalAll? || act.Signal? {
      SignalDecreases(cfg, s, act);
      hide *;
      MeasureIs(cfg, s);
      MeasureIs(cfg, ConsumerApply(s, act));
    } else if act in {Timeout, CheckLive, CheckEmpty} {
      hide WorkersCost, RangesCost, LiveCount, AllGone;
    } else {
      MoveDecreases(cfg, s, act);
      hide *;
      MeasureIs(cfg, s);
      MeasureIs(cfg, ConsumerApply(s, act));
    }
  }

  lemma RankIsSmall(s: State)
    ensures PollRank(s) <= 2
  {
  }

  lemma MeasureIs(cfg: Config, s: State)
    ensures Measure(cfg, s) == 3 * Cost(cfg, s) + PollRank(s)
  {
    hide Cost, PollRank;
  }

  lemma MoveDecreases(cfg: Config, s: State, act: ConsumerAct)
    requires ConsumerEnabled(s, act) && !act.SignalAll? && !act.Signal? && act !in {Timeout, CheckLive, CheckEmpty}
    ensures Cost(cfg, ConsumerApply(s, act)) < Cost(cfg, s)
    ensures !IsIdlePoll(s, ByConsumer(act))
  {
    hide WorkersCost, RangesCost, AllGone;
  }

  lemma SignalDecreases(cfg: Config, s: State, act: ConsumerAct)
    requires ConsumerEnabled(s, act) && (act.SignalAll? || act.Signal?)
    ensures Cost(cfg, ConsumerApply(s, act)) < Cost(cfg, s)
    ensures !IsIdlePoll(s, ByConsumer(act))
  {
    hide WorkersCost, RangesCost, LiveCount, AllGone, WakeAll, NoneAsleep;
    if act.SignalAll? {
      WakeAllCost(s.pool.workers);
    } else {
      WakeOneCost(s.pool, act.sleeper);
    }
  }

  /** Every step but an idle poll and a spurious wake-up makes the measure smaller. */
  lemma StepDecreases(cfg: Config, s: State, step: Step)
    requires Enabled(cfg, s, step) && ControlOk(cfg, s)
    ensures if IsIdlePoll(s, step) then Measure(cfg, Apply(cfg, s, step)) == Measure(cfg, s)
            else if step.Spurious? then Measure(cfg, Apply(cfg, s, step)) == Measure(cfg, s) + 3
            else Measure(cfg, Apply(cfg, s, step)) < Measure(cfg, s)
  {
    match step
    case ByWorker(w, act) =>
      WorkerDecreases(cfg, s, w, act);
    case ByConsumer(act) =>
      ConsumerDecreases(cfg, s, act);
    case Cancel =>
    case Spurious(w) =>
      WakeOneCost(s.pool, w);
  }

  predicate IsOver(s: State) {
    s.consumer.Finished? || s.consumer.Rethrown?
  }

  /** What a live worker that does not sleep can do next when a push would not block. */
  function UsefulAct(me: Worker): WorkerAct {
    match me
    case LoopTop => Check
    case Claiming => Claim
    case Scanning(_, todo, _) => if todo == [] then FinishRange else Deliver
    case Leaving => Exit
    case Gone => Exit
  }

  function UsefulMove(s: State): ConsumerAct {
    match s.consumer
    case Polling => if s.queue.items == [] then Timeout else Pop
    case Signalling(_) => Signal(SomeSleeper(s.pool.workers))
    case Holding(_) => Emit
    case ReadingLive => CheckLive
    case ReadingEmpty => CheckEmpty
    case Joining => Join
    case Closing => Close
    case CloseSignalling => SignalAll
    case DrainSignalling(_) => Signal(SomeSleeper(s.pool.workers))
    case Draining => if s.queue.items == [] then DrainDone else DrainPop
    case DrainHolding(_) => Emit
    case Finishing => Finish
    case Finished => Finish
    case Caught => MarkGone
    case CaughtClosing => CloseCaught
    case CaughtSignalling => SignalAll
    case CaughtJoining => JoinCaught
    case Rethrown => JoinCaught
  }

  function SomeSleeper(workers: seq<Worker>): (w: nat)
    ensures (w < |workers| && IsAsleep(workers[w])) || NoneAsleep(workers)
  {
    if workers == [] || IsAsleep(workers[0]) then 0
    else
      var w := 1 + SomeSleeper(workers[1..]);
      assert forall v :: 0 < v < |workers| ==> workers[v] == workers[1..][v - 1];
      w
  }

  /** No deadlock: in every state of every run, until the phase is over, some enabled step makes the
      measure smaller, in the normal and in the exceptional shutdown alike, and without a spurious
      wake-up. */
  lemma NeverStuck(cfg: Config, steps: seq<Step>, s: State)
    requires ValidConfig(cfg) && Run(cfg, steps) == Some(s) && !IsOver(s)
    ensures exists step :: Enabled(cfg, s, step) && !step.Spurious? && Measure(cfg, Apply(cfg, s, step)) < Measure(cfg, s)
  {
    RunInv(cfg, steps);
    var step := UsefulStep(cfg, s);
    StepDecreases(cfg, s, step);
  }

  /** With room in the queue or after a close not all live workers sleep. */
  lemma AwakeWorker(cfg: Config, s: State) returns (w: nat)
    requires ControlOk(cfg, s) && SignalsOk(cfg, s) && s.pool.live != 0
    requires s.consumer.CaughtJoining? || (|s.queue.items| < cfg.cap && (s.consumer.Polling? || s.consumer.ReadingLive?))
    ensures w < |s.pool.workers| && !s.pool.workers[w].Gone? && !IsAsleep(s.pool.workers[w])
  {
    NoneLive(s.pool.workers);
    hide LiveCount, Waiters;
    w :| w < |s.pool.workers| && !s.pool.workers[w].Gone?;
    var v := SomeWaiter(s.pool.workers, Asleep);
    if IsAsleep(s.pool.workers[w]) {
      assert Waits(s.pool.workers[w], Asleep) == 1;
      w := SomeWaiter(s.pool.workers, Woken);
    }
  }

  /** No wake-up is lost: while a worker sleeps although its push could go ahead, a woken worker or a
      notification is under way. */
  lemma NoLostWakeUp(cfg: Config, steps: seq<Step>, s: State, w: nat)
    requires Run(cfg, steps) == Some(s) && w < |s.pool.workers| && IsAsleep(s.pool.workers[w])
    requires s.queue.closed || |s.queue.items| < cfg.cap
    ensures || (exists v :: 0 <= v < |s.pool.workers| && Waits(s.pool.workers[v], Woken) == 1)
            || s.consumer.Signalling? || s.consumer.CloseSignalling? || s.consumer.CaughtSignalling?
  {
    RunInv(cfg, steps);
    hide Waiters, Conserved, LiveCount;
    assert Waits(s.pool.workers[w], Asleep) == 1;
    var u := SomeWaiter(s.pool.workers, Asleep);
    var v := SomeWaiter(s.pool.workers, Woken);
  }

  lemma UsefulStep(cfg: Config, s: State) returns (step: Step)
    requires ValidConfig(cfg) && ControlOk(cfg, s) && SignalsOk(cfg, s) && !IsOver(s)
    ensures Enabled(cfg, s, step) && !IsIdlePoll(s, step) && !step.Spurious?
  {
    NoneLive(s.pool.workers);
    var workerTurn := s.pool.live != 0 && (s.consumer.CaughtJoining? || (s.queue.items == [] && (s.consumer.Polling? || s.consumer.ReadingLive?)));
    if workerTurn {
      var w := AwakeWorker(cfg, s);
      step := ByWorker(w, UsefulAct(s.pool.workers[w]));
    } else {
      step := ByConsumer(UsefulMove(s));
    }
  }

  function UsefulSteps(cfg: Config, steps: seq<Step>): nat {
    if steps == [] then 0
    else
      var front := steps[..|steps| - 1];
      UsefulSteps(cfg, front)
      + match Run(cfg, front)
        case None => 0
        case Some(s) => if IsIdlePoll(s, steps[|steps| - 1]) || steps[|steps| - 1].Spurious? then 0 else 1
  }

  function SpuriousSteps(steps: seq<Step>): nat {
    if steps == [] then 0 else SpuriousSteps(steps[..|steps| - 1]) + if steps[|steps| - 1].Spurious? then 1 else 0
  }

  /** Idle polls and spurious wake-ups apart, a run makes at most as many steps as the measure of its
      start, and three more for each spurious wake-up. */
  lemma {:induction false} RunIsBounded(cfg: Config, steps: seq<Step>)
    requires Run(cfg, steps).Some?
    ensures UsefulSteps(cfg, steps) + Measure(cfg, Run(cfg, steps).value) <= Measure(cfg, Init(cfg)) + 3 * SpuriousSteps(steps)
  {
    if steps != [] {
      var front := steps[..|steps| - 1];
      RunIsBounded(cfg, front);
      RunInv(cfg, front);
      StepDecreases(cfg, Run(cfg, front).value, steps[|steps| - 1]);
      hide Measure, Apply, Enabled, Inv;
    }
  }

  // ----- the queue object -----

  datatype PopStatus = Got | TimedOut | ClosedAndDrained

  /** The bounded hand-off. A method is one critical section: Push runs once its wait is over. */
  class BoundedRecordQueue {
    const cap: nat
    var items: seq<FileRecord>
    var closed: bool

    ghost function Contents(): Queue
      reads this
    {
      Queue(items, closed)
    }

    constructor (cap: nat)
      ensures this.cap == cap && Contents() == Queue([], false)
    {
      this.cap, items, closed := cap, [], false;
    }

    method Push(fr: FileRecord) returns (ok: bool)
      requires closed || |items| < cap
      modifies this`items
      ensures ok == !closed && Contents() == Pushed(old(Contents()), fr)
      ensures old(|items|) <= cap ==> |items| <= cap
    {
      if closed {
        return false;
      }
      items := items + [fr];
      return true;
    }

    method PopFor(none: FileRecord) returns (status: PopStatus, out: FileRecord)
      modifies this`items
      ensures status == if old(items) != [] then Got else if closed then ClosedAndDrained else TimedOut
      ensures status == Got ==> Contents() == Popped(old(Contents())) && out == old(items)[0]
      ensures status != Got ==> Contents() == old(Contents()) && out == none
    {
      out := none;
      if !(closed || items != []) {
        return TimedOut, out;
      }
      if items == [] {
        return ClosedAndDrained, out;
      }
      out := items[0];
      items := items[1..];
      status := Got;
    }

    method Close()
      modifies this`closed
      ensures closed
    {
      closed := true;
    }

    method Empty() returns (r: bool)
      ensures r == (items == [])
    {
      return items == [];
    }
  }
}

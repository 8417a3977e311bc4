// TaskPool of src/base/taskpool.hpp as a step system. One step is one critical
// section under the mutex (from acquiring it to waiting or leaving), a task's
// run, a spurious wake-up, or a new call of AddTask.

module TaskPool {
  import opened Bytes
  import opened RingQueues
  import opened Sets

  type Task = nat

  // What a thread that holds the mutex does next.
  datatype Outcome = Wait | Leave | Go

  function ProducerOutcome(stop: bool, len: nat, cap: nat): Outcome {
    if len == cap && !stop then Wait else if stop then Leave else Go
  }

  function WorkerOutcome(stop: bool, len: nat): Outcome {
    if len == 0 && !stop then Wait else if stop && len == 0 then Leave else Go
  }

  // The critical sections of AddTask and ThreadProc on the ring queue.
  class Monitor {
    var stop: bool
    const queue: RingQueue<Task>

    constructor (size: nat)
      requires size > 0
      ensures !stop && queue.Valid() && queue.contents == [] && queue.maxSize == size && fresh(queue) && fresh(queue.buf)
    {
      stop := false;
      queue := new RingQueue<Task>(size);
    }

    method AddTask(task: Task) returns (o: Outcome)
      requires queue.Valid()
      modifies queue, queue.buf
      ensures queue.Valid()
      ensures o == ProducerOutcome(stop, |old(queue.contents)|, queue.maxSize)
      ensures o.Leave? <==> stop
      ensures o.Wait? <==> !stop && |old(queue.contents)| == queue.maxSize
      ensures queue.contents == old(queue.contents) + if o.Go? then [task] else []
    {
      var full := queue.Full();
      if full && !stop {
        return Wait;
      }
      if stop {
        return Leave;
      }
      queue.Put(task);
      o := Go;
    }

    method ThreadProc() returns (o: Outcome, task: Option<Task>)
      requires queue.Valid()
      modifies queue
      ensures queue.Valid()
      ensures o == WorkerOutcome(stop, |old(queue.contents)|)
      ensures o.Leave? <==> stop && old(queue.contents) == []
      ensures o.Wait? <==> !stop && old(queue.contents) == []
      ensures o.Go? ==> task.Some? && old(queue.contents) == [task.value] + queue.contents
      ensures !o.Go? ==> queue.contents == old(queue.contents)
    {
      task := None;
      var empty := queue.Empty();
      if empty && !stop {
        return Wait, task;
      }
      if stop && empty {
        return Leave, task;
      }
      if !empty {
        var t := queue.Pop();
        task := Some(t);
      }
      o := Go;
    }
  }

  // Threads on their way to the mutex, waiting on the condition variable, and
  // notified but not yet running again.
  datatype Threads = Threads(ready: set<nat>, waiting: set<nat>, woken: set<nat>)

  datatype Shared = Shared(cap: nat, stop: bool, queue: seq<Task>)

  // Workers outside the mutex: the position of the task each one holds, in
  // dequeue order, and the workers that have returned.
  datatype Busy = Busy(running: map<nat, Option<nat>>, exited: set<nat>)

  datatype Log = Log(accepted: seq<Task>, dequeued: seq<Task>, executed: seq<Option<nat>>)

  datatype State = State(m: Shared, w: Threads, p: Threads, busy: Busy, pending: map<nat, Task>, log: Log)

  datatype Label =
    | Call(p: nat, task: Task)
    | Produce(p: nat, wake: Option<nat>)
    | Consume(w: nat, wake: Option<nat>)
    | Run(w: nat)
    | Stop
    | SpuriousWorker(w: nat)
    | SpuriousProducer(p: nat)

  function Removed(t: Threads, x: nat): Threads {
    Threads(t.ready - {x}, t.waiting, t.woken - {x})
  }

  function Slept(t: Threads, x: nat): Threads {
    Threads(t.ready - {x}, t.waiting + {x}, t.woken - {x})
  }

  function Woken(t: Threads, x: nat): Threads {
    Threads(t.ready, t.waiting - {x}, t.woken + {x})
  }

  // notify_one wakes one waiting thread, if there is one.
  predicate CanNotify(t: Threads, wake: Option<nat>) {
    if t.waiting == {} then wake.None? else wake.Some? && wake.value in t.waiting
  }

  function Notified(t: Threads, wake: Option<nat>): Threads {
    if wake.None? then t else Woken(t, wake.value)
  }

  function AllWoken(t: Threads): Threads {
    Threads(t.ready, {}, t.woken + t.waiting)
  }

  ghost predicate Produces(s: State, p: nat, wake: Option<nat>, s': State) {
    && p in s.p.ready + s.p.woken && p in s.pending
    && match ProducerOutcome(s.m.stop, |s.m.queue|, s.m.cap)
       case Wait => s' == s.(p := Slept(s.p, p))
       case Leave => s' == s.(p := Removed(s.p, p), pending := s.pending - {p})
       case Go =>
         && CanNotify(s.w, wake)
         && s' == State(s.m.(queue := s.m.queue + [s.pending[p]]), Notified(s.w, wake), Removed(s.p, p), s.busy,
                        s.pending - {p}, s.log.(accepted := s.log.accepted + [s.pending[p]]))
  }

  ghost predicate Consumes(s: State, w: nat, wake: Option<nat>, s': State) {
    && w in s.w.ready + s.w.woken
    && match WorkerOutcome(s.m.stop, |s.m.queue|)
       case Wait => s' == s.(w := Slept(s.w, w))
       case Leave => s' == s.(w := Removed(s.w, w), busy := s.busy.(exited := s.busy.exited + {w}))
       case Go =>
         && CanNotify(s.p, wake)
         && if s.m.queue == [] then
              s' == s.(w := Removed(s.w, w), p := Notified(s.p, wake), busy := s.busy.(running := s.busy.running[w := None]))
            else
              s' == State(s.m.(queue := s.m.queue[1..]), Removed(s.w, w), Notified(s.p, wake),
                          s.busy.(running := s.busy.running[w := Some(|s.log.dequeued|)]), s.pending,
                          s.log.(dequeued := s.log.dequeued + [s.m.queue[0]]))
  }

  // The task is called outside the mutex; afterwards the worker asks for the
  // mutex again.
  ghost predicate Runs(s: State, w: nat, s': State) {
    && w in s.busy.running
    && s' == s.(w := s.w.(ready := s.w.ready + {w}), busy := s.busy.(running := s.busy.running - {w}),
                log := s.log.(executed := s.log.executed + [s.busy.running[w]]))
  }

  ghost predicate Next(s: State, l: Label, s': State) {
    match l
    case Call(p, task) => p !in s.pending && s' == s.(p := s.p.(ready := s.p.ready + {p}), pending := s.pending[p := task])
    case Produce(p, wake) => Produces(s, p, wake, s')
    case Consume(w, wake) => Consumes(s, w, wake, s')
    case Run(w) => Runs(s, w, s')
    case Stop => s' == s.(m := s.m.(stop := true), w := AllWoken(s.w), p := AllWoken(s.p))
    case SpuriousWorker(w) => w in s.w.waiting && s' == s.(w := Woken(s.w, w))
    case SpuriousProducer(p) => p in s.p.waiting && s' == s.(p := Woken(s.p, p))
  }

  // ----- The invariant -----

  ghost predicate Apart(t: Threads, out: set<nat>) {
    && t.ready !! t.waiting && t.ready !! t.woken && t.waiting !! t.woken
    && out !! t.ready && out !! t.waiting && out !! t.woken
  }

  function All(t: Threads): set<nat> {
    t.ready + t.waiting + t.woken
  }

  // Every worker is in exactly one place.
  ghost predicate WorkersOk(w: Threads, busy: Busy, workers: set<nat>) {
    && Apart(w, busy.exited + busy.running.Keys) && busy.exited !! busy.running.Keys
    && All(w) + busy.exited + busy.running.Keys == workers
  }

  ghost predicate ProducersOk(p: Threads, pending: map<nat, Task>) {
    Apart(p, {}) && All(p) == pending.Keys
  }

  // Tasks leave the queue in the order they were accepted.
  ghost predicate QueueOk(m: Shared, log: Log) {
    |m.queue| <= m.cap && log.accepted == log.dequeued + m.queue
  }

  ghost predicate IsPosition(t: Option<nat>, log: Log) {
    t.Some? && t.value < |log.dequeued|
  }

  // No unset task is held or executed, and every dequeued position is held by
  // exactly one worker or has been executed exactly once, never both.
  ghost predicate RunsOk(busy: Busy, log: Log) {
    && (forall k :: k in busy.running ==> IsPosition(busy.running[k], log) && busy.running[k] !in log.executed)
    && (forall j, k :: j in busy.running && k in busy.running && j != k ==> busy.running[j] != busy.running[k])
    && (forall i :: 0 <= i < |log.executed| ==> IsPosition(log.executed[i], log))
    && (forall i, j :: 0 <= i < j < |log.executed| ==> log.executed[i] != log.executed[j])
    && (forall n: nat :: n < |log.dequeued| ==> Some(n) in log.executed || Held(busy, n))
  }

  ghost predicate Held(busy: Busy, n: nat) {
    exists k :: k in busy.running && busy.running[k] == Some(n)
  }

  // While a thread waits, the pool is not stopped and at least as many threads
  // have been notified as there are items for them.
  ghost predicate Wakes(stop: bool, items: int, t: Threads) {
    t.waiting != {} ==> !stop && items <= |t.woken|
  }

  // No wake-up is lost: workers wait for queued tasks, producers for free slots.
  ghost predicate WakeOk(m: Shared, w: Threads, p: Threads) {
    Wakes(m.stop, |m.queue|, w) && Wakes(m.stop, m.cap - |m.queue|, p)
  }

  ghost predicate ExitOk(m: Shared, busy: Busy) {
    busy.exited != {} ==> m.stop && m.queue == []
  }

  ghost predicate Inv(s: State, workers: set<nat>) {
    && WorkersOk(s.w, s.busy, workers) && ProducersOk(s.p, s.pending)
    && QueueOk(s.m, s.log) && RunsOk(s.busy, s.log) && WakeOk(s.m, s.w, s.p) && ExitOk(s.m, s.busy)
  }

  // ----- Every step keeps it -----

  lemma {:induction false} WorkerSleeps(w: Threads, busy: Busy, workers: set<nat>, x: nat)
    requires WorkersOk(w, busy, workers) && x in w.ready + w.woken
    ensures WorkersOk(Slept(w, x), busy, workers)
  {
    assert All(Slept(w, x)) == All(w);
  }

  lemma {:induction false} WorkerLeaves(w: Threads, busy: Busy, workers: set<nat>, x: nat, busy': Busy)
    requires WorkersOk(w, busy, workers) && x in w.ready + w.woken
    requires busy'.exited + busy'.running.Keys == busy.exited + busy.running.Keys + {x}
    requires busy'.exited !! busy'.running.Keys
    ensures WorkersOk(Removed(w, x), busy', workers)
  {
    assert All(Removed(w, x)) == All(w) - {x};
    assert All(Removed(w, x)) + busy'.exited + busy'.running.Keys ==
           All(Removed(w, x)) + (busy.exited + busy.running.Keys + {x});
    assert All(w) + busy.exited + busy.running.Keys == All(w) + (busy.exited + busy.running.Keys);
  }

  lemma {:induction false} WorkerReturns(w: Threads, busy: Busy, workers: set<nat>, x: nat)
    requires WorkersOk(w, busy, workers) && x in busy.running
    ensures WorkersOk(w.(ready := w.ready + {x}), busy.(running := busy.running - {x}), workers)
  {
    assert All(w.(ready := w.ready + {x})) == All(w) + {x};
    assert (busy.running - {x}).Keys == busy.running.Keys - {x};
  }

  lemma {:induction false} WorkerNotified(w: Threads, busy: Busy, workers: set<nat>, wake: Option<nat>)
    requires WorkersOk(w, busy, workers) && (wake.Some? ==> wake.value in w.waiting)
    ensures WorkersOk(Notified(w, wake), busy, workers)
  {
    assert All(Notified(w, wake)) == All(w);
  }

  lemma {:induction false} AllWorkersWake(w: Threads, busy: Busy, workers: set<nat>)
    requires WorkersOk(w, busy, workers)
    ensures WorkersOk(AllWoken(w), busy, workers)
  {
    assert All(AllWoken(w)) == All(w);
  }

  lemma {:induction false} ProducerSleeps(p: Threads, pending: map<nat, Task>, x: nat)
    requires ProducersOk(p, pending) && x in p.ready + p.woken
    ensures ProducersOk(Slept(p, x), pending)
  {
    assert All(Slept(p, x)) == All(p);
  }

  lemma {:induction false} ProducerLeaves(p: Threads, pending: map<nat, Task>, x: nat)
    requires ProducersOk(p, pending) && x in p.ready + p.woken
    ensures ProducersOk(Removed(p, x), pending - {x})
  {
    assert All(Removed(p, x)) == All(p) - {x};
    assert (pending - {x}).Keys == pending.Keys - {x};
  }

  lemma {:induction false} ProducerCalls(p: Threads, pending: map<nat, Task>, x: nat, task: Task)
    requires ProducersOk(p, pending) && x !in pending
    ensures ProducersOk(p.(ready := p.ready + {x}), pending[x := task])
  {
    assert All(p.(ready := p.ready + {x})) == All(p) + {x};
    assert pending[x := task].Keys == pending.Keys + {x};
  }

  lemma {:induction false} ProducerNotified(p: Threads, pending: map<nat, Task>, wake: Option<nat>)
    requires ProducersOk(p, pending) && (wake.Some? ==> wake.value in p.waiting)
    ensures ProducersOk(Notified(p, wake), pending)
  {
    assert All(Notified(p, wake)) == All(p);
  }

  lemma {:induction false} AllProducersWake(p: Threads, pending: map<nat, Task>)
    requires ProducersOk(p, pending)
    ensures ProducersOk(AllWoken(p), pending)
  {
    assert All(AllWoken(p)) == All(p);
  }

  lemma {:induction false} SleeperWakes(items: int, t: Threads, x: nat)
    requires items <= 0
    ensures Wakes(false, items, Slept(t, x))
  {
  }

  // A thread that goes in takes an item; a notification answers one more.
  lemma {:induction false} TakerWakes(stop: bool, items: int, t: Threads, x: nat)
    requires Wakes(stop, items, t)
    ensures Wakes(stop, items - 1, Removed(t, x))
    ensures stop ==> Wakes(stop, items, Removed(t, x))
  {
    if x in t.woken {
      assert |t.woken - {x}| == |t.woken| - 1;
    } else {
      assert t.woken - {x} == t.woken;
    }
  }

  lemma {:induction false} NotifiedWakes(stop: bool, items: int, t: Threads, wake: Option<nat>)
    requires Wakes(stop, items, t) && CanNotify(t, wake) && t.waiting !! t.woken
    ensures Wakes(stop, items + 1, Notified(t, wake))
  {
    if wake.Some? {
      assert |t.woken + {wake.value}| == |t.woken| + 1;
    }
  }

  lemma {:induction false} SpuriousWakes(stop: bool, items: int, t: Threads, x: nat)
    requires Wakes(stop, items, t) && x in t.waiting && t.waiting !! t.woken
    ensures Wakes(stop, items, Woken(t, x))
  {
    assert |t.woken + {x}| == |t.woken| + 1;
  }

  lemma {:induction false} ThreadsApart(s: State, workers: set<nat>)
    requires WorkersOk(s.w, s.busy, workers) && ProducersOk(s.p, s.pending)
    ensures s.w.waiting !! s.w.woken && s.w.ready !! s.w.woken && s.p.waiting !! s.p.woken
    ensures s.busy.running.Keys !! s.w.ready + s.w.woken
    ensures s.busy.exited !! s.w.ready + s.w.woken && s.busy.exited !! s.busy.running.Keys
  {
  }

  lemma {:induction false} ProduceKeeps(s: State, p: nat, wake: Option<nat>, s': State, workers: set<nat>)
    requires Inv(s, workers) && Produces(s, p, wake, s')
    ensures Inv(s', workers)
  {
    hide RunsOk, WorkersOk, ProducersOk, Wakes, Removed, Slept, Notified;
    var free := s.m.cap - |s.m.queue|;
    ThreadsApart(s, workers);
    match ProducerOutcome(s.m.stop, |s.m.queue|, s.m.cap)
    case Wait =>
      ProducerSleeps(s.p, s.pending, p);
      SleeperWakes(free, s.p, p);
    case Leave =>
      ProducerLeaves(s.p, s.pending, p);
      TakerWakes(s.m.stop, free, s.p, p);
    case Go =>
      ProducerLeaves(s.p, s.pending, p);
      TakerWakes(s.m.stop, free, s.p, p);
      WorkerNotified(s.w, s.busy, workers, wake);
      NotifiedWakes(s.m.stop, |s.m.queue|, s.w, wake);
      RunsIgnoreAccepted(s.busy, s.log, s'.log);
  }

  lemma {:induction false} RunsIgnoreAccepted(busy: Busy, log: Log, log': Log)
    requires RunsOk(busy, log) && log'.dequeued == log.dequeued && log'.executed == log.executed
    ensures RunsOk(busy, log')
  {
    assert forall t :: IsPosition(t, log) == IsPosition(t, log');
  }

  lemma {:induction false} ConsumeKeeps(s: State, w: nat, wake: Option<nat>, s': State, workers: set<nat>)
    requires Inv(s, workers) && Consumes(s, w, wake, s')
    ensures Inv(s', workers)
  {
    hide RunsOk, WorkersOk, ProducersOk, QueueOk, Wakes, Removed, Slept, Notified;
    ThreadsApart(s, workers);
    match WorkerOutcome(s.m.stop, |s.m.queue|)
    case Wait =>
      WorkerSleeps(s.w, s.busy, workers, w);
      SleeperWakes(0, s.w, w);
    case Leave =>
      WorkerLeaves(s.w, s.busy, workers, w, s'.busy);
      TakerWakes(s.m.stop, 0, s.w, w);
      RunsIgnoreExited(s.busy, s'.busy, s.log);
    case Go => TakeKeeps(s, w, wake, s', workers);
  }

  lemma {:induction false} TakeKeeps(s: State, w: nat, wake: Option<nat>, s': State, workers: set<nat>)
    requires Inv(s, workers) && Consumes(s, w, wake, s') && WorkerOutcome(s.m.stop, |s.m.queue|).Go?
    ensures Inv(s', workers)
  {
    hide RunsOk, WorkersOk, ProducersOk, QueueOk, WakeOk, ExitOk, Removed, Notified, Consumes, WorkerOutcome;
    TakeIs(s, w, wake, s');
    WorkerTakes(s.w, s.busy, workers, w, Some(|s.log.dequeued|));
    ProducerNotified(s.p, s.pending, wake);
    WakeTake(s, w, wake, s');
    QueueTake(s.m, s.log, s'.m, s'.log);
    RunsTake(s.busy, s.log, w, s'.busy, s'.log);
  }

  lemma {:induction false} TakeIs(s: State, w: nat, wake: Option<nat>, s': State)
    requires Consumes(s, w, wake, s') && WorkerOutcome(s.m.stop, |s.m.queue|).Go?
    ensures w in s.w.ready + s.w.woken && CanNotify(s.p, wake) && |s.m.queue| > 0
    ensures s'.m == s.m.(queue := s.m.queue[1..]) && |s'.m.queue| == |s.m.queue| - 1
    ensures s'.w == Removed(s.w, w) && s'.p == Notified(s.p, wake) && s'.pending == s.pending
    ensures s'.busy == s.busy.(running := s.busy.running[w := Some(|s.log.dequeued|)])
    ensures s'.log == s.log.(dequeued := s.log.dequeued + [s.m.queue[0]])
  {
  }

  lemma {:induction false} WorkerTakes(w: Threads, busy: Busy, workers: set<nat>, x: nat, task: Option<nat>)
    requires WorkersOk(w, busy, workers) && x in w.ready + w.woken
    ensures x !in busy.running && WorkersOk(Removed(w, x), busy.(running := busy.running[x := task]), workers)
  {
    var busy' := busy.(running := busy.running[x := task]);
    assert busy'.running.Keys == busy.running.Keys + {x};
    WorkerLeaves(w, busy, workers, x, busy');
  }

  // The item a worker takes makes room, and the producer it notifies answers it.
  lemma {:induction false} WakeTake(s: State, w: nat, wake: Option<nat>, s': State)
    requires ProducersOk(s.p, s.pending) && WakeOk(s.m, s.w, s.p) && ExitOk(s.m, s.busy) && CanNotify(s.p, wake) && |s.m.queue| > 0
    requires s'.m == s.m.(queue := s.m.queue[1..]) && s'.w == Removed(s.w, w) && s'.p == Notified(s.p, wake)
    requires s'.busy.exited == s.busy.exited
    ensures WakeOk(s'.m, s'.w, s'.p) && ExitOk(s'.m, s'.busy)
  {
    hide Wakes, Removed, Notified;
    TakerWakes(s.m.stop, |s.m.queue|, s.w, w);
    NotifiedWakes(s.m.stop, s.m.cap - |s.m.queue|, s.p, wake);
  }

  lemma {:induction false} QueueTake(m: Shared, log: Log, m': Shared, log': Log)
    requires QueueOk(m, log) && |m.queue| > 0 && m'.cap == m.cap && m'.queue == m.queue[1..]
    requires log'.accepted == log.accepted && log'.dequeued == log.dequeued + [m.queue[0]]
    ensures QueueOk(m', log')
  {
    assert log'.dequeued + m'.queue == log.dequeued + m.queue;
  }

  lemma {:induction false} RunsIgnoreExited(busy: Busy, busy': Busy, log: Log)
    requires RunsOk(busy, log) && busy'.running == busy.running
    ensures RunsOk(busy', log)
  {
    forall n: nat | n < |log.dequeued| && Held(busy, n)
      ensures Held(busy', n)
    {
    }
  }

  // A worker takes the next position.
  lemma {:induction false} RunsTake(busy: Busy, log: Log, w: nat, busy': Busy, log': Log)
    requires RunsOk(busy, log) && w !in busy.running
    requires busy'.running == busy.running[w := Some(|log.dequeued|)]
    requires |log'.dequeued| == |log.dequeued| + 1 && log'.executed == log.executed
    ensures RunsOk(busy', log')
  {
    var n := |log.dequeued|;
    assert Some(n) !in log.executed && forall k :: k in busy.running ==> busy.running[k] != Some(n);
    forall i: nat | i < n + 1
      ensures Some(i) in log'.executed || Held(busy', i)
    {
      if i < n && Held(busy, i) {
        var k :| k in busy.running && busy.running[k] == Some(i);
        assert k in busy'.running && busy'.running[k] == Some(i);
      } else if i == n {
        assert w in busy'.running && busy'.running[w] == Some(i);
      }
    }
  }

  lemma {:induction false} RunKeeps(s: State, w: nat, s': State, workers: set<nat>)
    requires Inv(s, workers) && Runs(s, w, s')
    ensures Inv(s', workers)
  {
    hide RunsOk, WorkersOk, ProducersOk;
    WorkerReturns(s.w, s.busy, workers, w);
    RunsFinish(s.busy, s.log, w, s'.busy, s'.log);
  }

  lemma {:induction false} RunsFinish(busy: Busy, log: Log, w: nat, busy': Busy, log': Log)
    requires RunsOk(busy, log) && w in busy.running && busy'.running == busy.running - {w}
    requires log'.dequeued == log.dequeued && log'.executed == log.executed + [busy.running[w]]
    ensures RunsOk(busy', log')
  {
    var e := log'.executed;
    assert forall t :: IsPosition(t, log) == IsPosition(t, log');
    forall n: nat | n < |log.dequeued|
      ensures Some(n) in e || Held(busy', n)
    {
      if Some(n) in log.executed {
      } else if busy.running[w] == Some(n) {
        assert e[|log.executed|] == Some(n);
      } else {
        var k :| k in busy.running && busy.running[k] == Some(n);
        assert k in busy'.running && busy'.running[k] == Some(n);
      }
    }
  }

  // Stopping leaves the queue alone.
  lemma {:induction false} QueueStops(m: Shared, log: Log)
    requires QueueOk(m, log)
    ensures QueueOk(m.(stop := true), log)
  {
  }

  lemma {:induction false} WakeUpKeeps(s: State, l: Label, s': State, workers: set<nat>)
    requires Inv(s, workers) && Next(s, l, s') && (l.Stop? || l.SpuriousWorker? || l.SpuriousProducer?)
    ensures Inv(s', workers)
  {
    hide RunsOk, QueueOk, WorkersOk, ProducersOk;
    ThreadsApart(s, workers);
    match l
    case Stop =>
      QueueStops(s.m, s.log);
      AllWorkersWake(s.w, s.busy, workers);
      AllProducersWake(s.p, s.pending);
    case SpuriousWorker(w) =>
      WorkerNotified(s.w, s.busy, workers, Some(w));
      SpuriousWakes(s.m.stop, |s.m.queue|, s.w, w);
    case SpuriousProducer(p) =>
      ProducerNotified(s.p, s.pending, Some(p));
      SpuriousWakes(s.m.stop, s.m.cap - |s.m.queue|, s.p, p);
  }

  lemma {:induction false} NextKeeps(s: State, l: Label, s': State, workers: set<nat>)
    requires Inv(s, workers) && Next(s, l, s')
    ensures Inv(s', workers) && s'.m.cap == s.m.cap
  {
    hide RunsOk, QueueOk, WorkersOk, ProducersOk;
    match l
    case Call(p, task) => ProducerCalls(s.p, s.pending, p, task);
    case Produce(p, wake) => ProduceKeeps(s, p, wake, s', workers);
    case Consume(w, wake) => ConsumeKeeps(s, w, wake, s', workers);
    case Run(w) => RunKeeps(s, w, s', workers);
    case _ => WakeUpKeeps(s, l, s', workers);
  }

  // ----- Whole runs -----

  predicate Init(s: State, workers: set<nat>) {
    && s.m.cap >= 1 && !s.m.stop && s.m.queue == [] && s.w == Threads(workers, {}, {}) && s.p == Threads({}, {}, {})
    && s.busy == Busy(map[], {}) && s.pending == map[] && s.log == Log([], [], [])
  }

  // Every pool of at least one slot has a first state.
  lemma CanStart(cap: nat, workers: set<nat>) returns (s: State)
    requires cap >= 1
    ensures Init(s, workers) && s.m.cap == cap
  {
    s := State(Shared(cap, false, []), Threads(workers, {}, {}), Threads({}, {}, {}), Busy(map[], {}), map[], Log([], [], []));
  }

  ghost predicate IsRun(run: seq<State>, labels: seq<Label>, workers: set<nat>) {
    && |run| == |labels| + 1 && Init(run[0], workers)
    && forall i :: 0 <= i < |labels| ==> Next(run[i], labels[i], run[i + 1])
  }

  lemma {:induction false} RunInv(run: seq<State>, labels: seq<Label>, workers: set<nat>, i: nat)
    requires IsRun(run, labels, workers) && i < |run|
    ensures Inv(run[i], workers)
  {
    if i == 0 {
      assert All(run[0].w) == workers;
    } else {
      RunInv(run, labels, workers, i - 1);
      hide Inv;
      assert Next(run[i - 1], labels[i - 1], run[i]);
      NextKeeps(run[i - 1], labels[i - 1], run[i], workers);
    }
  }

  // Position n of the accepted tasks was executed, once.
  ghost predicate ExecutedOnce(s: State, n: nat) {
    exists i :: 0 <= i < |s.log.executed| && s.log.executed[i] == Some(n) &&
      forall j :: 0 <= j < |s.log.executed| && s.log.executed[j] == Some(n) ==> j == i
  }

  // In every state of every run tasks leave in acceptance order, only accepted
  // tasks are called and none twice; once all workers have returned, every
  // accepted task has been executed exactly once.
  lemma {:induction false} RunSafe(run: seq<State>, labels: seq<Label>, workers: set<nat>, i: nat)
    requires IsRun(run, labels, workers) && i < |run|
    ensures var s := run[i];
      && s.log.dequeued <= s.log.accepted && s.log.accepted == s.log.dequeued + s.m.queue
      && (forall k :: k in s.busy.running ==> s.busy.running[k].Some? && s.busy.running[k].value < |s.log.accepted|)
      && (forall j :: 0 <= j < |s.log.executed| ==> s.log.executed[j].Some? && s.log.executed[j].value < |s.log.accepted|)
      && (forall j, k :: 0 <= j < k < |s.log.executed| ==> s.log.executed[j] != s.log.executed[k])
      && (workers != {} && s.busy.exited == workers ==>
            s.m.queue == [] && forall n: nat :: n < |s.log.accepted| ==> ExecutedOnce(s, n))
  {
    RunInv(run, labels, workers, i);
    if workers != {} && run[i].busy.exited == workers {
      forall n: nat | n < |run[i].log.accepted|
        ensures ExecutedOnce(run[i], n)
      {
        AllExecuted(run[i], workers, n);
      }
    }
  }

  lemma {:induction false} NobodyRuns(w: Threads, busy: Busy, workers: set<nat>)
    requires WorkersOk(w, busy, workers) && busy.exited == workers
    ensures forall k :: k !in busy.running
  {
  }

  lemma {:induction false} AllExecuted(s: State, workers: set<nat>, n: nat)
    requires Inv(s, workers) && workers != {} && s.busy.exited == workers && n < |s.log.accepted|
    ensures ExecutedOnce(s, n)
  {
    hide WorkersOk, ProducersOk, WakeOk;
    NobodyRuns(s.w, s.busy, workers);
    assert n < |s.log.dequeued| && !Held(s.busy, n);
    var i :| 0 <= i < |s.log.executed| && s.log.executed[i] == Some(n);
  }

  // ----- Calls -----

  // Step m is the last call of producer p before step n.
  ghost predicate LastCall(labels: seq<Label>, n: nat, p: nat, m: nat) {
    && m < n <= |labels| && labels[m].Call? && labels[m].p == p
    && forall j :: m < j < n && labels[j].Call? ==> labels[j].p != p
  }

  // The call of producer p that is under way: made at step m, with the task that
  // is pending, which has not been accepted.
  ghost predicate OpenCall(s: State, labels: seq<Label>, n: nat, from: seq<nat>, p: nat, m: nat) {
    LastCall(labels, n, p, m) && p in s.pending && s.pending[p] == labels[m].task && m !in from
  }

  // from[k] is the call whose task was accepted k-th. No call is accepted twice,
  // and until the pool is stopped every call is under way or accepted.
  ghost predicate Traced(s: State, labels: seq<Label>, n: nat, from: seq<nat>) {
    && n <= |labels| && |from| == |s.log.accepted|
    && (forall k {:trigger from[k]} :: 0 <= k < |from| ==>
          from[k] < n && labels[from[k]].Call? && labels[from[k]].task == s.log.accepted[k])
    && (forall j, k :: 0 <= j < k < |from| ==> from[j] != from[k])
    && (forall p :: p in s.pending ==> exists m: nat :: OpenCall(s, labels, n, from, p, m))
    && (!s.m.stop ==> forall m: nat :: m < n && labels[m].Call? ==> m in from || OpenCall(s, labels, n, from, labels[m].p, m))
    && (s.m.stop <==> exists m :: 0 <= m < n && labels[m].Stop?)
  }

  lemma {:induction false} TracedCall(s: State, labels: seq<Label>, n: nat, from: seq<nat>, s': State)
    requires Traced(s, labels, n, from) && n < |labels| && labels[n].Call? && Next(s, labels[n], s')
    ensures Traced(s', labels, n + 1, from)
  {
    var n' := n + 1;
    forall p | p in s'.pending
      ensures exists m: nat :: OpenCall(s', labels, n', from, p, m)
    {
      if p == labels[n].p {
        assert OpenCall(s', labels, n', from, p, n);
      } else {
        var m: nat :| OpenCall(s, labels, n, from, p, m);
        assert OpenCall(s', labels, n', from, p, m);
      }
    }
    if !s'.m.stop {
      forall m: nat | m < n' && labels[m].Call?
        ensures m in from || OpenCall(s', labels, n', from, labels[m].p, m)
      {
        assert m < n ==> m in from || OpenCall(s, labels, n, from, labels[m].p, m);
      }
    }
  }

  lemma {:induction false} TracedOther(s: State, labels: seq<Label>, n: nat, from: seq<nat>, s': State)
    requires Traced(s, labels, n, from) && n < |labels| && !labels[n].Call? && s'.log.accepted == s.log.accepted
    requires s'.m.stop == (s.m.stop || labels[n].Stop?)
    requires s'.pending.Keys <= s.pending.Keys && (forall p :: p in s'.pending ==> s'.pending[p] == s.pending[p])
    requires !s'.m.stop ==> s'.pending == s.pending
    ensures Traced(s', labels, n + 1, from)
  {
    var n' := n + 1;
    forall p | p in s'.pending
      ensures exists m: nat :: OpenCall(s', labels, n', from, p, m)
    {
      var m: nat :| OpenCall(s, labels, n, from, p, m);
      assert OpenCall(s', labels, n', from, p, m);
    }
    if !s'.m.stop {
      forall m: nat | m < n' && labels[m].Call?
        ensures m in from || OpenCall(s', labels, n', from, labels[m].p, m)
      {
        assert m in from || OpenCall(s, labels, n, from, labels[m].p, m);
      }
    }
  }

  lemma {:induction false} TracedAccept(s: State, labels: seq<Label>, n: nat, from: seq<nat>, p: nat, s': State) returns (from': seq<nat>)
    requires Traced(s, labels, n, from) && n < |labels| && labels[n].Produce? && p in s.pending
    requires s'.pending == s.pending - {p} && s'.m.stop == s.m.stop && s'.log.accepted == s.log.accepted + [s.pending[p]]
    ensures Traced(s', labels, n + 1, from')
  {
    var c: nat :| OpenCall(s, labels, n, from, p, c);
    from' := from + [c];
    var n' := n + 1;
    forall q | q in s'.pending
      ensures exists m: nat :: OpenCall(s', labels, n', from', q, m)
    {
      var m: nat :| OpenCall(s, labels, n, from, q, m);
      assert OpenCall(s', labels, n', from', q, m);
    }
    if !s'.m.stop {
      forall m: nat | m < n' && labels[m].Call?
        ensures m in from' || OpenCall(s', labels, n', from', labels[m].p, m)
      {
        assert m in from || OpenCall(s, labels, n, from, labels[m].p, m);
        assert from'[|from|] == c;
        if m in from {
          assert m in from';
        } else if labels[m].p == p {
          assert m == c;
        }
      }
    }
  }

  lemma {:induction false} TracedStep(s: State, labels: seq<Label>, n: nat, from: seq<nat>, s': State) returns (from': seq<nat>)
    requires Traced(s, labels, n, from) && n < |labels| && Next(s, labels[n], s')
    ensures Traced(s', labels, n + 1, from')
  {
    hide Traced, Consumes, Runs;
    from' := from;
    match labels[n]
    case Call(p, task) => TracedCall(s, labels, n, from, s');
    case Produce(p, wake) =>
      if s.m.stop || |s.m.queue| == s.m.cap {
        TracedOther(s, labels, n, from, s');
      } else {
        from' := TracedAccept(s, labels, n, from, p, s');
      }
    case Consume(w, wake) =>
      ConsumesNone(s, w, wake, s');
      TracedOther(s, labels, n, from, s');
    case Run(w) =>
      RunsNone(s, w, s');
      TracedOther(s, labels, n, from, s');
    case _ => TracedOther(s, labels, n, from, s');
  }

  // In every state of every run the accepted tasks are those of calls, each
  // call's at most once, and until the pool is stopped every called task is
  // pending or has been accepted.
  lemma {:induction false} RunAccepts(run: seq<State>, labels: seq<Label>, workers: set<nat>, i: nat) returns (from: seq<nat>)
    requires IsRun(run, labels, workers) && i < |run|
    ensures Traced(run[i], labels, i, from)
  {
    from := [];
    if i > 0 {
      hide Traced, Next;
      from := RunAccepts(run, labels, workers, i - 1);
      assert Next(run[i - 1], labels[i - 1], run[i]);
      from := TracedStep(run[i - 1], labels, i - 1, from, run[i]);
    }
  }

  lemma {:induction false} ConsumesNone(s: State, w: nat, wake: Option<nat>, s': State)
    requires Consumes(s, w, wake, s')
    ensures s'.log.accepted == s.log.accepted && s'.pending == s.pending && s'.m.stop == s.m.stop
  {
  }

  lemma {:induction false} RunsNone(s: State, w: nat, s': State)
    requires Runs(s, w, s')
    ensures s'.log.accepted == s.log.accepted && s'.pending == s.pending && s'.m.stop == s.m.stop
  {
  }

  // Once the pool is stopped nothing more is accepted.
  lemma {:induction false} StopRefuses(run: seq<State>, labels: seq<Label>, workers: set<nat>, a: nat, b: nat)
    requires IsRun(run, labels, workers) && a <= b < |run| && run[a].m.stop
    ensures run[b].m.stop && run[b].log.accepted == run[a].log.accepted
  {
    if a < b {
      StopRefuses(run, labels, workers, a, b - 1);
      assert Next(run[b - 1], labels[b - 1], run[b]);
    }
  }

  // ----- Progress -----

  lemma {:induction false} Enabled(t: Threads) returns (x: nat)
    requires t.ready + t.woken != {}
    ensures x in t.ready + t.woken
  {
    var u := t.ready + t.woken;
    HasMember(u);
    x :| x in u;
  }

  lemma {:induction false} Notification(t: Threads) returns (wake: Option<nat>)
    ensures CanNotify(t, wake)
  {
    wake := None;
    if t.waiting != {} {
      var u := t.waiting;
      HasMember(u);
      var x :| x in u;
      wake := Some(x);
    }
  }

  // A worker waits only while the others see to the queue, so a queued task is
  // never stuck: some worker can take a task or finish one.
  lemma {:induction false} QueueNotStuck(s: State, workers: set<nat>) returns (l: Label, s': State)
    requires Inv(s, workers) && workers != {} && s.m.queue != []
    ensures Next(s, l, s') && (l.Consume? || l.Run?)
    ensures |s'.log.dequeued| + |s'.log.executed| == |s.log.dequeued| + |s.log.executed| + 1
  {
    if s.w.ready + s.w.woken != {} {
      var w := Enabled(s.w);
      var wake := Notification(s.p);
      l := Consume(w, wake);
      s' := State(s.m.(queue := s.m.queue[1..]), Removed(s.w, w), Notified(s.p, wake),
                  s.busy.(running := s.busy.running[w := Some(|s.log.dequeued|)]), s.pending,
                  s.log.(dequeued := s.log.dequeued + [s.m.queue[0]]));
    } else {
      SomeoneRuns(s, workers);
      var r := s.busy.running.Keys;
      HasMember(r);
      var w :| w in r;
      l := Run(w);
      s' := s.(w := s.w.(ready := s.w.ready + {w}), busy := s.busy.(running := s.busy.running - {w}),
               log := s.log.(executed := s.log.executed + [s.busy.running[w]]));
    }
  }

  lemma {:induction false} SomeoneRuns(s: State, workers: set<nat>)
    requires Inv(s, workers) && workers != {} && s.w.ready + s.w.woken == {} && s.m.queue != []
    ensures s.busy.running.Keys != {}
  {
    hide RunsOk, ProducersOk, QueueOk;
    assert s.w.woken == {};
    assert All(s.w) == s.w.waiting;
  }

  // A producer does not wait while there is room unless another one has been
  // notified, and that one puts its task.
  lemma {:induction false} RoomNotStuck(s: State, workers: set<nat>) returns (l: Label, s': State)
    requires Inv(s, workers) && s.p.waiting != {} && |s.m.queue| < s.m.cap
    ensures l.Produce? && Next(s, l, s') && |s'.log.accepted| == |s.log.accepted| + 1
  {
    hide RunsOk, WorkersOk, QueueOk, Removed, Notified;
    assert s.p.woken != {};
    assert s.p.ready + s.p.woken != {};
    var p := Enabled(s.p);
    var wake := Notification(s.w);
    assert p in All(s.p);
    l := Produce(p, wake);
    s' := State(s.m.(queue := s.m.queue + [s.pending[p]]), Notified(s.w, wake), Removed(s.p, p), s.busy,
                s.pending - {p}, s.log.(accepted := s.log.accepted + [s.pending[p]]));
  }

  // In every state of every run: while a worker waits, no more tasks are queued
  // than workers have been notified, and while a producer waits, no more slots
  // are free than producers have been notified; so a queued task can always be
  // worked on, and a producer that waits beside a free slot has another before it.
  lemma {:induction false} RunNoLostWakeup(run: seq<State>, labels: seq<Label>, workers: set<nat>, i: nat)
    requires IsRun(run, labels, workers) && i < |run|
    ensures var s := run[i];
      && (s.w.waiting != {} ==> !s.m.stop && |s.m.queue| <= |s.w.woken|)
      && (s.p.waiting != {} ==> !s.m.stop && s.m.cap - |s.m.queue| <= |s.p.woken|)
    ensures workers != {} && run[i].m.queue != [] ==>
      exists l, s' :: Next(run[i], l, s') && (l.Consume? || l.Run?)
    ensures run[i].p.waiting != {} && |run[i].m.queue| < run[i].m.cap ==>
      exists l, s' :: Next(run[i], l, s') && l.Produce? && |s'.log.accepted| == |run[i].log.accepted| + 1
  {
    hide Next, RunsOk, WorkersOk, ProducersOk, QueueOk, ExitOk;
    RunInv(run, labels, workers, i);
    if workers != {} && run[i].m.queue != [] {
      var l, s' := QueueNotStuck(run[i], workers);
    }
    if run[i].p.waiting != {} && |run[i].m.queue| < run[i].m.cap {
      var l, s' := RoomNotStuck(run[i], workers);
    }
  }

  // Steps the workers still have to take once the pool is stopped.
  function Remaining(s: State): nat {
    2 * |s.m.queue| + 2 * |s.busy.running| + |s.w.ready| + |s.w.woken|
  }

  lemma {:induction false} RemovedCount(t: Threads, x: nat)
    requires x in t.ready + t.woken && t.ready !! t.woken
    ensures |Removed(t, x).ready| + |Removed(t, x).woken| == |t.ready| + |t.woken| - 1
  {
    if x in t.ready {
      assert t.woken - {x} == t.woken;
    } else {
      assert t.ready - {x} == t.ready;
    }
  }

  lemma {:induction false} ConsumeAdvances(s: State, w: nat, wake: Option<nat>, s': State, workers: set<nat>)
    requires Inv(s, workers) && Consumes(s, w, wake, s') && s.m.stop
    ensures s'.m.stop && Remaining(s') == Remaining(s) - 1
  {
    hide RunsOk, QueueOk, WakeOk, ProducersOk, WorkersOk, Removed;
    ThreadsApart(s, workers);
    RemovedCount(s.w, w);
    if s.m.queue != [] {
      assert w !in s.busy.running;
      assert s'.busy.running.Keys == s.busy.running.Keys + {w};
    }
  }

  lemma {:induction false} RunAdvances(s: State, w: nat, s': State, workers: set<nat>)
    requires Inv(s, workers) && Runs(s, w, s')
    ensures s'.m.stop == s.m.stop && Remaining(s') == Remaining(s) - 1
  {
    hide RunsOk, QueueOk, WakeOk, ProducersOk, WorkersOk;
    ThreadsApart(s, workers);
    assert s'.busy.running.Keys == s.busy.running.Keys - {w};
    assert w !in s.w.ready;
  }

  // After Stop every worker step brings the shutdown nearer and no other step
  // sets it back, ...
  lemma {:induction false} ShutdownAdvances(s: State, l: Label, s': State, workers: set<nat>)
    requires Inv(s, workers) && Next(s, l, s') && s.m.stop
    ensures s'.m.stop
    ensures if l.Consume? || l.Run? then Remaining(s') == Remaining(s) - 1 else Remaining(s') == Remaining(s)
  {
    hide RunsOk, QueueOk, ProducersOk, WorkersOk, ExitOk, Consumes, Runs;
    match l
    case Consume(w, wake) => ConsumeAdvances(s, w, wake, s', workers);
    case Run(w) => RunAdvances(s, w, s', workers);
    case Produce(p, wake) =>
    case Stop => assert AllWoken(s.w).woken == s.w.woken;
    case _ =>
  }

  // ... and as long as a worker has not returned, one of them can take a step.
  lemma {:induction false} ShutdownNotStuck(s: State, workers: set<nat>) returns (l: Label, s': State)
    requires Inv(s, workers) && s.m.stop && s.busy.exited != workers
    ensures Next(s, l, s') && (l.Consume? || l.Run?)
  {
    assert s.w.waiting == {};
    if s.w.ready + s.w.woken != {} {
      var w := Enabled(s.w);
      if s.m.queue == [] {
        l := Consume(w, None);
        s' := s.(w := Removed(s.w, w), busy := s.busy.(exited := s.busy.exited + {w}));
      } else {
        l, s' := QueueNotStuck(s, workers);
      }
    } else {
      assert All(s.w) == {};
      assert s.busy.exited + s.busy.running.Keys == workers;
      assert s.busy.running.Keys != {};
      var r := s.busy.running.Keys;
      HasMember(r);
      var w :| w in r;
      l := Run(w);
      s' := s.(w := s.w.(ready := s.w.ready + {w}), busy := s.busy.(running := s.busy.running - {w}),
               log := s.log.(executed := s.log.executed + [s.busy.running[w]]));
    }
  }

  function WorkerSteps(labels: seq<Label>, a: nat, b: nat): nat
    requires a <= b <= |labels|
  {
    if a == b then 0 else WorkerSteps(labels, a, b - 1) + if labels[b - 1].Consume? || labels[b - 1].Run? then 1 else 0
  }

  // From the state in which a run is stopped on, the workers take exactly
  // Remaining steps and then all of them have returned, so Stop's joins end.
  lemma {:induction false} ShutdownBound(run: seq<State>, labels: seq<Label>, workers: set<nat>, a: nat, b: nat)
    requires IsRun(run, labels, workers) && workers != {} && a <= b < |run| && run[a].m.stop
    ensures run[b].m.stop && WorkerSteps(labels, a, b) + Remaining(run[b]) == Remaining(run[a])
    ensures WorkerSteps(labels, a, b) == Remaining(run[a]) <==> run[b].busy.exited == workers
  {
    hide Inv, Next, Remaining;
    RunInv(run, labels, workers, b);
    if a < b {
      ShutdownBound(run, labels, workers, a, b - 1);
      RunInv(run, labels, workers, b - 1);
      assert Next(run[b - 1], labels[b - 1], run[b]);
      ShutdownAdvances(run[b - 1], labels[b - 1], run[b], workers);
    }
    ShutdownDone(run[b], workers);
  }

  lemma {:induction false} ShutdownDone(s: State, workers: set<nat>)
    requires Inv(s, workers) && s.m.stop
    ensures Remaining(s) == 0 <==> s.busy.exited == workers && |s.m.queue| == 0
    ensures s.busy.exited == workers && workers != {} ==> |s.m.queue| == 0
  {
    hide RunsOk, ProducersOk;
    if Remaining(s) == 0 {
      assert s.w.ready == {} && s.w.woken == {} && s.busy.running.Keys == {};
      assert s.busy.exited == workers;
    }
  }
}

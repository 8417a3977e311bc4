// AddTable and DeleteTable of src/catalog/tablet_catalog.cc as a step system:
// load the shared map, copy and change it, publish the copy with a weak
// compare-and-swap, start over if that fails. Addresses of maps that nobody
// holds any more may be used again.

module TableCas {

  type Ptr = nat
  type Tables = map<nat, nat>

  datatype Op = Add(pid: nat, table: nat) | Delete(pid: nat)

  // emplace keeps an existing entry; erase of a missing one changes nothing.
  function Apply(op: Op, m: Tables): Tables {
    match op
    case Add(pid, table) => if pid in m then m else m[pid := table]
    case Delete(pid) => m - {pid}
  }

  function Replay(init: Tables, ops: seq<Op>): Tables {
    if ops == [] then init else Apply(ops[|ops| - 1], Replay(init, ops[..|ops| - 1]))
  }

  // Where a call is. `called`, `since` and `at` are history: how many operations
  // had taken effect when the call was made and when the map was loaded, and
  // which one this call's was.
  datatype Thread =
    | Idle
    | Start(op: Op, called: nat)
    | Loaded(op: Op, called: nat, oldMap: Ptr, since: nat)
    | Copied(op: Op, called: nat, oldMap: Ptr, newMap: Ptr, since: nat)
    | Swapped(op: Op, called: nat, newMap: Ptr, at: nat)

  // A returned call: whose it was, its operation, which one that was, and the
  // size it saw.
  datatype Returned = Returned(t: nat, op: Op, called: nat, at: nat, size: nat)

  datatype State = State(heap: map<Ptr, Tables>, tables: Ptr, threads: map<nat, Thread>, log: seq<Op>, returned: seq<Returned>)

  datatype Label =
    | Call(t: nat, op: Op)
    | Load(t: nat)
    | Copy(t: nat, p: Ptr)
    | Cas(t: nat, spurious: bool)
    | Return(t: nat)

  function Holds(t: Thread): set<Ptr> {
    match t
    case Idle => {}
    case Start(_, _) => {}
    case Loaded(_, _, o, _) => {o}
    case Copied(_, _, o, n, _) => {o, n}
    case Swapped(_, _, n, _) => {n}
  }

  ghost predicate Reachable(s: State, p: Ptr) {
    p == s.tables || exists t :: t in s.threads && p in Holds(s.threads[t])
  }

  ghost predicate Next(s: State, l: Label, s': State) {
    l.t in s.threads &&
    var th := s.threads[l.t];
    match l
    case Call(t, op) => th.Idle? && s' == s.(threads := s.threads[t := Start(op, |s.log|)])
    case Load(t) => th.Start? && s' == s.(threads := s.threads[t := Loaded(th.op, th.called, s.tables, |s.log|)])
    case Copy(t, p) =>
      && th.Loaded? && !Reachable(s, p) && th.oldMap in s.heap
      && s' == s.(heap := s.heap[p := Apply(th.op, s.heap[th.oldMap])],
                  threads := s.threads[t := Copied(th.op, th.called, th.oldMap, p, th.since)])
    case Cas(t, spurious) =>
      && th.Copied?
      && if s.tables == th.oldMap && !spurious then
           s' == s.(tables := th.newMap, log := s.log + [th.op], threads := s.threads[t := Swapped(th.op, th.called, th.newMap, |s.log|)])
         else
           s' == s.(threads := s.threads[t := Start(th.op, th.called)])
    case Return(t) =>
      && th.Swapped? && th.newMap in s.heap
      && s' == s.(threads := s.threads[t := Idle], returned := s.returned + [Returned(t, th.op, th.called, th.at, |s.heap[th.newMap]|)])
  }

  // ----- The invariant -----

  // A loaded map is the shared one exactly while nothing has taken effect since.
  ghost predicate ThreadOk(s: State, init: Tables, t: nat)
    requires t in s.threads
  {
    match s.threads[t]
    case Idle => true
    case Start(_, called) => called <= |s.log|
    case Loaded(_, called, o, since) => o in s.heap && called <= since <= |s.log| && (o == s.tables <==> since == |s.log|)
    case Copied(op, called, o, n, since) =>
      && o in s.heap && n in s.heap && called <= since <= |s.log| && (o == s.tables <==> since == |s.log|)
      && n != s.tables && n != o && s.heap[n] == Apply(op, s.heap[o])
    case Swapped(op, called, n, at) =>
      n in s.heap && called <= at < |s.log| && s.log[at] == op && s.heap[n] == Replay(init, s.log[..at + 1])
  }

  // A copy is private until it is published.
  ghost predicate Private(s: State, t: nat, u: nat)
    requires t in s.threads && u in s.threads
  {
    s.threads[t].Copied? && t != u ==> s.threads[t].newMap !in Holds(s.threads[u])
  }

  // Every operation that took effect belongs to one call, still running or
  // returned with the size right after it.
  ghost predicate CallsOk(s: State, init: Tables) {
    && (forall t, u :: t in s.threads && u in s.threads && t != u && s.threads[t].Swapped? && s.threads[u].Swapped? ==>
          s.threads[t].at != s.threads[u].at)
    && (forall i :: 0 <= i < |s.returned| ==> ReturnOk(s, init, s.returned[i]))
    && (forall i, j :: 0 <= i < j < |s.returned| ==> s.returned[i].at != s.returned[j].at)
    && (forall t, i :: t in s.threads && s.threads[t].Swapped? && 0 <= i < |s.returned| ==> s.threads[t].at != s.returned[i].at)
    && (forall k :: 0 <= k < |s.log| ==> Accounted(s, k))
  }

  ghost predicate ReturnOk(s: State, init: Tables, r: Returned) {
    r.called <= r.at < |s.log| && s.log[r.at] == r.op && r.size == |Replay(init, s.log[..r.at + 1])|
  }

  ghost predicate Accounted(s: State, k: nat) {
    || (exists t :: t in s.threads && s.threads[t].Swapped? && s.threads[t].at == k)
    || (exists i :: 0 <= i < |s.returned| && s.returned[i].at == k)
  }

  ghost predicate Inv(s: State, init: Tables) {
    && s.tables in s.heap && s.heap[s.tables] == Replay(init, s.log)
    && (forall t :: t in s.threads ==> ThreadOk(s, init, t))
    && (forall t, u :: t in s.threads && u in s.threads ==> Private(s, t, u))
    && CallsOk(s, init)
  }

  // ----- Every step keeps it -----

  // A call that starts, loads or has to start over.
  lemma {:induction false} OtherStepKeeps(s: State, init: Tables, t: nat, th: Thread, s': State)
    requires Inv(s, init) && t in s.threads && !s.threads[t].Swapped? && (th.Start? || th.Loaded?)
    requires s' == s.(threads := s.threads[t := th]) && ThreadOk(s', init, t)
    requires Holds(th) <= {s.tables}
    ensures Inv(s', init)
  {
    hide Replay;
    forall u | u in s'.threads
      ensures ThreadOk(s', init, u)
    {
      assert u != t ==> ThreadOk(s, init, u);
    }
    forall u, v | u in s'.threads && v in s'.threads
      ensures Private(s', u, v)
    {
      assert u != t && v != t ==> Private(s, u, v);
      assert u != t ==> ThreadOk(s, init, u);
    }
    CallsSame(s, init, s');
  }

  // Calls are accounted for as long as the same ones are between swap and return.
  lemma {:induction false} CallsSame(s: State, init: Tables, s': State)
    requires CallsOk(s, init) && s'.log == s.log && s'.returned == s.returned && s'.threads.Keys == s.threads.Keys
    requires forall u :: u in s.threads ==>
      if s.threads[u].Swapped? then s'.threads[u] == s.threads[u] else !s'.threads[u].Swapped?
    ensures CallsOk(s', init)
  {
    hide Replay;
    forall i | 0 <= i < |s.returned|
      ensures ReturnOk(s', init, s.returned[i])
    {
      assert ReturnOk(s, init, s.returned[i]);
    }
    forall k | 0 <= k < |s.log|
      ensures Accounted(s', k)
    {
      assert Accounted(s, k);
      if t :| t in s.threads && s.threads[t].Swapped? && s.threads[t].at == k {
        assert t in s'.threads && s'.threads[t].at == k;
      }
    }
  }

  lemma {:induction false} CopyKeeps(s: State, init: Tables, t: nat, p: Ptr, s': State)
    requires Inv(s, init) && Next(s, Copy(t, p), s')
    ensures Inv(s', init)
  {
    hide Replay, Apply, CallsOk;
    forall u | u in s'.threads
      ensures ThreadOk(s', init, u)
    {
      assert ThreadOk(s, init, u);
      assert p !in Holds(s.threads[u]);
    }
    forall u, v | u in s'.threads && v in s'.threads
      ensures Private(s', u, v)
    {
      assert Private(s, u, v) && p !in Holds(s.threads[u]) && p !in Holds(s.threads[v]);
    }
    CallsSame(s, init, s');
  }

  lemma {:induction false} ReplayOne(init: Tables, ops: seq<Op>, op: Op)
    ensures Replay(init, ops + [op]) == Apply(op, Replay(init, ops))
  {
    assert (ops + [op])[..|ops|] == ops;
  }

  lemma {:induction false} SwapThreads(s: State, init: Tables, t: nat, s': State)
    requires Inv(s, init) && Next(s, Cas(t, false), s') && s.tables == s.threads[t].oldMap
    ensures s'.heap[s'.tables] == Replay(init, s'.log)
    ensures forall u :: u in s'.threads ==> ThreadOk(s', init, u)
  {
    hide Replay, Apply;
    var th := s.threads[t];
    assert ThreadOk(s, init, t);
    ReplayOne(init, s.log, th.op);
    assert s'.log[..|s.log| + 1] == s'.log;
    forall u | u in s'.threads
      ensures ThreadOk(s', init, u)
    {
      assert ThreadOk(s, init, u) && Private(s, t, u);
      if u != t && s.threads[u].Swapped? {
        assert s'.log[..s.threads[u].at + 1] == s.log[..s.threads[u].at + 1];
      }
    }
  }

  lemma {:induction false} SwapKeeps(s: State, init: Tables, t: nat, s': State)
    requires Inv(s, init) && Next(s, Cas(t, false), s') && s.tables == s.threads[t].oldMap
    ensures Inv(s', init)
  {
    hide Replay, Apply, ThreadOk;
    SwapThreads(s, init, t, s');
    SwapInHeap(s, init, t);
    forall u, v | u in s'.threads && v in s'.threads
      ensures Private(s', u, v)
    {
      assert Private(s, u, v) && Private(s, u, t);
    }
    SwapCalls(s, init, t, s');
  }

  lemma {:induction false} SwapInHeap(s: State, init: Tables, t: nat)
    requires t in s.threads && s.threads[t].Copied? && ThreadOk(s, init, t)
    ensures s.threads[t].newMap in s.heap
  {
  }

  lemma {:induction false} SwapCalls(s: State, init: Tables, t: nat, s': State)
    requires CallsOk(s, init) && (forall u :: u in s.threads ==> ThreadOk(s, init, u))
    requires t in s.threads && s.threads[t].Copied? && s'.returned == s.returned && s'.log == s.log + [s.threads[t].op]
    requires exists n :: s'.threads == s.threads[t := Swapped(s.threads[t].op, s.threads[t].called, n, |s.log|)]
    ensures CallsOk(s', init)
  {
    hide Replay, Apply;
    forall i | 0 <= i < |s.returned|
      ensures ReturnOk(s', init, s.returned[i])
    {
      assert ReturnOk(s, init, s.returned[i]);
      assert s'.log[..s.returned[i].at + 1] == s.log[..s.returned[i].at + 1];
    }
    forall u | u in s.threads && s.threads[u].Swapped?
      ensures s.threads[u].at < |s.log|
    {
      assert ThreadOk(s, init, u);
    }
    forall k | 0 <= k < |s'.log|
      ensures Accounted(s', k)
    {
      if k == |s.log| {
        assert t in s'.threads && s'.threads[t].at == k;
      } else {
        assert Accounted(s, k);
        if u :| u in s.threads && s.threads[u].Swapped? && s.threads[u].at == k {
          assert u in s'.threads && s'.threads[u].at == k;
        }
      }
    }
  }

  lemma {:induction false} ReturnKeeps(s: State, init: Tables, t: nat, s': State)
    requires Inv(s, init) && Next(s, Return(t), s')
    ensures Inv(s', init)
  {
    hide Replay, Apply, CallsOk;
    forall u | u in s'.threads
      ensures ThreadOk(s', init, u)
    {
      assert ThreadOk(s, init, u);
    }
    forall u, v | u in s'.threads && v in s'.threads
      ensures Private(s', u, v)
    {
      assert Private(s, u, v);
    }
    assert ThreadOk(s, init, t);
    ReturnCalls(s, init, t, |s.heap[s.threads[t].newMap]|, s');
  }

  lemma {:induction false} ReturnCalls(s: State, init: Tables, t: nat, size: nat, s': State)
    requires CallsOk(s, init) && t in s.threads && s.threads[t].Swapped?
    requires s.threads[t].called <= s.threads[t].at < |s.log| && s.log[s.threads[t].at] == s.threads[t].op
    requires size == |Replay(init, s.log[..s.threads[t].at + 1])|
    requires s'.log == s.log && s'.threads == s.threads[t := Idle]
    requires s'.returned == s.returned + [Returned(t, s.threads[t].op, s.threads[t].called, s.threads[t].at, size)]
    ensures CallsOk(s', init)
  {
    hide Replay;
    forall i | 0 <= i < |s'.returned|
      ensures ReturnOk(s', init, s'.returned[i])
    {
      assert i < |s.returned| ==> ReturnOk(s, init, s.returned[i]);
    }
    forall k | 0 <= k < |s.log|
      ensures Accounted(s', k)
    {
      assert Accounted(s, k);
      if u :| u in s.threads && s.threads[u].Swapped? && s.threads[u].at == k {
        if u == t {
          assert s'.returned[|s.returned|].at == k;
        } else {
          assert u in s'.threads && s'.threads[u].at == k;
        }
      } else {
        var i :| 0 <= i < |s.returned| && s.returned[i].at == k;
        assert s'.returned[i].at == k;
      }
    }
  }

  lemma {:induction false} NextKeeps(s: State, l: Label, s': State, init: Tables)
    requires Inv(s, init) && Next(s, l, s')
    ensures Inv(s', init)
  {
    hide Inv, Replay, Apply, Reachable;
    match l
    case Call(t, op) => OtherStepKeeps(s, init, t, Start(op, |s.log|), s');
    case Load(t) =>
      TablesInHeap(s, init, t);
      OtherStepKeeps(s, init, t, s'.threads[t], s');
    case Copy(t, p) => CopyKeeps(s, init, t, p, s');
    case Cas(t, spurious) =>
      if s.tables == s.threads[t].oldMap && !spurious {
        SwapKeeps(s, init, t, s');
      } else {
        TablesInHeap(s, init, t);
        OtherStepKeeps(s, init, t, s'.threads[t], s');
      }
    case Return(t) => ReturnKeeps(s, init, t, s');
  }

  lemma {:induction false} TablesInHeap(s: State, init: Tables, t: nat)
    requires Inv(s, init) && t in s.threads
    ensures s.tables in s.heap && ThreadOk(s, init, t)
  {
  }

  // ----- Whole runs -----

  ghost predicate Init(s: State, init: Tables) {
    && s.tables in s.heap && s.heap[s.tables] == init && s.log == [] && s.returned == []
    && forall t :: t in s.threads ==> s.threads[t].Idle?
  }

  ghost predicate IsRun(run: seq<State>, labels: seq<Label>, init: Tables) {
    && |run| == |labels| + 1 && Init(run[0], init)
    && forall i :: 0 <= i < |labels| ==> Next(run[i], labels[i], run[i + 1])
  }

  lemma {:induction false} RunInv(run: seq<State>, labels: seq<Label>, init: Tables, i: nat)
    requires IsRun(run, labels, init) && i < |run|
    ensures Inv(run[i], init)
  {
    if i > 0 {
      RunInv(run, labels, init, i - 1);
      hide Inv;
      assert Next(run[i - 1], labels[i - 1], run[i]);
      NextKeeps(run[i - 1], labels[i - 1], run[i], init);
    }
  }

  // Step m is the last call of thread t before step n.
  ghost predicate LastCall(labels: seq<Label>, n: nat, t: nat, m: nat) {
    && m < n <= |labels| && labels[m].Call? && labels[m].t == t
    && forall j :: m < j < n && labels[j].Call? ==> labels[j].t != t
  }

  // The call thread t is in was made at step m, with the operation it works on,
  // and that has taken effect exactly if the thread has swapped.
  ghost predicate InCall(th: Thread, labels: seq<Label>, n: nat, from: seq<nat>, t: nat, m: nat)
    requires !th.Idle?
  {
    && LastCall(labels, n, t, m) && labels[m].op == th.op
    && if th.Swapped? then th.at < |from| && from[th.at] == m else m !in from
  }

  // from[k] is the call whose operation took effect k-th. No call takes effect
  // twice, and every call has taken effect or is under way.
  ghost predicate Traced(s: State, labels: seq<Label>, n: nat, from: seq<nat>) {
    && n <= |labels| && |from| == |s.log|
    && (forall k {:trigger from[k]} :: 0 <= k < |from| ==> from[k] < n && labels[from[k]].Call? && labels[from[k]].op == s.log[k])
    && (forall j, k :: 0 <= j < k < |from| ==> from[j] != from[k])
    && (forall t :: t in s.threads && !s.threads[t].Idle? ==> exists m: nat :: InCall(s.threads[t], labels, n, from, t, m))
    && (forall j :: 0 <= j < |s.returned| ==>
          var r := s.returned[j]; r.at < |from| && labels[from[r.at]] == Call(r.t, r.op))
    && (forall m: nat :: m < n && labels[m].Call? ==> m in from || Pending(s, labels, n, m))
  }

  ghost predicate Pending(s: State, labels: seq<Label>, n: nat, m: nat)
    requires m < |labels| && labels[m].Call?
  {
    var t := labels[m].t;
    LastCall(labels, n, t, m) && t in s.threads && !s.threads[t].Idle? && !s.threads[t].Swapped?
  }

  // A step after which the same calls have taken effect.
  lemma {:induction false} TracedOther(s: State, labels: seq<Label>, n: nat, from: seq<nat>, s': State)
    requires Traced(s, labels, n, from) && n < |labels| && Next(s, labels[n], s') && s'.log == s.log
    ensures Traced(s', labels, n + 1, from)
  {
    hide Apply, Reachable;
    var n', t0 := n + 1, labels[n].t;
    forall t | t in s'.threads && !s'.threads[t].Idle?
      ensures exists m: nat :: InCall(s'.threads[t], labels, n', from, t, m)
    {
      if labels[n].Call? && t == t0 {
        assert InCall(s'.threads[t], labels, n', from, t, n);
      } else {
        var m: nat :| InCall(s.threads[t], labels, n, from, t, m);
        assert InCall(s'.threads[t], labels, n', from, t, m);
      }
    }
    if labels[n].Return? {
      var m: nat :| InCall(s.threads[t0], labels, n, from, t0, m);
    }
    forall m: nat | m < n' && labels[m].Call?
      ensures m in from || Pending(s', labels, n', m)
    {
      assert m < n ==> m in from || Pending(s, labels, n, m);
    }
  }

  lemma {:induction false} TracedSwap(s: State, labels: seq<Label>, n: nat, from: seq<nat>, t: nat, s': State) returns (from': seq<nat>)
    requires Traced(s, labels, n, from) && n < |labels| && labels[n] == Cas(t, false) && Next(s, labels[n], s') && s.tables == s.threads[t].oldMap
    ensures Traced(s', labels, n + 1, from')
  {
    var n' := n + 1;
    var c: nat :| InCall(s.threads[t], labels, n, from, t, c);
    from' := from + [c];
    forall u | u in s'.threads && !s'.threads[u].Idle?
      ensures exists m: nat :: InCall(s'.threads[u], labels, n', from', u, m)
    {
      if u == t {
        assert InCall(s'.threads[u], labels, n', from', u, c);
      } else {
        var m: nat :| InCall(s.threads[u], labels, n, from, u, m);
        assert InCall(s'.threads[u], labels, n', from', u, m);
      }
    }
    forall m: nat | m < n' && labels[m].Call?
      ensures m in from' || Pending(s', labels, n', m)
    {
      assert m in from || Pending(s, labels, n, m);
      assert from'[|from|] == c;
      if m in from {
        assert m in from';
      } else if labels[m].t == t {
        assert m == c;
      }
    }
  }

  lemma {:induction false} RunTraced(run: seq<State>, labels: seq<Label>, init: Tables, i: nat) returns (from: seq<nat>)
    requires IsRun(run, labels, init) && i < |run|
    ensures Traced(run[i], labels, i, from)
  {
    from := [];
    if i > 0 {
      hide Traced, Apply, Reachable;
      from := RunTraced(run, labels, init, i - 1);
      var s, l, s' := run[i - 1], labels[i - 1], run[i];
      assert Next(s, l, s');
      if l.Cas? && !l.spurious && s.tables == s.threads[l.t].oldMap {
        from := TracedSwap(s, labels, i - 1, from, l.t, s');
      } else {
        TracedOther(s, labels, i - 1, from, s');
      }
    }
  }

  // In every state of every run the shared map is the effect of the operations
  // in the order of their swaps. Each of them is the operation of exactly one
  // call of the run, which has swapped or returned, and every other call is
  // under way. A call returns the size right after its own operation.
  lemma {:induction false} RunLinearizes(run: seq<State>, labels: seq<Label>, init: Tables, i: nat) returns (from: seq<nat>)
    requires IsRun(run, labels, init) && i < |run|
    ensures Traced(run[i], labels, i, from)
    ensures var s := run[i];
      && s.tables in s.heap && s.heap[s.tables] == Replay(init, s.log)
      && (forall k :: 0 <= k < |s.log| ==> Accounted(s, k))
      && (forall j :: 0 <= j < |s.returned| ==>
            var r := s.returned[j];
            r.at < |s.log| && s.log[r.at] == r.op && r.size == |Replay(init, s.log[..r.at + 1])|)
      && (forall t :: t in s.threads && s.threads[t].Swapped? ==> s.threads[t].at < |s.log| && s.log[s.threads[t].at] == s.threads[t].op)
      && (forall j, k :: 0 <= j < k < |s.returned| ==> s.returned[j].at != s.returned[k].at)
      && (forall t, u :: t in s.threads && u in s.threads && t != u && s.threads[t].Swapped? && s.threads[u].Swapped? ==>
            s.threads[t].at != s.threads[u].at)
      && (forall t, j :: t in s.threads && s.threads[t].Swapped? && 0 <= j < |s.returned| ==> s.threads[t].at != s.returned[j].at)
  {
    hide Replay, Traced;
    from := RunTraced(run, labels, init, i);
    RunInv(run, labels, init, i);
    forall t | t in run[i].threads && run[i].threads[t].Swapped?
      ensures run[i].threads[t].at < |run[i].log| && run[i].log[run[i].threads[t].at] == run[i].threads[t].op
    {
      assert ThreadOk(run[i], init, t);
    }
    forall j | 0 <= j < |run[i].returned|
      ensures ReturnOk(run[i], init, run[i].returned[j])
    {
    }
  }

  // The calls of thread t that are running or have returned since step m were
  // made when at least the operations logged by then had taken effect.
  ghost predicate MadeSince(from: State, s: State, t: nat) {
    && t in s.threads && (s.threads[t].Idle? || s.threads[t].called >= |from.log|)
    && |from.log| <= |s.log| && |from.returned| <= |s.returned|
    && forall k :: |from.returned| <= k < |s.returned| && s.returned[k].t == t ==> s.returned[k].called >= |from.log|
  }

  lemma {:induction false} CalledSince(run: seq<State>, labels: seq<Label>, init: Tables, m: nat, n: nat, t: nat)
    requires IsRun(run, labels, init) && m < n < |run| && labels[m].Call? && labels[m].t == t
    ensures MadeSince(run[m], run[n], t)
    decreases n
  {
    hide Reachable, Apply;
    assert Next(run[n - 1], labels[n - 1], run[n]);
    if m < n - 1 {
      CalledSince(run, labels, init, m, n - 1, t);
    }
  }

  // A call that returned before another was made took effect before it.
  lemma {:induction false} RealTimeOrder(run: seq<State>, labels: seq<Label>, init: Tables, m: nat, n: nat, t: nat, j: nat)
    requires IsRun(run, labels, init) && m < n < |run| && labels[m].Call? && labels[m].t == t && j < |run[m].returned|
    ensures t in run[n].threads && (run[n].threads[t].Swapped? ==> run[m].returned[j].at < run[n].threads[t].at)
    ensures forall k :: |run[m].returned| <= k < |run[n].returned| && run[n].returned[k].t == t ==>
      run[m].returned[j].at < run[n].returned[k].at
  {
    hide Replay, Apply, Reachable;
    RunInv(run, labels, init, m);
    RunInv(run, labels, init, n);
    CalledSince(run, labels, init, m, n, t);
    assert ReturnOk(run[m], init, run[m].returned[j]) && ThreadOk(run[n], init, t);
    forall k | |run[m].returned| <= k < |run[n].returned| && run[n].returned[k].t == t
      ensures run[m].returned[j].at < run[n].returned[k].at
    {
      assert ReturnOk(run[n], init, run[n].returned[k]);
    }
  }

  // A swap that does not fail spuriously fails only because another operation
  // took effect since the load, even though addresses are used again.
  lemma {:induction false} SwapFailsOnlyForProgress(run: seq<State>, labels: seq<Label>, init: Tables, i: nat, t: nat)
    requires IsRun(run, labels, init) && i < |labels| && labels[i] == Cas(t, false)
    ensures t in run[i].threads && run[i].threads[t].Copied?
    ensures |run[i + 1].log| == |run[i].log| + 1 <==> run[i].threads[t].since == |run[i].log|
    ensures |run[i + 1].log| == |run[i].log| <==> run[i].threads[t].since < |run[i].log|
  {
    hide Replay, CallsOk;
    RunInv(run, labels, init, i);
    assert Next(run[i], labels[i], run[i + 1]);
    assert ThreadOk(run[i], init, t);
  }

  // A table stays in place until its partition is deleted: no AddTable replaces
  // it, and no update of another partition touches it.
  lemma {:induction false} NeverOverwritten(init: Tables, ops: seq<Op>, i: nat, pid: nat)
    requires i <= |ops| && pid in Replay(init, ops[..i])
    requires forall k :: i <= k < |ops| ==> ops[k] != Delete(pid)
    ensures pid in Replay(init, ops) && Replay(init, ops)[pid] == Replay(init, ops[..i])[pid]
  {
    if i == |ops| {
      assert ops[..i] == ops;
    } else {
      var front := ops[..|ops| - 1];
      assert front[..i] == ops[..i];
      NeverOverwritten(init, front, i, pid);
    }
  }

  // After an AddTable the partition is there, and after a DeleteTable it is not,
  // until the next operation on it.
  lemma {:induction false} LastWordOn(init: Tables, ops: seq<Op>, i: nat, pid: nat)
    requires i < |ops| && ops[i].pid == pid && forall k :: i < k < |ops| ==> ops[k].pid != pid
    ensures pid in Replay(init, ops) <==> ops[i].Add?
    ensures ops[i].Add? && pid !in Replay(init, ops[..i]) ==> Replay(init, ops)[pid] == ops[i].table
  {
    var front := ops[..|ops| - 1];
    if i < |ops| - 1 {
      assert front[..i] == ops[..i];
      LastWordOn(init, front, i, pid);
    }
  }
}

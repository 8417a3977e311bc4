// Whole histories of a skiplist: the linked structure replays a plain list of
// entries, and among equal keys that list is a stack. Next to it a purely
// computed table of links decides, before each operation, whether every link
// will lead forward after it.

module SkiplistHistory {
  import opened Towers
  import opened Ordering
  import opened Reach
  import opened Links
  import opened SkiplistNodes
  import opened Skiplists

  datatype Op<K, V> =
    | Insert(key: K, value: V)
    | AddToFirst(key: K, value: V)
    | Remove(key: K)
    | Split(key: K)
    | SplitByPos(pos: nat)
    | SplitByKeyOrPos(key: K, pos: nat)
    | SplitByKeyAndPos(key: K, pos: nat)
    | Clear

  predicate CutsByPosition<K, V>(op: Op<K, V>) {
    op.SplitByPos? || op.SplitByKeyOrPos? || op.SplitByKeyAndPos?
  }

  // An entry and the step that added it.
  datatype Born<K, V> = Born(entry: Entry<K, V>, step: nat)

  function KeysOf<K, V>(s: seq<Born<K, V>>): (ks: seq<K>)
    ensures |ks| == |s| && forall i {:trigger ks[i]} :: 0 <= i < |s| ==> ks[i] == s[i].entry.key
  {
    seq(|s|, i requires 0 <= i < |s| => s[i].entry.key)
  }

  function Forget<K, V>(s: seq<Born<K, V>>): (es: seq<Entry<K, V>>)
    ensures |es| == |s| && forall i {:trigger es[i]} :: 0 <= i < |s| ==> es[i] == s[i].entry
  {
    seq(|s|, i requires 0 <= i < |s| => s[i].entry)
  }

  // How many entries a cut keeps.
  function CutAt<K, V>(cmp: (K, K) -> int, keys: seq<K>, op: Op<K, V>): (c: nat)
    requires op.Split? || CutsByPosition(op)
    ensures c <= |keys|
  {
    match op
    case Split(k) => LowerBound(cmp, keys, k)
    case SplitByPos(pos) => Min(pos, |keys|)
    case SplitByKeyOrPos(k, pos) => Min(LowerBound(cmp, keys, k), pos)
    case SplitByKeyAndPos(k, pos) => if pos < |keys| then Max(LowerBound(cmp, keys, k), pos) else |keys|
  }

  // The plain sorted-list meaning of each operation.
  function Apply<K, V>(cmp: (K, K) -> int, s: seq<Born<K, V>>, op: Op<K, V>, step: nat): seq<Born<K, V>> {
    match op
    case Insert(k, v) => InsertAt(s, LowerBound(cmp, KeysOf(s), k), Born(Entry(k, v), step))
    case AddToFirst(k, v) =>
      if s == [] || cmp(k, s[0].entry.key) <= 0 then InsertAt(s, 0, Born(Entry(k, v), step)) else s
    case Remove(k) =>
      var i := LowerBound(cmp, KeysOf(s), k);
      if i < |s| && cmp(s[i].entry.key, k) == 0 then RemoveAt(s, i) else s
    case Clear => []
    case _ => s[..CutAt(cmp, KeysOf(s), op)]
  }

  function Run<K, V>(cmp: (K, K) -> int, ops: seq<Op<K, V>>): seq<Born<K, V>> {
    if ops == [] then []
    else Apply(cmp, Run(cmp, ops[..|ops| - 1]), ops[|ops| - 1], |ops| - 1)
  }

  // Sorted by key, and newer before older among equal keys.
  ghost predicate Stacked<K, V>(cmp: (K, K) -> int, s: seq<Born<K, V>>, clock: nat) {
    && (forall i :: 0 <= i < |s| ==> s[i].step < clock)
    && (forall i, j {:trigger cmp(s[i].entry.key, s[j].entry.key)} :: 0 <= i < j < |s| ==>
          cmp(s[i].entry.key, s[j].entry.key) < 0
          || (cmp(s[i].entry.key, s[j].entry.key) == 0 && s[i].step > s[j].step))
  }

  lemma StackedSorted<K, V>(cmp: (K, K) -> int, s: seq<Born<K, V>>, clock: nat)
    requires Stacked(cmp, s, clock)
    ensures Sorted(cmp, KeysOf(s))
  {
  }

  lemma StackedInsert<K(!new), V>(cmp: (K, K) -> int, s: seq<Born<K, V>>, e: Entry<K, V>, at: nat, clock: nat)
    requires IsOrder(cmp) && Stacked(cmp, s, clock) && at <= |s|
    requires forall j :: 0 <= j < at ==> cmp(s[j].entry.key, e.key) < 0
    requires forall j :: at <= j < |s| ==> cmp(e.key, s[j].entry.key) <= 0
    ensures Stacked(cmp, InsertAt(s, at, Born(e, clock)), clock + 1)
  {
    var t := InsertAt(s, at, Born(e, clock));
    forall i, j | 0 <= i < j < |t|
      ensures cmp(t[i].entry.key, t[j].entry.key) < 0
              || (cmp(t[i].entry.key, t[j].entry.key) == 0 && t[i].step > t[j].step)
    {
      var i', j' := if i < at then i else i - 1, if j < at then j else j - 1;
      if i == at {
        assert t[j] == s[j'];
      } else if j == at {
        assert t[i] == s[i'];
      } else {
        assert t[i] == s[i'] && t[j] == s[j'];
      }
    }
  }

  lemma BornAtBound<K(!new), V>(cmp: (K, K) -> int, s: seq<Born<K, V>>, k: K, v: V, clock: nat)
    requires IsOrder(cmp) && Stacked(cmp, s, clock)
    ensures Stacked(cmp, InsertAt(s, LowerBound(cmp, KeysOf(s), k), Born(Entry(k, v), clock)), clock + 1)
  {
    StackedSorted(cmp, s, clock);
    BoundsSplit(cmp, KeysOf(s), k);
    forall j | 0 <= j < |s|
      ensures cmp(s[j].entry.key, k) < 0 <==> j < LowerBound(cmp, KeysOf(s), k)
      ensures cmp(k, s[j].entry.key) > 0 <==> j < LowerBound(cmp, KeysOf(s), k)
    {
      assert KeysOf(s)[j] == s[j].entry.key;
    }
    StackedInsert(cmp, s, Entry(k, v), LowerBound(cmp, KeysOf(s), k), clock);
  }

  lemma BornFirst<K(!new), V>(cmp: (K, K) -> int, s: seq<Born<K, V>>, k: K, v: V, clock: nat)
    requires IsOrder(cmp) && Stacked(cmp, s, clock) && (s == [] || cmp(k, s[0].entry.key) <= 0)
    ensures Stacked(cmp, InsertAt(s, 0, Born(Entry(k, v), clock)), clock + 1)
  {
    forall j | 0 <= j < |s|
      ensures cmp(k, s[j].entry.key) <= 0
    {
      if j > 0 {
        Through(cmp, s[0].entry.key, s[j].entry.key, k);
      }
    }
    StackedInsert(cmp, s, Entry(k, v), 0, clock);
  }

  // Every operation keeps the stack discipline.
  lemma ApplyStacked<K(!new), V>(cmp: (K, K) -> int, s: seq<Born<K, V>>, op: Op<K, V>, clock: nat)
    requires IsOrder(cmp) && Stacked(cmp, s, clock)
    ensures Stacked(cmp, Apply(cmp, s, op, clock), clock + 1)
  {
    match op
    case Insert(k, v) =>
      BornAtBound(cmp, s, k, v, clock);
    case AddToFirst(k, v) =>
      if s == [] || cmp(k, s[0].entry.key) <= 0 {
        BornFirst(cmp, s, k, v, clock);
      }
    case _ =>
  }

  lemma {:induction false} RunStacked<K(!new), V>(cmp: (K, K) -> int, ops: seq<Op<K, V>>)
    requires IsOrder(cmp)
    ensures Stacked(cmp, Run(cmp, ops), |ops|)
  {
    if ops != [] {
      RunStacked(cmp, ops[..|ops| - 1]);
      ApplyStacked(cmp, Run(cmp, ops[..|ops| - 1]), ops[|ops| - 1], |ops| - 1);
    }
  }

  lemma {:induction false} StackEnds<K(!new), V>(cmp: (K, K) -> int, s: seq<Born<K, V>>, k: K, j: nat, clock: nat)
    requires IsOrder(cmp) && Stacked(cmp, s, clock)
    requires j < |s| && cmp(s[j].entry.key, k) == 0
    ensures var lo, hi := LowerBound(cmp, KeysOf(s), k), UpperBound(cmp, KeysOf(s), k);
            && lo < |s| && cmp(s[lo].entry.key, k) == 0 && s[j].step <= s[lo].step
            && 0 < hi && cmp(s[hi - 1].entry.key, k) == 0 && s[hi - 1].step <= s[j].step
  {
    var ks := KeysOf(s);
    StackedSorted(cmp, s, clock);
    BoundsSplitAt(cmp, ks, k, j);
    var lo, hi := LowerBound(cmp, ks, k), UpperBound(cmp, ks, k);
    assert ks[j] == s[j].entry.key && ks[lo] == s[lo].entry.key && ks[hi - 1] == s[hi - 1].entry.key;
    EqualBetween(cmp, s, k, lo, j, clock);
    EqualBetween(cmp, s, k, j, hi - 1, clock);
  }

  // After any history: what Remove(k) would unlink is the newest surviving
  // entry with key k, and what Get(k) reads is the oldest.
  lemma {:induction false} EqualKeysAreAStack<K(!new), V>(cmp: (K, K) -> int, ops: seq<Op<K, V>>, k: K, j: nat)
    requires IsOrder(cmp)
    requires j < |Run(cmp, ops)| && cmp(Run(cmp, ops)[j].entry.key, k) == 0
    ensures var s := Run(cmp, ops);
            var lo, hi := LowerBound(cmp, KeysOf(s), k), UpperBound(cmp, KeysOf(s), k);
            && lo < |s| && cmp(s[lo].entry.key, k) == 0 && s[j].step <= s[lo].step
            && 0 < hi && cmp(s[hi - 1].entry.key, k) == 0 && s[hi - 1].step <= s[j].step
  {
    RunStacked(cmp, ops);
    StackEnds(cmp, Run(cmp, ops), k, j, |ops|);
  }

  // Two positions inside the run of keys equal to k.
  lemma EqualBetween<K(!new), V>(cmp: (K, K) -> int, s: seq<Born<K, V>>, k: K, i: nat, j: nat, clock: nat)
    requires IsOrder(cmp) && Stacked(cmp, s, clock) && i <= j < |s|
    requires cmp(s[i].entry.key, k) >= 0 && cmp(s[j].entry.key, k) <= 0
    ensures cmp(s[i].entry.key, k) == 0 && cmp(s[j].entry.key, k) == 0
    ensures s[j].step <= s[i].step
  {
    var a, b := s[i].entry.key, s[j].entry.key;
    Flip(cmp, a, k);
    Flip(cmp, b, k);
    if i < j {
      Through(cmp, a, b, k);
      Flip(cmp, a, b);
      Through(cmp, k, a, b);
    }
  }

  lemma KeysAgree<K, V>(nodes: seq<Node<K, V>>, s: seq<Born<K, V>>)
    requires nodes != [] && Entries(nodes) == Forget(s)
    ensures Keys(nodes) == KeysOf(s)
  {
    forall i | 0 <= i < |s|
      ensures Keys(nodes)[i] == KeysOf(s)[i]
    {
      assert Entries(nodes)[i] == Forget(s)[i];
    }
  }

  lemma ForgetCommutes<K, V>(s: seq<Born<K, V>>, at: nat, b: Born<K, V>)
    requires at <= |s|
    ensures Forget(InsertAt(s, at, b)) == InsertAt(Forget(s), at, b.entry)
    ensures at < |s| ==> Forget(RemoveAt(s, at)) == RemoveAt(Forget(s), at)
    ensures Forget(s[..at]) == Forget(s)[..at]
  {
  }

  // ----- The links of a history -----

  // The plain list, and where the links of its nodes lead, the head sentinel
  // first.
  datatype State<K, V> = State(list: seq<Born<K, V>>, to: Table)

  ghost predicate Fits<K, V>(s: State<K, V>, limit: nat) {
    && |s.to| == |s.list| + 1 && Forward(s.to) && |s.to[0]| == limit
    && forall p {:trigger s.to[p]} :: 0 <= p < |s.to| ==> |s.to[p]| <= limit
  }

  // A head without links.
  ghost function HeadTable(limit: nat): (to: Table)
    ensures |to| == 1 && |to[0]| == limit && forall l {:trigger to[0][l]} :: 0 <= l < limit ==> to[0][l] == 1
  {
    [seq(limit, _ => 1)]
  }

  ghost function Start<K, V>(limit: nat): (s: State<K, V>)
    ensures Fits(s, limit)
  {
    State([], HeadTable(limit))
  }

  // The position of the entry a removal takes out, if there is one.
  function RemovesAt<K, V>(cmp: (K, K) -> int, list: seq<Born<K, V>>, k: K): (i: nat)
    ensures i <= |list|
  {
    var i := LowerBound(cmp, KeysOf(list), k);
    if i < |list| && cmp(list[i].entry.key, k) == 0 then i else |list|
  }

  // How many entries sort before the first key cut off.
  function CutFrom<K>(cmp: (K, K) -> int, keys: seq<K>, c: nat): nat
    requires c <= |keys|
  {
    if c < |keys| then LowerBound(cmp, keys, keys[c]) else c
  }

  // One operation, with the height drawn for a node it adds.
  ghost function Next<K, V>(cmp: (K, K) -> int, limit: nat, s: State<K, V>, op: Op<K, V>, step: nat, h: nat): State<K, V>
    requires Fits(s, limit) && h <= limit
  {
    var list := Apply(cmp, s.list, op, step);
    match op
    case Insert(k, v) =>
      var at := LowerBound(cmp, KeysOf(s.list), k) + 1;
      State(list, Inserted(s.to, at, TableStops(s.to, at - 1), h))
    case AddToFirst(k, v) =>
      if |list| > |s.list| then State(list, Inserted(s.to, 1, TableStops(s.to, 0), h)) else s
    case Remove(k) =>
      var i := RemovesAt(cmp, s.list, k);
      if i == |s.list| then s
      else
        assert |s.to[i + 1]| <= limit;
        State(list, Removed(s.to, i + 1, TableStops(s.to, i)))
    case Clear => State(list, HeadTable(limit))
    case _ =>
      var c := CutAt(cmp, KeysOf(s.list), op);
      State(list, CutTable(s.to, c + 1, CutFrom(cmp, KeysOf(s.list), c)))
  }

  // The cut is made by Split.
  predicate CutsByKey<K, V>(cmp: (K, K) -> int, keys: seq<K>, op: Op<K, V>) {
    match op
    case Split(k) => true
    case SplitByKeyOrPos(k, pos) => LowerBound(cmp, keys, k) < pos && LowerBound(cmp, keys, k) < |keys|
    case SplitByKeyAndPos(k, pos) => pos < |keys| && pos <= LowerBound(cmp, keys, k)
    case _ => false
  }

  // Every link will lead forward after the operation: a node that is removed is
  // linked by the stops of the search only, and where Split cuts only the links
  // of the stops lead across.
  ghost predicate Keeps<K, V>(cmp: (K, K) -> int, limit: nat, s: State<K, V>, op: Op<K, V>)
    requires Fits(s, limit)
  {
    && (op.Remove? ==>
          var i := RemovesAt(cmp, s.list, op.key);
          i < |s.list| ==> NoStray(s.to, i + 1, TableStops(s.to, i)))
    && (CutsByKey(cmp, KeysOf(s.list), op) ==>
          var c := CutAt(cmp, KeysOf(s.list), op);
          NoCrossing(s.to, c + 1, TableStops(s.to, c)))
  }

  // Whatever heights are drawn, every operation of the history keeps the links.
  ghost predicate Safe<K, V>(cmp: (K, K) -> int, limit: nat, s: State<K, V>, ops: seq<Op<K, V>>, step: nat)
    requires Fits(s, limit)
    decreases |ops|
  {
    ops == [] ||
      (Keeps(cmp, limit, s, ops[0]) && forall h :: 1 <= h <= limit ==>
         var s' := Next(cmp, limit, s, ops[0], step, h);
         Fits(s', limit) && Safe(cmp, limit, s', ops[1..], step + 1))
  }

  // The state after a safe history, one drawn height for each operation.
  ghost function After<K, V>(cmp: (K, K) -> int, limit: nat, s: State<K, V>, ops: seq<Op<K, V>>, step: nat, hs: seq<nat>): (s': State<K, V>)
    requires Fits(s, limit) && Safe(cmp, limit, s, ops, step) && Drawable(limit, ops, hs)
    ensures Fits(s', limit)
    decreases |ops|
  {
    if ops == [] then s
    else After(cmp, limit, Next(cmp, limit, s, ops[0], step, hs[0]), ops[1..], step + 1, hs[1..])
  }

  ghost predicate Drawable<K, V>(limit: nat, ops: seq<Op<K, V>>, hs: seq<nat>) {
    |hs| == |ops| && forall i :: 0 <= i < |hs| ==> 1 <= hs[i] <= limit
  }

  // No removal comes after a cut by position, unless the list was cleared in
  // between. Data lists are cut but never removed from, and key lists are
  // removed from but never cut by position.
  predicate Steady<K, V>(ops: seq<Op<K, V>>, exact: bool) {
    ops == [] ||
      if CutsByPosition(ops[0]) then Steady(ops[1..], false)
      else (ops[0].Remove? ==> exact) && Steady(ops[1..], exact || ops[0].Clear?)
  }

  lemma {:induction false} NextList<K, V>(cmp: (K, K) -> int, limit: nat, s: State<K, V>, op: Op<K, V>, step: nat, h: nat)
    requires Fits(s, limit) && h <= limit
    ensures Next(cmp, limit, s, op, step, h).list == Apply(cmp, s.list, op, step)
  {
  }

  // ----- Histories of lists with a reach -----

  // Every node is reached at all its levels.
  ghost predicate Full(to: Table, r: seq<nat>) {
    |to| == |r| && forall p {:trigger to[p]} {:trigger r[p]} :: 0 <= p < |to| ==> r[p] == |to[p]|
  }

  // A list with a reach is safe against any one operation.
  lemma {:induction false} ReachKeeps<K, V>(cmp: (K, K) -> int, limit: nat, s: State<K, V>, op: Op<K, V>, r: seq<nat>)
    requires Fits(s, limit) && TableReach(s.to, r)
    ensures Keeps(cmp, limit, s, op)
  {
    hide NoStray, NoCrossing, TableReach, LowerBound;
    if op.Remove? {
      var i := RemovesAt(cmp, s.list, op.key);
      if i < |s.list| {
        ReachStops(s.to, r, i);
        ReachNoStray(s.to, r, i + 1, TableStops(s.to, i));
      }
    }
    if CutsByKey(cmp, KeysOf(s.list), op) {
      var c := CutAt(cmp, KeysOf(s.list), op);
      ReachStops(s.to, r, c);
      ReachNoCrossing(s.to, r, c + 1, TableStops(s.to, c));
    }
  }

  lemma {:induction false} ReachFits<K, V>(s: State<K, V>, r: seq<nat>, limit: nat)
    requires |s.to| == |s.list| + 1 && TableReach(s.to, r) && |s.to[0]| == limit
    ensures Fits(s, limit)
  {
    ReachForward(s.to, r);
    forall p {:trigger s.to[p]} | 0 <= p < |s.to|
      ensures |s.to[p]| <= limit
    {
      assert r[p] <= |s.to[p]| <= |s.to[0]|;
    }
  }

  // Every operation but a removal leaves a list with a reach, and a removal does
  // if every node is reached at all its levels; only a cut by position changes
  // that.
  lemma {:induction false} NextReach<K(!new), V>(cmp: (K, K) -> int, limit: nat, s: State<K, V>, op: Op<K, V>, step: nat, h: nat, r: seq<nat>)
      returns (r': seq<nat>)
    requires Fits(s, limit) && 1 <= h <= limit && TableReach(s.to, r) && IsOrder(cmp) && Sorted(cmp, KeysOf(s.list))
    requires op.Remove? ==> Full(s.to, r)
    ensures var s' := Next(cmp, limit, s, op, step, h);
      Fits(s', limit) && TableReach(s'.to, r') && (op.Clear? || (Full(s.to, r) && !CutsByPosition(op)) ==> Full(s'.to, r'))
  {
    hide Inserted, Removed, CutTable, TableReach, LowerBound, Sorted, Forward, Full, HeadTable;
    var s' := Next(cmp, limit, s, op, step, h);
    match op
    case Insert(k, v) =>
      var at := LowerBound(cmp, KeysOf(s.list), k) + 1;
      r' := GrownReach(s.to, r, at, h, limit);
      ReachFits(s', r', limit);
    case AddToFirst(k, v) =>
      if |s'.list| > |s.list| {
        r' := GrownReach(s.to, r, 1, h, limit);
        ReachFits(s', r', limit);
      } else {
        r' := r;
      }
    case Remove(k) =>
      var i := RemovesAt(cmp, s.list, k);
      if i < |s.list| {
        r' := ShrunkReach(s.to, r, i + 1, limit);
        ReachFits(s', r', limit);
      } else {
        r' := r;
      }
    case Clear =>
      r' := [limit];
      HeadReach(limit);
      ReachFits(s', r', limit);
    case Split(k) =>
      var c := LowerBound(cmp, KeysOf(s.list), k);
      KeyCutFrom(cmp, KeysOf(s.list), k);
      r' := KeptReach(s.to, r, c, c, limit);
      ReachFits(s', r', limit);
    case _ =>
      var c := CutAt(cmp, KeysOf(s.list), op);
      r' := KeptReach(s.to, r, c, CutFrom(cmp, KeysOf(s.list), c), limit);
      ReachFits(s', r', limit);
  }

  lemma {:induction false} GrownReach(to: Table, r: seq<nat>, at: nat, h: nat, limit: nat) returns (r': seq<nat>)
    requires Forward(to) && TableReach(to, r) && 0 < at <= |to| && 1 <= h <= limit == |to[0]|
    ensures var t := Inserted(to, at, TableStops(to, at - 1), h);
      TableReach(t, r') && |t| == |to| + 1 && |t[0]| == limit && (Full(to, r) ==> Full(t, r'))
  {
    hide ShiftedRow, ShiftedRows, NewRow, InsertAt, TableReach, Forward;
    var stops := TableStops(to, at - 1);
    ReachStops(to, r, at - 1);
    ReachInserted(to, r, at, stops, h);
    r' := InsertAt(r, at, h);
    var t := Inserted(to, at, stops, h);
    if Full(to, r) {
      forall p {:trigger t[p]} {:trigger r'[p]} | 0 <= p < |t|
        ensures r'[p] == |t[p]|
      {
        if p != at {
          var q := Unshift(p, at);
          assert t[p] == ShiftedRow(to, q, at, stops, h) && r'[p] == r[q];
        }
      }
    }
  }

  lemma {:induction false} ShrunkReach(to: Table, r: seq<nat>, at: nat, limit: nat) returns (r': seq<nat>)
    requires Forward(to) && TableReach(to, r) && Full(to, r) && 0 < at < |to| && limit == |to[0]|
    ensures |to[at]| <= limit
    ensures var t := Removed(to, at, TableStops(to, at - 1)); TableReach(t, r') && |t| == |to| - 1 && |t[0]| == limit && Full(t, r')
  {
    hide Removed, BypassedRow, RemoveAt, TableReach, Forward;
    var stops := TableStops(to, at - 1);
    ReachStops(to, r, at - 1);
    ReachRemoved(to, r, at, stops);
    r' := RemoveAt(r, at);
    var t := Removed(to, at, stops);
    assert t[0] == BypassedRow(to, 0, at, stops);
    forall p {:trigger t[p]} {:trigger r'[p]} | 0 <= p < |t|
      ensures r'[p] == |t[p]|
    {
      var q := Shift(p, at);
      assert t[p] == BypassedRow(to, q, at, stops) && r'[p] == r[q];
    }
  }

  lemma {:induction false} KeptReach(to: Table, r: seq<nat>, c: nat, b: nat, limit: nat) returns (r': seq<nat>)
    requires TableReach(to, r) && c < |to| && limit == |to[0]|
    ensures var t := CutTable(to, c + 1, b); TableReach(t, r') && |t| == c + 1 && |t[0]| == limit && (Full(to, r) && b == c ==> Full(t, r'))
  {
    hide CutRow;
    ReachCut(to, r, c + 1, b);
    r' := CutReach(r, c + 1, b);
    var t := CutTable(to, c + 1, b);
    assert t[0] == CutRow(to[0], c + 1, b);
    if Full(to, r) && b == c {
      forall p {:trigger t[p]} {:trigger r'[p]} | 0 <= p <= c
        ensures r'[p] == |t[p]|
      {
        assert t[p] == CutRow(to[p], c + 1, b) && r'[p] == r[p];
      }
    }
  }

  lemma HeadReach(limit: nat)
    requires limit >= 1
    ensures TableReach(HeadTable(limit), [limit]) && Full(HeadTable(limit), [limit])
  {
  }

  // A cut by key is at the lower bound of the first key cut off.
  lemma {:induction false} KeyCutFrom<K(!new)>(cmp: (K, K) -> int, keys: seq<K>, k: K)
    requires IsOrder(cmp) && Sorted(cmp, keys)
    ensures CutFrom(cmp, keys, LowerBound(cmp, keys, k)) == LowerBound(cmp, keys, k)
  {
    var c := LowerBound(cmp, keys, k);
    if c < |keys| {
      var b := LowerBound(cmp, keys, keys[c]);
      Flip(cmp, keys[c], keys[c]);
      BoundsSplitAt(cmp, keys, keys[c], c);
      if b < c {
        Flip(cmp, keys[c], keys[b]);
        Through(cmp, keys[c], keys[b], k);
      }
    }
  }

  lemma {:induction false} SteadyIsSafe<K(!new), V>(cmp: (K, K) -> int, limit: nat, s: State<K, V>, ops: seq<Op<K, V>>, step: nat, exact: bool, r: seq<nat>)
    requires IsOrder(cmp) && Fits(s, limit) && Stacked(cmp, s.list, step) && TableReach(s.to, r)
    requires Steady(ops, exact) && (exact ==> Full(s.to, r))
    ensures Safe(cmp, limit, s, ops, step)
    decreases |ops|
  {
    hide TableReach, Full, Fits, Next, Keeps, Stacked, Apply;
    if ops != [] {
      StackedSorted(cmp, s.list, step);
      ApplyStacked(cmp, s.list, ops[0], step);
      ReachKeeps(cmp, limit, s, ops[0], r);
      forall h | 1 <= h <= limit
        ensures var s' := Next(cmp, limit, s, ops[0], step, h);
          Fits(s', limit) && Safe(cmp, limit, s', ops[1..], step + 1)
      {
        NextList(cmp, limit, s, ops[0], step, h);
        var r' := NextReach(cmp, limit, s, ops[0], step, h, r);
        SteadyIsSafe(cmp, limit, Next(cmp, limit, s, ops[0], step, h), ops[1..], step + 1,
                     !CutsByPosition(ops[0]) && (exact || ops[0].Clear?), r');
      }
    }
  }

  // ----- The linked structure -----

  // Every link of the skiplist leads forward and where s says, and it holds the
  // entries of s.
  ghost predicate Holds<K(!new), V>(list: Skiplist<K, V>, s: State<K, V>)
    reads list, list.nodes, list.rand
  {
    && list.Searchable() && Fits(s, list.limit) && list.Table() == s.to
    && list.Contents() == Forget(s.list) && Keys(list.nodes) == KeysOf(s.list)
  }

  // What one operation leaves of a skiplist that held s: the entries of the
  // plain list in any case, and every link leading forward exactly if Keeps says so.
  ghost predicate Follows<K(!new), V>(list: Skiplist<K, V>, s: State<K, V>, op: Op<K, V>, step: nat, h: nat)
    reads list, list.nodes, list.rand
  {
    && list.Shape() && Chained(list.nodes) && Fits(s, list.limit) && 1 <= h <= list.limit
    && list.Contents() == Forget(Apply(list.cmp, s.list, op, step))
    && (list.Searchable() <==> Keeps(list.cmp, list.limit, s, op))
    && (list.Searchable() ==> Holds(list, Next(list.cmp, list.limit, s, op, step, h)))
  }

  ghost predicate Grown<K(!new), V>(before: seq<Node<K, V>>, after: seq<Node<K, V>>, added: set<Node<K, V>>) {
    forall n :: n in after ==> n in before || n in added
  }

  lemma {:induction false} HoldsNext<K(!new), V>(list: Skiplist<K, V>, s: State<K, V>)
    requires list.Searchable() && list.Table() == s.to && list.Contents() == Forget(s.list)
    ensures Holds(list, s)
  {
    list.TableFacts();
    KeysAgree(list.nodes, s.list);
    assert list.Table()[0] == s.to[0];
    forall p {:trigger s.to[p]} | 0 <= p < |s.to|
      ensures |s.to[p]| <= list.limit
    {
      assert list.Table()[p] == s.to[p];
      assert p > 0 ==> list.nodes[p] in list.nodes[1..];
    }
  }

  lemma HoldsIs<K(!new), V>(list: Skiplist<K, V>, s: State<K, V>)
    requires Holds(list, s)
    ensures 1 <= list.limit && Fits(s, list.limit) && list.Searchable() && list.Table() == s.to
    ensures list.Contents() == Forget(s.list) && Keys(list.nodes) == KeysOf(s.list) && |list.nodes| == |s.list| + 1
  {
  }

  lemma NewHolds<K(!new), V>(list: Skiplist<K, V>)
    requires list.Valid() && list.Contents() == []
    ensures Holds(list, Start(list.limit))
  {
    hide Exact, Reached;
    list.LooseIsSearchable();
    list.TableFacts();
    assert list.Table()[0] == HeadTable(list.limit)[0];
    HoldsNext(list, Start(list.limit));
  }

  method Add<K(!new), V>(list: Skiplist<K, V>, k: K, v: V, ghost s: State<K, V>, ghost step: nat)
    returns (ghost added: set<Node<K, V>>, ghost h: nat)
    requires Holds(list, s)
    modifies list, list.nodes, list.rand
    ensures Follows(list, s, Insert(k, v), step, h)
    ensures old(list.Loose()) ==> list.Loose()
    ensures old(list.Valid()) ==> list.Valid()
    ensures fresh(added) && Grown(old(list.nodes), list.nodes, added)
  {
    hide Holds, Ordered, Sized, Chained, ForwardTo, Exact, Reached, LowerBound, Inserted, IsLinkedIn, TableStop, Fits,
      Skiplist.SearchOk, Skiplist.AreStops;
    HoldsIs(list, s);
    list.SearchableOk(k);
    ForgetCommutes(s.list, list.Before(k), Born(Entry(k, v), step));
    var height;
    ghost var at, stops;
    height, at, stops := list.Insert(k, v);
    h, added := height, {list.nodes[at]};
    HoldsNext(list, Next(list.cmp, list.limit, s, Insert(k, v), step, h));
  }

  method AddFirst<K(!new), V>(list: Skiplist<K, V>, k: K, v: V, ghost s: State<K, V>, ghost step: nat)
    returns (ghost added: set<Node<K, V>>, ghost h: nat)
    requires Holds(list, s)
    modifies list, list.nodes, list.rand
    ensures Follows(list, s, AddToFirst(k, v), step, h)
    ensures old(list.Loose()) ==> list.Loose()
    ensures old(list.Valid()) ==> list.Valid()
    ensures fresh(added) && Grown(old(list.nodes), list.nodes, added)
  {
    hide Holds, Ordered, Sized, Chained, ForwardTo, Exact, Reached, LowerBound, Inserted, IsLinkedIn, TableStop, Fits;
    HoldsIs(list, s);
    ForgetCommutes(s.list, 0, Born(Entry(k, v), step));
    assert s.list != [] ==> Keys(list.nodes)[0] == KeysOf(s.list)[0];
    var ok := list.AddToFirst(k, v);
    h, added := 1, {};
    if ok {
      h, added := list.nodes[1].height, {list.nodes[1]};
    }
    HoldsNext(list, Next(list.cmp, list.limit, s, AddToFirst(k, v), step, h));
  }

  method Drop<K(!new), V>(list: Skiplist<K, V>, k: K, ghost s: State<K, V>, ghost step: nat)
    requires Holds(list, s)
    modifies list, list.nodes
    ensures Follows(list, s, Remove(k), step, 1)
    ensures old(list.Valid()) ==> list.Valid()
    ensures Grown(old(list.nodes), list.nodes, {})
  {
    hide Holds, Ordered, Sized, Chained, ForwardTo, Exact, Reached, LowerBound, Removed, NoStray, TableStop, Fits,
      RemoveKeeps, ReachAfter, CanReach, IsUnlinked, Skiplist.SearchOk, Skiplist.AreStops;
    HoldsIs(list, s);
    list.SearchableOk(k);
    ghost var i := list.Before(k);
    assert i < |s.list| ==> Keys(list.nodes)[i] == KeysOf(s.list)[i];
    if i < |s.list| {
      ForgetCommutes(s.list, i, s.list[i]);
    }
    var n, at, _ := list.Remove(k);
    if n != null && list.Searchable() {
      HoldsNext(list, Next(list.cmp, list.limit, s, Remove(k), step, 1));
    }
  }

  lemma CutEntries<K, V>(all: seq<Node<K, V>>, s: seq<Born<K, V>>, c: nat)
    requires all != [] && Entries(all) == Forget(s) && 0 < c <= |all|
    ensures Entries(all)[..c - 1] == Forget(s[..c - 1])
  {
  }

  // What every cut leaves.
  lemma {:induction false} CutFollows<K(!new), V>(list: Skiplist<K, V>, all: seq<Node<K, V>>, c: nat, s: State<K, V>, op: Op<K, V>, step: nat)
    requires op.Split? || CutsByPosition(op)
    requires Fits(s, list.limit) && 1 <= list.limit && |all| == |s.list| + 1 && Entries(all) == Forget(s.list) && Keys(all) == KeysOf(s.list)
    requires c == CutAt(list.cmp, KeysOf(s.list), op) + 1
    requires list.Shape() && Chained(list.nodes) && list.Contents() == Entries(all)[..c - 1]
    requires if CutsByKey(list.cmp, KeysOf(s.list), op) then list.KeyCutTabled(all, s.to, c) else list.CutTabled(all, s.to, c)
    ensures Follows(list, s, op, step, 1)
  {
    hide Holds, Ordered, Sized, Chained, ForwardTo, LowerBound, CutTable, NoCrossing, TableStop, CutAt, CutsByKey;
    CutEntries(all, s.list, c);
    assert c < |all| ==> Keys(all)[c - 1] == all[c].key;
    if list.Searchable() {
      HoldsNext(list, Next(list.cmp, list.limit, s, op, step, 1));
    }
  }

  method Cut<K(!new), V>(list: Skiplist<K, V>, op: Op<K, V>, ghost s: State<K, V>, ghost step: nat)
    requires Holds(list, s) && (op.Split? || CutsByPosition(op))
    modifies list, list.nodes
    ensures Follows(list, s, op, step, 1)
    ensures old(list.Loose()) ==> list.Loose()
    ensures old(list.Valid()) && op.Split? ==> list.Valid()
    ensures Grown(old(list.nodes), list.nodes, {})
  {
    hide Holds, Follows, Ordered, Sized, Chained, ForwardTo, Exact, Reached, LowerBound, CutTable, NoCrossing, TableStop, Fits, IsCleared, Skiplist.SearchOk,
      Skiplist.Shape, Skiplist.Searchable, Skiplist.Valid, Skiplist.KeyCutTabled, Skiplist.CutTabled, Skiplist.AreStops;
    HoldsIs(list, s);
    ghost var all, c := list.nodes, 0;
    var n;
    match op {
      case Split(k) =>
        list.SearchableOk(k);
        ghost var stops;
        n, c, stops := list.Split(k);
      case SplitByPos(pos) => n, c := list.SplitByPos(pos);
      case SplitByKeyOrPos(k, pos) =>
        list.SearchableOk(k);
        n, c := list.SplitByKeyOrPos(k, pos);
      case SplitByKeyAndPos(k, pos) =>
        list.SearchableOk(k);
        n, c := list.SplitByKeyAndPos(k, pos);
    }
    CutFollows(list, all, c, s, op, step);
  }

  method DropAll<K(!new), V>(list: Skiplist<K, V>, ghost s: State<K, V>, ghost step: nat)
    requires Holds(list, s)
    modifies list, list.nodes
    ensures Follows(list, s, Clear, step, 1) && list.Valid()
    ensures Grown(old(list.nodes), list.nodes, {})
  {
    hide Holds, Exact, Reached, Ordered, Sized, Chained, ForwardTo, Fits;
    HoldsIs(list, s);
    var cnt := list.Clear();
    list.LooseIsSearchable();
    NewHolds(list);
  }

  // One operation on the linked structure.
  method Step<K(!new), V>(list: Skiplist<K, V>, op: Op<K, V>, ghost s: State<K, V>, ghost step: nat)
    returns (ghost added: set<Node<K, V>>, ghost h: nat)
    requires Holds(list, s)
    modifies list, list.nodes, list.rand
    ensures Follows(list, s, op, step, h)
    ensures old(list.Loose()) && (op.Remove? ==> old(list.Valid())) ==> list.Loose()
    ensures op.Clear? || (old(list.Valid()) && !CutsByPosition(op)) ==> list.Valid()
    ensures fresh(added) && Grown(old(list.nodes), list.nodes, added)
  {
    hide Holds, Follows, Linked, HasReach, Ordered, Sized;
    added, h := {}, 1;
    match op {
      case Insert(k, v) => added, h := Add(list, k, v, s, step);
      case AddToFirst(k, v) => added, h := AddFirst(list, k, v, s, step);
      case Remove(k) => Drop(list, k, s, step);
      case Clear => DropAll(list, s, step);
      case _ => Cut(list, op, s, step);
    }
  }

  lemma {:induction false} SafeNext<K, V>(cmp: (K, K) -> int, limit: nat, s: State<K, V>, ops: seq<Op<K, V>>, i: nat)
    requires Fits(s, limit) && i < |ops| && Safe(cmp, limit, s, ops[i..], i) && s.list == Run(cmp, ops[..i])
    ensures Keeps(cmp, limit, s, ops[i])
    ensures forall h {:trigger Next(cmp, limit, s, ops[i], i, h)} :: 1 <= h <= limit ==>
      var s' := Next(cmp, limit, s, ops[i], i, h);
      Fits(s', limit) && Safe(cmp, limit, s', ops[i + 1..], i + 1) && s'.list == Run(cmp, ops[..i + 1])
  {
    hide Fits, Keeps, Next, Apply;
    assert ops[i..][0] == ops[i] && ops[i..][1..] == ops[i + 1..] && ops[..i + 1][..i] == ops[..i];
    forall h | 1 <= h <= limit
      ensures Next(cmp, limit, s, ops[i], i, h).list == Run(cmp, ops[..i + 1])
    {
      NextList(cmp, limit, s, ops[i], i, h);
    }
  }

  lemma {:induction false} AfterNext<K, V>(cmp: (K, K) -> int, limit: nat, s: State<K, V>, ops: seq<Op<K, V>>, i: nat, h: nat, hs: seq<nat>)
    requires Fits(s, limit) && i < |ops| && 1 <= h <= limit && Drawable(limit, ops[i + 1..], hs) && Safe(cmp, limit, s, ops[i..], i)
    requires var s' := Next(cmp, limit, s, ops[i], i, h); Fits(s', limit) && Safe(cmp, limit, s', ops[i + 1..], i + 1)
    ensures Drawable(limit, ops[i..], [h] + hs)
    ensures After(cmp, limit, s, ops[i..], i, [h] + hs) == After(cmp, limit, Next(cmp, limit, s, ops[i], i, h), ops[i + 1..], i + 1, hs)
  {
    hide Fits, Keeps, Next;
    assert ops[i..][0] == ops[i] && ops[i..][1..] == ops[i + 1..] && ([h] + hs)[1..] == hs;
  }

  lemma {:induction false} SteadyNext<K, V>(ops: seq<Op<K, V>>, i: nat, exact: bool)
    requires i < |ops| && Steady(ops[i..], exact)
    ensures Steady(ops[i + 1..], !CutsByPosition(ops[i]) && (exact || ops[i].Clear?))
    ensures ops[i].Remove? ==> exact
  {
    assert ops[i..][0] == ops[i] && ops[i..][1..] == ops[i + 1..];
  }

  // The operations from i on, on a skiplist that holds the state after those
  // before i.
  method ReplayFrom<K(!new), V>(list: Skiplist<K, V>, ops: seq<Op<K, V>>, i: nat, ghost s: State<K, V>, ghost exact: bool)
    returns (ghost hs: seq<nat>)
    requires Holds(list, s) && i <= |ops|
    requires Fits(s, list.limit) && Safe(list.cmp, list.limit, s, ops[i..], i) && s.list == Run(list.cmp, ops[..i])
    modifies list, list.nodes, list.rand
    ensures Drawable(list.limit, ops[i..], hs)
    ensures var s' := After(list.cmp, list.limit, s, ops[i..], i, hs); Holds(list, s') && s'.list == Run(list.cmp, ops)
    ensures forall n :: n in list.nodes ==> n in old(list.nodes) || fresh(n)
    ensures Steady(ops[i..], exact) && old(list.Loose()) && (exact ==> old(list.Valid())) ==> list.Loose()
    ensures old(list.Valid()) && (forall j :: i <= j < |ops| ==> !CutsByPosition(ops[j])) ==> list.Valid()
    decreases |ops| - i
  {
    hide Holds, Fits, Next, Safe, Run, Keeps, CutsByPosition, Steady, Skiplist.Loose, Skiplist.Valid, Skiplist.Shape, Skiplist.Searchable;
    if i == |ops| {
      assert ops[..i] == ops && ops[i..] == [];
      hs := [];
    } else {
      SafeNext(list.cmp, list.limit, s, ops, i);
      if Steady(ops[i..], exact) {
        SteadyNext(ops, i, exact);
      }
      ghost var added, h := Step(list, ops[i], s, i);
      ghost var s' := Next(list.cmp, list.limit, s, ops[i], i, h);
      forall p | 0 <= p < |list.nodes|
        ensures list.nodes[p] in old(list.nodes) || fresh(list.nodes[p])
      {
        assert list.nodes[p] in list.nodes;
      }
      ghost var rest := ReplayFrom(list, ops, i + 1, s', !CutsByPosition(ops[i]) && (exact || ops[i].Clear?));
      AfterNext(list.cmp, list.limit, s, ops, i, h, rest);
      hs := [h] + rest;
    }
  }

  lemma StartIs<K, V>(cmp: (K, K) -> int, limit: nat, ops: seq<Op<K, V>>)
    ensures Start<K, V>(limit).list == Run(cmp, ops[..0]) && ops[0..] == ops
  {
  }

  // Every safe history, run on a new skiplist, leaves the entries of the plain
  // list and every link leading forward. If no removal follows a cut by position
  // the list has a reach, and without cuts by position the towers stay exact.
  method Replay<K(!new), V>(maxHeight: nat, branch: nat, cmp: (K, K) -> int, defaultKey: K, defaultValue: V,
                            ops: seq<Op<K, V>>) returns (list: Skiplist<K, V>, ghost hs: seq<nat>)
    requires 1 <= maxHeight < 256 && 1 <= branch < 256 && IsOrder(cmp)
    requires Safe(cmp, maxHeight, Start(maxHeight), ops, 0)
    ensures fresh(list) && fresh(list.rand) && fresh(list.nodes) && list.cmp == cmp && list.limit == maxHeight
    ensures list.Searchable() && list.Contents() == Forget(Run(cmp, ops))
    ensures Drawable(maxHeight, ops, hs)
    ensures var s := After(cmp, maxHeight, Start(maxHeight), ops, 0, hs); Holds(list, s) && s.list == Run(cmp, ops)
    ensures Steady(ops, true) ==> list.Loose()
    ensures (forall i :: 0 <= i < |ops| ==> !CutsByPosition(ops[i])) ==> list.Valid()
  {
    hide *;
    list := new Skiplist(maxHeight, branch, cmp, defaultKey, defaultValue);
    NewHolds(list);
    StartIs(cmp, maxHeight, ops);
    hs := ReplayFrom(list, ops, 0, Start(maxHeight), true);
    HoldsIs(list, After(cmp, maxHeight, Start(maxHeight), ops, 0, hs));
    forall p | 0 <= p < |list.nodes|
      ensures fresh(list.nodes[p])
    {
      assert list.nodes[p] in list.nodes;
    }
  }

  // A safe history and one more operation. The entries are right in any case;
  // every link leads forward if and only if the state before the operation says
  // it keeps them.
  method ReplayThen<K(!new), V>(maxHeight: nat, branch: nat, cmp: (K, K) -> int, defaultKey: K, defaultValue: V,
                                ops: seq<Op<K, V>>, op: Op<K, V>) returns (list: Skiplist<K, V>, ghost hs: seq<nat>)
    requires 1 <= maxHeight < 256 && 1 <= branch < 256 && IsOrder(cmp)
    requires Safe(cmp, maxHeight, Start(maxHeight), ops, 0)
    ensures list.Shape() && list.cmp == cmp && list.Contents() == Forget(Run(cmp, ops + [op]))
    ensures Drawable(maxHeight, ops, hs)
    ensures list.Searchable() <==> Keeps(cmp, maxHeight, After(cmp, maxHeight, Start(maxHeight), ops, 0, hs), op)
  {
    hide Holds, Fits, Next, Safe, Keeps, Apply, Skiplist.Loose, Skiplist.Valid, Skiplist.Shape, Skiplist.Searchable;
    list, hs := Replay(maxHeight, branch, cmp, defaultKey, defaultValue, ops);
    ghost var s := After(cmp, maxHeight, Start(maxHeight), ops, 0, hs);
    var _, h := Step(list, op, s, |ops|);
    assert (ops + [op])[..|ops|] == ops;
  }

  // Every history in which no removal follows a cut by position.
  method ReplaySteady<K(!new), V>(maxHeight: nat, branch: nat, cmp: (K, K) -> int, defaultKey: K, defaultValue: V,
                                  ops: seq<Op<K, V>>) returns (list: Skiplist<K, V>)
    requires 1 <= maxHeight < 256 && 1 <= branch < 256 && IsOrder(cmp) && Steady(ops, true)
    ensures list.Loose() && list.cmp == cmp && list.Contents() == Forget(Run(cmp, ops))
    ensures (forall i :: 0 <= i < |ops| ==> !CutsByPosition(ops[i])) ==> list.Valid()
  {
    hide Safe, Steady, Run, After, Holds, Skiplist.Loose, Skiplist.Valid, Skiplist.Shape, Skiplist.Searchable;
    StartIs(cmp, maxHeight, ops);
    HeadReach(maxHeight);
    SteadyIsSafe(cmp, maxHeight, Start<K, V>(maxHeight), ops, 0, true, [maxHeight]);
    ghost var hs;
    list, hs := Replay(maxHeight, branch, cmp, defaultKey, defaultValue, ops);
  }

  // Remove takes out the newest of the entries with that key.
  method TakeNewest<K(!new), V>(list: Skiplist<K, V>, k: K, ghost s: seq<Born<K, V>>, ghost clock: nat)
    returns (node: Node?<K, V>, ghost j: nat)
    requires list.Searchable() && list.Contents() == Forget(s) && Stacked(list.cmp, s, clock)
    modifies list, list.nodes
    ensures list.Shape() && (old(list.Loose()) ==> list.Searchable())
    ensures node == null <==> forall i :: 0 <= i < |s| ==> list.cmp(s[i].entry.key, k) != 0
    ensures node != null ==> j < |s| && s[j].entry == Entry(node.key, node.value) && list.cmp(s[j].entry.key, k) == 0
    ensures node != null ==> forall i :: 0 <= i < |s| && list.cmp(s[i].entry.key, k) == 0 ==> s[i].step <= s[j].step
    ensures node != null ==> list.Contents() == Forget(RemoveAt(s, j))
  {
    hide Exact, Reached, LowerBound, UpperBound, Ordered, Sized, Chained, RemoveKeeps, ReachAfter, Stop, CanReach, IsUnlinked, Stacked;
    list.SearchableOk(k);
    KeysAgree(list.nodes, s);
    EqualEnds(list.cmp, s, k, clock);
    j := list.Before(k);
    if j < |s| {
      ForgetCommutes(s, j, s[j]);
      assert list.Contents()[j] == Forget(s)[j];
    }
    ghost var at, stops;
    node, at, stops := list.Remove(k);
  }

  // Get reads the oldest of the entries with that key.
  method ReadOldest<K(!new), V>(list: Skiplist<K, V>, k: K, ghost s: seq<Born<K, V>>, ghost clock: nat)
    returns (found: bool, value: V, ghost j: nat)
    requires list.Searchable() && list.Contents() == Forget(s) && Stacked(list.cmp, s, clock)
    ensures (exists i :: 0 <= i < |s| && list.cmp(s[i].entry.key, k) == 0) ==>
      && found && j < |s| && value == s[j].entry.value && list.cmp(s[j].entry.key, k) == 0
      && forall i :: 0 <= i < |s| && list.cmp(s[i].entry.key, k) == 0 ==> s[j].step <= s[i].step
    ensures found && list.cmp(list.head.key, k) != 0 ==> exists i :: 0 <= i < |s| && list.cmp(s[i].entry.key, k) == 0
  {
    hide Exact, Reached, LowerBound, UpperBound, Ordered, Sized, Chained, Stop, Stacked;
    list.FoundInList(k);
    KeysAgree(list.nodes, s);
    EqualEnds(list.cmp, s, k, clock);
    ghost var hi := list.NotAfter(k);
    j := if hi > 0 then hi - 1 else 0;
    assert hi > 0 ==> list.Contents()[hi - 1] == Forget(s)[hi - 1];
    found, value := list.Get(k, list.nodes);
    if found && list.cmp(list.head.key, k) != 0 {
      assert list.cmp(s[hi - 1].entry.key, k) == 0;
    }
  }

  // The run of entries with key k, if there is one, lies between its bounds.
  lemma {:induction false} EqualEnds<K(!new), V>(cmp: (K, K) -> int, s: seq<Born<K, V>>, k: K, clock: nat)
    requires IsOrder(cmp) && Stacked(cmp, s, clock)
    ensures var lo, hi := LowerBound(cmp, KeysOf(s), k), UpperBound(cmp, KeysOf(s), k);
      forall j :: 0 <= j < |s| && cmp(s[j].entry.key, k) == 0 ==>
        && lo < |s| && cmp(s[lo].entry.key, k) == 0 && s[j].step <= s[lo].step
        && 0 < hi && cmp(s[hi - 1].entry.key, k) == 0 && s[hi - 1].step <= s[j].step
  {
    var lo, hi := LowerBound(cmp, KeysOf(s), k), UpperBound(cmp, KeysOf(s), k);
    forall j | 0 <= j < |s| && cmp(s[j].entry.key, k) == 0
      ensures lo < |s| && cmp(s[lo].entry.key, k) == 0 && s[j].step <= s[lo].step
      ensures 0 < hi && cmp(s[hi - 1].entry.key, k) == 0 && s[hi - 1].step <= s[j].step
    {
      StackEnds(cmp, s, k, j, clock);
    }
  }
}

// Links by position: to[p][l] is the position the level-l link of position p
// leads to, and |to| if there is no link. What the operations of the skiplist do
// to such a table, and when every link still leads forward afterwards.

module Links {
  import opened Towers
  import opened Reach

  type Table = seq<seq<nat>>

  // Every link is absent or leads to a later node that is tall enough.
  ghost predicate Forward(to: Table) {
    forall p, l {:trigger to[p][l]} :: 0 <= p < |to| && 0 <= l < |to[p]| ==>
      p < to[p][l] <= |to| && (to[p][l] < |to| ==> l < |to[to[p][l]]|)
  }

  // The links next between the nodes ids are those of the table.
  ghost predicate Drawn<T>(ids: seq<T>, nil: T, next: seq<seq<T>>, to: Table) {
    && |ids| == |next| == |to|
    && (forall p {:trigger next[p]} {:trigger to[p]} :: 0 <= p < |to| ==> |next[p]| == |to[p]|)
    && forall p, l {:trigger next[p][l]} {:trigger to[p][l]} :: 0 <= p < |to| && 0 <= l < |to[p]| ==>
         to[p][l] <= |ids| && next[p][l] == At(ids, nil, to[p][l])
  }

  lemma {:induction false} DrawnUnique<T>(ids: seq<T>, nil: T, next: seq<seq<T>>, a: Table, b: Table)
    requires Named(ids, nil) && Drawn(ids, nil, next, a) && Drawn(ids, nil, next, b)
    ensures a == b
  {
    forall p | 0 <= p < |a|
      ensures a[p] == b[p]
    {
      assert |next[p]| == |a[p]| == |b[p]|;
      forall l | 0 <= l < |a[p]|
        ensures a[p][l] == b[p][l]
      {
        SameTarget(ids, nil, a[p][l], b[p][l]);
      }
    }
  }

  lemma {:induction false} SameTarget<T>(ids: seq<T>, nil: T, p: nat, q: nat)
    requires Named(ids, nil) && p <= |ids| && q <= |ids| && At(ids, nil, p) == At(ids, nil, q)
    ensures p == q
  {
    if p < |ids| {
      SamePosition(ids, nil, p, q);
    } else if q < |ids| {
      SamePosition(ids, nil, q, p);
    }
  }

  // ----- Searching -----

  // Follows the links of one level from p as long as they stay within bound.
  ghost function TableWalk(to: Table, p: nat, l: nat, bound: nat): (s: nat)
    requires Forward(to) && p <= bound < |to| && l < |to[p]|
    ensures p <= s <= bound && l < |to[s]| && to[s][l] > bound
    decreases bound - p
  {
    var q := to[p][l];
    if q <= bound then TableWalk(to, q, l, bound) else p
  }

  // Where a descent from the head leaves level l.
  ghost function TableStop(to: Table, l: nat, bound: nat): (s: nat)
    requires Forward(to) && bound < |to| && l < |to[0]|
    ensures s <= bound && l < |to[s]| && to[s][l] > bound
    decreases |to[0]| - l
  {
    TableWalk(to, if l + 1 == |to[0]| then 0 else TableStop(to, l + 1, bound), l, bound)
  }

  ghost function TableStops(to: Table, bound: nat): (stops: seq<nat>)
    requires Forward(to) && bound < |to|
    ensures |stops| == |to[0]|
    ensures forall l {:trigger stops[l]} :: 0 <= l < |to[0]| ==>
      stops[l] == TableStop(to, l, bound) && stops[l] <= bound && l < |to[stops[l]]| && to[stops[l]][l] > bound
  {
    seq(|to[0]|, l requires 0 <= l < |to[0]| => TableStop(to, l, bound))
  }

  // The stops can take over links of height h at position bound + 1.
  ghost predicate StopsOk(to: Table, stops: seq<nat>, bound: nat, h: nat) {
    bound < |to| && h <= |stops| && forall l {:trigger stops[l]} :: 0 <= l < h ==>
      stops[l] <= bound && l < |to[stops[l]]| && to[stops[l]][l] > bound
  }

  // ----- Inserting -----

  function Shift(q: nat, at: nat): nat {
    if q < at then q else q + 1
  }

  function Unshift(q: nat, at: nat): nat {
    if q <= at then q else q - 1
  }

  // The links of the node at p after a node was put at `at`.
  ghost function ShiftedRow(to: Table, p: nat, at: nat, stops: seq<nat>, h: nat): (row: seq<nat>)
    requires p < |to| && h <= |stops|
    ensures |row| == |to[p]|
    ensures forall l {:trigger row[l]} :: 0 <= l < |row| ==>
      row[l] == if l < h && p == stops[l] then at else Shift(to[p][l], at)
  {
    seq(|to[p]|, l requires 0 <= l < |to[p]| => if l < h && p == stops[l] then at else Shift(to[p][l], at))
  }

  ghost function ShiftedRows(to: Table, at: nat, stops: seq<nat>, h: nat): (rows: Table)
    requires h <= |stops|
    ensures |rows| == |to| && forall p {:trigger rows[p]} :: 0 <= p < |to| ==> rows[p] == ShiftedRow(to, p, at, stops, h)
  {
    seq(|to|, p requires 0 <= p < |to| => ShiftedRow(to, p, at, stops, h))
  }

  // The new node takes over the links of the stops.
  ghost function NewRow(to: Table, at: nat, stops: seq<nat>, h: nat): (row: seq<nat>)
    requires 0 < at && StopsOk(to, stops, at - 1, h)
    ensures |row| == h && forall l {:trigger row[l]} :: 0 <= l < h ==> row[l] == to[stops[l]][l] + 1
  {
    seq(h, l requires 0 <= l < h => to[stops[l]][l] + 1)
  }

  // A node of height h becomes position `at`.
  ghost function Inserted(to: Table, at: nat, stops: seq<nat>, h: nat): (r: Table)
    requires 0 < at && StopsOk(to, stops, at - 1, h)
    ensures |r| == |to| + 1 && r[0] == ShiftedRow(to, 0, at, stops, h)
  {
    InsertAt(ShiftedRows(to, at, stops, h), at, NewRow(to, at, stops, h))
  }

  lemma {:induction false} InsertedForward(to: Table, at: nat, stops: seq<nat>, h: nat)
    requires Forward(to) && 0 < at && StopsOk(to, stops, at - 1, h)
    ensures Forward(Inserted(to, at, stops, h))
  {
    hide ShiftedRow, ShiftedRows, NewRow, InsertAt;
    var r := Inserted(to, at, stops, h);
    assert forall q :: 0 <= q < |to| ==> |r[Shift(q, at)]| == |to[q]|;
    forall p, l {:trigger r[p][l]} | 0 <= p < |r| && 0 <= l < |r[p]|
      ensures p < r[p][l] <= |r| && (r[p][l] < |r| ==> l < |r[r[p][l]]|)
    {
      if p == at {
        var q := to[stops[l]][l];
        assert r[p][l] == Shift(q, at);
      } else {
        var p0 := Unshift(p, at);
        var q := to[p0][l];
        assert r[p] == ShiftedRow(to, p0, at, stops, h);
      }
    }
  }

  // The stores of the insertion loop for the levels below i, at the stops.
  ghost function Threaded<T>(ids: seq<T>, next: seq<seq<T>>, at: nat, stops: seq<nat>, i: nat): (r: seq<seq<T>>)
    requires |ids| == |next| && CanBypass(next, at, stops, i)
    ensures |r| == |next|
    ensures forall p {:trigger r[p]} :: 0 <= p < |next| ==> |r[p]| == |next[p]|
    ensures forall p, l {:trigger r[p][l]} :: 0 <= p < |next| && p != at && 0 <= l < |next[p]| ==>
      r[p][l] == if l < i && p == stops[l] then ids[at] else next[p][l]
    ensures forall l {:trigger r[at][l]} :: 0 <= l < |next[at]| ==> r[at][l] == if l < i then next[stops[l]][l] else next[at][l]
  {
    if i == 0 then next else ThreadStores(ids, Threaded(ids, next, at, stops, i - 1), at, stops[i - 1], i - 1)
  }

  // The table of a list after an insertion at the stops.
  lemma {:induction false} InsertedDrawn<T>(ids: seq<T>, nil: T, next: seq<seq<T>>, to: Table, at: nat, stops: seq<nat>, x: T, row: seq<T>)
    requires Drawn(ids, nil, next, to) && Forward(to) && 0 < at && StopsOk(to, stops, at - 1, |row|)
    ensures CanBypass(InsertAt(next, at, row), at, stops, |row|)
    ensures Drawn(InsertAt(ids, at, x), nil, Threaded(InsertAt(ids, at, x), InsertAt(next, at, row), at, stops, |row|), Inserted(to, at, stops, |row|))
  {
    hide Threaded, ShiftedRow, ShiftedRows, NewRow, InsertAt;
    var ids', next' := InsertAt(ids, at, x), InsertAt(next, at, row);
    var h := |row|;
    forall l | 0 <= l < h
      ensures stops[l] < |next'| && stops[l] != at && l < |next'[stops[l]]|
    {
      assert next'[stops[l]] == next[stops[l]];
    }
    var r, t := Threaded(ids', next', at, stops, h), Inserted(to, at, stops, h);
    forall p | 0 <= p < |t|
      ensures |r[p]| == |t[p]|
    {
      assert |r[p]| == |next'[p]| && (p == at || (next'[p] == next[Unshift(p, at)] && t[p] == ShiftedRow(to, Unshift(p, at), at, stops, h)));
    }
    forall p, l {:trigger r[p][l]} {:trigger t[p][l]} | 0 <= p < |t| && 0 <= l < |t[p]|
      ensures t[p][l] <= |ids'| && r[p][l] == At(ids', nil, t[p][l])
    {
      InsertedLink(ids, nil, next, to, at, stops, x, row, p, l);
    }
  }

  lemma {:induction false} InsertedLink<T>(ids: seq<T>, nil: T, next: seq<seq<T>>, to: Table, at: nat, stops: seq<nat>, x: T, row: seq<T>, p: nat, l: nat)
    requires Drawn(ids, nil, next, to) && Forward(to) && 0 < at && StopsOk(to, stops, at - 1, |row|)
    requires CanBypass(InsertAt(next, at, row), at, stops, |row|)
    requires p <= |ids| && l < |Inserted(to, at, stops, |row|)[p]|
    ensures var r, t := Threaded(InsertAt(ids, at, x), InsertAt(next, at, row), at, stops, |row|), Inserted(to, at, stops, |row|);
      l < |r[p]| && t[p][l] <= |ids| + 1 && r[p][l] == At(InsertAt(ids, at, x), nil, t[p][l])
  {
    hide Threaded, ShiftedRow, ShiftedRows, NewRow, InsertAt;
    var ids', next' := InsertAt(ids, at, x), InsertAt(next, at, row);
    var r, t := Threaded(ids', next', at, stops, |row|), Inserted(to, at, stops, |row|);
    assert |r[p]| == |next'[p]|;
    if p == at {
      var k := stops[l];
      assert r[at][l] == next'[k][l] && next'[k] == next[k];
      AtAfterInsert(ids, nil, at, x, to[k][l]);
    } else {
      var q := Unshift(p, at);
      assert next'[p] == next[q] && t[p] == ShiftedRow(to, q, at, stops, |row|);
      assert r[p][l] == if l < |row| && p == stops[l] then ids'[at] else next'[p][l];
      AtAfterInsert(ids, nil, at, x, to[q][l]);
    }
  }

  // ----- Removing -----

  // A link to the node at `at` that is not a stop's.
  ghost predicate Strays(to: Table, at: nat, stops: seq<nat>, p: nat, l: nat)
    requires at < |to|
  {
    p < |to| && p != at && l < |to[p]| && to[p][l] == at && !(l < |to[at]| && l < |stops| && p == stops[l])
  }

  // Only the stops link the node at `at`.
  ghost predicate NoStray(to: Table, at: nat, stops: seq<nat>)
    requires at < |to|
  {
    forall p: nat, l: nat {:trigger to[p][l]} {:trigger Strays(to, at, stops, p, l)} :: !Strays(to, at, stops, p, l)
  }

  // The links of the node at p after the node at `at` was taken out.
  ghost function BypassedRow(to: Table, p: nat, at: nat, stops: seq<nat>): (row: seq<nat>)
    requires p < |to| && at < |to| && |to[at]| <= |stops|
    ensures |row| == |to[p]|
    ensures forall l {:trigger row[l]} :: 0 <= l < |row| ==>
      row[l] == Unshift(if l < |to[at]| && p == stops[l] then to[at][l] else to[p][l], at)
  {
    seq(|to[p]|, l requires 0 <= l < |to[p]| => Unshift(if l < |to[at]| && p == stops[l] then to[at][l] else to[p][l], at))
  }

  ghost function Removed(to: Table, at: nat, stops: seq<nat>): (r: Table)
    requires at < |to| && |to[at]| <= |stops|
    ensures |r| == |to| - 1
    ensures forall p {:trigger r[p]} :: 0 <= p < |r| ==> r[p] == BypassedRow(to, Shift(p, at), at, stops)
  {
    seq(|to| - 1, p requires 0 <= p < |to| - 1 => BypassedRow(to, Shift(p, at), at, stops))
  }

  lemma {:induction false} RemovedForward(to: Table, at: nat, stops: seq<nat>)
    requires Forward(to) && 0 < at < |to| && StopsOk(to, stops, at - 1, |to[at]|) && NoStray(to, at, stops)
    ensures Forward(Removed(to, at, stops))
  {
    hide Removed, BypassedRow;
    var r := Removed(to, at, stops);
    forall p, l {:trigger r[p][l]} | 0 <= p < |r| && 0 <= l < |r[p]|
      ensures p < r[p][l] <= |r| && (r[p][l] < |r| ==> l < |r[r[p][l]]|)
    {
      var p0 := Shift(p, at);
      assert r[p] == BypassedRow(to, p0, at, stops);
      var q := if l < |to[at]| && p0 == stops[l] then to[at][l] else to[p0][l];
      assert q != at && r[p][l] == Unshift(q, at);
      if q < |to| {
        assert r[Unshift(q, at)] == BypassedRow(to, q, at, stops);
      }
    }
  }

  lemma {:induction false} RemovedDrawn<T>(ids: seq<T>, nil: T, next: seq<seq<T>>, to: Table, at: nat, stops: seq<nat>)
    requires Drawn(ids, nil, next, to) && Forward(to) && 0 < at < |to| && StopsOk(to, stops, at - 1, |to[at]|) && NoStray(to, at, stops)
    requires CanBypass(next, at, stops, |next[at]|)
    ensures Drawn(RemoveAt(ids, at), nil, RemoveAt(Bypassing(next, nil, at, stops, |next[at]|), at), Removed(to, at, stops))
  {
    hide Bypassing, Removed, BypassedRow, RemoveAt;
    var ids', r, t := RemoveAt(ids, at), RemoveAt(Bypassing(next, nil, at, stops, |next[at]|), at), Removed(to, at, stops);
    forall p | 0 <= p < |t|
      ensures |r[p]| == |t[p]|
    {
      assert r[p] == Bypassing(next, nil, at, stops, |next[at]|)[Shift(p, at)] && |next[Shift(p, at)]| == |to[Shift(p, at)]|;
      assert t[p] == BypassedRow(to, Shift(p, at), at, stops);
    }
    forall p, l {:trigger r[p][l]} {:trigger t[p][l]} | 0 <= p < |t| && 0 <= l < |t[p]|
      ensures t[p][l] <= |ids'| && r[p][l] == At(ids', nil, t[p][l])
    {
      var p0 := Shift(p, at);
      assert t[p] == BypassedRow(to, p0, at, stops) && |next[at]| == |to[at]|;
      var q := if l < |to[at]| && p0 == stops[l] then to[at][l] else to[p0][l];
      assert q != at;
      assert r[p][l] == At(ids, nil, q);
      AtAfterRemove(ids, nil, at, q);
    }
  }

  // A stray link survives the removal, and leads to the node that is gone.
  lemma {:induction false} StrayStays<T>(ids: seq<T>, nil: T, next: seq<seq<T>>, to: Table, at: nat, stops: seq<nat>) returns (p: nat, l: nat)
    requires Drawn(ids, nil, next, to) && 0 < at < |to| && CanBypass(next, at, stops, |next[at]|) && !NoStray(to, at, stops)
    ensures var r := RemoveAt(Bypassing(next, nil, at, stops, |next[at]|), at);
      p < |r| && l < |r[p]| && r[p][l] == ids[at]
  {
    hide Bypassing;
    var q: nat, k: nat :| Strays(to, at, stops, q, k);
    p, l := Unshift(q, at), k;
    assert |next[q]| == |to[q]| && |next[at]| == |to[at]| && next[q][k] == ids[at];
  }

  // ----- Cutting -----

  // A link that leads across position c and is not a stop's.
  ghost predicate Crosses(to: Table, c: nat, stops: seq<nat>, p: nat, l: nat) {
    p < c && p < |to| && l < |to[p]| && c <= to[p][l] < |to| && !(l < |stops| && p == stops[l])
  }

  ghost predicate NoCrossing(to: Table, c: nat, stops: seq<nat>) {
    forall p: nat, l: nat :: !Crosses(to, c, stops, p, l)
  }

  // A cut before position c: the links across it are gone, and above level 0
  // those past position b too.
  ghost function CutRow(row: seq<nat>, c: nat, b: nat): (r: seq<nat>)
    ensures |r| == |row|
    ensures forall l {:trigger r[l]} :: 0 <= l < |r| ==> r[l] == if row[l] < c && (l == 0 || row[l] <= b) then row[l] else c
  {
    seq(|row|, l requires 0 <= l < |row| => if row[l] < c && (l == 0 || row[l] <= b) then row[l] else c)
  }

  ghost function CutTable(to: Table, c: nat, b: nat): (r: Table)
    requires c <= |to|
    ensures |r| == c && forall p {:trigger r[p]} :: 0 <= p < c ==> r[p] == CutRow(to[p], c, b)
  {
    seq(c, p requires 0 <= p < c => CutRow(to[p], c, b))
  }

  lemma {:induction false} CutForward(to: Table, c: nat, b: nat)
    requires Forward(to) && c <= |to|
    ensures Forward(CutTable(to, c, b))
  {
    hide CutRow;
    var r := CutTable(to, c, b);
    forall p, l {:trigger r[p][l]} | 0 <= p < |r| && 0 <= l < |r[p]|
      ensures p < r[p][l] <= |r| && (r[p][l] < |r| ==> l < |r[r[p][l]]|)
    {
      var q := to[p][l];
      assert r[p] == CutRow(to[p], c, b);
      assert q < c ==> r[q] == CutRow(to[q], c, b);
    }
  }

  ghost predicate CanClear<T>(next: seq<seq<T>>, stops: seq<nat>, i: nat) {
    i <= |stops| && forall l {:trigger stops[l]} :: 0 <= l < i ==> stops[l] < |next| && l < |next[stops[l]]|
  }

  // The stores of Split: the link of every stop is cleared.
  ghost function Cleared<T>(next: seq<seq<T>>, nil: T, stops: seq<nat>, i: nat): (r: seq<seq<T>>)
    requires CanClear(next, stops, i)
    ensures |r| == |next| && forall p {:trigger r[p]} :: 0 <= p < |next| ==> |r[p]| == |next[p]|
    ensures forall p, l {:trigger r[p][l]} :: 0 <= p < |next| && 0 <= l < |next[p]| ==>
      r[p][l] == if l < i && p == stops[l] then nil else next[p][l]
  {
    if i == 0 then next else
      var n := Cleared(next, nil, stops, i - 1);
      var k := stops[i - 1];
      n[k := n[k][i - 1 := nil]]
  }

  lemma {:induction false} CutDrawn<T>(ids: seq<T>, nil: T, next: seq<seq<T>>, to: Table, c: nat, stops: seq<nat>)
    requires Drawn(ids, nil, next, to) && 0 < c <= |to| && StopsOk(to, stops, c - 1, |stops|) && NoCrossing(to, c, stops)
    requires CanClear(next, stops, |stops|)
    ensures Drawn(ids[..c], nil, Cleared(next, nil, stops, |stops|)[..c], CutTable(to, c, c - 1))
  {
    hide Cleared, CutRow;
    var r, t := Cleared(next, nil, stops, |stops|)[..c], CutTable(to, c, c - 1);
    forall p | 0 <= p < c
      ensures |r[p]| == |t[p]|
    {
      assert |next[p]| == |to[p]| && t[p] == CutRow(to[p], c, c - 1);
    }
    forall p, l {:trigger r[p][l]} {:trigger t[p][l]} | 0 <= p < c && 0 <= l < |t[p]|
      ensures t[p][l] <= c && r[p][l] == At(ids[..c], nil, t[p][l])
    {
      assert t[p] == CutRow(to[p], c, c - 1) && |next[p]| == |to[p]| && next[p][l] == At(ids, nil, to[p][l]);
      assert r[p][l] == if l < |stops| && p == stops[l] then nil else next[p][l];
      assert !Crosses(to, c, stops, p, l);
    }
  }

  // A crossing link stays.
  lemma {:induction false} CrossingStays<T>(ids: seq<T>, nil: T, next: seq<seq<T>>, to: Table, c: nat, stops: seq<nat>) returns (p: nat, l: nat)
    requires Drawn(ids, nil, next, to) && c <= |to| && CanClear(next, stops, |stops|) && !NoCrossing(to, c, stops)
    ensures p < c && l < |to[p]| && c <= to[p][l] < |ids|
    ensures var r := Cleared(next, nil, stops, |stops|); l < |r[p]| && r[p][l] == ids[to[p][l]]
  {
    hide Cleared;
    p, l :| Crosses(to, c, stops, p, l);
    assert |next[p]| == |to[p]|;
  }

  // ----- Lists with a reach -----

  ghost predicate TableReach(to: Table, r: seq<nat>) {
    && InBounds(to, r)
    && forall p, l {:trigger to[p][l]} :: 0 <= p < |to| && 0 <= l < |to[p]| ==>
         to[p][l] == if l < r[p] then FirstTaller(r, p + 1, l) else |to|
  }

  lemma {:induction false} ReachDrawn<T>(ids: seq<T>, nil: T, next: seq<seq<T>>, to: Table, r: seq<nat>)
    requires Drawn(ids, nil, next, to) && Named(ids, nil)
    ensures Reached(ids, nil, next, r) <==> TableReach(to, r)
  {
    if Reached(ids, nil, next, r) {
      ReachDrawnTo(ids, nil, next, to, r);
    }
    if TableReach(to, r) {
      ReachDrawnFrom(ids, nil, next, to, r);
    }
  }

  lemma {:induction false} BoundsDrawn<T>(ids: seq<T>, nil: T, next: seq<seq<T>>, to: Table, r: seq<nat>)
    requires Drawn(ids, nil, next, to)
    ensures InBounds(next, r) <==> InBounds(to, r)
  {
    if |to| == |r| > 0 {
      assert |next[0]| == |to[0]|;
      forall p | 0 <= p < |r|
        ensures |next[p]| == |to[p]|
      {
      }
    }
  }

  lemma {:induction false} ReachDrawnTo<T>(ids: seq<T>, nil: T, next: seq<seq<T>>, to: Table, r: seq<nat>)
    requires Drawn(ids, nil, next, to) && Named(ids, nil) && Reached(ids, nil, next, r)
    ensures TableReach(to, r)
  {
    hide Exact, InBounds;
    BoundsDrawn(ids, nil, next, to, r);
    forall p, l {:trigger to[p][l]} | 0 <= p < |to| && 0 <= l < |to[p]|
      ensures to[p][l] == if l < r[p] then FirstTaller(r, p + 1, l) else |to|
    {
      assert |next[p]| == |to[p]|;
      LinkIs(ids, nil, next, r, p, l);
      SameTarget(ids, nil, to[p][l], if l < r[p] then FirstTaller(r, p + 1, l) else |to|);
    }
  }

  lemma {:induction false} ReachDrawnFrom<T>(ids: seq<T>, nil: T, next: seq<seq<T>>, to: Table, r: seq<nat>)
    requires Drawn(ids, nil, next, to) && TableReach(to, r)
    ensures Reached(ids, nil, next, r)
  {
    BoundsDrawn(ids, nil, next, to, r);
    forall l: nat
      ensures LevelExact(ids, nil, next, r, l)
    {
      forall p {:trigger next[p]} | 0 <= p < |ids| && l < r[p]
        ensures l < |next[p]| && next[p][l] == At(ids, nil, FirstTaller(r, p + 1, l))
      {
        assert r[p] <= |to[p]| == |next[p]|;
        assert next[p][l] == At(ids, nil, to[p][l]);
      }
    }
    forall p, l {:trigger next[p][l]} | 0 <= p < |next| && r[p] <= l < |next[p]|
      ensures next[p][l] == nil
    {
      assert |next[p]| == |to[p]| && next[p][l] == At(ids, nil, to[p][l]);
    }
  }

  // The table that a reach describes.
  ghost function ReachTable<T>(next: seq<seq<T>>, r: seq<nat>): (to: Table)
    requires |next| == |r|
    ensures |to| == |next| && forall p {:trigger to[p]} :: 0 <= p < |to| ==> to[p] == ReachRow(|next[p]|, r, p)
  {
    seq(|next|, p requires 0 <= p < |next| => ReachRow(|next[p]|, r, p))
  }

  ghost function ReachRow(n: nat, r: seq<nat>, p: nat): (row: seq<nat>)
    requires p < |r|
    ensures |row| == n && forall l {:trigger row[l]} :: 0 <= l < n ==> row[l] == if l < r[p] then FirstTaller(r, p + 1, l) else |r|
  {
    seq(n, l requires 0 <= l < n => if l < r[p] then FirstTaller(r, p + 1, l) else |r|)
  }

  lemma {:induction false} ReachTableDrawn<T>(ids: seq<T>, nil: T, next: seq<seq<T>>, r: seq<nat>)
    requires Reached(ids, nil, next, r)
    ensures Drawn(ids, nil, next, ReachTable(next, r))
  {
    hide Exact, ReachRow, FirstTaller;
    var to := ReachTable(next, r);
    forall p, l {:trigger next[p][l]} {:trigger to[p][l]} | 0 <= p < |to| && 0 <= l < |to[p]|
      ensures to[p][l] <= |ids| && next[p][l] == At(ids, nil, to[p][l])
    {
      assert to[p] == ReachRow(|next[p]|, r, p);
      LinkIs(ids, nil, next, r, p, l);
    }
  }

  lemma {:induction false} ReachForward(to: Table, r: seq<nat>)
    requires TableReach(to, r)
    ensures Forward(to)
  {
    forall p, l {:trigger to[p][l]} | 0 <= p < |to| && 0 <= l < |to[p]|
      ensures p < to[p][l] <= |to| && (to[p][l] < |to| ==> l < |to[to[p][l]]|)
    {
      var q := to[p][l];
      assert q < |to| ==> r[q] <= |to[q]|;
    }
  }

  lemma {:induction false} ReachWalk(to: Table, r: seq<nat>, p: nat, l: nat, bound: nat)
    requires TableReach(to, r) && Forward(to) && p <= bound < |to| && l < |to[p]| && l < r[p]
    ensures l < r[TableWalk(to, p, l, bound)]
    decreases bound - p
  {
    var q := to[p][l];
    if q <= bound {
      ReachWalk(to, r, q, l, bound);
    }
  }

  // With a reach, a descent stops at the last node reached at the level.
  lemma {:induction false} ReachStop(to: Table, r: seq<nat>, l: nat, bound: nat)
    requires TableReach(to, r) && Forward(to) && bound < |to| && l < |to[0]|
    ensures l < r[0] && TableStop(to, l, bound) == LastTaller(r, bound, l)
    decreases |to[0]| - l
  {
    assert r[0] == |to[0]|;
    if l + 1 < |to[0]| {
      ReachStop(to, r, l + 1, bound);
    }
    ReachWalk(to, r, if l + 1 == |to[0]| then 0 else TableStop(to, l + 1, bound), l, bound);
    PredecessorFound(r, TableStop(to, l, bound), l, bound);
  }

  // The stops are the predecessors that a reach names.
  ghost predicate Preds(r: seq<nat>, stops: seq<nat>, bound: nat, h: nat) {
    && bound < |r| && h <= |stops| && h <= r[0]
    && forall l {:trigger stops[l]} :: 0 <= l < h ==> stops[l] == LastTaller(r, bound, l)
  }

  lemma {:induction false} ReachStops(to: Table, r: seq<nat>, bound: nat)
    requires TableReach(to, r) && Forward(to) && bound < |to|
    ensures Preds(r, TableStops(to, bound), bound, |to[0]|) && r[0] == |to[0]|
  {
    hide FirstTaller, LastTaller;
    var stops := TableStops(to, bound);
    assert r[0] == |to[0]|;
    forall l {:trigger stops[l]} | 0 <= l < |to[0]|
      ensures stops[l] == LastTaller(r, bound, l)
    {
      ReachStop(to, r, l, bound);
    }
  }

  // The node that a link of a reached node leads to has that node for its
  // predecessor.
  lemma {:induction false} LinkedByLast(to: Table, r: seq<nat>, p: nat, l: nat, c: nat)
    requires TableReach(to, r) && p < |to| && l < |to[p]| && p < c <= to[p][l] < |to|
    ensures l < r[to[p][l]] && l < r[p] && l < r[0] && p == LastTaller(r, c - 1, l)
  {
    assert r[p] <= |to[p]| <= |to[0]| == r[0];
    LastTallerIs(r, c - 1, l, p);
  }

  // So nothing strays and nothing crosses.
  lemma {:induction false} ReachNoStray(to: Table, r: seq<nat>, at: nat, stops: seq<nat>)
    requires TableReach(to, r) && 0 < at < |to| && Preds(r, stops, at - 1, |to[0]|)
    ensures NoStray(to, at, stops)
  {
    hide FirstTaller, LastTaller;
    ReachForward(to, r);
    forall p, l {:trigger to[p][l]} | 0 <= p < |to| && p != at && 0 <= l < |to[p]| && to[p][l] == at
      ensures l < |to[at]| && l < |stops| && p == stops[l]
    {
      LinkedByLast(to, r, p, l, at);
      assert r[at] <= |to[at]| && r[p] <= |to[p]| <= |to[0]|;
    }
  }

  lemma {:induction false} ReachNoCrossing(to: Table, r: seq<nat>, c: nat, stops: seq<nat>)
    requires TableReach(to, r) && 0 < c <= |to| && Preds(r, stops, c - 1, |to[0]|)
    ensures NoCrossing(to, c, stops)
  {
    hide FirstTaller, LastTaller;
    if p: nat, l: nat :| Crosses(to, c, stops, p, l) {
      LinkedByLast(to, r, p, l, c);
    }
  }

  lemma {:induction false} TallerAfterInsert(r: seq<nat>, at: nat, h: nat, p: nat, l: nat)
    requires 0 < at <= |r| && l < r[0] && p < |r| && l < r[p]
    ensures FirstTaller(InsertAt(r, at, h), Shift(p, at) + 1, l) ==
            if l < h && p == LastTaller(r, at - 1, l) then at else Shift(FirstTaller(r, p + 1, l), at)
  {
    hide InsertAt, FirstTaller, LastTaller;
    var g, q, k := InsertAt(r, at, h), FirstTaller(r, p + 1, l), LastTaller(r, at - 1, l);
    var v := if l < h && p == k then at else Shift(q, at);
    var p' := Shift(p, at);
    forall j | p' + 1 <= j < v
      ensures g[j] <= l
    {
      assert j == at || g[j] == r[Unshift(j, at)];
    }
    assert v <= |r| ==> g[v] > l by {
      assert v == at || v > |r| || g[v] == r[Unshift(v, at)];
    }
    FirstTallerIs(g, p' + 1, l, v);
  }

  lemma {:induction false} TallerAfterNew(r: seq<nat>, at: nat, h: nat, l: nat)
    requires 0 < at <= |r| && l < r[0]
    ensures FirstTaller(InsertAt(r, at, h), at + 1, l) == FirstTaller(r, LastTaller(r, at - 1, l) + 1, l) + 1
  {
    var g, k := InsertAt(r, at, h), LastTaller(r, at - 1, l);
    var q := FirstTaller(r, k + 1, l);
    forall j | at + 1 <= j < q + 1
      ensures g[j] <= l
    {
      assert g[j] == r[j - 1];
    }
    assert q < |r| ==> g[q + 1] == r[q];
    FirstTallerIs(g, at + 1, l, q + 1);
  }

  lemma {:induction false} ReachInserted(to: Table, r: seq<nat>, at: nat, stops: seq<nat>, h: nat)
    requires TableReach(to, r) && 0 < at && StopsOk(to, stops, at - 1, h) && Preds(r, stops, at - 1, h) && 1 <= h
    ensures TableReach(Inserted(to, at, stops, h), InsertAt(r, at, h))
  {
    hide FirstTaller, LastTaller, ShiftedRow, ShiftedRows, NewRow, InsertAt;
    var t, g := Inserted(to, at, stops, h), InsertAt(r, at, h);
    InsertedBounds(to, r, at, stops, h);
    forall p, l {:trigger t[p][l]} | 0 <= p < |t| && 0 <= l < |t[p]|
      ensures t[p][l] == if l < g[p] then FirstTaller(g, p + 1, l) else |t|
    {
      if p == at {
        TallerAfterNew(r, at, h, l);
        var k := stops[l];
        assert to[k][l] == FirstTaller(r, k + 1, l);
      } else {
        ReachShifted(to, r, at, stops, h, Unshift(p, at), l);
      }
    }
  }

  lemma {:induction false} ReachShifted(to: Table, r: seq<nat>, at: nat, stops: seq<nat>, h: nat, p: nat, l: nat)
    requires TableReach(to, r) && 0 < at && StopsOk(to, stops, at - 1, h) && Preds(r, stops, at - 1, h) && p < |to| && l < |to[p]|
    ensures ShiftedRow(to, p, at, stops, h)[l] == if l < r[p] then FirstTaller(InsertAt(r, at, h), Shift(p, at) + 1, l) else |to| + 1
  {
    hide FirstTaller, LastTaller, ShiftedRow, InsertAt;
    assert r[p] <= |to[p]| <= |to[0]| == r[0];
    if l < r[p] {
      TallerAfterInsert(r, at, h, p, l);
    } else {
      assert to[p][l] == |to|;
    }
  }

  lemma {:induction false} InsertedBounds(to: Table, r: seq<nat>, at: nat, stops: seq<nat>, h: nat)
    requires InBounds(to, r) && 0 < at && StopsOk(to, stops, at - 1, h) && 1 <= h <= r[0]
    ensures InBounds(Inserted(to, at, stops, h), InsertAt(r, at, h))
  {
    hide ShiftedRow, ShiftedRows, NewRow, InsertAt;
    var t, g := Inserted(to, at, stops, h), InsertAt(r, at, h);
    assert g[0] == r[0] && |t[0]| == |to[0]|;
    forall p {:trigger t[p]} {:trigger g[p]} | 0 <= p < |g|
      ensures 1 <= g[p] <= |t[p]| && |t[p]| <= |t[0]|
    {
      if p != at {
        var q := Unshift(p, at);
        assert t[p] == ShiftedRow(to, q, at, stops, h) && g[p] == r[q] && 1 <= r[q] <= |to[q]| <= |to[0]|;
      }
    }
  }

  // Taking out a node that is reached at all its levels.
  lemma {:induction false} TallerAfterRemove(r: seq<nat>, at: nat, p: nat, l: nat)
    requires 0 < at < |r| && l < r[0] && p < |r| && p != at && l < r[p]
    ensures FirstTaller(RemoveAt(r, at), Unshift(p, at) + 1, l) ==
            Unshift(if l < r[at] && p == LastTaller(r, at - 1, l) then FirstTaller(r, at + 1, l) else FirstTaller(r, p + 1, l), at)
  {
    hide RemoveAt, FirstTaller, LastTaller;
    var g := RemoveAt(r, at);
    var q := if l < r[at] && p == LastTaller(r, at - 1, l) then FirstTaller(r, at + 1, l) else FirstTaller(r, p + 1, l);
    var p', v := Unshift(p, at), Unshift(q, at);
    assert q != at;
    forall j | p' + 1 <= j < v
      ensures g[j] <= l
    {
      assert g[j] == r[Shift(j, at)];
    }
    assert v < |g| ==> g[v] == r[Shift(v, at)];
    FirstTallerIs(g, p' + 1, l, v);
  }

  lemma {:induction false} ReachRemoved(to: Table, r: seq<nat>, at: nat, stops: seq<nat>)
    requires TableReach(to, r) && 0 < at < |to| && Preds(r, stops, at - 1, |to[0]|) && r[at] == |to[at]|
    ensures |to[at]| <= |stops| && TableReach(Removed(to, at, stops), RemoveAt(r, at))
  {
    hide FirstTaller, LastTaller, Removed, BypassedRow, RemoveAt;
    assert |to[at]| <= |to[0]| == r[0];
    var t, g := Removed(to, at, stops), RemoveAt(r, at);
    RemovedBounds(to, r, at, stops);
    forall p, l {:trigger t[p][l]} | 0 <= p < |t| && 0 <= l < |t[p]|
      ensures t[p][l] == if l < g[p] then FirstTaller(g, p + 1, l) else |t|
    {
      var q := Shift(p, at);
      assert t[p] == BypassedRow(to, q, at, stops) && g[p] == r[q] && r[q] <= |to[q]| <= |to[0]|;
      assert l < |to[at]| ==> to[at][l] == FirstTaller(r, at + 1, l) && stops[l] == LastTaller(r, at - 1, l);
      if l < r[q] {
        TallerAfterRemove(r, at, q, l);
        assert to[q][l] == FirstTaller(r, q + 1, l);
      } else {
        assert to[q][l] == |to|;
        assert l < |to[at]| ==> q != stops[l];
      }
    }
  }

  lemma {:induction false} RemovedBounds(to: Table, r: seq<nat>, at: nat, stops: seq<nat>)
    requires InBounds(to, r) && 0 < at < |to| && |to[at]| <= |stops|
    ensures InBounds(Removed(to, at, stops), RemoveAt(r, at))
  {
    hide Removed, BypassedRow, RemoveAt;
    var t, g := Removed(to, at, stops), RemoveAt(r, at);
    assert t[0] == BypassedRow(to, 0, at, stops) && g[0] == r[0];
    forall p {:trigger t[p]} {:trigger g[p]} | 0 <= p < |g|
      ensures 1 <= g[p] <= |t[p]| && |t[p]| <= |t[0]|
    {
      var q := Shift(p, at);
      assert t[p] == BypassedRow(to, q, at, stops) && g[p] == r[q] && 1 <= r[q] <= |to[q]| <= |to[0]|;
    }
  }

  // After a cut the kept nodes past b are linked at level 0 only.
  ghost function CutReach(r: seq<nat>, c: nat, b: nat): (g: seq<nat>)
    requires c <= |r|
    ensures |g| == c && forall p {:trigger g[p]} :: 0 <= p < c ==> g[p] == if p > b then 1 else r[p]
  {
    seq(c, p requires 0 <= p < c => if p > b then 1 else r[p])
  }

  lemma {:induction false} TallerAfterCut(r: seq<nat>, c: nat, b: nat, p: nat, l: nat)
    requires p < c <= |r| && forall j :: 0 <= j < |r| ==> r[j] >= 1
    ensures var q := FirstTaller(r, p + 1, l);
      FirstTaller(CutReach(r, c, b), p + 1, l) == if q < c && (l == 0 || q <= b) then q else c
  {
    var g, q := CutReach(r, c, b), FirstTaller(r, p + 1, l);
    var v := if q < c && (l == 0 || q <= b) then q else c;
    if l == 0 {
      FirstTallerIs(r, p + 1, 0, p + 1);
    }
    FirstTallerIs(g, p + 1, l, v);
  }

  lemma {:induction false} ReachCut(to: Table, r: seq<nat>, c: nat, b: nat)
    requires TableReach(to, r) && 0 < c <= |to|
    ensures TableReach(CutTable(to, c, b), CutReach(r, c, b))
  {
    hide CutRow, FirstTaller;
    var t, g := CutTable(to, c, b), CutReach(r, c, b);
    CutBounds(to, r, c, b);
    forall j | 0 <= j < |r|
      ensures r[j] >= 1
    {
      assert 1 <= r[j] <= |to[j]|;
    }
    forall p, l {:trigger t[p][l]} | 0 <= p < c && 0 <= l < |t[p]|
      ensures t[p][l] == if l < g[p] then FirstTaller(g, p + 1, l) else c
    {
      assert t[p] == CutRow(to[p], c, b);
      var q := to[p][l];
      TallerAfterCut(r, c, b, p, l);
      assert q == if l < r[p] then FirstTaller(r, p + 1, l) else |to|;
    }
  }

  lemma {:induction false} CutBounds(to: Table, r: seq<nat>, c: nat, b: nat)
    requires InBounds(to, r) && 0 < c <= |to|
    ensures InBounds(CutTable(to, c, b), CutReach(r, c, b))
  {
    hide CutRow;
    var t, g := CutTable(to, c, b), CutReach(r, c, b);
    assert t[0] == CutRow(to[0], c, b) && 1 <= r[0] <= |to[0]|;
    forall p {:trigger t[p]} {:trigger g[p]} | 0 <= p < c
      ensures 1 <= g[p] <= |t[p]| && |t[p]| <= |t[0]|
    {
      assert t[p] == CutRow(to[p], c, b) && 1 <= r[p] <= |to[p]| <= |to[0]|;
    }
  }
}

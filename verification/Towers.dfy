// Positions and heights: the value-level theory behind the skiplist towers.
//
// A skiplist is a sequence of nodes in list order, the head sentinel at
// position 0, and the height of each node. That alone determines every link:
// the level-l successor of position p is the first later position whose
// height exceeds l.
module Towers {

  function FirstTaller(h: seq<nat>, from: nat, level: nat): (r: nat)
    requires from <= |h|
    ensures from <= r <= |h|
    ensures forall j :: from <= j < r ==> h[j] <= level
    ensures r < |h| ==> h[r] > level
    decreases |h| - from
  {
    if from == |h| || h[from] > level then from else FirstTaller(h, from + 1, level)
  }

  // The last position up to `upto` that is linked at `level`; the head is
  // linked everywhere, so there always is one.
  function LastTaller(h: seq<nat>, upto: nat, level: nat): (r: nat)
    requires upto < |h| && h[0] > level
    ensures r <= upto && h[r] > level
    ensures forall j :: r < j <= upto ==> h[j] <= level
  {
    if h[upto] > level then upto else LastTaller(h, upto - 1, level)
  }

  lemma FirstTallerIs(h: seq<nat>, from: nat, level: nat, r: nat)
    requires from <= r <= |h|
    requires forall j :: from <= j < r ==> h[j] <= level
    requires r < |h| ==> h[r] > level
    ensures FirstTaller(h, from, level) == r
  {
  }

  lemma LastTallerIs(h: seq<nat>, upto: nat, level: nat, r: nat)
    requires r <= upto < |h| && h[0] > level && h[r] > level
    requires forall j :: r < j <= upto ==> h[j] <= level
    ensures LastTaller(h, upto, level) == r
  {
  }

  // Searching down from p at `level`, when the next linked position is past
  // the boundary, p is the predecessor at that level.
  lemma {:induction false} PredecessorFound(h: seq<nat>, p: nat, level: nat, bound: nat)
    requires p <= bound < |h| && h[0] > level && h[p] > level
    requires FirstTaller(h, p + 1, level) > bound
    ensures LastTaller(h, bound, level) == p
  {
    LastTallerIs(h, bound, level, p);
  }

  function InsertAt<T>(s: seq<T>, at: nat, x: T): (r: seq<T>)
    requires at <= |s|
    ensures |r| == |s| + 1 && r[at] == x
    ensures forall j {:trigger r[j]} :: 0 <= j < at ==> r[j] == s[j]
    ensures forall j {:trigger r[j]} :: at < j <= |s| ==> r[j] == s[j - 1]
  {
    s[..at] + [x] + s[at..]
  }

  function RemoveAt<T>(s: seq<T>, at: nat): (r: seq<T>)
    requires at < |s|
    ensures |r| == |s| - 1
    ensures forall j {:trigger r[j]} :: 0 <= j < at ==> r[j] == s[j]
    ensures forall j {:trigger r[j]} :: at <= j < |r| ==> r[j] == s[j + 1]
  {
    s[..at] + s[at + 1..]
  }

  ghost predicate Differ<T>(s: seq<T>, i: nat, j: nat) {
    i < |s| && j < |s| ==> s[i] != s[j]
  }

  ghost predicate Distinct<T>(s: seq<T>) {
    forall i: nat, j: nat {:trigger Differ(s, i, j)} :: i != j ==> Differ(s, i, j)
  }

  lemma DistinctFrom<T>(s: seq<T>, k: nat)
    requires Distinct(s) && k < |s|
    ensures forall p :: 0 <= p < |s| && p != k ==> s[p] != s[k]
  {
    forall p | 0 <= p < |s| && p != k
      ensures s[p] != s[k]
    {
      assert Differ(s, p, k);
    }
  }

  lemma DistinctInsert<T>(s: seq<T>, at: nat, x: T)
    requires Distinct(s) && at <= |s| && x !in s
    ensures Distinct(InsertAt(s, at, x))
  {
    var t := InsertAt(s, at, x);
    forall i: nat, j: nat | i != j
      ensures Differ(t, i, j)
    {
      if i < |t| && j < |t| {
        if i != at && j != at {
          assert Differ(s, if i < at then i else i - 1, if j < at then j else j - 1);
        } else if i == at {
          assert t[j] in s;
        } else {
          assert t[i] in s;
        }
      }
    }
  }

  lemma DistinctRemove<T>(s: seq<T>, at: nat)
    requires Distinct(s) && at < |s|
    ensures Distinct(RemoveAt(s, at)) && s[at] !in RemoveAt(s, at)
  {
    var t := RemoveAt(s, at);
    DistinctFrom(s, at);
    forall i: nat, j: nat | i != j
      ensures Differ(t, i, j)
    {
      assert Differ(s, if i < at then i else i + 1, if j < at then j else j + 1);
    }
  }

  lemma DistinctPrefix<T>(s: seq<T>, c: nat)
    requires Distinct(s) && c <= |s|
    ensures Distinct(s[..c])
  {
    forall i: nat, j: nat | i != j
      ensures Differ(s[..c], i, j)
    {
      assert Differ(s, i, j);
    }
  }

  function At<T>(ids: seq<T>, nil: T, q: nat): T {
    if q < |ids| then ids[q] else nil
  }

  // Level l is exactly the positions taller than l, linked in list order.
  // next[p][l] is the level-l link of position p and nil ends a level.
  ghost predicate LevelExact<T>(ids: seq<T>, nil: T, next: seq<seq<T>>, h: seq<nat>, l: nat) {
    && |next| == |h| == |ids|
    && forall p {:trigger next[p]} :: 0 <= p < |ids| && l < h[p] ==>
         l < |next[p]| && next[p][l] == At(ids, nil, FirstTaller(h, p + 1, l))
  }

  lemma {:induction false} NextAfterInsert(h: seq<nat>, l: nat, at: nat, p: nat)
    requires 0 < at <= |h| && p < |h|
    ensures var q := FirstTaller(h, p + 1, l);
            FirstTaller(InsertAt(h, at, 0), (if p < at then p else p + 1) + 1, l) == if q < at then q else q + 1
  {
    var g := InsertAt(h, at, 0);
    var p' := if p < at then p else p + 1;
    var q := FirstTaller(h, p + 1, l);
    var q' := if q < at then q else q + 1;
    forall j | p' + 1 <= j < q'
      ensures g[j] <= l
    {
      assert j == at || g[j] == h[if j < at then j else j - 1];
    }
    FirstTallerIs(g, p' + 1, l, q');
  }

  lemma AtAfterInsert<T>(ids: seq<T>, nil: T, at: nat, x: T, q: nat)
    requires at <= |ids| && q <= |ids|
    ensures At(InsertAt(ids, at, x), nil, if q < at then q else q + 1) == At(ids, nil, q)
  {
  }

  lemma AtAfterRemove<T>(ids: seq<T>, nil: T, at: nat, q: nat)
    requires at < |ids| && q <= |ids| && q != at
    ensures At(RemoveAt(ids, at), nil, if q < at then q else q - 1) == At(ids, nil, q)
  {
  }

  lemma {:induction false} AddUnlinkedAt<T>(ids: seq<T>, nil: T, next: seq<seq<T>>, h: seq<nat>, l: nat,
                                            at: nat, x: T, row: seq<T>, p: nat)
    requires LevelExact(ids, nil, next, h, l) && 0 < at <= |ids| && p <= |ids| && l < InsertAt(h, at, 0)[p]
    ensures var r := InsertAt(next, at, row)[p];
            l < |r| && r[l] == At(InsertAt(ids, at, x), nil, FirstTaller(InsertAt(h, at, 0), p + 1, l))
  {
    var p0 := if p < at then p else p - 1;
    NextAfterInsert(h, l, at, p0);
    AtAfterInsert(ids, nil, at, x, FirstTaller(h, p0 + 1, l));
    assert InsertAt(next, at, row)[p] == next[p0];
  }

  // A node that is linked nowhere can be added to the list...
  lemma {:induction false} AddUnlinked<T>(ids: seq<T>, nil: T, next: seq<seq<T>>, h: seq<nat>, l: nat,
                                          at: nat, x: T, row: seq<T>)
    requires LevelExact(ids, nil, next, h, l) && 0 < at <= |ids|
    ensures LevelExact(InsertAt(ids, at, x), nil, InsertAt(next, at, row), InsertAt(h, at, 0), l)
  {
    var next' := InsertAt(next, at, row);
    forall p | 0 <= p <= |ids| && l < InsertAt(h, at, 0)[p]
      ensures l < |next'[p]|
      ensures next'[p][l] == At(InsertAt(ids, at, x), nil, FirstTaller(InsertAt(h, at, 0), p + 1, l))
    {
      AddUnlinkedAt(ids, nil, next, h, l, at, x, row, p);
    }
  }

  lemma {:induction false} NextAfterRemove(h: seq<nat>, l: nat, at: nat, p: nat)
    requires 0 < at < |h| && p < |h| && p != at && h[at] == 0
    ensures var q := FirstTaller(h, p + 1, l);
            q != at
            && FirstTaller(RemoveAt(h, at), if p < at then p + 1 else p, l) == if q < at then q else q - 1
  {
    var g := RemoveAt(h, at);
    var p' := if p < at then p else p - 1;
    var q := FirstTaller(h, p + 1, l);
    var q' := if q < at then q else q - 1;
    forall j | p' + 1 <= j < q'
      ensures g[j] <= l
    {
      assert g[j] == h[if j < at then j else j + 1];
    }
    FirstTallerIs(g, p' + 1, l, q');
  }

  lemma {:induction false} DropUnlinkedAt<T>(ids: seq<T>, nil: T, next: seq<seq<T>>, h: seq<nat>, l: nat,
                                             at: nat, p: nat)
    requires LevelExact(ids, nil, next, h, l) && 0 < at < |ids| && h[at] == 0
    requires p < |ids| - 1 && l < RemoveAt(h, at)[p]
    ensures var r := RemoveAt(next, at)[p];
            l < |r| && r[l] == At(RemoveAt(ids, at), nil, FirstTaller(RemoveAt(h, at), p + 1, l))
  {
    var p0 := if p < at then p else p + 1;
    NextAfterRemove(h, l, at, p0);
    AtAfterRemove(ids, nil, at, FirstTaller(h, p0 + 1, l));
    assert RemoveAt(next, at)[p] == next[p0];
  }

  // ... and removed from it.
  lemma {:induction false} DropUnlinked<T>(ids: seq<T>, nil: T, next: seq<seq<T>>, h: seq<nat>, l: nat, at: nat)
    requires LevelExact(ids, nil, next, h, l) && 0 < at < |ids| && h[at] == 0
    ensures LevelExact(RemoveAt(ids, at), nil, RemoveAt(next, at), RemoveAt(h, at), l)
  {
    var next' := RemoveAt(next, at);
    forall p | 0 <= p < |ids| - 1 && l < RemoveAt(h, at)[p]
      ensures l < |next'[p]|
      ensures next'[p][l] == At(RemoveAt(ids, at), nil, FirstTaller(RemoveAt(h, at), p + 1, l))
    {
      DropUnlinkedAt(ids, nil, next, h, l, at, p);
    }
  }

  // Raising the node at `at` above l redirects the level-l successor of its
  // predecessor and of no other taller node.
  lemma {:induction false} NextAfterRaise(h: seq<nat>, l: nat, at: nat, height: nat, p: nat)
    requires 0 < at < |h| && p < |h| && h[at] <= l < height && l < h[0]
    requires p == at || l < h[p]
    ensures FirstTaller(h[at := height], p + 1, l) ==
              if p == LastTaller(h, at - 1, l) then at else FirstTaller(h, p + 1, l)
  {
    var k := LastTaller(h, at - 1, l);
    if p < k {
      assert FirstTaller(h, p + 1, l) <= k;
    }
    FirstTallerIs(h[at := height], p + 1, l, if p == k then at else FirstTaller(h, p + 1, l));
  }

  // The new node takes over the successor of its predecessor.
  lemma {:induction false} NextTakenOver(h: seq<nat>, l: nat, at: nat)
    requires 0 < at < |h| && h[at] <= l < h[0]
    ensures FirstTaller(h, at + 1, l) == FirstTaller(h, LastTaller(h, at - 1, l) + 1, l)
  {
    FirstTallerIs(h, LastTaller(h, at - 1, l) + 1, l, FirstTaller(h, at + 1, l));
  }

  // Storing two links threads the node at `at` into level l ...
  lemma {:induction false} ThreadLevel<T>(ids: seq<T>, nil: T, next: seq<seq<T>>, h: seq<nat>, l: nat,
                                          at: nat, height: nat, k: nat)
    requires LevelExact(ids, nil, next, h, l) && 0 < at < |ids|
    requires h[at] <= l < height && l < |next[at]| && l < h[0]
    requires k == LastTaller(h, at - 1, l)
    ensures LevelExact(ids, nil, next[at := next[at][l := next[k][l]]][k := next[k][l := ids[at]]],
                       h[at := height], l)
  {
    var next' := next[at := next[at][l := next[k][l]]][k := next[k][l := ids[at]]];
    var g := h[at := height];
    forall p | 0 <= p < |ids| && l < g[p]
      ensures l < |next'[p]| && next'[p][l] == At(ids, nil, FirstTaller(g, p + 1, l))
    {
      NextAfterRaise(h, l, at, height, p);
      NextTakenOver(h, l, at);
    }
  }

  lemma {:induction false} NextAfterBypass(h: seq<nat>, l: nat, at: nat, p: nat)
    requires 0 < at < |h| && p < |h| && l < h[at] && l < h[0] && p != at && l < h[p]
    ensures var k := LastTaller(h, at - 1, l);
            FirstTaller(h[at := 0], p + 1, l) == FirstTaller(h, (if p == k then at else p) + 1, l)
  {
    var k := LastTaller(h, at - 1, l);
    FirstTallerIs(h[at := 0], p + 1, l, FirstTaller(h, (if p == k then at else p) + 1, l));
  }

  // A level depends on one column of the links only.
  lemma {:induction false} SameColumn<T>(ids: seq<T>, nil: T, next: seq<seq<T>>, next': seq<seq<T>>, h: seq<nat>, l: nat)
    requires LevelExact(ids, nil, next, h, l) && |next'| == |next|
    requires forall p {:trigger next'[p]} :: 0 <= p < |next| && l < |next[p]| ==>
               l < |next'[p]| && next'[p][l] == next[p][l]
    ensures LevelExact(ids, nil, next', h, l)
  {
  }

  // A level depends on the heights only through who is taller than it.
  lemma {:induction false} SameTaller<T>(ids: seq<T>, nil: T, next: seq<seq<T>>, h: seq<nat>, g: seq<nat>, l: nat)
    requires LevelExact(ids, nil, next, h, l) && |g| == |h|
    requires forall p :: 0 <= p < |h| ==> (l < h[p] <==> l < g[p])
    ensures LevelExact(ids, nil, next, g, l)
  {
    forall p | 0 <= p < |ids| && l < g[p]
      ensures FirstTaller(g, p + 1, l) == FirstTaller(h, p + 1, l)
    {
      FirstTallerIs(g, p + 1, l, FirstTaller(h, p + 1, l));
    }
  }

  ghost predicate Exact<T>(ids: seq<T>, nil: T, next: seq<seq<T>>, h: seq<nat>) {
    forall l: nat :: LevelExact(ids, nil, next, h, l)
  }

  lemma {:induction false} ExactAddUnlinked<T>(ids: seq<T>, nil: T, next: seq<seq<T>>, h: seq<nat>,
                                               at: nat, x: T, row: seq<T>)
    requires |ids| == |next| == |h| && 0 < at <= |ids| && Exact(ids, nil, next, h)
    ensures Exact(InsertAt(ids, at, x), nil, InsertAt(next, at, row), InsertAt(h, at, 0))
  {
    forall l: nat
      ensures LevelExact(InsertAt(ids, at, x), nil, InsertAt(next, at, row), InsertAt(h, at, 0), l)
    {
      assert LevelExact(ids, nil, next, h, l);
      AddUnlinked(ids, nil, next, h, l, at, x, row);
    }
  }

  // The predecessors of a position do not depend on what follows it.
  lemma {:induction false} LastTallerInsert(h: seq<nat>, at: nat, l: nat)
    requires 0 < at <= |h| && l < h[0]
    ensures LastTaller(InsertAt(h, at, 0), at - 1, l) == LastTaller(h, at - 1, l)
  {
    LastTallerIs(InsertAt(h, at, 0), at - 1, l, LastTaller(h, at - 1, l));
  }

  // The two stores of one round of the insertion loop.
  function ThreadStores<T>(ids: seq<T>, next: seq<seq<T>>, at: nat, k: nat, l: nat): seq<seq<T>>
    requires at < |ids| == |next| && k < |ids| && l < |next[at]| && l < |next[k]|
  {
    next[at := next[at][l := next[k][l]]][k := next[k][l := ids[at]]]
  }

  // One round of the insertion loop: the node at `at`, linked at the levels
  // below i, becomes linked at level i too, and no other level changes.
  lemma {:induction false} ThreadOne<T>(ids: seq<T>, nil: T, next: seq<seq<T>>, h: seq<nat>, at: nat, k: nat)
    requires |ids| == |next| == |h| && 0 < at < |ids| && h[at] < h[0]
    requires Exact(ids, nil, next, h)
    requires h[at] < |next[at]| && k == LastTaller(h, at - 1, h[at]) && h[at] < |next[k]|
    ensures Exact(ids, nil, ThreadStores(ids, next, at, k, h[at]), h[at := h[at] + 1])
  {
    var i, g, next' := h[at], h[at := h[at] + 1], ThreadStores(ids, next, at, k, h[at]);
    forall l: nat
      ensures LevelExact(ids, nil, next', g, l)
    {
      assert LevelExact(ids, nil, next, h, l);
      if l == i {
        ThreadLevel(ids, nil, next, h, i, at, i + 1, k);
      } else {
        SameColumn(ids, nil, next, next', h, l);
        SameTaller(ids, nil, next', h, g, l);
      }
    }
  }

  // The two stores of one round of the removal loop.
  function BypassStores<T>(next: seq<seq<T>>, nil: T, at: nat, k: nat, l: nat): seq<seq<T>>
    requires at < |next| && k < |next| && l < |next[at]| && l < |next[k]|
  {
    next[k := next[k][l := next[at][l]]][at := next[at][l := nil]]
  }

  // The positions linked at level l, in list order.
  function Level(h: seq<nat>, l: nat): (ps: seq<nat>) {
    if h == [] then [] else
      var n := |h| - 1;
      Level(h[..n], l) + if h[n] > l then [n] else []
  }

  ghost predicate IsLevel(ps: seq<nat>, h: seq<nat>, l: nat) {
    && (forall j :: 0 <= j < |ps| ==> ps[j] < |h| && h[ps[j]] > l)
    && (forall j, k :: 0 <= j < k < |ps| ==> ps[j] < ps[k])
    && (forall p :: 0 <= p < |h| && h[p] > l ==> p in ps)
  }

  lemma {:induction false} LevelFacts(h: seq<nat>, l: nat)
    ensures IsLevel(Level(h, l), h, l)
  {
    if h != [] {
      var n := |h| - 1;
      LevelFacts(h[..n], l);
      LevelMore(Level(h[..n], l), h[..n], h[n], l);
      assert h == h[..n] + [h[n]];
    }
  }

  lemma {:induction false} LevelMore(rest: seq<nat>, h: seq<nat>, x: nat, l: nat)
    requires IsLevel(rest, h, l)
    ensures IsLevel(rest + if x > l then [|h|] else [], h + [x], l)
  {
    var n, g := |h|, h + [x];
    var ps := rest + if x > l then [n] else [];
    forall p | 0 <= p < |g| && g[p] > l
      ensures p in ps
    {
      if p < n {
        assert p in rest;
      } else {
        assert ps[|rest|] == p;
      }
    }
  }

  lemma {:induction false} LevelStep(ps: seq<nat>, h: seq<nat>, l: nat, j: nat)
    requires IsLevel(ps, h, l) && j < |ps|
    ensures FirstTaller(h, ps[j] + 1, l) == if j + 1 < |ps| then ps[j + 1] else |h|
  {
    var q := if j + 1 < |ps| then ps[j + 1] else |h|;
    forall i | ps[j] + 1 <= i < q
      ensures h[i] <= l
    {
      assert forall k :: 0 <= k <= j ==> ps[k] <= ps[j];
      assert forall k :: j + 1 <= k < |ps| ==> ps[j + 1] <= ps[k];
      assert i !in ps;
    }
    FirstTallerIs(h, ps[j] + 1, l, q);
  }

  // The links of level l run through the positions ps, in order, to nil.
  ghost predicate IsChain<T>(ids: seq<T>, nil: T, next: seq<seq<T>>, ps: seq<nat>, l: nat) {
    forall j {:trigger next[ps[j]]} :: 0 <= j < |ps| ==>
      && ps[j] < |next| && l < |next[ps[j]]|
      && next[ps[j]][l] == if j + 1 < |ps| then At(ids, nil, ps[j + 1]) else nil
  }

  // A level is exact just when its links run through exactly the positions
  // tall enough, in list order.
  lemma {:induction false} LevelIsChain<T>(ids: seq<T>, nil: T, next: seq<seq<T>>, h: seq<nat>, l: nat)
    requires |ids| == |next| == |h|
    ensures LevelExact(ids, nil, next, h, l) <==> IsChain(ids, nil, next, Level(h, l), l)
  {
    LevelFacts(h, l);
    ExactIsChain(ids, nil, next, h, l, Level(h, l));
    ChainIsExact(ids, nil, next, h, l, Level(h, l));
  }

  lemma {:induction false} ExactIsChain<T>(ids: seq<T>, nil: T, next: seq<seq<T>>, h: seq<nat>, l: nat, ps: seq<nat>)
    requires |ids| == |next| == |h| && IsLevel(ps, h, l)
    ensures LevelExact(ids, nil, next, h, l) ==> IsChain(ids, nil, next, ps, l)
  {
    if LevelExact(ids, nil, next, h, l) {
      forall j | 0 <= j < |ps|
        ensures ps[j] < |next| && l < |next[ps[j]]|
        ensures next[ps[j]][l] == if j + 1 < |ps| then At(ids, nil, ps[j + 1]) else nil
      {
        LevelStep(ps, h, l, j);
      }
    }
  }

  lemma {:induction false} ChainIsExact<T>(ids: seq<T>, nil: T, next: seq<seq<T>>, h: seq<nat>, l: nat, ps: seq<nat>)
    requires |ids| == |next| == |h| && IsLevel(ps, h, l)
    ensures IsChain(ids, nil, next, ps, l) ==> LevelExact(ids, nil, next, h, l)
  {
    if IsChain(ids, nil, next, ps, l) {
      forall p | 0 <= p < |ids| && l < h[p]
        ensures l < |next[p]| && next[p][l] == At(ids, nil, FirstTaller(h, p + 1, l))
      {
        var j :| 0 <= j < |ps| && ps[j] == p;
        LevelStep(ps, h, l, j);
      }
    }
  }

  // Each level is a sublist of the one below.
  lemma LevelNested(h: seq<nat>, l: nat)
    ensures forall p :: p in Level(h, l + 1) ==> p in Level(h, l)
  {
    LevelFacts(h, l);
    LevelFacts(h, l + 1);
  }
}

// Three-way comparators and sorted key sequences.
module Ordering {

  ghost predicate AtMost<K>(cmp: (K, K) -> int, a: K, b: K) {
    cmp(a, b) <= 0
  }

  // The comparator contract: a three-way function that is a strict weak order.
  ghost predicate IsOrder<K(!new)>(cmp: (K, K) -> int) {
    && (forall a, b {:trigger AtMost(cmp, a, b)} :: cmp(a, b) > 0 <==> cmp(b, a) < 0)
    && (forall a, b, c {:trigger AtMost(cmp, a, b), AtMost(cmp, b, c)} ::
          AtMost(cmp, a, b) && AtMost(cmp, b, c) ==> AtMost(cmp, a, c))
  }

  // DefaultComparator: descending on unsigned 64-bit keys.
  function Descending(a: nat, b: nat): int {
    if a > b then -1 else if a == b then 0 else 1
  }

  lemma DescendingIsOrder()
    ensures IsOrder(Descending)
    ensures forall a: nat, b: nat :: (Descending(a, b) < 0 <==> a > b) && (Descending(a, b) == 0 <==> a == b)
  {
    var cmp: (nat, nat) -> int := Descending;
    forall a: nat, b: nat
      ensures cmp(a, b) > 0 <==> cmp(b, a) < 0
    {
    }
    forall a: nat, b: nat, c: nat | AtMost(cmp, a, b) && AtMost(cmp, b, c)
      ensures AtMost(cmp, a, c)
    {
    }
  }

  ghost predicate Sorted<K>(cmp: (K, K) -> int, keys: seq<K>) {
    forall i, j {:trigger cmp(keys[i], keys[j])} :: 0 <= i < j < |keys| ==> cmp(keys[i], keys[j]) <= 0
  }

  // Where the run of keys smaller than k ends.
  function LowerBound<K>(cmp: (K, K) -> int, keys: seq<K>, k: K): (r: nat)
    ensures r <= |keys|
    ensures forall j :: 0 <= j < r ==> cmp(keys[j], k) < 0
    ensures r < |keys| ==> cmp(keys[r], k) >= 0
  {
    if keys == [] || cmp(keys[0], k) >= 0 then 0 else
      var r := LowerBound(cmp, keys[1..], k);
      assert forall j :: 0 < j < |keys| ==> keys[j] == keys[1..][j - 1];
      r + 1
  }

  // Where the run of keys not larger than k ends.
  function UpperBound<K>(cmp: (K, K) -> int, keys: seq<K>, k: K): (r: nat)
    ensures r <= |keys|
    ensures forall j :: 0 <= j < r ==> cmp(keys[j], k) <= 0
    ensures r < |keys| ==> cmp(keys[r], k) > 0
  {
    if keys == [] || cmp(keys[0], k) > 0 then 0 else
      var r := UpperBound(cmp, keys[1..], k);
      assert forall j :: 0 < j < |keys| ==> keys[j] == keys[1..][j - 1];
      r + 1
  }

  lemma Flip<K(!new)>(cmp: (K, K) -> int, a: K, b: K)
    requires IsOrder(cmp)
    ensures cmp(a, b) > 0 <==> cmp(b, a) < 0
    ensures cmp(a, b) < 0 <==> cmp(b, a) > 0
  {
    assert AtMost(cmp, a, b) || !AtMost(cmp, a, b);
    assert AtMost(cmp, b, a) || !AtMost(cmp, b, a);
  }

  lemma Through<K(!new)>(cmp: (K, K) -> int, a: K, b: K, k: K)
    requires IsOrder(cmp) && cmp(a, b) <= 0
    ensures cmp(b, k) < 0 ==> cmp(a, k) < 0
    ensures cmp(b, k) <= 0 ==> cmp(a, k) <= 0
    ensures cmp(k, a) <= 0 ==> cmp(k, b) <= 0
  {
    Flip(cmp, a, k);
    Flip(cmp, b, k);
    Flip(cmp, a, b);
    assert AtMost(cmp, a, b);
    assert AtMost(cmp, b, k) ==> AtMost(cmp, a, k);
    assert AtMost(cmp, k, a) ==> AtMost(cmp, k, b);
  }

  // On a sorted list each bound splits the whole list, not only a prefix.
  lemma {:induction false} BoundsSplitAt<K(!new)>(cmp: (K, K) -> int, keys: seq<K>, k: K, j: nat)
    requires IsOrder(cmp) && Sorted(cmp, keys) && j < |keys|
    ensures cmp(keys[j], k) < 0 <==> j < LowerBound(cmp, keys, k)
    ensures cmp(k, keys[j]) > 0 <==> j < LowerBound(cmp, keys, k)
    ensures cmp(keys[j], k) <= 0 <==> j < UpperBound(cmp, keys, k)
  {
    var lo, hi := LowerBound(cmp, keys, k), UpperBound(cmp, keys, k);
    Flip(cmp, keys[j], k);
    if lo < j {
      Through(cmp, keys[lo], keys[j], k);
    }
    if hi < j {
      Through(cmp, keys[hi], keys[j], k);
    }
  }

  lemma {:induction false} BoundsSplit<K(!new)>(cmp: (K, K) -> int, keys: seq<K>, k: K)
    requires IsOrder(cmp) && Sorted(cmp, keys)
    ensures forall j :: 0 <= j < |keys| ==> (cmp(keys[j], k) < 0 <==> j < LowerBound(cmp, keys, k))
    ensures forall j :: 0 <= j < |keys| ==> (cmp(k, keys[j]) > 0 <==> j < LowerBound(cmp, keys, k))
    ensures forall j :: 0 <= j < |keys| ==> (cmp(keys[j], k) <= 0 <==> j < UpperBound(cmp, keys, k))
    ensures LowerBound(cmp, keys, k) <= UpperBound(cmp, keys, k)
  {
    forall j | 0 <= j < |keys|
      ensures cmp(keys[j], k) < 0 <==> j < LowerBound(cmp, keys, k)
      ensures cmp(k, keys[j]) > 0 <==> j < LowerBound(cmp, keys, k)
      ensures cmp(keys[j], k) <= 0 <==> j < UpperBound(cmp, keys, k)
    {
      BoundsSplitAt(cmp, keys, k, j);
    }
  }

  lemma SortedInsert<K(!new)>(cmp: (K, K) -> int, keys: seq<K>, k: K, at: nat)
    requires IsOrder(cmp) && Sorted(cmp, keys) && at <= |keys|
    requires forall j :: 0 <= j < at ==> cmp(keys[j], k) <= 0
    requires forall j :: at <= j < |keys| ==> cmp(k, keys[j]) <= 0
    ensures Sorted(cmp, keys[..at] + [k] + keys[at..])
  {
  }
}

// Towers that are not all linked as high as they are built. The reach of a node
// is the number of levels at which the links lead to it; above its reach its own
// links are nil. A list whose every node is reached at all its levels is exact.

module Reach {
  import opened Towers

  ghost predicate NullAbove<T>(nil: T, next: seq<seq<T>>, r: seq<nat>) {
    && |r| == |next|
    && forall p, l {:trigger next[p][l]} :: 0 <= p < |next| && r[p] <= l < |next[p]| ==> next[p][l] == nil
  }

  ghost predicate InBounds<T>(next: seq<seq<T>>, r: seq<nat>) {
    && |next| == |r| > 0 && r[0] == |next[0]|
    && forall p {:trigger next[p]} {:trigger r[p]} :: 0 <= p < |r| ==> 1 <= r[p] <= |next[p]| <= |next[0]|
  }

  // Level l links exactly the nodes whose reach exceeds l.
  ghost predicate Reached<T>(ids: seq<T>, nil: T, next: seq<seq<T>>, r: seq<nat>) {
    |ids| == |next| && InBounds(next, r) && Exact(ids, nil, next, r) && NullAbove(nil, next, r)
  }

  ghost predicate Named<T>(ids: seq<T>, nil: T) {
    Distinct(ids) && nil !in ids
  }

  lemma {:induction false} SamePosition<T>(ids: seq<T>, nil: T, p: nat, q: nat)
    requires Named(ids, nil) && p < |ids| && q <= |ids| && At(ids, nil, q) == ids[p]
    ensures q == p
  {
    assert q == p || Differ(ids, q, p);
  }

  // What a link is, from the reach.
  lemma {:induction false} LinkIs<T>(ids: seq<T>, nil: T, next: seq<seq<T>>, r: seq<nat>, p: nat, l: nat)
    requires Reached(ids, nil, next, r) && p < |ids| && l < |next[p]|
    ensures next[p][l] == if l < r[p] then At(ids, nil, FirstTaller(r, p + 1, l)) else nil
  {
    assert LevelExact(ids, nil, next, r, l);
  }

  // A link to position q at level l comes from the last node before q that is
  // reached at l, and only if q is reached at l.
  lemma {:induction false} LinkedFrom<T>(ids: seq<T>, nil: T, next: seq<seq<T>>, r: seq<nat>, p: nat, l: nat, q: nat)
    requires Reached(ids, nil, next, r) && Named(ids, nil) && p < |ids| && l < |next[p]| && q < |ids|
    requires next[p][l] == ids[q]
    ensures p < q && l < r[q] && l < r[p] && l < r[0] && p == LastTaller(r, q - 1, l)
  {
    LinkIs(ids, nil, next, r, p, l);
    assert next[p][l] != nil by {
      assert ids[q] in ids;
    }
    var f := FirstTaller(r, p + 1, l);
    SamePosition(ids, nil, q, f);
    assert r[p] <= |next[p]| <= |next[0]|;
    LastTallerIs(r, q - 1, l, p);
  }

  // The links determine the reach: it is the height everywhere if and only if
  // the towers are exact.
  lemma {:induction false} ReachUnique<T>(ids: seq<T>, nil: T, next: seq<seq<T>>, r: seq<nat>, h: seq<nat>)
    requires Reached(ids, nil, next, r) && Named(ids, nil)
    requires |h| == |next| && forall p {:trigger next[p]} :: 0 <= p < |next| ==> h[p] == |next[p]|
    ensures Exact(ids, nil, next, h) <==> r == h
  {
    if Exact(ids, nil, next, h) {
      forall p | 0 <= p < |r|
        ensures r[p] == h[p]
      {
        assert r[p] <= |next[p]|;
        if r[p] < h[p] {
          MissedBy(ids, nil, next, r, h, p);
        }
      }
    }
  }

  // A node that is not reached at a level although it is built so high is
  // missed by the node that should link it.
  lemma {:induction false} MissedBy<T>(ids: seq<T>, nil: T, next: seq<seq<T>>, r: seq<nat>, h: seq<nat>, p: nat)
    requires Reached(ids, nil, next, r) && Named(ids, nil)
    requires |h| == |next| && forall p {:trigger next[p]} :: 0 <= p < |next| ==> h[p] == |next[p]|
    requires p < |r| && r[p] < h[p]
    ensures !LevelExact(ids, nil, next, h, r[p])
  {
    var l := r[p];
    assert p > 0 && l < h[p] <= h[0] by {
      assert r[p] <= |next[p]| <= |next[0]|;
    }
    var k := LastTaller(h, p - 1, l);
    FirstTallerIs(h, k + 1, l, p);
    if LevelExact(ids, nil, next, h, l) {
      assert next[k][l] == ids[p];
      LinkedFrom(ids, nil, next, r, k, l, p);
    }
  }

  // ----- Removing -----

  ghost predicate CanBypass<T>(next: seq<seq<T>>, at: nat, stops: seq<nat>, i: nat) {
    && at < |next| && i <= |stops| && i <= |next[at]|
    && forall l :: 0 <= l < i ==> stops[l] < |next| && stops[l] != at && l < |next[stops[l]]|
  }

  // The stores of the removal loop for the levels below i: stops[l] takes over
  // the link of the node at `at` at level l.
  ghost function Bypassing<T>(next: seq<seq<T>>, nil: T, at: nat, stops: seq<nat>, i: nat): (r: seq<seq<T>>)
    requires CanBypass(next, at, stops, i)
    ensures |r| == |next|
    ensures forall p {:trigger r[p]} :: 0 <= p < |next| ==> |r[p]| == |next[p]|
    ensures forall p, l {:trigger r[p][l]} :: 0 <= p < |next| && p != at && 0 <= l < |next[p]| ==>
      r[p][l] == if l < i && p == stops[l] then next[at][l] else next[p][l]
    ensures forall l :: 0 <= l < |next[at]| ==> r[at][l] == if l < i then nil else next[at][l]
  {
    if i == 0 then next else BypassStores(Bypassing(next, nil, at, stops, i - 1), nil, at, stops[i - 1], i - 1)
  }

  // The node at `at` is to be removed and the stops are its predecessors at all
  // the levels it is built for.
  ghost predicate Removes<T>(ids: seq<T>, nil: T, next: seq<seq<T>>, r: seq<nat>, at: nat, stops: seq<nat>) {
    && Reached(ids, nil, next, r) && 0 < at < |ids| && |next[at]| <= r[0] && CanBypass(next, at, stops, |next[at]|)
    && forall l :: 0 <= l < |next[at]| ==> stops[l] == LastTaller(r, at - 1, l)
  }

  // The node after `at` that is reached where `at` first is not.
  ghost function Follower(r: seq<nat>, at: nat): nat
    requires at < |r|
  {
    FirstTaller(r, at + 1, r[at])
  }

  // Removing a node of height n keeps the list in shape: the node is reached at
  // all its levels, or nothing follows it where it is not, or one node does,
  // which ends there and is not taller.
  ghost predicate RemoveKeeps(r: seq<nat>, at: nat, n: nat) {
    at < |r| && (r[at] >= n || Follower(r, at) == |r| ||
      (FirstTaller(r, Follower(r, at) + 1, r[at]) == |r| && r[Follower(r, at)] <= n))
  }

  // The reach of the others while `at` is being taken out.
  ghost function ReachWithout(r: seq<nat>, at: nat, n: nat): (g: seq<nat>)
    requires at < |r|
    ensures |g| == |r|
  {
    if r[at] < n && Follower(r, at) < |r| then r[Follower(r, at) := r[at]][at := 0] else r[at := 0]
  }

  // Past `at` nobody is reached at the levels where `at` is not.
  lemma {:induction false} NoneAfter(r: seq<nat>, at: nat, n: nat, l: nat, q: nat)
    requires 0 < at < |r| && RemoveKeeps(r, at, n) && r[at] <= l < n && at <= q < |r|
    ensures ReachWithout(r, at, n)[q] <= l
  {
    var f := Follower(r, at);
    if q > f {
      assert r[q] <= r[at];
    }
  }

  // At the other levels the same nodes are reached, except `at`.
  lemma {:induction false} OthersKeep(r: seq<nat>, at: nat, n: nat, l: nat, q: nat)
    requires 0 < at < |r| && r[at] <= n && RemoveKeeps(r, at, n) && (l < r[at] || n <= l) && q < |r| && q != at
    ensures ReachWithout(r, at, n)[q] > l <==> r[q] > l
  {
  }

  lemma {:induction false} BypassedLow(r: seq<nat>, at: nat, n: nat, p: nat, l: nat)
    requires 0 < at < |r| && r[at] <= n && RemoveKeeps(r, at, n) && l < r[at] && l < r[0] && p < |r| && p != at && l < r[p]
    ensures FirstTaller(ReachWithout(r, at, n), p + 1, l) ==
            FirstTaller(r, (if p == LastTaller(r, at - 1, l) then at else p) + 1, l)
  {
    var g := ReachWithout(r, at, n);
    NextAfterBypass(r, l, at, p);
    var q := FirstTaller(r[at := 0], p + 1, l);
    forall j | p + 1 <= j <= q && j < |r|
      ensures g[j] > l <==> r[at := 0][j] > l
    {
      if j != at {
        OthersKeep(r, at, n, l, j);
      }
    }
    FirstTallerIs(g, p + 1, l, q);
  }

  lemma {:induction false} BypassedMiddle(r: seq<nat>, at: nat, n: nat, p: nat, l: nat)
    requires 0 < at < |r| && RemoveKeeps(r, at, n) && r[at] <= l < n && l < r[0]
    requires p < |r| && l < ReachWithout(r, at, n)[p]
    ensures p < at && l < r[p]
    ensures FirstTaller(ReachWithout(r, at, n), p + 1, l) ==
            if p == LastTaller(r, at - 1, l) then |r| else FirstTaller(r, p + 1, l)
  {
    var g, k, q := ReachWithout(r, at, n), LastTaller(r, at - 1, l), FirstTaller(r, p + 1, l);
    if p >= at {
      NoneAfter(r, at, n, l, p);
    }
    forall j | at <= j < |r|
      ensures g[j] <= l
    {
      NoneAfter(r, at, n, l, j);
    }
    FirstTallerIs(g, p + 1, l, if p == k then |r| else q);
  }

  lemma {:induction false} BypassedHigh(r: seq<nat>, at: nat, n: nat, p: nat, l: nat)
    requires 0 < at < |r| && r[at] <= n <= l && RemoveKeeps(r, at, n) && p < |r|
    ensures FirstTaller(ReachWithout(r, at, n), p + 1, l) == FirstTaller(r, p + 1, l)
  {
    var g, q := ReachWithout(r, at, n), FirstTaller(r, p + 1, l);
    forall j | p + 1 <= j < |r|
      ensures g[j] > l <==> r[j] > l
    {
      if j != at {
        OthersKeep(r, at, n, l, j);
      }
    }
    FirstTallerIs(g, p + 1, l, q);
  }

  lemma {:induction false} BypassedLink<T>(ids: seq<T>, nil: T, next: seq<seq<T>>, r: seq<nat>, at: nat, stops: seq<nat>, p: nat, l: nat)
    requires Removes(ids, nil, next, r, at, stops)
    requires RemoveKeeps(r, at, |next[at]|) && p < |ids| && l < ReachWithout(r, at, |next[at]|)[p]
    ensures var next', g := Bypassing(next, nil, at, stops, |next[at]|), ReachWithout(r, at, |next[at]|);
      l < |next'[p]| && next'[p][l] == At(ids, nil, FirstTaller(g, p + 1, l))
  {
    hide Exact, FirstTaller;
    var n := |next[at]|;
    assert r[at] <= n <= |next[0]| == r[0];
    ReachOnlyShrinks(r, at, n, p);
    assert r[p] <= |next[p]| <= |next[0]|;
    LinkIs(ids, nil, next, r, p, l);
    if l < n {
      LinkIs(ids, nil, next, r, at, l);
      if l < r[at] {
        BypassedLow(r, at, n, p, l);
      } else {
        BypassedMiddle(r, at, n, p, l);
      }
    } else {
      BypassedHigh(r, at, n, p, l);
    }
  }

  lemma {:induction false} ReachOnlyShrinks(r: seq<nat>, at: nat, n: nat, p: nat)
    requires at < |r| && p < |r|
    ensures ReachWithout(r, at, n)[p] <= r[p] && ReachWithout(r, at, n)[at] == 0
    ensures p != at && r[p] >= 1 && r[at] >= 1 ==> ReachWithout(r, at, n)[p] >= 1
  {
  }

  lemma {:induction false} BypassedLevel<T>(ids: seq<T>, nil: T, next: seq<seq<T>>, r: seq<nat>, at: nat, stops: seq<nat>, l: nat)
    requires Removes(ids, nil, next, r, at, stops)
    requires RemoveKeeps(r, at, |next[at]|)
    ensures LevelExact(ids, nil, Bypassing(next, nil, at, stops, |next[at]|), ReachWithout(r, at, |next[at]|), l)
  {
    var n := |next[at]|;
    var next', g := Bypassing(next, nil, at, stops, n), ReachWithout(r, at, n);
    forall p {:trigger next'[p]} | 0 <= p < |ids| && l < g[p]
      ensures l < |next'[p]| && next'[p][l] == At(ids, nil, FirstTaller(g, p + 1, l))
    {
      BypassedLink(ids, nil, next, r, at, stops, p, l);
    }
  }

  // The reach after the removal.
  ghost function ReachAfter(r: seq<nat>, at: nat, n: nat): seq<nat>
    requires at < |r|
  {
    RemoveAt(ReachWithout(r, at, n), at)
  }

  lemma {:induction false} NullStays<T>(ids: seq<T>, nil: T, next: seq<seq<T>>, r: seq<nat>, at: nat, stops: seq<nat>, p: nat, l: nat)
    requires Removes(ids, nil, next, r, at, stops)
    requires RemoveKeeps(r, at, |next[at]|) && p < |ids| && p != at
    requires ReachWithout(r, at, |next[at]|)[p] <= l < |next[p]|
    ensures Bypassing(next, nil, at, stops, |next[at]|)[p][l] == nil
  {
    hide Exact, Bypassing;
    var n := |next[at]|;
    LinkIs(ids, nil, next, r, p, l);
    if l < n {
      LinkIs(ids, nil, next, r, at, l);
    }
    if l < r[p] {
      var f := Follower(r, at);
      assert p == f && r[at] <= l < r[f] <= n;
      FirstTallerIs(r, p + 1, l, |r|);
    }
  }

  lemma {:induction false} BoundsRemove<T>(next: seq<seq<T>>, next': seq<seq<T>>, r: seq<nat>, at: nat, n: nat)
    requires InBounds(next, r) && 0 < at < |r| && |next'| == |next|
    requires forall p {:trigger next'[p]} :: 0 <= p < |next| ==> |next'[p]| == |next[p]|
    ensures InBounds(RemoveAt(next', at), ReachAfter(r, at, n))
  {
    var after, g' := RemoveAt(next', at), ReachAfter(r, at, n);
    assert after[0] == next'[0] && next[0] == next[0];
    forall p | 0 <= p < |g'|
      ensures 1 <= g'[p] <= |after[p]| && |after[p]| <= |after[0]|
    {
      var q := if p < at then p else p + 1;
      assert after[p] == next'[q] && next[at] == next[at];
      ReachOnlyShrinks(r, at, n, q);
      assert r[q] <= |next[q]| <= |next[0]|;
    }
    ReachOnlyShrinks(r, at, n, 0);
    assert g'[0] == r[0];
  }

  lemma {:induction false} ReachedRemove<T>(ids: seq<T>, nil: T, next: seq<seq<T>>, r: seq<nat>, at: nat, stops: seq<nat>)
    requires Removes(ids, nil, next, r, at, stops)
    requires RemoveKeeps(r, at, |next[at]|)
    ensures Reached(RemoveAt(ids, at), nil, RemoveAt(Bypassing(next, nil, at, stops, |next[at]|), at), ReachAfter(r, at, |next[at]|))
  {
    hide Exact, Bypassing, LevelExact, RemoveKeeps;
    var n := |next[at]|;
    var next', g := Bypassing(next, nil, at, stops, n), ReachWithout(r, at, n);
    var after, g' := RemoveAt(next', at), RemoveAt(g, at);
    ReachOnlyShrinks(r, at, n, at);
    assert Exact(RemoveAt(ids, at), nil, after, g') by {
      ExactRemove(ids, nil, next, r, at, stops);
    }
    BoundsRemove(next, next', r, at, n);
    forall p, l {:trigger after[p][l]} | 0 <= p < |after| && g'[p] <= l < |after[p]|
      ensures after[p][l] == nil
    {
      NullStays(ids, nil, next, r, at, stops, if p < at then p else p + 1, l);
    }
    assert NullAbove(nil, after, g');
  }

  lemma {:induction false} ExactRemove<T>(ids: seq<T>, nil: T, next: seq<seq<T>>, r: seq<nat>, at: nat, stops: seq<nat>)
    requires Removes(ids, nil, next, r, at, stops)
    requires RemoveKeeps(r, at, |next[at]|)
    ensures Exact(RemoveAt(ids, at), nil, RemoveAt(Bypassing(next, nil, at, stops, |next[at]|), at), ReachAfter(r, at, |next[at]|))
  {
    var n := |next[at]|;
    hide Bypassing, LevelExact, RemoveKeeps, Reached;
    var next', g := Bypassing(next, nil, at, stops, n), ReachWithout(r, at, n);
    ReachOnlyShrinks(r, at, n, at);
    forall l: nat
      ensures LevelExact(RemoveAt(ids, at), nil, RemoveAt(next', at), RemoveAt(g, at), l)
    {
      BypassedLevel(ids, nil, next, r, at, stops, l);
      DropUnlinked(ids, nil, next', g, l, at);
    }
  }

  // Removing a node that is not reached at all its levels cuts off what follows
  // it at the first of the others.
  lemma {:induction false} NobodyLinks<T>(ids: seq<T>, nil: T, next: seq<seq<T>>, r: seq<nat>, at: nat, stops: seq<nat>, p: nat)
    requires Removes(ids, nil, next, r, at, stops) && Named(ids, nil)
    requires r[at] < |next[at]| && Follower(r, at) < |r| && p < |ids| && p != at && r[at] < |next[p]|
    ensures Bypassing(next, nil, at, stops, |next[at]|)[p][r[at]] != ids[Follower(r, at)]
  {
    hide Exact, Bypassing;
    var l, f := r[at], Follower(r, at);
    var next' := Bypassing(next, nil, at, stops, |next[at]|);
    assert ids[f] in ids;
    LinkIs(ids, nil, next, r, at, l);
    if p != stops[l] && next[p][l] == ids[f] {
      LinkedFrom(ids, nil, next, r, p, l, f);
    }
    assert next'[p][l] == if p == stops[l] then next[at][l] else next[p][l];
  }

  lemma {:induction false} LosesReach<T>(ids: seq<T>, nil: T, next: seq<seq<T>>, r: seq<nat>, at: nat, stops: seq<nat>, after: seq<seq<T>>, r2: seq<nat>)
    requires Removes(ids, nil, next, r, at, stops) && Named(ids, nil)
    requires r[at] < |next[at]| && Follower(r, at) < |r|
    requires after == RemoveAt(Bypassing(next, nil, at, stops, |next[at]|), at) && Reached(RemoveAt(ids, at), nil, after, r2)
    ensures r2[Follower(r, at) - 1] <= r[at]
  {
    hide Exact, Bypassing;
    var l, f := r[at], Follower(r, at);
    if r2[f - 1] > l {
      assert r2[f - 1] <= |after[f - 1]| <= |after[0]|;
      var k := LastTaller(r2, f - 2, l);
      FirstTallerIs(r2, k + 1, l, f - 1);
      assert r2[k] <= |after[k]|;
      LinkIs(RemoveAt(ids, at), nil, after, r2, k, l);
      NobodyLinks(ids, nil, next, r, at, stops, if k < at then k else k + 1);
    }
  }

  lemma {:induction false} RemoveBreaks<T>(ids: seq<T>, nil: T, next: seq<seq<T>>, r: seq<nat>, at: nat, stops: seq<nat>, after: seq<seq<T>>, r2: seq<nat>)
    requires Removes(ids, nil, next, r, at, stops) && Named(ids, nil)
    requires after == RemoveAt(Bypassing(next, nil, at, stops, |next[at]|), at) && Reached(RemoveAt(ids, at), nil, after, r2)
    ensures RemoveKeeps(r, at, |next[at]|)
  {
    hide Exact, Bypassing;
    var n, l, f := |next[at]|, r[at], Follower(r, at);
    if l < n && f < |r| {
      LosesReach(ids, nil, next, r, at, stops, after, r2);
      EndsThere(ids, nil, next, r, at, stops, after, r2);
      NotTaller(ids, nil, next, r, at, stops, after, r2);
    }
  }

  lemma {:induction false} EndsThere<T>(ids: seq<T>, nil: T, next: seq<seq<T>>, r: seq<nat>, at: nat, stops: seq<nat>, after: seq<seq<T>>, r2: seq<nat>)
    requires Removes(ids, nil, next, r, at, stops) && Named(ids, nil)
    requires r[at] < |next[at]| && Follower(r, at) < |r|
    requires after == RemoveAt(Bypassing(next, nil, at, stops, |next[at]|), at) && Reached(RemoveAt(ids, at), nil, after, r2)
    requires r2[Follower(r, at) - 1] <= r[at]
    ensures FirstTaller(r, Follower(r, at) + 1, r[at]) == |r|
  {
    hide Exact, Bypassing;
    var l, f := r[at], Follower(r, at);
    assert r[f] <= |next[f]|;
    LinkIs(ids, nil, next, r, f, l);
    assert after[f - 1][l] == next[f][l];
    LinkIs(RemoveAt(ids, at), nil, after, r2, f - 1, l);
  }

  lemma {:induction false} NotTaller<T>(ids: seq<T>, nil: T, next: seq<seq<T>>, r: seq<nat>, at: nat, stops: seq<nat>, after: seq<seq<T>>, r2: seq<nat>)
    requires Removes(ids, nil, next, r, at, stops) && Named(ids, nil)
    requires r[at] < |next[at]| && Follower(r, at) < |r|
    requires after == RemoveAt(Bypassing(next, nil, at, stops, |next[at]|), at) && Reached(RemoveAt(ids, at), nil, after, r2)
    requires r2[Follower(r, at) - 1] <= r[at]
    ensures r[Follower(r, at)] <= |next[at]|
  {
    hide Exact, Bypassing;
    var n, f := |next[at]|, Follower(r, at);
    if r[f] > n {
      assert r[f] <= |next[f]| <= |next[0]|;
      var k := LastTaller(r, f - 1, n);
      FirstTallerIs(r, k + 1, n, f);
      assert r[k] <= |next[k]|;
      LinkIs(ids, nil, next, r, k, n);
      var k' := if k < at then k else k - 1;
      assert after[k'][n] == ids[f] == RemoveAt(ids, at)[f - 1];
      NamedRemove(ids, nil, at);
      LinkedFrom(RemoveAt(ids, at), nil, after, r2, k', n, f - 1);
    }
  }

  lemma {:induction false} NamedRemove<T>(ids: seq<T>, nil: T, at: nat)
    requires Named(ids, nil) && at < |ids|
    ensures Named(RemoveAt(ids, at), nil)
  {
    DistinctRemove(ids, at);
    forall p | 0 <= p < |ids| - 1
      ensures RemoveAt(ids, at)[p] != nil
    {
      assert RemoveAt(ids, at)[p] in ids;
    }
  }

  // Removing keeps the list in shape if and only if RemoveKeeps says so before.
  lemma {:induction false} RemoveKeepsExactly<T>(ids: seq<T>, nil: T, next: seq<seq<T>>, r: seq<nat>, at: nat, stops: seq<nat>)
    requires Removes(ids, nil, next, r, at, stops) && Named(ids, nil)
    ensures var after := RemoveAt(Bypassing(next, nil, at, stops, |next[at]|), at);
      RemoveKeeps(r, at, |next[at]|) <==> exists r2 :: Reached(RemoveAt(ids, at), nil, after, r2)
  {
    var n := |next[at]|;
    hide Reached, Bypassing, RemoveKeeps;
    if RemoveKeeps(r, at, n) {
      ReachedRemove(ids, nil, next, r, at, stops);
    }
    var after := RemoveAt(Bypassing(next, nil, at, stops, n), at);
    if r2 :| Reached(RemoveAt(ids, at), nil, after, r2) {
      RemoveBreaks(ids, nil, next, r, at, stops, after, r2);
    }
  }

  // ----- Inserting -----

  // ----- Cutting -----

}

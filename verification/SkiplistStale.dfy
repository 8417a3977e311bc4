// Two histories that show what a cut by position costs. The first leaves a list
// whose towers are not exact. The second goes on to remove from such a list,
// loses the shape, and ends with an empty list that still finds a removed key.

module SkiplistStale {
  import opened Towers
  import opened Ordering
  import opened Reach
  import opened Links
  import opened SkiplistNodes
  import opened Skiplists

  // A list with descending keys, as the data lists have, and two levels, in
  // which every node is as tall as can be.
  ghost predicate Small(list: Skiplist<nat, nat>)
    reads list, list.rand, list.nodes
  {
    && list.Shape() && list.limit == 2 && list.branch == 1 && list.cmp == Descending
    && forall p :: 0 <= p < |list.nodes| ==> list.nodes[p].height == 2
  }

  ghost predicate Has(list: Skiplist<nat, nat>, es: seq<Entry<nat, nat>>, r: seq<nat>)
    reads list, list.rand, list.nodes
  {
    Small(list) && list.Loose() && list.Contents() == es && list.reach == r
  }

  twostate predicate Owned(new list: Skiplist<nat, nat>)
    reads list
  {
    fresh(list) && fresh(list.rand) && fresh(list.nodes)
  }

  method Make() returns (list: Skiplist<nat, nat>)
    ensures Has(list, [], [2]) && Owned(list)
  {
    DescendingIsOrder();
    list := new Skiplist(2, 1, Descending, 0, 0);
    list.ValidIff();
  }

  lemma BoundIs(keys: seq<nat>, k: nat, at: nat)
    requires at <= |keys|
    requires forall i :: 0 <= i < at ==> keys[i] > k
    requires at < |keys| ==> keys[at] <= k
    ensures LowerBound(Descending, keys, k) == at
  {
    var r := LowerBound(Descending, keys, k);
    assert at < r ==> Descending(keys[at], k) < 0;
  }

  method Put(list: Skiplist<nat, nat>, k: nat, v: nat, ghost at: nat, ghost es: seq<Entry<nat, nat>>, ghost r: seq<nat>)
    requires Has(list, es, r) && at <= |es| && |r| == |es| + 1
    requires forall i :: 0 <= i < |es| ==> (i < at <==> es[i].key > k)
    modifies list, list.nodes, list.rand
    ensures Has(list, InsertAt(es, at, Entry(k, v)), InsertAt(r, at + 1, 2))
    ensures forall p :: 0 <= p < |list.nodes| ==> list.nodes[p] in old(list.nodes) || fresh(list.nodes[p])
  {
    hide Exact, Reached, Ordered, Sized, LowerBound;
    forall i | 0 <= i < |es|
      ensures Keys(list.nodes)[i] == es[i].key
    {
      assert list.Contents()[i] == es[i];
    }
    BoundIs(Keys(list.nodes), k, at);
    list.LooseOk(k);
    var h;
    ghost var at', stops;
    h, at', stops := list.Insert(k, v);
  }

  // Two entries with one key, the older of which is cut off by position.
  method TwinLosesTower(k: nat) returns (list: Skiplist<nat, nat>)
    ensures Has(list, [Entry(k, 2)], [2, 1]) && !list.Valid() && Owned(list)
  {
    hide Has;
    list := Make();
    Put(list, k, 1, 0, [], [2]);
    assert InsertAt([], 0, Entry(k, 1)) == [Entry(k, 1)] && InsertAt([2], 1, 2) == [2, 2];
    Put(list, k, 2, 0, [Entry(k, 1)], [2, 2]);
    assert InsertAt([Entry(k, 1)], 0, Entry(k, 2)) == [Entry(k, 2), Entry(k, 1)] && InsertAt([2, 2], 1, 2) == [2, 2, 2];
    CutTwin(list, k);
  }

  method CutTwin(list: Skiplist<nat, nat>, k: nat)
    requires Has(list, [Entry(k, 2), Entry(k, 1)], [2, 2, 2])
    modifies list, list.nodes
    ensures Has(list, [Entry(k, 2)], [2, 1]) && !list.Valid()
    ensures forall p :: 0 <= p < |list.nodes| ==> list.nodes[p] in old(list.nodes)
  {
    hide Exact, Reached, Ordered, Sized, LowerBound;
    ghost var all := list.nodes;
    assert all[1].key == k == all[2].key by {
      assert Entry(all[1].key, all[1].value) == list.Contents()[0];
      assert Entry(all[2].key, all[2].value) == list.Contents()[1];
    }
    BoundIs(Keys(all), k, 0);
    list.LooseIsSearchable();
    var n;
    ghost var c;
    n, c := list.SplitByPos(1);
    assert CutReach([2, 2, 2], 2, 0) == [2, 1];
    assert list.Contents()[0] == Entry(k, 2);
  }

  // ----- Removing from such a list -----

  method Populate() returns (list: Skiplist<nat, nat>)
    ensures Has(list, [Entry(9, 2), Entry(7, 3), Entry(5, 4)], [2, 1, 2, 2]) && Owned(list)
  {
    hide Has;
    list := TwinLosesTower(9);
    Put(list, 7, 3, 1, [Entry(9, 2)], [2, 1]);
    assert InsertAt([Entry(9, 2)], 1, Entry(7, 3)) == [Entry(9, 2), Entry(7, 3)] && InsertAt([2, 1], 2, 2) == [2, 1, 2];
    Put(list, 5, 4, 2, [Entry(9, 2), Entry(7, 3)], [2, 1, 2]);
    assert InsertAt([Entry(9, 2), Entry(7, 3)], 2, Entry(5, 4)) == [Entry(9, 2), Entry(7, 3), Entry(5, 4)];
    assert InsertAt([2, 1, 2], 3, 2) == [2, 1, 2, 2];
  }

  // The first entry is linked at level 0 only, so level 1 leads past it.
  lemma LinksAre(list: Skiplist<nat, nat>)
    requires Small(list) && list.Loose() && list.reach == [2, 1, 2, 2]
    ensures var n := list.nodes;
      |n| == 4 && n[0].nexts == [n[1], n[2]] && n[1].nexts == [n[2], null] && n[2].nexts == [n[3], n[3]] && n[3].nexts == [null, null]
  {
    hide Exact;
    var n, r := list.nodes, list.reach;
    var next := Nexts(n);
    assert FirstTaller(r, 1, 0) == 1 && FirstTaller(r, 1, 1) == 2 && FirstTaller(r, 2, 0) == 2;
    assert FirstTaller(r, 3, 0) == 3 && FirstTaller(r, 3, 1) == 3 && FirstTaller(r, 4, 0) == 4 && FirstTaller(r, 4, 1) == 4;
    forall p, l | 0 <= p < 4 && 0 <= l < 2
      ensures n[p].nexts[l] == if l < r[p] then NodeAt(n, FirstTaller(r, p + 1, l)) else null
    {
      assert next[p] == n[p].nexts;
      LinkIs<Node?<nat, nat>>(n, null, next, r, p, l);
    }
  }

  // The links of a node that stays, after a removal; q is where it was.
  lemma {:induction false} RowAfter(all: seq<Node<nat, nat>>, before: seq<seq<Node?<nat, nat>>>, at: nat, stops: seq<nat>, kept: seq<Node<nat, nat>>,
                                    p: nat, q: nat)
    requires IsUnlinked(all, before, at, stops, kept) && p < |kept| && q == (if p < at then p else p + 1)
    requires all[at].height == 2 && |before[q]| == 2
    ensures kept[p].nexts ==
            [if q == stops[0] then before[at][0] else before[q][0], if q == stops[1] then before[at][1] else before[q][1]]
  {
    hide Bypassing;
    assert kept[p].nexts == Nexts(kept)[p];
  }

  lemma {:induction false} StopsAt(list: Skiplist<nat, nat>, k: nat, i: nat)
    requires Small(list) && list.SearchOk(k) && i == list.Before(k) && |list.nodes| > 1
    ensures list.maxHeight == 2 && IsStop(list.nodes, i, 0, 1, i)
    ensures forall s: nat :: IsStop(list.nodes, s, 1, 1, i) <==> s == Stop(list.nodes, 1, 1, i)
    ensures Stop(list.nodes, 0, 1, i) == i
  {
    assert list.nodes[1].height <= list.maxHeight;
    StopAtBound(list.nodes, 1, i);
  }

  // Remove on a small list, by position.
  method Take(list: Skiplist<nat, nat>, k: nat, ghost i: nat, ghost es: seq<Entry<nat, nat>>)
    returns (node: Node<nat, nat>, ghost stops: seq<nat>)
    requires Small(list) && list.SearchOk(k) && list.Contents() == es && i < |es| && es[i].key == k
    requires forall j :: 0 <= j < |es| ==> (j < i <==> es[j].key > k)
    modifies list, list.nodes
    ensures Small(list) && Chained(list.nodes) && list.nodes == RemoveAt(old(list.nodes), i + 1) && list.Contents() == RemoveAt(es, i)
    ensures node == old(list.nodes)[i + 1] && node.nexts == [null, null]
    ensures list.maxHeight == |stops| == 2 && stops[0] == i && stops[1] <= i && old(IsStop(list.nodes, stops[1], 1, 1, i))
    ensures IsUnlinked(old(list.nodes), old(Nexts(list.nodes)), i + 1, stops, list.nodes)
    ensures old(list.Loose()) ==> list.Searchable() && (RemoveKeeps(old(list.reach), i + 1, 2) <==> CanReach(list.nodes))
  {
    hide Exact, Reached, Ordered, Sized, LowerBound, Bypassing, CanReach, RemoveKeeps, IsUnlinked, Stop, IsStop, ForwardTo, Chained;
    KeysAre(list, es);
    BoundIs(Keys(list.nodes), k, i);
    StopsAt(list, k, i);
    var result;
    ghost var at;
    result, at, stops := list.Remove(k);
    node := result;
  }

  lemma KeysAre(list: Skiplist<nat, nat>, es: seq<Entry<nat, nat>>)
    requires list.nodes != [] && list.Contents() == es
    ensures |Keys(list.nodes)| == |es| && forall i :: 0 <= i < |es| ==> Keys(list.nodes)[i] == es[i].key
  {
    forall i | 0 <= i < |es|
      ensures Keys(list.nodes)[i] == es[i].key
    {
      assert list.Contents()[i] == es[i];
    }
  }

  // Level 1 from the head to the second entry is gone, and no reach describes
  // the links any more.
  method RemoveNine(list: Skiplist<nat, nat>)
    requires Has(list, [Entry(9, 2), Entry(7, 3), Entry(5, 4)], [2, 1, 2, 2])
    modifies list, list.nodes
    ensures Small(list) && list.Searchable() && !CanReach(list.nodes)
    ensures list.Contents() == [Entry(7, 3), Entry(5, 4)] && list.nodes == RemoveAt(old(list.nodes), 1)
    ensures list.nodes[0].nexts == [list.nodes[1], null]
    ensures list.nodes[1].nexts == [list.nodes[2], list.nodes[2]] && list.nodes[2].nexts == [null, null]
  {
    hide Exact, Reached, Ordered, Sized, LowerBound, Bypassing, CanReach, IsUnlinked, Chained, ForwardTo, Stop;
    LinksAre(list);
    list.LooseOk(9);
    ghost var n, next := list.nodes, Nexts(list.nodes);
    assert next[0] == n[0].nexts && next[1] == n[1].nexts && next[2] == n[2].nexts && next[3] == n[3].nexts;
    var node;
    ghost var stops;
    node, stops := Take(list, 9, 0, list.Contents());
    assert FirstTaller([2, 1, 2, 2], 2, 1) == 2 && FirstTaller([2, 1, 2, 2], 3, 1) == 3;
    RowAfter(n, next, 1, stops, list.nodes, 0, 0);
    RowAfter(n, next, 1, stops, list.nodes, 1, 2);
    RowAfter(n, next, 1, stops, list.nodes, 2, 3);
  }

  // Level 1 still leads from the second entry to the node taken out here,
  // because the search for it could not come by there. This is the first step
  // after which a link leads out of the list.
  method RemoveFive(list: Skiplist<nat, nat>) returns (node: Node<nat, nat>)
    requires Small(list) && list.Searchable() && list.Contents() == [Entry(7, 3), Entry(5, 4)]
    requires list.nodes[0].nexts == [list.nodes[1], null]
    requires list.nodes[1].nexts == [list.nodes[2], list.nodes[2]] && list.nodes[2].nexts == [null, null]
    modifies list, list.nodes
    ensures Small(list) && Chained(list.nodes) && list.Contents() == [Entry(7, 3)] && list.nodes == old(list.nodes)[..2]
    ensures node == old(list.nodes)[2] && node !in list.nodes && node.height == 2 && node.nexts == [null, null] && node.key == 5 && node.value == 4
    ensures list.nodes[0].nexts == [list.nodes[1], null] && list.nodes[1].nexts == [null, node] && !list.Searchable()
  {
    hide Exact, Reached, Ordered, Sized, LowerBound, Bypassing, CanReach, IsUnlinked, Chained;
    ghost var n, next := list.nodes, Nexts(list.nodes);
    assert next[0] == n[0].nexts && next[1] == n[1].nexts && next[2] == n[2].nexts;
    assert list.Contents()[1] == Entry(n[2].key, n[2].value);
    NoLinkStop(list.nodes, 1);
    LastApart(list);
    KeysAre(list, list.Contents());
    list.SearchableOk(5);
    ghost var stops;
    node, stops := Take(list, 5, 1, list.Contents());
    RowAfter(n, next, 2, stops, list.nodes, 0, 0);
    RowAfter(n, next, 2, stops, list.nodes, 1, 1);
    assert Nexts(list.nodes)[1] == list.nodes[1].nexts;
    LeadsOutside(list.nodes, 1, 1);
  }

  lemma LastApart(list: Skiplist<nat, nat>)
    requires Small(list) && |list.nodes| == 3
    ensures list.nodes[2] !in list.nodes[..2]
  {
    assert Differ(list.nodes, 0, 2) && Differ(list.nodes, 1, 2);
  }

  // A search that finds no link at level 1 stays at the head there.
  lemma {:induction false} NoLinkStop(nodes: seq<Node<nat, nat>>, bound: nat)
    requires ForwardTo(nodes, bound + 1) && nodes[0].height == |nodes[0].nexts| == 2 && nodes[0].nexts[1] == null
    ensures forall s: nat :: IsStop(nodes, s, 1, 1, bound) ==> s == 0
  {
    assert ForwardAt(nodes, 0);
    assert LinkTarget(nodes, 0, 1) == |nodes|;
  }

  // The head takes over that link, to a node that is no longer in the list.
  method RemoveSeven(list: Skiplist<nat, nat>, stale: Node<nat, nat>)
    requires Small(list) && Chained(list.nodes) && list.Contents() == [Entry(7, 3)] && stale !in list.nodes
    requires list.nodes[0].nexts == [list.nodes[1], null] && list.nodes[1].nexts == [null, stale]
    modifies list, list.nodes
    ensures Small(list) && list.Contents() == [] && list.head.nexts == [null, stale] && list.nodes == [list.head] && list.maxHeight == 2
  {
    hide Exact, Reached, Ordered, Sized, LowerBound, Bypassing, CanReach, IsUnlinked, Chained;
    ghost var n, next := list.nodes, Nexts(list.nodes);
    assert next[0] == n[0].nexts && next[1] == n[1].nexts;
    KeysAre(list, list.Contents());
    BoundIs(Keys(list.nodes), 7, 0);
    assert n[1..][0] == n[1];
    var node;
    ghost var stops;
    node, stops := Take(list, 7, 0, list.Contents());
    RowAfter(n, next, 1, stops, list.nodes, 0, 0);
  }

  // The list holds nothing, and finds the entry removed second.
  method StaleRead() returns (list: Skiplist<nat, nat>, found: bool, value: nat)
    ensures list.Shape() && list.Contents() == [] && found && value == 4
  {
    hide Has, Small, CanReach, Chained, ForwardTo, UpperBound, Stop, Sorted;
    list := Populate();
    RemoveNine(list);
    var stale := RemoveFive(list);
    RemoveSeven(list, stale);
    StaleFound(list, stale);
    found, value := list.Get(5, [list.head, stale]);
  }

  lemma {:induction false} StaleFound(list: Skiplist<nat, nat>, stale: Node<nat, nat>)
    requires Small(list) && list.maxHeight == 2 && list.head.nexts == [null, stale] && stale.height == 2 && stale.key == 5 && stale.nexts == [null, null]
    ensures list.Shape() && list.cmp(5, 5) == 0
    ensures list.CanFind([list.head, stale], 5) && list.Found([list.head, stale], 5) == stale
  {
    var pool := [list.head, stale];
    assert Keys(pool) == [5];
    assert UpperBound(Descending, [5], 5) == 1;
    assert pool[1..][0] == stale;
    assert ForwardAt(pool, 0) && ForwardAt(pool, 1);
    assert LinkTarget(pool, 0, 1) == 1;
  }
}

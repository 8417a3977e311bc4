// Nodes and links of the skiplist of src/base/skiplist.h: what the links of a
// list of nodes look like, and the loops that change them.

module SkiplistNodes {
  import opened Towers
  import opened Ordering
  import opened Reach
  import opened Links

  datatype Entry<K, V> = Entry(key: K, value: V)

  class Node<K, V> {
    const height: nat
    const key: K
    const value: V
    var nexts: seq<Node?<K, V>>

    // The links of a new node are not initialised.
    constructor (key: K, value: V, height: nat)
      ensures this.key == key && this.value == value && this.height == height
      ensures |nexts| == height
    {
      this.key, this.value, this.height := key, value, height;
      this.nexts := seq(height, _ => null);
    }
  }

  ghost function Heights<K, V>(nodes: seq<Node<K, V>>): (h: seq<nat>)
    ensures |h| == |nodes|
    ensures forall i {:trigger h[i]} {:trigger nodes[i].height} :: 0 <= i < |h| ==> h[i] == nodes[i].height
  {
    seq(|nodes|, i requires 0 <= i < |nodes| => nodes[i].height)
  }

  // The keys after the head sentinel.
  ghost function Keys<K, V>(nodes: seq<Node<K, V>>): (ks: seq<K>)
    requires nodes != []
    ensures |ks| == |nodes| - 1
    ensures forall i {:trigger ks[i]} :: 0 <= i < |ks| ==> ks[i] == nodes[i + 1].key
  {
    seq(|nodes| - 1, i requires 0 <= i < |nodes| - 1 => nodes[i + 1].key)
  }

  ghost function Entries<K, V>(nodes: seq<Node<K, V>>): (es: seq<Entry<K, V>>)
    requires nodes != []
    ensures |es| == |nodes| - 1
    ensures forall i {:trigger es[i]} :: 0 <= i < |es| ==> es[i] == Entry(nodes[i + 1].key, nodes[i + 1].value)
  {
    seq(|nodes| - 1, i requires 0 <= i < |nodes| - 1 => Entry(nodes[i + 1].key, nodes[i + 1].value))
  }

  ghost function Nexts<K, V>(nodes: seq<Node<K, V>>): (next: seq<seq<Node?<K, V>>>)
    reads nodes
    ensures |next| == |nodes|
    ensures forall p {:trigger next[p]} :: 0 <= p < |nodes| ==> next[p] == nodes[p].nexts
  {
    seq(|nodes|, p requires 0 <= p < |nodes| reads nodes => nodes[p].nexts)
  }

  ghost function NodeAt<K, V>(nodes: seq<Node<K, V>>, q: nat): Node?<K, V> {
    At<Node?<K, V>>(nodes, null, q)
  }

  function Min(a: nat, b: nat): nat {
    if a < b then a else b
  }

  function Max(a: nat, b: nat): nat {
    if a < b then b else a
  }

  // Every level is exactly the nodes whose h exceeds it, in list order. With
  // the heights for h the towers are exact.
  ghost predicate Linked<K, V>(nodes: seq<Node<K, V>>, h: seq<nat>)
    reads nodes
  {
    Exact<Node?<K, V>>(nodes, null, Nexts(nodes), h)
  }

  // Each node is linked at its first r levels, and its own links above are null.
  ghost predicate HasReach<K, V>(nodes: seq<Node<K, V>>, r: seq<nat>)
    reads nodes
  {
    Reached<Node?<K, V>>(nodes, null, Nexts(nodes), r)
  }

  // Level 0 is the whole list.
  ghost predicate Chained<K, V>(nodes: seq<Node<K, V>>)
    reads nodes
  {
    && (forall p :: 0 <= p < |nodes| ==> nodes[p].height >= 1)
    && (forall p {:trigger nodes[p].nexts} :: 0 <= p < |nodes| ==>
          |nodes[p].nexts| == nodes[p].height && nodes[p].nexts[0] == NodeAt(nodes, p + 1))
  }

  // Every link of the node at p is absent or leads forward to a node tall enough.
  ghost predicate ForwardAt<K, V>(nodes: seq<Node<K, V>>, p: nat)
    requires p < |nodes|
    reads nodes
  {
    && |nodes[p].nexts| == nodes[p].height
    && forall l {:trigger nodes[p].nexts[l]} :: 0 <= l < nodes[p].height ==>
         nodes[p].nexts[l] == null || (nodes[p].nexts[l] in nodes[p + 1..] && nodes[p].nexts[l].height > l)
  }

  ghost predicate ForwardTo<K, V>(nodes: seq<Node<K, V>>, n: nat)
    reads nodes
  {
    n <= |nodes| && forall p {:trigger ForwardAt(nodes, p)} :: 0 <= p < n ==> ForwardAt(nodes, p)
  }

  // Distinct nodes of legal height, sorted by key after the head sentinel.
  ghost predicate Ordered<K, V>(nodes: seq<Node<K, V>>, cmp: (K, K) -> int, maxHeight: nat)
    requires nodes != []
  {
    && Distinct(nodes)
    && (forall p :: 1 <= p < |nodes| ==> 1 <= nodes[p].height <= maxHeight)
    && Sorted(cmp, Keys(nodes))
  }

  ghost predicate Sized<K, V>(nodes: seq<Node<K, V>>)
    reads nodes
  {
    forall p {:trigger nodes[p].nexts} :: 0 <= p < |nodes| ==> |nodes[p].nexts| == nodes[p].height
  }

  lemma {:induction false} OrderedInsert<K(!new), V>(nodes: seq<Node<K, V>>, node: Node<K, V>, at: nat,
                                                     cmp: (K, K) -> int, maxHeight: nat)
    requires nodes != [] && Ordered(nodes, cmp, maxHeight) && node !in nodes && 0 < at <= |nodes|
    requires IsOrder(cmp) && 1 <= node.height <= maxHeight
    requires forall p :: 1 <= p < at ==> cmp(nodes[p].key, node.key) <= 0
    requires forall p :: at <= p < |nodes| ==> cmp(node.key, nodes[p].key) <= 0
    ensures Ordered(InsertAt(nodes, at, node), cmp, maxHeight)
    ensures Entries(InsertAt(nodes, at, node)) == InsertAt(Entries(nodes), at - 1, Entry(node.key, node.value))
  {
    DistinctInsert(nodes, at, node);
    var ks := Keys(nodes);
    assert Keys(InsertAt(nodes, at, node)) == ks[..at - 1] + [node.key] + ks[at - 1..];
    SortedInsert(cmp, ks, node.key, at - 1);
  }

  // The position a link leads to, past the end when there is none.
  ghost function LinkTarget<K, V>(nodes: seq<Node<K, V>>, p: nat, level: nat): (q: nat)
    requires p < |nodes| && ForwardAt(nodes, p) && level < nodes[p].height
    reads nodes
    ensures p < q <= |nodes| && nodes[p].nexts[level] == NodeAt(nodes, q)
    ensures q < |nodes| ==> nodes[q].height > level
  {
    var next := nodes[p].nexts[level];
    if next == null then |nodes|
    else
      assert next in nodes[p + 1..];
      var q :| p < q < |nodes| && nodes[q] == next;
      q
  }

  lemma {:induction false} LinkTargetIs<K, V>(nodes: seq<Node<K, V>>, p: nat, level: nat, q: nat)
    requires p < |nodes| && ForwardAt(nodes, p) && level < nodes[p].height && Distinct(nodes)
    requires q <= |nodes| && nodes[p].nexts[level] == NodeAt(nodes, q)
    ensures LinkTarget(nodes, p, level) == q
  {
    assert Differ(nodes, LinkTarget(nodes, p, level), q) || LinkTarget(nodes, p, level) == q;
  }

  // Follows the links of one level from p as long as they stay within bound.
  ghost function Walk<K, V>(nodes: seq<Node<K, V>>, p: nat, level: nat, bound: nat): (s: nat)
    requires ForwardTo(nodes, bound + 1) && p <= bound && level < nodes[p].height
    reads nodes
    ensures p <= s <= bound && level < nodes[s].height && LinkTarget(nodes, s, level) > bound
    decreases bound - p
  {
    assert ForwardAt(nodes, p);
    var q := LinkTarget(nodes, p, level);
    if q <= bound then Walk(nodes, q, level, bound) else p
  }

  // Where a descent from the head's level `top` leaves the given level.
  ghost function Stop<K, V>(nodes: seq<Node<K, V>>, level: nat, top: nat, bound: nat): (s: nat)
    requires ForwardTo(nodes, bound + 1) && level <= top < nodes[0].height
    reads nodes
    ensures s <= bound && level < nodes[s].height && LinkTarget(nodes, s, level) > bound
    decreases top - level
  {
    Walk(nodes, if level == top then 0 else Stop(nodes, level + 1, top, bound), level, bound)
  }

  // A descent to bound stands at position p of the given level.
  ghost predicate InDescent<K, V>(nodes: seq<Node<K, V>>, p: nat, level: nat, top: nat, bound: nat)
    reads nodes
  {
    && ForwardTo(nodes, bound + 1) && level <= top < nodes[0].height
    && p <= bound && level < nodes[p].height == |nodes[p].nexts|
    && Walk(nodes, p, level, bound) == Stop(nodes, level, top, bound)
  }

  // It leaves the level at position p.
  ghost predicate IsStop<K, V>(nodes: seq<Node<K, V>>, p: nat, level: nat, top: nat, bound: nat)
    reads nodes
  {
    ForwardTo(nodes, bound + 1) && level <= top < nodes[0].height && p == Stop(nodes, level, top, bound)
  }

  lemma {:induction false} DescendStart<K, V>(nodes: seq<Node<K, V>>, top: nat, bound: nat)
    requires ForwardTo(nodes, bound + 1) && top < nodes[0].height
    ensures |nodes[0].nexts| > top && InDescent(nodes, 0, top, top, bound)
  {
    assert ForwardAt(nodes, 0);
  }

  // One step: along the link while it stays within bound, else down.
  lemma {:induction false} DescendStep<K, V>(nodes: seq<Node<K, V>>, p: nat, level: nat, top: nat, bound: nat) returns (q: nat)
    requires InDescent(nodes, p, level, top, bound)
    ensures p < q <= |nodes| && nodes[p].nexts[level] == if q < |nodes| then nodes[q] else null
    ensures q <= bound ==> |nodes[q].nexts| > level && InDescent(nodes, q, level, top, bound)
    ensures q > bound ==> IsStop(nodes, p, level, top, bound) && (level > 0 ==> InDescent(nodes, p, level - 1, top, bound))
  {
    assert ForwardAt(nodes, p);
    q := LinkTarget(nodes, p, level);
    if q <= bound {
      assert ForwardAt(nodes, q);
    }
  }

  // Level 0 leads a descent all the way to the bound.
  lemma {:induction false} StopAtBound<K, V>(nodes: seq<Node<K, V>>, top: nat, bound: nat)
    requires ForwardTo(nodes, bound + 1) && top < nodes[0].height && Chained(nodes) && Distinct(nodes)
    ensures Stop(nodes, 0, top, bound) == bound
  {
    var s := Stop(nodes, 0, top, bound);
    assert ForwardAt(nodes, s);
    LinkTargetIs(nodes, s, 0, s + 1);
  }

  // Above level top the head links nothing: a descent may start at any level
  // from there on.
  lemma {:induction false} StopFromAbove<K, V>(nodes: seq<Node<K, V>>, level: nat, top: nat, bound: nat)
    requires ForwardTo(nodes, bound + 1) && top < nodes[0].height && level < nodes[0].height
    requires |nodes[0].nexts| == nodes[0].height && forall l :: top < l < nodes[0].height ==> nodes[0].nexts[l] == null
    ensures Stop(nodes, level, nodes[0].height - 1, bound) == if level <= top then Stop(nodes, level, top, bound) else 0
    decreases nodes[0].height - level
  {
    assert ForwardAt(nodes, 0);
    if level + 1 < nodes[0].height {
      StopFromAbove(nodes, level + 1, top, bound);
    }
  }

  // ----- The table of a list whose links all lead forward -----

  ghost function RowOf<K, V>(nodes: seq<Node<K, V>>, p: nat): (row: seq<nat>)
    requires p < |nodes| && ForwardAt(nodes, p)
    reads nodes
    ensures |row| == nodes[p].height
    ensures forall l {:trigger row[l]} :: 0 <= l < |row| ==> row[l] == LinkTarget(nodes, p, l)
  {
    seq(nodes[p].height, l requires 0 <= l < nodes[p].height && ForwardAt(nodes, p) reads nodes => LinkTarget(nodes, p, l))
  }

  ghost function TableOf<K, V>(nodes: seq<Node<K, V>>): (to: Table)
    requires ForwardTo(nodes, |nodes|)
    reads nodes
    ensures |to| == |nodes| && Forward(to)
    ensures forall p {:trigger to[p]} :: 0 <= p < |to| ==> ForwardAt(nodes, p) && to[p] == RowOf(nodes, p)
  {
    var to := seq(|nodes|, p requires 0 <= p < |nodes| && ForwardAt(nodes, p) reads nodes => RowOf(nodes, p));
    RowsForward(nodes, to);
    to
  }

  lemma {:induction false} RowsForward<K, V>(nodes: seq<Node<K, V>>, to: Table)
    requires |to| == |nodes| && forall p {:trigger to[p]} :: 0 <= p < |to| ==> ForwardAt(nodes, p) && to[p] == RowOf(nodes, p)
    ensures Forward(to)
  {
    forall p, l {:trigger to[p][l]} | 0 <= p < |to| && 0 <= l < |to[p]|
      ensures p < to[p][l] <= |to| && (to[p][l] < |to| ==> l < |to[to[p][l]]|)
    {
      assert to[p] == RowOf(nodes, p) && to[p][l] == LinkTarget(nodes, p, l);
    }
  }

  // The links of the nodes are those of the table.
  ghost predicate HasTable<K, V>(nodes: seq<Node<K, V>>, to: Table)
    reads nodes
  {
    Drawn<Node?<K, V>>(nodes, null, Nexts(nodes), to)
  }

  lemma {:induction false} TableIsForward<K, V>(nodes: seq<Node<K, V>>)
    requires ForwardTo(nodes, |nodes|)
    ensures HasTable(nodes, TableOf(nodes))
  {
    var to, next := TableOf(nodes), Nexts(nodes);
    forall p {:trigger to[p]} | 0 <= p < |to|
      ensures |next[p]| == |to[p]|
    {
      assert ForwardAt(nodes, p) && next[p] == nodes[p].nexts;
    }
    forall p, l {:trigger to[p][l]} {:trigger next[p][l]} | 0 <= p < |to| && 0 <= l < |to[p]|
      ensures to[p][l] <= |to| && next[p][l] == NodeAt(nodes, to[p][l])
    {
      assert to[p] == RowOf(nodes, p) && to[p][l] == LinkTarget(nodes, p, l) && next[p] == nodes[p].nexts;
    }
  }

  lemma {:induction false} TableLeadsForward<K, V>(nodes: seq<Node<K, V>>, to: Table)
    requires HasTable(nodes, to) && Forward(to) && Sized(nodes)
    ensures ForwardTo(nodes, |nodes|)
  {
    var next := Nexts(nodes);
    forall p | 0 <= p < |nodes|
      ensures ForwardAt(nodes, p)
    {
      assert next[p] == nodes[p].nexts;
      forall l {:trigger nodes[p].nexts[l]} | 0 <= l < nodes[p].height
        ensures nodes[p].nexts[l] == null || (nodes[p].nexts[l] in nodes[p + 1..] && nodes[p].nexts[l].height > l)
      {
        var q := to[p][l];
        assert next[p][l] == NodeAt(nodes, q);
        if q < |nodes| {
          assert nodes[p + 1..][q - p - 1] == nodes[q] && next[q] == nodes[q].nexts && |next[q]| == |to[q]|;
        }
      }
    }
  }

  lemma {:induction false} TableUnique<K, V>(nodes: seq<Node<K, V>>, to: Table)
    requires HasTable(nodes, to) && Forward(to) && Sized(nodes) && Distinct(nodes)
    ensures ForwardTo(nodes, |nodes|) && TableOf(nodes) == to
  {
    TableLeadsForward(nodes, to);
    TableIsForward(nodes);
    NodesAreNamed(nodes);
    DrawnUnique<Node?<K, V>>(nodes, null, Nexts(nodes), TableOf(nodes), to);
  }

  lemma {:induction false} WalkTable<K, V>(nodes: seq<Node<K, V>>, p: nat, level: nat, bound: nat)
    requires ForwardTo(nodes, |nodes|) && p <= bound < |nodes| && level < nodes[p].height
    ensures Walk(nodes, p, level, bound) == TableWalk(TableOf(nodes), p, level, bound)
    decreases bound - p
  {
    var to := TableOf(nodes);
    assert ForwardAt(nodes, p) && to[p] == RowOf(nodes, p) && to[p][level] == LinkTarget(nodes, p, level);
    if to[p][level] <= bound {
      WalkTable(nodes, to[p][level], level, bound);
    }
  }

  lemma {:induction false} StopTable<K, V>(nodes: seq<Node<K, V>>, level: nat, bound: nat)
    requires ForwardTo(nodes, |nodes|) && bound < |nodes| && level < nodes[0].height
    ensures Stop(nodes, level, nodes[0].height - 1, bound) == TableStop(TableOf(nodes), level, bound)
    decreases nodes[0].height - level
  {
    assert TableOf(nodes)[0] == RowOf(nodes, 0);
    if level + 1 < nodes[0].height {
      StopTable(nodes, level + 1, bound);
      WalkTable(nodes, TableStop(TableOf(nodes), level + 1, bound), level, bound);
    } else {
      WalkTable(nodes, 0, level, bound);
    }
  }

  lemma {:induction false} HasReachTable<K, V>(nodes: seq<Node<K, V>>, to: Table, r: seq<nat>)
    requires HasTable(nodes, to) && Distinct(nodes)
    ensures HasReach(nodes, r) <==> TableReach(to, r)
  {
    NodesAreNamed(nodes);
    ReachDrawn<Node?<K, V>>(nodes, null, Nexts(nodes), to, r);
  }

  // ----- Linking -----

  // The link loop of Insert and AddToFirst: for every level of the new node,
  // which is all[at], it takes over the link of the stop.
  method LinkIn<K, V>(node: Node<K, V>, pre: seq<Node?<K, V>>, ghost all: seq<Node<K, V>>, ghost at: nat, ghost stops: seq<nat>)
    requires Distinct(all) && at < |all| && all[at] == node && Sized(all) && node.height <= |pre|
    requires CanBypass(Nexts(all), at, stops, node.height)
    requires forall l :: 0 <= l < node.height ==> pre[l] == all[stops[l]]
    modifies all
    ensures Sized(all) && Nexts(all) == Threaded<Node?<K, V>>(all, old(Nexts(all)), at, stops, node.height)
  {
    ghost var next := Nexts(all);
    var i := 0;
    while i < node.height
      invariant 0 <= i <= node.height && Sized(all)
      invariant Nexts(all) == Threaded<Node?<K, V>>(all, next, at, stops, i)
    {
      assert Nexts(all)[at] == node.nexts && Nexts(all)[stops[i]] == all[stops[i]].nexts;
      StoreLinks(node, pre[i], i, all, at, stops[i]);
      i := i + 1;
    }
  }

  method StoreLinks<K, V>(node: Node<K, V>, before: Node<K, V>, i: nat, ghost all: seq<Node<K, V>>, ghost at: nat, ghost k: nat)
    requires Distinct(all) && at < |all| && k < |all| && at != k && all[at] == node && all[k] == before
    requires i < |node.nexts| && i < |before.nexts|
    modifies node, before
    ensures Nexts(all) == ThreadStores(all, old(Nexts(all)), at, k, i)
    ensures forall p {:trigger all[p].nexts} :: 0 <= p < |all| ==> |all[p].nexts| == old(|all[p].nexts|)
  {
    ghost var next := Nexts(all);
    DistinctFrom(all, at);
    DistinctFrom(all, k);
    node.nexts := node.nexts[i := before.nexts[i]];
    ghost var next1 := next[at := node.nexts];
    assert Nexts(all) == next1;
    before.nexts := before.nexts[i := node];
    assert Nexts(all) == next1[k := before.nexts];
  }

  // all are the nodes after all[at] was linked in at the stops.
  ghost predicate IsLinkedIn<K, V>(nodes: seq<Node<K, V>>, before: seq<seq<Node?<K, V>>>, at: nat, stops: seq<nat>, all: seq<Node<K, V>>)
    reads all
  {
    && at <= |nodes| == |before| && |all| == |nodes| + 1 && all == InsertAt(nodes, at, all[at])
    && CanBypass(InsertAt(before, at, all[at].nexts), at, stops, all[at].height) && |all[at].nexts| == all[at].height
    && Nexts(all) == Threaded<Node?<K, V>>(all, InsertAt(before, at, all[at].nexts), at, stops, all[at].height)
  }

  // What the new node's links held before does not matter.
  lemma {:induction false} LinkedIn<K, V>(nodes: seq<Node<K, V>>, before: seq<seq<Node?<K, V>>>, at: nat, stops: seq<nat>, all: seq<Node<K, V>>, row: seq<Node?<K, V>>)
    requires at <= |nodes| == |before| && |all| == |nodes| + 1 && all == InsertAt(nodes, at, all[at]) && |row| == all[at].height
    requires CanBypass(InsertAt(before, at, row), at, stops, all[at].height)
    requires Nexts(all) == Threaded<Node?<K, V>>(all, InsertAt(before, at, row), at, stops, all[at].height)
    ensures IsLinkedIn(nodes, before, at, stops, all)
  {
    hide Threaded, InsertAt;
    var h := all[at].height;
    var a, b := InsertAt(before, at, row), InsertAt(before, at, all[at].nexts);
    assert Nexts(all)[at] == all[at].nexts;
    forall p | 0 <= p < |b|
      ensures |b[p]| == |a[p]| && (p != at ==> b[p] == a[p])
    {
      assert p == at || b[p] == before[Unshift(p, at)];
    }
    assert CanBypass(b, at, stops, h);
    var x, y := Threaded<Node?<K, V>>(all, a, at, stops, h), Threaded<Node?<K, V>>(all, b, at, stops, h);
    forall p | 0 <= p < |x|
      ensures x[p] == y[p]
    {
      assert |x[p]| == |a[p]| == |y[p]|;
      forall l | 0 <= l < |x[p]|
        ensures x[p][l] == y[p][l]
      {
        if p == at {
          assert x[at][l] == a[stops[l]][l] && y[at][l] == b[stops[l]][l];
        }
      }
    }
  }

  lemma {:induction false} LinkedInChain<K, V>(nodes: seq<Node<K, V>>, before: seq<seq<Node?<K, V>>>, at: nat, stops: seq<nat>, all: seq<Node<K, V>>)
    requires IsLinkedIn(nodes, before, at, stops, all) && ChainedRows(nodes, before) && 0 < at && all[at].height >= 1 && stops[0] == at - 1
    ensures Chained(all)
  {
    hide Threaded, InsertAt;
    var b := InsertAt(before, at, all[at].nexts);
    var next := Threaded<Node?<K, V>>(all, b, at, stops, all[at].height);
    forall p | 0 <= p < |all|
      ensures all[p].height >= 1 && |all[p].nexts| == all[p].height && all[p].nexts[0] == NodeAt(all, p + 1)
    {
      assert all[p].nexts == Nexts(all)[p] == next[p] && |next[p]| == |b[p]|;
      if p == at {
        assert next[at][0] == b[at - 1][0] && b[at - 1] == before[at - 1];
      } else {
        var q := Unshift(p, at);
        assert b[p] == before[q] && |before[q]| == nodes[q].height >= 1;
        assert next[p][0] == if p == at - 1 then all[at] else b[p][0];
      }
    }
  }

  // On a list whose links lead forward they still do.
  lemma {:induction false} LinkedInTable<K, V>(nodes: seq<Node<K, V>>, before: seq<seq<Node?<K, V>>>, to: Table, at: nat, stops: seq<nat>, all: seq<Node<K, V>>)
    requires IsLinkedIn(nodes, before, at, stops, all) && Drawn<Node?<K, V>>(nodes, null, before, to) && Forward(to)
    requires 0 < at && StopsOk(to, stops, at - 1, all[at].height) && Sized(all) && Distinct(all)
    ensures ForwardTo(all, |all|) && TableOf(all) == Inserted(to, at, stops, all[at].height)
  {
    hide Threaded, Drawn, Forward, Inserted;
    InsertedDrawn<Node?<K, V>>(nodes, null, before, to, at, stops, all[at], all[at].nexts);
    InsertedForward(to, at, stops, all[at].height);
    assert InsertAt<Node?<K, V>>(nodes, at, all[at]) == all;
    TableUnique(all, Inserted(to, at, stops, all[at].height));
  }

  // Lines 154-157: for every level of the node, whoever the search stopped at
  // takes over its link.
  method Unlink<K, V>(node: Node<K, V>, pre: seq<Node?<K, V>>, ghost all: seq<Node<K, V>>, ghost at: nat, ghost stops: seq<nat>)
    requires Distinct(all) && at < |all| && all[at] == node && Sized(all) && node.height <= |pre|
    requires CanBypass(Nexts(all), at, stops, node.height)
    requires forall l :: 0 <= l < node.height ==> pre[l] == all[stops[l]]
    modifies all
    ensures Sized(all) && Nexts(all) == Bypassing(old(Nexts(all)), null, at, stops, node.height)
    ensures AllNull(node.nexts)
  {
    ghost var next := Nexts(all);
    var i := 0;
    while i < node.height
      invariant 0 <= i <= node.height && Sized(all)
      invariant Nexts(all) == Bypassing(next, null, at, stops, i)
    {
      assert Nexts(all)[at] == node.nexts && Nexts(all)[stops[i]] == all[stops[i]].nexts;
      StoreBypass(node, pre[i], i, all, at, stops[i]);
      i := i + 1;
    }
    assert Nexts(all)[at] == node.nexts;
  }

  method StoreBypass<K, V>(node: Node<K, V>, before: Node<K, V>, i: nat, ghost all: seq<Node<K, V>>, ghost at: nat, ghost k: nat)
    requires Distinct(all) && at < |all| && k < |all| && at != k && all[at] == node && all[k] == before
    requires i < |node.nexts| && i < |before.nexts|
    modifies node, before
    ensures Nexts(all) == BypassStores(old(Nexts(all)), null, at, k, i)
    ensures forall p {:trigger all[p].nexts} :: 0 <= p < |all| ==> |all[p].nexts| == old(|all[p].nexts|)
    ensures node.nexts == old(node.nexts)[i := null]
  {
    ghost var next := Nexts(all);
    DistinctFrom(all, at);
    DistinctFrom(all, k);
    before.nexts := before.nexts[i := node.nexts[i]];
    ghost var next1 := next[k := before.nexts];
    assert Nexts(all) == next1;
    node.nexts := node.nexts[i := null];
    assert Nexts(all) == next1[at := node.nexts];
  }

  // Some reach describes the links.
  ghost predicate CanReach<K, V>(nodes: seq<Node<K, V>>)
    reads nodes
  {
    exists r :: HasReach(nodes, r)
  }

  // The kept nodes after the node at `at` of all was unlinked.
  ghost predicate IsUnlinked<K, V>(all: seq<Node<K, V>>, before: seq<seq<Node?<K, V>>>, at: nat, stops: seq<nat>, kept: seq<Node<K, V>>)
    reads kept
  {
    && at < |all| == |before| && kept == RemoveAt(all, at) && CanBypass(before, at, stops, all[at].height)
    && Nexts(kept) == RemoveAt(Bypassing(before, null, at, stops, all[at].height), at)
  }

  lemma {:induction false} UnlinkedChain<K, V>(all: seq<Node<K, V>>, before: seq<seq<Node?<K, V>>>, at: nat, stops: seq<nat>, kept: seq<Node<K, V>>)
    requires IsUnlinked(all, before, at, stops, kept) && ChainedRows(all, before) && 0 < at && stops[0] == at - 1
    ensures Chained(kept)
  {
    hide Bypassing;
    var next := Bypassing(before, null, at, stops, all[at].height);
    forall p | 0 <= p < |kept|
      ensures kept[p].height >= 1 && |kept[p].nexts| == kept[p].height && kept[p].nexts[0] == NodeAt(kept, p + 1)
    {
      var q := if p < at then p else p + 1;
      assert kept[p].nexts == Nexts(kept)[p] == next[q];
      assert |before[q]| == all[q].height >= 1 && |before[at]| == all[at].height >= 1;
      assert next[q][0] == if q == at - 1 then before[at][0] else before[q][0];
    }
  }

  // Every link still leads forward if and only if only the stops linked the node.
  lemma {:induction false} UnlinkedTable<K, V>(all: seq<Node<K, V>>, before: seq<seq<Node?<K, V>>>, to: Table, at: nat, stops: seq<nat>, kept: seq<Node<K, V>>)
    requires IsUnlinked(all, before, at, stops, kept) && Drawn<Node?<K, V>>(all, null, before, to) && Forward(to) && Distinct(all)
    requires 0 < at < |to| && StopsOk(to, stops, at - 1, |to[at]|) && |before[at]| == all[at].height && Sized(kept)
    ensures ForwardTo(kept, |kept|) <==> NoStray(to, at, stops)
    ensures NoStray(to, at, stops) ==> TableOf(kept) == Removed(to, at, stops)
  {
    hide Bypassing, Drawn, Forward, NoStray, Removed;
    DistinctRemove(all, at);
    if NoStray(to, at, stops) {
      RemovedDrawn<Node?<K, V>>(all, null, before, to, at, stops);
      RemovedForward(to, at, stops);
      assert RemoveAt<Node?<K, V>>(all, at) == kept;
      TableUnique(kept, Removed(to, at, stops));
    } else {
      var p, l := StrayStays<Node?<K, V>>(all, null, before, to, at, stops);
      LeadsOutside(kept, p, l);
    }
  }

  // A link to a node that is not in the list does not lead forward.
  lemma {:induction false} LeadsOutside<K, V>(nodes: seq<Node<K, V>>, p: nat, l: nat)
    requires p < |nodes| && l < |Nexts(nodes)[p]| && Nexts(nodes)[p][l] != null && Nexts(nodes)[p][l] !in nodes
    ensures !ForwardTo(nodes, |nodes|)
  {
    assert Nexts(nodes)[p] == nodes[p].nexts;
    assert !ForwardAt(nodes, p);
  }

  // What removing a node does to a list with a reach.
  lemma {:induction false} UnlinkedReach<K, V>(all: seq<Node<K, V>>, before: seq<seq<Node?<K, V>>>, r: seq<nat>, at: nat, stops: seq<nat>, kept: seq<Node<K, V>>)
    requires IsUnlinked(all, before, at, stops, kept) && Distinct(all) && Removes<Node?<K, V>>(all, null, before, r, at, stops)
    requires |before[at]| == all[at].height
    ensures RemoveKeeps(r, at, all[at].height) <==> CanReach(kept)
    ensures RemoveKeeps(r, at, all[at].height) ==> HasReach(kept, ReachAfter(r, at, all[at].height))
  {
    NodesAreNamed(all);
    hide Bypassing, Removes, RemoveKeeps, Reached;
    var next := Bypassing(before, null, at, stops, all[at].height);
    assert RemoveAt<Node?<K, V>>(all, at) == kept;
    if RemoveKeeps(r, at, all[at].height) {
      ReachedRemove<Node?<K, V>>(all, null, before, r, at, stops);
      assert HasReach(kept, ReachAfter(r, at, all[at].height));
    } else if r2 :| HasReach(kept, r2) {
      RemoveBreaks<Node?<K, V>>(all, null, before, r, at, stops, RemoveAt(next, at), r2);
    }
  }

  lemma {:induction false} OrderedRemove<K(!new), V>(nodes: seq<Node<K, V>>, at: nat, cmp: (K, K) -> int, maxHeight: nat)
    requires 0 < at < |nodes| && Ordered(nodes, cmp, maxHeight)
    ensures Ordered(RemoveAt(nodes, at), cmp, maxHeight)
    ensures Entries(RemoveAt(nodes, at)) == RemoveAt(Entries(nodes), at - 1)
    ensures nodes[at] !in RemoveAt(nodes, at)
  {
    var kept := RemoveAt(nodes, at);
    DistinctRemove(nodes, at);
    forall i, j | 0 <= i < j < |Keys(kept)|
      ensures cmp(Keys(kept)[i], Keys(kept)[j]) <= 0
    {
      assert Keys(kept)[i] == Keys(nodes)[if i + 1 < at then i else i + 1];
      assert Keys(kept)[j] == Keys(nodes)[if j + 1 < at then j else j + 1];
    }
  }

  lemma {:induction false} OrderedPrefix<K, V>(nodes: seq<Node<K, V>>, c: nat, cmp: (K, K) -> int, maxHeight: nat)
    requires 0 < c <= |nodes| && Ordered(nodes, cmp, maxHeight)
    ensures Ordered(nodes[..c], cmp, maxHeight)
    ensures Entries(nodes[..c]) == Entries(nodes)[..c - 1]
  {
    DistinctPrefix(nodes, c);
    assert Keys(nodes[..c]) == Keys(nodes)[..c - 1];
  }

  // Lines 177-182: clears the link of every recorded predecessor.
  method CutLinks<K, V>(pre: seq<Node?<K, V>>, limit: nat, top: nat, ghost all: seq<Node<K, V>>, ghost stops: seq<nat>)
    requires Distinct(all) && all != [] && Sized(all) && top <= limit == all[0].height == |pre| == |stops|
    requires CanClear(Nexts(all), stops, limit)
    requires forall l :: 0 <= l < top ==> pre[l] == all[stops[l]]
    requires forall l :: top <= l < limit ==> pre[l] == null && stops[l] == 0 && all[0].nexts[l] == null
    modifies all
    ensures Sized(all) && Nexts(all) == Cleared(old(Nexts(all)), null, stops, limit)
  {
    ghost var next := Nexts(all);
    var i := 0;
    while i < limit
      invariant 0 <= i <= limit && Sized(all)
      invariant Nexts(all) == Cleared(next, null, stops, i)
    {
      assert Nexts(all)[stops[i]] == all[stops[i]].nexts && next[stops[i]] == old(all[stops[i]].nexts);
      if pre[i] != null {
        ClearLink(pre[i], i, all, stops[i]);
      } else {
        AlreadyClear<Node?<K, V>>(next, null, stops, i);
      }
      i := i + 1;
    }
  }

  lemma {:induction false} AlreadyClear<T>(next: seq<seq<T>>, nil: T, stops: seq<nat>, i: nat)
    requires CanClear(next, stops, i + 1) && next[stops[i]][i] == nil
    ensures Cleared(next, nil, stops, i + 1) == Cleared(next, nil, stops, i)
  {
    var n, k := Cleared(next, nil, stops, i), stops[i];
    assert |n[k]| == |next[k]| && n[k][i] == nil;
    assert n[k][i := nil] == n[k];
  }

  // all was cut before position c at the stops; the rest is as it was.
  ghost predicate IsCleared<K, V>(all: seq<Node<K, V>>, before: seq<seq<Node?<K, V>>>, c: nat, stops: seq<nat>)
    reads all
  {
    && 0 < c <= |all| == |before| && CanClear(before, stops, |stops|)
    && Nexts(all) == Cleared(before, null, stops, |stops|)
    && forall l {:trigger stops[l]} :: 0 <= l < |stops| ==> stops[l] < c
  }

  lemma {:induction false} ClearedChain<K, V>(all: seq<Node<K, V>>, before: seq<seq<Node?<K, V>>>, c: nat, stops: seq<nat>)
    requires IsCleared(all, before, c, stops) && ChainedRows(all, before) && |stops| > 0 && stops[0] == c - 1
    ensures Chained(all[..c]) && Nexts(all[c..]) == before[c..]
  {
    hide Cleared;
    var kept := all[..c];
    forall p | 0 <= p < c
      ensures kept[p].height >= 1 && |kept[p].nexts| == kept[p].height && kept[p].nexts[0] == NodeAt(kept, p + 1)
    {
      assert kept[p].nexts == Nexts(all)[p] && |before[p]| == all[p].height >= 1;
      assert Nexts(all)[p][0] == if p == c - 1 then null else before[p][0];
    }
    forall p | c <= p < |all|
      ensures Nexts(all)[p] == before[p]
    {
      assert |Nexts(all)[p]| == |before[p]|;
      assert forall l :: 0 <= l < |before[p]| ==> Nexts(all)[p][l] == before[p][l];
    }
    assert Nexts(all[c..]) == before[c..];
  }

  // Every kept link still leads forward if and only if only the stops' links
  // led across.
  lemma {:induction false} ClearedTable<K, V>(all: seq<Node<K, V>>, before: seq<seq<Node?<K, V>>>, to: Table, c: nat, stops: seq<nat>)
    requires IsCleared(all, before, c, stops) && Drawn<Node?<K, V>>(all, null, before, to) && Forward(to) && Distinct(all)
    requires StopsOk(to, stops, c - 1, |stops|) && Sized(all[..c])
    ensures ForwardTo(all[..c], c) <==> NoCrossing(to, c, stops)
    ensures NoCrossing(to, c, stops) ==> TableOf(all[..c]) == CutTable(to, c, c - 1)
  {
    hide Cleared, Drawn, Forward, NoCrossing, CutTable;
    var kept := all[..c];
    DistinctPrefix(all, c);
    assert Nexts(kept) == Nexts(all)[..c];
    if NoCrossing(to, c, stops) {
      CutDrawn<Node?<K, V>>(all, null, before, to, c, stops);
      CutForward(to, c, c - 1);
      TableUnique(kept, CutTable(to, c, c - 1));
    } else {
      var p, l := CrossingStays<Node?<K, V>>(all, null, before, to, c, stops);
      var q := to[p][l];
      assert all[q] !in kept by {
        DistinctFrom(all, q);
      }
      LeadsOutside(kept, p, l);
    }
  }

  method ClearLink<K, V>(node: Node<K, V>, i: nat, ghost all: seq<Node<K, V>>, ghost k: nat)
    requires Distinct(all) && k < |all| && all[k] == node && i < |node.nexts|
    modifies node
    ensures Nexts(all) == old(Nexts(all))[k := old(Nexts(all))[k][i := null]]
    ensures forall p {:trigger all[p].nexts} :: 0 <= p < |all| ==> |all[p].nexts| == old(|all[p].nexts|)
  {
    ghost var next := Nexts(all);
    DistinctFrom(all, k);
    node.nexts := node.nexts[i := null];
    assert Nexts(all) == next[k := node.nexts];
  }

  // The links of a node after SplitOnPosNode has passed it: above level 0,
  // links to keys not smaller than the cut key are gone.
  ghost function SeveredRow<K, V>(row: seq<Node?<K, V>>, cmp: (K, K) -> int, cut: K): (r: seq<Node?<K, V>>)
    ensures |r| == |row|
    ensures forall l :: 0 <= l < |row| ==>
      r[l] == if l > 0 && row[l] != null && cmp(cut, row[l].key) <= 0 then null else row[l]
  {
    seq(|row|, l requires 0 <= l < |row| =>
      if l > 0 && row[l] != null && cmp(cut, row[l].key) <= 0 then null else row[l])
  }

  method SeverNode<K, V>(node: Node<K, V>, cmp: (K, K) -> int, cut: K, ghost all: seq<Node<K, V>>, ghost k: nat)
    requires |node.nexts| == node.height && Distinct(all) && k < |all| && all[k] == node
    modifies node
    ensures node.nexts == SeveredRow(old(node.nexts), cmp, cut)
    ensures Nexts(all) == old(Nexts(all))[k := node.nexts]
  {
    DistinctFrom(all, k);
    var i := 1;
    while i < node.height
      invariant 1 <= i && |node.nexts| == node.height
      invariant forall l :: 0 <= l < node.height ==>
        node.nexts[l] == if l < i then SeveredRow(old(node.nexts), cmp, cut)[l] else old(node.nexts)[l]
    {
      var next := node.nexts[i];
      if next != null && cmp(cut, next.key) <= 0 {
        node.nexts := node.nexts[i := null];
      }
      i := i + 1;
    }
  }

  // No kept node that is linked above level 0 shares the key of the cut node.
  ghost predicate NoTallTwin<K, V>(nodes: seq<Node<K, V>>, c: nat, cmp: (K, K) -> int)
    requires c < |nodes|
  {
    forall p :: 1 <= p < c && nodes[p].height > 1 ==> cmp(nodes[c].key, nodes[p].key) > 0
  }

  ghost predicate AllNull<K, V>(row: seq<Node?<K, V>>) {
    forall l :: 0 <= l < |row| ==> row[l] == null
  }

  // The links of the kept nodes after a cut by position.
  ghost predicate CutByPosition<K, V>(nodes: seq<Node<K, V>>, before: seq<seq<Node?<K, V>>>, after: seq<seq<Node?<K, V>>>,
                                      c: nat, cmp: (K, K) -> int)
  {
    && 0 < c < |nodes| == |before| == |after|
    && (forall p {:trigger after[p]} :: 0 <= p < c - 1 ==> after[p] == SeveredRow(before[p], cmp, nodes[c].key))
    && |after[c - 1]| == |before[c - 1]|
    && AllNull(after[c - 1])
    && (forall p {:trigger after[p]} :: c <= p < |nodes| ==> after[p] == before[p])
  }

  // How many nodes sort before the cut key, c - 1 at the end of the list. The
  // others up to c share that key.
  ghost function CutBound<K, V>(nodes: seq<Node<K, V>>, c: nat, cmp: (K, K) -> int): (b: nat)
    requires 0 < c <= |nodes|
  {
    if c < |nodes| then LowerBound(cmp, Keys(nodes), nodes[c].key) else c - 1
  }

  lemma {:induction false} CutBoundSplits<K(!new), V>(nodes: seq<Node<K, V>>, c: nat, cmp: (K, K) -> int)
    requires IsOrder(cmp) && 0 < c < |nodes| && Sorted(cmp, Keys(nodes))
    ensures CutBound(nodes, c, cmp) < c
    ensures forall p :: 1 <= p < |nodes| ==> (cmp(nodes[c].key, nodes[p].key) <= 0 <==> p > CutBound(nodes, c, cmp))
  {
    var b := CutBound(nodes, c, cmp);
    BoundsSplit(cmp, Keys(nodes), nodes[c].key);
    Flip(cmp, nodes[c].key, nodes[c].key);
    forall p | 1 <= p < |nodes|
      ensures cmp(nodes[c].key, nodes[p].key) <= 0 <==> p > b
    {
      assert Keys(nodes)[p - 1] == nodes[p].key;
    }
  }

  // A cut by position never leaves a link across.
  lemma {:induction false} CutByPositionDrawn<K(!new), V>(nodes: seq<Node<K, V>>, before: seq<seq<Node?<K, V>>>,
      after: seq<seq<Node?<K, V>>>, to: Table, c: nat, cmp: (K, K) -> int)
    requires CutByPosition(nodes, before, after, c, cmp) && IsOrder(cmp) && Sorted(cmp, Keys(nodes))
    requires Drawn<Node?<K, V>>(nodes, null, before, to) && Forward(to) && ChainedRows(nodes, before) && Distinct(nodes)
    ensures Drawn<Node?<K, V>>(nodes[..c], null, after[..c], CutTable(to, c, CutBound(nodes, c, cmp)))
  {
    hide SeveredRow, CutRow, CutBound, Sorted;
    var b, kept := CutBound(nodes, c, cmp), after[..c];
    var t := CutTable(to, c, b);
    forall p {:trigger t[p]} | 0 <= p < c
      ensures |kept[p]| == |t[p]|
    {
      assert t[p] == CutRow(to[p], c, b) && |before[p]| == |to[p]| && kept[p] == after[p];
    }
    forall p, l {:trigger kept[p][l]} {:trigger t[p][l]} | 0 <= p < c && 0 <= l < |t[p]|
      ensures t[p][l] <= c && kept[p][l] == NodeAt(nodes[..c], t[p][l])
    {
      assert t[p] == CutRow(to[p], c, b) && |before[p]| == |to[p]| && kept[p] == after[p];
      CutByPositionLink(nodes, before, after, to, c, cmp, p, l);
    }
  }

  // What one kept link becomes.
  lemma {:induction false} CutByPositionLink<K(!new), V>(nodes: seq<Node<K, V>>, before: seq<seq<Node?<K, V>>>,
      after: seq<seq<Node?<K, V>>>, to: Table, c: nat, cmp: (K, K) -> int, p: nat, l: nat)
    requires CutByPosition(nodes, before, after, c, cmp) && IsOrder(cmp) && Sorted(cmp, Keys(nodes))
    requires Drawn<Node?<K, V>>(nodes, null, before, to) && Forward(to) && ChainedRows(nodes, before) && Distinct(nodes)
    requires p < c && l < |to[p]|
    ensures |after[p]| == |to[p]| && after[p][l] == NodeAt(nodes[..c], CutRow(to[p], c, CutBound(nodes, c, cmp))[l])
  {
    hide SeveredRow, CutRow, CutBound, Sorted, Distinct;
    CutBoundSplits(nodes, c, cmp);
    var b, q := CutBound(nodes, c, cmp), to[p][l];
    assert |before[p]| == |to[p]| && p < q && before[p][l] == NodeAt(nodes, q);
    if l == 0 {
      LevelZero(nodes, before, to, p);
    }
    if p < c - 1 {
      assert after[p] == SeveredRow(before[p], cmp, nodes[c].key);
    }
  }

  lemma {:induction false} LevelZero<K, V>(nodes: seq<Node<K, V>>, before: seq<seq<Node?<K, V>>>, to: Table, p: nat)
    requires Drawn<Node?<K, V>>(nodes, null, before, to) && Forward(to) && ChainedRows(nodes, before) && Distinct(nodes)
    requires p < |nodes| && |to[p]| > 0
    ensures to[p][0] == p + 1
  {
    assert |before[p]| == |to[p]| && before[p][0] == NodeAt(nodes, p + 1) == NodeAt(nodes, to[p][0]);
    assert Differ(nodes, p + 1, to[p][0]) || to[p][0] == p + 1;
  }

  // Towers are exact after a cut by position if and only if the kept ones were
  // and no kept node that is linked above level 0 shares the cut key.
  lemma {:induction false} CutByPositionExact<K(!new), V>(nodes: seq<Node<K, V>>, before: seq<seq<Node?<K, V>>>,
      after: seq<seq<Node?<K, V>>>, c: nat, cmp: (K, K) -> int, r: seq<nat>)
    requires CutByPosition(nodes, before, after, c, cmp) && IsOrder(cmp) && Sorted(cmp, Keys(nodes)) && Distinct(nodes)
    requires Reached<Node?<K, V>>(nodes, null, before, r) && ChainedRows(nodes, before)
    ensures Exact<Node?<K, V>>(nodes[..c], null, after[..c], Heights(nodes)[..c]) <==>
      r[..c] == Heights(nodes)[..c] && NoTallTwin(nodes, c, cmp)
  {
    hide Exact, SeveredRow, Reached;
    var h := Heights(nodes)[..c];
    CutByPositionReach(nodes, before, after, c, cmp, r);
    DistinctPrefix(nodes, c);
    assert Named<Node?<K, V>>(nodes[..c], null) by {
      NodesAreNamed(nodes[..c]);
    }
    forall p {:trigger after[p]} | 0 <= p < c
      ensures |after[p]| == h[p]
    {
      assert |before[p]| == nodes[p].height && p < c - 1 ==> after[p] == SeveredRow(before[p], cmp, nodes[c].key);
    }
    ReachUnique<Node?<K, V>>(nodes[..c], null, after[..c], CutReach(r, c, CutBound(nodes, c, cmp)), h);
    ReachIsHeight(nodes, before, c, cmp, r);
  }

  // A cut by position of a list with a reach leaves a list with a reach.
  lemma {:induction false} CutByPositionReach<K(!new), V>(nodes: seq<Node<K, V>>, before: seq<seq<Node?<K, V>>>,
      after: seq<seq<Node?<K, V>>>, c: nat, cmp: (K, K) -> int, r: seq<nat>)
    requires CutByPosition(nodes, before, after, c, cmp) && IsOrder(cmp) && Sorted(cmp, Keys(nodes)) && Distinct(nodes)
    requires Reached<Node?<K, V>>(nodes, null, before, r) && ChainedRows(nodes, before)
    ensures |r| == |nodes| && Reached<Node?<K, V>>(nodes[..c], null, after[..c], CutReach(r, c, CutBound(nodes, c, cmp)))
  {
    hide Exact, SeveredRow, Drawn, TableReach, Forward;
    var to, b := ReachTable(before, r), CutBound(nodes, c, cmp);
    NodesAreNamed(nodes);
    ReachTableDrawn<Node?<K, V>>(nodes, null, before, r);
    ReachDrawnTo<Node?<K, V>>(nodes, null, before, to, r);
    ReachForward(to, r);
    CutByPositionDrawn(nodes, before, after, to, c, cmp);
    ReachCut(to, r, c, b);
    ReachDrawnFrom<Node?<K, V>>(nodes[..c], null, after[..c], CutTable(to, c, b), CutReach(r, c, b));
  }

  lemma {:induction false} NodesAreNamed<K, V>(nodes: seq<Node<K, V>>)
    requires Distinct(nodes)
    ensures Named<Node?<K, V>>(nodes, null)
  {
    var ids: seq<Node?<K, V>> := nodes;
    forall i: nat, j: nat | i != j
      ensures Differ(ids, i, j)
    {
      assert Differ(nodes, i, j);
    }
  }

  lemma {:induction false} ReachIsHeight<K(!new), V>(nodes: seq<Node<K, V>>, before: seq<seq<Node?<K, V>>>,
      c: nat, cmp: (K, K) -> int, r: seq<nat>)
    requires 0 < c < |nodes| && IsOrder(cmp) && Sorted(cmp, Keys(nodes)) && ChainedRows(nodes, before)
    requires Reached<Node?<K, V>>(nodes, null, before, r)
    ensures |r| == |nodes|
    ensures CutReach(r, c, CutBound(nodes, c, cmp)) == Heights(nodes)[..c] <==>
      r[..c] == Heights(nodes)[..c] && NoTallTwin(nodes, c, cmp)
  {
    hide Exact, Sorted;
    TwinHeights(nodes, c, cmp, before, r);
  }

  lemma {:induction false} TwinHeights<K(!new), V, T>(nodes: seq<Node<K, V>>, c: nat, cmp: (K, K) -> int, next: seq<seq<T>>, r: seq<nat>)
    requires 0 < c < |nodes| == |next| && IsOrder(cmp) && Sorted(cmp, Keys(nodes)) && InBounds(next, r)
    requires forall p {:trigger next[p]} :: 0 <= p < |next| ==> |next[p]| == nodes[p].height
    ensures CutReach(r, c, CutBound(nodes, c, cmp)) == Heights(nodes)[..c] <==>
      r[..c] == Heights(nodes)[..c] && NoTallTwin(nodes, c, cmp)
  {
    hide Sorted, CutBound;
    var b, h := CutBound(nodes, c, cmp), Heights(nodes)[..c];
    var g := CutReach(r, c, b);
    CutBoundSplits(nodes, c, cmp);
    forall p | 0 <= p < c
      ensures 1 <= r[p] <= nodes[p].height && g[p] <= r[p]
    {
      assert 1 <= r[p] <= |next[p]|;
    }
    if g == h {
      forall p | 0 <= p < c
        ensures r[..c][p] == h[p] && (p >= 1 && nodes[p].height > 1 ==> cmp(nodes[c].key, nodes[p].key) > 0)
      {
        assert g[p] == h[p];
      }
    } else if r[..c] == h {
      var p :| 0 <= p < c && g[p] != h[p];
      assert r[p] == r[..c][p];
    }
  }

  method SeverAndClear<K, V>(head: Node<K, V>, pos: nat, cut: K, cmp: (K, K) -> int,
                             ghost all: seq<Node<K, V>>, ghost next: seq<seq<Node?<K, V>>>)
      returns (pre: Node<K, V>, node: Node<K, V>)
    requires Distinct(all) && pos + 1 < |all| && all[0] == head && all[pos + 1].key == cut
    requires next == Nexts(all) && ChainedRows(all, next)
    modifies all
    ensures pre == all[pos] && node == all[pos + 1] && Sized(all)
    ensures CutByPosition(all, next, Nexts(all), pos + 1, cmp)
  {
    pre, node := SeverWalk(head, pos, cut, cmp, all, next);
    ghost var cur := Nexts(all);
    assert cur[pos] == pre.nexts;
    ClearRow(pre, all, pos);
    WalkedIsCut(all, next, cur, Nexts(all), pos + 1, cmp);
  }

  lemma {:induction false} WalkedIsCut<K, V>(all: seq<Node<K, V>>, next: seq<seq<Node?<K, V>>>, cur: seq<seq<Node?<K, V>>>,
      after: seq<seq<Node?<K, V>>>, c: nat, cmp: (K, K) -> int)
    requires 0 < c < |all| && ChainedRows(all, next) && Walked(next, cur, c, cmp, all[c].key)
    requires |after| == |cur| && after == cur[c - 1 := after[c - 1]]
    requires |after[c - 1]| == all[c - 1].height && AllNull(after[c - 1])
    ensures CutByPosition(all, next, after, c, cmp)
    ensures forall p :: 0 <= p < |all| ==> |after[p]| == all[p].height
  {
  }

  ghost predicate ChainedRows<K, V>(nodes: seq<Node<K, V>>, next: seq<seq<Node?<K, V>>>) {
    && |next| == |nodes|
    && forall p {:trigger next[p]} :: 0 <= p < |nodes| ==>
         |next[p]| == nodes[p].height >= 1 && next[p][0] == NodeAt(nodes, p + 1)
  }

  // The walk of SplitOnPosNode. Its loop guard never fails here, because the
  // node at the cut exists.
  method SeverWalk<K, V>(head: Node<K, V>, pos: nat, cut: K, cmp: (K, K) -> int,
                         ghost all: seq<Node<K, V>>, ghost next: seq<seq<Node?<K, V>>>)
      returns (pre: Node<K, V>, node: Node<K, V>)
    requires Distinct(all) && pos + 1 < |all| && all[0] == head
    requires next == Nexts(all) && ChainedRows(all, next)
    modifies all
    ensures pre == all[pos] && node == all[pos + 1]
    ensures Walked(next, Nexts(all), pos + 1, cmp, cut)
  {
    node := head;
    pre := head;
    var cnt := 0;
    while cnt != pos + 1
      invariant 0 <= cnt <= pos + 1 && node == all[cnt] && pre == all[if cnt == 0 then 0 else cnt - 1]
      invariant Walked(next, Nexts(all), cnt, cmp, cut)
      decreases pos + 1 - cnt
    {
      assert node.nexts == Nexts(all)[cnt];
      SeverNode(node, cmp, cut, all, cnt);
      pre := node;
      node := node.nexts[0];
      cnt := cnt + 1;
    }
  }

  ghost predicate Walked<K, V>(next: seq<seq<Node?<K, V>>>, cur: seq<seq<Node?<K, V>>>, cnt: nat, cmp: (K, K) -> int, cut: K) {
    && cnt <= |cur| == |next|
    && (forall p {:trigger cur[p]} :: 0 <= p < cnt ==> cur[p] == SeveredRow(next[p], cmp, cut))
    && (forall p {:trigger cur[p]} :: cnt <= p < |cur| ==> cur[p] == next[p])
  }

  method ClearRow<K, V>(node: Node<K, V>, ghost all: seq<Node<K, V>>, ghost k: nat)
    requires |node.nexts| == node.height && Distinct(all) && k < |all| && all[k] == node
    modifies node
    ensures |node.nexts| == node.height && AllNull(node.nexts)
    ensures Nexts(all) == old(Nexts(all))[k := node.nexts]
  {
    DistinctFrom(all, k);
    var i := 0;
    while i < node.height
      invariant 0 <= i <= node.height == |node.nexts|
      invariant forall l :: 0 <= l < i ==> node.nexts[l] == null
    {
      node.nexts := node.nexts[i := null];
      i := i + 1;
    }
  }

  // What a cut by position does to a list: it stays chained, the rest is as it
  // was, links that led forward still do, and the reach is known.
  lemma {:induction false} CutByPositionChain<K, V>(nodes: seq<Node<K, V>>, before: seq<seq<Node?<K, V>>>, c: nat, cmp: (K, K) -> int)
    requires CutByPosition(nodes, before, Nexts(nodes), c, cmp) && ChainedRows(nodes, before)
    ensures Chained(nodes[..c]) && Nexts(nodes[c..]) == before[c..]
  {
    hide SeveredRow;
    var kept := nodes[..c];
    forall p | 0 <= p < c
      ensures kept[p].height >= 1 && |kept[p].nexts| == kept[p].height && kept[p].nexts[0] == NodeAt(kept, p + 1)
    {
      assert kept[p].nexts == Nexts(nodes)[p] && |before[p]| == nodes[p].height >= 1;
    }
    var rest := Nexts(nodes[c..]);
    forall p | 0 <= p < |rest|
      ensures rest[p] == before[c..][p]
    {
      assert rest[p] == Nexts(nodes)[c + p] == before[c + p];
    }
  }

  lemma {:induction false} CutByPositionTable<K(!new), V>(nodes: seq<Node<K, V>>, before: seq<seq<Node?<K, V>>>, to: Table, c: nat, cmp: (K, K) -> int)
    requires CutByPosition(nodes, before, Nexts(nodes), c, cmp) && IsOrder(cmp) && Sorted(cmp, Keys(nodes)) && Distinct(nodes)
    requires 0 < c < |nodes| == |to| && Drawn<Node?<K, V>>(nodes, null, before, to) && Forward(to) && ChainedRows(nodes, before) && Sized(nodes[..c])
    ensures ForwardTo(nodes[..c], c) && TableOf(nodes[..c]) == CutTable(to, c, CutBound(nodes, c, cmp))
  {
    hide Drawn, Forward, CutByPosition, ChainedRows, Sorted, CutTable;
    var t := CutTable(to, c, CutBound(nodes, c, cmp));
    CutByPositionDrawn(nodes, before, Nexts(nodes), to, c, cmp);
    CutForward(to, c, CutBound(nodes, c, cmp));
    DistinctPrefix(nodes, c);
    assert Nexts(nodes[..c]) == Nexts(nodes)[..c];
    TableUnique(nodes[..c], t);
  }

  lemma {:induction false} ReachAtLeastOne<T>(next: seq<seq<T>>, r: seq<nat>)
    requires InBounds(next, r)
    ensures forall j :: 0 <= j < |r| ==> r[j] >= 1
  {
    forall j | 0 <= j < |r|
      ensures r[j] >= 1
    {
      assert 1 <= r[j] <= |next[j]|;
    }
  }

  // A list with a reach is threaded at level 0 and leads forward everywhere.
  lemma {:induction false} ReachIsForward<K, V>(nodes: seq<Node<K, V>>, r: seq<nat>)
    requires HasReach(nodes, r) && Sized(nodes)
    ensures Chained(nodes) && ForwardTo(nodes, |nodes|)
  {
    hide Exact;
    var next := Nexts(nodes);
    ReachAtLeastOne<Node?<K, V>>(next, r);
    forall p | 0 <= p < |nodes|
      ensures nodes[p].height >= 1 && nodes[p].nexts[0] == NodeAt(nodes, p + 1) && ForwardAt(nodes, p)
    {
      ReachForwardAt(nodes, r, p);
    }
  }

  lemma {:induction false} ReachForwardAt<K, V>(nodes: seq<Node<K, V>>, r: seq<nat>, p: nat)
    requires HasReach(nodes, r) && Sized(nodes) && p < |nodes|
    ensures nodes[p].height >= 1 && nodes[p].nexts[0] == NodeAt(nodes, p + 1) && ForwardAt(nodes, p)
  {
    hide Exact;
    var next := Nexts(nodes);
    ReachAtLeastOne<Node?<K, V>>(next, r);
    assert next[p] == nodes[p].nexts && 1 <= r[p] <= |next[p]|;
    LinkIs<Node?<K, V>>(nodes, null, next, r, p, 0);
    FirstTallerIs(r, p + 1, 0, p + 1);
    forall l {:trigger nodes[p].nexts[l]} | 0 <= l < nodes[p].height
      ensures nodes[p].nexts[l] == null || (nodes[p].nexts[l] in nodes[p + 1..] && nodes[p].nexts[l].height > l)
    {
      LinkIs<Node?<K, V>>(nodes, null, next, r, p, l);
      var q := FirstTaller(r, p + 1, l);
      if l < r[p] && q < |nodes| {
        assert nodes[p + 1..][q - p - 1] == nodes[q] && next[q] == nodes[q].nexts && r[q] <= |next[q]|;
      }
    }
  }

  // Unlinks the head, then the rest of the chain.
  method ClearAll<K, V>(head: Node<K, V>, ghost all: seq<Node<K, V>>) returns (cnt: nat)
    requires all != [] && all[0] == head && Distinct(all) && Chained(all)
    modifies all
    ensures cnt == |all| - 1 && Sized(all)
    ensures forall p :: 0 <= p < |all| ==> AllNull(all[p].nexts)
  {
    var node := head.nexts[0];
    ghost var next := Nexts(all);
    assert ChainedRows(all, next);
    ClearRow(head, all, 0);
    KeepRows(all, next, 0);
    cnt := ClearChain(node, all);
  }

  // Frees the nodes after the head one by one.
  method ClearChain<K, V>(first: Node?<K, V>, ghost all: seq<Node<K, V>>) returns (cnt: nat)
    requires all != [] && Distinct(all) && first == NodeAt(all, 1) && AllNull(all[0].nexts)
    requires forall p :: 1 <= p < |all| ==> all[p].height >= 1
    requires forall p {:trigger all[p].nexts} :: 1 <= p < |all| ==>
      |all[p].nexts| == all[p].height && all[p].nexts[0] == NodeAt(all, p + 1)
    requires |all[0].nexts| == all[0].height
    modifies all[1..]
    ensures cnt == |all| - 1 && Sized(all)
    ensures forall p :: 0 <= p < |all| ==> AllNull(all[p].nexts)
  {
    cnt := 0;
    var node := first;
    while node != null
      invariant 0 <= cnt < |all| && node == NodeAt(all, cnt + 1)
      invariant forall p :: 0 <= p <= cnt ==> AllNull(all[p].nexts)
      invariant Sized(all)
      invariant forall p {:trigger all[p].nexts} :: cnt < p < |all| ==> all[p].nexts[0] == NodeAt(all, p + 1)
      decreases |all| - cnt
    {
      cnt := cnt + 1;
      var tmp := node;
      node := node.nexts[0];
      ghost var next := Nexts(all);
      ClearRow(tmp, all, cnt);
      KeepRows(all, next, cnt);
    }
  }

  lemma KeepRows<K, V>(all: seq<Node<K, V>>, next: seq<seq<Node?<K, V>>>, k: nat)
    requires |next| == |all| && k < |all| && Nexts(all) == next[k := all[k].nexts]
    ensures forall p {:trigger all[p].nexts} :: 0 <= p < |all| && p != k ==> all[p].nexts == next[p]
  {
    forall p | 0 <= p < |all| && p != k
      ensures all[p].nexts == next[p]
    {
      assert Nexts(all)[p] == next[p];
    }
  }

  lemma {:induction false} HeadAlone<K, V>(head: Node<K, V>)
    requires AllNull(head.nexts) && |head.nexts| == head.height >= 1
    ensures HasReach([head], [head.height]) && Linked([head], Heights([head])) && Distinct([head])
  {
    assert Heights([head]) == [head.height];
    assert Nexts([head])[0] == head.nexts;
    forall l: nat
      ensures LevelExact<Node?<K, V>>([head], null, Nexts([head]), [head.height], l)
    {
    }
  }
}

// The skiplist of src/base/skiplist.h and its iterator.

module Skiplists {
  import opened Towers
  import opened Ordering
  import opened ParkMiller
  import opened Reach
  import opened Links
  import opened SkiplistNodes

  class Skiplist<K(!new), V> {
    const limit: nat
    const branch: nat
    const cmp: (K, K) -> int
    const rand: Random
    const head: Node<K, V>
    var maxHeight: nat
    var tail: Node?<K, V>
    // The head sentinel followed by every node in list order.
    ghost var nodes: seq<Node<K, V>>
    // At how many levels each of them is linked.
    ghost var reach: seq<nat>

    ghost predicate Shape()
      reads this`nodes, this`maxHeight, this`tail, nodes, rand
    {
      && Frame()
      && nodes != [] && nodes[0] == head
      && Ordered(nodes, cmp, maxHeight)
      && Sized(nodes)
      && (if |nodes| == 1 then tail == null || tail == head else tail == nodes[|nodes| - 1])
    }

    // Every link leads forward, so every search ends where a linear scan would.
    ghost predicate Searchable()
      reads this`nodes, this`maxHeight, this`tail, nodes, rand
    {
      Shape() && Chained(nodes) && ForwardTo(nodes, |nodes|)
    }

    // Where the links lead, by position.
    ghost function Table(): (to: Table)
      requires ForwardTo(nodes, |nodes|)
      reads this`nodes, nodes
      ensures |to| == |nodes| && Forward(to)
    {
      TableOf(nodes)
    }

    // Level l is exactly the nodes whose reach exceeds l, in list order. This is
    // what every operation but Remove keeps.
    ghost predicate Loose()
      reads this, nodes, rand
    {
      Shape() && HasReach(nodes, reach)
    }

    // Exact towers: every node is linked at all the levels it is built for.
    ghost predicate Valid()
      reads this, nodes, rand
    {
      Loose() && Linked(nodes, Heights(nodes))
    }

    ghost function Contents(): seq<Entry<K, V>>
      requires nodes != []
      reads this`nodes
    {
      Entries(nodes)
    }

    lemma LooseIsSearchable()
      requires Loose()
      ensures Searchable() && |reach| == |nodes| && reach[0] == limit
    {
      ReachIsForward(nodes, reach);
      assert Nexts(nodes)[0] == head.nexts;
    }

    lemma TableFacts()
      requires Searchable()
      ensures HasTable(nodes, Table()) && |Table()[0]| == limit && Distinct(nodes)
      ensures forall p {:trigger Table()[p]} :: 0 <= p < |nodes| ==> |Table()[p]| == nodes[p].height
    {
      TableIsForward(nodes);
      assert Table()[0] == RowOf(nodes, 0);
    }

    lemma LooseTable()
      requires Loose()
      ensures Searchable() && TableReach(Table(), reach) && |reach| == |nodes| && reach[0] == limit
    {
      hide Exact, Reached;
      LooseIsSearchable();
      TableFacts();
      HasReachTable(nodes, Table(), reach);
    }

    // What is known about the list before an operation changes it.
    lemma Snapshot() returns (to: Table)
      requires Shape()
      ensures nodes != [] && Distinct(nodes)
      ensures Searchable() ==> to == Table() && HasTable(nodes, to) && Forward(to) && |to| == |nodes| && |to[0]| == limit
      ensures Searchable() ==> forall p {:trigger to[p]} :: 0 <= p < |to| ==> |to[p]| == nodes[p].height
      ensures Loose() ==> Searchable() && TableReach(to, reach) && |reach| == |nodes| && reach[0] == limit
      ensures Loose() ==> (Valid() <==> reach == Heights(nodes))
    {
      hide Sized, Chained, ForwardTo, Exact, Reached, TableReach, Drawn;
      to := [];
      if Searchable() {
        TableFacts();
        to := Table();
      }
      if Loose() {
        LooseTable();
        ValidIff();
      }
    }

    lemma {:induction false} ValidIff()
      requires Loose()
      ensures Valid() <==> reach == Heights(nodes)
    {
      NodesAreNamed(nodes);
      var next := Nexts(nodes);
      forall p {:trigger next[p]} | 0 <= p < |next|
        ensures Heights(nodes)[p] == |next[p]|
      {
        assert next[p] == nodes[p].nexts;
      }
      ReachUnique<Node?<K, V>>(nodes, null, next, reach, Heights(nodes));
    }

    constructor (maxHeight: nat, branch: nat, compare: (K, K) -> int, defaultKey: K, defaultValue: V)
      requires 1 <= maxHeight < 256 && 1 <= branch < 256
      requires IsOrder(compare)
      ensures Valid() && Contents() == []
      ensures fresh(rand) && fresh(nodes)
      ensures limit == maxHeight && this.branch == branch && cmp == compare
      ensures head.key == defaultKey && head.value == defaultValue
    {
      this.limit, this.branch, this.cmp := maxHeight, branch, compare;
      this.maxHeight := 1;
      var r := new Random(0xdeadbeef);
      this.rand := r;
      var h := new Node(defaultKey, defaultValue, maxHeight);
      var i := 0;
      while i < maxHeight
        invariant 0 <= i <= maxHeight
        invariant |h.nexts| == maxHeight
        invariant forall l :: 0 <= l < i ==> h.nexts[l] == null
        modifies h
      {
        h.nexts := h.nexts[i := null];
        i := i + 1;
      }
      HeadAlone(h);
      this.head, this.tail, this.nodes, this.reach := h, null, [h], [maxHeight];
    }

    // Number of stored nodes that sort strictly before key.
    ghost function Before(key: K): (r: nat)
      requires nodes != []
      reads this`nodes
      ensures r < |nodes|
    {
      LowerBound(cmp, Keys(nodes), key)
    }

    lemma BeforeSplits(key: K)
      requires Shape()
      ensures forall p :: 1 <= p < |nodes| ==> (cmp(key, nodes[p].key) > 0 <==> p <= Before(key))
      ensures forall p :: 1 <= p < |nodes| ==> (cmp(nodes[p].key, key) < 0 <==> p <= Before(key))
    {
      BoundsSplit(cmp, Keys(nodes), key);
      forall p | 1 <= p < |nodes|
        ensures cmp(key, nodes[p].key) > 0 <==> p <= Before(key)
        ensures cmp(nodes[p].key, key) < 0 <==> p <= Before(key)
      {
        assert Keys(nodes)[p - 1] == nodes[p].key;
      }
    }

    // The part of the list a search for key can see is in order.
    ghost predicate SearchOk(key: K)
      reads this`nodes, this`maxHeight, this`tail, nodes, rand
    {
      Shape() && Chained(nodes) && ForwardTo(nodes, Before(key) + 1)
    }

    lemma SearchableOk(key: K)
      requires Searchable()
      ensures SearchOk(key)
    {
    }

    lemma LooseOk(key: K)
      requires Loose()
      ensures SearchOk(key) && |reach| == |nodes| && reach[0] == limit
    {
      LooseIsSearchable();
    }

    // Descends from the top level and records, per level, the last node that
    // sorts before key. Above the list's height that is the head.
    method FindLessOrEqual(key: K, pre0: seq<Node?<K, V>>) returns (node: Node<K, V>, pre: seq<Node?<K, V>>, ghost stops: seq<nat>)
      requires SearchOk(key) && |pre0| == limit
      ensures node == nodes[Before(key)]
      ensures |pre| == limit && forall l :: maxHeight <= l < limit ==> pre[l] == pre0[l]
      ensures pre[0] == node && AreStops(key, stops)
      ensures forall l :: 0 <= l < maxHeight ==> pre[l] == nodes[stops[l]]
    {
      hide Ordered, Sized, Chained, ForwardTo, LowerBound, Stop, IsStop, TableStop;
      BeforeSplits(key);
      ghost var found, m;
      m := maxHeight;
      node, pre, found := DescendBefore(key, pre0, nodes, Before(key));
      stops := seq(limit, l requires 0 <= l < limit => if l < m then found[l] else 0);
      StopsAre(key, found, stops);
    }

    // Where the search for key leaves each level.
    ghost predicate AreStops(key: K, stops: seq<nat>)
      reads this`nodes, this`maxHeight, nodes
    {
      && nodes != [] && ForwardTo(nodes, Before(key) + 1) && limit == nodes[0].height == |nodes[0].nexts|
      && |stops| == limit > 0 && stops[0] == Before(key)
      && (forall l {:trigger stops[l]} :: 0 <= l < limit ==>
            && stops[l] == Stop(nodes, l, limit - 1, Before(key))
            && stops[l] <= Before(key) && l < nodes[stops[l]].height)
      && (forall l {:trigger stops[l]} :: maxHeight <= l < limit ==> stops[l] == 0 && nodes[0].nexts[l] == null)
      && (ForwardTo(nodes, |nodes|) ==> stops == TableStops(Table(), Before(key)))
    }

    lemma {:induction false} HeadAbove(key: K)
      requires SearchOk(key)
      ensures forall l :: maxHeight <= l < limit ==> head.nexts[l] == null
    {
      assert ForwardAt(nodes, 0);
      assert forall n :: n in nodes[1..] ==> n.height <= maxHeight;
    }

    lemma {:induction false} StopsAre(key: K, found: seq<nat>, stops: seq<nat>)
      requires SearchOk(key) && |found| == maxHeight && |stops| == limit
      requires forall l :: 0 <= l < maxHeight ==> IsStop(nodes, found[l], l, maxHeight - 1, Before(key))
      requires forall l :: 0 <= l < limit ==> stops[l] == if l < maxHeight then found[l] else 0
      ensures AreStops(key, stops)
    {
      hide Ordered, Sized, ForwardTo, Chained, LowerBound, Stop;
      StopsFromHead(key, found, stops);
      HeadFits();
      if ForwardTo(nodes, |nodes|) {
        StopsFromTable(key, stops);
      }
    }

    lemma {:induction false} StopsFromHead(key: K, found: seq<nat>, stops: seq<nat>)
      requires SearchOk(key) && |found| == maxHeight && |stops| == limit
      requires forall l :: 0 <= l < maxHeight ==> IsStop(nodes, found[l], l, maxHeight - 1, Before(key))
      requires forall l :: 0 <= l < limit ==> stops[l] == if l < maxHeight then found[l] else 0
      ensures stops[0] == Before(key)
      ensures forall l {:trigger stops[l]} :: 0 <= l < limit ==> stops[l] == Stop(nodes, l, limit - 1, Before(key))
      ensures forall l {:trigger stops[l]} :: 0 <= l < limit ==> stops[l] <= Before(key) && l < nodes[stops[l]].height
      ensures forall l {:trigger stops[l]} :: maxHeight <= l < limit ==> stops[l] == 0 && head.nexts[l] == null
    {
      hide Ordered, ForwardTo, Chained, LowerBound;
      var bound := Before(key);
      HeadAbove(key);
      StopZero(key);
      forall l {:trigger stops[l]} | 0 <= l < limit
        ensures stops[l] == Stop(nodes, l, limit - 1, bound) && stops[l] <= Before(key) && l < nodes[stops[l]].height
      {
        StopFromAbove(nodes, l, maxHeight - 1, bound);
      }
    }

    lemma HeadFits()
      requires Shape()
      ensures nodes != [] && nodes[0] == head && head.height == |head.nexts| == limit
    {
    }

    lemma {:induction false} StopZero(key: K)
      requires SearchOk(key)
      ensures Stop(nodes, 0, maxHeight - 1, Before(key)) == Before(key)
    {
      StopAtBound(nodes, maxHeight - 1, Before(key));
    }

    lemma {:induction false} StopsFromTable(key: K, stops: seq<nat>)
      requires Searchable() && |stops| == limit
      requires forall l {:trigger stops[l]} :: 0 <= l < limit ==> stops[l] == Stop(nodes, l, limit - 1, Before(key))
      ensures stops == TableStops(Table(), Before(key))
    {
      hide Ordered, Chained, LowerBound, Stop, TableStop;
      TableFacts();
      forall l | 0 <= l < limit
        ensures stops[l] == TableStop(Table(), l, Before(key))
      {
        StopTable(nodes, l, Before(key));
      }
    }

    method DescendBefore(key: K, pre0: seq<Node?<K, V>>, ghost nodes: seq<Node<K, V>>, ghost bound: nat)
      returns (node: Node<K, V>, pre: seq<Node?<K, V>>, ghost stops: seq<nat>)
      requires bound < |nodes| && ForwardTo(nodes, bound + 1) && nodes[0] == head
      requires 0 < maxHeight <= |pre0| && maxHeight <= head.height
      requires forall p :: 1 <= p < |nodes| ==> (cmp(key, nodes[p].key) > 0 <==> p <= bound)
      ensures |pre| == |pre0| && forall l :: maxHeight <= l < |pre0| ==> pre[l] == pre0[l]
      ensures pre[0] == node && |stops| == maxHeight
      ensures forall l :: 0 <= l < maxHeight ==> IsStop(nodes, stops[l], l, maxHeight - 1, bound)
      ensures forall l :: 0 <= l < maxHeight ==> stops[l] < |nodes| && pre[l] == nodes[stops[l]]
    {
      hide *;
      ghost var p, top := 0, maxHeight - 1;
      stops := seq(maxHeight, _ => 0);
      node, pre := head, pre0;
      var level := maxHeight - 1;
      DescendStart(nodes, top, bound);
      while true
        invariant 0 <= level <= top && |stops| == top + 1
        invariant 0 <= p <= bound && node == nodes[p] && |node.nexts| > level
        invariant InDescent(nodes, p, level, top, bound)
        invariant |pre| == |pre0| && forall l :: top < l < |pre0| ==> pre[l] == pre0[l]
        invariant forall l :: level < l <= top ==> IsStop(nodes, stops[l], l, top, bound)
        invariant forall l :: level < l <= top ==> stops[l] < |nodes| && pre[l] == nodes[stops[l]]
        decreases level, bound - p
      {
        var next := node.nexts[level];
        ghost var q := DescendStep(nodes, p, level, top, bound);
        if next != null && cmp(key, next.key) > 0 {
          node, p := next, q;
        } else {
          pre, stops := pre[level := node], stops[level := p];
          if level == 0 {
            return;
          }
          level := level - 1;
        }
      }
    }

    // The last node that sorts strictly before key, or the head.
    method FindLessThan(key: K) returns (node: Node<K, V>)
      requires SearchOk(key)
      ensures node == nodes[Before(key)]
    {
      BeforeSplits(key);
      StopAtBound(nodes, maxHeight - 1, Before(key));
      ghost var p;
      node, p := DescendLess(key, nodes, Before(key));
    }

    method DescendLess(key: K, ghost nodes: seq<Node<K, V>>, ghost bound: nat) returns (node: Node<K, V>, ghost p: nat)
      requires bound < |nodes| && ForwardTo(nodes, bound + 1) && nodes[0] == head && 1 <= maxHeight <= head.height
      requires forall p :: 1 <= p < |nodes| ==> (cmp(nodes[p].key, key) < 0 <==> p <= bound)
      ensures p < |nodes| && node == nodes[p] && IsStop(nodes, p, 0, maxHeight - 1, bound)
    {
      hide *;
      ghost var top := maxHeight - 1;
      node, p := head, 0;
      var level := maxHeight - 1;
      DescendStart(nodes, top, bound);
      while true
        invariant 0 <= level <= top
        invariant 0 <= p <= bound && node == nodes[p] && |node.nexts| > level
        invariant InDescent(nodes, p, level, top, bound)
        decreases level, bound - p
      {
        assert node == head || cmp(node.key, key) < 0;
        var next := node.nexts[level];
        ghost var q := DescendStep(nodes, p, level, top, bound);
        if next == null || cmp(next.key, key) >= 0 {
          if level == 0 {
            return;
          }
          level := level - 1;
        } else {
          node, p := next, q;
        }
      }
    }

    // Number of stored nodes that do not sort after key.
    ghost function NotAfter(key: K): (r: nat)
      requires nodes != []
      reads this`nodes
      ensures r < |nodes|
    {
      UpperBound(cmp, Keys(nodes), key)
    }

    lemma NotAfterSplits(key: K)
      requires Shape()
      ensures forall p :: 1 <= p < |nodes| ==> (cmp(nodes[p].key, key) <= 0 <==> p <= NotAfter(key))
    {
      PoolSplits(nodes, key);
    }

    lemma PoolSplits(pool: seq<Node<K, V>>, key: K)
      requires IsOrder(cmp) && pool != [] && Sorted(cmp, Keys(pool))
      ensures forall p :: 1 <= p < |pool| ==> (cmp(pool[p].key, key) <= 0 <==> p <= UpperBound(cmp, Keys(pool), key))
    {
      BoundsSplit(cmp, Keys(pool), key);
      forall p | 1 <= p < |pool|
        ensures cmp(pool[p].key, key) <= 0 <==> p <= UpperBound(cmp, Keys(pool), key)
      {
        assert Keys(pool)[p - 1] == pool[p].key;
      }
    }

    // Links from the head on lead forward through a pool of nodes, in key order.
    // On a list in order the pool is the list.
    ghost predicate CanFind(pool: seq<Node<K, V>>, key: K)
      reads this, pool
    {
      && IsOrder(cmp) && pool != [] && pool[0] == head && 1 <= maxHeight <= head.height
      && Sorted(cmp, Keys(pool)) && ForwardTo(pool, UpperBound(cmp, Keys(pool), key) + 1)
    }

    // Where the search for key ends in a pool.
    ghost function Found(pool: seq<Node<K, V>>, key: K): (n: Node<K, V>)
      requires CanFind(pool, key)
      reads this, pool
    {
      pool[Stop(pool, 0, maxHeight - 1, UpperBound(cmp, Keys(pool), key))]
    }

    lemma {:induction false} FoundInList(key: K)
      requires Searchable()
      ensures CanFind(nodes, key) && Found(nodes, key) == nodes[NotAfter(key)]
    {
      assert ForwardTo(nodes, NotAfter(key) + 1);
      StopAtBound(nodes, maxHeight - 1, NotAfter(key));
    }

    // The last node that does not sort after key, or the head.
    method FindEqual(key: K, ghost pool: seq<Node<K, V>>) returns (node: Node<K, V>)
      requires CanFind(pool, key)
      ensures node == Found(pool, key)
      ensures Searchable() && pool == nodes ==> node == nodes[NotAfter(key)]
    {
      PoolSplits(pool, key);
      ghost var p;
      node, p := DescendEqual(key, pool, UpperBound(cmp, Keys(pool), key));
      if Searchable() {
        FoundInList(key);
      }
    }

    method DescendEqual(key: K, ghost nodes: seq<Node<K, V>>, ghost bound: nat) returns (node: Node<K, V>, ghost p: nat)
      requires bound < |nodes| && ForwardTo(nodes, bound + 1) && nodes[0] == head && 1 <= maxHeight <= head.height
      requires forall p :: 1 <= p < |nodes| ==> (cmp(nodes[p].key, key) <= 0 <==> p <= bound)
      ensures p < |nodes| && node == nodes[p] && IsStop(nodes, p, 0, maxHeight - 1, bound)
    {
      hide *;
      ghost var top := maxHeight - 1;
      node, p := head, 0;
      var level := maxHeight - 1;
      DescendStart(nodes, top, bound);
      while true
        invariant 0 <= level <= top
        invariant 0 <= p <= bound && node == nodes[p] && |node.nexts| > level
        invariant InDescent(nodes, p, level, top, bound)
        decreases level, bound - p
      {
        var next := node.nexts[level];
        ghost var q := DescendStep(nodes, p, level, top, bound);
        if next == null || cmp(next.key, key) > 0 {
          if level == 0 {
            return;
          }
          level := level - 1;
        } else {
          node, p := next, q;
        }
      }
    }

    method Get(key: K, ghost pool: seq<Node<K, V>>) returns (found: bool, value: V)
      requires CanFind(pool, key)
      ensures found <==> cmp(Found(pool, key).key, key) == 0
      ensures found ==> value == Found(pool, key).value
      ensures Searchable() && pool == nodes ==>
        && (found <==> (exists p :: 1 <= p < |nodes| && cmp(nodes[p].key, key) == 0) || (NotAfter(key) == 0 && cmp(head.key, key) == 0))
        && (found ==> value == nodes[NotAfter(key)].value)
    {
      var node := FindEqual(key, pool);
      value := node.value;
      found := cmp(node.key, key) == 0;
      if Searchable() && pool == nodes {
        NotAfterSplits(key);
        LastEqual(key);
      }
    }

    // If a key is stored, the last node not after it carries it.
    lemma LastEqual(key: K)
      requires Shape()
      ensures NotAfter(key) > 0 ==>
        (cmp(nodes[NotAfter(key)].key, key) == 0 <==> exists p :: 1 <= p < |nodes| && cmp(nodes[p].key, key) == 0)
      ensures NotAfter(key) == 0 ==> !exists p :: 1 <= p < |nodes| && cmp(nodes[p].key, key) == 0
    {
      NotAfterSplits(key);
      var t := NotAfter(key);
      if p :| 1 <= p < |nodes| && cmp(nodes[p].key, key) == 0 {
        if p < t {
          assert Keys(nodes)[p - 1] == nodes[p].key && Keys(nodes)[t - 1] == nodes[t].key;
          assert cmp(Keys(nodes)[p - 1], Keys(nodes)[t - 1]) <= 0;
          Flip(cmp, nodes[p].key, key);
          Through(cmp, nodes[p].key, nodes[t].key, key);
          Flip(cmp, nodes[t].key, key);
          Through(cmp, key, nodes[p].key, nodes[t].key);
        }
      }
    }

    method IsEmpty() returns (empty: bool)
      requires Searchable()
      ensures empty <==> Contents() == []
    {
      empty := head.nexts[0] == null;
    }

    // Counts in 32 bits.
    method GetSize() returns (cnt: nat)
      requires Searchable()
      ensures cnt == |Contents()| % 0x1_0000_0000
    {
      cnt := 0;
      var node := head.nexts[0];
      ghost var p := 1;
      while node != null
        invariant 1 <= p <= |nodes| && node == NodeAt(nodes, p)
        invariant cnt == (p - 1) % 0x1_0000_0000
        decreases |nodes| - p
      {
        cnt := (cnt + 1) % 0x1_0000_0000;
        p := p + 1;
        var tmp := node.nexts[0];
        if tmp == null {
          break;
        }
        node := tmp;
      }
    }

    // The tail: on an empty list it is null or, after a split, the head.
    method GetLast() returns (node: Node?<K, V>)
      requires Shape()
      ensures |nodes| > 1 ==> node == nodes[|nodes| - 1]
      ensures |nodes| == 1 ==> node == null || node == head
    {
      node := tail;
    }

    // Unlinks every node; the list height stays.
    method Clear() returns (cnt: nat)
      requires Shape() && Chained(nodes)
      modifies this, nodes
      ensures Valid() && nodes == [head] && Contents() == []
      ensures cnt == |old(Contents())| && maxHeight == old(maxHeight)
      ensures forall p :: 0 <= p < |old(nodes)| ==> AllNull(old(nodes)[p].nexts)
    {
      cnt := ClearAll(head, nodes);
      HeadAlone(head);
      tail, nodes, reach := null, [head], [limit];
    }

    // From the given seed the first height - 1 draws are multiples of the branch
    // and the next one, if there is room for another level, is not.
    ghost predicate IsDrawn(seed: nat, height: nat) {
      && 1 <= height <= limit && branch >= 1
      && (forall j {:trigger Iterate(seed, j)} :: 1 <= j < height ==> Iterate(seed, j) % branch == 0)
      && (height < limit ==> Iterate(seed, height) % branch != 0)
    }

    method RandomHeight() returns (height: nat)
      requires rand.Valid() && 1 <= limit && 1 <= branch
      modifies rand
      ensures rand.Valid() && IsDrawn(old(rand.seed), height)
      ensures 1 <= height <= limit
      ensures branch == 1 ==> height == limit
    {
      height := 1;
      while height < limit
        invariant rand.Valid() && 1 <= height <= limit && rand.seed == Iterate(old(rand.seed), height - 1)
        invariant forall j {:trigger Iterate(old(rand.seed), j)} :: 1 <= j < height ==> Iterate(old(rand.seed), j) % branch == 0
      {
        var r := rand.Next();
        assert r == Iterate(old(rand.seed), height);
        assert branch == 1 ==> r % branch == 0;
        if r % branch != 0 {
          break;
        }
        height := height + 1;
      }
    }

    // The stops lie before position `at` and are as tall as the node to be put
    // there.
    ghost predicate CanLink(at: nat, stops: seq<nat>, height: nat)
      reads this`nodes
    {
      && 0 < at <= |nodes| && 1 <= height <= |stops| && stops[0] == at - 1
      && forall l {:trigger stops[l]} :: 0 <= l < height ==> stops[l] < at && l < nodes[stops[l]].height
    }

    // Lines 123-129 and 311-317: updates the tail and links the new node,
    // which becomes all[at] of the new list.
    method Place(node: Node<K, V>, pre: seq<Node?<K, V>>, ghost all: seq<Node<K, V>>, ghost at: nat, ghost stops: seq<nat>)
      requires Frame() && Distinct(all) && 0 < at < |all| && all[0] == head && all[at] == node && Ordered(all, cmp, maxHeight) && Sized(all)
      requires 0 < node.height <= |pre| && pre[0] != null && |pre[0].nexts| > 0
      requires CanBypass(Nexts(all), at, stops, node.height)
      requires forall l :: 0 <= l < node.height ==> pre[l] == all[stops[l]]
      requires pre[0].nexts[0] == null <==> at == |all| - 1
      requires at < |all| - 1 ==> tail == all[|all| - 1]
      modifies this`tail, this`nodes, all
      ensures Shape() && nodes == all
      ensures Nexts(all) == Threaded<Node?<K, V>>(all, old(Nexts(all)), at, stops, node.height)
    {
      hide Ordered, Threaded;
      if pre[0].nexts[0] == null {
        tail := node;
      }
      LinkIn(node, pre, all, at, stops);
      nodes := all;
    }

    lemma {:induction false} PlaceFacts(node: Node<K, V>, at: nat, stops: seq<nat>)
      requires Shape() && Chained(nodes) && node !in nodes && CanLink(at, stops, node.height)
      requires |node.nexts| == node.height <= maxHeight
      requires forall p :: 1 <= p < at ==> cmp(nodes[p].key, node.key) <= 0
      requires forall p :: at <= p < |nodes| ==> cmp(node.key, nodes[p].key) <= 0
      ensures var all := InsertAt(nodes, at, node);
        && Ordered(all, cmp, maxHeight) && Sized(all) && Distinct(all)
        && Nexts(all) == InsertAt(Nexts(nodes), at, node.nexts)
        && CanBypass(Nexts(all), at, stops, node.height)
        && |nodes[at - 1].nexts| > 0 && (nodes[at - 1].nexts[0] == null <==> at == |nodes|)
        && Entries(all) == InsertAt(Entries(nodes), at - 1, Entry(node.key, node.value))
      ensures ChainedRows(nodes, Nexts(nodes))
      ensures at < |nodes| ==> tail == nodes[|nodes| - 1]
    {
      var all := InsertAt(nodes, at, node);
      OrderedInsert(nodes, node, at, cmp, maxHeight);
      assert Nexts(all) == InsertAt(Nexts(nodes), at, node.nexts);
      forall l | 0 <= l < node.height
        ensures stops[l] < |all| && stops[l] != at && l < |Nexts(all)[stops[l]]|
      {
        assert Nexts(all)[stops[l]] == nodes[stops[l]].nexts;
      }
    }

    // The links lead forward, with the table of a list that has a node of the
    // given height more.
    ghost predicate InsertTabled(to: Table, at: nat, height: nat)
      reads this`nodes, this`maxHeight, this`tail, nodes, rand
    {
      && Searchable() && Forward(to) && 0 < at <= |to| && height <= |to[0]|
      && Table() == Inserted(to, at, TableStops(to, at - 1), height)
    }

    // New equal keys go before old ones.
    method Insert(key: K, value: V) returns (height: nat, ghost at: nat, ghost stops: seq<nat>)
      requires SearchOk(key)
      modifies this, nodes, rand
      ensures Shape() && Chained(nodes) && 1 <= height <= limit && (branch == 1 ==> height == limit)
      ensures IsDrawn(old(rand.seed), height)
      ensures at == old(Before(key)) + 1 && old(AreStops(key, stops))
      ensures |nodes| == |old(nodes)| + 1 && fresh(nodes[at]) && nodes == InsertAt(old(nodes), at, nodes[at])
      ensures nodes[at].height == height && IsLinkedIn(old(nodes), old(Nexts(nodes)), at, stops, nodes)
      ensures Contents() == InsertAt(old(Contents()), at - 1, Entry(key, value))
      ensures old(Searchable()) ==> InsertTabled(old(Table()), at, height)
      ensures old(Loose()) ==> Loose() && reach == InsertAt(old(reach), at, height)
      ensures old(Valid()) ==> Valid()
    {
      hide Shape, Searchable, Loose, Valid, Chained, ForwardTo, AreStops, CanLink, LowerBound, InsertAt, IsLinkedIn, InsertTabled, IsDrawn;
      height := DrawHeight(key);
      var pre;
      pre, at, stops := Locate(key, height);
      AddNode(key, value, height, pre, at, stops);
    }

    // Drawing a height changes nothing but the generator.
    method DrawHeight(ghost key: K) returns (height: nat)
      requires Shape()
      modifies rand
      ensures Shape() && 1 <= height <= limit && (branch == 1 ==> height == limit) && IsDrawn(old(rand.seed), height)
      ensures SearchOk(key) == old(SearchOk(key)) && Searchable() == old(Searchable())
      ensures Loose() == old(Loose()) && Valid() == old(Valid())
    {
      hide Ordered, Sized, Chained, ForwardTo, Reached, Exact, LowerBound, IsDrawn;
      height := RandomHeight();
    }

    // Lines 114-121: searches, and raises the list to the new height.
    method Locate(key: K, height: nat) returns (pre: seq<Node?<K, V>>, ghost at: nat, ghost stops: seq<nat>)
      requires SearchOk(key) && 1 <= height <= limit
      modifies this`maxHeight
      ensures Shape() && Chained(nodes) && old(AreStops(key, stops)) && at == old(Before(key)) + 1 && height <= maxHeight && |pre| == limit
      ensures CanLink(at, stops, height) && forall l :: 0 <= l < height ==> pre[l] == nodes[stops[l]]
      ensures forall p :: 1 <= p < at ==> cmp(nodes[p].key, key) <= 0
      ensures forall p :: at <= p < |nodes| ==> cmp(key, nodes[p].key) <= 0
      ensures Searchable() == old(Searchable()) && Loose() == old(Loose()) && Valid() == old(Valid())
      ensures Searchable() ==> stops == TableStops(Table(), at - 1)
    {
      hide Ordered, Sized, Chained, ForwardTo, Reached, Exact, LowerBound, Stop;
      BeforeSplits(key);
      at := Before(key) + 1;
      var node;
      node, pre, stops := FindLessOrEqual(key, seq(limit, _ => null));
      pre := RaiseTo(height, pre);
    }

    // The head is the predecessor at every level that was not in use.
    method RaiseTo(height: nat, pre0: seq<Node?<K, V>>) returns (pre: seq<Node?<K, V>>)
      requires Shape() && height <= limit == |pre0|
      modifies this`maxHeight
      ensures Shape() && maxHeight == Max(old(maxHeight), height) && |pre| == limit
      ensures Searchable() == old(Searchable()) && Loose() == old(Loose()) && Valid() == old(Valid())
      ensures forall l :: 0 <= l < limit ==> pre[l] == if old(maxHeight) <= l < height then head else pre0[l]
    {
      hide Shape, Searchable, Loose, Valid;
      pre := pre0;
      if height > maxHeight {
        var i := maxHeight;
        while i < height
          invariant maxHeight <= i <= height && |pre| == limit
          invariant forall l :: 0 <= l < limit ==> pre[l] == if maxHeight <= l < i then head else pre0[l]
        {
          pre := pre[i := head];
          i := i + 1;
        }
        RaiseHeight(height);
      }
    }

    method AddNode(key: K, value: V, height: nat, pre: seq<Node?<K, V>>, ghost at: nat, ghost stops: seq<nat>)
      requires Shape() && Chained(nodes) && CanLink(at, stops, height) && height <= maxHeight && height <= |pre|
      requires forall l :: 0 <= l < height ==> pre[l] == nodes[stops[l]]
      requires forall p :: 1 <= p < at ==> cmp(nodes[p].key, key) <= 0
      requires forall p :: at <= p < |nodes| ==> cmp(key, nodes[p].key) <= 0
      requires Searchable() ==> stops == TableStops(Table(), at - 1)
      modifies this`tail, this`nodes, this`reach, nodes
      ensures Shape() && Chained(nodes) && |nodes| == |old(nodes)| + 1
      ensures fresh(nodes[at]) && nodes == InsertAt(old(nodes), at, nodes[at])
      ensures nodes[at].height == height && IsLinkedIn(old(nodes), old(Nexts(nodes)), at, stops, nodes)
      ensures Contents() == InsertAt(old(Contents()), at - 1, Entry(key, value))
      ensures old(Searchable()) ==> InsertTabled(old(Table()), at, height)
      ensures old(Loose()) ==> Loose() && reach == InsertAt(old(reach), at, height)
      ensures old(Valid()) ==> Valid()
    {
      hide Exact, Reached, InsertAt, Shape, Searchable, Chained, ForwardTo, IsLinkedIn, TableReach, Drawn, Inserted, InsertTabled, TableStops, Linked;
      ghost var was, before, r := nodes, Nexts(nodes), reach;
      ghost var to := Snapshot();
      var node := new Node(key, value, height);
      PlaceNew(node, pre, at, stops);
      if old(Searchable()) {
        InsertedTable(was, before, to, at, stops);
      }
      if old(Loose()) {
        reach := InsertAt(r, at, height);
        InsertedReach(to, r, at, height);
        HeightsInsert(was, node, at);
        ValidIff();
      }
    }

    lemma HeightsInsert(was: seq<Node<K, V>>, node: Node<K, V>, at: nat)
      requires at <= |was|
      ensures Heights(InsertAt(was, at, node)) == InsertAt(Heights(was), at, node.height)
    {
    }

    lemma {:induction false} InsertedTable(was: seq<Node<K, V>>, before: seq<seq<Node?<K, V>>>, to: Table, at: nat, stops: seq<nat>)
      requires Shape() && Chained(nodes) && IsLinkedIn(was, before, at, stops, nodes) && Drawn<Node?<K, V>>(was, null, before, to) && Forward(to)
      requires 0 < at <= |to| && |to[0]| == limit && stops == TableStops(to, at - 1)
      ensures InsertTabled(to, at, nodes[at].height)
    {
      hide Drawn, Forward, IsLinkedIn, Inserted, ForwardTo;
      LinkedInFits(was, before, at, stops);
      LinkedInTable(was, before, to, at, stops, nodes);
    }

    lemma LinkedInFits(was: seq<Node<K, V>>, before: seq<seq<Node?<K, V>>>, at: nat, stops: seq<nat>)
      requires Shape() && IsLinkedIn(was, before, at, stops, nodes) && 0 < at
      ensures at < |nodes| && nodes[at].height <= |stops| && nodes[at].height <= limit && Distinct(nodes)
    {
    }

    lemma {:induction false} InsertedReach(to: Table, r: seq<nat>, at: nat, height: nat)
      requires InsertTabled(to, at, height) && TableReach(to, r) && 1 <= height && |r| == |to|
      ensures HasReach(nodes, InsertAt(r, at, height))
    {
      hide Inserted, InsertAt, Exact, Reached, TableReach, TableStop, Ordered, Sized, Chained, ForwardTo, TableOf;
      TableFacts();
      ReachStops(to, r, at - 1);
      ReachInserted(to, r, at, TableStops(to, at - 1), height);
      HasReachTable(nodes, Table(), InsertAt(r, at, height));
    }

    method PlaceNew(node: Node<K, V>, pre: seq<Node?<K, V>>, ghost at: nat, ghost stops: seq<nat>)
      requires Shape() && Chained(nodes) && node !in nodes && CanLink(at, stops, node.height)
      requires |node.nexts| == node.height <= maxHeight && node.height <= |pre|
      requires forall l :: 0 <= l < node.height ==> pre[l] == nodes[stops[l]]
      requires forall p :: 1 <= p < at ==> cmp(nodes[p].key, node.key) <= 0
      requires forall p :: at <= p < |nodes| ==> cmp(node.key, nodes[p].key) <= 0
      modifies this`tail, this`nodes, nodes, node
      ensures Shape() && Chained(nodes) && nodes == InsertAt(old(nodes), at, node)
      ensures IsLinkedIn(old(nodes), old(Nexts(nodes)), at, stops, nodes)
      ensures Contents() == InsertAt(old(Contents()), at - 1, Entry(node.key, node.value))
    {
      hide Ordered, Threaded, Chained, Sized;
      ghost var was, before, row := nodes, Nexts(nodes), node.nexts;
      PlaceFacts(node, at, stops);
      Place(node, pre, InsertAt(nodes, at, node), at, stops);
      LinkedIn(was, before, at, stops, nodes, row);
      LinkedInChain(was, before, at, stops, nodes);
    }

    method AddToFirst(key: K, value: V) returns (ok: bool)
      requires Shape() && Chained(nodes)
      modifies this, nodes, rand
      ensures Shape() && Chained(nodes)
      ensures ok <==> |old(nodes)| == 1 || cmp(key, old(nodes)[1].key) <= 0
      ensures !ok ==> unchanged(this) && unchanged(old(nodes))
      ensures ok ==> |nodes| == |old(nodes)| + 1 && fresh(nodes[1]) && nodes == InsertAt(old(nodes), 1, nodes[1])
      ensures ok ==> IsDrawn(old(rand.seed), nodes[1].height)
      ensures ok ==> 1 <= nodes[1].height <= limit && IsLinkedIn(old(nodes), old(Nexts(nodes)), 1, seq(limit, _ => 0), nodes)
      ensures ok ==> Contents() == InsertAt(old(Contents()), 0, Entry(key, value))
      ensures ok && old(Searchable()) ==> InsertTabled(old(Table()), 1, nodes[1].height)
      ensures ok && old(Loose()) ==> Loose() && reach == InsertAt(old(reach), 1, nodes[1].height)
      ensures old(Valid()) ==> Valid()
    {
      hide Shape, Searchable, Loose, Valid, SearchOk, Chained, ForwardTo, CanLink, InsertAt, IsLinkedIn, InsertTabled, IsDrawn;
      HeadFits();
      NextOf(0);
      var node := head.nexts[0];
      if node != null && cmp(key, node.key) > 0 {
        return false;
      }
      var height := DrawHeight(key);
      var pre, stops := HeadPredecessors(key, height);
      AddNode(key, value, height, pre, 1, stops);
      return true;
    }

    // Lines 303-309: every predecessor of the first position is the head.
    method HeadPredecessors(key: K, height: nat) returns (pre: seq<Node?<K, V>>, ghost stops: seq<nat>)
      requires Shape() && Chained(nodes) && 1 <= height <= limit
      requires |nodes| > 1 ==> cmp(key, nodes[1].key) <= 0
      modifies this`maxHeight
      ensures Shape() && Chained(nodes) && height <= maxHeight && |pre| == limit && stops == seq(limit, _ => 0)
      ensures CanLink(1, stops, height) && forall l :: 0 <= l < height ==> pre[l] == nodes[stops[l]]
      ensures forall p :: 1 <= p < |nodes| ==> cmp(key, nodes[p].key) <= 0
      ensures Searchable() == old(Searchable()) && Loose() == old(Loose()) && Valid() == old(Valid())
      ensures Searchable() ==> stops == TableStops(Table(), 0)
    {
      hide Shape, Searchable, Loose, Valid, Chained, ForwardTo, TableStops;
      HeadFits();
      FirstIsLeast(key);
      pre := seq(limit, _ => head);
      stops := seq(limit, _ => 0);
      if Searchable() {
        HeadStops();
      }
      if height > maxHeight {
        RaiseHeight(height);
      }
    }

    lemma HeadStops()
      requires Searchable()
      ensures TableStops(Table(), 0) == seq(limit, _ => 0)
    {
      hide Ordered, Chained, TableStop;
      TableFacts();
    }

    method RaiseHeight(height: nat)
      requires Shape() && maxHeight <= height <= limit
      modifies this`maxHeight
      ensures Shape() && maxHeight == height && Chained(nodes) == old(Chained(nodes))
      ensures Searchable() == old(Searchable()) && Loose() == old(Loose()) && Valid() == old(Valid())
    {
      hide Distinct, Sorted, Sized, Chained, ForwardTo, Reached, Exact;
      maxHeight := height;
    }

    // A key that is not after the first node is not after any node.
    lemma FirstIsLeast(key: K)
      requires Shape()
      requires |nodes| > 1 ==> cmp(key, nodes[1].key) <= 0
      ensures forall p :: 1 <= p < |nodes| ==> cmp(key, nodes[p].key) <= 0
    {
      BeforeSplits(key);
      assert Before(key) == 0;
    }

    // The links lead forward after a removal if and only if only the stops linked
    // the node, and then they are those of the table without it.
    ghost predicate RemoveTabled(to: Table, at: nat)
      reads this`nodes, this`maxHeight, this`tail, nodes, rand
    {
      && Forward(to) && 0 < at < |to| && |to[at]| <= |to[0]|
      && (Searchable() <==> NoStray(to, at, TableStops(to, at - 1)))
      && (Searchable() ==> Table() == Removed(to, at, TableStops(to, at - 1)))
    }

    // Removes the first of the equal keys, if there is one. stops are the
    // predecessors the search finds, one per level.
    method Remove(key: K) returns (result: Node?<K, V>, ghost at: nat, ghost stops: seq<nat>)
      requires SearchOk(key)
      modifies this, nodes
      ensures Shape() && Chained(nodes) && at == old(Before(key)) + 1 && maxHeight == old(maxHeight)
      ensures old(AreStops(key, stops))
      ensures result != null <==> at < |old(nodes)| && cmp(old(nodes)[at].key, key) == 0
      ensures result == null ==> unchanged(this) && unchanged(old(nodes))
      ensures result != null ==> result == old(nodes)[at] && nodes == RemoveAt(old(nodes), at) && AllNull(result.nexts) && |result.nexts| == result.height
      ensures result != null ==> IsUnlinked(old(nodes), old(Nexts(nodes)), at, stops, nodes)
      ensures result != null ==> Contents() == RemoveAt(old(Contents()), at - 1)
      ensures old(Searchable()) && result != null ==> RemoveTabled(old(Table()), at)
      ensures old(Loose()) ==> Searchable()
      ensures old(Loose()) && result != null ==> (RemoveKeeps(old(reach), at, result.height) <==> CanReach(nodes))
      ensures old(Loose()) && result != null && RemoveKeeps(old(reach), at, result.height) ==>
        Loose() && reach == ReachAfter(old(reach), at, result.height)
      ensures old(Valid()) ==> Valid()
    {
      hide Shape, Searchable, Loose, Valid, Chained, ForwardTo, Stop, AreStops, CanReach, RemoveKeeps, IsUnlinked, LowerBound, RemoveTabled;
      at := Before(key) + 1;
      var target, pre;
      target, pre, stops := FindLessOrEqual(key, seq(limit, _ => head));
      NextOf(at - 1);
      result := target.nexts[0];
      if result == null || cmp(result.key, key) != 0 {
        result := null;
        KeptWhole();
        return;
      }
      StopsFit(key, stops);
      RemoveNode(result, pre, at, stops);
    }

    lemma NextOf(p: nat)
      requires Shape() && Chained(nodes) && p < |nodes|
      ensures |nodes[p].nexts| > 0 && nodes[p].nexts[0] == NodeAt(nodes, p + 1) && nodes[0] == head
      ensures p + 1 < |nodes| ==> 1 <= nodes[p + 1].height <= maxHeight <= limit
    {
    }

    lemma KeptWhole()
      ensures Loose() ==> Searchable()
    {
      if Loose() {
        LooseIsSearchable();
      }
    }

    // The predecessors found can take over the links of the node after them.
    lemma {:induction false} StopsFit(key: K, stops: seq<nat>)
      requires Shape() && AreStops(key, stops) && Before(key) + 1 < |nodes|
      ensures CanBypass(Nexts(nodes), Before(key) + 1, stops, nodes[Before(key) + 1].height) && stops[0] == Before(key)
      ensures Searchable() ==> stops == TableStops(Table(), Before(key))
    {
      hide Distinct, Sorted, Stop;
      var next := Nexts(nodes);
      assert next[Before(key) + 1] == nodes[Before(key) + 1].nexts;
      forall l | 0 <= l < limit
        ensures stops[l] < |next| && stops[l] != Before(key) + 1 && l < |next[stops[l]]|
      {
        assert next[stops[l]] == nodes[stops[l]].nexts;
      }
    }

    method RemoveNode(node: Node<K, V>, pre: seq<Node?<K, V>>, ghost at: nat, ghost stops: seq<nat>)
      requires Shape() && Chained(nodes) && 0 < at < |nodes| && node == nodes[at] && node.height <= |pre|
      requires CanBypass(Nexts(nodes), at, stops, node.height) && stops[0] == at - 1
      requires forall l :: 0 <= l < node.height ==> pre[l] == nodes[stops[l]]
      requires Searchable() ==> stops == TableStops(Table(), at - 1)
      modifies this`tail, this`nodes, this`reach, nodes
      ensures Shape() && Chained(nodes) && AllNull(node.nexts) && |node.nexts| == node.height && nodes == RemoveAt(old(nodes), at)
      ensures IsUnlinked(old(nodes), old(Nexts(nodes)), at, stops, nodes)
      ensures Contents() == RemoveAt(old(Contents()), at - 1)
      ensures old(Searchable()) ==> RemoveTabled(old(Table()), at)
      ensures old(Loose()) ==> Searchable() && (RemoveKeeps(old(reach), at, node.height) <==> CanReach(nodes))
      ensures old(Loose()) && RemoveKeeps(old(reach), at, node.height) ==>
        Loose() && reach == ReachAfter(old(reach), at, node.height)
      ensures old(Valid()) ==> Valid()
    {
      hide Bypassing, Removes, Reached, Exact, RemoveKeeps, CanReach, Ordered, IsUnlinked, Chained, ReachAfter, ForwardTo, Drawn, NoStray, Removed, TableReach;
      ghost var all, before, r := nodes, Nexts(nodes), reach;
      ghost var to := Snapshot();
      if Loose() {
        RemovesIt(at, stops);
        HeightsRemove(all, r, at);
      }
      EntriesRemove(at);
      TakeOut(node, pre, at, stops);
      if old(Searchable()) {
        RemovedTable(all, before, to, at, stops);
      }
      if old(Loose()) {
        NothingStrays(to, r, at);
        UnlinkedReach(all, before, r, at, stops, nodes);
        if RemoveKeeps(r, at, node.height) {
          reach := ReachAfter(r, at, node.height);
          ValidIff();
        }
      }
    }

    lemma {:induction false} RemovedTable(all: seq<Node<K, V>>, before: seq<seq<Node?<K, V>>>, to: Table, at: nat, stops: seq<nat>)
      requires Shape() && Chained(nodes) && 0 < at < |all| == |before| == |to| && IsUnlinked(all, before, at, stops, nodes) && Distinct(all)
      requires Drawn<Node?<K, V>>(all, null, before, to) && Forward(to) && |to[0]| == limit
      requires |to[at]| == all[at].height <= limit && stops == TableStops(to, at - 1)
      ensures RemoveTabled(to, at)
    {
      assert |before[at]| == all[at].height;
      UnlinkedTable(all, before, to, at, stops, nodes);
    }

    // With a reach, only the stops link the node.
    lemma {:induction false} NothingStrays(to: Table, r: seq<nat>, at: nat)
      requires Forward(to) && TableReach(to, r) && 0 < at < |to|
      ensures NoStray(to, at, TableStops(to, at - 1))
    {
      ReachStops(to, r, at - 1);
      ReachNoStray(to, r, at, TableStops(to, at - 1));
    }

    lemma EntriesRemove(at: nat)
      requires Shape() && 0 < at < |nodes|
      ensures Entries(RemoveAt(nodes, at)) == RemoveAt(Contents(), at - 1)
    {
      OrderedRemove(nodes, at, cmp, maxHeight);
    }

    // A node that is linked at all its levels leaves exact towers exact.
    lemma HeightsRemove(all: seq<Node<K, V>>, r: seq<nat>, at: nat)
      requires at < |all| == |r|
      ensures r == Heights(all) ==> RemoveKeeps(r, at, all[at].height) && ReachAfter(r, at, all[at].height) == Heights(RemoveAt(all, at))
    {
    }

    lemma {:induction false} RemovesIt(at: nat, stops: seq<nat>)
      requires Loose() && Searchable() && TableReach(Table(), reach) && 0 < at < |nodes| == |reach| && reach[0] == limit
      requires CanBypass(Nexts(nodes), at, stops, nodes[at].height) && stops == TableStops(Table(), at - 1)
      ensures Removes<Node?<K, V>>(nodes, null, Nexts(nodes), reach, at, stops) && Distinct(nodes)
    {
      hide Exact, Reached, TableReach, Chained, ForwardTo, LastTaller;
      TableFacts();
      ReachStops(Table(), reach, at - 1);
      assert |Nexts(nodes)[at]| == nodes[at].height;
    }

    // Lines 154-161: unlinks the node and updates the tail.
    method TakeOut(node: Node<K, V>, pre: seq<Node?<K, V>>, ghost at: nat, ghost stops: seq<nat>)
      requires Shape() && Chained(nodes) && 0 < at < |nodes| && node == nodes[at] && node.height <= |pre|
      requires CanBypass(Nexts(nodes), at, stops, node.height) && stops[0] == at - 1
      requires forall l :: 0 <= l < node.height ==> pre[l] == nodes[stops[l]]
      modifies this`tail, this`nodes, nodes
      ensures Shape() && Chained(nodes) && AllNull(node.nexts) && |node.nexts| == node.height && nodes == RemoveAt(old(nodes), at)
      ensures IsUnlinked(old(nodes), old(Nexts(nodes)), at, stops, nodes)
    {
      hide Exact, Reached, IsUnlinked, Ordered, Chained;
      TailIs(at);
      ghost var kept := UnlinkAt(node, pre, at, stops);
      Detach(node, pre[0], kept, at);
    }

    lemma TailIs(at: nat)
      requires Shape() && 0 < at < |nodes|
      ensures nodes[at] == tail <==> at == |nodes| - 1
      ensures tail == nodes[|nodes| - 1] && 1 <= nodes[at].height <= maxHeight
    {
      assert at == |nodes| - 1 || Differ(nodes, at, |nodes| - 1);
    }

    method UnlinkAt(node: Node<K, V>, pre: seq<Node?<K, V>>, ghost at: nat, ghost stops: seq<nat>) returns (ghost kept: seq<Node<K, V>>)
      requires Shape() && Chained(nodes) && 0 < at < |nodes| && node == nodes[at] && node.height <= |pre|
      requires CanBypass(Nexts(nodes), at, stops, node.height) && stops[0] == at - 1
      requires forall l :: 0 <= l < node.height ==> pre[l] == nodes[stops[l]]
      modifies nodes
      ensures kept == RemoveAt(nodes, at) && Ordered(kept, cmp, maxHeight) && Sized(kept) && Chained(kept) && AllNull(node.nexts) && |node.nexts| == node.height
      ensures IsUnlinked(nodes, old(Nexts(nodes)), at, stops, kept)
    {
      hide Bypassing;
      ghost var before := Nexts(nodes);
      assert ChainedRows(nodes, before);
      OrderedRemove(nodes, at, cmp, maxHeight);
      Unlink(node, pre, nodes, at, stops);
      kept := RemoveAt(nodes, at);
      assert Nexts(kept) == RemoveAt(Nexts(nodes), at);
      UnlinkedChain(nodes, before, at, stops, kept);
    }

    method Detach(node: Node<K, V>, before: Node<K, V>, ghost kept: seq<Node<K, V>>, ghost at: nat)
      requires Frame() && kept != [] && kept[0] == head && Ordered(kept, cmp, maxHeight) && Sized(kept)
      requires 0 < at <= |kept| && before == kept[at - 1]
      requires node == tail <==> at == |kept|
      requires at < |kept| ==> tail == kept[|kept| - 1]
      modifies this`tail, this`nodes
      ensures Shape() && nodes == kept
    {
      if at != 1 {
        assert Differ(kept, at - 1, 0);
      }
      if node == tail {
        if before == head {
          tail := null;
        } else {
          tail := before;
        }
      }
      nodes := kept;
    }

    // The list ends before position c of all, and result heads the rest, whose
    // links are as they were.
    ghost predicate IsCutOf(all: seq<Node<K, V>>, before: seq<seq<Node?<K, V>>>, c: nat, result: Node?<K, V>)
      reads this`nodes, this`maxHeight, this`tail, nodes, rand, all
    {
      && Shape() && Chained(nodes) && 0 < c <= |all| == |before| && nodes == all[..c] && result == NodeAt(all, c)
      && Nexts(all[c..]) == before[c..]
    }

    // The links lead forward, with the table of the list cut before position c
    // of all.
    ghost predicate CutTabled(all: seq<Node<K, V>>, to: Table, c: nat)
      reads this`nodes, this`maxHeight, this`tail, nodes, rand
    {
      Searchable() && 0 < c <= |to| == |all| && Table() == CutTable(to, c, CutBound(all, c, cmp))
    }

    // After a cut at a lower bound they do if and only if only the stops' links
    // led across.
    ghost predicate KeyCutTabled(all: seq<Node<K, V>>, to: Table, c: nat)
      reads this`nodes, this`maxHeight, this`tail, nodes, rand
    {
      && Forward(to) && 0 < c <= |to|
      && (Searchable() <==> NoCrossing(to, c, TableStops(to, c - 1)))
      && (Searchable() ==> CutTabled(all, to, c))
    }

    // The reach after a cut of a list with reach r. A kept node that shares the
    // key of the first node cut off is from then on linked at level 0 only, so
    // the towers are exact afterwards just if they were before it and no such
    // node is taller.
    ghost predicate CutLoose(all: seq<Node<K, V>>, r: seq<nat>, c: nat)
      reads this, nodes, rand
    {
      && Loose() && 0 < c <= |all| == |r| && reach == CutReach(r, c, CutBound(all, c, cmp))
      && (Valid() <==> r[..c] == Heights(all)[..c] && (c < |all| ==> NoTallTwin(all, c, cmp)))
    }

    // Cuts the list before the first key that is not smaller than key.
    method Split(key: K) returns (result: Node?<K, V>, ghost c: nat, ghost stops: seq<nat>)
      requires SearchOk(key)
      modifies this, nodes
      ensures c == old(Before(key)) + 1 && old(AreStops(key, stops)) && IsCutOf(old(nodes), old(Nexts(nodes)), c, result)
      ensures IsCleared(old(nodes), old(Nexts(nodes)), c, stops)
      ensures Contents() == old(Contents())[..c - 1]
      ensures old(Searchable()) ==> KeyCutTabled(old(nodes), old(Table()), c)
      ensures old(Loose()) ==> CutLoose(old(nodes), old(reach), c) && reach == old(reach)[..c]
      ensures old(Valid()) ==> Valid()
    {
      hide Shape, Searchable, Loose, Valid, Chained, ForwardTo, Stop, LowerBound, AreStops, IsCutOf, IsCleared, KeyCutTabled, CutLoose, CutFits, CutBound;
      c := Before(key) + 1;
      KeyBound(key);
      var target, pre;
      target, pre, stops := FindLessOrEqual(key, seq(limit, _ => null));
      NextOf(c - 1);
      result := target.nexts[0];
      StopsCut(key, stops);
      SplitAt(target, pre, c, stops, result);
    }

    lemma {:induction false} StopsCut(key: K, stops: seq<nat>)
      requires Shape() && AreStops(key, stops)
      ensures CutFits(Before(key) + 1, stops) && |stops| == limit
      ensures Searchable() ==> stops == TableStops(Table(), Before(key))
    {
      hide Ordered, Sized, Stop, Chained, ForwardTo, LowerBound, TableStop, TableOf;
      assert nodes[0].nexts == head.nexts && |nodes[0].nexts| == limit;
    }

    lemma OrderedCut(all: seq<Node<K, V>>, c: nat)
      requires c <= |all|
      ensures Heights(all[..c]) == Heights(all)[..c]
    {
    }

    // Lines 175-182: moves the tail and cuts every level in use.
    method SplitAt(target: Node<K, V>, pre: seq<Node?<K, V>>, ghost c: nat, ghost stops: seq<nat>, ghost result: Node?<K, V>)
      requires Shape() && Chained(nodes) && 0 < c <= |nodes| && target == nodes[c - 1] && |pre| == limit == |stops|
      requires CutFits(c, stops) && CutBound(nodes, c, cmp) == c - 1 && result == NodeAt(nodes, c)
      requires forall l :: 0 <= l < maxHeight ==> pre[l] == nodes[stops[l]]
      requires forall l :: maxHeight <= l < limit ==> pre[l] == null
      requires Searchable() ==> stops == TableStops(Table(), c - 1)
      modifies this`tail, this`nodes, this`reach, nodes
      ensures IsCutOf(old(nodes), old(Nexts(nodes)), c, result) && IsCleared(old(nodes), old(Nexts(nodes)), c, stops)
      ensures Contents() == old(Contents())[..c - 1]
      ensures old(Searchable()) ==> KeyCutTabled(old(nodes), old(Table()), c)
      ensures old(Loose()) ==> CutLoose(old(nodes), old(reach), c) && reach == old(reach)[..c]
      ensures old(Valid()) ==> Valid()
    {
      hide Shape, Searchable, Chained, ForwardTo, Reached, Exact, IsCutOf, IsCleared, KeyCutTabled, CutLoose, CutFits, CutBound, TableReach, Drawn, CutReach;
      ghost var all, before, r := nodes, Nexts(nodes), reach;
      ghost var to := Snapshot();
      PrefixFacts(c);
      CutAt(target, pre, c, stops, result);
      if old(Searchable()) {
        KeyCutTable(all, before, to, c, stops, result);
      }
      if old(Loose()) {
        reach := CutReach(r, c, c - 1);
        KeyCutLoose(all, to, r, c, result);
        OrderedCut(all, c);
      }
    }

    // The part of Split that changes the nodes.
    method CutAt(target: Node<K, V>, pre: seq<Node?<K, V>>, ghost c: nat, ghost stops: seq<nat>, ghost result: Node?<K, V>)
      requires Shape() && Chained(nodes) && 0 < c <= |nodes| && target == nodes[c - 1] && |pre| == limit == |stops|
      requires CutFits(c, stops) && result == NodeAt(nodes, c)
      requires forall l :: 0 <= l < maxHeight ==> pre[l] == nodes[stops[l]]
      requires forall l :: maxHeight <= l < limit ==> pre[l] == null
      modifies this`tail, this`nodes, nodes
      ensures IsCutOf(old(nodes), old(Nexts(nodes)), c, result) && IsCleared(old(nodes), old(Nexts(nodes)), c, stops)
      ensures nodes == old(nodes)[..c] && Contents() == old(Contents())[..c - 1]
    {
      hide Ordered, Sized, Chained, Cleared, Distinct, Sorted, IsCleared, CutFits, CanClear, IsCutOf;
      ghost var all, before := nodes, Nexts(nodes);
      PrefixFacts(c);
      ClearFits(c, stops);
      tail := target;
      CutLinks(pre, limit, maxHeight, all, stops);
      ClearedAll(all, before, c, stops);
      Shorten(all, before, c, result);
    }

    // The list is the first c nodes from now on.
    ghost method Shorten(all: seq<Node<K, V>>, before: seq<seq<Node?<K, V>>>, c: nat, result: Node?<K, V>)
      requires Frame() && 0 < c <= |all| == |before| && all[0] == head && tail == all[c - 1] && result == NodeAt(all, c)
      requires Ordered(all[..c], cmp, maxHeight) && Sized(all[..c]) && Chained(all[..c]) && Nexts(all[c..]) == before[c..]
      modifies this`nodes
      ensures nodes == all[..c] && IsCutOf(all, before, c, result)
    {
      hide Ordered, Sized;
      nodes := all[..c];
    }

    lemma {:induction false} KeyCutTable(all: seq<Node<K, V>>, before: seq<seq<Node?<K, V>>>, to: Table, c: nat, stops: seq<nat>, result: Node?<K, V>)
      requires IsCutOf(all, before, c, result) && IsCleared(all, before, c, stops) && Distinct(all) && CutBound(all, c, cmp) == c - 1
      requires Drawn<Node?<K, V>>(all, null, before, to) && Forward(to) && stops == TableStops(to, c - 1)
      ensures KeyCutTabled(all, to, c)
    {
      hide Cleared, NoCrossing, CutTable, CutBound, Chained;
      SizedKept();
      ClearedTable(all, before, to, c, stops);
    }

    lemma SizedKept()
      requires Shape()
      ensures Sized(nodes)
    {
    }

    lemma {:induction false} KeyCutLoose(all: seq<Node<K, V>>, to: Table, r: seq<nat>, c: nat, result: Node?<K, V>)
      requires KeyCutTabled(all, to, c) && TableReach(to, r) && |r| == |all| == |to| && nodes == all[..c]
      requires CutBound(all, c, cmp) == c - 1 && reach == CutReach(r, c, c - 1) && Sorted(cmp, Keys(all))
      requires forall p {:trigger to[p]} :: 0 <= p < |to| ==> |to[p]| == all[p].height
      ensures CutLoose(all, r, c) && reach == r[..c] && (Valid() <==> reach == Heights(nodes))
    {
      hide CutTable, CutBound, NoCrossing, TableReach, Forward, Exact, Sorted, CutTabled;
      NothingCrosses(to, r, c);
      CutIsLoose(all, to, r, c);
      ValidIff();
    }

    // What clearing the stops leaves, before the list is shortened.
    lemma ClearedAll(all: seq<Node<K, V>>, before: seq<seq<Node?<K, V>>>, c: nat, stops: seq<nat>)
      requires 0 < c <= |all| == |before| && CanClear(before, stops, |stops|) && Nexts(all) == Cleared(before, null, stops, |stops|)
      requires ChainedRows(all, before) && |stops| > 0 && stops[0] == c - 1 && Sized(all)
      requires forall l {:trigger stops[l]} :: 0 <= l < |stops| ==> stops[l] < c
      ensures IsCleared(all, before, c, stops)
      ensures Chained(all[..c]) && Nexts(all[c..]) == before[c..] && Sized(all[..c])
    {
      ClearedChain(all, before, c, stops);
      SizedPrefix(all, c);
    }

    ghost predicate CutFits(c: nat, stops: seq<nat>)
      requires nodes != []
      reads this, nodes
    {
      && |stops| == limit > 0 && stops[0] == c - 1
      && (forall l {:trigger stops[l]} :: 0 <= l < limit ==> stops[l] < c && stops[l] < |nodes| && l < nodes[stops[l]].height)
      && (forall l {:trigger stops[l]} :: maxHeight <= l < limit ==> stops[l] == 0 && l < |nodes[0].nexts| && nodes[0].nexts[l] == null)
    }

    lemma ClearFits(c: nat, stops: seq<nat>)
      requires Shape() && Chained(nodes) && 0 < c <= |nodes| && CutFits(c, stops)
      ensures CanClear(Nexts(nodes), stops, limit) && ChainedRows(nodes, Nexts(nodes)) && Distinct(nodes) && limit > 0 && stops[0] == c - 1
      ensures forall l {:trigger stops[l]} :: 0 <= l < limit ==> stops[l] < c
      ensures forall l :: maxHeight <= l < limit ==> stops[l] == 0 && l < |nodes[0].nexts| && nodes[0].nexts[l] == null
    {
      var next := Nexts(nodes);
      forall l {:trigger stops[l]} | 0 <= l < limit
        ensures stops[l] < |next| && l < |next[stops[l]]|
      {
        assert next[stops[l]] == nodes[stops[l]].nexts;
      }
    }

    // With a reach, only the stops' links lead across.
    lemma {:induction false} NothingCrosses(to: Table, r: seq<nat>, c: nat)
      requires Forward(to) && TableReach(to, r) && 0 < c <= |to|
      ensures NoCrossing(to, c, TableStops(to, c - 1))
    {
      ReachStops(to, r, c - 1);
      ReachNoCrossing(to, r, c, TableStops(to, c - 1));
    }

    // A cut keeps a reach.
    lemma {:induction false} CutIsLoose(all: seq<Node<K, V>>, to: Table, r: seq<nat>, c: nat)
      requires CutTabled(all, to, c) && TableReach(to, r) && |r| == |all| && nodes == all[..c]
      requires reach == CutReach(r, c, CutBound(all, c, cmp)) && Sorted(cmp, Keys(all)) && forall p {:trigger to[p]} :: 0 <= p < |to| ==> |to[p]| == all[p].height
      ensures CutLoose(all, r, c)
    {
      hide Exact, Reached, CutTable, CutReach, CutBound, Sorted, TableReach, Drawn, Chained, ForwardTo, Sized, NoTallTwin;
      TableFacts();
      ReachCut(to, r, c, CutBound(all, c, cmp));
      HasReachTable(nodes, Table(), reach);
      ValidIff();
      ReachBounds(to, r);
      CutHeights(all, to, r, c);
      OrderedCut(all, c);
    }

    lemma ReachBounds(to: Table, r: seq<nat>)
      requires TableReach(to, r)
      ensures InBounds(to, r)
    {
    }

    lemma {:induction false} CutHeights(all: seq<Node<K, V>>, to: Table, r: seq<nat>, c: nat)
      requires IsOrder(cmp) && 0 < c <= |all| == |r| && InBounds(to, r) && Sorted(cmp, Keys(all))
      requires forall p {:trigger to[p]} :: 0 <= p < |to| ==> |to[p]| == all[p].height
      ensures CutReach(r, c, CutBound(all, c, cmp)) == Heights(all)[..c] <==>
        r[..c] == Heights(all)[..c] && (c < |all| ==> NoTallTwin(all, c, cmp))
    {
      if c < |all| {
        TwinHeights(all, c, cmp, to, r);
      } else {
        assert CutReach(r, c, c - 1) == r[..c];
      }
    }

    // How a cut by key reads in terms of positions.
    lemma KeyBound(key: K)
      requires Shape()
      ensures CutBound(nodes, Before(key) + 1, cmp) == Before(key)
    {
      if Before(key) + 1 < |nodes| {
        LowerCut(key);
      }
    }

    // A cut at the lower bound of a key is one at the lower bound of the first
    // key cut off.
    lemma LowerCut(key: K)
      requires Shape() && Before(key) + 1 < |nodes|
      ensures Before(nodes[Before(key) + 1].key) == Before(key)
    {
      var c := Before(key) + 1;
      BeforeSplits(key);
      forall p | 1 <= p < c
        ensures cmp(nodes[p].key, nodes[c].key) < 0
      {
        Flip(cmp, nodes[c].key, nodes[p].key);
        if cmp(nodes[c].key, nodes[p].key) <= 0 {
          Through(cmp, nodes[c].key, nodes[p].key, key);
        }
      }
      BeforeSplits(nodes[c].key);
      Flip(cmp, nodes[c].key, nodes[c].key);
    }

    lemma PrefixFacts(c: nat)
      requires Shape() && 0 < c <= |nodes|
      ensures Ordered(nodes[..c], cmp, maxHeight) && Entries(nodes[..c]) == Contents()[..c - 1]
      ensures Distinct(nodes) && Sorted(cmp, Keys(nodes)) && Heights(nodes[..c]) == Heights(nodes)[..c]
    {
      OrderedPrefix(nodes, c, cmp, maxHeight);
    }

    lemma SizedPrefix(all: seq<Node<K, V>>, c: nat)
      requires Sized(all) && c <= |all|
      ensures Sized(all[..c])
    {
      forall p {:trigger all[..c][p].nexts} | 0 <= p < c
        ensures |all[..c][p].nexts| == all[..c][p].height
      {
        assert |all[p].nexts| == all[p].height;
      }
    }

    // Cuts the list before data position pos. Level 0 is cut by position, the
    // upper levels by key.
    method SplitOnPosNode(pos: nat, posNode: Node<K, V>, ghost c: nat) returns (result: Node<K, V>)
      requires Shape() && Chained(nodes) && c == pos + 1 < |nodes| && posNode == nodes[c]
      modifies this, nodes
      ensures IsCutOf(old(nodes), old(Nexts(nodes)), c, result)
      ensures CutByPosition(old(nodes), old(Nexts(nodes)), Nexts(old(nodes)), c, cmp)
      ensures Contents() == old(Contents())[..c - 1]
      ensures old(Searchable()) ==> CutTabled(old(nodes), old(Table()), c)
      ensures old(Loose()) ==> CutLoose(old(nodes), old(reach), c)
    {
      hide Shape, Searchable, Chained, ForwardTo, Reached, Exact, IsCutOf, CutTabled, CutLoose, CutBound, TableReach, Drawn, CutByPosition, Sorted, CutReach;
      ghost var all, before, r := nodes, Nexts(nodes), reach;
      ghost var to := Snapshot();
      PrefixFacts(c);
      result := SeverAt(pos, posNode, c);
      if old(Searchable()) {
        PosCutTable(all, before, to, c, result);
      }
      if old(Loose()) {
        reach := CutReach(r, c, CutBound(all, c, cmp));
        CutIsLoose(all, to, r, c);
      }
    }

    // The part of SplitOnPosNode that changes the nodes.
    method SeverAt(pos: nat, posNode: Node<K, V>, ghost c: nat) returns (result: Node<K, V>)
      requires Shape() && Chained(nodes) && c == pos + 1 < |nodes| && posNode == nodes[c]
      modifies this`tail, this`nodes, nodes
      ensures IsCutOf(old(nodes), old(Nexts(nodes)), c, result) && ChainedRows(old(nodes), old(Nexts(nodes)))
      ensures CutByPosition(old(nodes), old(Nexts(nodes)), Nexts(old(nodes)), c, cmp)
      ensures nodes == old(nodes)[..c] && Contents() == old(Contents())[..c - 1]
    {
      hide Ordered, Sized, CutByPosition, Distinct, Sorted, IsCutOf;
      ghost var all, before := nodes, Nexts(nodes);
      PrefixFacts(c);
      assert ChainedRows(all, before);
      var pre;
      pre, result := SeverAndClear(head, pos, posNode.key, cmp, all, before);
      CutByPositionChain(all, before, c, cmp);
      SizedPrefix(all, c);
      tail := pre;
      Shorten(all, before, c, result);
    }

    lemma {:induction false} PosCutTable(all: seq<Node<K, V>>, before: seq<seq<Node?<K, V>>>, to: Table, c: nat, result: Node?<K, V>)
      requires IsCutOf(all, before, c, result) && c < |all| == |to| && CutByPosition(all, before, Nexts(all), c, cmp) && ChainedRows(all, before)
      requires Distinct(all) && Sorted(cmp, Keys(all)) && Drawn<Node?<K, V>>(all, null, before, to) && Forward(to)
      ensures CutTabled(all, to, c)
    {
      hide CutByPosition, ChainedRows, Sorted, CutTable, CutBound, Chained;
      SizedKept();
      CutByPositionTable(all, before, to, c, cmp);
    }

    method SplitByPos(pos: nat) returns (result: Node?<K, V>, ghost c: nat)
      requires Shape() && Chained(nodes)
      modifies this, nodes
      ensures c == Min(pos + 1, |old(nodes)|) && IsCutOf(old(nodes), old(Nexts(nodes)), c, result)
      ensures Contents() == old(Contents())[..c - 1]
      ensures old(Searchable()) ==> CutTabled(old(nodes), old(Table()), c)
      ensures old(Loose()) ==> CutLoose(old(nodes), old(reach), c)
    {
      hide Ordered, Sized, ForwardTo, Reached, Exact;
      c := Min(pos + 1, |nodes|);
      var posNode := head.nexts[0];
      var idx := 0;
      while idx < pos
        invariant 0 <= idx <= pos && posNode == NodeAt(nodes, idx + 1)
      {
        if posNode == null {
          result := NoSplit(c);
          return;
        }
        posNode := posNode.nexts[0];
        idx := idx + 1;
      }
      if posNode == null {
        result := NoSplit(c);
        return;
      }
      result := SplitOnPosNode(pos, posNode, c);
    }

    // The loop of SplitByKeyOrPos: stops at the first key that is not smaller,
    // at position pos, or at the end.
    method ScanOr(key: K, pos: nat, ghost bound: nat) returns (node: Node?<K, V>, found: bool)
      requires nodes != [] && nodes[0] == head && Chained(nodes) && bound < |nodes|
      requires forall p :: 1 <= p < |nodes| ==> (cmp(nodes[p].key, key) < 0 <==> p <= bound)
      ensures found <==> bound < pos && bound + 1 < |nodes|
      ensures node == NodeAt(nodes, Min(bound, pos) + 1)
    {
      node := head.nexts[0];
      var idx := 0;
      while idx < pos
        invariant 0 <= idx <= pos && node == NodeAt(nodes, idx + 1)
        invariant idx <= bound
      {
        if node == null {
          return node, false;
        }
        if cmp(node.key, key) >= 0 {
          return node, true;
        }
        node := node.nexts[0];
        idx := idx + 1;
      }
      return node, false;
    }

    // Cuts at the smaller of the lower bound of key and pos, by key if the key
    // comes first.
    method SplitByKeyOrPos(key: K, pos: nat) returns (result: Node?<K, V>, ghost c: nat)
      requires SearchOk(key)
      modifies this, nodes
      ensures c == Min(old(Before(key)), pos) + 1 && IsCutOf(old(nodes), old(Nexts(nodes)), c, result)
      ensures Contents() == old(Contents())[..c - 1]
      ensures old(Searchable()) ==>
        if old(Before(key)) < pos && c < |old(nodes)| then KeyCutTabled(old(nodes), old(Table()), c) else CutTabled(old(nodes), old(Table()), c)
      ensures old(Loose()) ==> CutLoose(old(nodes), old(reach), c)
    {
      hide Shape, Searchable, Loose, Chained, ForwardTo, LowerBound, AreStops, IsCutOf, IsCleared, KeyCutTabled, CutTabled, CutLoose;
      var node, found;
      node, found, c := PlanOr(key, pos);
      if found {
        ghost var cut, stops;
        result, cut, stops := Split(node.key);
      } else if node == null {
        result := NoSplit(c);
      } else {
        result := SplitOnPosNode(pos, node, c);
      }
    }

    method PlanOr(key: K, pos: nat) returns (node: Node?<K, V>, found: bool, ghost c: nat)
      requires SearchOk(key)
      ensures c == Min(Before(key), pos) + 1 <= |nodes| && node == NodeAt(nodes, c)
      ensures found <==> Before(key) < pos && c < |nodes|
      ensures found ==> node != null && c == Before(node.key) + 1 && SearchOk(node.key)
      ensures !found && node != null ==> c == pos + 1
    {
      hide LowerBound, Ordered, Sized;
      BeforeSplits(key);
      c := Min(Before(key), pos) + 1;
      node, found := ScanOr(key, pos, Before(key));
      if found {
        LowerCut(key);
      }
    }

    // Nothing is cut.
    method NoSplit(ghost c: nat) returns (result: Node?<K, V>)
      requires Shape() && Chained(nodes) && c == |nodes|
      ensures IsCutOf(nodes, Nexts(nodes), c, result) && Contents() == Contents()[..c - 1]
      ensures Searchable() ==> CutTabled(nodes, Table(), c)
      ensures Loose() ==> CutLoose(nodes, reach, c)
    {
      hide Ordered, Sized, Chained, ForwardTo, Reached, Exact, CutTable, TableReach;
      assert nodes[..c] == nodes && Heights(nodes)[..c] == Heights(nodes);
      ghost var to := Snapshot();
      if Searchable() {
        UncutTable(to);
      }
      if Loose() {
        assert reach[..c] == reach == CutReach(reach, c, c - 1);
      }
      return null;
    }

    lemma {:induction false} UncutTable(to: Table)
      requires Forward(to)
      ensures |to| > 0 ==> CutTable(to, |to|, |to| - 1) == to
    {
      if |to| > 0 {
        var t := CutTable(to, |to|, |to| - 1);
        forall p | 0 <= p < |to|
          ensures t[p] == to[p]
        {
          assert forall l :: 0 <= l < |to[p]| ==> to[p][l] <= |to|;
        }
      }
    }

    // The loop of SplitByKeyAndPos.
    method ScanAnd(key: K, pos: nat, ghost bound: nat) returns (node: Node?<K, V>, findKey: bool)
      requires nodes != [] && nodes[0] == head && Chained(nodes) && bound < |nodes|
      requires forall p :: 1 <= p < |nodes| ==> (cmp(nodes[p].key, key) < 0 <==> p <= bound)
      ensures node == NodeAt(nodes, pos + 1)
      ensures node != null ==> (findKey <==> bound < pos)
    {
      node := head.nexts[0];
      findKey := false;
      var idx := 0;
      while idx < pos
        invariant 0 <= idx <= pos && node == NodeAt(nodes, idx + 1)
        invariant idx < |nodes| && (findKey <==> bound < idx)
      {
        if node == null {
          return;
        }
        if cmp(node.key, key) >= 0 {
          findKey := true;
        }
        node := node.nexts[0];
        idx := idx + 1;
      }
    }

    // Cuts at the larger of the lower bound of key and pos, provided the list
    // is longer than pos; by key if the position comes first.
    method SplitByKeyAndPos(key: K, pos: nat) returns (result: Node?<K, V>, ghost c: nat)
      requires SearchOk(key)
      modifies this, nodes
      ensures c == if pos + 1 < |old(nodes)| then Max(old(Before(key)), pos) + 1 else |old(nodes)|
      ensures IsCutOf(old(nodes), old(Nexts(nodes)), c, result) && Contents() == old(Contents())[..c - 1]
      ensures old(Searchable()) ==>
        if pos + 1 < |old(nodes)| && pos <= old(Before(key)) then KeyCutTabled(old(nodes), old(Table()), c)
        else CutTabled(old(nodes), old(Table()), c)
      ensures old(Loose()) ==> CutLoose(old(nodes), old(reach), c)
    {
      hide Shape, Searchable, Loose, Chained, ForwardTo, LowerBound, AreStops, IsCutOf, IsCleared, KeyCutTabled, CutTabled, CutLoose;
      var node, findKey;
      node, findKey, c := PlanAnd(key, pos);
      if node == null {
        result := NoSplit(c);
      } else if findKey {
        result := SplitOnPosNode(pos, node, c);
      } else {
        ghost var cut, stops;
        result, cut, stops := Split(key);
      }
    }

    method PlanAnd(key: K, pos: nat) returns (node: Node?<K, V>, findKey: bool, ghost c: nat)
      requires SearchOk(key)
      ensures c == if pos + 1 < |nodes| then Max(Before(key), pos) + 1 else |nodes|
      ensures c <= |nodes| && node == NodeAt(nodes, pos + 1)
      ensures node == null <==> pos + 1 >= |nodes|
      ensures node != null ==> (findKey <==> Before(key) < pos)
    {
      hide LowerBound, Ordered, Sized;
      BeforeSplits(key);
      c := if pos + 1 < |nodes| then Max(Before(key), pos) + 1 else |nodes|;
      node, findKey := ScanAnd(key, pos, Before(key));
    }

    // The parts of the invariant that no operation changes.
    ghost predicate Frame()
      reads this`maxHeight, rand
    {
      && IsOrder(cmp)
      && rand.Valid()
      && 1 <= maxHeight <= limit < 256
      && 1 <= branch < 256
      && head.height == limit
    }
  }

  class Iterator<K(!new), V> {
    const list: Skiplist<K, V>
    var node: Node?<K, V>

    constructor (list: Skiplist<K, V>)
      ensures this.list == list && node == null
    {
      this.list := list;
      this.node := null;
    }

    // node is the list position p; past the end the iterator is not valid.
    ghost predicate IsAt(p: nat)
      reads this, list
    {
      node == NodeAt(list.nodes, p)
    }

    method Next(ghost p: nat)
      requires list.Searchable() && p < |list.nodes| && IsAt(p)
      modifies this
      ensures IsAt(p + 1)
    {
      node := node.nexts[0];
    }

    // Lands on the first key that is not smaller than key.
    method Seek(key: K)
      requires list.Searchable()
      modifies this
      ensures IsAt(list.Before(key) + 1)
    {
      node := list.FindLessThan(key);
      Next(list.Before(key));
    }

    method SeekToFirst()
      requires list.Searchable()
      modifies this
      ensures IsAt(1)
    {
      node := list.head;
      Next(0);
    }

    // On an empty list this may stand on the head sentinel.
    method SeekToLast()
      requires list.Shape()
      modifies this
      ensures |list.nodes| > 1 ==> IsAt(|list.nodes| - 1)
      ensures |list.nodes| == 1 ==> node == null || node == list.head
    {
      node := list.GetLast();
    }
  }
}

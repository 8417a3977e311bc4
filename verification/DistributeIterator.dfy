// Iterators over the partitions of a table, src/catalog/distribute_iterator.cc,
// and the key lookup on top of them, src/catalog/tablet_catalog.h. The tables map
// is ordered by partition id, so it is modelled as a list with ascending ids; the
// storage iterators below it are modelled by what they enumerate.

module DistributeIterators {
  import opened Bytes
  import opened Ordering

  datatype Part<T> = Part(pid: nat, items: seq<T>)

  datatype Entry<T> = Entry(pid: nat, item: T)

  // A storage iterator: what it runs over and where it stands.
  datatype Inner<T> = Inner(items: seq<T>, pos: nat)

  ghost predicate Ascending<T>(parts: seq<Part<T>>) {
    forall i, j :: 0 <= i < j < |parts| ==> parts[i].pid < parts[j].pid
  }

  function Tagged<T>(part: Part<T>): (r: seq<Entry<T>>)
    ensures |r| == |part.items| && forall i :: 0 <= i < |r| ==> r[i] == Entry(part.pid, part.items[i])
  {
    seq(|part.items|, i requires 0 <= i < |part.items| => Entry(part.pid, part.items[i]))
  }

  // The entries of the first n partitions, one partition after the other.
  function Flat<T>(parts: seq<Part<T>>, n: nat): seq<Entry<T>>
    requires n <= |parts|
  {
    if n == 0 then [] else Flat(parts, n - 1) + Tagged(parts[n - 1])
  }

  function Entries<T>(parts: seq<Part<T>>): seq<Entry<T>> {
    Flat(parts, |parts|)
  }

  function Offset<T>(parts: seq<Part<T>>, p: nat): nat
    requires p <= |parts|
  {
    |Flat(parts, p)|
  }

  lemma {:induction false} OffsetStep<T>(parts: seq<Part<T>>, p: nat, n: nat)
    requires p < n <= |parts|
    ensures Offset(parts, p + 1) == Offset(parts, p) + |parts[p].items|
    ensures Offset(parts, p + 1) <= Offset(parts, n)
  {
    if p < n - 1 {
      OffsetStep(parts, p, n - 1);
    }
  }

  lemma {:induction false} FlatAt<T>(parts: seq<Part<T>>, p: nat, i: nat, n: nat)
    requires p < n <= |parts| && i < |parts[p].items|
    ensures Offset(parts, p) + i < Offset(parts, n)
    ensures Flat(parts, n)[Offset(parts, p) + i] == Entry(parts[p].pid, parts[p].items[i])
  {
    if p < n - 1 {
      FlatAt(parts, p, i, n - 1);
    }
  }

  lemma {:induction false} FlatWhere<T>(parts: seq<Part<T>>, x: nat, n: nat) returns (p: nat, i: nat)
    requires n <= |parts| && x < Offset(parts, n)
    ensures p < n && i < |parts[p].items| && x == Offset(parts, p) + i
    ensures Flat(parts, n)[x] == Entry(parts[p].pid, parts[p].items[i])
  {
    if x < Offset(parts, n - 1) {
      p, i := FlatWhere(parts, x, n - 1);
    } else {
      p, i := n - 1, x - Offset(parts, n - 1);
    }
  }

  lemma NoEntries<T>()
    ensures |Entries<T>([])| == 0
  {
  }

  // ----- Seeking -----

  // The lexicographic order on (pid, key).
  predicate Before<K>(cmp: (K, K) -> int, e: Entry<K>, pid: nat, key: K) {
    e.pid < pid || (e.pid == pid && cmp(e.item, key) < 0)
  }

  ghost predicate AllSorted<K>(cmp: (K, K) -> int, parts: seq<Part<K>>) {
    forall p :: 0 <= p < |parts| ==> Sorted(cmp, parts[p].items)
  }

  // p is the first partition whose id is not below pid.
  ghost predicate FirstNotBelow<K>(parts: seq<Part<K>>, pid: nat, p: nat) {
    p <= |parts| && (forall q :: 0 <= q < p ==> parts[q].pid < pid) && (p < |parts| ==> parts[p].pid >= pid)
  }

  // The place of (pid, key): in the partition with that id if there is one.
  function Place<K>(cmp: (K, K) -> int, parts: seq<Part<K>>, pid: nat, key: K, p: nat): nat
    requires p <= |parts|
  {
    Offset(parts, p) + if p < |parts| && parts[p].pid == pid then LowerBound(cmp, parts[p].items, key) else 0
  }

  // It is the lexicographic lower bound over all partitions.
  lemma {:induction false} PlaceIsLowerBound<K(!new)>(cmp: (K, K) -> int, parts: seq<Part<K>>, pid: nat, key: K, p: nat, x: nat)
    requires IsOrder(cmp) && Ascending(parts) && AllSorted(cmp, parts) && FirstNotBelow(parts, pid, p)
    requires x < |Entries(parts)|
    ensures Before(cmp, Entries(parts)[x], pid, key) <==> x < Place(cmp, parts, pid, key, p)
  {
    hide IsOrder, Sorted, Flat, LowerBound;
    var q, i := FlatWhere(parts, x, |parts|);
    if q < p {
      OffsetStep(parts, q, p);
    } else if q > p {
      OffsetStep(parts, p, q);
    } else {
      BoundsSplitAt(cmp, parts[q].items, key, i);
    }
  }

  // Empty partitions do not move the place.
  lemma {:induction false} SkipEmpty<T>(parts: seq<Part<T>>, p: nat, n: nat)
    requires p <= n <= |parts| && forall q :: p <= q < n ==> parts[q].items == []
    ensures Offset(parts, p) == Offset(parts, n)
  {
    if p < n {
      SkipEmpty(parts, p, n - 1);
      OffsetStep(parts, n - 1, n);
    }
  }

  // ----- Cursors -----

  predicate Live<T>(it: Option<Inner<T>>) {
    it.Some? && it.value.pos < |it.value.items|
  }

  // The storage iterator stands on entry `at`, in partition p; a dead one stands
  // behind the last entry.
  ghost predicate Stands<T>(parts: seq<Part<T>>, it: Option<Inner<T>>, pid: nat, p: nat, at: nat) {
    if Live(it) then
      p < |parts| && parts[p].pid == pid && parts[p].items == it.value.items && at == Offset(parts, p) + it.value.pos
    else
      at == |Entries(parts)|
  }

  lemma {:induction false} StandsOn<T>(parts: seq<Part<T>>, it: Option<Inner<T>>, pid: nat, p: nat, at: nat)
    requires Stands(parts, it, pid, p, at)
    ensures Live(it) <==> at < |Entries(parts)|
    ensures Live(it) ==> Entries(parts)[at] == Entry(pid, it.value.items[it.value.pos])
  {
    hide Flat;
    if Live(it) {
      FlatAt(parts, p, it.value.pos, |parts|);
    }
  }

  // The loops that look for the first partition with something in it.
  method FirstFrom<T>(parts: seq<Part<T>>, start: nat, it0: Option<Inner<T>>, pid0: nat)
    returns (it: Option<Inner<T>>, pid: nat, ghost p: nat)
    requires start <= |parts| && !Live(it0)
    ensures Stands(parts, it, pid, p, Offset(parts, start))
  {
    hide Flat;
    it, pid, p := it0, pid0, start;
    var j := start;
    while j < |parts|
      invariant start <= j <= |parts| && !Live(it) && pid == pid0
      invariant forall q :: start <= q < j ==> parts[q].items == []
    {
      it := Some(Inner(parts[j].items, 0));
      if Live(it) {
        SkipEmpty(parts, start, j);
        pid, p := parts[j].pid, j;
        return;
      }
      j := j + 1;
    }
    SkipEmpty(parts, start, |parts|);
  }

  method Find<T>(parts: seq<Part<T>>, pid: nat) returns (i: nat)
    ensures i <= |parts| && (i < |parts| ==> parts[i].pid == pid)
    ensures i == |parts| ==> forall q :: 0 <= q < |parts| ==> parts[q].pid != pid
  {
    i := 0;
    while i < |parts| && parts[i].pid != pid
      invariant 0 <= i <= |parts| && forall q :: 0 <= q < i ==> parts[q].pid != pid
    {
      i := i + 1;
    }
  }

  // Next: on to the following entry, in this partition or a later one.
  method StepOn<T>(parts: seq<Part<T>>, it0: Option<Inner<T>>, pid0: nat, ghost p0: nat, ghost at: nat)
    returns (it: Option<Inner<T>>, pid: nat, ghost p: nat)
    requires Ascending(parts) && Live(it0) && Stands(parts, it0, pid0, p0, at)
    ensures Stands(parts, it, pid, p, at + 1)
  {
    hide Flat;
    it, pid, p := Some(it0.value.(pos := it0.value.pos + 1)), pid0, p0;
    if !Live(it) {
      OffsetStep(parts, p0, |parts|);
      var i := Find(parts, pid0);
      if i == |parts| {
        return;
      }
      it, pid, p := FirstFrom(parts, i + 1, it, pid0);
    }
  }

  // The loop of Seek over the partitions above pid, which start at a.
  method FirstAbove<T>(parts: seq<Part<T>>, target: nat, it0: Option<Inner<T>>, ghost a: nat)
    returns (it: Option<Inner<T>>, pid: nat, ghost p: nat)
    requires a <= |parts| && !Live(it0)
    requires forall q :: 0 <= q < |parts| ==> (parts[q].pid <= target <==> q < a)
    ensures Stands(parts, it, pid, p, Offset(parts, a))
  {
    hide Flat;
    it, pid, p := it0, target, a;
    var j := 0;
    while j < |parts|
      invariant 0 <= j <= |parts| && !Live(it)
      invariant forall q :: a <= q < j ==> parts[q].items == []
    {
      if parts[j].pid > target {
        it := Some(Inner(parts[j].items, 0));
        if Live(it) {
          SkipEmpty(parts, a, j);
          pid, p := parts[j].pid, j;
          return;
        }
      }
      j := j + 1;
    }
    SkipEmpty(parts, a, |parts|);
  }

  lemma {:induction false} NotBelow<T>(parts: seq<Part<T>>, pid: nat, n: nat) returns (p: nat)
    requires Ascending(parts) && n <= |parts|
    ensures p <= n && (forall q :: 0 <= q < p ==> parts[q].pid < pid) && (forall q :: p <= q < n ==> parts[q].pid >= pid)
  {
    if n == 0 || parts[n - 1].pid < pid {
      p := n;
    } else {
      p := NotBelow(parts, pid, n - 1);
    }
  }

  // Where Seek(key) must land in partition terms.
  method SeekParts<K(!new)>(parts: seq<Part<K>>, cmp: (K, K) -> int, pid: nat, key: K)
    returns (it: Option<Inner<K>>, pid': nat, ghost part: nat, ghost p: nat)
    requires Ascending(parts)
    ensures FirstNotBelow(parts, pid, p) && Stands(parts, it, pid', part, Place(cmp, parts, pid, key, p))
  {
    hide Flat, LowerBound;
    p := NotBelow(parts, pid, |parts|);
    it, pid' := None, pid;
    ghost var a := p;
    var i := Find(parts, pid);
    if i < |parts| {
      it := Some(Inner(parts[i].items, LowerBound(cmp, parts[i].items, key)));
      if Live(it) {
        part := i;
        return;
      }
      a := i + 1;
      OffsetStep(parts, i, |parts|);
    }
    it, pid', part := FirstAbove(parts, pid, it, a);
  }

  class FullTableIterator<R> {
    const tables: seq<Part<(nat, R)>>
    var curPid: nat
    var it: Option<Inner<(nat, R)>>
    var key: nat
    ghost var part: nat
    ghost var at: nat

    ghost predicate Valid()
      reads this
    {
      Ascending(tables) && Stands(tables, it, curPid, part, at) && (Live(it) ==> key == it.value.items[it.value.pos].0)
    }

    constructor (tables: seq<Part<(nat, R)>>)
      requires Ascending(tables)
      ensures Valid() && this.tables == tables && at == |Entries(tables)| && it.None? && curPid == 0
    {
      this.tables := tables;
      curPid, it, key, part, at := 0, None, 0, 0, |Entries(tables)|;
    }

    method SeekToFirst()
      requires Valid()
      modifies this
      ensures Valid() && at == 0
    {
      it := None;
      it, curPid, part := FirstFrom(tables, 0, it, curPid);
      at := 0;
      if Live(it) {
        key := it.value.items[it.value.pos].0;
      }
    }

    method Next()
      requires Valid() && at < |Entries(tables)|
      modifies this
      ensures Valid() && at == old(at) + 1
    {
      StandsOn(tables, it, curPid, part, at);
      it, curPid, part := StepOn(tables, it, curPid, part, at);
      at := at + 1;
      if Live(it) {
        key := it.value.items[it.value.pos].0;
      }
    }

    method GetValue() returns (value: R)
      requires Valid() && at < |Entries(tables)|
      ensures (key, value) == Entries(tables)[at].item
    {
      StandsOn(tables, it, curPid, part, at);
      value := it.value.items[it.value.pos].1;
    }
  }

  class DistributeWindowIterator<K(==, !new)> {
    const tables: Option<seq<Part<K>>>
    const cmp: (K, K) -> int
    const hash: K -> nat
    const pidNum: nat
    var curPid: nat
    var it: Option<Inner<K>>
    ghost var part: nat
    ghost var at: nat

    ghost function Parts(): seq<Part<K>> {
      if tables.Some? then tables.value else []
    }

    ghost predicate Ordered() {
      IsOrder(cmp) && Ascending(Parts()) && AllSorted(cmp, Parts())
    }

    ghost predicate Valid()
      reads this
    {
      Ordered() && Stands(Parts(), it, curPid, part, at)
    }

    constructor (tables: Option<seq<Part<K>>>, cmp: (K, K) -> int, hash: K -> nat, pidNum: nat)
      requires IsOrder(cmp) && (tables.Some? ==> Ascending(tables.value) && AllSorted(cmp, tables.value))
      ensures Valid() && this.tables == tables && this.cmp == cmp && this.hash == hash && this.pidNum == pidNum && it.None? && curPid == 0
    {
      this.tables, this.cmp, this.hash, this.pidNum := tables, cmp, hash, pidNum;
      curPid, it, part, at := 0, None, 0, |Entries(if tables.Some? then tables.value else [])|;
    }

    method SeekToFirst()
      requires Valid()
      modifies this
      ensures Valid() && at == 0
    {
      it := None;
      at := 0;
      if tables.None? {
        return;
      }
      it, curPid, part := FirstFrom(tables.value, 0, it, curPid);
    }

    method Next()
      requires Valid() && at < |Entries(Parts())|
      modifies this
      ensures Valid() && at == old(at) + 1
    {
      StandsOn(Parts(), it, curPid, part, at);
      it, curPid, part := StepOn(tables.value, it, curPid, part, at);
      at := at + 1;
    }

    // Where a key belongs: its hash picks the partition, unless the table has
    // no partition count.
    function Target(key: K, cur: nat): nat {
      if pidNum > 0 then hash(key) % pidNum else cur
    }

    // Lands on the least stored (pid, key') that is not before (pid of key, key).
    method Seek(key: K)
      requires Valid()
      modifies this
      ensures Valid()
      ensures forall x :: 0 <= x < |Entries(Parts())| ==>
        (x < at <==> Before(cmp, Entries(Parts())[x], Target(key, old(curPid)), key))
    {
      hide Flat, IsOrder, Sorted, Place;
      it := None;
      if tables.None? {
        at := |Entries(Parts())|;
        NoEntries<K>();
        return;
      }
      curPid := Target(key, curPid);
      ghost var target, p := curPid, 0;
      it, curPid, part, p := SeekParts(tables.value, cmp, curPid, key);
      at := Place(cmp, tables.value, target, key, p);
      forall x | 0 <= x < |Entries(tables.value)|
        ensures x < at <==> Before(cmp, Entries(tables.value)[x], target, key)
      {
        PlaceIsLowerBound(cmp, tables.value, target, key, p, x);
      }
    }

    // Next until the end yields the rest of the enumeration.
    method Drain() returns (keys: seq<K>)
      requires Valid()
      modifies this
      ensures Valid() && at == |Entries(Parts())|
      ensures |keys| == |Entries(Parts())| - old(at)
      ensures forall i :: 0 <= i < |keys| ==> keys[i] == Entries(Parts())[old(at) + i].item
    {
      hide Flat, Ordered;
      keys := [];
      StandsOn(Parts(), it, curPid, part, at);
      while Live(it)
        invariant Valid() && old(at) <= at <= |Entries(Parts())| && at == old(at) + |keys|
        invariant Live(it) <==> at < |Entries(Parts())|
        invariant forall i :: 0 <= i < |keys| ==> keys[i] == Entries(Parts())[old(at) + i].item
        decreases |Entries(Parts())| - at
      {
        var key := GetKey();
        keys := keys + [key];
        Next();
        StandsOn(Parts(), it, curPid, part, at);
      }
    }

    method GetKey() returns (key: K)
      requires Valid() && at < |Entries(Parts())|
      ensures key == Entries(Parts())[at].item
    {
      StandsOn(Parts(), it, curPid, part, at);
      key := it.value.items[it.value.pos];
    }
  }

  // ----- Lookup of one key -----

  // Every key is stored in the partition its hash selects.
  ghost predicate PlacedByHash<K>(parts: seq<Part<K>>, hash: K -> nat, pidNum: nat)
    requires pidNum > 0
  {
    forall x :: 0 <= x < |Entries(parts)| ==> Entries(parts)[x].pid == hash(Entries(parts)[x].item) % pidNum
  }

  ghost predicate Stored<K>(parts: seq<Part<K>>, key: K) {
    exists x :: 0 <= x < |Entries(parts)| && Entries(parts)[x].item == key
  }

  // The key comparison says equal only of equal keys.
  ghost predicate Distinguishes<K(!new)>(cmp: (K, K) -> int) {
    forall a, b :: cmp(a, b) == 0 <==> a == b
  }

  // If the key is anywhere, the lower bound of (its partition, key) holds it.
  lemma {:induction false} LowerBoundHolds<K(!new)>(cmp: (K, K) -> int, parts: seq<Part<K>>, pid: nat, key: K, at: nat, x: nat)
    requires Distinguishes(cmp) && IsOrder(cmp) && Ascending(parts) && AllSorted(cmp, parts)
    requires forall y :: 0 <= y < |Entries(parts)| ==> (y < at <==> Before(cmp, Entries(parts)[y], pid, key))
    requires x < |Entries(parts)| && Entries(parts)[x] == Entry(pid, key)
    ensures at < |Entries(parts)| && Entries(parts)[at].item == key
  {
    hide Flat, IsOrder;
    assert !Before(cmp, Entries(parts)[x], pid, key);
    var q, i := FlatWhere(parts, x, |parts|);
    var r, j := FlatWhere(parts, at, |parts|);
    assert !Before(cmp, Entries(parts)[at], pid, key);
    assert r >= q;
    if r > q {
      OffsetStep(parts, q, r);
    }
    assert r == q && j <= i;
    if j < i {
      assert cmp(parts[q].items[j], parts[q].items[i]) <= 0;
    }
  }

  // TabletSegmentHandler::GetIterator: the window of the key, found if and only
  // if the key is stored in one of the local partitions.
  method GetIterator<K(==, !new)>(iter: DistributeWindowIterator<K>, key: K) returns (window: Option<Entry<K>>)
    requires iter.Valid() && iter.pidNum > 0 && Distinguishes(iter.cmp)
    requires PlacedByHash(iter.Parts(), iter.hash, iter.pidNum)
    modifies iter
    ensures window.Some? <==> Stored(iter.Parts(), key)
    ensures window.Some? ==> window.value == Entry(iter.hash(key) % iter.pidNum, key)
  {
    hide Flat, IsOrder, Ascending, AllSorted;
    iter.Seek(key);
    ghost var parts := iter.Parts();
    if x :| 0 <= x < |Entries(parts)| && Entries(parts)[x].item == key {
      LowerBoundHolds(iter.cmp, parts, iter.hash(key) % iter.pidNum, key, iter.at, x);
    }
    StandsOn(parts, iter.it, iter.curPid, iter.part, iter.at);
    window := None;
    if Live(iter.it) {
      var found := iter.GetKey();
      if found == key {
        window := Some(Entry(iter.curPid, found));
      }
    }
  }
}

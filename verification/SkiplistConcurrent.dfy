// Insert running concurrently with searches, one atomic load or store at a
// time. Inserts are serialised by their callers; searches take no lock.

module SkiplistConcurrent {
  import opened Towers
  import opened Ordering

  datatype Ptr = Null | Ref(id: nat)

  const HEAD: Ptr := Ref(0)

  // An insertion about to link `level`; `stored` says that the new node's own
  // link at that level has been written but not yet published.
  datatype Writer = Idle | Linking(node: Ptr, pre: seq<Ptr>, height: nat, level: nat, stored: bool)

  datatype Search = LessThan | Equal

  datatype Reader<K> =
    | Reading(kind: Search, target: K, node: Ptr, level: nat)
    | Done(kind: Search, target: K, node: Ptr)

  // keys, rows, maxHeight and writer are what the code holds. order, linked, at
  // and written are history: the list order including the node being linked,
  // how many levels of each node are published, the position of the node being
  // linked, and the link slots that have been written.
  datatype Memory<K> = Memory(
    keys: map<Ptr, K>,
    rows: map<Ptr, seq<Ptr>>,
    maxHeight: nat,
    writer: Writer,
    order: seq<Ptr>,
    linked: seq<nat>,
    at: nat,
    written: set<(Ptr, nat)>)

  datatype State<K> = State(memory: Memory<K>, readers: map<nat, Reader<K>>)

  ghost function Rows(order: seq<Ptr>, rows: map<Ptr, seq<Ptr>>): (next: seq<seq<Ptr>>)
    ensures |next| == |order|
    ensures forall p {:trigger next[p]} :: 0 <= p < |order| ==>
      next[p] == if order[p] in rows then rows[order[p]] else []
  {
    seq(|order|, p requires 0 <= p < |order| => if order[p] in rows then rows[order[p]] else [])
  }

  ghost function KeySeq<K>(order: seq<Ptr>, keys: map<Ptr, K>): (ks: seq<K>)
    requires order != [] && forall p :: 1 <= p < |order| ==> order[p] in keys
    ensures |ks| == |order| - 1
    ensures forall i {:trigger ks[i]} :: 0 <= i < |ks| ==> ks[i] == keys[order[i + 1]]
  {
    seq(|order| - 1, i requires 0 <= i < |order| - 1 => keys[order[i + 1]])
  }

  // What each search steps over.
  predicate Passes<K>(cmp: (K, K) -> int, kind: Search, key: K, target: K) {
    if kind.LessThan? then cmp(key, target) < 0 else cmp(key, target) <= 0
  }

  // The links are exact for the levels published so far.
  ghost predicate Structure<K(!new)>(cmp: (K, K) -> int, m: Memory<K>) {
    && IsOrder(cmp)
    && |m.linked| == |m.order| && m.order != [] && m.order[0] == HEAD
    && Null !in m.order && Distinct(m.order)
    && (forall p :: 0 <= p < |m.order| ==> m.order[p] in m.rows && m.order[p] in m.keys)
    && (forall p :: 0 <= p < |m.order| ==> m.linked[p] <= |m.rows[m.order[p]]|)
    && m.linked[0] == |m.rows[HEAD]| && 1 <= m.maxHeight <= m.linked[0]
    && (forall p :: 1 <= p < |m.order| ==> m.linked[p] <= m.maxHeight)
    && Sorted(cmp, KeySeq(m.order, m.keys))
    && Exact(m.order, Null, Rows(m.order, m.rows), m.linked)
  }

  // Every published link slot has been written.
  ghost predicate PublishedWritten<K>(m: Memory<K>) {
    forall p, l {:trigger (m.order[p], l) in m.written} ::
      0 <= p < |m.order| && p < |m.linked| && 0 <= l < m.linked[p] ==> (m.order[p], l) in m.written
  }

  // The node is published at all the levels it has.
  ghost predicate Whole<K>(m: Memory<K>, p: nat)
    requires p < |m.order| == |m.linked|
  {
    m.order[p] in m.rows && 1 <= m.linked[p] == |m.rows[m.order[p]]|
  }

  // All nodes are but the one being linked.
  ghost predicate OthersWhole<K>(m: Memory<K>)
    requires |m.linked| == |m.order|
  {
    forall p :: 1 <= p < |m.order| && (m.writer.Linking? ==> p != m.at) ==> Whole(m, p)
  }

  ghost predicate WriterOk<K>(m: Memory<K>)
    requires |m.linked| == |m.order| && m.order != []
  {
    match m.writer
    case Idle => true
    case Linking(node, pre, height, level, stored) =>
      && 0 < m.at < |m.order| && m.order[m.at] == node && m.linked[m.at] == level
      && level < height <= m.maxHeight <= m.linked[0] && height <= |pre|
      && node in m.rows && |m.rows[node]| == height
      && (forall i :: level <= i < height ==> pre[i] == m.order[LastTaller(m.linked, m.at - 1, i)])
      && (stored ==> pre[level] in m.rows && level < |m.rows[pre[level]]|
                     && m.rows[node][level] == m.rows[pre[level]][level] && (node, level) in m.written)
  }

  ghost predicate MemInv<K(!new)>(cmp: (K, K) -> int, m: Memory<K>) {
    Structure(cmp, m) && PublishedWritten(m) && WriterOk(m) && OthersWhole(m)
  }

  // A search stands on a node that is published at its level and passes.
  ghost predicate StandsAt<K>(cmp: (K, K) -> int, m: Memory<K>, r: Reader<K>, p: nat)
    requires r.Reading?
  {
    && p < |m.order| == |m.linked| && m.order[p] == r.node && m.linked[p] > r.level
    && (p > 0 ==> r.node in m.keys && Passes(cmp, r.kind, m.keys[r.node], r.target))
  }

  ghost predicate ReadersOk<K>(cmp: (K, K) -> int, s: State<K>) {
    forall i :: i in s.readers && s.readers[i].Reading? ==> exists p: nat :: StandsAt(cmp, s.memory, s.readers[i], p)
  }

  ghost predicate Inv<K(!new)>(cmp: (K, K) -> int, s: State<K>) {
    MemInv(cmp, s.memory) && ReadersOk(cmp, s)
  }

  // ----- Steps -----

  // pre is the predecessor of k at `level`, as a search finds it in memory.
  ghost predicate IsPre<K>(cmp: (K, K) -> int, m: Memory<K>, k: K, level: nat, pre: Ptr, p: nat) {
    && p < |m.order| == |m.linked| && m.order[p] == pre && m.linked[p] > level
    && (p > 0 ==> pre in m.keys && cmp(m.keys[pre], k) < 0)
    && pre in m.rows && level < |m.rows[pre]|
    && var next := m.rows[pre][level];
       next != Null ==> next in m.keys && cmp(m.keys[next], k) >= 0
  }

  ghost predicate HasPre<K>(cmp: (K, K) -> int, m: Memory<K>, k: K, level: nat, pre: Ptr) {
    exists p: nat :: IsPre(cmp, m, k, level, pre, p)
  }

  // Lines 113-125 of Insert: height, search, raise, allocate. The slots of the
  // new row hold whatever was there.
  ghost predicate Begin<K>(cmp: (K, K) -> int, m: Memory<K>, m': Memory<K>, k: K, node: Ptr, row: seq<Ptr>, pre: seq<Ptr>) {
    && m.writer.Idle? && node.Ref? && node !in m.rows && node !in m.keys && node !in m.order
    && m.order != [] && (forall p :: 1 <= p < |m.order| ==> m.order[p] in m.keys)
    && HEAD in m.rows && 1 <= |row| <= |m.rows[HEAD]| && |pre| == |row|
    && (forall i :: 0 <= i < |row| ==> HasPre(cmp, m, k, i, pre[i]))
    && |m.linked| == |m.order|
    && var at := LowerBound(cmp, KeySeq(m.order, m.keys), k) + 1;
       m' == m.(keys := m.keys[node := k], rows := m.rows[node := row],
                maxHeight := if |row| > m.maxHeight then |row| else m.maxHeight,
                writer := Linking(node, pre, |row|, 0, false),
                order := InsertAt(m.order, at, node), linked := InsertAt(m.linked, at, 0), at := at)
  }

  // Line 127: the new node's own link, not yet visible to anyone.
  ghost predicate StoreOwn<K>(m: Memory<K>, m': Memory<K>) {
    && m.writer.Linking? && !m.writer.stored
    && var Linking(node, pre, height, level, _) := m.writer;
       && level < |pre| && pre[level] in m.rows && level < |m.rows[pre[level]]|
       && node in m.rows && level < |m.rows[node]|
       && m' == m.(rows := m.rows[node := m.rows[node][level := m.rows[pre[level]][level]]],
                   writer := m.writer.(stored := true),
                   written := m.written + {(node, level)})
  }

  // Line 128: the link that makes the new node visible at this level.
  ghost predicate Publish<K>(m: Memory<K>, m': Memory<K>) {
    && m.writer.Linking? && m.writer.stored
    && var Linking(node, pre, height, level, _) := m.writer;
       && level < |pre| && pre[level] in m.rows && level < |m.rows[pre[level]]|
       && m.at < |m.linked|
       && m' == m.(rows := m.rows[pre[level] := m.rows[pre[level]][level := node]],
                   writer := if level + 1 == height then Idle else Linking(node, pre, height, level + 1, false),
                   written := m.written + {(pre[level], level)},
                   linked := m.linked[m.at := level + 1])
  }

  ghost predicate ReadStart<K>(s: State<K>, s': State<K>, i: nat, kind: Search, target: K) {
    && i !in s.readers && s.memory.maxHeight >= 1
    && s' == s.(readers := s.readers[i := Reading(kind, target, HEAD, s.memory.maxHeight - 1)])
  }

  // One iteration of FindLessThan or FindEqual: one load and one comparison.
  ghost function ReadNext<K>(cmp: (K, K) -> int, m: Memory<K>, r: Reader<K>): Reader<K>
    requires r.Reading? && r.node in m.rows && r.level < |m.rows[r.node]|
  {
    var next := m.rows[r.node][r.level];
    if next == Null || (next in m.keys && !Passes(cmp, r.kind, m.keys[next], r.target)) then
      if r.level == 0 then Done(r.kind, r.target, r.node) else r.(level := r.level - 1)
    else r.(node := next)
  }

  ghost predicate ReadStep<K>(cmp: (K, K) -> int, s: State<K>, s': State<K>, i: nat) {
    && i in s.readers && s.readers[i].Reading?
    && s.readers[i].node in s.memory.rows && s.readers[i].level < |s.memory.rows[s.readers[i].node]|
    && s' == s.(readers := s.readers[i := ReadNext(cmp, s.memory, s.readers[i])])
  }

  datatype Label<K> =
    | LBegin(k: K, node: Ptr, row: seq<Ptr>, pre: seq<Ptr>)
    | LStoreOwn
    | LPublish
    | LReadStart(i: nat, kind: Search, target: K)
    | LReadStep(i: nat)

  ghost predicate Next<K>(cmp: (K, K) -> int, s: State<K>, step: Label<K>, s': State<K>) {
    match step
    case LBegin(k, node, row, pre) =>
      s'.readers == s.readers && Begin(cmp, s.memory, s'.memory, k, node, row, pre)
    case LStoreOwn => s'.readers == s.readers && StoreOwn(s.memory, s'.memory)
    case LPublish => s'.readers == s.readers && Publish(s.memory, s'.memory)
    case LReadStart(i, kind, target) => ReadStart(s, s', i, kind, target)
    case LReadStep(i) => ReadStep(cmp, s, s', i)
  }

  // ----- Searches -----

  // A search only loads slots that have been written, on a node published at
  // the level it is on.
  lemma ReadIsSafe<K(!new)>(cmp: (K, K) -> int, s: State<K>, i: nat)
    requires Inv(cmp, s) && i in s.readers && s.readers[i].Reading?
    ensures var r, m := s.readers[i], s.memory;
      r.node in m.rows && r.level < |m.rows[r.node]| && (r.node, r.level) in m.written
  {
    var r, m := s.readers[i], s.memory;
    var p: nat :| StandsAt(cmp, m, r, p);
    assert (m.order[p], r.level) in m.written;
  }

  // The published successor at a level.
  lemma LoadIs<K(!new)>(cmp: (K, K) -> int, m: Memory<K>, p: nat, level: nat)
    requires Structure(cmp, m) && p < |m.order| && level < m.linked[p]
    ensures var q := FirstTaller(m.linked, p + 1, level);
      m.rows[m.order[p]][level] == At(m.order, Null, q) && (q < |m.order| ==> m.order[q] != Null)
  {
    assert LevelExact(m.order, Null, Rows(m.order, m.rows), m.linked, level);
    assert Rows(m.order, m.rows)[p] == m.rows[m.order[p]];
    var q := FirstTaller(m.linked, p + 1, level);
    assert q < |m.order| ==> m.order[q] in m.order;
  }

  lemma ReadNextOk<K(!new)>(cmp: (K, K) -> int, m: Memory<K>, r: Reader<K>, p: nat)
    requires Structure(cmp, m) && r.Reading? && StandsAt(cmp, m, r, p)
    ensures r.node in m.rows && r.level < |m.rows[r.node]|
    ensures ReadNext(cmp, m, r).Reading? ==> exists q: nat :: StandsAt(cmp, m, ReadNext(cmp, m, r), q)
  {
    LoadIs(cmp, m, p, r.level);
    var q := FirstTaller(m.linked, p + 1, r.level);
    var r' := ReadNext(cmp, m, r);
    if r'.Reading? {
      assert StandsAt(cmp, m, r', if r'.node == r.node && r'.level != r.level then p else q);
    }
  }

  // node answers the search: it is the last visible one with a smaller key, or
  // with a key that is not larger, and the head if there is none.
  ghost predicate Answers<K>(cmp: (K, K) -> int, m: Memory<K>, kind: Search, target: K, node: Ptr, p: nat) {
    && p < |m.order| == |m.linked| && m.order[p] == node && (p == 0 || m.linked[p] > 0)
    && (forall q :: 1 <= q < |m.order| && m.linked[q] > 0 && m.order[q] in m.keys ==>
          var key := m.keys[m.order[q]];
          match kind
          case LessThan => cmp(key, target) < 0 <==> q <= p
          case Equal => cmp(key, target) <= 0 <==> q <= p)
  }

  // The keys a search can see, in list order.
  ghost function VisibleKeys<K>(m: Memory<K>): (ks: seq<K>)
    requires |m.linked| == |m.order| && m.order != [] && m.linked[0] >= 1 && forall p :: 0 <= p < |m.order| ==> m.order[p] in m.keys
    ensures |Level(m.linked, 0)| == |ks| + 1 && Level(m.linked, 0)[0] == 0
    ensures forall j {:trigger ks[j]} :: 0 <= j < |ks| ==> Level(m.linked, 0)[j + 1] < |m.order| && ks[j] == m.keys[m.order[Level(m.linked, 0)[j + 1]]]
  {
    LevelFacts(m.linked, 0);
    var ps := Level(m.linked, 0);
    assert 0 in ps;
    assert ps[0] == 0;
    seq(|ps| - 1, j requires 0 <= j < |ps| - 1 => m.keys[m.order[ps[j + 1]]])
  }

  // node stands right before the lower bound of the visible keys, or before
  // their upper bound.
  ghost predicate AtBound<K>(cmp: (K, K) -> int, m: Memory<K>, kind: Search, target: K, node: Ptr)
    requires |m.linked| == |m.order| && m.order != [] && m.linked[0] >= 1 && forall p :: 0 <= p < |m.order| ==> m.order[p] in m.keys
  {
    var ks, ps := VisibleKeys(m), Level(m.linked, 0);
    var j := if kind.LessThan? then LowerBound(cmp, ks, target) else UpperBound(cmp, ks, target);
    ps[j] < |m.order| && node == m.order[ps[j]]
  }

  lemma {:induction false} AnswerAtBound<K(!new)>(cmp: (K, K) -> int, m: Memory<K>, kind: Search, target: K, node: Ptr, p: nat)
    requires Structure(cmp, m) && Answers(cmp, m, kind, target, node, p)
    ensures AtBound(cmp, m, kind, target, node)
  {
    hide Exact, Sorted, LowerBound, UpperBound, Level, VisibleKeys, Rows;
    var ks, ps := VisibleKeys(m), Level(m.linked, 0);
    LevelFacts(m.linked, 0);
    var c: nat := if kind.LessThan? then LowerBound(cmp, ks, target) else UpperBound(cmp, ks, target);
    assert p in ps;
    var j: nat :| j < |ps| && ps[j] == p;
    assert c < |ks| ==> ks[c] == m.keys[m.order[ps[c + 1]]];
    assert c > 0 ==> ks[c - 1] == m.keys[m.order[ps[c]]];
    assert c < |ks| ==> ps[c + 1] > p;
    assert ps[c] <= p;
  }

  lemma PassesBelow<K(!new)>(cmp: (K, K) -> int, m: Memory<K>, kind: Search, target: K, p: nat, q: nat)
    requires Structure(cmp, m) && 1 <= p <= q < |m.order|
    requires Passes(cmp, kind, m.keys[m.order[q]], target)
    ensures Passes(cmp, kind, m.keys[m.order[p]], target)
  {
    if p < q {
      var ks := KeySeq(m.order, m.keys);
      assert cmp(ks[p - 1], ks[q - 1]) <= 0;
      Through(cmp, m.keys[m.order[p]], m.keys[m.order[q]], target);
    }
  }

  // A search that finishes gives the right answer for the state it last read,
  // whatever insertions ran in between.
  lemma SearchIsCorrect<K(!new)>(cmp: (K, K) -> int, s: State<K>, s': State<K>, i: nat)
    requires Inv(cmp, s) && ReadStep(cmp, s, s', i) && s'.readers[i].Done?
    ensures exists p: nat ::
      Answers(cmp, s.memory, s'.readers[i].kind, s'.readers[i].target, s'.readers[i].node, p)
  {
    var r, m := s.readers[i], s.memory;
    var p: nat :| StandsAt(cmp, m, r, p);
    LoadIs(cmp, m, p, 0);
    var f := FirstTaller(m.linked, p + 1, 0);
    forall q | 1 <= q < |m.order| && m.linked[q] > 0
      ensures Passes(cmp, r.kind, m.keys[m.order[q]], r.target) <==> q <= p
    {
      if q <= p {
        PassesBelow(cmp, m, r.kind, r.target, q, p);
      } else if Passes(cmp, r.kind, m.keys[m.order[q]], r.target) {
        PassesBelow(cmp, m, r.kind, r.target, f, q);
      }
    }
    assert Answers(cmp, m, r.kind, r.target, r.node, p);
  }

  // ----- Every step keeps the invariant -----

  // A slot of the new node above its published levels is nobody's business.
  lemma {:induction false} OwnStoreExact<T>(ids: seq<T>, nil: T, next: seq<seq<T>>, h: seq<nat>, at: nat, row: seq<T>)
    requires |ids| == |next| == |h| && at < |ids| && Exact(ids, nil, next, h)
    requires h[at] <= |row| && h[at] <= |next[at]| && forall l :: 0 <= l < h[at] ==> row[l] == next[at][l]
    ensures Exact(ids, nil, next[at := row], h)
  {
    var next' := next[at := row];
    forall l: nat
      ensures LevelExact(ids, nil, next', h, l)
    {
      assert LevelExact(ids, nil, next, h, l);
      forall p | 0 <= p < |ids| && l < h[p]
        ensures l < |next'[p]| && next'[p][l] == At(ids, nil, FirstTaller(h, p + 1, l))
      {
        assert l < |next[p]|;
      }
    }
  }

  // A store to one row, seen through the list order.
  lemma {:induction false} RowsStore(order: seq<Ptr>, rows: map<Ptr, seq<Ptr>>, k: nat, row: seq<Ptr>)
    requires Distinct(order) && k < |order| && (forall p :: 0 <= p < |order| ==> order[p] in rows)
    ensures Rows(order, rows[order[k] := row]) == Rows(order, rows)[k := row]
  {
    DistinctFrom(order, k);
  }

  lemma {:induction false} StoreOwnKeeps<K(!new)>(cmp: (K, K) -> int, m: Memory<K>, m': Memory<K>)
    requires MemInv(cmp, m) && StoreOwn(m, m')
    ensures MemInv(cmp, m')
  {
    var Linking(node, pre, height, level, _) := m.writer;
    var row := m.rows[node][level := m.rows[pre[level]][level]];
    var next := Rows(m.order, m.rows);
    assert next[m.at] == m.rows[node];
    RowsStore(m.order, m.rows, m.at, row);
    OwnStoreExact(m.order, Null, next, m.linked, m.at, row);
    DistinctFrom(m.order, m.at);
    assert Structure(cmp, m');
    assert PublishedWritten(m');
    LastTallerIs(m.linked, m.at - 1, level, LastTaller(m.linked, m.at - 1, level));
    assert WriterOk(m');
    WholeKept(m, m');
  }

  // Stores change no row's length.
  lemma {:induction false} WholeKept<K>(m: Memory<K>, m': Memory<K>)
    requires |m.linked| == |m.order| == |m'.linked| && m'.order == m.order && OthersWhole(m) && m.writer.Linking? && m'.at == m.at
    requires forall p :: 0 <= p < |m.order| ==> m.order[p] in m.rows && m.order[p] in m'.rows
    requires forall p :: 0 <= p < |m.order| ==> |m'.rows[m.order[p]]| == |m.rows[m.order[p]]|
    requires forall p :: 0 <= p < |m.order| && p != m.at ==> m'.linked[p] == m.linked[p]
    requires m'.writer.Idle? && 1 <= m.at < |m.order| ==> Whole(m', m.at)
    ensures OthersWhole(m')
  {
    forall p | 1 <= p < |m'.order| && (m'.writer.Linking? ==> p != m'.at)
      ensures Whole(m', p)
    {
      assert p != m.at ==> Whole(m, p);
    }
  }

  // Searches keep standing when nodes are added and levels published.
  lemma {:induction false} ReadersKept<K>(cmp: (K, K) -> int, s: State<K>, s': State<K>)
    requires ReadersOk(cmp, s) && s'.readers == s.readers
    requires s'.memory.order == s.memory.order && s'.memory.keys == s.memory.keys
    requires |s'.memory.linked| == |s.memory.linked|
    requires forall p :: 0 <= p < |s.memory.linked| ==> s.memory.linked[p] <= s'.memory.linked[p]
    ensures ReadersOk(cmp, s')
  {
    forall i | i in s'.readers && s'.readers[i].Reading?
      ensures exists p: nat :: StandsAt(cmp, s'.memory, s'.readers[i], p)
    {
      var p: nat :| StandsAt(cmp, s.memory, s.readers[i], p);
      assert StandsAt(cmp, s'.memory, s'.readers[i], p);
    }
  }

  lemma {:induction false} PublishStructure<K(!new)>(cmp: (K, K) -> int, m: Memory<K>, m': Memory<K>)
    requires MemInv(cmp, m) && Publish(m, m')
    ensures Structure(cmp, m')
  {
    hide Exact, Sorted;
    PublishExact(cmp, m, m');
    DistinctFrom(m.order, LastTaller(m.linked, m.at - 1, m.writer.level));
  }

  // The store completes the level: the node is linked one level higher.
  lemma {:induction false} PublishExact<K(!new)>(cmp: (K, K) -> int, m: Memory<K>, m': Memory<K>)
    requires MemInv(cmp, m) && Publish(m, m')
    ensures Exact(m'.order, Null, Rows(m'.order, m'.rows), m'.linked)
  {
    hide Exact, Sorted;
    var Linking(node, pre, height, level, _) := m.writer;
    var k := LastTaller(m.linked, m.at - 1, level);
    var next := Rows(m.order, m.rows);
    var row := m.rows[pre[level]][level := node];
    RowsStore(m.order, m.rows, k, row);
    ThreadOne(m.order, Null, next, m.linked, m.at, k);
    assert next[m.at] == m.rows[node] && next[k] == m.rows[pre[level]];
    OneStore(m.order, next, m.at, k, level);
  }

  // The node's own link is already there, so only the predecessor's changes.
  lemma {:induction false} OneStore(order: seq<Ptr>, next: seq<seq<Ptr>>, at: nat, k: nat, level: nat)
    requires at < |order| == |next| && k < |order| && level < |next[at]| && level < |next[k]|
    requires next[at][level] == next[k][level] && at != k
    ensures ThreadStores(order, next, at, k, level) == next[k := next[k][level := order[at]]]
  {
    assert next[at][level := next[k][level]] == next[at];
  }

  lemma {:induction false} PublishWritten<K(!new)>(cmp: (K, K) -> int, m: Memory<K>, m': Memory<K>)
    requires MemInv(cmp, m) && Publish(m, m')
    ensures PublishedWritten(m')
  {
    forall p, l | 0 <= p < |m'.order| && 0 <= l < m'.linked[p]
      ensures (m'.order[p], l) in m'.written
    {
      if p != m.at || l < m.writer.level {
        assert (m.order[p], l) in m.written;
      }
    }
  }

  lemma {:induction false} PublishWriter<K(!new)>(cmp: (K, K) -> int, m: Memory<K>, m': Memory<K>)
    requires MemInv(cmp, m) && Publish(m, m')
    ensures WriterOk(m')
  {
    var Linking(node, pre, height, level, _) := m.writer;
    if level + 1 < height {
      forall i | level + 1 <= i < height
        ensures pre[i] == m'.order[LastTaller(m'.linked, m'.at - 1, i)]
      {
        LastTallerIs(m'.linked, m'.at - 1, i, LastTaller(m.linked, m.at - 1, i));
      }
      var k := LastTaller(m.linked, m.at - 1, level);
      assert pre[level] == m.order[k];
      assert Differ(m.order, k, m.at);
    }
  }

  lemma {:induction false} PublishKeeps<K(!new)>(cmp: (K, K) -> int, m: Memory<K>, m': Memory<K>)
    requires MemInv(cmp, m) && Publish(m, m')
    ensures MemInv(cmp, m')
  {
    PublishStructure(cmp, m, m');
    PublishWritten(cmp, m, m');
    PublishWriter(cmp, m, m');
    assert m.order[LastTaller(m.linked, m.at - 1, m.writer.level)] in m.rows;
    WholeKept(m, m');
  }

  // The predecessor found in memory is the last published position before k.
  lemma {:induction false} PreIsLast<K(!new)>(cmp: (K, K) -> int, m: Memory<K>, k: K, level: nat, pre: Ptr, p: nat)
    requires Structure(cmp, m) && IsPre(cmp, m, k, level, pre, p)
    ensures var b := LowerBound(cmp, KeySeq(m.order, m.keys), k);
      b < |m.order| && level < m.linked[0] && p == LastTaller(m.linked, b, level)
  {
    hide Exact, Sorted;
    var ks := KeySeq(m.order, m.keys);
    var b := LowerBound(cmp, ks, k);
    LoadIs(cmp, m, p, level);
    if p > 0 {
      BoundsSplitAt(cmp, ks, k, p - 1);
    }
    var q := FirstTaller(m.linked, p + 1, level);
    if q < |m.order| {
      BoundsSplitAt(cmp, ks, k, q - 1);
    }
    PredecessorFound(m.linked, p, level, b);
  }

  lemma {:induction false} BeginStructure<K(!new)>(cmp: (K, K) -> int, m: Memory<K>, m': Memory<K>, k: K, node: Ptr,
                                                   row: seq<Ptr>, pre: seq<Ptr>)
    requires MemInv(cmp, m) && Begin(cmp, m, m', k, node, row, pre)
    ensures Structure(cmp, m')
  {
    var ks := KeySeq(m.order, m.keys);
    var at := LowerBound(cmp, ks, k) + 1;
    DistinctInsert(m.order, at, node);
    ExactAddUnlinked(m.order, Null, Rows(m.order, m.rows), m.linked, at, node, row);
    BeginRows(m, m', at, node, row);
    BeginSorted(cmp, m, m', k, at, node);
    BeginBounds(cmp, m, m', at, node);
  }

  lemma {:induction false} BeginSorted<K(!new)>(cmp: (K, K) -> int, m: Memory<K>, m': Memory<K>, k: K, at: nat, node: Ptr)
    requires Structure(cmp, m) && node !in m.order && m'.keys == m.keys[node := k]
    requires at == LowerBound(cmp, KeySeq(m.order, m.keys), k) + 1 && m'.order == InsertAt(m.order, at, node)
    ensures forall p :: 1 <= p < |m'.order| ==> m'.order[p] in m'.keys
    ensures Sorted(cmp, KeySeq(m'.order, m'.keys))
  {
    var ks := KeySeq(m.order, m.keys);
    BoundsSplit(cmp, ks, k);
    SortedInsert(cmp, ks, k, at - 1);
    BeginKeys(m, m', at, node, k);
  }

  lemma {:induction false} BeginBounds<K(!new)>(cmp: (K, K) -> int, m: Memory<K>, m': Memory<K>, at: nat, node: Ptr)
    requires Structure(cmp, m) && 0 < at <= |m.order| && node.Ref? && node !in m.order
    requires m'.order == InsertAt(m.order, at, node) && m'.linked == InsertAt(m.linked, at, 0)
    requires node in m'.rows && (forall x :: x in m.rows && x != node ==> x in m'.rows && m'.rows[x] == m.rows[x])
    requires m.maxHeight <= m'.maxHeight
    ensures Null !in m'.order
    ensures forall p :: 0 <= p < |m'.order| ==> m'.order[p] in m'.rows
    ensures forall p :: 0 <= p < |m'.order| ==> m'.linked[p] <= |m'.rows[m'.order[p]]|
    ensures forall p :: 1 <= p < |m'.order| ==> m'.linked[p] <= m'.maxHeight
  {
    forall p | 0 <= p < |m'.order|
      ensures m'.order[p] != Null && m'.order[p] in m'.rows && m'.linked[p] <= |m'.rows[m'.order[p]]|
      ensures p >= 1 ==> m'.linked[p] <= m'.maxHeight
    {
      if p != at {
        var p0 := if p < at then p else p - 1;
        assert m'.order[p] == m.order[p0] && m'.linked[p] == m.linked[p0] && m.order[p0] in m.order;
      }
    }
  }

  lemma {:induction false} BeginRows<K>(m: Memory<K>, m': Memory<K>, at: nat, node: Ptr, row: seq<Ptr>)
    requires 0 < at <= |m.order| && node !in m.order && m'.order == InsertAt(m.order, at, node)
    requires m'.rows == m.rows[node := row]
    ensures Rows(m'.order, m'.rows) == InsertAt(Rows(m.order, m.rows), at, row)
  {
    var a, b := Rows(m'.order, m'.rows), InsertAt(Rows(m.order, m.rows), at, row);
    forall p | 0 <= p < |a|
      ensures a[p] == b[p]
    {
      if p != at {
        var p0 := if p < at then p else p - 1;
        assert m'.order[p] == m.order[p0] && m.order[p0] in m.order;
        assert b[p] == Rows(m.order, m.rows)[p0];
      }
    }
  }

  lemma {:induction false} BeginKeys<K>(m: Memory<K>, m': Memory<K>, at: nat, node: Ptr, k: K)
    requires 0 < at <= |m.order| && node !in m.order && m'.order == InsertAt(m.order, at, node)
    requires m'.keys == m.keys[node := k] && forall p :: 1 <= p < |m.order| ==> m.order[p] in m.keys
    ensures forall p :: 1 <= p < |m'.order| ==> m'.order[p] in m'.keys
    ensures var ks := KeySeq(m.order, m.keys);
      KeySeq(m'.order, m'.keys) == ks[..at - 1] + [k] + ks[at - 1..]
  {
    forall p | 1 <= p < |m'.order|
      ensures m'.order[p] in m'.keys
      ensures p != at ==> m'.keys[m'.order[p]] == m.keys[m.order[if p < at then p else p - 1]]
    {
      if p != at {
        var p0 := if p < at then p else p - 1;
        assert m'.order[p] == m.order[p0] && m.order[p0] in m.order;
      }
    }
  }

  lemma {:induction false} BeginWriter<K(!new)>(cmp: (K, K) -> int, m: Memory<K>, m': Memory<K>, k: K, node: Ptr,
                                                row: seq<Ptr>, pre: seq<Ptr>)
    requires MemInv(cmp, m) && Begin(cmp, m, m', k, node, row, pre)
    ensures |m'.linked| == |m'.order| && m'.order != [] && WriterOk(m') && PublishedWritten(m')
  {
    var at := LowerBound(cmp, KeySeq(m.order, m.keys), k) + 1;
    assert m'.order == InsertAt(m.order, at, node) && m'.linked == InsertAt(m.linked, at, 0);
    forall i | 0 <= i < |row|
      ensures pre[i] == m'.order[LastTaller(m'.linked, at - 1, i)]
    {
      assert HasPre(cmp, m, k, i, pre[i]);
      var p: nat :| IsPre(cmp, m, k, i, pre[i], p);
      PreIsLast(cmp, m, k, i, pre[i], p);
      LastTallerInsert(m.linked, at, i);
    }
    forall p, l | 0 <= p < |m'.order| && 0 <= l < m'.linked[p]
      ensures (m'.order[p], l) in m'.written
    {
      var p0 := if p < at then p else p - 1;
      assert (m.order[p0], l) in m.written;
    }
  }

  lemma {:induction false} BeginWhole<K(!new)>(cmp: (K, K) -> int, m: Memory<K>, m': Memory<K>, k: K, node: Ptr,
                                               row: seq<Ptr>, pre: seq<Ptr>)
    requires MemInv(cmp, m) && Begin(cmp, m, m', k, node, row, pre)
    ensures OthersWhole(m')
  {
    hide Exact, Sorted, LowerBound, HasPre, PublishedWritten;
    var at := m'.at;
    forall p | 1 <= p < |m'.order| && p != at
      ensures Whole(m', p)
    {
      var p0 := if p < at then p else p - 1;
      assert m'.order[p] == m.order[p0] && m'.linked[p] == m.linked[p0] && m.order[p0] in m.order && Whole(m, p0);
    }
  }

  lemma {:induction false} BeginReaders<K(!new)>(cmp: (K, K) -> int, s: State<K>, s': State<K>, k: K, node: Ptr,
                                                 row: seq<Ptr>, pre: seq<Ptr>)
    requires Inv(cmp, s) && Begin(cmp, s.memory, s'.memory, k, node, row, pre) && s'.readers == s.readers
    ensures ReadersOk(cmp, s')
  {
    var m, m' := s.memory, s'.memory;
    var at := LowerBound(cmp, KeySeq(m.order, m.keys), k) + 1;
    assert m'.order == InsertAt(m.order, at, node) && m'.linked == InsertAt(m.linked, at, 0);
    forall i | i in s'.readers && s'.readers[i].Reading?
      ensures exists p: nat :: StandsAt(cmp, m', s'.readers[i], p)
    {
      var p: nat :| StandsAt(cmp, m, s.readers[i], p);
      assert m.order[p] in m.order;
      assert StandsAt(cmp, m', s'.readers[i], if p < at then p else p + 1);
    }
  }

  // Every atomic step keeps every level published so far exact, sorted and
  // fully written, and every search on a published node.
  lemma {:induction false} NextKeeps<K(!new)>(cmp: (K, K) -> int, s: State<K>, step: Label<K>, s': State<K>)
    requires Inv(cmp, s) && Next(cmp, s, step, s')
    ensures Inv(cmp, s')
  {
    var m, m' := s.memory, s'.memory;
    match step
    case LBegin(k, node, row, pre) =>
      BeginStructure(cmp, m, m', k, node, row, pre);
      BeginWriter(cmp, m, m', k, node, row, pre);
      BeginWhole(cmp, m, m', k, node, row, pre);
      BeginReaders(cmp, s, s', k, node, row, pre);
    case LStoreOwn =>
      StoreOwnKeeps(cmp, m, m');
      ReadersKept(cmp, s, s');
    case LPublish =>
      PublishKeeps(cmp, m, m');
      ReadersKept(cmp, s, s');
    case LReadStart(i, kind, target) => ReadStartKeeps(cmp, s, s', i, kind, target);
    case LReadStep(i) => ReadStepKeeps(cmp, s, s', i);
  }

  // The last published position before k is a predecessor as a search finds it.
  lemma {:induction false} LastIsPre<K(!new)>(cmp: (K, K) -> int, m: Memory<K>, k: K, level: nat) returns (p: nat)
    requires Structure(cmp, m) && level < m.linked[0]
    ensures var b := LowerBound(cmp, KeySeq(m.order, m.keys), k);
      b < |m.order| && p == LastTaller(m.linked, b, level) && IsPre(cmp, m, k, level, m.order[p], p)
  {
    hide Exact, Sorted, LowerBound, Rows;
    var ks := KeySeq(m.order, m.keys);
    var b := LowerBound(cmp, ks, k);
    p := LastTaller(m.linked, b, level);
    LoadIs(cmp, m, p, level);
    if p > 0 {
      BoundsSplitAt(cmp, ks, k, p - 1);
    }
    var q := FirstTaller(m.linked, p + 1, level);
    if q < |m.order| {
      assert q > b;
      BoundsSplitAt(cmp, ks, k, q - 1);
    }
  }

  lemma {:induction false} PreExist<K(!new)>(cmp: (K, K) -> int, m: Memory<K>, k: K, h: nat) returns (pre: seq<Ptr>)
    requires Structure(cmp, m) && h <= m.linked[0]
    ensures |pre| == h && forall i :: 0 <= i < h ==> HasPre(cmp, m, k, i, pre[i])
    ensures var b := LowerBound(cmp, KeySeq(m.order, m.keys), k);
      b < |m.order| && forall i :: 0 <= i < h ==> pre[i] == m.order[LastTaller(m.linked, b, i)]
  {
    hide Exact, Sorted, IsPre;
    var b := LowerBound(cmp, KeySeq(m.order, m.keys), k);
    pre := seq(h, i requires 0 <= i < h => m.order[LastTaller(m.linked, b, i)]);
    forall i | 0 <= i < h
      ensures HasPre(cmp, m, k, i, pre[i])
    {
      var p := LastIsPre(cmp, m, k, i);
      assert IsPre(cmp, m, k, i, pre[i], p);
    }
  }

  // Whenever no insertion is under way one can begin, for every key, height and
  // new node: the predecessors it needs are there to be found.
  lemma {:induction false} CanBegin<K(!new)>(cmp: (K, K) -> int, s: State<K>, k: K, node: Ptr, row: seq<Ptr>)
      returns (pre: seq<Ptr>, s': State<K>)
    requires Inv(cmp, s) && s.memory.writer.Idle?
    requires node.Ref? && node !in s.memory.rows && node !in s.memory.keys && node !in s.memory.order
    requires 1 <= |row| <= |s.memory.rows[HEAD]|
    ensures Next(cmp, s, LBegin(k, node, row, pre), s') && Inv(cmp, s')
  {
    hide Exact, Sorted, ReadersOk, HasPre, LastTaller, LowerBound, PublishedWritten;
    var m := s.memory;
    var b := LowerBound(cmp, KeySeq(m.order, m.keys), k);
    pre := PreExist(cmp, m, k, |row|);
    var m' := m.(keys := m.keys[node := k], rows := m.rows[node := row],
                 maxHeight := if |row| > m.maxHeight then |row| else m.maxHeight,
                 writer := Linking(node, pre, |row|, 0, false),
                 order := InsertAt(m.order, b + 1, node), linked := InsertAt(m.linked, b + 1, 0), at := b + 1);
    s' := State(m', s.readers);
    NextKeeps(cmp, s, LBegin(k, node, row, pre), s');
  }

  // A search can begin in every state, and its next load is always possible.
  lemma {:induction false} CanSearch<K(!new)>(cmp: (K, K) -> int, s: State<K>, i: nat, kind: Search, target: K) returns (step: Label<K>, s': State<K>)
    requires Inv(cmp, s) && (i in s.readers ==> s.readers[i].Reading?)
    ensures Next(cmp, s, step, s') && step == if i in s.readers then LReadStep(i) else LReadStart(i, kind, target)
  {
    hide Exact, Sorted, ReadersOk, WriterOk, ReadNext;
    if i in s.readers {
      ReadIsSafe(cmp, s, i);
      step := LReadStep(i);
      s' := s.(readers := s.readers[i := ReadNext(cmp, s.memory, s.readers[i])]);
    } else {
      step := LReadStart(i, kind, target);
      s' := s.(readers := s.readers[i := Reading(kind, target, HEAD, s.memory.maxHeight - 1)]);
    }
  }

  // An insertion under way is never stuck.
  lemma {:induction false} CanLink<K(!new)>(cmp: (K, K) -> int, s: State<K>) returns (step: Label<K>, s': State<K>)
    requires Inv(cmp, s) && s.memory.writer.Linking?
    ensures (step.LStoreOwn? || step.LPublish?) && Next(cmp, s, step, s') && Inv(cmp, s')
  {
    hide Exact, Sorted, ReadersOk;
    var m := s.memory;
    var Linking(node, pre, height, level, stored) := m.writer;
    var p := LastTaller(m.linked, m.at - 1, level);
    assert m.order[p] in m.rows && level < m.linked[p] <= |m.rows[m.order[p]]|;
    if stored {
      step := LPublish;
      s' := s.(memory := m.(rows := m.rows[pre[level] := m.rows[pre[level]][level := node]],
                            writer := if level + 1 == height then Idle else Linking(node, pre, height, level + 1, false),
                            written := m.written + {(pre[level], level)},
                            linked := m.linked[m.at := level + 1]));
    } else {
      step := LStoreOwn;
      s' := s.(memory := m.(rows := m.rows[node := m.rows[node][level := m.rows[pre[level]][level]]],
                            writer := m.writer.(stored := true),
                            written := m.written + {(node, level)}));
    }
    NextKeeps(cmp, s, step, s');
  }

  lemma {:induction false} ReadStartKeeps<K(!new)>(cmp: (K, K) -> int, s: State<K>, s': State<K>, i: nat,
                                                   kind: Search, target: K)
    requires Inv(cmp, s) && ReadStart(s, s', i, kind, target)
    ensures ReadersOk(cmp, s')
  {
    forall j | j in s'.readers && s'.readers[j].Reading?
      ensures exists p: nat :: StandsAt(cmp, s'.memory, s'.readers[j], p)
    {
      if j == i {
        assert StandsAt(cmp, s'.memory, s'.readers[i], 0);
      } else {
        var p: nat :| StandsAt(cmp, s.memory, s.readers[j], p);
        assert StandsAt(cmp, s'.memory, s'.readers[j], p);
      }
    }
  }

  lemma {:induction false} ReadStepKeeps<K(!new)>(cmp: (K, K) -> int, s: State<K>, s': State<K>, i: nat)
    requires Inv(cmp, s) && ReadStep(cmp, s, s', i)
    ensures ReadersOk(cmp, s')
  {
    forall j | j in s'.readers && s'.readers[j].Reading?
      ensures exists p: nat :: StandsAt(cmp, s'.memory, s'.readers[j], p)
    {
      var p: nat :| StandsAt(cmp, s.memory, s.readers[j], p);
      if j == i {
        ReadNextOk(cmp, s.memory, s.readers[i], p);
      }
    }
  }

  // ----- Runs -----

  // An empty list whose head links are all null.
  ghost predicate Init<K>(s: State<K>) {
    var m := s.memory;
    && m.order == [HEAD] && HEAD in m.rows && HEAD in m.keys
    && 1 <= |m.rows[HEAD]| && (forall l :: 0 <= l < |m.rows[HEAD]| ==> m.rows[HEAD][l] == Null)
    && m.linked == [|m.rows[HEAD]|] && m.maxHeight == 1
    && m.writer == Idle && s.readers == map[]
    && (forall l: nat :: l < |m.rows[HEAD]| ==> (HEAD, l) in m.written)
  }

  // There is an empty list of every height.
  lemma {:induction false} CanStart<K>(limit: nat, key: K) returns (s: State<K>)
    requires limit >= 1
    ensures Init(s) && |s.memory.rows[HEAD]| == limit
  {
    var rows := map[HEAD := seq(limit, _ => Null)];
    var written := set l | 0 <= l < limit :: (HEAD, l);
    s := State(Memory(map[HEAD := key], rows, 1, Idle, [HEAD], [limit], 0, written), map[]);
  }

  lemma {:induction false} InitInv<K(!new)>(cmp: (K, K) -> int, s: State<K>)
    requires IsOrder(cmp) && Init(s)
    ensures Inv(cmp, s)
  {
    var m := s.memory;
    var next := Rows(m.order, m.rows);
    forall l: nat
      ensures LevelExact(m.order, Null, next, m.linked, l)
    {
      assert next[0] == m.rows[HEAD];
    }
  }

  ghost predicate IsRun<K>(cmp: (K, K) -> int, states: seq<State<K>>, steps: seq<Label<K>>) {
    && |states| == |steps| + 1 && Init(states[0])
    && forall n {:trigger steps[n]} :: 0 <= n < |steps| ==> Next(cmp, states[n], steps[n], states[n + 1])
  }

  lemma {:induction false} RunInv<K(!new)>(cmp: (K, K) -> int, states: seq<State<K>>, steps: seq<Label<K>>, n: nat)
    requires IsOrder(cmp) && IsRun(cmp, states, steps) && n <= |steps|
    ensures Inv(cmp, states[n])
  {
    if n == 0 {
      InitInv(cmp, states[0]);
    } else {
      RunInv(cmp, states, steps, n - 1);
      NextKeeps(cmp, states[n - 1], steps[n - 1], states[n]);
    }
  }

  // In every state of every run, in the middle of any insertion, each level is
  // a sorted chain of links through a sublist of the level below.
  lemma {:induction false} RunLevels<K(!new)>(cmp: (K, K) -> int, states: seq<State<K>>, steps: seq<Label<K>>, n: nat, l: nat)
    requires IsOrder(cmp) && IsRun(cmp, states, steps) && n <= |steps|
    ensures var m := states[n].memory;
      && m.order != [] && (forall p :: 1 <= p < |m.order| ==> m.order[p] in m.keys)
      && Sorted(cmp, KeySeq(m.order, m.keys))
      && IsChain(m.order, Null, Rows(m.order, m.rows), Level(m.linked, l), l)
      && (forall p :: p in Level(m.linked, l + 1) ==> p in Level(m.linked, l))
  {
    RunInv(cmp, states, steps, n);
    var m := states[n].memory;
    assert LevelExact(m.order, Null, Rows(m.order, m.rows), m.linked, l);
    LevelIsChain(m.order, Null, Rows(m.order, m.rows), m.linked, l);
    LevelNested(m.linked, l);
  }

  // The search i of a state was started in the run, once, with its kind and key.
  ghost predicate StartedAs<K>(steps: seq<Label<K>>, n: nat, i: nat, r: Reader<K>)
    requires n <= |steps|
  {
    && (exists m :: 0 <= m < n && steps[m] == LReadStart(i, r.kind, r.target))
    && forall m :: 0 <= m < n && steps[m].LReadStart? && steps[m].i == i ==> steps[m] == LReadStart(i, r.kind, r.target)
  }

  lemma {:induction false} RunStarted<K(!new)>(cmp: (K, K) -> int, states: seq<State<K>>, steps: seq<Label<K>>, n: nat, i: nat)
    requires IsRun(cmp, states, steps) && n <= |steps|
    ensures if i in states[n].readers then StartedAs(steps, n, i, states[n].readers[i])
            else forall m :: 0 <= m < n ==> !(steps[m].LReadStart? && steps[m].i == i)
  {
    if n > 0 {
      RunStarted(cmp, states, steps, n - 1, i);
      assert Next(cmp, states[n - 1], steps[n - 1], states[n]);
      if i in states[n].readers {
        var r := states[n].readers[i];
        var m := if i in states[n - 1].readers then var m :| 0 <= m < n - 1 && steps[m] == LReadStart(i, r.kind, r.target); m else n - 1;
        assert steps[m] == LReadStart(i, r.kind, r.target);
      }
    }
  }

  // Every load of a search in a run reads a written slot. The search answers for
  // the kind and key it was started with and for the state of its last load:
  // FindLessThan with the lower bound of the keys it can see, FindEqual with the
  // upper bound.
  lemma {:induction false} RunSearch<K(!new)>(cmp: (K, K) -> int, states: seq<State<K>>, steps: seq<Label<K>>, n: nat, i: nat)
    requires IsOrder(cmp) && IsRun(cmp, states, steps) && n < |steps| && steps[n] == LReadStep(i)
    ensures i in states[n].readers && states[n].readers[i].Reading? && i in states[n + 1].readers
    ensures var r := states[n].readers[i]; (r.node, r.level) in states[n].memory.written
    ensures StartedAs(steps, n, i, states[n + 1].readers[i])
    ensures MemInv(cmp, states[n].memory)
    ensures var r, m := states[n + 1].readers[i], states[n].memory;
      r.Done? ==>
        && (exists p: nat :: Answers(cmp, m, r.kind, r.target, r.node, p))
        && AtBound(cmp, m, r.kind, r.target, r.node)
  {
    hide Answers, Exact, Sorted, Begin, StoreOwn, Publish, WriterOk;
    var s, s' := states[n], states[n + 1];
    RunInv(cmp, states, steps, n);
    RunStarted(cmp, states, steps, n, i);
    assert Next(cmp, s, steps[n], s');
    assert ReadStep(cmp, s, s', i);
    ReadIsSafe(cmp, s, i);
    if s'.readers[i].Done? {
      SearchIsCorrect(cmp, s, s', i);
      var r := s'.readers[i];
      var p: nat :| Answers(cmp, s.memory, r.kind, r.target, r.node, p);
      AnswerAtBound(cmp, s.memory, r.kind, r.target, r.node, p);
    }
  }

  // ----- What a run inserts -----

  // The keys of the insertions begun, each put before the first that is not smaller.
  function Inserted<K>(cmp: (K, K) -> int, steps: seq<Label<K>>): (ks: seq<K>) {
    if steps == [] then []
    else
      var ks, step := Inserted(cmp, steps[..|steps| - 1]), steps[|steps| - 1];
      if step.LBegin? then InsertAt(ks, LowerBound(cmp, ks, step.k), step.k) else ks
  }

  lemma {:induction false} NextKeys<K(!new)>(cmp: (K, K) -> int, s: State<K>, step: Label<K>, s': State<K>)
    requires Inv(cmp, s) && Next(cmp, s, step, s') && Inv(cmp, s')
    ensures var ks := KeySeq(s.memory.order, s.memory.keys);
      KeySeq(s'.memory.order, s'.memory.keys) == if step.LBegin? then InsertAt(ks, LowerBound(cmp, ks, step.k), step.k) else ks
  {
    hide Exact, Sorted, WriterOk, PublishedWritten, ReadersOk, LowerBound;
    var m, m' := s.memory, s'.memory;
    if step.LBegin? {
      BeginKeys(m, m', LowerBound(cmp, KeySeq(m.order, m.keys), step.k) + 1, step.node, step.k);
    }
  }

  // In every state of every run the list holds exactly the keys of the
  // insertions begun so far, in order and newer before older among equal ones.
  // Unless one of them is under way all of them are visible at all their levels;
  // otherwise all others are.
  lemma {:induction false} RunInserts<K(!new)>(cmp: (K, K) -> int, states: seq<State<K>>, steps: seq<Label<K>>, n: nat)
    requires IsOrder(cmp) && IsRun(cmp, states, steps) && n <= |steps|
    ensures var m := states[n].memory;
      && m.order != [] && |m.linked| == |m.order| && (forall p :: 1 <= p < |m.order| ==> m.order[p] in m.keys)
      && KeySeq(m.order, m.keys) == Inserted(cmp, steps[..n])
      && forall p :: 1 <= p < |m.order| && (m.writer.Linking? ==> m.order[p] != m.writer.node) ==> Whole(m, p)
  {
    hide Exact, Sorted, PublishedWritten, ReadersOk, Next, LowerBound;
    RunInv(cmp, states, steps, n);
    if n == 0 {
      assert steps[..0] == [];
    } else {
      RunInserts(cmp, states, steps, n - 1);
      RunInv(cmp, states, steps, n - 1);
      assert steps[..n][..n - 1] == steps[..n - 1];
      NextKeys(cmp, states[n - 1], steps[n - 1], states[n]);
    }
  }
}

// SDKIterator of src/cmd/sdk_iterator.h: merges the records of several responses,
// newest first, up to a limit.

module SdkIterators {
  import opened Bytes
  import opened KvIterators

  // ----- The merge of lists of records -----

  type Lists = seq<seq<Rec>>

  // How far each list has been consumed.
  predicate PosOk(srcs: Lists, pos: seq<nat>) {
    |pos| == |srcs| && forall s :: 0 <= s < |srcs| ==> pos[s] <= |srcs[s]|
  }

  ghost predicate DescendingLists(srcs: Lists) {
    forall s, j, k :: 0 <= s < |srcs| && 0 <= j <= k < |srcs[s]| ==> srcs[s][j].time >= srcs[s][k].time
  }

  // The time of the next record; zero stands for the end of the list as well.
  function HeadTime(srcs: Lists, pos: seq<nat>, s: nat): nat
    requires PosOk(srcs, pos) && s < |srcs|
  {
    if pos[s] < |srcs[s]| then srcs[s][pos[s]].time else 0
  }

  // s has the newest next record, and is the first list that has.
  predicate IsBest(srcs: Lists, pos: seq<nat>, s: nat)
    requires PosOk(srcs, pos)
  {
    && s < |srcs| && HeadTime(srcs, pos, s) > 0
    && (forall q :: 0 <= q < |srcs| ==> HeadTime(srcs, pos, q) <= HeadTime(srcs, pos, s))
    && (forall q :: 0 <= q < s ==> HeadTime(srcs, pos, q) < HeadTime(srcs, pos, s))
  }

  // The first of the first n lists with the newest next record.
  function Best(srcs: Lists, pos: seq<nat>, n: nat): (b: Option<nat>)
    requires PosOk(srcs, pos) && n <= |srcs|
    ensures b.None? ==> forall q :: 0 <= q < n ==> HeadTime(srcs, pos, q) == 0
    ensures b.Some? ==>
      && b.value < n && HeadTime(srcs, pos, b.value) > 0
      && (forall q :: 0 <= q < n ==> HeadTime(srcs, pos, q) <= HeadTime(srcs, pos, b.value))
      && (forall q :: 0 <= q < b.value ==> HeadTime(srcs, pos, q) < HeadTime(srcs, pos, b.value))
  {
    if n == 0 then None else
      var b := Best(srcs, pos, n - 1);
      if HeadTime(srcs, pos, n - 1) > 0 && (b.None? || HeadTime(srcs, pos, n - 1) > HeadTime(srcs, pos, b.value)) then Some(n - 1) else b
  }

  // Records not yet consumed in the first n lists.
  function Left(srcs: Lists, pos: seq<nat>, n: nat): nat
    requires PosOk(srcs, pos) && n <= |srcs|
  {
    if n == 0 then 0 else Left(srcs, pos, n - 1) + (|srcs[n - 1]| - pos[n - 1])
  }

  lemma {:induction false} LeftStep(srcs: Lists, pos: seq<nat>, s: nat, n: nat)
    requires PosOk(srcs, pos) && s < |srcs| && pos[s] < |srcs[s]| && n <= |srcs|
    ensures PosOk(srcs, pos[s := pos[s] + 1])
    ensures Left(srcs, pos[s := pos[s] + 1], n) == Left(srcs, pos, n) - if s < n then 1 else 0
  {
    if n > 0 {
      LeftStep(srcs, pos, s, n - 1);
    }
  }

  // Always the best next record, as (list, index) pairs.
  ghost function Merge(srcs: Lists, pos: seq<nat>): seq<(nat, nat)>
    requires PosOk(srcs, pos)
    decreases Left(srcs, pos, |srcs|)
  {
    var b := Best(srcs, pos, |srcs|);
    if b.None? then [] else
      LeftStep(srcs, pos, b.value, |srcs|);
      [(b.value, pos[b.value])] + Merge(srcs, pos[b.value := pos[b.value] + 1])
  }

  ghost predicate Within(srcs: Lists, e: (nat, nat)) {
    e.0 < |srcs| && e.1 < |srcs[e.0]|
  }

  // Newer first; records of the same time in the order of the lists.
  ghost predicate Precedes(srcs: Lists, a: (nat, nat), b: (nat, nat)) {
    && Within(srcs, a) && Within(srcs, b)
    && var s, t := srcs[a.0][a.1].time, srcs[b.0][b.1].time;
       s > t || (s == t && (a.0 < b.0 || (a.0 == b.0 && a.1 < b.1)))
  }

  // A record that Merge still has to deliver.
  ghost predicate Due(srcs: Lists, pos: seq<nat>, e: (nat, nat)) {
    |pos| == |srcs| && Within(srcs, e) && pos[e.0] <= e.1 && srcs[e.0][e.1].time > 0
  }

  // Merge delivers exactly the records with a time above zero ...
  lemma {:induction false} MergeMembers(srcs: Lists, pos: seq<nat>, e: (nat, nat))
    requires PosOk(srcs, pos) && DescendingLists(srcs)
    ensures e in Merge(srcs, pos) <==> Due(srcs, pos, e)
    decreases Left(srcs, pos, |srcs|)
  {
    var b := Best(srcs, pos, |srcs|);
    if b.None? {
      if Within(srcs, e) && pos[e.0] <= e.1 {
        assert HeadTime(srcs, pos, e.0) == 0;
      }
    } else {
      LeftStep(srcs, pos, b.value, |srcs|);
      MergeMembers(srcs, pos[b.value := pos[b.value] + 1], e);
    }
  }

  // ... in order, so each once.
  lemma {:induction false} MergeSorted(srcs: Lists, pos: seq<nat>, i: nat, j: nat)
    requires PosOk(srcs, pos) && DescendingLists(srcs) && i < j < |Merge(srcs, pos)|
    ensures Precedes(srcs, Merge(srcs, pos)[i], Merge(srcs, pos)[j])
    decreases Left(srcs, pos, |srcs|)
  {
    var b := Best(srcs, pos, |srcs|);
    LeftStep(srcs, pos, b.value, |srcs|);
    var pos' := pos[b.value := pos[b.value] + 1];
    if i > 0 {
      MergeSorted(srcs, pos', i - 1, j - 1);
    } else {
      var e := Merge(srcs, pos)[j];
      assert e == Merge(srcs, pos')[j - 1];
      MergeMembers(srcs, pos', e);
      HeadPrecedes(srcs, pos, b.value, e);
    }
  }

  lemma {:induction false} HeadPrecedes(srcs: Lists, pos: seq<nat>, b: nat, e: (nat, nat))
    requires PosOk(srcs, pos) && DescendingLists(srcs) && IsBest(srcs, pos, b)
    requires Due(srcs, pos[b := pos[b] + 1], e)
    ensures Precedes(srcs, (b, pos[b]), e)
  {
    assert HeadTime(srcs, pos, e.0) <= HeadTime(srcs, pos, b);
    assert srcs[e.0][pos[e.0]].time >= srcs[e.0][e.1].time;
  }

  ghost predicate AllPositive(srcs: Lists, pos: seq<nat>)
    requires PosOk(srcs, pos)
  {
    forall s, k {:trigger srcs[s][k]} :: 0 <= s < |srcs| && pos[s] <= k < |srcs[s]| ==> srcs[s][k].time > 0
  }

  lemma {:induction false} NothingLeft(srcs: Lists, pos: seq<nat>, n: nat)
    requires PosOk(srcs, pos) && n <= |srcs|
    ensures Left(srcs, pos, n) == 0 <==> forall s :: 0 <= s < n ==> pos[s] == |srcs[s]|
  {
    if n > 0 {
      NothingLeft(srcs, pos, n - 1);
    }
  }

  // Nothing is left behind if and only if no record has time zero.
  lemma {:induction false} MergeComplete(srcs: Lists, pos: seq<nat>)
    requires PosOk(srcs, pos)
    ensures |Merge(srcs, pos)| == Left(srcs, pos, |srcs|) <==> AllPositive(srcs, pos)
    decreases Left(srcs, pos, |srcs|)
  {
    var b := Best(srcs, pos, |srcs|);
    if b.None? {
      NothingLeft(srcs, pos, |srcs|);
      assert forall s :: 0 <= s < |srcs| && pos[s] < |srcs[s]| ==> HeadTime(srcs, pos, s) == 0;
    } else {
      hide AllPositive, Best;
      LeftStep(srcs, pos, b.value, |srcs|);
      MergeComplete(srcs, pos[b.value := pos[b.value] + 1]);
      PositiveStep(srcs, pos, b.value);
    }
  }

  // One list, newest first, whose last record has time zero: that record is
  // never delivered.
  lemma {:induction false} ZeroTimeIsLost() returns (srcs: Lists)
    ensures |srcs| == 1 && |srcs[0]| == 2 && DescendingLists(srcs)
    ensures Left(srcs, [0], 1) == 2 && Merge(srcs, [0]) == [(0, 0)]
  {
    var newest, oldest := Rec(5, [], []), Rec(0, [], []);
    srcs := [[newest, oldest]];
    assert HeadTime(srcs, [0], 0) == 5 && HeadTime(srcs, [1], 0) == 0;
    assert Left(srcs, [0], 0) == 0 && Best(srcs, [0], 0) == None && Best(srcs, [1], 0) == None;
    LeftStep(srcs, [0], 0, 1);
    assert [0][0 := 1] == [1] && Merge(srcs, [1]) == [];
  }

  lemma {:induction false} PositiveStep(srcs: Lists, pos: seq<nat>, b: nat)
    requires PosOk(srcs, pos) && b < |srcs| && HeadTime(srcs, pos, b) > 0
    ensures PosOk(srcs, pos[b := pos[b] + 1])
    ensures AllPositive(srcs, pos) <==> AllPositive(srcs, pos[b := pos[b] + 1])
  {
    assert srcs[b][pos[b]].time > 0;
  }

  lemma {:induction false} BestUnique(srcs: Lists, pos: seq<nat>, s: nat)
    requires PosOk(srcs, pos) && IsBest(srcs, pos, s)
    ensures Best(srcs, pos, |srcs|) == Some(s)
  {
    var b := Best(srcs, pos, |srcs|);
    assert HeadTime(srcs, pos, s) > 0;
  }

  // ----- The iterator -----

  // Entry j of the vector is source ids[j], or null if that one is used up; no
  // source with records left is missing.
  ghost predicate Tracks(sources: seq<KvIterator?>, vec: seq<KvIterator?>, ids: seq<nat>, srcs: Lists, pos: seq<nat>)
    requires PosOk(srcs, pos) && |sources| == |srcs|
  {
    && |ids| == |vec| && (forall j :: 0 <= j < |ids| ==> ids[j] < |srcs|)
    && (forall j, k :: 0 <= j < k < |ids| ==> ids[j] < ids[k])
    && (forall j :: 0 <= j < |vec| ==> vec[j] == null || vec[j] == sources[ids[j]])
    && (forall s :: 0 <= s < |srcs| && pos[s] < |srcs[s]| ==> Present(vec, ids, s))
  }

  // Entry j has an iterator with a record, or is empty.
  ghost predicate LiveAt(vec: seq<KvIterator?>, ids: seq<nat>, srcs: Lists, pos: seq<nat>, j: nat) {
    j < |vec| && j < |ids| && ids[j] < |srcs| && ids[j] < |pos| && (vec[j] != null ==> pos[ids[j]] < |srcs[ids[j]]|)
  }

  ghost predicate LiveTo(vec: seq<KvIterator?>, ids: seq<nat>, srcs: Lists, pos: seq<nat>, n: nat) {
    forall j :: 0 <= j < n ==> LiveAt(vec, ids, srcs, pos, j)
  }

  ghost predicate AllLive(vec: seq<KvIterator?>, ids: seq<nat>, srcs: Lists, pos: seq<nat>) {
    LiveTo(vec, ids, srcs, pos, |vec|)
  }

  // Entry j was looked at, and given up exactly if it was not live.
  lemma LiveNext(vec: seq<KvIterator?>, vec': seq<KvIterator?>, before: seq<KvIterator?>, ids: seq<nat>, srcs: Lists, pos: seq<nat>, j: nat, dropped: bool)
    requires j < |vec| == |vec'| == |ids| == |before| && |pos| == |srcs| && (forall q :: 0 <= q < |ids| ==> ids[q] < |srcs|)
    requires LiveTo(vec, ids, srcs, pos, j) && vec' == (if dropped then vec[j := null] else vec) && vec[j] == before[j]
    requires dropped <==> !LiveAt(vec, ids, srcs, pos, j)
    ensures LiveTo(vec', ids, srcs, pos, j + 1)
    ensures dropped ==> !AllLive(before, ids, srcs, pos)
  {
    forall q | 0 <= q < j
      ensures LiveAt(vec', ids, srcs, pos, q)
    {
      assert LiveAt(vec, ids, srcs, pos, q);
    }
    assert LiveAt(before, ids, srcs, pos, j) <==> LiveAt(vec, ids, srcs, pos, j);
  }

  lemma LiveMore(vec: seq<KvIterator?>, ids: seq<nat>, some: seq<KvIterator?>, someIds: seq<nat>, srcs: Lists, pos: seq<nat>, i: nat)
    requires i < |vec| == |ids| && |some| == |someIds|
    ensures AllLive(vec, ids, srcs, pos) && AllLive(some, someIds, srcs, pos) ==> AllLive(some + [vec[i]], someIds + [ids[i]], srcs, pos)
  {
    if AllLive(vec, ids, srcs, pos) && AllLive(some, someIds, srcs, pos) {
      assert LiveAt(vec, ids, srcs, pos, i);
      forall j | 0 <= j <= |some|
        ensures LiveAt(some + [vec[i]], someIds + [ids[i]], srcs, pos, j)
      {
        assert j < |some| ==> LiveAt(some, someIds, srcs, pos, j);
      }
    }
  }

  lemma LiveNone(vec: seq<KvIterator?>, ids: seq<nat>, srcs: Lists, pos: seq<nat>)
    ensures LiveTo(vec, ids, srcs, pos, 0)
  {
  }

  lemma LiveAll(vec: seq<KvIterator?>, ids: seq<nat>, srcs: Lists, pos: seq<nat>)
    requires LiveTo(vec, ids, srcs, pos, |vec|)
    ensures AllLive(vec, ids, srcs, pos)
  {
  }

  ghost predicate Present(vec: seq<KvIterator?>, ids: seq<nat>, s: nat)
    requires |ids| == |vec|
  {
    exists j :: 0 <= j < |ids| && ids[j] == s && vec[j] != null
  }

  // A null entry stands for a source without records.
  lemma {:induction false} NullIsUsedUp(sources: seq<KvIterator?>, vec: seq<KvIterator?>, ids: seq<nat>, srcs: Lists, pos: seq<nat>, j: nat)
    requires PosOk(srcs, pos) && |sources| == |srcs| && Tracks(sources, vec, ids, srcs, pos) && j < |vec| && vec[j] == null
    ensures HeadTime(srcs, pos, ids[j]) == 0
  {
    assert forall k :: 0 <= k < |ids| && ids[k] == ids[j] ==> k == j;
    assert !Present(vec, ids, ids[j]);
  }

  lemma {:induction false} TracksReset(sources: seq<KvIterator?>, vec: seq<KvIterator?>, ids: seq<nat>, srcs: Lists, pos: seq<nat>, j: nat)
    requires PosOk(srcs, pos) && |sources| == |srcs| && Tracks(sources, vec, ids, srcs, pos)
    requires j < |vec| && pos[ids[j]] == |srcs[ids[j]]|
    ensures Tracks(sources, vec[j := null], ids, srcs, pos)
  {
    forall s | 0 <= s < |srcs| && pos[s] < |srcs[s]|
      ensures Present(vec[j := null], ids, s)
    {
      assert Present(vec, ids, s);
      var k :| 0 <= k < |ids| && ids[k] == s && vec[k] != null;
      assert k != j && vec[j := null][k] != null;
    }
  }

  // The newest entry of the vector, first of its kind, is the best source.
  lemma {:induction false} NewestIsBest(sources: seq<KvIterator?>, vec: seq<KvIterator?>, ids: seq<nat>, srcs: Lists, pos: seq<nat>, b: nat)
    requires PosOk(srcs, pos) && |sources| == |srcs| && Tracks(sources, vec, ids, srcs, pos)
    requires b < |ids| && HeadTime(srcs, pos, ids[b]) > 0
    requires forall q :: 0 <= q < |ids| ==> HeadTime(srcs, pos, ids[q]) <= HeadTime(srcs, pos, ids[b])
    requires forall q :: 0 <= q < b ==> HeadTime(srcs, pos, ids[q]) < HeadTime(srcs, pos, ids[b])
    ensures Best(srcs, pos, |srcs|) == Some(ids[b])
  {
    forall s | 0 <= s < |srcs|
      ensures HeadTime(srcs, pos, s) <= HeadTime(srcs, pos, ids[b])
      ensures s < ids[b] ==> HeadTime(srcs, pos, s) < HeadTime(srcs, pos, ids[b])
    {
      if pos[s] < |srcs[s]| {
        assert Present(vec, ids, s);
        var k :| 0 <= k < |ids| && ids[k] == s && vec[k] != null;
        assert k < b || k >= b;
      }
    }
    BestUnique(srcs, pos, ids[b]);
  }

  lemma {:induction false} NoneLeft(sources: seq<KvIterator?>, vec: seq<KvIterator?>, ids: seq<nat>, srcs: Lists, pos: seq<nat>)
    requires PosOk(srcs, pos) && |sources| == |srcs| && Tracks(sources, vec, ids, srcs, pos)
    requires forall q :: 0 <= q < |ids| ==> HeadTime(srcs, pos, ids[q]) == 0
    ensures Best(srcs, pos, |srcs|) == None
  {
    forall s | 0 <= s < |srcs|
      ensures HeadTime(srcs, pos, s) == 0
    {
      if pos[s] < |srcs[s]| {
        assert Present(vec, ids, s);
        var k :| 0 <= k < |ids| && ids[k] == s && vec[k] != null;
      }
    }
  }

  // erase(remove_if(...)): the entries that are not null, in order.
  method Erase(vec: seq<KvIterator?>, ghost ids: seq<nat>, ghost sources: seq<KvIterator?>, ghost srcs: Lists, ghost pos: seq<nat>)
    returns (vec': seq<KvIterator?>, ghost ids': seq<nat>)
    requires PosOk(srcs, pos) && |sources| == |srcs| && Tracks(sources, vec, ids, srcs, pos)
    ensures Tracks(sources, vec', ids', srcs, pos) && null !in vec'
    ensures AllLive(vec, ids, srcs, pos) ==> AllLive(vec', ids', srcs, pos)
  {
    hide AllLive;
    vec', ids' := [], [];
    LiveAll(vec', ids', srcs, pos);
    var i := 0;
    while i < |vec|
      invariant 0 <= i <= |vec| && |ids'| == |vec'| && null !in vec'
      invariant forall j :: 0 <= j < |ids'| ==> ids'[j] < |srcs| && vec'[j] == sources[ids'[j]]
      invariant forall j, k :: 0 <= j < k < |ids'| ==> ids'[j] < ids'[k]
      invariant forall j :: 0 <= j < |ids'| && i < |ids| ==> ids'[j] < ids[i]
      invariant forall k :: 0 <= k < i && vec[k] != null ==> Present(vec', ids', ids[k])
      invariant AllLive(vec, ids, srcs, pos) ==> AllLive(vec', ids', srcs, pos)
    {
      if vec[i] != null {
        LiveMore(vec, ids, vec', ids', srcs, pos, i);
        ghost var was, wasIds := vec', ids';
        vec' := vec' + [vec[i]];
        ids' := ids' + [ids[i]];
        PresentMore(was, wasIds, vec[i], ids[i]);
      }
      i := i + 1;
    }
    forall s | 0 <= s < |srcs| && pos[s] < |srcs[s]|
      ensures Present(vec', ids', s)
    {
      assert Present(vec, ids, s);
    }
  }

  lemma {:induction false} PresentMore(vec: seq<KvIterator?>, ids: seq<nat>, it: KvIterator?, id: nat)
    requires |ids| == |vec| && it != null
    ensures forall s :: Present(vec, ids, s) ==> Present(vec + [it], ids + [id], s)
    ensures Present(vec + [it], ids + [id], id)
  {
    forall s | Present(vec, ids, s)
      ensures Present(vec + [it], ids + [id], s)
    {
      var j :| 0 <= j < |ids| && ids[j] == s && vec[j] != null;
      assert (ids + [id])[j] == s && (vec + [it])[j] != null;
    }
    assert (ids + [id])[|ids|] == id && (vec + [it])[|ids|] != null;
  }

  lemma {:induction false} TracksStep(sources: seq<KvIterator?>, vec: seq<KvIterator?>, ids: seq<nat>, srcs: Lists, pos: seq<nat>, s: nat)
    requires PosOk(srcs, pos) && |sources| == |srcs| && Tracks(sources, vec, ids, srcs, pos) && s < |srcs| && pos[s] < |srcs[s]|
    ensures Tracks(sources, vec, ids, srcs, pos[s := pos[s] + 1])
  {
    forall q | 0 <= q < |srcs| && pos[s := pos[s] + 1][q] < |srcs[q]|
      ensures Present(vec, ids, q)
    {
      assert pos[q] < |srcs[q]|;
    }
  }

  ghost function AllRecs(its: seq<KvIterator?>): (r: Lists)
    ensures |r| == |its| && forall s :: 0 <= s < |its| ==> r[s] == if its[s] == null then [] else its[s].recs
  {
    seq(|its|, s requires 0 <= s < |its| => if its[s] == null then [] else its[s].recs)
  }

  ghost function AllAt(its: seq<KvIterator?>): (r: seq<nat>)
    reads its
    ensures |r| == |its| && forall s :: 0 <= s < |its| ==> r[s] == if its[s] == null then 0 else its[s].at
  {
    if its == [] then [] else AllAt(its[..|its| - 1]) + [if its[|its| - 1] == null then 0 else its[|its| - 1].at]
  }

  lemma {:induction false} TracksAll(its: seq<KvIterator?>, srcs: Lists, pos: seq<nat>)
    requires PosOk(srcs, pos) && |srcs| == |its| && forall s :: 0 <= s < |its| && its[s] == null ==> srcs[s] == []
    ensures Tracks(its, its, seq(|its|, i => i), srcs, pos)
  {
    var ids := seq(|its|, i => i);
    forall s | 0 <= s < |srcs| && pos[s] < |srcs[s]|
      ensures Present(its, ids, s)
    {
      assert ids[s] == s && its[s] != null;
    }
  }

  class SDKIterator {
    var iterVec: seq<KvIterator?>
    var curIter: KvIterator?
    const limit: nat
    var cnt: nat
    ghost const sources: seq<KvIterator?>
    ghost const srcs: Lists
    ghost var ids: seq<nat>
    ghost var pos: seq<nat>

    // Source s stands on record pos[s].
    ghost predicate SourceOk(s: nat)
      requires s < |sources| == |srcs| == |pos|
      reads this`pos, sources
    {
      if sources[s] == null then srcs[s] == [] && pos[s] == 0
      else sources[s].Inv() && sources[s].recs == srcs[s] && sources[s].at == pos[s]
    }

    ghost predicate SourcesOk()
      reads this`iterVec, this`ids, this`pos, sources
    {
      && |sources| == |srcs| && PosOk(srcs, pos)
      && (forall s, q :: 0 <= s < q < |sources| && sources[s] != null ==> sources[s] != sources[q])
      && (forall s :: 0 <= s < |sources| ==> SourceOk(s))
      && Tracks(sources, iterVec, ids, srcs, pos)
    }

    // The current iterator is the best source.
    ghost predicate Inv()
      reads this, sources
    {
      && SourcesOk()
      && var b := Best(srcs, pos, |srcs|);
         if b.None? then curIter == null else curIter != null && curIter == sources[b.value]
    }

    // What is still to come, the current record first.
    ghost function Rest(): seq<(nat, nat)>
      requires PosOk(srcs, pos)
      reads this
    {
      Merge(srcs, pos)
    }

    // Whether the iterator at entry j has a record, and its time.
    method Look(j: nat) returns (valid: bool, time: nat)
      requires SourcesOk() && j < |iterVec| && iterVec[j] != null
      ensures j < |ids| && ids[j] < |srcs| && iterVec[j] == sources[ids[j]]
      ensures valid <==> pos[ids[j]] < |srcs[ids[j]]|
      ensures valid ==> time == HeadTime(srcs, pos, ids[j])
    {
      hide Holds;
      ghost var s := ids[j];
      assert SourceOk(s);
      valid := iterVec[j].Valid();
      time := iterVec[j].time;
    }

    lemma {:induction false} Shape()
      requires SourcesOk()
      ensures |sources| == |srcs| == |pos| && PosOk(srcs, pos) && Tracks(sources, iterVec, ids, srcs, pos)
      ensures |ids| == |iterVec| && forall j :: 0 <= j < |ids| ==> ids[j] < |srcs|
    {
    }

    method ResetEntry(j: nat)
      requires SourcesOk() && j < |iterVec| && j < |ids| && ids[j] < |srcs| && pos[ids[j]] == |srcs[ids[j]]|
      modifies this`iterVec
      ensures SourcesOk() && iterVec == old(iterVec)[j := null]
    {
      hide Holds, PosOk, SourceOk;
      TracksReset(sources, iterVec, ids, srcs, pos, j);
      iterVec := iterVec[j := null];
    }

    // Among the first j entries the newest record has time maxTs, and the first
    // iterator with it, at entry b, is current.
    ghost predicate Scanned(j: nat, maxTs: nat, b: nat)
      reads this`curIter, this`ids, this`pos
    {
      && j <= |ids| && |sources| == |srcs| && PosOk(srcs, pos) && (forall q :: 0 <= q < |ids| ==> ids[q] < |srcs|)
      && (forall q :: 0 <= q < j ==> HeadTime(srcs, pos, ids[q]) <= maxTs)
      && if curIter == null then maxTs == 0 else
           && b < j && maxTs == HeadTime(srcs, pos, ids[b]) > 0 && curIter == sources[ids[b]]
           && forall q :: 0 <= q < b ==> HeadTime(srcs, pos, ids[q]) < maxTs
    }

    // Entry j: passed over, given up, or the newest so far.
    method Visit(j: nat, maxTs: nat, ghost b: nat) returns (ts: nat, dropped: bool, ghost b': nat)
      requires SourcesOk() && j < |iterVec| && Scanned(j, maxTs, b)
      modifies this`iterVec, this`curIter
      ensures SourcesOk() && Scanned(j + 1, ts, b')
      ensures dropped <==> !LiveAt(old(iterVec), ids, srcs, pos, j)
      ensures iterVec == if dropped then old(iterVec)[j := null] else old(iterVec)
    {
      hide SourcesOk, Best, HeadTime, Tracks, PosOk, Holds;
      Shape();
      ts, dropped, b' := maxTs, false, b;
      if iterVec[j] == null {
        NullIsUsedUp(sources, iterVec, ids, srcs, pos, j);
      } else {
        var valid, time := Look(j);
        if !valid {
          UsedUp(srcs, pos, ids[j]);
          dropped := true;
          ResetEntry(j);
        } else if time > maxTs {
          ts, b' := time, j;
          curIter := iterVec[j];
        }
      }
    }

    // Picks the iterator with the newest record and drops the used-up ones. The
    // list of iterators changes only if there are any, and then has no gaps.
    method Choose()
      requires SourcesOk() && curIter == null
      modifies this`iterVec, this`curIter, this`ids
      ensures Inv() && AllLive(iterVec, ids, srcs, pos)
      ensures if old(AllLive(iterVec, ids, srcs, pos)) then iterVec == old(iterVec) else null !in iterVec
    {
      hide SourcesOk, Best, HeadTime, Tracks, PosOk, LiveTo, LiveAt, AllLive, Holds;
      Shape();
      var maxTs, needDelete := 0, false;
      ghost var b := 0;
      LiveNone(iterVec, ids, srcs, pos);
      var j := 0;
      while j < |iterVec|
        invariant 0 <= j <= |iterVec| == |ids| == |old(iterVec)| && SourcesOk() && ids == old(ids) && Scanned(j, maxTs, b)
        invariant LiveTo(iterVec, ids, srcs, pos, j)
        invariant forall q :: j <= q < |ids| ==> iterVec[q] == old(iterVec)[q]
        invariant if needDelete then !old(AllLive(iterVec, ids, srcs, pos)) else iterVec == old(iterVec)
      {
        ghost var was := iterVec;
        var dropped;
        maxTs, dropped, b := Visit(j, maxTs, b);
        Shape();
        LiveNext(was, iterVec, old(iterVec), ids, srcs, pos, j, dropped);
        if dropped {
          needDelete := true;
        }
        j := j + 1;
      }
      Shape();
      LiveAll(iterVec, ids, srcs, pos);
      if curIter == null {
        NoneLeft(sources, iterVec, ids, srcs, pos);
      } else {
        NewestIsBest(sources, iterVec, ids, srcs, pos, b);
      }
      if needDelete {
        EraseNulls();
      }
    }

    // Moves the current iterator past its record.
    method Advance()
      requires Inv() && curIter != null
      modifies this`pos, this`curIter, curIter
      ensures SourcesOk() && curIter == null && Merge(srcs, old(pos)) != []
      ensures Merge(srcs, pos) == Merge(srcs, old(pos))[1..]
    {
      hide Holds, Tracks, Left;
      Shape();
      ghost var b := Best(srcs, pos, |srcs|).value;
      assert SourceOk(b);
      LeftStep(srcs, pos, b, |srcs|);
      TracksStep(sources, iterVec, ids, srcs, pos, b);
      curIter.Next();
      curIter := null;
      pos := pos[b := pos[b] + 1];
      forall s | 0 <= s < |sources|
        ensures SourceOk(s)
      {
        assert s != b ==> old(SourceOk(s));
      }
    }

    constructor (iterVec: seq<KvIterator?>, limit: nat)
      requires forall s, q :: 0 <= s < q < |iterVec| && iterVec[s] != null ==> iterVec[s] != iterVec[q]
      requires forall s :: 0 <= s < |iterVec| && iterVec[s] != null ==> iterVec[s].Inv()
      ensures Inv() && cnt == 1 && this.limit == limit
      ensures sources == iterVec && srcs == AllRecs(iterVec) && pos == AllAt(iterVec)
    {
      hide Holds, Tracks, AllLive, LiveTo, LiveAt;
      this.iterVec, this.limit, cnt, curIter := iterVec, limit, 0, null;
      sources, srcs, pos := iterVec, AllRecs(iterVec), AllAt(iterVec);
      ids := seq(|iterVec|, i => i);
      TracksAll(iterVec, AllRecs(iterVec), AllAt(iterVec));
      new;
      Choose();
      cnt := cnt + 1;
    }

    method Next()
      requires Inv()
      modifies this, sources
      ensures Inv() && cnt == old(cnt) + 1
      ensures Rest() == if old(Rest()) == [] then [] else old(Rest())[1..]
    {
      hide SourcesOk, Tracks, AllLive, LiveTo, Holds;
      Shape();
      if curIter != null {
        assert curIter in sources;
        Advance();
      }
      Choose();
      Shape();
      cnt := cnt + 1;
    }

    method Valid() returns (b: bool)
      requires Inv()
      ensures PosOk(srcs, pos) && (b <==> Rest() != [] && (limit > 0 ==> cnt <= limit))
    {
      hide Holds;
      if curIter == null {
        return false;
      }
      ghost var best := Best(srcs, pos, |srcs|).value;
      assert SourceOk(best);
      b := curIter.Valid();
      b := b && (limit > 0 ==> cnt <= limit);
    }

    // GetPK, GetKey and GetValue.
    method Current() returns (r: Rec)
      requires Inv() && Merge(srcs, pos) != []
      ensures Within(srcs, Rest()[0]) && r == srcs[Rest()[0].0][Rest()[0].1]
    {
      hide Holds;
      ghost var best := Best(srcs, pos, |srcs|).value;
      assert SourceOk(best);
      r := curIter.Current();
    }

    // Everything is delivered, in merge order, up to the limit.
    method Drain() returns (out: seq<Rec>)
      requires Inv() && cnt == 1
      modifies this, sources
      ensures |out| == if 0 < limit < |old(Rest())| then limit else |old(Rest())|
      ensures forall i :: 0 <= i < |out| ==> Within(srcs, old(Rest())[i]) && out[i] == srcs[old(Rest())[i].0][old(Rest())[i].1]
    {
      hide Inv, Merge, PosOk;
      var valid := Valid();
      ghost var all := Rest();
      out := [];
      while valid
        invariant Inv() && PosOk(srcs, pos) && |out| <= |all| && Rest() == all[|out|..] && cnt == |out| + 1
        invariant valid <==> Rest() != [] && (limit > 0 ==> cnt <= limit)
        invariant limit > 0 ==> |out| <= limit
        invariant forall i :: 0 <= i < |out| ==> Within(srcs, all[i]) && out[i] == srcs[all[i].0][all[i].1]
        decreases |all| - |out|
      {
        var r := Current();
        out := out + [r];
        Next();
        valid := Valid();
      }
    }

    method EraseNulls()
      requires SourcesOk()
      modifies this`iterVec, this`ids
      ensures SourcesOk() && null !in iterVec
      ensures old(AllLive(iterVec, ids, srcs, pos)) ==> AllLive(iterVec, ids, srcs, pos)
    {
      hide Holds, PosOk, SourceOk, Tracks;
      iterVec, ids := Erase(iterVec, ids, sources, srcs, pos);
    }
  }

  lemma UsedUp(srcs: Lists, pos: seq<nat>, s: nat)
    requires PosOk(srcs, pos) && s < |srcs| && pos[s] == |srcs[s]|
    ensures HeadTime(srcs, pos, s) == 0
  {
  }
}

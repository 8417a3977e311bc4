// Splitting a batch over tablets and putting the answers together again:
// TabletsAccessor, AsyncTableHandler and AsyncTablesHandler of
// src/catalog/client_manager.h and src/catalog/client_manager.cc.

module ScatterGather {
  import opened Bytes
  import opened RpcRows

  // ----- Positions -----

  // How many of the first n rows are assigned to accessor a.
  function Count(assign: seq<nat>, a: nat, n: nat): (c: nat)
    requires n <= |assign|
    ensures c <= n
  {
    if n == 0 then 0 else Count(assign, a, n - 1) + if assign[n - 1] == a then 1 else 0
  }

  // The positions assigned to accessor a among the first n rows, in order.
  function Positions(assign: seq<nat>, a: nat, n: nat): (ps: seq<nat>)
    requires n <= |assign|
    ensures |ps| == Count(assign, a, n)
  {
    if n == 0 then [] else Positions(assign, a, n - 1) + if assign[n - 1] == a then [n - 1] else []
  }

  // The rows at those positions.
  function Picked<T>(rows: seq<T>, assign: seq<nat>, a: nat, n: nat): (rs: seq<T>)
    requires n <= |assign| && n <= |rows|
    ensures |rs| == Count(assign, a, n)
  {
    if n == 0 then [] else Picked(rows, assign, a, n - 1) + if assign[n - 1] == a then [rows[n - 1]] else []
  }

  lemma {:induction false} CountBelow(assign: seq<nat>, a: nat, r: nat, n: nat)
    requires r < n <= |assign| && assign[r] == a
    ensures Count(assign, a, r) < Count(assign, a, n)
  {
    if r < n - 1 {
      CountBelow(assign, a, r, n - 1);
    }
  }

  // Row r is the Count-th of its accessor, in the positions and in the rows.
  lemma {:induction false} PlaceOf<T>(rows: seq<T>, assign: seq<nat>, a: nat, r: nat, n: nat)
    requires r < n <= |assign| && n <= |rows| && assign[r] == a
    ensures Count(assign, a, r) < Count(assign, a, n)
    ensures Positions(assign, a, n)[Count(assign, a, r)] == r
    ensures Picked(rows, assign, a, n)[Count(assign, a, r)] == rows[r]
  {
    CountBelow(assign, a, r, n);
    if r < n - 1 {
      CountBelow(assign, a, r, n - 1);
      PlaceOf(rows, assign, a, r, n - 1);
    }
  }

  // Position k of an accessor is a row assigned to it, the k-th one.
  lemma {:induction false} PositionIs(assign: seq<nat>, a: nat, k: nat, n: nat)
    requires n <= |assign| && k < Count(assign, a, n)
    ensures var r := Positions(assign, a, n)[k]; r < n && assign[r] == a && Count(assign, a, r) == k
  {
    if k < Count(assign, a, n - 1) {
      PositionIs(assign, a, k, n - 1);
    }
  }

  lemma {:induction false} PositionsMore(assign: seq<nat>, x: nat, a: nat, n: nat)
    requires n <= |assign|
    ensures Count(assign + [x], a, n) == Count(assign, a, n) && Positions(assign + [x], a, n) == Positions(assign, a, n)
  {
    if n > 0 {
      PositionsMore(assign, x, a, n - 1);
    }
  }

  lemma {:induction false} NoPositions(assign: seq<nat>, a: nat, n: nat)
    requires n <= |assign| && forall r :: 0 <= r < n ==> assign[r] != a
    ensures Positions(assign, a, n) == []
  {
    if n > 0 {
      NoPositions(assign, a, n - 1);
    }
  }

  // The position lists split 0 .. |assign| - 1 as the assignments say.
  ghost predicate IsSplit(assign: seq<nat>, posinfos: seq<seq<nat>>) {
    && (forall r :: 0 <= r < |assign| ==> assign[r] < |posinfos|)
    && forall a :: 0 <= a < |posinfos| ==> posinfos[a] == Positions(assign, a, |assign|) && posinfos[a] != []
  }

  lemma {:induction false} SplitMore(assign: seq<nat>, posinfos: seq<seq<nat>>, idx: nat)
    requires IsSplit(assign, posinfos) && idx < |posinfos|
    ensures IsSplit(assign + [idx], posinfos[idx := posinfos[idx] + [|assign|]])
  {
    hide Positions;
    var all, infos := assign + [idx], posinfos[idx := posinfos[idx] + [|assign|]];
    forall a | 0 <= a < |infos|
      ensures infos[a] == Positions(all, a, |all|) && infos[a] != []
    {
      PositionsMore(assign, idx, a, |assign|);
      PositionsStep(all, a, |all|);
    }
  }

  lemma {:induction false} SplitNew(assign: seq<nat>, posinfos: seq<seq<nat>>)
    requires IsSplit(assign, posinfos)
    ensures IsSplit(assign + [|posinfos|], posinfos + [[|assign|]])
  {
    hide Positions;
    var idx := |posinfos|;
    var all, infos := assign + [idx], posinfos + [[|assign|]];
    NoPositions(assign, idx, |assign|);
    forall a | 0 <= a < |infos|
      ensures infos[a] == Positions(all, a, |all|) && infos[a] != []
    {
      PositionsMore(assign, idx, a, |assign|);
      PositionsStep(all, a, |all|);
    }
  }

  lemma PositionsStep(assign: seq<nat>, a: nat, n: nat)
    requires 0 < n <= |assign|
    ensures Positions(assign, a, n) == Positions(assign, a, n - 1) + if assign[n - 1] == a then [n - 1] else []
  {
  }

  // ----- Assigning rows to tablets -----

  datatype Tablet = Tablet(name: string)

  // Every accessor is found under its name, and so no name occurs twice.
  ghost predicate IsNaming(accessors: seq<Tablet>, names: map<string, nat>) {
    && (forall a :: 0 <= a < |accessors| ==> accessors[a].name in names && names[accessors[a].name] == a)
    && (forall n :: n in names ==> names[n] < |accessors| && accessors[names[n]].name == n)
  }

  class TabletsAccessor {
    var rowsCnt: nat
    var accessors: seq<Tablet>
    var assignAccessorIdxs: seq<nat>
    var posinfos: seq<seq<nat>>
    var nameIdxMap: map<string, nat>

    ghost predicate Valid()
      reads this
    {
      && |posinfos| == |accessors| && |assignAccessorIdxs| == rowsCnt
      && IsSplit(assignAccessorIdxs, posinfos) && IsNaming(accessors, nameIdxMap)
    }

    constructor ()
      ensures Valid() && rowsCnt == 0
    {
      rowsCnt, accessors, assignAccessorIdxs, posinfos, nameIdxMap := 0, [], [], [], map[];
    }

    // The next row goes to the given tablet; a null one is ignored.
    method AddTabletAccessor(accessor: Option<Tablet>)
      requires Valid()
      modifies this
      ensures Valid()
      ensures accessor.None? ==> rowsCnt == old(rowsCnt) && assignAccessorIdxs == old(assignAccessorIdxs)
      ensures accessor.Some? ==>
        && rowsCnt == old(rowsCnt) + 1 && assignAccessorIdxs[..old(rowsCnt)] == old(assignAccessorIdxs)
        && assignAccessorIdxs[old(rowsCnt)] < |accessors|
        && accessors[assignAccessorIdxs[old(rowsCnt)]].name == accessor.value.name
      ensures old(accessors) <= accessors
    {
      hide IsSplit;
      if accessor.None? {
        return;
      }
      var name := accessor.value.name;
      if name !in nameIdxMap {
        SplitNew(assignAccessorIdxs, posinfos);
        accessors := accessors + [accessor.value];
        nameIdxMap := nameIdxMap[name := |accessors| - 1];
        posinfos := posinfos + [[rowsCnt]];
        assignAccessorIdxs := assignAccessorIdxs + [|accessors| - 1];
      } else {
        var idx := nameIdxMap[name];
        SplitMore(assignAccessorIdxs, posinfos, idx);
        posinfos := posinfos[idx := posinfos[idx] + [rowsCnt]];
        assignAccessorIdxs := assignAccessorIdxs + [idx];
      }
      rowsCnt := rowsCnt + 1;
    }

    // The scatter loop of SubQuery: each accessor gets its rows in order.
    method SplitRows(rows: seq<Row>) returns (accessorsRows: seq<seq<Row>>)
      requires Valid() && |rows| <= rowsCnt
      ensures |accessorsRows| == |accessors|
      ensures forall a :: 0 <= a < |accessors| ==> accessorsRows[a] == Picked(rows, assignAccessorIdxs, a, |rows|)
    {
      accessorsRows := seq(|accessors|, _ => []);
      var idx := 0;
      while idx < |rows|
        invariant 0 <= idx <= |rows| && |accessorsRows| == |accessors|
        invariant forall a :: 0 <= a < |accessors| ==> accessorsRows[a] == Picked(rows, assignAccessorIdxs, a, idx)
      {
        var a := assignAccessorIdxs[idx];
        accessorsRows := accessorsRows[a := accessorsRows[a] + [rows[idx]]];
        idx := idx + 1;
      }
    }

    // SubQuery of the non-common path: every tablet is asked for its own rows,
    // and each handler waits for what its tablet answers to that request.
    method SubQuery(rows: seq<Row>, respond: (nat, Request) -> Response, stale: (nat, nat) -> Word)
      returns (tables: AsyncTablesHandler, ghost requests: seq<Request>, ghost responses: seq<Response>)
      requires Valid() && |rows| <= rowsCnt
      ensures |requests| == |responses| == |accessors|
      ensures forall a :: 0 <= a < |accessors| ==> Asks(requests[a], Picked(rows, assignAccessorIdxs, a, |rows|))
      ensures forall a :: 0 <= a < |accessors| ==> responses[a] == respond(a, requests[a])
      ensures fresh(tables) && tables.IsFresh(responses, stale, |accessors|)
      ensures tables.posinfos == posinfos && tables.rowsCnt == TotalRows(posinfos, |posinfos|)
      ensures forall h :: 0 <= h < |tables.handlers| ==> fresh(tables.handlers[h])
    {
      hide Picked, IsSplit, IsNaming, Asks, Count, AsyncTablesHandler.IsFresh;
      tables := new AsyncTablesHandler();
      tables.NoneExpected(stale);
      requests, responses := [], [];
      var accessorsRows := SplitRows(rows);
      var idx := 0;
      while idx < |accessors|
        invariant 0 <= idx == |requests| == |responses| <= |accessors|
        invariant forall a :: 0 <= a < idx ==> Asks(requests[a], accessorsRows[a]) && responses[a] == respond(a, requests[a])
        invariant fresh(tables) && tables.IsFresh(responses, stale, idx)
        invariant tables.posinfos == posinfos[..idx] && tables.rowsCnt == TotalRows(posinfos, idx)
        invariant forall h :: 0 <= h < |tables.handlers| ==> fresh(tables.handlers[h])
      {
        var request := MakeRequest(accessorsRows[idx]);
        tables.Expect(respond(idx, request), stale, posinfos[idx], responses);
        requests, responses := requests + [request], responses + [respond(idx, request)];
        idx := idx + 1;
      }
    }
  }

  method MakeRequest(rows: seq<Row>) returns (request: Request)
    ensures Asks(request, rows)
  {
    hide BatchBytes, SizesOf;
    var attachment, sizes, slices := EncodeRows(rows, []);
    request := Request(sizes, slices, attachment);
  }

  // ----- One tablet's answer -----

  // What goes out to a tablet.
  datatype Request = Request(rowSizes: seq<nat>, slices: nat, attachment: seq<byte>)

  ghost predicate Asks(request: Request, rows: seq<Row>) {
    && request.attachment == BatchBytes(rows, |rows|) && SizesOf(rows, request.rowSizes)
    && (rows != [] ==> request.slices == |rows[|rows| - 1]|)
  }

  // The request is readable: its rows all have the slice count that is sent.
  ghost predicate Asked(request: Request, rows: seq<Row>) {
    rows != [] && Asks(request, rows) && Uniform(rows, request.slices) && request.slices > 0
  }

  lemma {:induction false} AskedIsSent(request: Request, rows: seq<Row>)
    requires Asked(request, rows)
    ensures SentBatch(request.attachment, 0, request.rowSizes, request.slices, rows)
  {
  }

  datatype Error = RpcError | ResponseError

  datatype Status = Running | OK | Failed(error: Error)

  // What comes back from a tablet: no controller or response at all, a failed
  // call, or an error code with rows.
  datatype Response = Response(present: bool, failed: bool, code: int, rowSizes: seq<nat>, slices: nat, attachment: seq<byte>)

  // The tablet sent exactly these rows.
  ghost predicate Answered(response: Response, sent: seq<Row>) {
    && response.present && !response.failed && response.code == 0 && sent != []
    && SentBatch(response.attachment, 0, response.rowSizes, response.slices, sent)
  }

  // The response carries these rows: no error, at least one row, and the bytes
  // hold the rows where the sizes say.
  ghost predicate Carries(response: Response, stale: (nat, nat) -> Word, rows: seq<Row>) {
    && response.present && !response.failed && response.code == 0 && |response.rowSizes| > 0
    && ReadsBatch(response.attachment, 0, response.rowSizes, response.slices, stale, rows)
  }

  ghost predicate IsGood(response: Response, stale: (nat, nat) -> Word) {
    exists rows :: Carries(response, stale, rows)
  }

  // What a tablet sent is what its response carries, and nothing else is.
  lemma {:induction false} AnsweredCarries(response: Response, stale: (nat, nat) -> Word, sent: seq<Row>, rows: seq<Row>)
    requires Answered(response, sent)
    ensures Carries(response, stale, sent)
    ensures Carries(response, stale, rows) ==> rows == sent
  {
    hide ReadsBatch;
    SentBatchReads(response.attachment, 0, response.rowSizes, response.slices, sent, stale);
    if Carries(response, stale, rows) {
      ReadsBatchUnique(response.attachment, 0, response.rowSizes, response.slices, stale, sent, rows);
    }
  }

  const SQL_RUN_ERROR: int := 1001

  class AsyncTableHandler {
    const response: Response
    const stale: (nat, nat) -> Word
    var status: Status
    var table: seq<Row>

    constructor (response: Response, stale: (nat, nat) -> Word)
      ensures this.response == response && this.stale == stale && status == Running && table == []
    {
      this.response, this.stale := response, stale;
      status, table := Running, [];
    }

    // A call that failed, a response with an error code and one whose bytes do
    // not hold its rows are refused; otherwise the table gets the rows.
    method SyncRpcResponse()
      requires table == []
      modifies this`status, this`table
      ensures status == Failed(RpcError) <==> !response.present || response.failed
      ensures status.OK? <==> IsGood(response, stale)
      ensures status == Failed(ResponseError) <==> response.present && !response.failed && !IsGood(response, stale)
      ensures status.OK? ==> Carries(response, stale, table)
    {
      hide ReadsBatch;
      if !response.present || response.failed {
        status := Failed(RpcError);
        return;
      }
      if response.code != 0 {
        status := Failed(ResponseError);
        return;
      }
      if |response.rowSizes| == 0 {
        status := Failed(ResponseError);
        return;
      }
      var ok, rows, end := DecodeRows(response.attachment, 0, response.rowSizes, response.slices, stale);
      table := rows;
      status := if ok then OK else Failed(ResponseError);
      assert ok ==> Carries(response, stale, table);
    }

    // The rows, if the answer is or becomes OK.
    method GetIterator() returns (iter: Option<seq<Row>>)
      requires status.Running? ==> table == []
      modifies this`status, this`table
      ensures iter == if status.OK? then Some(table) else None
      ensures !status.Running? && (!old(status).Running? ==> status == old(status) && table == old(table))
      ensures old(status).Running? ==> (status == Failed(RpcError) <==> !response.present || response.failed)
      ensures old(status).Running? ==> (status == Failed(ResponseError) <==> response.present && !response.failed && !IsGood(response, stale))
      ensures old(status).Running? ==> (iter.Some? <==> IsGood(response, stale))
      ensures old(status).Running? && iter.Some? ==> Carries(response, stale, iter.value)
    {
      hide Carries, IsGood;
      if status.Running? {
        SyncRpcResponse();
      }
      iter := if status.OK? then Some(table) else None;
    }
  }

  // ----- Putting the answers together -----

  // Every row assigned to one of the first h accessors is in place and was
  // written once; the others were not written.
  ghost predicate Gathered(assign: seq<nat>, tables: seq<seq<Row>>, table: seq<Row>, writes: seq<nat>) {
    && |table| == |writes| == |assign|
    && (forall r :: 0 <= r < |assign| && assign[r] < |tables| ==>
          var c := Count(assign, assign[r], r);
          c < |tables[assign[r]]| && table[r] == tables[assign[r]][c] && writes[r] == 1)
    && (forall r :: 0 <= r < |assign| && assign[r] >= |tables| ==> writes[r] == 0)
  }

  function TotalRows(posinfos: seq<seq<nat>>, k: nat): nat
    requires k <= |posinfos|
  {
    if k == 0 then 0 else TotalRows(posinfos, k - 1) + |posinfos[k - 1]|
  }

  function SumCount(assign: seq<nat>, m: nat, n: nat): nat
    requires n <= |assign|
  {
    if m == 0 then 0 else SumCount(assign, m - 1, n) + Count(assign, m - 1, n)
  }

  lemma {:induction false} SumCountStep(assign: seq<nat>, m: nat, n: nat)
    requires 0 < n <= |assign|
    ensures SumCount(assign, m, n) == SumCount(assign, m, n - 1) + if assign[n - 1] < m then 1 else 0
  {
    if m > 0 {
      SumCountStep(assign, m - 1, n);
    }
  }

  lemma {:induction false} SumCountAll(assign: seq<nat>, m: nat, n: nat)
    requires n <= |assign| && forall r :: 0 <= r < n ==> assign[r] < m
    ensures SumCount(assign, m, n) == n
  {
    if n == 0 {
      SumCountNone(assign, m);
    } else {
      SumCountAll(assign, m, n - 1);
      SumCountStep(assign, m, n);
    }
  }

  lemma {:induction false} SumCountNone(assign: seq<nat>, m: nat)
    ensures SumCount(assign, m, 0) == 0
  {
    if m > 0 {
      SumCountNone(assign, m - 1);
    }
  }

  lemma {:induction false} TotalIsSum(assign: seq<nat>, posinfos: seq<seq<nat>>, k: nat)
    requires IsSplit(assign, posinfos) && k <= |posinfos|
    ensures TotalRows(posinfos, k) == SumCount(assign, k, |assign|)
  {
    if k > 0 {
      TotalIsSum(assign, posinfos, k - 1);
    }
  }

  // The position lists have as many entries as there are rows.
  lemma {:induction false} SplitTotal(assign: seq<nat>, posinfos: seq<seq<nat>>)
    requires IsSplit(assign, posinfos)
    ensures TotalRows(posinfos, |posinfos|) == |assign|
  {
    TotalIsSum(assign, posinfos, |posinfos|);
    SumCountAll(assign, |posinfos|, |assign|);
  }

  // No two rows of an accessor have the same rank.
  lemma {:induction false} RankUnique(assign: seq<nat>, a: nat, r: nat, q: nat)
    requires r < |assign| && q < |assign| && assign[r] == a == assign[q] && Count(assign, a, r) == Count(assign, a, q)
    ensures r == q
  {
    PlaceOf(assign, assign, a, r, |assign|);
    PlaceOf(assign, assign, a, q, |assign|);
  }

  // Every row is in exactly one place of exactly one position list.
  lemma {:induction false} SplitIsPartition(assign: seq<nat>, posinfos: seq<seq<nat>>, r: nat)
    requires IsSplit(assign, posinfos) && r < |assign|
    ensures assign[r] < |posinfos| && Count(assign, assign[r], r) < |posinfos[assign[r]]|
    ensures posinfos[assign[r]][Count(assign, assign[r], r)] == r
    ensures forall a, k :: 0 <= a < |posinfos| && 0 <= k < |posinfos[a]| && posinfos[a][k] == r ==>
      a == assign[r] && k == Count(assign, assign[r], r)
  {
    PlaceOf(assign, assign, assign[r], r, |assign|);
    forall a, k | 0 <= a < |posinfos| && 0 <= k < |posinfos[a]| && posinfos[a][k] == r
      ensures a == assign[r] && k == Count(assign, assign[r], r)
    {
      PositionIs(assign, a, k, |assign|);
    }
  }

  class AsyncTablesHandler {
    var status: Status
    var rowsCnt: nat
    var posinfos: seq<seq<nat>>
    var handlers: seq<AsyncTableHandler>
    var table: seq<Row>
    // How often each position of the table was written.
    ghost var writes: seq<nat>

    constructor ()
      ensures status == Running && rowsCnt == 0 && posinfos == [] && handlers == [] && table == []
    {
      status, rowsCnt, posinfos, handlers, table, writes := Running, 0, [], [], [], [];
    }

    // The first n responses are expected and none has been looked at.
    ghost predicate IsFresh(responses: seq<Response>, stale: (nat, nat) -> Word, n: nat)
      reads this, handlers
    {
      && status.Running? && |handlers| == n <= |responses|
      && (forall h, k :: 0 <= h < k < n ==> handlers[h] != handlers[k])
      && forall h :: 0 <= h < n ==>
           && handlers[h].response == responses[h] && handlers[h].stale == stale
           && handlers[h].status.Running? && handlers[h].table == []
    }

    lemma NoneExpected(stale: (nat, nat) -> Word)
      requires status.Running? && handlers == []
      ensures IsFresh([], stale, 0)
    {
    }

    // A handler for one more response.
    method Expect(response: Response, stale: (nat, nat) -> Word, posInfo: seq<nat>, ghost responses: seq<Response>)
      requires IsFresh(responses, stale, |responses|)
      modifies this
      ensures IsFresh(responses + [response], stale, |responses| + 1)
      ensures posinfos == old(posinfos) + [posInfo] && rowsCnt == old(rowsCnt) + |posInfo|
      ensures |handlers| == |old(handlers)| + 1 && handlers[..|old(handlers)|] == old(handlers) && fresh(handlers[|old(handlers)|])
    {
      var handler := new AsyncTableHandler(response, stale);
      AddAsyncRpcHandler(handler, posInfo);
    }

    method AddAsyncRpcHandler(handler: AsyncTableHandler, posInfo: seq<nat>)
      modifies this
      ensures handlers == old(handlers) + [handler] && posinfos == old(posinfos) + [posInfo]
      ensures rowsCnt == old(rowsCnt) + |posInfo| && status == old(status) && table == old(table)
    {
      handlers := handlers + [handler];
      posinfos := posinfos + [posInfo];
      rowsCnt := rowsCnt + |posInfo|;
    }

    // The inner loop of SyncAllTableHandlers: handler h's rows go to its
    // positions.
    method StoreRows(h: nat, rows: seq<Row>, ghost assign: seq<nat>)
      requires IsSplit(assign, posinfos) && |table| == |writes| == |assign| && h < |posinfos| && |rows| == |posinfos[h]|
      modifies this`table, this`writes
      ensures |table| == |writes| == |assign|
      ensures forall r :: 0 <= r < |assign| && assign[r] == h ==>
        Count(assign, h, r) < |rows| && table[r] == rows[Count(assign, h, r)] && writes[r] == old(writes[r]) + 1
      ensures forall r :: 0 <= r < |assign| && assign[r] != h ==> table[r] == old(table[r]) && writes[r] == old(writes[r])
    {
      ghost var n := |assign|;
      var k := 0;
      while k < |rows|
        invariant 0 <= k <= |rows| && |table| == |writes| == n
        invariant forall r :: 0 <= r < n && assign[r] == h && Count(assign, h, r) < k ==>
          table[r] == rows[Count(assign, h, r)] && writes[r] == old(writes[r]) + 1
        invariant forall r :: 0 <= r < n && (assign[r] != h || Count(assign, h, r) >= k) ==>
          table[r] == old(table[r]) && writes[r] == old(writes[r])
      {
        PositionIs(assign, h, k, n);
        var pos := posinfos[h][k];
        forall r | 0 <= r < n && assign[r] == h && Count(assign, h, r) == k
          ensures r == pos
        {
          RankUnique(assign, h, r, pos);
        }
        table := table[pos := rows[k]];
        writes := writes[pos := writes[pos] + 1];
        k := k + 1;
      }
      forall r | 0 <= r < n && assign[r] == h
        ensures Count(assign, h, r) < |rows|
      {
        CountBelow(assign, h, r, n);
      }
    }

    // What handler h comes to: its status, or an error if it has not as many rows
    // as positions.
    ghost function Verdict(h: nat): Status
      requires h < |handlers| && h < |posinfos|
      reads this, handlers
    {
      var r, st := handlers[h].response, handlers[h].status;
      if st.Running? then
        if !r.present || r.failed then Failed(RpcError)
        else if IsGood(r, handlers[h].stale) && |r.rowSizes| == |posinfos[h]| then OK
        else Failed(ResponseError)
      else if st.OK? && |handlers[h].table| != |posinfos[h]| then Failed(ResponseError)
      else st
    }

    // The rows handler h has or gets.
    ghost predicate Gives(h: nat, rows: seq<Row>)
      requires h < |handlers|
      reads this, handlers
    {
      if handlers[h].status.Running? then Carries(handlers[h].response, handlers[h].stale, rows) else rows == handlers[h].table
    }

    // The result is OK if and only if every handler comes to OK, and then every
    // position was written exactly once, with the row its handler has for it;
    // otherwise it is the verdict of the first handler that does not.
    method SyncAllTableHandlers(ghost assign: seq<nat>) returns (ok: bool, ghost tables: seq<seq<Row>>, ghost bad: nat)
      requires IsSplit(assign, posinfos) && rowsCnt == |assign| && |handlers| == |posinfos|
      requires forall h, k :: 0 <= h < k < |handlers| ==> handlers[h] != handlers[k]
      requires forall h :: 0 <= h < |handlers| && handlers[h].status.Running? ==> handlers[h].table == []
      modifies this`status, this`table, this`writes, handlers
      ensures handlers == old(handlers) && posinfos == old(posinfos)
      ensures ok <==> forall h :: 0 <= h < |handlers| ==> old(Verdict(h)).OK?
      ensures ok ==> status.OK? && |tables| == |handlers| && Gathered(assign, tables, table, writes)
      ensures ok ==> forall h :: 0 <= h < |handlers| ==> old(Gives(h, tables[h]))
      ensures !ok ==> bad < |handlers| && status == old(Verdict(bad)) && !status.OK? && forall h :: 0 <= h < bad ==> old(Verdict(h)).OK?
    {
      hide IsSplit, Gathered, Carries, IsGood;
      tables, bad := [], 0;
      table := seq(rowsCnt, _ => EMPTY_ROW);
      writes := seq(rowsCnt, _ => 0);
      NothingGathered(assign, table, writes);
      var h := 0;
      while h < |handlers|
        invariant 0 <= h == |tables| <= |handlers| && Gathered(assign, tables, table, writes)
        invariant forall k :: 0 <= k < h ==> old(Verdict(k)).OK? && old(Gives(k, tables[k]))
        invariant forall k :: h <= k < |handlers| ==>
          handlers[k].status == old(handlers[k].status) && handlers[k].table == old(handlers[k].table)
      {
        var iter := handlers[h].GetIterator();
        CarriesSize(handlers[h].response, handlers[h].stale, handlers[h].table);
        if iter.None? {
          status := handlers[h].status;
          assert !old(Verdict(h)).OK?;
          return false, tables, h;
        }
        if |iter.value| != |posinfos[h]| {
          status := Failed(ResponseError);
          assert !old(Verdict(h)).OK?;
          return false, tables, h;
        }
        Store(h, iter.value, assign, tables);
        tables := tables + [iter.value];
        h := h + 1;
      }
      status := OK;
      ok := true;
    }

    method Store(h: nat, rows: seq<Row>, ghost assign: seq<nat>, ghost tables: seq<seq<Row>>)
      requires IsSplit(assign, posinfos) && h == |tables| < |posinfos| && |rows| == |posinfos[h]|
      requires Gathered(assign, tables, table, writes)
      modifies this`table, this`writes
      ensures Gathered(assign, tables + [rows], table, writes)
    {
      StoreRows(h, rows, assign);
    }
  }

  lemma CarriesSize(response: Response, stale: (nat, nat) -> Word, rows: seq<Row>)
    ensures Carries(response, stale, rows) ==> |rows| == |response.rowSizes|
  {
  }

  lemma {:induction false} NothingGathered(assign: seq<nat>, table: seq<Row>, writes: seq<nat>)
    requires |table| == |writes| == |assign| && forall r :: 0 <= r < |writes| ==> writes[r] == 0
    ensures Gathered(assign, [], table, writes)
  {
  }

  function Answers(answer: (nat, Row) -> Row, a: nat, rows: seq<Row>): (r: seq<Row>)
    ensures |r| == |rows| && forall i :: 0 <= i < |r| ==> r[i] == answer(a, rows[i])
  {
    seq(|rows|, i requires 0 <= i < |rows| => answer(a, rows[i]))
  }

  // The tablet with index a answers every readable request row by row.
  ghost predicate Serves(response: Response, a: nat, request: Request, answer: (nat, Row) -> Row) {
    forall batch :: Asked(request, batch) ==> Answered(response, Answers(answer, a, batch))
  }

  // One slice, as the tablet sends it back.
  predicate IsOutput(row: Row) {
    |row| == 1 && row[0] != [] && Framed(row[0])
  }

  // Every row of the batch is answered with one slice.
  ghost predicate AllSingle(answer: (nat, Row) -> Row, a: nat, rows: seq<Row>) {
    forall i :: 0 <= i < |rows| ==> |answer(a, rows[i])| == 1
  }

  ghost predicate AllOutputs(answer: (nat, Row) -> Row, a: nat, rows: seq<Row>) {
    forall i :: 0 <= i < |rows| ==> IsOutput(answer(a, rows[i]))
  }

  ghost predicate CanServe(request: Request, a: nat, answer: (nat, Row) -> Row, stale: (nat, nat) -> Word, rows: seq<Row>) {
    ReadsBatch(request.attachment, 0, request.rowSizes, request.slices, stale, rows) && AllSingle(answer, a, rows)
  }

  // The tablet's side for a plain batch: decode the rows, answer each, and send
  // the single slice of every answer. A request that cannot be read and an answer
  // with another number of slices are errors, the latter with the rows before it.
  method ServeBatch(a: nat, request: Request, answer: (nat, Row) -> Row, stale: (nat, nat) -> Word) returns (response: Response)
    ensures response.present && !response.failed && (response.code == 0 || response.code == 1001)
    ensures response.code == 0 <==> exists rows :: CanServe(request, a, answer, stale, rows)
    ensures forall batch :: Asked(request, batch) && AllOutputs(answer, a, batch) ==> Answered(response, Answers(answer, a, batch))
  {
    hide Asked, SentBatch, Answered, IsOutput, ReadsBatch, AllSingle;
    var ok, rows, end := DecodeRows(request.attachment, 0, request.rowSizes, request.slices, stale);
    response := Response(true, false, SQL_RUN_ERROR, [], 0, []);
    if ok {
      var done, sizes, attachment := EncodeOutputs(a, rows, answer);
      response := Response(true, false, if done then 0 else SQL_RUN_ERROR, sizes, 1, attachment);
      forall other | CanServe(request, a, answer, stale, other)
        ensures done
      {
        ReadsBatchUnique(request.attachment, 0, request.rowSizes, request.slices, stale, other, rows);
      }
      assert done ==> CanServe(request, a, answer, stale, rows);
    }
    forall other | Asked(request, other) && AllOutputs(answer, a, other)
      ensures Answered(response, Answers(answer, a, other))
    {
      AskedIsSent(request, other);
      SentBatchReads(request.attachment, 0, request.rowSizes, request.slices, other, stale);
      ReadsBatchUnique(request.attachment, 0, request.rowSizes, request.slices, stale, other, rows);
      OutputsSingle(answer, a, rows);
      ServedIsAnswered(response, a, request, answer, other);
    }
  }

  lemma OutputsSingle(answer: (nat, Row) -> Row, a: nat, rows: seq<Row>)
    requires AllOutputs(answer, a, rows)
    ensures AllSingle(answer, a, rows)
  {
  }

  lemma {:induction false} ServedIsAnswered(response: Response, a: nat, request: Request, answer: (nat, Row) -> Row, batch: seq<Row>)
    requires Asked(request, batch)
    requires response.present && !response.failed && response.code == 0 && response.slices == 1
    requires SentBatch(response.attachment, 0, response.rowSizes, 1, Answers(answer, a, batch))
    ensures Answered(response, Answers(answer, a, batch))
  {
  }

  method EncodeOutputs(a: nat, rows: seq<Row>, answer: (nat, Row) -> Row) returns (ok: bool, sizes: seq<nat>, attachment: seq<byte>)
    ensures ok <==> AllSingle(answer, a, rows)
    ensures ok && AllOutputs(answer, a, rows) ==> SentBatch(attachment, 0, sizes, 1, Answers(answer, a, rows))
  {
    hide AllOutputs, IsOutput, BatchBytes, RowBytes;
    ghost var out := Answers(answer, a, rows);
    sizes, attachment := [], [];
    NoBytes(out);
    var i := 0;
    while i < |rows|
      invariant 0 <= i == |sizes| <= |rows| && forall k :: 0 <= k < i ==> |answer(a, rows[k])| == 1
      invariant AllOutputs(answer, a, rows) ==> attachment == BatchBytes(out, i)
      invariant AllOutputs(answer, a, rows) ==> forall k :: 0 <= k < i ==> sizes[k] == |RowBytes(out[k])|
    {
      var row := answer(a, rows[i]);
      if |row| != 1 {
        return false, sizes, attachment;
      }
      if AllOutputs(answer, a, rows) {
        OutputBytes(answer, a, rows, i);
      }
      attachment := attachment + row[0];
      sizes := sizes + [|row[0]|];
      i := i + 1;
    }
    ok := true;
    if AllOutputs(answer, a, rows) {
      OutputsSent(answer, a, rows, attachment, sizes);
    }
  }

  lemma NoBytes(rows: seq<Row>)
    ensures BatchBytes(rows, 0) == []
  {
  }

  // An output travels as its one slice.
  lemma {:induction false} OutputBytes(answer: (nat, Row) -> Row, a: nat, rows: seq<Row>, i: nat)
    requires AllOutputs(answer, a, rows) && i < |rows|
    ensures var row, out := answer(a, rows[i]), Answers(answer, a, rows);
      |row| == 1 && RowBytes(out[i]) == row[0] && BatchBytes(out, i + 1) == BatchBytes(out, i) + row[0]
  {
    var row := answer(a, rows[i]);
    assert IsOutput(row) && RowBytes(row) == PrefixBytes(row, 0) + SliceBytes(row[0]) == row[0];
  }

  lemma {:induction false} OutputsSent(answer: (nat, Row) -> Row, a: nat, rows: seq<Row>, attachment: seq<byte>, sizes: seq<nat>)
    requires AllOutputs(answer, a, rows) && |sizes| == |rows| && attachment == BatchBytes(Answers(answer, a, rows), |rows|)
    requires forall k :: 0 <= k < |rows| ==> sizes[k] == |RowBytes(Answers(answer, a, rows)[k])|
    ensures SentBatch(attachment, 0, sizes, 1, Answers(answer, a, rows))
  {
    hide RowBytes, BatchBytes;
    var out := Answers(answer, a, rows);
    assert forall k :: 0 <= k < |out| ==> IsOutput(out[k]);
  }

  // Every accessor's rows have one slice count.
  ghost predicate Sendable(assign: seq<nat>, rows: seq<Row>)
    requires |assign| == |rows|
  {
    && (forall r :: 0 <= r < |rows| ==> |rows[r]| > 0 && AllFramed(rows[r]))
    && forall r, q :: 0 <= r < |rows| && 0 <= q < |rows| && assign[r] == assign[q] ==> |rows[r]| == |rows[q]|
  }

  lemma {:induction false} PickedFrom(rows: seq<Row>, assign: seq<nat>, a: nat, k: nat)
    requires |assign| == |rows| && k < Count(assign, a, |assign|)
    ensures var r := Positions(assign, a, |assign|)[k]; r < |rows| && assign[r] == a && Picked(rows, assign, a, |rows|)[k] == rows[r]
  {
    PositionIs(assign, a, k, |assign|);
    PlaceOf(rows, assign, a, Positions(assign, a, |assign|)[k], |rows|);
  }

  // What is sent to an accessor that has rows can be read there.
  lemma {:induction false} PickedAsked(rows: seq<Row>, assign: seq<nat>, a: nat, request: Request)
    requires |assign| == |rows| && Sendable(assign, rows) && Count(assign, a, |assign|) > 0
    requires Asks(request, Picked(rows, assign, a, |rows|))
    ensures Asked(request, Picked(rows, assign, a, |rows|))
  {
    var batch := Picked(rows, assign, a, |rows|);
    var last := |batch| - 1;
    PickedFrom(rows, assign, a, last);
    forall k | 0 <= k < |batch|
      ensures |batch[k]| == |batch[last]| > 0 && AllFramed(batch[k])
    {
      PickedFrom(rows, assign, a, k);
    }
  }

  // If each tablet answers the requests it can read row by row, the merged
  // table holds at position r the answer to row r.
  method ScatterThenGather(acc: TabletsAccessor, rows: seq<Row>, respond: (nat, Request) -> Response, stale: (nat, nat) -> Word,
                           ghost answer: (nat, Row) -> Row)
    returns (ok: bool, table: seq<Row>)
    requires acc.Valid() && |rows| == acc.rowsCnt && Sendable(acc.assignAccessorIdxs, rows)
    requires forall a, request :: Serves(respond(a, request), a, request, answer)
    ensures ok && |table| == |rows|
    ensures forall r :: 0 <= r < |rows| ==> table[r] == answer(acc.assignAccessorIdxs[r], rows[r])
  {
    hide Answered, Picked, IsSplit, Asks, Asked, IsNaming, Sendable;
    ghost var assign, n := acc.assignAccessorIdxs, |acc.accessors|;
    ghost var sent := seq(n, a requires 0 <= a < n => Answers(answer, a, Picked(rows, assign, a, |rows|)));
    SplitTotal(assign, acc.posinfos);
    SplitLengths(assign, acc.posinfos);
    ghost var requests, responses;
    var tables;
    tables, requests, responses := acc.SubQuery(rows, respond, stale);
    forall a | 0 <= a < |sent|
      ensures Answered(responses[a], sent[a])
    {
      PickedAsked(rows, assign, a, requests[a]);
      assert Serves(respond(a, requests[a]), a, requests[a], answer);
    }
    forall a | 0 <= a < |sent|
      ensures tables.Verdict(a).OK?
    {
      AnsweredCarries(responses[a], stale, sent[a], sent[a]);
    }
    ghost var got, bad;
    ok, got, bad := tables.SyncAllTableHandlers(assign);
    table := tables.table;
    forall r | 0 <= r < |rows|
      ensures table[r] == answer(assign[r], rows[r])
    {
      PlaceOf(rows, assign, assign[r], r, |rows|);
      AnsweredCarries(responses[assign[r]], stale, sent[assign[r]], got[assign[r]]);
    }
  }

  lemma {:induction false} SplitLengths(assign: seq<nat>, posinfos: seq<seq<nat>>)
    requires IsSplit(assign, posinfos)
    ensures forall a :: 0 <= a < |posinfos| ==> |posinfos[a]| == Count(assign, a, |assign|) > 0
    ensures forall r :: 0 <= r < |assign| ==> assign[r] < |posinfos|
  {
  }
}

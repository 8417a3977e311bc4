// Framing of multi-slice rows, src/codec/sql_rpc_row_codec.cc, and of batches of
// rows, src/catalog/client_manager.cc. A slice says how long it is in its own
// bytes 2 to 5; an empty slice travels as a six-byte header.

module RpcRows {
  import opened Bytes
  import RowLayout

  const SIZE_OFFSET: nat := 2
  const HEADER: nat := 6

  type Slice = seq<byte>

  // A row of the SQL engine; the default row is one empty slice.
  type Row = seq<Slice>

  const EMPTY_ROW: Row := [[]]

  function SliceBytes(s: Slice): (bs: seq<byte>) {
    if s == [] then [1, 1, 0, 0, 0, 0] else s
  }

  // The bytes of the first i slices.
  function PrefixBytes(row: Row, i: nat): (bs: seq<byte>)
    requires i <= |row|
  {
    if i == 0 then [] else PrefixBytes(row, i - 1) + SliceBytes(row[i - 1])
  }

  function RowBytes(row: Row): seq<byte> {
    PrefixBytes(row, |row|)
  }

  // A slice is empty or carries its own length.
  predicate Framed(s: Slice) {
    s != [] ==> |s| >= HEADER && FromLittleEndian(s[SIZE_OFFSET..HEADER]) == |s|
  }

  // What RowBuilder writes is framed.
  lemma {:induction false} EncodedRowIsFramed(schema: RowLayout.Schema, row: Slice, version: byte, values: seq<RowLayout.Value>)
    requires RowLayout.Complete(schema, row, version, values)
    ensures Framed(row)
  {
    RowLayout.SizeReadBack(row, version);
  }

  predicate AllFramed(row: Row) {
    forall i :: 0 <= i < |row| ==> Framed(row[i])
  }

  method EncodeRpcRow(row: Row, buf: seq<byte>) returns (out: seq<byte>, total: nat)
    ensures out == buf + RowBytes(row) && total == |RowBytes(row)|
  {
    out, total := buf, 0;
    var i := 0;
    while i < |row|
      invariant 0 <= i <= |row|
      invariant out == buf + PrefixBytes(row, i) && total == |PrefixBytes(row, i)|
    {
      if row[i] == [] {
        out := out + [1, 1, 0, 0, 0, 0];
        total := total + 6;
      } else {
        out := out + row[i];
        total := total + |row[i]|;
      }
      i := i + 1;
    }
  }

  type Word = s: seq<byte> | |s| == 4 witness [0, 0, 0, 0]

  // copy_to of the length word: a word that sticks out of the buffer keeps the
  // bytes the variable held before.
  function SizeWord(buf: seq<byte>, cur: nat, stale: Word): nat {
    var from := cur + SIZE_OFFSET;
    if from + 4 <= |buf| then FromLittleEndian(buf[from..from + 4])
    else if from <= |buf| then FromLittleEndian(buf[from..] + stale[|buf| - from..])
    else FromLittleEndian(stale)
  }

  // Byte i of the word is the buffer's where the buffer has one.
  lemma {:induction false} SizeWordIs(buf: seq<byte>, cur: nat, stale: Word)
    ensures SizeWord(buf, cur, stale) ==
      FromLittleEndian(seq(4, i requires 0 <= i < 4 => if cur + SIZE_OFFSET + i < |buf| then buf[cur + SIZE_OFFSET + i] else stale[i]))
  {
    var from := cur + SIZE_OFFSET;
    var word := seq(4, i requires 0 <= i < 4 => if from + i < |buf| then buf[from + i] else stale[i]);
    if from + 4 <= |buf| {
      assert buf[from..from + 4] == word;
    } else if from <= |buf| {
      assert buf[from..] + stale[|buf| - from..] == word;
    } else {
      assert stale == word;
    }
  }

  // A slice is framed if and only if its length can be read from it, whatever the
  // variable held before.
  lemma {:induction false} FramedExactly(s: Slice)
    requires s != []
    ensures Framed(s) <==> forall stale: Word :: SizeWord(s, 0, stale) == |s|
  {
    if |s| < HEADER {
      var stale: Word := [255, 255, 255, 255];
      SizeWordIs(s, 0, stale);
      var word := seq(4, i requires 0 <= i < 4 => if SIZE_OFFSET + i < |s| then s[SIZE_OFFSET + i] else stale[i]);
      LastDigit(word);
      assert SizeWord(s, 0, stale) == FromLittleEndian(word) > |s|;
    } else {
      assert SizeWord(s, 0, [0, 0, 0, 0]) == FromLittleEndian(s[SIZE_OFFSET..HEADER]);
    }
  }

  lemma LastDigit(word: seq<byte>)
    requires |word| == 4 && word[3] == 255
    ensures FromLittleEndian(word) >= 255
  {
    assert word[1..][1..] == word[2..] && word[2..][1..] == word[3..] && word[3..][0] == 255;
    assert FromLittleEndian(word[3..]) >= 255;
    assert FromLittleEndian(word[2..]) >= 255;
  }

  function FrameLength(s: Slice): nat {
    if s == [] then HEADER else |s|
  }

  // Where slice i of the row starts, counted from the start of the row.
  function FrameStart(row: Row, i: nat): nat
    requires i <= |row|
  {
    if i == 0 then 0 else FrameStart(row, i - 1) + FrameLength(row[i - 1])
  }

  // The slices lie one after the other in the buffer.
  ghost predicate Spans(buf: seq<byte>, offset: nat, row: Row) {
    && offset + FrameStart(row, |row|) <= |buf|
    && forall i :: 0 <= i < |row| ==> SliceAt(buf, offset, row, i)
  }

  ghost predicate SliceAt(buf: seq<byte>, offset: nat, row: Row, i: nat)
    requires i < |row|
  {
    row[i] != [] ==> At(buf, offset + FrameStart(row, i), row[i])
  }

  lemma {:induction false} FrameStartPrefix(row: Row, s: Slice, i: nat)
    requires i <= |row|
    ensures FrameStart(row + [s], i) == FrameStart(row, i)
  {
    if i > 0 {
      FrameStartPrefix(row, s, i - 1);
    }
  }

  lemma {:induction false} SpansMore(buf: seq<byte>, offset: nat, row: Row, s: Slice)
    requires Spans(buf, offset, row) && offset + FrameStart(row, |row|) + FrameLength(s) <= |buf|
    requires s != [] ==> At(buf, offset + FrameStart(row, |row|), s)
    ensures Spans(buf, offset, row + [s]) && FrameStart(row + [s], |row| + 1) == FrameStart(row, |row|) + FrameLength(s)
  {
    hide SliceAt;
    var all := row + [s];
    FrameStartPrefix(row, s, |row|);
    forall i | 0 <= i < |all|
      ensures SliceAt(buf, offset, all, i)
    {
      SliceAtMore(buf, offset, row, s, i);
    }
  }

  lemma {:induction false} SliceAtMore(buf: seq<byte>, offset: nat, row: Row, s: Slice, i: nat)
    requires i <= |row| && (i < |row| ==> SliceAt(buf, offset, row, i))
    requires s != [] ==> At(buf, offset + FrameStart(row, |row|), s)
    ensures SliceAt(buf, offset, row + [s], i)
  {
    hide At;
    FrameStartPrefix(row, s, i);
  }

  lemma {:induction false} PrefixLength(row: Row, i: nat)
    requires i <= |row|
    ensures |PrefixBytes(row, i)| == FrameStart(row, i)
  {
    if i > 0 {
      PrefixLength(row, i - 1);
    }
  }

  // Slice i lies in its frame in the bytes of the first k slices.
  lemma {:induction false} SliceInRow(row: Row, i: nat, k: nat)
    requires i < k <= |row|
    ensures At(PrefixBytes(row, k), FrameStart(row, i), SliceBytes(row[i]))
  {
    PrefixLength(row, k - 1);
    if i < k - 1 {
      SliceInRow(row, i, k - 1);
      AtPrefix(PrefixBytes(row, k - 1), SliceBytes(row[k - 1]), FrameStart(row, i), SliceBytes(row[i]));
    }
  }

  ghost predicate Sent(buf: seq<byte>, offset: nat, sliceNum: nat, sent: Row) {
    |sent| == sliceNum > 0 && AllFramed(sent) && At(buf, offset, RowBytes(sent))
  }

  // The length word of slice i, and the slice behind it.
  lemma {:induction false} NextSlice(buf: seq<byte>, offset: nat, sliceNum: nat, sent: Row, i: nat, stale: Word)
    requires Sent(buf, offset, sliceNum, sent) && i < sliceNum
    ensures var cur := offset + FrameStart(sent, i);
      SizeWord(buf, cur, stale) == |sent[i]| && cur + FrameLength(sent[i]) <= |buf| && At(buf, cur, SliceBytes(sent[i]))
  {
    hide FromLittleEndian;
    var cur, s := offset + FrameStart(sent, i), SliceBytes(sent[i]);
    SliceInRow(sent, i, |sent|);
    AtWithin(buf, offset, RowBytes(sent), FrameStart(sent, i), s);
    assert Framed(sent[i]);
    EmptyWord();
    SubSlice(buf, cur, |s|, SIZE_OFFSET, 4);
  }

  lemma EmptyWord()
    ensures FromLittleEndian([1, 1, 0, 0, 0, 0][SIZE_OFFSET..HEADER]) == 0
  {
    assert [1, 1, 0, 0, 0, 0][SIZE_OFFSET..HEADER] == [0, 0, 0, 0];
    assert FromLittleEndian([]) == 0;
    assert FromLittleEndian([0]) == 0;
    assert FromLittleEndian([0, 0]) == 0;
    assert FromLittleEndian([0, 0, 0]) == 0;
  }

  // What the buffer says the row is: slices one after the other that fill the
  // stated size, each as long as its length word says. stale(n, i) is what the
  // variable for the length word of slice i of row n held before.
  ghost predicate Reads(buf: seq<byte>, offset: nat, size: nat, sliceNum: nat, stale: (nat, nat) -> Word, n: nat, row: Row) {
    if sliceNum == 0 || size == 0 then row == EMPTY_ROW
    else |row| == sliceNum && FrameStart(row, |row|) == size && Spans(buf, offset, row) && WordsAgree(buf, offset, stale, n, row)
  }

  ghost predicate WordsAgree(buf: seq<byte>, offset: nat, stale: (nat, nat) -> Word, n: nat, row: Row) {
    forall i :: 0 <= i < |row| ==> WordAt(buf, offset, stale, n, row, i)
  }

  ghost predicate WordAt(buf: seq<byte>, offset: nat, stale: (nat, nat) -> Word, n: nat, row: Row, i: nat)
    requires i < |row|
  {
    |row[i]| == SizeWord(buf, offset + FrameStart(row, i), stale(n, i))
  }

  // Whatever row the buffer holds starts with these slices.
  ghost predicate Leads(buf: seq<byte>, offset: nat, size: nat, sliceNum: nat, stale: (nat, nat) -> Word, n: nat, row: Row) {
    forall r :: Reads(buf, offset, size, sliceNum, stale, n, r) ==> row <= r
  }

  // Decoding succeeds exactly if the buffer holds a row there, and then gives it.
  method DecodeRpcRow(buf: seq<byte>, offset: nat, size: nat, sliceNum: nat, stale: (nat, nat) -> Word, n: nat)
    returns (ok: bool, row: Row)
    ensures ok <==> exists r :: Reads(buf, offset, size, sliceNum, stale, n, r)
    ensures ok ==> Reads(buf, offset, size, sliceNum, stale, n, row)
  {
    hide Reads, Leads, Spans, SizeWord, At, FrameStart, FrameLength, WordsAgree;
    if sliceNum == 0 || size == 0 {
      EmptyReads(buf, offset, size, sliceNum, stale, n);
      return true, EMPTY_ROW;
    }
    row := [];
    var cur := offset;
    if cur >= |buf| {
      NothingReads(buf, offset, size, sliceNum, stale, n);
      return false, row;
    }
    SpansNone(buf, offset, size, sliceNum, stale, n);
    var i := 0;
    while i < sliceNum
      invariant 0 <= i == |row| <= sliceNum
      invariant Spans(buf, offset, row) && cur == offset + FrameStart(row, |row|) && WordsAgree(buf, offset, stale, n, row)
      invariant Leads(buf, offset, size, sliceNum, stale, n, row)
    {
      SpansInside(buf, offset, row);
      var s, next := ReadSlice(buf, cur, stale(n, i));
      if next > |buf| {
        NoneFits(buf, offset, size, sliceNum, stale, n, row);
        return false, row;
      }
      SpansMore(buf, offset, row, s);
      WordsMore(buf, offset, stale, n, row, s);
      LeadsMore(buf, offset, size, sliceNum, stale, n, row, s);
      row := row + [s];
      cur := next;
      i := i + 1;
    }
    ok := offset + size == cur;
    LeadsAll(buf, offset, size, sliceNum, stale, n, row);
  }

  lemma EmptyReads(buf: seq<byte>, offset: nat, size: nat, sliceNum: nat, stale: (nat, nat) -> Word, n: nat)
    requires sliceNum == 0 || size == 0
    ensures Reads(buf, offset, size, sliceNum, stale, n, EMPTY_ROW)
  {
  }

  lemma NothingReads(buf: seq<byte>, offset: nat, size: nat, sliceNum: nat, stale: (nat, nat) -> Word, n: nat)
    requires sliceNum > 0 && size > 0 && offset >= |buf|
    ensures forall r :: !Reads(buf, offset, size, sliceNum, stale, n, r)
  {
  }

  lemma SpansNone(buf: seq<byte>, offset: nat, size: nat, sliceNum: nat, stale: (nat, nat) -> Word, n: nat)
    requires offset <= |buf|
    ensures Spans(buf, offset, []) && FrameStart([], 0) == 0 && WordsAgree(buf, offset, stale, n, [])
    ensures Leads(buf, offset, size, sliceNum, stale, n, [])
  {
  }

  lemma {:induction false} WordsMore(buf: seq<byte>, offset: nat, stale: (nat, nat) -> Word, n: nat, row: Row, s: Slice)
    requires WordsAgree(buf, offset, stale, n, row) && |s| == SizeWord(buf, offset + FrameStart(row, |row|), stale(n, |row|))
    ensures WordsAgree(buf, offset, stale, n, row + [s])
  {
    hide SizeWord, FrameStart;
    var all := row + [s];
    forall i | 0 <= i < |all|
      ensures WordAt(buf, offset, stale, n, all, i)
    {
      FrameStartPrefix(row, s, i);
      assert i < |row| ==> WordAt(buf, offset, stale, n, row, i);
    }
  }

  // A longer row starts its slices where the shorter one does.
  lemma {:induction false} SameStart(row: Row, r: Row, i: nat)
    requires row <= r && i <= |row|
    ensures FrameStart(r, i) == FrameStart(row, i)
  {
    if i > 0 {
      SameStart(row, r, i - 1);
    }
  }

  lemma {:induction false} StartMonotone(r: Row, i: nat, j: nat)
    requires i <= j <= |r|
    ensures FrameStart(r, i) <= FrameStart(r, j)
  {
    if i < j {
      StartMonotone(r, i, j - 1);
    }
  }

  lemma StartNext(r: Row, i: nat)
    requires i < |r|
    ensures FrameStart(r, i + 1) == FrameStart(r, i) + FrameLength(r[i])
  {
  }

  // What the next slice of a row that the buffer holds must be.
  lemma {:induction false} NextIs(buf: seq<byte>, offset: nat, size: nat, sliceNum: nat, stale: (nat, nat) -> Word, n: nat, row: Row, r: Row)
    requires Reads(buf, offset, size, sliceNum, stale, n, r) && row <= r && |row| < sliceNum && size > 0
    ensures var cur, len := offset + FrameStart(row, |row|), SizeWord(buf, offset + FrameStart(row, |row|), stale(n, |row|));
      && |r| == sliceNum && |r[|row|]| == len && cur + (if len == 0 then HEADER else len) <= |buf|
      && (len > 0 ==> At(buf, cur, r[|row|]))
  {
    hide SizeWord, At, FrameStart;
    var i := |row|;
    SameStart(row, r, i);
    StartMonotone(r, i + 1, |r|);
    StartNext(r, i);
    assert SliceAt(buf, offset, r, i) && WordAt(buf, offset, stale, n, r, i);
  }

  lemma {:induction false} NoneFits(buf: seq<byte>, offset: nat, size: nat, sliceNum: nat, stale: (nat, nat) -> Word, n: nat, row: Row)
    requires Leads(buf, offset, size, sliceNum, stale, n, row) && |row| < sliceNum && size > 0
    requires var len := SizeWord(buf, offset + FrameStart(row, |row|), stale(n, |row|));
      offset + FrameStart(row, |row|) + (if len == 0 then HEADER else len) > |buf|
    ensures forall r :: !Reads(buf, offset, size, sliceNum, stale, n, r)
  {
    hide SizeWord, Reads;
    forall r | Reads(buf, offset, size, sliceNum, stale, n, r)
      ensures false
    {
      NextIs(buf, offset, size, sliceNum, stale, n, row, r);
    }
  }

  lemma {:induction false} LeadsMore(buf: seq<byte>, offset: nat, size: nat, sliceNum: nat, stale: (nat, nat) -> Word, n: nat, row: Row, s: Slice)
    requires Leads(buf, offset, size, sliceNum, stale, n, row) && |row| < sliceNum && size > 0
    requires var cur := offset + FrameStart(row, |row|);
      |s| == SizeWord(buf, cur, stale(n, |row|)) && (s != [] ==> At(buf, cur, s))
    ensures Leads(buf, offset, size, sliceNum, stale, n, row + [s])
  {
    hide SizeWord, Reads;
    forall r | Reads(buf, offset, size, sliceNum, stale, n, r)
      ensures row + [s] <= r
    {
      NextIs(buf, offset, size, sliceNum, stale, n, row, r);
      assert r[|row|] == s;
    }
  }

  lemma {:induction false} LeadsAll(buf: seq<byte>, offset: nat, size: nat, sliceNum: nat, stale: (nat, nat) -> Word, n: nat, row: Row)
    requires Leads(buf, offset, size, sliceNum, stale, n, row) && |row| == sliceNum > 0 && size > 0
    requires Spans(buf, offset, row) && WordsAgree(buf, offset, stale, n, row)
    ensures Reads(buf, offset, size, sliceNum, stale, n, row) <==> FrameStart(row, |row|) == size
    ensures FrameStart(row, |row|) != size ==> forall r :: !Reads(buf, offset, size, sliceNum, stale, n, r)
  {
    forall r | Reads(buf, offset, size, sliceNum, stale, n, r)
      ensures r == row
    {
      assert row <= r;
    }
  }

  // The buffer holds at most one row.
  lemma {:induction false} ReadsPrefix(buf: seq<byte>, offset: nat, size: nat, sliceNum: nat, stale: (nat, nat) -> Word, n: nat, a: Row, b: Row, i: nat)
    requires Reads(buf, offset, size, sliceNum, stale, n, a) && Reads(buf, offset, size, sliceNum, stale, n, b)
    requires sliceNum > 0 && size > 0 && i <= sliceNum
    ensures |a| == |b| == sliceNum && a[..i] == b[..i]
  {
    hide SizeWord, FrameStart, WordAt, SliceAt;
    if i > 0 {
      ReadsPrefix(buf, offset, size, sliceNum, stale, n, a, b, i - 1);
      NextIs(buf, offset, size, sliceNum, stale, n, a[..i - 1], a);
      NextIs(buf, offset, size, sliceNum, stale, n, a[..i - 1], b);
      assert a[..i] == a[..i - 1] + [a[i - 1]] && b[..i] == b[..i - 1] + [b[i - 1]];
    }
  }

  lemma {:induction false} ReadsUnique(buf: seq<byte>, offset: nat, size: nat, sliceNum: nat, stale: (nat, nat) -> Word, n: nat, a: Row, b: Row)
    requires Reads(buf, offset, size, sliceNum, stale, n, a) && Reads(buf, offset, size, sliceNum, stale, n, b)
    ensures a == b
  {
    if sliceNum > 0 && size > 0 {
      ReadsPrefix(buf, offset, size, sliceNum, stale, n, a, b, sliceNum);
      assert a[..sliceNum] == a && b[..sliceNum] == b;
    }
  }

  // What was sent is what the buffer holds.
  lemma {:induction false} SentReads(buf: seq<byte>, offset: nat, sliceNum: nat, sent: Row, stale: (nat, nat) -> Word, n: nat)
    requires Sent(buf, offset, sliceNum, sent)
    ensures Reads(buf, offset, |RowBytes(sent)|, sliceNum, stale, n, sent) && |RowBytes(sent)| > 0
  {
    hide Sent, SizeWord, FrameStart;
    SentSize(buf, offset, sliceNum, sent);
    forall i | 0 <= i < |sent|
      ensures SliceAt(buf, offset, sent, i) && WordAt(buf, offset, stale, n, sent, i)
    {
      NextSlice(buf, offset, sliceNum, sent, i, stale(n, i));
    }
    NextSlice(buf, offset, sliceNum, sent, |sent| - 1, stale(n, |sent| - 1));
    StartNext(sent, |sent| - 1);
  }

  lemma {:induction false} SentSize(buf: seq<byte>, offset: nat, sliceNum: nat, sent: Row)
    requires Sent(buf, offset, sliceNum, sent)
    ensures |sent| == sliceNum > 0 && 0 < |RowBytes(sent)| == FrameStart(sent, |sent|) && offset < |buf|
  {
    PrefixLength(sent, |sent|);
    SliceInRow(sent, 0, |sent|);
  }

  lemma SpansInside(buf: seq<byte>, offset: nat, row: Row)
    requires Spans(buf, offset, row)
    ensures offset + FrameStart(row, |row|) <= |buf|
  {
  }

  // The slice at cur, as its length word says, and where the next one starts.
  method ReadSlice(buf: seq<byte>, cur: nat, stale: Word) returns (s: Slice, next: nat)
    requires cur <= |buf|
    ensures next <= |buf| ==> |s| == SizeWord(buf, cur, stale) && next == cur + FrameLength(s) && (s != [] ==> At(buf, cur, s))
    ensures next == cur + if SizeWord(buf, cur, stale) == 0 then HEADER else SizeWord(buf, cur, stale)
  {
    hide SizeWord;
    var sliceSize := SizeWord(buf, cur, stale);
    next := if sliceSize == 0 then cur + SIZE_OFFSET + 4 else cur + sliceSize;
    s := if sliceSize == 0 || next > |buf| then [] else buf[cur..next];
  }

  // ----- Batches -----

  function BatchBytes(rows: seq<Row>, i: nat): seq<byte>
    requires i <= |rows|
  {
    if i == 0 then [] else BatchBytes(rows, i - 1) + RowBytes(rows[i - 1])
  }

  predicate SizesOf(rows: seq<Row>, sizes: seq<nat>) {
    |sizes| == |rows| && forall i :: 0 <= i < |rows| ==> sizes[i] == |RowBytes(rows[i])|
  }

  // Rows of one batch have the same number of slices.
  predicate Uniform(rows: seq<Row>, slices: nat) {
    forall i :: 0 <= i < |rows| ==> |rows[i]| == slices && AllFramed(rows[i])
  }

  // The batch loop of TabletAccessor::SubQuery. The slice count sent is the one
  // of the last row.
  method EncodeRows(rows: seq<Row>, buf: seq<byte>) returns (out: seq<byte>, sizes: seq<nat>, slices: nat)
    ensures out == buf + BatchBytes(rows, |rows|) && SizesOf(rows, sizes)
    ensures slices == if rows == [] then 0 else |rows[|rows| - 1]|
  {
    hide RowBytes;
    out, sizes, slices := buf, [], 0;
    var i := 0;
    while i < |rows|
      invariant 0 <= i <= |rows| && out == buf + BatchBytes(rows, i) && |sizes| == i
      invariant forall k :: 0 <= k < i ==> sizes[k] == |RowBytes(rows[k])|
      invariant slices == if i == 0 then 0 else |rows[i - 1]|
    {
      var size;
      out, size := EncodeRpcRow(rows[i], out);
      sizes := sizes + [size];
      slices := |rows[i]|;
      i := i + 1;
    }
  }

  // Where row i of a batch starts.
  function RowStart(sizes: seq<nat>, i: nat): nat
    requires i <= |sizes|
  {
    if i == 0 then 0 else RowStart(sizes, i - 1) + sizes[i - 1]
  }

  // The buffer holds row i of the batch where the sizes say.
  ghost predicate ReadsRow(buf: seq<byte>, offset: nat, sizes: seq<nat>, slices: nat, stale: (nat, nat) -> Word, i: nat, row: Row)
    requires i < |sizes|
  {
    Reads(buf, offset + RowStart(sizes, i), sizes[i], slices, stale, i, row)
  }

  ghost predicate ReadsBatch(buf: seq<byte>, offset: nat, sizes: seq<nat>, slices: nat, stale: (nat, nat) -> Word, rows: seq<Row>) {
    |rows| == |sizes| && forall i :: 0 <= i < |sizes| ==> ReadsRow(buf, offset, sizes, slices, stale, i, rows[i])
  }

  // The decode loop of AsyncTableHandler::SyncRpcResponse, from a given offset:
  // it succeeds exactly if the buffer holds a batch with these sizes there, and
  // then gives its rows and stops right behind them.
  method DecodeRows(buf: seq<byte>, offset: nat, sizes: seq<nat>, slices: nat, stale: (nat, nat) -> Word)
    returns (ok: bool, rows: seq<Row>, end: nat)
    ensures ok <==> exists r :: ReadsBatch(buf, offset, sizes, slices, stale, r)
    ensures ok ==> ReadsBatch(buf, offset, sizes, slices, stale, rows) && end == offset + RowStart(sizes, |sizes|)
  {
    hide Reads;
    rows, end := [], offset;
    var i := 0;
    while i < |sizes|
      invariant 0 <= i == |rows| <= |sizes| && end == offset + RowStart(sizes, i)
      invariant forall k :: 0 <= k < i ==> ReadsRow(buf, offset, sizes, slices, stale, k, rows[k])
    {
      var row := EMPTY_ROW;
      if sizes[i] != 0 {
        var done;
        done, row := DecodeRpcRow(buf, end, sizes[i], slices, stale, i);
        if !done {
          assert forall r :: ReadsBatch(buf, offset, sizes, slices, stale, r) ==> !ReadsRow(buf, offset, sizes, slices, stale, i, r[i]);
          return false, rows, end;
        }
      } else {
        EmptyReads(buf, end, 0, slices, stale, i);
      }
      rows := rows + [row];
      end := end + sizes[i];
      i := i + 1;
    }
    ok := true;
    assert ReadsBatch(buf, offset, sizes, slices, stale, rows);
  }

  // No two batches are read from the same bytes.
  lemma {:induction false} ReadsBatchUnique(buf: seq<byte>, offset: nat, sizes: seq<nat>, slices: nat, stale: (nat, nat) -> Word, a: seq<Row>, b: seq<Row>)
    requires ReadsBatch(buf, offset, sizes, slices, stale, a) && ReadsBatch(buf, offset, sizes, slices, stale, b)
    ensures a == b
  {
    hide Reads;
    forall i | 0 <= i < |a|
      ensures a[i] == b[i]
    {
      assert ReadsRow(buf, offset, sizes, slices, stale, i, a[i]) && ReadsRow(buf, offset, sizes, slices, stale, i, b[i]);
      ReadsUnique(buf, offset + RowStart(sizes, i), sizes[i], slices, stale, i, a[i], b[i]);
    }
  }

  lemma {:induction false} BatchStart(rows: seq<Row>, sizes: seq<nat>, i: nat)
    requires SizesOf(rows, sizes) && i <= |rows|
    ensures RowStart(sizes, i) == |BatchBytes(rows, i)|
  {
    if i > 0 {
      BatchStart(rows, sizes, i - 1);
    }
  }

  // A batch that was sent is read.
  lemma {:induction false} SentBatchReads(buf: seq<byte>, offset: nat, sizes: seq<nat>, slices: nat, sent: seq<Row>, stale: (nat, nat) -> Word)
    requires SentBatch(buf, offset, sizes, slices, sent)
    ensures ReadsBatch(buf, offset, sizes, slices, stale, sent)
  {
    hide Reads, Sent, RowBytes;
    forall i | 0 <= i < |sizes|
      ensures ReadsRow(buf, offset, sizes, slices, stale, i, sent[i])
    {
      var row := BatchRow(buf, offset, sizes, slices, sent, i);
      BatchStart(sent, sizes, i);
      SentReads(buf, offset + |BatchBytes(sent, i)|, slices, row, stale, i);
    }
  }

  // The buffer holds an encoded batch at the offset.
  ghost predicate SentBatch(buf: seq<byte>, offset: nat, sizes: seq<nat>, slices: nat, sent: seq<Row>) {
    Uniform(sent, slices) && slices > 0 && SizesOf(sent, sizes) && At(buf, offset, BatchBytes(sent, |sent|))
  }

  // Row i lies behind the rows before it.
  lemma {:induction false} RowInBatch(rows: seq<Row>, i: nat, k: nat)
    requires i < k <= |rows|
    ensures At(BatchBytes(rows, k), |BatchBytes(rows, i)|, RowBytes(rows[i]))
  {
    hide RowBytes;
    if i < k - 1 {
      RowInBatch(rows, i, k - 1);
      AtPrefix(BatchBytes(rows, k - 1), RowBytes(rows[k - 1]), |BatchBytes(rows, i)|, RowBytes(rows[i]));
    }
  }

  ghost function BatchRow(buf: seq<byte>, offset: nat, sizes: seq<nat>, slices: nat, sent: seq<Row>, i: nat): (row: Row)
    requires SentBatch(buf, offset, sizes, slices, sent) && i < |sizes|
    ensures i < |sent| && row == sent[i] && sizes[i] == |RowBytes(row)| > 0
    ensures |BatchBytes(sent, i + 1)| == |BatchBytes(sent, i)| + sizes[i]
    ensures Sent(buf, offset + |BatchBytes(sent, i)|, slices, row)
  {
    RowInBatch(sent, i, |sent|);
    AtWithin(buf, offset, BatchBytes(sent, |sent|), |BatchBytes(sent, i)|, RowBytes(sent[i]));
    SentSize(buf, offset + |BatchBytes(sent, i)|, slices, sent[i]);
    sent[i]
  }

  // The bytes of a batch determine its rows.
  lemma {:induction false} BatchUnique(buf: seq<byte>, offset: nat, sizes: seq<nat>, slices: nat, a: seq<Row>, b: seq<Row>)
    requires SentBatch(buf, offset, sizes, slices, a) && SentBatch(buf, offset, sizes, slices, b)
    ensures a == b
  {
    hide SentBatch, ReadsBatch;
    var stale: (nat, nat) -> Word := (n, i) => [0, 0, 0, 0];
    SentBatchReads(buf, offset, sizes, slices, a, stale);
    SentBatchReads(buf, offset, sizes, slices, b, stale);
    ReadsBatchUnique(buf, offset, sizes, slices, stale, a, b);
  }
}

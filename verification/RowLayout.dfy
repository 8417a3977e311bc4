// The row format of src/codec/codec.cc: a six-byte header, a null bitmap, the
// fixed-width fields, a table of string offsets and the string bytes. The width
// of a table entry depends on the size of the row.

module RowLayout {
  import opened Bytes

  const VERSION_LENGTH: nat := 2
  const HEADER_LENGTH: nat := 6
  const UINT8_MAX: nat := 0xff
  const UINT16_MAX: nat := 0xffff
  const UINT24_MAX: nat := 0xff_ffff
  const TWO32: nat := 0x1_0000_0000

  datatype DataType = Bool | SmallInt | Int | BigInt | Float | Double | Date | Timestamp | Varchar | String

  datatype Column = Column(dataType: DataType, notNull: bool)

  type Schema = seq<Column>

  // Float and double are opaque bit patterns.
  datatype Value =
    | Null
    | VBool(b: bool)
    | VInt16(v: int)
    | VInt32(v: int)
    | VInt64(v: int)
    | VTimestamp(v: int)
    | VDate(v: int)
    | VFloat(bits: nat)
    | VDouble(bits: nat)
    | VStr(bytes: seq<byte>)

  predicate IsStr(t: DataType) {
    t.Varchar? || t.String?
  }

  function Width(t: DataType): (w: nat) {
    match t
    case Bool => 1
    case SmallInt => 2
    case Int | Float | Date => 4
    case BigInt | Double | Timestamp => 8
    case Varchar | String => 0
  }

  predicate TypeOk(t: DataType, v: Value) {
    match v
    case Null => false
    case VBool(_) => t.Bool?
    case VInt16(_) => t.SmallInt?
    case VInt32(_) => t.Int?
    case VInt64(_) => t.BigInt?
    case VTimestamp(_) => t.Timestamp?
    case VDate(_) => t.Date?
    case VFloat(_) => t.Float?
    case VDouble(_) => t.Double?
    case VStr(_) => IsStr(t)
  }

  // The C++ argument types already bound the values.
  predicate InRange(v: Value) {
    match v
    case Null | VBool(_) | VStr(_) => true
    case VInt16(n) => FitsSigned(n, 2)
    case VInt32(n) => FitsSigned(n, 4)
    case VDate(n) => FitsSigned(n, 4)
    case VInt64(n) => FitsSigned(n, 8)
    case VTimestamp(n) => FitsSigned(n, 8)
    case VFloat(bits) => bits < Pow256(4)
    case VDouble(bits) => bits < Pow256(8)
  }

  predicate Fits(col: Column, v: Value) {
    if v.Null? then !col.notNull else TypeOk(col.dataType, v) && InRange(v)
  }

  predicate RowFits(schema: Schema, values: seq<Value>) {
    |values| <= |schema| && forall i :: 0 <= i < |values| ==> Fits(schema[i], values[i])
  }

  // ----- Fixed-width fields -----

  function FixedBytes(v: Value): seq<byte>
    requires !v.Null? && !v.VStr?
  {
    match v
    case VBool(b) => [if b then 1 else 0]
    case VInt16(n) => LittleEndian(ToUnsigned(n, 2), 2)
    case VInt32(n) => LittleEndian(ToUnsigned(n, 4), 4)
    case VDate(n) => LittleEndian(ToUnsigned(n, 4), 4)
    case VInt64(n) => LittleEndian(ToUnsigned(n, 8), 8)
    case VTimestamp(n) => LittleEndian(ToUnsigned(n, 8), 8)
    case VFloat(bits) => LittleEndian(bits, 4)
    case VDouble(bits) => LittleEndian(bits, 8)
  }

  function ReadFixed(t: DataType, bs: seq<byte>): Value
    requires !IsStr(t) && |bs| == Width(t)
  {
    match t
    case Bool => VBool(bs[0] == 1)
    case SmallInt => VInt16(ToSigned(FromLittleEndian(bs), 2))
    case Int => VInt32(ToSigned(FromLittleEndian(bs), 4))
    case Date => VDate(ToSigned(FromLittleEndian(bs), 4))
    case BigInt => VInt64(ToSigned(FromLittleEndian(bs), 8))
    case Timestamp => VTimestamp(ToSigned(FromLittleEndian(bs), 8))
    case Float => VFloat(FromLittleEndian(bs))
    case Double => VDouble(FromLittleEndian(bs))
  }

  lemma {:induction false} SignedField(n: int, w: nat)
    requires FitsSigned(n, w)
    ensures ToSigned(FromLittleEndian(LittleEndian(ToUnsigned(n, w), w)), w) == n
  {
    SignedRoundTrip(n, w);
    LittleEndianRoundTrip(ToUnsigned(n, w), w);
  }

  lemma {:induction false} FixedRoundTrip(t: DataType, v: Value)
    requires TypeOk(t, v) && InRange(v) && !IsStr(t)
    ensures |FixedBytes(v)| == Width(t) && ReadFixed(t, FixedBytes(v)) == v
  {
    match v
    case VBool(_) =>
    case VInt16(n) => SignedField(n, 2);
    case VInt32(n) => SignedField(n, 4);
    case VDate(n) => SignedField(n, 4);
    case VInt64(n) => SignedField(n, 8);
    case VTimestamp(n) => SignedField(n, 8);
    case VFloat(bits) => LittleEndianRoundTrip(bits, 4);
    case VDouble(bits) => LittleEndianRoundTrip(bits, 8);
  }

  // Packed dates: 1900-based year, 0-based month, day.
  function PackDate(year: nat, month: nat, day: nat): int
    requires 1900 <= year <= 9999 && 1 <= month <= 12 && 1 <= day <= 31
  {
    (year - 1900) * 0x1_0000 + (month - 1) * 0x100 + day
  }

  function UnpackDate(date: int): (int, int, int) {
    (1900 + date / 0x100 / 0x100, 1 + date / 0x100 % 0x100, date % 0x100)
  }

  lemma DateRoundTrip(year: nat, month: nat, day: nat)
    requires 1900 <= year <= 9999 && 1 <= month <= 12 && 1 <= day <= 31
    ensures FitsSigned(PackDate(year, month, day), 4)
    ensures UnpackDate(PackDate(year, month, day)) == (year, month, day)
  {
    var date := PackDate(year, month, day);
    DivModUnique(date, 0x100, (year - 1900) * 0x100 + (month - 1), day);
    DivModUnique(date / 0x100, 0x100, year - 1900, month - 1);
  }

  // ----- String offsets -----

  function AddrLength(size: nat): (w: nat)
    ensures 1 <= w <= 4
  {
    if size <= UINT8_MAX then 1 else if size <= UINT16_MAX then 2 else if size <= UINT24_MAX then 3 else 4
  }

  // The width is the least that can hold every offset up to the size.
  lemma {:induction false} AddrLengthLeast(size: nat, w: nat)
    requires size < Pow256(4) && 1 <= w <= 4
    ensures size < Pow256(w) <==> AddrLength(size) <= w
  {
    assert Pow256(1) == 256 && Pow256(2) == 256 * 256 && Pow256(3) == 256 * 256 * 256 && Pow256(4) == 256 * 256 * 256 * 256;
  }

  // Three-byte offsets are big-endian, the others little-endian.
  function AddrBytes(w: nat, v: nat): (bs: seq<byte>)
    requires 1 <= w <= 4
    ensures |bs| == w
  {
    if w == 3 then [v / 0x1_0000 % 0x100, v / 0x100 % 0x100, v % 0x100] else LittleEndian(v, w)
  }

  // The most significant byte comes first in three-byte offsets and last in all
  // others.
  lemma {:induction false} AddrDigit(w: nat, v: nat, i: nat)
    requires 1 <= w <= 4 && i < w
    ensures AddrBytes(w, v)[i] == v / Pow256(if w == 3 then 2 - i else i) % 256
  {
    if w == 3 {
      assert Pow256(0) == 1 && Pow256(1) == 256 && Pow256(2) == 256 * 256;
    } else {
      LittleEndianDigit(v, w, i);
    }
  }

  function ReadAddr(bs: seq<byte>): nat {
    if |bs| == 3 then (bs[0] * 0x100 + bs[1]) * 0x100 + bs[2] else FromLittleEndian(bs)
  }

  // Every offset into a row survives a write and a read at the row's width.
  lemma {:induction false} AddrRoundTrip(size: nat, v: nat)
    requires v <= size < TWO32
    ensures ReadAddr(AddrBytes(AddrLength(size), v)) == v
  {
    var w := AddrLength(size);
    assert Pow256(1) == 0x100 && Pow256(2) == 0x1_0000 && Pow256(4) == TWO32;
    if w == 3 {
      assert v / 0x100 / 0x100 == v / 0x1_0000;
      assert v / 0x1_0000 < 0x100;
    } else {
      LittleEndianRoundTrip(v, w);
    }
  }

  // ----- Total size -----

  // Arithmetic in uint32_t.
  function Wrap(n: nat): nat {
    n % TWO32
  }

  // RowBuilder::CalTotalLength, with the fixed part `start`, `cnt` strings and
  // `len` string bytes. Its last guard cannot fail in 32 bits.
  function CalTotalLength(columns: nat, start: nat, cnt: nat, len: nat): (size: nat)
    ensures size < TWO32
  {
    if columns == 0 then 0 else
      var total := Wrap(start + len);
      if Wrap(total + cnt) <= UINT8_MAX then Wrap(total + cnt)
      else if Wrap(total + Wrap(cnt * 2)) <= UINT16_MAX then Wrap(total + Wrap(cnt * 2))
      else if Wrap(total + Wrap(cnt * 3)) <= UINT24_MAX then Wrap(total + Wrap(cnt * 3))
      else Wrap(total + Wrap(cnt * 4))
  }

  // The size a row needs, without a bound on sizes.
  function RowSize(start: nat, cnt: nat, len: nat): nat {
    var total := start + len;
    if total + cnt <= UINT8_MAX then total + cnt
    else if total + cnt * 2 <= UINT16_MAX then total + cnt * 2
    else if total + cnt * 3 <= UINT24_MAX then total + cnt * 3
    else total + cnt * 4
  }

  // n bytes hold the fixed part, an entry of w bytes per string and the strings,
  // and w bytes can hold every offset into them.
  ghost predicate HoldsRow(start: nat, cnt: nat, len: nat, w: nat, n: nat) {
    1 <= w <= 4 && n == start + w * cnt + len && n < Pow256(w)
  }

  ghost predicate CanHold(start: nat, cnt: nat, len: nat) {
    exists w, n :: HoldsRow(start, cnt, len, w, n)
  }

  // The least such size.
  ghost predicate IsLeastSize(start: nat, cnt: nat, len: nat, n: nat) {
    && (exists w :: HoldsRow(start, cnt, len, w, n))
    && forall w, k :: HoldsRow(start, cnt, len, w, k) ==> n <= k
  }

  // RowSize is that size whenever there is one with 32 bits.
  lemma {:induction false} RowSizeLeast(start: nat, cnt: nat, len: nat)
    ensures RowSize(start, cnt, len) < Pow256(4) <==> CanHold(start, cnt, len)
    ensures CanHold(start, cnt, len) ==> IsLeastSize(start, cnt, len, RowSize(start, cnt, len))
  {
    assert Pow256(1) == 256 && Pow256(2) == 256 * 256 && Pow256(3) == 256 * 256 * 256 && Pow256(4) == 256 * 256 * 256 * 256;
    var n := RowSize(start, cnt, len);
    WidthFixedPoint(start, cnt, len);
    if n < Pow256(4) {
      AddrLengthLeast(n, AddrLength(n));
      assert HoldsRow(start, cnt, len, AddrLength(n), n);
    }
    forall w, k | HoldsRow(start, cnt, len, w, k)
      ensures n <= k && n < Pow256(4)
    {
      assert w == 1 || w == 2 || w == 3 || w == 4;
    }
  }

  // The width charged per string is the width the size selects.
  lemma WidthFixedPoint(start: nat, cnt: nat, len: nat)
    ensures var size := RowSize(start, cnt, len); size == start + AddrLength(size) * cnt + len
  {
  }

  lemma NoWrap(n: nat)
    requires n < TWO32
    ensures Wrap(n) == n
  {
  }

  // CalTotalLength is the least size that holds the row exactly when one of 32
  // bits does.
  lemma TotalLengthExact(columns: nat, start: nat, cnt: nat, len: nat)
    requires columns > 0
    ensures CalTotalLength(columns, start, cnt, len) == RowSize(start, cnt, len) <==> RowSize(start, cnt, len) < TWO32
    ensures IsLeastSize(start, cnt, len, CalTotalLength(columns, start, cnt, len)) <==> CanHold(start, cnt, len)
  {
    RowSizeLeast(start, cnt, len);
    assert Pow256(4) == TWO32;
    TotalLengthIs(columns, start, cnt, len);
    if IsLeastSize(start, cnt, len, CalTotalLength(columns, start, cnt, len)) {
      var w :| HoldsRow(start, cnt, len, w, CalTotalLength(columns, start, cnt, len));
    }
  }

  lemma TotalLengthIs(columns: nat, start: nat, cnt: nat, len: nat)
    requires columns > 0
    ensures CalTotalLength(columns, start, cnt, len) == RowSize(start, cnt, len) <==> RowSize(start, cnt, len) < TWO32
  {
    hide Wrap;
    if RowSize(start, cnt, len) < TWO32 {
      var total := start + len;
      NoWrap(total);
      NoWrap(total + cnt);
      if total + cnt > UINT8_MAX {
        NoWrap(cnt * 2);
        NoWrap(total + cnt * 2);
        if total + cnt * 2 > UINT16_MAX {
          NoWrap(cnt * 3);
          NoWrap(total + cnt * 3);
          if total + cnt * 3 > UINT24_MAX {
            NoWrap(cnt * 4);
            NoWrap(total + cnt * 4);
          }
        }
      }
    }
  }

  // A string of 2^32 - 4 bytes in a one-column row wraps to a size of 4.
  lemma TotalLengthWraps()
    ensures CalTotalLength(1, 7, 1, 0xffff_fffc) == 4
    ensures RowSize(7, 1, 0xffff_fffc) > TWO32
  {
  }

  // ----- Layout of one schema -----

  // The least number of bytes with a bit for each column.
  function BitMapSize(n: nat): (size: nat)
    ensures 8 * size - 8 < n <= 8 * size
  {
    n / 8 + if n % 8 != 0 then 1 else 0
  }

  // Bytes taken by the fixed fields of the first i columns.
  function FixedWidth(schema: Schema, i: nat): nat
    requires i <= |schema|
  {
    if i == 0 then 0
    else FixedWidth(schema, i - 1) + if IsStr(schema[i - 1].dataType) then 0 else Width(schema[i - 1].dataType)
  }

  // Number of strings among the first i columns.
  function StrCount(schema: Schema, i: nat): (n: nat)
    requires i <= |schema|
    ensures n <= i
  {
    if i == 0 then 0 else StrCount(schema, i - 1) + if IsStr(schema[i - 1].dataType) then 1 else 0
  }

  function FieldOffset(schema: Schema, i: nat): nat
    requires i <= |schema|
  {
    HEADER_LENGTH + BitMapSize(|schema|) + FixedWidth(schema, i)
  }

  function Start(schema: Schema): nat {
    FieldOffset(schema, |schema|)
  }

  function Strs(schema: Schema): nat {
    StrCount(schema, |schema|)
  }

  // String bytes of the first i values.
  function StrBytes(values: seq<Value>, i: nat): nat
    requires i <= |values|
  {
    if i == 0 then 0 else StrBytes(values, i - 1) + if values[i - 1].VStr? then |values[i - 1].bytes| else 0
  }

  lemma {:induction false} Monotone(schema: Schema, i: nat, j: nat)
    requires i <= j <= |schema|
    ensures FixedWidth(schema, i) <= FixedWidth(schema, j)
    ensures StrCount(schema, i) <= StrCount(schema, j)
    ensures i < j && !IsStr(schema[i].dataType) ==>
      FixedWidth(schema, i) + Width(schema[i].dataType) <= FixedWidth(schema, j)
    ensures i < j && IsStr(schema[i].dataType) ==> StrCount(schema, i) + 1 <= StrCount(schema, j)
  {
    if i < j {
      Monotone(schema, i, j - 1);
    }
  }

  lemma {:induction false} StrBytesMonotone(values: seq<Value>, i: nat, j: nat)
    requires i <= j <= |values|
    ensures StrBytes(values, i) <= StrBytes(values, j)
    ensures i < j && values[i].VStr? ==> StrBytes(values, i) + |values[i].bytes| <= StrBytes(values, j)
  {
    if i < j {
      StrBytesMonotone(values, i, j - 1);
    }
  }

  lemma {:induction false} StrBytesPrefix(a: seq<Value>, b: seq<Value>, i: nat)
    requires i <= |a| <= |b| && b[..|a|] == a
    ensures StrBytes(a, i) == StrBytes(b, i)
  {
    if i > 0 {
      StrBytesPrefix(a, b, i - 1);
      assert a[i - 1] == b[i - 1];
    }
  }

  // ----- Rows -----

  // RowView::IsNULL.
  predicate NullAt(row: seq<byte>, i: nat)
    requires HEADER_LENGTH + i / 8 < |row|
  {
    Bit(row[HEADER_LENGTH + i / 8], i % 8)
  }

  // Where entry p of the string offset table starts: start + w * p.
  function Slot(schema: Schema, w: nat, p: nat): nat {
    if p == 0 then Start(schema) else Slot(schema, w, p - 1) + w
  }

  lemma {:induction false} SlotIs(schema: Schema, w: nat, p: nat)
    ensures Slot(schema, w, p) == Start(schema) + w * p
  {
    if p > 0 {
      SlotIs(schema, w, p - 1);
      assert w * p == w * (p - 1) + w;
    }
  }

  lemma {:induction false} SlotMonotone(schema: Schema, w: nat, p: nat, q: nat)
    requires p <= q
    ensures Start(schema) <= Slot(schema, w, p) <= Slot(schema, w, q)
    ensures p < q ==> Slot(schema, w, p) + w <= Slot(schema, w, q)
  {
    if p < q {
      SlotMonotone(schema, w, p, q - 1);
    } else if p > 0 {
      SlotMonotone(schema, w, p - 1, q - 1);
    }
  }

  function Addr(schema: Schema, row: seq<byte>, w: nat, p: nat): nat
    requires Slot(schema, w, p) + w <= |row|
  {
    ReadAddr(row[Slot(schema, w, p)..Slot(schema, w, p) + w])
  }

  function StrBase(schema: Schema, w: nat): nat {
    Slot(schema, w, Strs(schema))
  }

  function StrOffset(schema: Schema, w: nat, values: seq<Value>, i: nat): nat
    requires i <= |values|
  {
    StrBase(schema, w) + StrBytes(values, i)
  }

  // The bitmap and the offset table lie inside the row.
  lemma {:induction false} Inside(schema: Schema, i: nat, w: nat)
    requires i < |schema|
    ensures HEADER_LENGTH + i / 8 < HEADER_LENGTH + BitMapSize(|schema|) <= FieldOffset(schema, i) <= Start(schema)
    ensures !IsStr(schema[i].dataType) ==> FieldOffset(schema, i) + Width(schema[i].dataType) <= Start(schema)
    ensures IsStr(schema[i].dataType) ==> StrCount(schema, i) < Strs(schema)
  {
    Monotone(schema, i, |schema|);
  }

  // A fixed field holds its value.
  ghost predicate FixedOk(schema: Schema, row: seq<byte>, v: Value, i: nat)
    requires i < |schema|
  {
    !IsStr(schema[i].dataType) && TypeOk(schema[i].dataType, v) ==>
      var off := FieldOffset(schema, i);
      off + |FixedBytes(v)| <= |row| && row[off..off + |FixedBytes(v)|] == FixedBytes(v)
  }

  // A string column's bytes are in place, and the offset table says where it
  // starts and where the next one does.
  ghost predicate StrOk(schema: Schema, row: seq<byte>, w: nat, values: seq<Value>, i: nat)
    requires i < |values| <= |schema| && StrBase(schema, w) <= |row|
  {
    IsStr(schema[i].dataType) ==>
      var p := StrCount(schema, i);
      && Slot(schema, w, p) + w <= |row|
      && (values[i].VStr? ==>
            var off := StrOffset(schema, w, values, i);
            && Addr(schema, row, w, p) == off
            && off + |values[i].bytes| <= |row| && row[off..off + |values[i].bytes|] == values[i].bytes)
      && (p + 1 < Strs(schema) ==>
            && Slot(schema, w, p + 1) + w <= |row|
            && Addr(schema, row, w, p + 1) == StrOffset(schema, w, values, i + 1))
  }

  ghost predicate ColumnOk(schema: Schema, row: seq<byte>, w: nat, values: seq<Value>, i: nat)
    requires i < |values| <= |schema| && StrBase(schema, w) <= |row|
  {
    && HEADER_LENGTH + i / 8 < |row|
    && NullAt(row, i) == values[i].Null?
    && FixedOk(schema, row, values[i], i)
    && StrOk(schema, row, w, values, i)
  }

  // The first |values| columns of the row hold the values.
  ghost predicate Laid(schema: Schema, row: seq<byte>, w: nat, values: seq<Value>) {
    && RowFits(schema, values) && StrBase(schema, w) <= |row|
    && forall i :: 0 <= i < |values| ==> ColumnOk(schema, row, w, values, i)
  }

  // Only bytes that the columns before |values| do not depend on changed.
  ghost predicate Keeps(schema: Schema, row: seq<byte>, row': seq<byte>, w: nat, values: seq<Value>)
    requires |values| <= |schema|
  {
    var k := |values|;
    && |row'| == |row|
    && BitsAgree(row, row', k)
    && Agree(row, row', FieldOffset(schema, 0), FieldOffset(schema, k))
    && (StrCount(schema, k) > 0 ==> Agree(row, row', Start(schema), TableUsed(schema, w, k)))
    && Agree(row, row', StrBase(schema, w), StrOffset(schema, w, values, k))
  }

  // The end of the table entries that the first k columns use.
  function TableUsed(schema: Schema, w: nat, k: nat): nat
    requires k <= |schema|
  {
    Slot(schema, w, if StrCount(schema, k) < Strs(schema) then StrCount(schema, k) + 1 else Strs(schema))
  }

  ghost predicate BitsAgree(row: seq<byte>, row': seq<byte>, k: nat) {
    forall j: nat {:trigger NullAt(row', j)} :: j < k && HEADER_LENGTH + j / 8 < |row| && HEADER_LENGTH + j / 8 < |row'| ==>
      NullAt(row', j) == NullAt(row, j)
  }

  lemma {:induction false} FixedKept(schema: Schema, row: seq<byte>, row': seq<byte>, w: nat, values: seq<Value>, i: nat)
    requires RowFits(schema, values) && i < |values|
    requires Keeps(schema, row, row', w, values) && FixedOk(schema, row, values[i], i)
    ensures FixedOk(schema, row', values[i], i)
  {
    var t := schema[i].dataType;
    if !IsStr(t) && TypeOk(t, values[i]) {
      FixedRoundTrip(t, values[i]);
      Monotone(schema, 0, i);
      Monotone(schema, i, |values|);
      var off := FieldOffset(schema, i);
      AgreeWithin(row, row', FieldOffset(schema, 0), FieldOffset(schema, |values|), off, off + Width(t));
    }
  }

  lemma {:induction false} AddrAgree(schema: Schema, row: seq<byte>, row': seq<byte>, w: nat, p: nat)
    requires Slot(schema, w, p) + w <= |row| == |row'|
    requires Agree(row, row', Slot(schema, w, p), Slot(schema, w, p) + w)
    ensures Addr(schema, row', w, p) == Addr(schema, row, w, p)
  {
  }

  lemma {:induction false} AddrKept(schema: Schema, row: seq<byte>, row': seq<byte>, w: nat, values: seq<Value>, p: nat)
    requires |values| <= |schema| && StrBase(schema, w) <= |row| && Keeps(schema, row, row', w, values)
    requires p < Strs(schema) && 0 < StrCount(schema, |values|) && p <= StrCount(schema, |values|)
    ensures Slot(schema, w, p) + w <= |row|
    ensures Addr(schema, row', w, p) == Addr(schema, row, w, p)
  {
    var used := if StrCount(schema, |values|) < Strs(schema) then StrCount(schema, |values|) + 1 else Strs(schema);
    SlotMonotone(schema, w, p, Strs(schema));
    SlotMonotone(schema, w, p, used);
    AgreeWithin(row, row', Start(schema), Slot(schema, w, used), Slot(schema, w, p), Slot(schema, w, p) + w);
    AddrAgree(schema, row, row', w, p);
  }

  lemma {:induction false} StrKept(schema: Schema, row: seq<byte>, row': seq<byte>, w: nat, values: seq<Value>, i: nat)
    requires RowFits(schema, values) && StrBase(schema, w) <= |row| && i < |values|
    requires Keeps(schema, row, row', w, values) && StrOk(schema, row, w, values, i)
    ensures StrOk(schema, row', w, values, i)
  {
    if IsStr(schema[i].dataType) {
      var p := StrCount(schema, i);
      Monotone(schema, i, |values|);
      Inside(schema, i, w);
      AddrKept(schema, row, row', w, values, p);
      if p + 1 < Strs(schema) {
        AddrKept(schema, row, row', w, values, p + 1);
      }
      if values[i].VStr? {
        BytesKept(schema, row, row', w, values, i);
      }
    }
  }

  lemma {:induction false} BytesKept(schema: Schema, row: seq<byte>, row': seq<byte>, w: nat, values: seq<Value>, i: nat)
    requires i < |values| <= |schema| && values[i].VStr?
    requires Agree(row, row', StrBase(schema, w), StrOffset(schema, w, values, |values|)) && |row| == |row'|
    requires StrOffset(schema, w, values, i) + |values[i].bytes| <= |row|
    ensures var off := StrOffset(schema, w, values, i); row'[off..off + |values[i].bytes|] == row[off..off + |values[i].bytes|]
  {
    StrBytesMonotone(values, i, |values|);
    var off := StrOffset(schema, w, values, i);
    AgreeWithin(row, row', StrBase(schema, w), StrOffset(schema, w, values, |values|), off, off + |values[i].bytes|);
  }

  // Adding a value does not disturb what is laid.
  lemma {:induction false} LaidKept(schema: Schema, row: seq<byte>, row': seq<byte>, w: nat, values: seq<Value>, v: Value)
    requires Laid(schema, row, w, values) && Keeps(schema, row, row', w, values)
    requires |values| < |schema| && Fits(schema[|values|], v)
    requires ColumnOk(schema, row', w, values + [v], |values|)
    ensures Laid(schema, row', w, values + [v])
  {
    assert |row'| == |row|;
    hide Keeps, ColumnOk;
    var all := values + [v];
    forall i | 0 <= i < |values|
      ensures ColumnOk(schema, row', w, all, i)
    {
      ColumnKept(schema, row, row', w, values, v, i);
    }
  }

  lemma {:induction false} ColumnKept(schema: Schema, row: seq<byte>, row': seq<byte>, w: nat, values: seq<Value>, v: Value, i: nat)
    requires RowFits(schema, values) && i < |values| < |schema| && StrBase(schema, w) <= |row| == |row'|
    requires ColumnOk(schema, row, w, values, i) && Keeps(schema, row, row', w, values)
    ensures ColumnOk(schema, row', w, values + [v], i)
  {
    hide Addr, Slot;
    FixedKept(schema, row, row', w, values, i);
    StrKept(schema, row, row', w, values, i);
    StrBytesPrefix(values, values + [v], i);
    StrBytesPrefix(values, values + [v], i + 1);
    assert NullAt(row', i) == NullAt(row, i);
  }

  // ----- Appending -----

  function PutNull(row: seq<byte>, i: nat, on: bool): (r: seq<byte>)
    requires HEADER_LENGTH + i / 8 < |row|
    ensures |r| == |row|
  {
    Splice(row, HEADER_LENGTH + i / 8, [SetBit(row[HEADER_LENGTH + i / 8], i % 8, on)])
  }

  lemma {:induction false} PutNullBits(row: seq<byte>, i: nat, on: bool, j: nat)
    requires HEADER_LENGTH + i / 8 < |row| && HEADER_LENGTH + j / 8 < |row|
    ensures NullAt(PutNull(row, i, on), j) == if j == i then on else NullAt(row, j)
  {
    var b := HEADER_LENGTH + i / 8;
    var r := PutNull(row, i, on);
    assert r[b..b + 1][0] == r[b];
    if j / 8 != i / 8 {
      SpliceAgree(row, b, [r[b]], HEADER_LENGTH + j / 8, HEADER_LENGTH + j / 8 + 1);
      assert r[HEADER_LENGTH + j / 8..HEADER_LENGTH + j / 8 + 1][0] == r[HEADER_LENGTH + j / 8];
      assert row[HEADER_LENGTH + j / 8..HEADER_LENGTH + j / 8 + 1][0] == row[HEADER_LENGTH + j / 8];
    }
  }

  // The row after a fixed field is set: its null bit off, its bytes in place.
  function AfterFixed(schema: Schema, row: seq<byte>, i: nat, v: Value): seq<byte>
    requires i < |schema| && !IsStr(schema[i].dataType) && TypeOk(schema[i].dataType, v)
    requires Start(schema) <= |row|
  {
    Inside(schema, i, 0);
    assert |FixedBytes(v)| == Width(schema[i].dataType);
    Splice(PutNull(row, i, false), FieldOffset(schema, i), FixedBytes(v))
  }

  // The row after SetStrOffset(p) while the next string offset is so.
  function AfterOffset(schema: Schema, row: seq<byte>, w: nat, p: nat, so: nat): (r: seq<byte>)
    requires StrBase(schema, w) <= |row| && 1 <= w <= 4
    ensures |r| == |row|
  {
    if p >= Strs(schema) then row else
      SlotMonotone(schema, w, p, Strs(schema));
      Splice(row, Slot(schema, w, p), AddrBytes(w, so))
  }

  function AfterNull(schema: Schema, row: seq<byte>, w: nat, i: nat, so: nat): seq<byte>
    requires i < |schema| && StrBase(schema, w) <= |row| && 1 <= w <= 4
  {
    BitInside(schema, w, i);
    var r := PutNull(row, i, true);
    if IsStr(schema[i].dataType) then AfterOffset(schema, r, w, StrCount(schema, i) + 1, so) else r
  }

  // The row after SetString has stored the entry of a first string and the
  // string itself ...
  function StringStored(schema: Schema, row: seq<byte>, w: nat, i: nat, so: nat, bytes: seq<byte>): (r: seq<byte>)
    requires i < |schema| && StrBase(schema, w) <= |row| && 1 <= w <= 4 && so + |bytes| <= |row|
    ensures |r| == |row|
  {
    var p := StrCount(schema, i);
    Splice(if p == 0 then AfterOffset(schema, row, w, p, so) else row, so, bytes)
  }

  // ... and after it has stored the entry of the next string and the null bit.
  function AfterString(schema: Schema, row: seq<byte>, w: nat, i: nat, so: nat, bytes: seq<byte>): seq<byte>
    requires i < |schema| && StrBase(schema, w) <= |row| && 1 <= w <= 4 && so + |bytes| <= |row|
  {
    BitInside(schema, w, i);
    var r2 := StringStored(schema, row, w, i, so, bytes);
    PutNull(AfterOffset(schema, r2, w, StrCount(schema, i) + 1, so + |bytes|), i, false)
  }

  lemma {:induction false} TableAfterFields(schema: Schema, w: nat, i: nat)
    requires i <= |schema|
    ensures FieldOffset(schema, 0) <= FieldOffset(schema, i) <= Start(schema) <= StrBase(schema, w)
  {
    Monotone(schema, 0, i);
    Monotone(schema, i, |schema|);
    SlotMonotone(schema, w, 0, Strs(schema));
  }

  lemma {:induction false} BitInside(schema: Schema, w: nat, i: nat)
    requires i < |schema|
    ensures HEADER_LENGTH + i / 8 < FieldOffset(schema, 0) <= StrBase(schema, w)
  {
    TableAfterFields(schema, w, 0);
  }

  lemma {:induction false} KeepsTrans(schema: Schema, a: seq<byte>, b: seq<byte>, c: seq<byte>, w: nat, values: seq<Value>)
    requires |values| <= |schema| && Keeps(schema, a, b, w, values) && Keeps(schema, b, c, w, values)
    ensures Keeps(schema, a, c, w, values)
  {
  }

  // The null bit of the next column is nobody else's.
  lemma {:induction false} KeepsBit(schema: Schema, row: seq<byte>, w: nat, values: seq<Value>, on: bool)
    requires |values| < |schema| && StrOffset(schema, w, values, |values|) <= |row|
    ensures HEADER_LENGTH + |values| / 8 < |row|
    ensures Keeps(schema, row, PutNull(row, |values|, on), w, values)
    ensures NullAt(PutNull(row, |values|, on), |values|) == on
  {
    var k := |values|;
    BitInside(schema, w, k);
    TableAfterFields(schema, w, k);
    var b := HEADER_LENGTH + k / 8;
    var bs := [SetBit(row[b], k % 8, on)];
    forall j: nat | j < k && HEADER_LENGTH + j / 8 < |row|
      ensures NullAt(PutNull(row, k, on), j) == NullAt(row, j)
    {
      PutNullBits(row, k, on, j);
    }
    PutNullBits(row, k, on, k);
    SpliceAgree(row, b, bs, FieldOffset(schema, 0), StrOffset(schema, w, values, k));
    KeepsWide(schema, row, PutNull(row, k, on), w, values);
  }

  // Agreement on everything after the bitmap is more than enough.
  lemma {:induction false} KeepsWide(schema: Schema, row: seq<byte>, row': seq<byte>, w: nat, values: seq<Value>)
    requires |values| <= |schema| && |row| == |row'| && BitsAgree(row, row', |values|)
    requires Agree(row, row', FieldOffset(schema, 0), StrOffset(schema, w, values, |values|))
    ensures Keeps(schema, row, row', w, values)
  {
    var k := |values|;
    TableAfterFields(schema, w, k);
    var lo, hi := FieldOffset(schema, 0), StrOffset(schema, w, values, k);
    AgreeWithin(row, row', lo, hi, lo, FieldOffset(schema, k));
    Monotone(schema, k, |schema|);
    var used := if StrCount(schema, k) < Strs(schema) then StrCount(schema, k) + 1 else Strs(schema);
    SlotMonotone(schema, w, used, Strs(schema));
    AgreeWithin(row, row', lo, hi, Start(schema), Slot(schema, w, used));
    AgreeWithin(row, row', lo, hi, StrBase(schema, w), hi);
  }

  // A store after the fields leaves every null bit alone.
  lemma {:induction false} BitsAfterStore(schema: Schema, row: seq<byte>, off: nat, bs: seq<byte>)
    requires FieldOffset(schema, 0) <= off && off + |bs| <= |row|
    ensures BitsAgree(row, Splice(row, off, bs), |schema|)
  {
    var row' := Splice(row, off, bs);
    forall j: nat | j < |schema| && HEADER_LENGTH + j / 8 < |row|
      ensures NullAt(row', j) == NullAt(row, j)
    {
      var b := HEADER_LENGTH + j / 8;
      BitInside(schema, 0, j);
      SpliceAgree(row, off, bs, b, b + 1);
      assert row'[b..b + 1][0] == row'[b] && row[b..b + 1][0] == row[b];
    }
  }

  // A store into the field, the table entry or the string bytes of a later
  // column.
  lemma {:induction false} KeepsStore(schema: Schema, row: seq<byte>, w: nat, values: seq<Value>, off: nat, bs: seq<byte>)
    requires |values| <= |schema| && off + |bs| <= |row| && StrOffset(schema, w, values, |values|) <= |row|
    requires FieldOffset(schema, |values|) <= off
    requires StrCount(schema, |values|) == 0 || off + |bs| <= Start(schema) || TableUsed(schema, w, |values|) <= off
    requires off + |bs| <= StrBase(schema, w) || StrOffset(schema, w, values, |values|) <= off
    ensures Keeps(schema, row, Splice(row, off, bs), w, values)
  {
    var k := |values|;
    TableAfterFields(schema, w, k);
    BitsAfterStore(schema, row, off, bs);
    SpliceAgree(row, off, bs, FieldOffset(schema, 0), FieldOffset(schema, k));
    Monotone(schema, k, |schema|);
    if StrCount(schema, k) > 0 {
      var used := if StrCount(schema, k) < Strs(schema) then StrCount(schema, k) + 1 else Strs(schema);
      SlotMonotone(schema, w, used, Strs(schema));
      SpliceAgree(row, off, bs, Start(schema), Slot(schema, w, used));
    }
    SpliceAgree(row, off, bs, StrBase(schema, w), StrOffset(schema, w, values, k));
  }

  lemma {:induction false} FixedLaid(schema: Schema, row: seq<byte>, w: nat, values: seq<Value>, v: Value)
    requires Laid(schema, row, w, values) && |values| < |schema| && StrOffset(schema, w, values, |values|) <= |row|
    requires !IsStr(schema[|values|].dataType) && TypeOk(schema[|values|].dataType, v) && InRange(v)
    ensures Start(schema) <= |row| && Laid(schema, AfterFixed(schema, row, |values|, v), w, values + [v])
  {
    var i := |values|;
    TableAfterFields(schema, w, i);
    TableAfterFields(schema, w, i + 1);
    var off, bs := FieldOffset(schema, i), FixedBytes(v);
    FixedRoundTrip(schema[i].dataType, v);
    KeepsBit(schema, row, w, values, false);
    var r := PutNull(row, i, false);
    KeepsStore(schema, r, w, values, off, bs);
    BitsAfterStore(schema, r, off, bs);
    var row' := Splice(r, off, bs);
    KeepsTrans(schema, row, r, row', w, values);
    assert NullAt(row', i) == NullAt(r, i);
    LaidKept(schema, row, row', w, values, v);
  }

  // Between two strings only columns without string bytes lie, so the offset
  // left by the last string is the offset of the next.
  lemma {:induction false} NextAddr(schema: Schema, row: seq<byte>, w: nat, values: seq<Value>, k: nat)
    requires Laid(schema, row, w, values) && k <= |values|
    requires 0 < StrCount(schema, k) < Strs(schema)
    ensures Slot(schema, w, StrCount(schema, k)) + w <= |row|
    ensures Addr(schema, row, w, StrCount(schema, k)) == StrOffset(schema, w, values, k)
  {
    assert ColumnOk(schema, row, w, values, k - 1);
    if !IsStr(schema[k - 1].dataType) {
      assert Fits(schema[k - 1], values[k - 1]);
      NextAddr(schema, row, w, values, k - 1);
    }
  }

  lemma {:induction false} OffsetStored(schema: Schema, row: seq<byte>, w: nat, p: nat, so: nat)
    requires w == AddrLength(|row|) && so <= |row| < TWO32 && StrBase(schema, w) <= |row| && p < Strs(schema)
    ensures Slot(schema, w, p) + w <= |row|
    ensures Addr(schema, AfterOffset(schema, row, w, p, so), w, p) == so
  {
    SlotMonotone(schema, w, p, Strs(schema));
    AddrRoundTrip(|row|, so);
  }

  // Writing the entry of the next string disturbs no column before it.
  lemma {:induction false} KeepsNextOffset(schema: Schema, row: seq<byte>, w: nat, values: seq<Value>, so: nat)
    requires |values| <= |schema| && StrOffset(schema, w, values, |values|) <= |row| && 1 <= w <= 4
    ensures var row' := AfterOffset(schema, row, w, StrCount(schema, |values|) + 1, so);
      Keeps(schema, row, row', w, values) && BitsAgree(row, row', |schema|)
  {
    hide AddrBytes;
    var p := StrCount(schema, |values|) + 1;
    TableAfterFields(schema, w, |values|);
    if p < Strs(schema) {
      SlotMonotone(schema, w, 0, p);
      SlotMonotone(schema, w, p, Strs(schema));
      KeepsStore(schema, row, w, values, Slot(schema, w, p), AddrBytes(w, so));
      BitsAfterStore(schema, row, Slot(schema, w, p), AddrBytes(w, so));
    }
  }

  lemma {:induction false} NullColumn(schema: Schema, r: seq<byte>, row': seq<byte>, w: nat, values: seq<Value>)
    requires |values| < |schema| && IsStr(schema[|values|].dataType) && StrBase(schema, w) <= |row'|
    requires HEADER_LENGTH + |values| / 8 < |row'| && NullAt(row', |values|)
    requires var p := StrCount(schema, |values|) + 1;
      p < Strs(schema) ==> Slot(schema, w, p) + w <= |row'| && Addr(schema, row', w, p) == StrOffset(schema, w, values, |values|)
    ensures ColumnOk(schema, row', w, values + [Null], |values|)
  {
    var i := |values|;
    Inside(schema, i, w);
    SlotMonotone(schema, w, StrCount(schema, i), Strs(schema));
    StrBytesPrefix(values, values + [Null], i);
  }

  lemma {:induction false} NullLaidStr(schema: Schema, row: seq<byte>, r: seq<byte>, row': seq<byte>, w: nat, values: seq<Value>, so: nat)
    requires Laid(schema, row, w, values) && |values| < |schema| && !schema[|values|].notNull
    requires w == AddrLength(|row|) && so == StrOffset(schema, w, values, |values|) <= |row| < TWO32
    requires IsStr(schema[|values|].dataType) && HEADER_LENGTH + |values| / 8 < |row|
    requires r == PutNull(row, |values|, true) && row' == AfterOffset(schema, r, w, StrCount(schema, |values|) + 1, so)
    ensures Laid(schema, row', w, values + [Null])
  {
    hide Splice, Keeps, PutNull, AfterOffset, Laid;
    KeepsBit(schema, row, w, values, true);
    KeepsNextOffset(schema, r, w, values, so);
    KeepsTrans(schema, row, r, row', w, values);
    if StrCount(schema, |values|) + 1 < Strs(schema) {
      OffsetStored(schema, r, w, StrCount(schema, |values|) + 1, so);
    }
    assert NullAt(row', |values|) == NullAt(r, |values|);
    NullColumn(schema, r, row', w, values);
    LaidKept(schema, row, row', w, values, Null);
  }

  lemma {:induction false} NullLaid(schema: Schema, row: seq<byte>, w: nat, values: seq<Value>, so: nat)
    requires Laid(schema, row, w, values) && |values| < |schema| && !schema[|values|].notNull
    requires w == AddrLength(|row|) && so == StrOffset(schema, w, values, |values|) <= |row| < TWO32
    ensures Laid(schema, AfterNull(schema, row, w, |values|, so), w, values + [Null])
  {
    hide Splice, Keeps, PutNull, AfterOffset;
    KeepsBit(schema, row, w, values, true);
    var r := PutNull(row, |values|, true);
    if IsStr(schema[|values|].dataType) {
      NullLaidStr(schema, row, r, AfterNull(schema, row, w, |values|, so), w, values, so);
    } else {
      LaidKept(schema, row, r, w, values, Null);
    }
  }

  lemma {:induction false} StoredKeeps(schema: Schema, row: seq<byte>, w: nat, values: seq<Value>, so: nat, bytes: seq<byte>)
    requires |values| < |schema| && 1 <= w <= 4 && IsStr(schema[|values|].dataType)
    requires so == StrOffset(schema, w, values, |values|) && so + |bytes| <= |row|
    ensures Keeps(schema, row, StringStored(schema, row, w, |values|, so, bytes), w, values)
  {
    var k, p := |values|, StrCount(schema, |values|);
    Inside(schema, k, w);
    TableAfterFields(schema, w, k);
    SlotMonotone(schema, w, p, Strs(schema));
    var r1 := if p == 0 then AfterOffset(schema, row, w, p, so) else row;
    if p == 0 {
      KeepsStore(schema, row, w, values, Slot(schema, w, 0), AddrBytes(w, so));
    }
    SlotMonotone(schema, w, p + 1, Strs(schema));
    KeepsStore(schema, r1, w, values, so, bytes);
    KeepsTrans(schema, row, r1, Splice(r1, so, bytes), w, values);
  }

  // The string's own entry holds its offset once it is stored.
  lemma {:induction false} OwnEntry(schema: Schema, row: seq<byte>, w: nat, values: seq<Value>, so: nat, bytes: seq<byte>)
    requires Laid(schema, row, w, values) && |values| < |schema| && IsStr(schema[|values|].dataType)
    requires w == AddrLength(|row|) && so == StrOffset(schema, w, values, |values|) && so + |bytes| <= |row| < TWO32
    ensures var p, r2 := StrCount(schema, |values|), StringStored(schema, row, w, |values|, so, bytes);
      Slot(schema, w, p) + w <= |row| && Addr(schema, r2, w, p) == so && r2[so..so + |bytes|] == bytes
  {
    hide AddrBytes, ReadAddr;
    var p := StrCount(schema, |values|);
    Inside(schema, |values|, w);
    SlotMonotone(schema, w, p, Strs(schema));
    var r1 := if p == 0 then AfterOffset(schema, row, w, p, so) else row;
    if p == 0 {
      OffsetStored(schema, row, w, p, so);
    } else {
      NextAddr(schema, row, w, values, |values|);
    }
    SpliceAgree(r1, so, bytes, Slot(schema, w, p), Slot(schema, w, p) + w);
    AddrAgree(schema, r1, Splice(r1, so, bytes), w, p);
  }

  // Writing the entry of the next string leaves the string's own entry and
  // its bytes.
  lemma {:induction false} NextEntry(schema: Schema, r2: seq<byte>, r3: seq<byte>, w: nat, i: nat, so: nat, end: nat)
    requires i < |schema| && IsStr(schema[i].dataType) && StrBase(schema, w) <= so <= end <= |r2| < TWO32
    requires w == AddrLength(|r2|) && r3 == AfterOffset(schema, r2, w, StrCount(schema, i) + 1, end)
    ensures var p := StrCount(schema, i);
      && Agree(r2, r3, Slot(schema, w, p), Slot(schema, w, p) + w) && Agree(r2, r3, so, end)
      && (p + 1 < Strs(schema) ==> Slot(schema, w, p + 1) + w <= |r3| && Addr(schema, r3, w, p + 1) == end)
  {
    hide AddrBytes, ReadAddr, Splice;
    var p := StrCount(schema, i);
    Inside(schema, i, w);
    SlotMonotone(schema, w, p, Strs(schema));
    if p + 1 < Strs(schema) {
      SlotMonotone(schema, w, p + 1, Strs(schema));
      OffsetStored(schema, r2, w, p + 1, end);
      SpliceAgree(r2, Slot(schema, w, p + 1), AddrBytes(w, end), Slot(schema, w, p), Slot(schema, w, p) + w);
      SpliceAgree(r2, Slot(schema, w, p + 1), AddrBytes(w, end), so, end);
    }
  }

  lemma {:induction false} BitAgree(schema: Schema, r3: seq<byte>, w: nat, i: nat, lo: nat, hi: nat)
    requires i < |schema| && Start(schema) <= lo && hi <= |r3| && HEADER_LENGTH + i / 8 < |r3|
    ensures Agree(r3, PutNull(r3, i, false), lo, hi)
  {
    BitInside(schema, w, i);
    TableAfterFields(schema, w, i);
    SpliceAgree(r3, HEADER_LENGTH + i / 8, [SetBit(r3[HEADER_LENGTH + i / 8], i % 8, false)], lo, hi);
  }

  // Everything the string column needs of the finished row.
  lemma {:induction false} ClosedFacts(schema: Schema, r2: seq<byte>, r3: seq<byte>, r4: seq<byte>, w: nat, i: nat, so: nat, end: nat)
    requires i < |schema| && IsStr(schema[i].dataType) && StrBase(schema, w) <= so <= end <= |r2| < TWO32
    requires w == AddrLength(|r2|) && r3 == AfterOffset(schema, r2, w, StrCount(schema, i) + 1, end)
    requires HEADER_LENGTH + i / 8 < |r3| && r4 == PutNull(r3, i, false)
    requires Slot(schema, w, StrCount(schema, i)) + w <= |r2|
    ensures var p := StrCount(schema, i);
      && Addr(schema, r4, w, p) == Addr(schema, r2, w, p)
      && (p + 1 < Strs(schema) ==> Slot(schema, w, p + 1) + w <= |r4| && Addr(schema, r4, w, p + 1) == end)
    ensures r4[so..end] == r2[so..end]
    ensures !NullAt(r4, i)
  {
    hide Splice, PutNull, AfterOffset;
    var p := StrCount(schema, i);
    NextEntry(schema, r2, r3, w, i, so, end);
    TableAfterFields(schema, w, i);
    SlotMonotone(schema, w, 0, p);
    BitAgree(schema, r3, w, i, Slot(schema, w, p), Slot(schema, w, p) + w);
    BitAgree(schema, r3, w, i, so, end);
    AddrAgree(schema, r2, r3, w, p);
    AddrAgree(schema, r3, r4, w, p);
    if p + 1 < Strs(schema) {
      SlotMonotone(schema, w, 0, p + 1);
      BitAgree(schema, r3, w, i, Slot(schema, w, p + 1), Slot(schema, w, p + 1) + w);
      AddrAgree(schema, r3, r4, w, p + 1);
    }
    PutNullBits(r3, i, false, i);
  }

  lemma {:induction false} StringColumn(schema: Schema, r4: seq<byte>, w: nat, values: seq<Value>, so: nat, bytes: seq<byte>)
    requires |values| < |schema| && IsStr(schema[|values|].dataType) && StrBase(schema, w) <= |r4|
    requires so == StrOffset(schema, w, values, |values|) && so + |bytes| <= |r4|
    requires HEADER_LENGTH + |values| / 8 < |r4| && !NullAt(r4, |values|)
    requires var p := StrCount(schema, |values|); Slot(schema, w, p) + w <= |r4| && Addr(schema, r4, w, p) == so
    requires r4[so..so + |bytes|] == bytes
    requires var q := StrCount(schema, |values|) + 1;
      q < Strs(schema) ==> Slot(schema, w, q) + w <= |r4| && Addr(schema, r4, w, q) == so + |bytes|
    ensures ColumnOk(schema, r4, w, values + [VStr(bytes)], |values|)
  {
    StrBytesPrefix(values, values + [VStr(bytes)], |values|);
  }

  lemma {:induction false} StringLaidVia(schema: Schema, row: seq<byte>, r2: seq<byte>, r3: seq<byte>, r4: seq<byte>, w: nat,
                                      values: seq<Value>, so: nat, bytes: seq<byte>)
    requires Laid(schema, row, w, values) && |values| < |schema| && IsStr(schema[|values|].dataType)
    requires w == AddrLength(|row|) && so == StrOffset(schema, w, values, |values|) && so + |bytes| <= |row| < TWO32
    requires r2 == StringStored(schema, row, w, |values|, so, bytes)
    requires r3 == AfterOffset(schema, r2, w, StrCount(schema, |values|) + 1, so + |bytes|)
    requires HEADER_LENGTH + |values| / 8 < |r3| && r4 == PutNull(r3, |values|, false)
    ensures Laid(schema, r4, w, values + [VStr(bytes)])
  {
    hide Splice, Keeps, PutNull, AfterOffset, StringStored, Laid;
    StoredKeeps(schema, row, w, values, so, bytes);
    KeepsNextOffset(schema, r2, w, values, so + |bytes|);
    KeepsTrans(schema, row, r2, r3, w, values);
    KeepsBit(schema, r3, w, values, false);
    KeepsTrans(schema, row, r3, r4, w, values);
    OwnEntry(schema, row, w, values, so, bytes);
    ClosedFacts(schema, r2, r3, r4, w, |values|, so, so + |bytes|);
    StringColumn(schema, r4, w, values, so, bytes);
    LaidKept(schema, row, r4, w, values, VStr(bytes));
  }

  lemma {:induction false} StringLaid(schema: Schema, row: seq<byte>, w: nat, values: seq<Value>, so: nat, bytes: seq<byte>)
    requires Laid(schema, row, w, values) && |values| < |schema| && IsStr(schema[|values|].dataType)
    requires w == AddrLength(|row|) && so == StrOffset(schema, w, values, |values|) && so + |bytes| <= |row| < TWO32
    ensures Laid(schema, AfterString(schema, row, w, |values|, so, bytes), w, values + [VStr(bytes)])
  {
    hide Laid, StringStored, AfterOffset, PutNull;
    BitInside(schema, w, |values|);
    var r2 := StringStored(schema, row, w, |values|, so, bytes);
    var r3 := AfterOffset(schema, r2, w, StrCount(schema, |values|) + 1, so + |bytes|);
    StringLaidVia(schema, row, r2, r3, PutNull(r3, |values|, false), w, values, so, bytes);
  }

  // ----- Reading -----

  // v1::GetStrField on entry p: where the string starts and how long it is, in
  // 32-bit arithmetic. The last string ends where the header says the row does.
  function StrRange(schema: Schema, row: seq<byte>, w: nat, p: nat): (r: (nat, nat))
    requires StrBase(schema, w) <= |row| && p < Strs(schema)
  {
    SlotMonotone(schema, w, p, Strs(schema));
    TableAfterFields(schema, w, 0);
    var off := Addr(schema, row, w, p);
    var end := if p + 1 < Strs(schema) then
                 SlotMonotone(schema, w, p + 1, Strs(schema));
                 Addr(schema, row, w, p + 1)
               else FromLittleEndian(row[VERSION_LENGTH..HEADER_LENGTH]);
    (off, (end - off) % TWO32)
  }

  // SetBuffer's header: format version, schema version, size.
  predicate HeaderOk(row: seq<byte>, version: byte) {
    && HEADER_LENGTH < |row| < TWO32 && row[0] == 1 && row[1] == version
    && row[VERSION_LENGTH..HEADER_LENGTH] == LittleEndian(|row|, 4)
  }

  // The row holds exactly the values and nothing more.
  ghost predicate Complete(schema: Schema, row: seq<byte>, version: byte, values: seq<Value>) {
    && |values| == |schema| && HeaderOk(row, version)
    && Laid(schema, row, AddrLength(|row|), values)
    && StrOffset(schema, AddrLength(|row|), values, |values|) == |row|
  }

  // After the last string column no value has string bytes.
  lemma {:induction false} NoMoreStrings(schema: Schema, values: seq<Value>, i: nat, k: nat)
    requires RowFits(schema, values) && i <= k <= |values|
    requires StrCount(schema, i) == StrCount(schema, k)
    ensures StrBytes(values, i) == StrBytes(values, k)
  {
    if i < k {
      Monotone(schema, i, k - 1);
      assert Fits(schema[k - 1], values[k - 1]);
      NoMoreStrings(schema, values, i, k - 1);
    }
  }

  lemma {:induction false} StringReadBack(schema: Schema, row: seq<byte>, version: byte, values: seq<Value>, i: nat)
    requires Complete(schema, row, version, values) && i < |schema| && IsStr(schema[i].dataType) && values[i].VStr?
    ensures StrCount(schema, i) < Strs(schema)
    ensures var (off, len) := StrRange(schema, row, AddrLength(|row|), StrCount(schema, i));
      off + len <= |row| && row[off..off + len] == values[i].bytes
  {
    hide Addr, NullAt, FixedOk, FromLittleEndian, LittleEndian;
    var w, p := AddrLength(|row|), StrCount(schema, i);
    Inside(schema, i, w);
    assert ColumnOk(schema, row, w, values, i);
    SizeReadBack(row, version);
    Monotone(schema, i + 1, |schema|);
    if p + 1 == Strs(schema) {
      NoMoreStrings(schema, values, i + 1, |values|);
    }
  }

  lemma {:induction false} SizeReadBack(row: seq<byte>, version: byte)
    requires HeaderOk(row, version)
    ensures FromLittleEndian(row[VERSION_LENGTH..HEADER_LENGTH]) == |row|
  {
    assert Pow256(4) == TWO32;
    LittleEndianRoundTrip(|row|, 4);
  }

  lemma {:induction false} FixedReadBack(schema: Schema, row: seq<byte>, version: byte, values: seq<Value>, i: nat)
    requires Complete(schema, row, version, values) && i < |schema| && !IsStr(schema[i].dataType) && !values[i].Null?
    ensures var off, t := FieldOffset(schema, i), schema[i].dataType;
      off + Width(t) <= |row| && ReadFixed(t, row[off..off + Width(t)]) == values[i]
  {
    var w := AddrLength(|row|);
    assert ColumnOk(schema, row, w, values, i);
    assert Fits(schema[i], values[i]);
    FixedRoundTrip(schema[i].dataType, values[i]);
  }

  lemma {:induction false} NullReadBack(schema: Schema, row: seq<byte>, version: byte, values: seq<Value>, i: nat)
    requires Complete(schema, row, version, values) && i < |schema|
    ensures HEADER_LENGTH + i / 8 < |row| && NullAt(row, i) == values[i].Null?
  {
    assert ColumnOk(schema, row, AddrLength(|row|), values, i);
  }

  // A row holds at most one list of values.
  lemma {:induction false} CompleteUnique(schema: Schema, row: seq<byte>, version: byte, a: seq<Value>, b: seq<Value>)
    requires Complete(schema, row, version, a) && Complete(schema, row, version, b)
    ensures a == b
  {
    hide Complete, StrRange, ReadFixed;
    assert |a| == |b| == |schema| by {
      CompleteLength(schema, row, version, a);
      CompleteLength(schema, row, version, b);
    }
    forall i | 0 <= i < |a|
      ensures a[i] == b[i]
    {
      NullReadBack(schema, row, version, a, i);
      NullReadBack(schema, row, version, b, i);
      CompleteFits(schema, row, version, a, i);
      CompleteFits(schema, row, version, b, i);
      if !a[i].Null? {
        if IsStr(schema[i].dataType) {
          StringReadBack(schema, row, version, a, i);
          StringReadBack(schema, row, version, b, i);
        } else {
          FixedReadBack(schema, row, version, a, i);
          FixedReadBack(schema, row, version, b, i);
        }
      }
    }
  }

  lemma {:induction false} CompleteLength(schema: Schema, row: seq<byte>, version: byte, values: seq<Value>)
    requires Complete(schema, row, version, values)
    ensures |values| == |schema| && StrBase(schema, AddrLength(|row|)) <= |row|
  {
  }

  lemma {:induction false} CompleteFits(schema: Schema, row: seq<byte>, version: byte, values: seq<Value>, i: nat)
    requires Complete(schema, row, version, values) && i < |schema|
    ensures i < |values| && Fits(schema[i], values[i])
  {
  }
}

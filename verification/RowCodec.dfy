// RowBuilder and RowView of src/codec/codec.cc. A pointer and a length together
// are modelled as an array where bytes are written and as a sequence where they
// are only read; None is the null pointer.

module RowCodec {
  import opened Bytes
  import opened RowLayout

  // What offset_vec_ holds for a column: the number of the string, or where the
  // fixed field starts.
  function ColumnSlot(schema: Schema, i: nat): nat
    requires i < |schema|
  {
    if IsStr(schema[i].dataType) then StrCount(schema, i) else FieldOffset(schema, i)
  }

  predicate IsOffsetVec(schema: Schema, vec: seq<nat>) {
    |vec| == |schema| && forall i :: 0 <= i < |vec| ==> vec[i] == ColumnSlot(schema, i)
  }

  // The loop of the RowBuilder constructor and of RowView::Init.
  method ScanSchema(schema: Schema) returns (start: nat, strs: nat, vec: seq<nat>)
    ensures start == Start(schema) && strs == Strs(schema) && IsOffsetVec(schema, vec)
  {
    start, strs, vec := HEADER_LENGTH + BitMapSize(|schema|), 0, [];
    var idx := 0;
    while idx < |schema|
      invariant 0 <= idx <= |schema|
      invariant start == FieldOffset(schema, idx) && strs == StrCount(schema, idx)
      invariant |vec| == idx && forall i :: 0 <= i < idx ==> vec[i] == ColumnSlot(schema, i)
    {
      var t := schema[idx].dataType;
      if IsStr(t) {
        vec := vec + [strs];
        strs := strs + 1;
      } else {
        vec := vec + [start];
        start := start + Width(t);
      }
      idx := idx + 1;
    }
  }

  lemma {:induction false} SpliceHeader(row: seq<byte>, off: nat, bs: seq<byte>)
    requires HEADER_LENGTH <= off && off + |bs| <= |row|
    ensures Splice(row, off, bs)[..HEADER_LENGTH] == row[..HEADER_LENGTH]
  {
    SpliceAgree(row, off, bs, 0, HEADER_LENGTH);
  }

  lemma {:induction false} HeaderKept(row: seq<byte>, row': seq<byte>, version: byte)
    requires HeaderOk(row, version) && |row'| == |row| && row'[..HEADER_LENGTH] == row[..HEADER_LENGTH]
    ensures HeaderOk(row', version)
  {
    assert row'[0] == row'[..HEADER_LENGTH][0] && row'[1] == row'[..HEADER_LENGTH][1];
    assert row'[VERSION_LENGTH..HEADER_LENGTH] == row'[..HEADER_LENGTH][VERSION_LENGTH..];
    assert row[VERSION_LENGTH..HEADER_LENGTH] == row[..HEADER_LENGTH][VERSION_LENGTH..];
  }

  lemma FixedLength(t: DataType, v: Value)
    requires TypeOk(t, v) && !v.VStr?
    ensures |FixedBytes(v)| == Width(t)
  {
  }

  // SetDate(year, month, day) stores the field before it clears the null bit.
  lemma {:induction false} FieldThenBit(row: seq<byte>, i: nat, off: nat, bs: seq<byte>)
    requires HEADER_LENGTH + i / 8 < off && off + |bs| <= |row|
    ensures PutNull(Splice(row, off, bs), i, false) == Splice(PutNull(row, i, false), off, bs)
  {
    var b := HEADER_LENGTH + i / 8;
    SpliceAgree(row, off, bs, b, b + 1);
    assert row[b..b + 1][0] == Splice(row, off, bs)[b..b + 1][0];
    SpliceCommute(row, b, [SetBit(row[b], i % 8, false)], off, bs);
  }

  // SetBuffer accepts a buffer of this size although its own offset table does
  // not fit into it.
  ghost predicate Overrun(schema: Schema, size: nat) {
    Start(schema) + Strs(schema) <= size < StrBase(schema, AddrLength(size))
  }

  // The guard is wrong for a schema, at some size, just if it has strings and
  // its table with two-byte entries ends past 256.
  lemma {:induction false} GuardExact(schema: Schema)
    ensures (exists size: nat :: size < TWO32 && Overrun(schema, size)) <==>
      Strs(schema) > 0 && Start(schema) + 2 * Strs(schema) > 256 && Start(schema) + Strs(schema) < TWO32
  {
    var start, cnt := Start(schema), Strs(schema);
    if size: nat :| size < TWO32 && Overrun(schema, size) {
      SlotIs(schema, AddrLength(size), cnt);
      OverrunNeeds(start, cnt, size);
    }
    if cnt > 0 && start + 2 * cnt > 256 && start + cnt < TWO32 {
      var size: nat := if start + cnt < 256 then 256 else start + cnt;
      SlotIs(schema, AddrLength(size), cnt);
      OverrunAt(start, cnt, size);
      assert Overrun(schema, size);
    }
  }

  lemma {:induction false} OverrunNeeds(start: nat, cnt: nat, size: nat)
    requires start + cnt <= size < start + AddrLength(size) * cnt
    ensures cnt > 0 && start + 2 * cnt > 256
  {
    match AddrLength(size)
    case 1 =>
    case 2 =>
    case 3 =>
    case 4 =>
  }

  lemma {:induction false} OverrunAt(start: nat, cnt: nat, size: nat)
    requires cnt > 0 && start + 2 * cnt > 256 && size == if start + cnt < 256 then 256 else start + cnt
    ensures size < start + AddrLength(size) * cnt
  {
    match AddrLength(size)
    case 2 =>
    case 3 =>
    case 4 =>
  }

  lemma {:induction false} OnlyStrings(schema: Schema, i: nat)
    requires i <= |schema| && forall j :: 0 <= j < |schema| ==> IsStr(schema[j].dataType)
    ensures StrCount(schema, i) == i && FixedWidth(schema, i) == 0
  {
    if i > 0 {
      OnlyStrings(schema, i - 1);
    }
  }

  // 300 bytes for 200 strings pass the guard, but the table alone needs 400.
  lemma {:induction false} GuardTooWeak() returns (schema: Schema)
    ensures |schema| == 200 && Overrun(schema, 300)
  {
    schema := seq(200, _ => Column(String, false));
    OnlyStrings(schema, 200);
    SlotIs(schema, 2, 200);
  }

  class RowBuilder {
    const schema: Schema
    var buf: array?<byte>
    var size: nat
    var cnt: nat
    var strFieldCnt: nat
    var strAddrLength: nat
    var strFieldStartOffset: nat
    var strOffset: nat
    var schemaVersion: byte
    var offsetVec: seq<nat>
    ghost var values: seq<Value>

    ghost predicate Prepared()
      reads this
    {
      strFieldCnt == Strs(schema) && strFieldStartOffset == Start(schema) && IsOffsetVec(schema, offsetVec)
    }

    // The buffer has room for the bitmap, the fixed fields and the offset table.
    ghost predicate HasBuffer()
      reads this
    {
      && Prepared() && buf != null && HEADER_LENGTH <= buf.Length == size < TWO32
      && strAddrLength == AddrLength(size) && StrBase(schema, strAddrLength) <= size
    }

    // The first cnt columns of the buffer hold `values`.
    ghost predicate Ready()
      reads this, buf
    {
      && HasBuffer() && cnt == |values|
      && Laid(schema, buf[..], strAddrLength, values)
      && strOffset == StrOffset(schema, strAddrLength, values, cnt) <= size
      && size > HEADER_LENGTH && HeaderOk(buf[..], buf[1])
    }

    constructor (schema: Schema)
      ensures this.schema == schema && Prepared() && buf == null && schemaVersion == 1
      ensures size == 0 && cnt == 0 && strAddrLength == 0 && strOffset == 0
    {
      var start, strs, vec := ScanSchema(schema);
      this.schema := schema;
      buf, size, cnt, values := null, 0, 0, [];
      strFieldCnt, strFieldStartOffset, offsetVec := strs, start, vec;
      strAddrLength, strOffset, schemaVersion := 0, 0, 1;
    }

    method SetSchemaVersion(version: byte)
      modifies this`schemaVersion
      ensures schemaVersion == version
    {
      schemaVersion := version;
    }

    // Without 32-bit wrap-around the width charged per string is the one the
    // result selects.
    method CalTotalLength(stringLength: nat) returns (total: nat)
      requires Prepared()
      ensures total == RowLayout.CalTotalLength(|schema|, Start(schema), Strs(schema), stringLength)
      ensures |schema| > 0 && RowSize(Start(schema), Strs(schema), stringLength) < TWO32 ==>
        total == StrBase(schema, AddrLength(total)) + stringLength
      ensures |schema| > 0 ==> (IsLeastSize(Start(schema), Strs(schema), stringLength, total) <==> CanHold(Start(schema), Strs(schema), stringLength))
      ensures |schema| == 0 ==> total == 0
    {
      hide IsLeastSize, CanHold;
      if |schema| > 0 {
        TotalLengthExact(|schema|, strFieldStartOffset, strFieldCnt, stringLength);
      }
      total := RowLayout.CalTotalLength(|schema|, strFieldStartOffset, strFieldCnt, stringLength);
      if |schema| > 0 && RowSize(strFieldStartOffset, strFieldCnt, stringLength) < TWO32 {
        WidthFixedPoint(strFieldStartOffset, strFieldCnt, stringLength);
        SlotIs(schema, AddrLength(total), strFieldCnt);
      }
    }

    // The guard counts one byte per table entry, whatever the entries' width.
    method SetBuffer(b: array?<byte>, needClear: bool) returns (ok: bool)
      requires Prepared() && (b != null ==> b.Length < TWO32)
      modifies this, b
      ensures ok <==> b != null && b.Length != 0 && Start(schema) + Strs(schema) <= b.Length
      ensures Prepared() && schemaVersion == old(schemaVersion)
      ensures !ok ==> buf == old(buf) && (b != null ==> b[..] == old(b[..]))
      ensures ok ==> buf == b && values == []
      ensures ok && |schema| > 0 && StrBase(schema, AddrLength(b.Length)) <= b.Length ==>
        Ready() && b[1] == schemaVersion
      ensures ok && needClear ==> forall k :: HEADER_LENGTH <= k < HEADER_LENGTH + BitMapSize(|schema|) ==> b[k] == 0xff
    {
      if b == null || b.Length == 0 || b.Length < strFieldStartOffset + strFieldCnt {
        return false;
      }
      TableAfterFields(schema, 0, 0);
      WriteHeader(b, needClear);
      buf, size, cnt, values := b, b.Length, 0, [];
      strAddrLength := AddrLength(size);
      strOffset := strFieldStartOffset + strAddrLength * strFieldCnt;
      SlotIs(schema, strAddrLength, strFieldCnt);
      ok := true;
    }

    method WriteHeader(b: array<byte>, needClear: bool)
      requires HEADER_LENGTH + BitMapSize(|schema|) <= b.Length < TWO32
      modifies b
      ensures |schema| > 0 ==> HeaderOk(b[..], schemaVersion)
      ensures needClear ==> forall k :: HEADER_LENGTH <= k < HEADER_LENGTH + BitMapSize(|schema|) ==> b[k] == 0xff
    {
      b[0], b[1] := 1, schemaVersion;
      Store(b, VERSION_LENGTH, LittleEndian(b.Length, 4));
      assert b[..VERSION_LENGTH] == [1, schemaVersion];
      assert b[0] == b[..VERSION_LENGTH][0] && b[1] == b[..VERSION_LENGTH][1];
      assert b[..][VERSION_LENGTH..HEADER_LENGTH] == LittleEndian(b.Length, 4);
      ghost var row := b[..];
      if needClear {
        var k := HEADER_LENGTH;
        while k < HEADER_LENGTH + BitMapSize(|schema|)
          invariant HEADER_LENGTH <= k <= HEADER_LENGTH + BitMapSize(|schema|)
          invariant b[..HEADER_LENGTH] == row[..HEADER_LENGTH]
          invariant forall j :: HEADER_LENGTH <= j < k ==> b[j] == 0xff
        {
          b[k] := 0xff;
          k := k + 1;
        }
      }
      if |schema| > 0 {
        HeaderKept(row, b[..], schemaVersion);
      }
    }

    // SetField, and the store of SetNULL.
    method PutNullBit(index: nat, on: bool)
      requires buf != null && HEADER_LENGTH + index / 8 < buf.Length
      modifies buf
      ensures buf[..] == PutNull(old(buf[..]), index, on)
      ensures buf[..HEADER_LENGTH] == old(buf[..HEADER_LENGTH])
    {
      var b := HEADER_LENGTH + index / 8;
      SpliceHeader(buf[..], b, [SetBit(buf[b], index % 8, on)]);
      Store(buf, b, [SetBit(buf[b], index % 8, on)]);
    }

    method SetStrOffset(p: nat)
      requires HasBuffer()
      modifies buf
      ensures buf[..] == AfterOffset(schema, old(buf[..]), strAddrLength, p, strOffset)
      ensures buf[..HEADER_LENGTH] == old(buf[..HEADER_LENGTH])
    {
      hide AddrBytes;
      if p >= strFieldCnt {
        return;
      }
      SlotMonotone(schema, strAddrLength, p, strFieldCnt);
      SlotIs(schema, strAddrLength, p);
      TableAfterFields(schema, 0, 0);
      SpliceHeader(buf[..], strFieldStartOffset + strAddrLength * p, AddrBytes(strAddrLength, strOffset));
      Store(buf, strFieldStartOffset + strAddrLength * p, AddrBytes(strAddrLength, strOffset));
    }

    // Check, SetField and the store of SetBool, SetInt16, SetInt32, SetInt64,
    // SetTimestamp, SetFloat, SetDouble and SetDate(int32_t).
    method SetFixed(index: nat, v: Value) returns (ok: bool)
      requires HasBuffer() && !v.Null? && !v.VStr?
      modifies buf
      ensures ok <==> index < |schema| && TypeOk(schema[index].dataType, v)
      ensures ok ==> Start(schema) <= size && buf[..] == AfterFixed(schema, old(buf[..]), index, v)
      ensures !ok ==> buf[..] == old(buf[..])
      ensures buf[..HEADER_LENGTH] == old(buf[..HEADER_LENGTH])
    {
      hide PutNull, Splice, FixedBytes;
      if index >= |schema| || !TypeOk(schema[index].dataType, v) {
        return false;
      }
      Inside(schema, index, strAddrLength);
      TableAfterFields(schema, strAddrLength, index);
      PutNullBit(index, false);
      FixedLength(schema[index].dataType, v);
      SpliceHeader(buf[..], offsetVec[index], FixedBytes(v));
      Store(buf, offsetVec[index], FixedBytes(v));
      ok := true;
    }

    method SetDate(index: nat, year: nat, month: nat, day: nat) returns (ok: bool)
      requires HasBuffer()
      modifies buf
      ensures ok <==> 1900 <= year <= 9999 && 1 <= month <= 12 && 1 <= day <= 31 && index < |schema| && schema[index].dataType.Date?
      ensures ok ==> Start(schema) <= size && buf[..] == AfterFixed(schema, old(buf[..]), index, VDate(PackDate(year, month, day)))
      ensures !ok ==> buf[..] == old(buf[..])
      ensures buf[..HEADER_LENGTH] == old(buf[..HEADER_LENGTH])
    {
      hide PutNull, Splice, LittleEndian, PackDate, ToUnsigned;
      if year < 1900 || year > 9999 || month < 1 || month > 12 || day < 1 || day > 31 {
        return false;
      }
      if index >= |schema| || !schema[index].dataType.Date? {
        return false;
      }
      Inside(schema, index, strAddrLength);
      TableAfterFields(schema, strAddrLength, index);
      var bs := FixedBytes(VDate(PackDate(year, month, day)));
      SpliceHeader(buf[..], offsetVec[index], bs);
      FieldThenBit(buf[..], index, offsetVec[index], bs);
      Store(buf, offsetVec[index], bs);
      PutNullBit(index, false);
      ok := true;
    }

    method SetNull(index: nat) returns (ok: bool)
      requires HasBuffer() && index < |schema|
      modifies buf
      ensures ok <==> !schema[index].notNull
      ensures ok ==> buf[..] == AfterNull(schema, old(buf[..]), strAddrLength, index, strOffset)
      ensures !ok ==> buf[..] == old(buf[..])
      ensures buf[..HEADER_LENGTH] == old(buf[..HEADER_LENGTH])
    {
      hide PutNull, AfterOffset;
      if schema[index].notNull {
        return false;
      }
      BitInside(schema, strAddrLength, index);
      PutNullBit(index, true);
      if IsStr(schema[index].dataType) {
        SetStrOffset(offsetVec[index] + 1);
      }
      ok := true;
    }

    // The end of a string in 32 bits, unless the wrapped sum would pass the
    // check and the copy leave the buffer.
    ghost predicate Fitting(end: nat)
      reads this
    {
      end >= TWO32 ==> Wrap(end) > size
    }

    method SetString(index: nat, val: Option<seq<byte>>) returns (ok: bool)
      requires HasBuffer() && StrBase(schema, strAddrLength) <= strOffset
      requires val.Some? ==> Fitting(strOffset + |val.value|)
      modifies this`strOffset, buf
      ensures ok <==> val.Some? && index < |schema| && IsStr(schema[index].dataType) && old(strOffset) + |val.value| <= size
      ensures ok ==> strOffset == old(strOffset) + |val.value|
      ensures ok ==> buf[..] == AfterString(schema, old(buf[..]), strAddrLength, index, old(strOffset), val.value)
      ensures !ok ==> buf[..] == old(buf[..]) && strOffset == old(strOffset)
      ensures buf[..HEADER_LENGTH] == old(buf[..HEADER_LENGTH])
    {
      hide PutNull, AfterOffset, Splice;
      if val.None? || index >= |schema| || !IsStr(schema[index].dataType) {
        return false;
      }
      if Wrap(strOffset + |val.value|) > size {
        return false;
      }
      var p := offsetVec[index];
      BitInside(schema, strAddrLength, index);
      TableAfterFields(schema, strAddrLength, 0);
      if p == 0 {
        SetStrOffset(p);
      }
      SpliceHeader(buf[..], strOffset, val.value);
      Store(buf, strOffset, val.value);
      strOffset := strOffset + |val.value|;
      SetStrOffset(p + 1);
      PutNullBit(index, false);
      ok := true;
    }

    // A row that got one more value is ready for the next.
    ghost method Extend(row: seq<byte>, v: Value)
      requires HasBuffer() && cnt == |values| + 1
      requires Laid(schema, buf[..], strAddrLength, values + [v])
      requires strOffset == StrOffset(schema, strAddrLength, values + [v], cnt) <= size
      requires |row| == size > HEADER_LENGTH && HeaderOk(row, row[1]) && buf[..HEADER_LENGTH] == row[..HEADER_LENGTH]
      modifies this`values
      ensures Ready() && values == old(values) + [v]
    {
      hide Laid, StrOffset, HeaderOk;
      HeaderKept(row, buf[..], row[1]);
      assert buf[1] == buf[..HEADER_LENGTH][1] && row[1] == row[..HEADER_LENGTH][1];
      values := values + [v];
    }

    // AppendBool, AppendInt16, AppendInt32, AppendInt64, AppendTimestamp,
    // AppendFloat, AppendDouble and AppendDate(int32_t).
    method AppendFixed(v: Value) returns (ok: bool)
      requires Ready() && !v.Null? && !v.VStr? && InRange(v)
      modifies this`cnt, this`values, buf
      ensures ok <==> old(cnt) < |schema| && TypeOk(schema[old(cnt)].dataType, v)
      ensures Ready() && values == old(values) + if ok then [v] else []
      ensures buf[..HEADER_LENGTH] == old(buf[..HEADER_LENGTH])
    {
      hide Laid, HeaderOk, AfterFixed;
      ghost var row := buf[..];
      ok := SetFixed(cnt, v);
      if ok {
        FixedLaid(schema, row, strAddrLength, values, v);
        StrBytesPrefix(values, values + [v], cnt);
        cnt := cnt + 1;
        Extend(row, v);
      }
    }

    method AppendDate(year: nat, month: nat, day: nat) returns (ok: bool)
      requires Ready()
      modifies this`cnt, this`values, buf
      ensures ok <==> 1900 <= year <= 9999 && 1 <= month <= 12 && 1 <= day <= 31 && old(cnt) < |schema| && schema[old(cnt)].dataType.Date?
      ensures Ready() && values == old(values) + if ok then [VDate(PackDate(year, month, day))] else []
      ensures buf[..HEADER_LENGTH] == old(buf[..HEADER_LENGTH])
    {
      hide Laid, HeaderOk, AfterFixed, PackDate;
      ghost var row := buf[..];
      ok := SetDate(cnt, year, month, day);
      if ok {
        DateRoundTrip(year, month, day);
        ghost var v := VDate(PackDate(year, month, day));
        FixedLaid(schema, row, strAddrLength, values, v);
        StrBytesPrefix(values, values + [v], cnt);
        cnt := cnt + 1;
        Extend(row, v);
      }
    }

    method AppendNull() returns (ok: bool)
      requires Ready() && cnt < |schema|
      modifies this`cnt, this`values, buf
      ensures ok <==> !schema[old(cnt)].notNull
      ensures Ready() && values == old(values) + if ok then [Null] else []
      ensures buf[..HEADER_LENGTH] == old(buf[..HEADER_LENGTH])
    {
      hide Laid, HeaderOk, AfterNull;
      ghost var row := buf[..];
      ok := SetNull(cnt);
      if ok {
        NullLaid(schema, row, strAddrLength, values, strOffset);
        StrBytesPrefix(values, values + [Null], cnt);
        cnt := cnt + 1;
        Extend(row, Null);
      }
    }

    method AppendString(val: Option<seq<byte>>) returns (ok: bool)
      requires Ready() && (val.Some? ==> Fitting(strOffset + |val.value|))
      modifies this`cnt, this`values, this`strOffset, buf
      ensures ok <==> val.Some? && old(cnt) < |schema| && IsStr(schema[old(cnt)].dataType) && old(strOffset) + |val.value| <= size
      ensures Ready() && values == old(values) + if ok then [VStr(val.value)] else []
      ensures buf[..HEADER_LENGTH] == old(buf[..HEADER_LENGTH])
    {
      hide Laid, HeaderOk, AfterString;
      ghost var row := buf[..];
      ok := SetString(cnt, val);
      if ok {
        StringLaid(schema, row, strAddrLength, values, old(strOffset), val.value);
        StrBytesPrefix(values, values + [VStr(val.value)], cnt);
        cnt := cnt + 1;
        Extend(row, VStr(val.value));
      }
    }
  }

  lemma UnpackIs(date: int)
    ensures UnpackDate(date) == (1900 + date / 0x100 / 0x100, 1 + date / 0x100 % 0x100, date % 0x100)
  {
  }

  class RowView {
    const schema: Schema
    var strAddrLength: nat
    var isValid: bool
    var stringFieldCnt: nat
    var strFieldStartOffset: nat
    var size: nat
    var row: Option<seq<byte>>
    var offsetVec: seq<nat>

    ghost predicate Prepared()
      reads this
    {
      && stringFieldCnt == Strs(schema) && strFieldStartOffset == Start(schema)
      && IsOffsetVec(schema, offsetVec)
      && (row.Some? ==> size == |row.value| && strAddrLength == AddrLength(size))
    }

    constructor (schema: Schema)
      ensures this.schema == schema && row.None? && isValid && Prepared() && size == 0 && strAddrLength == 0
    {
      var start, strs, vec := ScanSchema(schema);
      this.schema := schema;
      isValid, row, size, strAddrLength := true, None, 0, 0;
      strFieldStartOffset, stringFieldCnt, offsetVec := start, strs, vec;
    }

    // A failed Reset leaves the view invalid for good; a later success does not
    // repair it.
    method Reset(r: Option<seq<byte>>) returns (ok: bool)
      requires Prepared()
      modifies this`row, this`size, this`strAddrLength, this`isValid
      ensures Prepared()
      ensures ok <==> |schema| > 0 && r.Some? && |r.value| > HEADER_LENGTH &&
                      FromLittleEndian(r.value[VERSION_LENGTH..HEADER_LENGTH]) == |r.value|
      ensures ok ==> row == r
      ensures !ok ==> row == old(row)
      ensures isValid == (old(isValid) && ok)
    {
      if |schema| == 0 || r.None? || |r.value| <= HEADER_LENGTH ||
         FromLittleEndian(r.value[VERSION_LENGTH..HEADER_LENGTH]) != |r.value| {
        isValid := false;
        return false;
      }
      row := r;
      size := |r.value|;
      strAddrLength := AddrLength(size);
      ok := true;
    }

    predicate CheckValid(idx: nat, t: DataType)
      reads this
    {
      row.Some? && isValid && idx < |schema| && schema[idx].dataType == t
    }

    // The row reaches to the end of its offset table.
    predicate Readable()
      reads this
    {
      row.Some? && StrBase(schema, AddrLength(|row.value|)) <= |row.value|
    }

    method IsNull(idx: nat) returns (isNull: bool)
      requires Prepared() && Readable() && idx < |schema|
      ensures HEADER_LENGTH + idx / 8 < |row.value| && isNull == NullAt(row.value, idx)
    {
      BitInside(schema, AddrLength(|row.value|), idx);
      isNull := NullAt(row.value, idx);
    }

    // GetBool, GetInt16, GetInt32, GetInt64, GetTimestamp, GetFloat, GetDouble
    // and GetDate(int32_t*), by the type they ask for.
    method GetFixed(idx: nat, t: DataType) returns (ret: int, val: Value)
      requires Prepared() && !IsStr(t) && (CheckValid(idx, t) ==> Readable())
      ensures ret == -1 <==> !CheckValid(idx, t)
      ensures CheckValid(idx, t) ==>
        && HEADER_LENGTH + idx / 8 < |row.value|
        && ret == (if NullAt(row.value, idx) then 1 else 0)
      ensures ret == 0 ==>
        var off := FieldOffset(schema, idx);
        off + Width(t) <= |row.value| && val == ReadFixed(t, row.value[off..off + Width(t)])
    {
      hide ReadFixed;
      val := Null;
      if !CheckValid(idx, t) {
        return -1, val;
      }
      var isNull := IsNull(idx);
      if isNull {
        return 1, val;
      }
      Inside(schema, idx, strAddrLength);
      TableAfterFields(schema, strAddrLength, idx);
      var offset := offsetVec[idx];
      return 0, ReadFixed(t, row.value[offset..offset + Width(t)]);
    }

    method GetDate(idx: nat) returns (ret: int, year: int, month: int, day: int)
      requires Prepared() && (CheckValid(idx, Date) ==> Readable())
      ensures ret == -1 <==> !CheckValid(idx, Date)
      ensures CheckValid(idx, Date) ==>
        && HEADER_LENGTH + idx / 8 < |row.value|
        && ret == (if NullAt(row.value, idx) then 1 else 0)
      ensures ret == 0 ==>
        var off := FieldOffset(schema, idx);
        && off + 4 <= |row.value|
        && (year, month, day) == UnpackDate(ToSigned(FromLittleEndian(row.value[off..off + 4]), 4))
    {
      hide UnpackDate, ToSigned, FromLittleEndian;
      year, month, day := 0, 0, 0;
      var val: Value;
      ret, val := GetFixed(idx, Date);
      if ret == 0 {
        var date := val.v;
        day := date % 0x100;
        date := date / 0x100;
        month := 1 + date % 0x100;
        year := 1900 + date / 0x100;
        UnpackIs(val.v);
      }
    }

    // Where the string lies in the row and how long it is.
    method GetString(idx: nat) returns (ret: int, off: nat, len: nat)
      requires Prepared() && (CheckValid(idx, Varchar) || CheckValid(idx, String) ==> Readable())
      ensures ret == -1 <==> !CheckValid(idx, Varchar) && !CheckValid(idx, String)
      ensures ret != -1 ==>
        && HEADER_LENGTH + idx / 8 < |row.value|
        && ret == (if NullAt(row.value, idx) then 1 else 0)
      ensures ret == 0 ==>
        && StrCount(schema, idx) < Strs(schema)
        && (off, len) == StrRange(schema, row.value, AddrLength(|row.value|), StrCount(schema, idx))
    {
      off, len := 0, 0;
      if !CheckValid(idx, Varchar) && !CheckValid(idx, String) {
        return -1, off, len;
      }
      var isNull := IsNull(idx);
      if isNull {
        return 1, off, len;
      }
      Inside(schema, idx, strAddrLength);
      var field := offsetVec[idx];
      var next := if field < stringFieldCnt - 1 then field + 1 else 0;
      off, len := GetStrField(schema, row.value, field, next, strFieldStartOffset, strAddrLength);
      return 0, off, len;
    }
  }

  // v1::GetStrField for the address widths 1 to 4.
  method GetStrField(ghost schema: Schema, row: seq<byte>, field: nat, next: nat, start: nat, w: nat) returns (off: nat, len: nat)
    requires 1 <= w <= 4 && start == Start(schema) && StrBase(schema, w) <= |row|
    requires field < Strs(schema) && next == (if field + 1 < Strs(schema) then field + 1 else 0)
    ensures (off, len) == StrRange(schema, row, w, field)
  {
    hide ReadAddr, FromLittleEndian;
    SlotIs(schema, w, field);
    SlotMonotone(schema, w, field, Strs(schema));
    TableAfterFields(schema, w, 0);
    off := ReadAddr(row[start + field * w..start + field * w + w]);
    var end := FromLittleEndian(row[VERSION_LENGTH..HEADER_LENGTH]);
    if next > 0 {
      SlotIs(schema, w, next);
      SlotMonotone(schema, w, next, Strs(schema));
      end := ReadAddr(row[start + next * w..start + next * w + w]);
    }
    len := (end - off) % TWO32;
  }

  // ----- Whole rows -----

  // The append call that fits the value.
  method AppendValue(b: RowBuilder, v: Value) returns (ok: bool)
    requires b.Ready() && b.cnt < |b.schema| && Fits(b.schema[b.cnt], v)
    requires v.VStr? ==> b.strOffset + |v.bytes| <= b.size
    modifies b`cnt, b`values, b`strOffset, b.buf
    ensures ok && b.Ready() && b.values == old(b.values) + [v]
    ensures b.buf[1] == old(b.buf[1])
  {
    hide Laid, HeaderOk;
    ghost var row := b.buf[..];
    assert row[..HEADER_LENGTH][1] == b.buf[1];
    match v
    case Null => ok := b.AppendNull();
    case VStr(bytes) => ok := b.AppendString(Some(bytes));
    case _ => ok := b.AppendFixed(v);
    assert b.buf[..HEADER_LENGTH][1] == b.buf[1];
  }

  // A row is written column by column into a buffer of CalTotalLength bytes,
  // whatever the buffer held before.
  method WriteRow(b: RowBuilder, buf: array<byte>, needClear: bool, values: seq<Value>) returns (ok: bool)
    requires b.Prepared() && |values| == |b.schema| > 0 && RowFits(b.schema, values)
    requires RowSize(Start(b.schema), Strs(b.schema), StrBytes(values, |values|)) < TWO32
    requires buf.Length == CalTotalLength(|b.schema|, Start(b.schema), Strs(b.schema), StrBytes(values, |values|))
    modifies b, buf
    ensures ok && b.Prepared() && Complete(b.schema, buf[..], old(b.schemaVersion), values)
  {
    hide Laid, Complete, Fits, RowSize, CalTotalLength;
    ghost var n := |values|;
    RowRoom(b.schema, values);
    ok := b.SetBuffer(buf, needClear);
    var i := 0;
    while i < |values|
      invariant 0 <= i <= n && ok
      invariant b.buf == buf && b.size == buf.Length && b.Ready() && b.values == values[..i]
      invariant buf[1] == old(b.schemaVersion)
    {
      StrBytesMonotone(values, i, n);
      StrBytesPrefix(values[..i], values, i);
      assert Fits(b.schema[i], values[i]);
      var done := AppendValue(b, values[i]);
      ok := ok && done;
      assert values[..i + 1] == values[..i] + [values[i]];
      i := i + 1;
    }
    assert values[..n] == values;
    CompleteIs(b.schema, buf[..], buf[1], values);
  }

  lemma {:induction false} RowRoom(schema: Schema, values: seq<Value>)
    requires |values| == |schema| > 0
    requires RowSize(Start(schema), Strs(schema), StrBytes(values, |values|)) < TWO32
    ensures var size := CalTotalLength(|schema|, Start(schema), Strs(schema), StrBytes(values, |values|));
      && size == StrOffset(schema, AddrLength(size), values, |values|)
      && Start(schema) + Strs(schema) <= size && StrBase(schema, AddrLength(size)) <= size && size > HEADER_LENGTH
  {
    var start, cnt, len := Start(schema), Strs(schema), StrBytes(values, |values|);
    TotalLengthExact(|schema|, start, cnt, len);
    WidthFixedPoint(start, cnt, len);
    SlotIs(schema, AddrLength(RowSize(start, cnt, len)), cnt);
    TableAfterFields(schema, 0, 0);
  }

  lemma {:induction false} CompleteIs(schema: Schema, row: seq<byte>, version: byte, values: seq<Value>)
    requires |values| == |schema| && HeaderOk(row, version) && Laid(schema, row, AddrLength(|row|), values)
    requires StrOffset(schema, AddrLength(|row|), values, |values|) == |row|
    ensures Complete(schema, row, version, values)
  {
  }

  // One column of a complete row, read with the getter of its type.
  method ReadValue(view: RowView, idx: nat, ghost version: byte, ghost values: seq<Value>) returns (ret: int, val: Value)
    requires view.Prepared() && view.row.Some? && idx < |view.schema|
    requires Complete(view.schema, view.row.value, version, values)
    ensures |values| == |view.schema|
    ensures ret == -1 <==> !view.isValid
    ensures view.isValid ==> ret == (if values[idx].Null? then 1 else 0) && val == values[idx]
  {
    hide Complete, ReadFixed, StrRange;
    CompleteLength(view.schema, view.row.value, version, values);
    CompleteFits(view.schema, view.row.value, version, values, idx);
    NullReadBack(view.schema, view.row.value, version, values, idx);
    val := Null;
    var t := view.schema[idx].dataType;
    if IsStr(t) {
      var off, len;
      ret, off, len := view.GetString(idx);
      if ret == 0 {
        StringReadBack(view.schema, view.row.value, version, values, idx);
        val := VStr(view.row.value[off..off + len]);
      }
    } else {
      var v;
      ret, v := view.GetFixed(idx, t);
      if ret == 0 {
        FixedReadBack(view.schema, view.row.value, version, values, idx);
        val := v;
      }
    }
  }

  // Writing a row and reading it back gives the values that were written.
  method RoundTrip(schema: Schema, version: byte, values: seq<Value>) returns (row: seq<byte>, out: seq<Value>)
    requires |values| == |schema| > 0 && RowFits(schema, values)
    requires RowSize(Start(schema), Strs(schema), StrBytes(values, |values|)) < TWO32
    ensures |row| == RowSize(Start(schema), Strs(schema), StrBytes(values, |values|))
    ensures out == values
  {
    hide Complete;
    var b := new RowBuilder(schema);
    b.SetSchemaVersion(version);
    var len := StringBytes(values);
    var size := b.CalTotalLength(len);
    TotalLengthExact(|schema|, Start(schema), Strs(schema), len);
    var buf := new byte[size];
    var ok := WriteRow(b, buf, true, values);
    row := buf[..];
    var view := new RowView(schema);
    CompleteHeader(schema, row, version, values);
    ok := view.Reset(Some(row));
    out := [];
    while |out| < |schema|
      invariant |out| <= |schema| && view.Prepared() && view.row == Some(row) && view.isValid
      invariant out == values[..|out|]
    {
      var ret, val := ReadValue(view, |out|, version, values);
      out := out + [val];
    }
  }

  lemma {:induction false} CompleteHeader(schema: Schema, row: seq<byte>, version: byte, values: seq<Value>)
    requires Complete(schema, row, version, values)
    ensures HEADER_LENGTH < |row| && row[1] == version && FromLittleEndian(row[VERSION_LENGTH..HEADER_LENGTH]) == |row|
  {
    SizeReadBack(row, version);
  }

  method StringBytes(values: seq<Value>) returns (len: nat)
    ensures len == StrBytes(values, |values|)
  {
    len := 0;
    var i := 0;
    while i < |values|
      invariant 0 <= i <= |values| && len == StrBytes(values, i)
    {
      if values[i].VStr? {
        len := len + |values[i].bytes|;
      }
      i := i + 1;
    }
  }
}

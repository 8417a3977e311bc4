// RowProject of src/codec/codec.cc: picks columns out of encoded rows of several
// schema versions and encodes them again under one output schema.

module RowProjects {
  import opened Bytes
  import opened RowLayout
  import opened RowCodec
  import opened Sets

  // Later versions append columns to earlier ones.
  ghost predicate Extends(schemas: map<int, Schema>) {
    forall a, b :: a in schemas && b in schemas && a <= b ==> schemas[a] <= schemas[b]
  }

  function Select(values: seq<Value>, plist: seq<nat>): (r: seq<Value>)
    requires forall i :: 0 <= i < |plist| ==> plist[i] < |values|
    ensures |r| == |plist| && forall i :: 0 <= i < |r| ==> r[i] == values[plist[i]]
  {
    seq(|plist|, i requires 0 <= i < |plist| => values[plist[i]])
  }

  predicate AllNull(values: seq<Value>) {
    forall i :: 0 <= i < |values| ==> values[i].Null?
  }

  // The schema has every column the list names, and they are the output's.
  ghost predicate Covers(schema: Schema, plist: seq<nat>, output: Schema) {
    && |output| == |plist|
    && forall i :: 0 <= i < |plist| ==> plist[i] < |schema| && schema[plist[i]] == output[i]
  }

  lemma {:induction false} SelectFits(schema: Schema, plist: seq<nat>, output: Schema, row: seq<byte>, version: byte, values: seq<Value>)
    requires Covers(schema, plist, output) && Complete(schema, row, version, values)
    ensures |values| == |schema| && RowFits(output, Select(values, plist))
  {
    hide Complete, Fits;
    CompleteLength(schema, row, version, values);
    forall i | 0 <= i < |plist|
      ensures Fits(output[i], values[plist[i]])
    {
      CompleteFits(schema, row, version, values, plist[i]);
    }
  }

  // A row that Reset accepts: the size in the header is the size.
  predicate Sized(row: seq<byte>) {
    |row| > HEADER_LENGTH && FromLittleEndian(row[VERSION_LENGTH..HEADER_LENGTH]) == |row|
  }

  // The first loop of Project: how many string bytes are selected.
  method SumStrings(view: RowView, plist: seq<nat>, ghost output: Schema, ghost version: byte, ghost values: seq<Value>)
    returns (ok: bool, strSize: nat)
    requires view.Prepared() && view.row.Some? && Covers(view.schema, plist, output)
    requires Complete(view.schema, view.row.value, version, values)
    ensures |values| == |view.schema|
    ensures view.isValid ==> ok
    ensures ok ==> strSize == StrBytes(Select(values, plist), |plist|)
    ensures !ok ==> !AllNull(Select(values, plist))
  {
    hide Complete, StrRange, Fits;
    ghost var row := view.row.value;
    CompleteLength(view.schema, row, version, values);
    ghost var sel := Select(values, plist);
    strSize := 0;
    var i := 0;
    while i < |plist|
      invariant 0 <= i <= |plist| && strSize == StrBytes(sel, i)
    {
      var idx := plist[i];
      StringsOnlyInStringColumns(view.schema, row, version, values, idx);
      if IsStr(view.schema[idx].dataType) {
        NullReadBack(view.schema, row, version, values, idx);
        var isNull := view.IsNull(idx);
        if !isNull {
          var ret, off, len := view.GetString(idx);
          if ret != 0 {
            return false, strSize;
          }
          StringReadBack(view.schema, row, version, values, idx);
          strSize := strSize + len;
        }
      }
      i := i + 1;
    }
    ok := true;
  }

  lemma {:induction false} StringsOnlyInStringColumns(schema: Schema, row: seq<byte>, version: byte, values: seq<Value>, i: nat)
    requires Complete(schema, row, version, values) && i < |schema|
    ensures i < |values|
    ensures IsStr(schema[i].dataType) ==> values[i].Null? || values[i].VStr?
    ensures !IsStr(schema[i].dataType) ==> !values[i].VStr?
  {
    hide Complete;
    CompleteFits(schema, row, version, values, i);
  }

  method CopyColumn(view: RowView, idx: nat, b: RowBuilder, ghost version: byte, ghost values: seq<Value>) returns (ret: int)
    requires view.Prepared() && view.row.Some? && idx < |view.schema|
    requires Complete(view.schema, view.row.value, version, values) && |values| == |view.schema|
    requires b.Ready() && b.cnt < |b.schema| && Fits(b.schema[b.cnt], values[idx])
    requires values[idx].VStr? ==> b.strOffset + |values[idx].bytes| <= b.size
    modifies b`cnt, b`values, b`strOffset, b.buf
    ensures ret == 0 <==> view.isValid || values[idx].Null?
    ensures b.Ready() && b.values == old(b.values) + if ret == 0 then [values[idx]] else []
    ensures b.buf[1] == old(b.buf[1])
  {
    hide Laid, HeaderOk, Complete, Fits;
    CompleteLength(view.schema, view.row.value, version, values);
    NullReadBack(view.schema, view.row.value, version, values, idx);
    var isNull := view.IsNull(idx);
    if isNull {
      var done := AppendValue(b, Null);
      return 0;
    }
    var val;
    ret, val := ReadValue(view, idx, version, values);
    if ret == 0 {
      var done := AppendValue(b, val);
    }
  }

  // The second loop of Project: each selected column is read and appended.
  method CopyColumns(view: RowView, plist: seq<nat>, b: RowBuilder, buf: array<byte>, ghost version: byte, ghost values: seq<Value>)
    returns (ok: bool)
    requires view.Prepared() && view.row.Some? && Covers(view.schema, plist, b.schema) && |plist| > 0
    requires Complete(view.schema, view.row.value, version, values) && |values| == |view.schema|
    requires b.Prepared()
    requires RowSize(Start(b.schema), Strs(b.schema), StrBytes(Select(values, plist), |plist|)) < TWO32
    requires buf.Length == CalTotalLength(|b.schema|, Start(b.schema), Strs(b.schema), StrBytes(Select(values, plist), |plist|))
    modifies b, buf
    ensures b.Prepared() && b.schemaVersion == old(b.schemaVersion)
    ensures ok <==> view.isValid || AllNull(Select(values, plist))
    ensures ok ==> Complete(b.schema, buf[..], b.schemaVersion, Select(values, plist))
  {
    hide Laid, Complete, Fits, RowSize, CalTotalLength, HeaderOk;
    hide IsOffsetVec, Start, Strs, StrBase, AddrLength, Select, BitMapSize;
    ghost var sel, n := Select(values, plist), |plist|;
    ghost var row := view.row.value;
    SelectFits(view.schema, plist, b.schema, row, version, values);
    RowRoom(b.schema, sel);
    CompleteLength(view.schema, row, version, values);
    var done := b.SetBuffer(buf, true);
    var i := 0;
    while i < |plist|
      invariant 0 <= i <= n && view.isValid == old(view.isValid)
      invariant view.Prepared() && view.row == Some(row)
      invariant b.buf == buf && b.size == buf.Length && b.Ready() && b.values == sel[..i]
      invariant buf[1] == old(b.schemaVersion) == b.schemaVersion
      invariant view.isValid || AllNull(sel[..i])
    {
      var idx := plist[i];
      StrBytesMonotone(sel, i, n);
      StrBytesPrefix(sel[..i], sel, i);
      assert Fits(b.schema[i], sel[i]);
      var ret := CopyColumn(view, idx, b, version, values);
      if ret != 0 {
        assert !sel[i].Null?;
        return false;
      }
      assert sel[..i + 1] == sel[..i] + [sel[i]];
      i := i + 1;
    }
    assert sel[..n] == sel;
    CompleteIs(b.schema, buf[..], buf[1], sel);
    ok := true;
  }

  lemma {:induction false} HasLeast(s: set<int>)
    requires |s| > 0
    ensures exists k :: k in s && forall j :: j in s ==> k <= j
    decreases |s|
  {
    HasMember(s);
    var x :| x in s;
    var rest := s - {x};
    if |rest| == 0 {
      assert forall j :: j in s ==> j == x || j in rest;
    } else {
      HasLeast(rest);
      var k :| k in rest && forall j :: j in rest ==> k <= j;
      assert forall j :: j in s ==> j == x || j in rest;
      var m := if k <= x then k else x;
      assert m in s && forall j :: j in s ==> m <= j;
    }
  }

  lemma {:induction false} SameColumns(schemas: map<int, Schema>, a: int, b: int, i: nat)
    requires Extends(schemas) && a in schemas && b in schemas && i < |schemas[a]| && i < |schemas[b]|
    ensures schemas[a][i] == schemas[b][i]
  {
    if a <= b {
      assert schemas[a] <= schemas[b];
    } else {
      assert schemas[b] <= schemas[a];
    }
  }

  // All versions that reach the listed columns have the same ones.
  lemma {:induction false} CoversAll(schemas: map<int, Schema>, keys: set<int>, b: int, plist: seq<nat>, output: Schema)
    requires Extends(schemas) && b in schemas && Covers(schemas[b], plist, output)
    requires forall v :: v in keys ==> v in schemas && Reaches(schemas[v], plist)
    ensures forall v :: v in keys ==> Covers(schemas[v], plist, output)
  {
    hide Extends;
    forall v, j | v in keys && 0 <= j < |plist|
      ensures schemas[v][plist[j]] == output[j]
    {
      assert Reaches(schemas[v], plist);
      SameColumns(schemas, v, b, plist[j]);
    }
  }

  // The key begin() of a std::map points to.
  method Least(s: set<int>) returns (k: int)
    requires |s| > 0
    ensures k in s && forall j :: j in s ==> k <= j
  {
    HasLeast(s);
    k :| k in s && forall j :: j in s ==> k <= j;
  }

  predicate Reaches(schema: Schema, plist: seq<nat>) {
    forall i :: 0 <= i < |plist| ==> plist[i] < |schema|
  }

  class RowProject {
    const plist: seq<nat>
    const versSchema: map<int, Schema>
    var outputSchema: Schema
    var rowBuilder: RowBuilder?
    var curSchema: Schema
    var curRv: RowView?
    var maxIdx: nat
    var versViews: map<int, RowView>
    var curVer: int
    ghost var home: int

    // The views of the covering versions.
    ghost predicate ViewsOk()
      reads this, versViews.Values
    {
      && versViews.Keys <= versSchema.Keys
      && (forall v :: v in versViews ==> versViews[v].schema == versSchema[v] && versViews[v].Prepared())
      && (forall a, b :: a in versViews && b in versViews && a != b ==> versViews[a] != versViews[b])
    }

    // `home` is the version whose view is current. It is curVer as soon as a row
    // of another version has been seen, and the least covering version before.
    ghost predicate Valid()
      reads this, versViews.Values, rowBuilder
    {
      && |plist| > 0 && rowBuilder != null && rowBuilder.Prepared() && rowBuilder.schema == outputSchema
      && rowBuilder.schemaVersion == 1
      && ViewsOk()
      && home in versViews && curRv == versViews[home] && curSchema == versSchema[home]
      && (forall v :: v in versViews ==> Covers(versSchema[v], plist, outputSchema))
    }

    // The version whose view decodes a row of the given version.
    ghost function Decoder(version: byte): int
      reads this
    {
      if version == curVer then home else version
    }

    // Rows of covered versions are decoded with their own schema.
    ghost predicate Aligned()
      reads this
    {
      curVer in versViews ==> home == curVer
    }

    // A complete row of a covered version whose selection fits a row.
    ghost predicate OwnRow(row: seq<byte>, values: seq<Value>)
      reads this
    {
      && VERSION_LENGTH <= |row| && row[1] in versViews && row[1] in versSchema
      && Complete(versSchema[row[1]], row, row[1], values) && |values| == |versSchema[row[1]]| && Holds(values)
      && RowSize(Start(outputSchema), Strs(outputSchema), StrBytes(Picked(values), |plist|)) < TWO32
    }

    // The version is known and has all the listed columns.
    ghost predicate Covering(v: int) {
      v in versSchema && Reaches(versSchema[v], plist)
    }

    // What Init leaves of a new projection: views of exactly the covering
    // versions, the least of them current, and 1 as the version last seen.
    ghost predicate Initial()
      reads this
    {
      curVer == 1 && (forall v :: v in versViews <==> Covering(v)) && forall v :: v in versViews ==> home <= v
    }

    // Whether the rows projected first are decoded with their own schema or not
    // at all, in terms of the versions and the list alone: rows of covered
    // versions are unless version 1 covers the list and an earlier version does
    // too; rows of all versions are if and only if version 1 is the first to
    // cover it.
    lemma {:induction false} DecodersExact()
      requires Valid() && Initial()
      ensures (forall v: byte :: Covering(v) ==> Decoder(v) == v) <==> !(Covering(1) && exists v :: Covering(v) && v < 1)
      ensures (forall v: byte :: Decoder(v) in versViews ==> Decoder(v) == v) <==> Covering(1) && forall v :: Covering(v) ==> v >= 1
    {
      hide Covers, Reaches;
      var one: byte := 1;
      assert Decoder(one) == home && Covering(home);
    }

    lemma {:induction false} CurrentView()
      requires Valid()
      ensures curRv.schema == curSchema && curRv.Prepared() && Covers(curSchema, plist, outputSchema)
    {
      hide Covers;
      var h := home;
      assert h in versViews;
    }

    // A row with a view for its version and a consistent header.
    ghost predicate Accepts(row: seq<byte>)
      requires VERSION_LENGTH <= |row|
      reads this
    {
      Decoder(row[1]) in versViews && Sized(row)
    }

    ghost function Picked(values: seq<Value>): seq<Value>
      requires Holds(values)
    {
      Select(values, plist)
    }

    ghost predicate Holds(values: seq<Value>) {
      forall i :: 0 <= i < |plist| ==> plist[i] < |values|
    }

    constructor (versSchema: map<int, Schema>, plist: seq<nat>)
      ensures this.versSchema == versSchema && this.plist == plist
      ensures versViews == map[] && curVer == 1 && maxIdx == 0 && outputSchema == []
    {
      this.plist, this.versSchema := plist, versSchema;
      outputSchema, rowBuilder, curSchema, curRv := [], null, [], null;
      maxIdx, versViews, curVer, home := 0, map[], 1, 0;
    }

    method FindMax()
      requires |plist| > 0 && maxIdx == 0
      modifies this`maxIdx
      ensures forall i :: 0 <= i < |plist| ==> plist[i] <= maxIdx
      ensures exists i :: 0 <= i < |plist| && plist[i] == maxIdx
    {
      var i := 0;
      while i < |plist|
        invariant 0 <= i <= |plist| && forall j :: 0 <= j < i ==> plist[j] <= maxIdx
        invariant if i == 0 then maxIdx == 0 else exists j :: 0 <= j < i && plist[j] == maxIdx
      {
        if plist[i] >= maxIdx {
          maxIdx := plist[i];
        }
        i := i + 1;
      }
    }

    method AddViews()
      requires versViews == map[]
      requires forall i :: 0 <= i < |plist| ==> plist[i] <= maxIdx
      requires exists i :: 0 <= i < |plist| && plist[i] == maxIdx
      modifies this`versViews
      ensures ViewsOk() && forall v :: v in versViews ==> fresh(versViews[v])
      ensures forall v :: v in versViews <==> v in versSchema && Reaches(versSchema[v], plist)
      ensures forall v :: v in versViews ==> versViews[v].isValid
    {
      hide IsOffsetVec, AddrLength, Start, Strs;
      var todo := versSchema.Keys;
      while |todo| > 0
        invariant todo <= versSchema.Keys
        invariant ViewsOk() && forall v :: v in versViews ==> fresh(versViews[v])
        invariant forall v :: v in versViews <==> v in versSchema && v !in todo && Reaches(versSchema[v], plist)
        invariant forall v :: v in versViews ==> versViews[v].isValid
      {
        HasMember(todo);
        var v :| v in todo;
        todo := todo - {v};
        assert maxIdx < |versSchema[v]| <==> Reaches(versSchema[v], plist);
        if maxIdx < |versSchema[v]| {
          var rv := new RowView(versSchema[v]);
          versViews := versViews[v := rv];
        }
      }
    }

    method AddColumns()
      requires outputSchema == [] && Reaches(curSchema, plist)
      modifies this`outputSchema
      ensures Covers(curSchema, plist, outputSchema)
    {
      var i := 0;
      while i < |plist|
        invariant 0 <= i <= |plist| && |outputSchema| == i
        invariant forall j :: 0 <= j < i ==> outputSchema[j] == curSchema[plist[j]]
      {
        outputSchema := outputSchema + [curSchema[plist[i]]];
        i := i + 1;
      }
    }

    // Every version that has all the listed columns gets a view; the output
    // takes its columns from the least such version.
    method Init() returns (ok: bool)
      requires versViews == map[] && maxIdx == 0 && outputSchema == [] && Extends(versSchema)
      modifies this
      ensures curVer == old(curVer)
      ensures ok ==> Valid() && fresh(rowBuilder) && forall v :: v in versViews ==> fresh(versViews[v])
      ensures ok ==> forall v :: v in versViews <==> v in versSchema && Reaches(versSchema[v], plist)
      ensures ok ==> forall v :: v in versViews ==> home <= v && versViews[v].isValid
      ensures ok && curVer == 1 ==> Initial()
      ensures ok && curVer == 1 ==> (Aligned() <==> !(1 in versSchema && exists v :: v in versSchema && v < 1 && Reaches(versSchema[v], plist)))
      ensures !ok ==> |plist| == 0 || forall v :: v in versSchema ==> !Reaches(versSchema[v], plist)
    {
      hide IsOffsetVec, AddrLength, Start, Strs, Extends, Reaches, Covers;
      if |plist| == 0 {
        return false;
      }
      FindMax();
      AddViews();
      if |versViews| == 0 {
        return false;
      }
      var first := Least(versViews.Keys);
      UseFirst(first);
      LateReaches();
      ok := true;
    }

    // A later version reaches what an earlier one does.
    lemma LateReaches()
      requires Extends(versSchema)
      ensures forall v, w :: v in versSchema && w in versSchema && v <= w && Reaches(versSchema[v], plist) ==> Reaches(versSchema[w], plist)
    {
      forall v, w | v in versSchema && w in versSchema && v <= w && Reaches(versSchema[v], plist)
        ensures Reaches(versSchema[w], plist)
      {
        assert versSchema[v] <= versSchema[w];
      }
    }

    // The view of version `first` becomes the current one and gives the output
    // its columns.
    method UseFirst(first: int)
      requires |plist| > 0 && outputSchema == [] && Extends(versSchema) && ViewsOk() && first in versViews
      requires forall v :: v in versViews ==> v in versSchema && Reaches(versSchema[v], plist)
      modifies this`curSchema, this`curRv, this`home, this`outputSchema, this`rowBuilder
      ensures Valid() && fresh(rowBuilder) && home == first
    {
      hide IsOffsetVec, AddrLength, Start, Strs, Extends, Reaches, Covers;
      curSchema, curRv, home := versSchema[first], versViews[first], first;
      AddColumns();
      rowBuilder := new RowBuilder(outputSchema);
      CoversAll(versSchema, versViews.Keys, first, plist, outputSchema);
    }

    // Makes the view of the row's version current.
    method Choose(version: byte) returns (found: bool)
      requires Valid()
      modifies this`curRv, this`curVer, this`curSchema, this`home
      ensures Valid() && (found <==> old(Decoder(version)) in versViews)
      ensures found ==> home == old(Decoder(version)) && curVer == version
      ensures !found ==> home == old(home) && curVer == old(curVer)
    {
      hide Covers, IsOffsetVec, AddrLength, Start, Strs;
      if version != curVer {
        if version !in versViews {
          return false;
        }
        curRv, curVer, curSchema := versViews[version], version, versSchema[version];
        home := version;
      }
      found := true;
    }

    // Encoding the selected values: what Project does once the view is set.
    method Encode(ghost version: byte, ghost values: seq<Value>) returns (ok: bool, out: seq<byte>)
      requires Valid() && curRv.row.Some?
      requires Complete(curSchema, curRv.row.value, version, values) && |values| == |curSchema|
      requires Holds(values)
      requires RowSize(Start(outputSchema), Strs(outputSchema), StrBytes(Picked(values), |plist|)) < TWO32
      modifies rowBuilder
      ensures rowBuilder.Prepared() && rowBuilder.schemaVersion == 1
      ensures ok <==> curRv.isValid || AllNull(Picked(values))
      ensures ok ==> Complete(outputSchema, out, 1, Picked(values))
    {
      hide Complete, Covers, IsOffsetVec, AddrLength, Start, Strs, RowSize, Select, CalTotalLength, StrBase;
      CurrentView();
      var strSize;
      out := [];
      ok, strSize := SumStrings(curRv, plist, outputSchema, version, values);
      if !ok {
        return;
      }
      var total := rowBuilder.CalTotalLength(strSize);
      var buf := new byte[total];
      ok := CopyColumns(curRv, plist, rowBuilder, buf, version, values);
      if ok {
        out := buf[..];
      }
    }

    // A row of a covered version is decoded, the listed values are picked and
    // encoded again, whatever was projected before. `values` is what the row
    // holds if it is accepted at all.
    method Project(r: Option<seq<byte>>, ghost values: seq<Value>) returns (ok: bool, out: seq<byte>)
      requires Valid() && (r.Some? ==> VERSION_LENGTH <= |r.value|)
      requires r.Some? && Accepts(r.value) ==>
        && Complete(versSchema[Decoder(r.value[1])], r.value, r.value[1], values)
        && |values| == |versSchema[Decoder(r.value[1])]| && Holds(values)
        && RowSize(Start(outputSchema), Strs(outputSchema), StrBytes(Picked(values), |plist|)) < TWO32
      modifies this`curRv, this`curVer, this`curSchema, this`home, versViews.Values, rowBuilder
      ensures Valid()
      ensures ok <==> r.Some? && old(Accepts(r.value)) &&
                      (old(versViews[Decoder(r.value[1])].isValid) || AllNull(Picked(values)))
      ensures ok ==> Complete(outputSchema, out, 1, Picked(values))
      ensures if r.Some? && old(Decoder(r.value[1])) in versViews then home == old(Decoder(r.value[1])) && curVer == r.value[1]
              else home == old(home) && curVer == old(curVer)
      ensures forall v :: v in versViews ==>
        versViews[v].isValid == old(versViews[v].isValid && !(r.Some? && v == Decoder(r.value[1]) && !Sized(r.value)))
    {
      hide Complete, Covers, IsOffsetVec, AddrLength, Start, Strs, RowSize, Select, StrBase, Reaches;
      out := [];
      if r.None? {
        return false, out;
      }
      var found := Choose(r.value[1]);
      if !found {
        return false, out;
      }
      ok := curRv.Reset(r);
      if ok {
        ok, out := Encode(r.value[1], values);
      }
    }

    // The loop of a scan or of a traversal: every row is projected on its own,
    // whatever mix of versions the rows have.
    method ProjectAll(rows: seq<seq<byte>>, ghost values: seq<seq<Value>>) returns (outs: seq<seq<byte>>)
      requires Valid() && Aligned() && forall v :: v in versViews ==> versViews[v].isValid
      requires |values| == |rows| && forall i :: 0 <= i < |rows| ==> OwnRow(rows[i], values[i])
      modifies this`curRv, this`curVer, this`curSchema, this`home, versViews.Values, rowBuilder
      ensures Valid() && Aligned() && |outs| == |rows|
      ensures forall i :: 0 <= i < |rows| ==> Holds(values[i]) && Complete(outputSchema, outs[i], 1, Picked(values[i]))
    {
      hide Complete, Covers, IsOffsetVec, AddrLength, Start, Strs, RowSize, Select, StrBase, Reaches;
      outs := [];
      for i := 0 to |rows|
        invariant Valid() && Aligned() && forall v :: v in versViews ==> versViews[v].isValid
        invariant forall j :: 0 <= j < |rows| ==> OwnRow(rows[j], values[j])
        invariant |outs| == i && forall j :: 0 <= j < i ==> Holds(values[j]) && Complete(outputSchema, outs[j], 1, Picked(values[j]))
      {
        CompleteSized(versSchema[rows[i][1]], rows[i], rows[i][1], values[i]);
        assert Decoder(rows[i][1]) == rows[i][1];
        var ok, out := Project(Some(rows[i]), values[i]);
        assert ok;
        outs := outs + [out];
      }
    }
  }

  lemma {:induction false} CompleteSized(schema: Schema, row: seq<byte>, version: byte, values: seq<Value>)
    requires Complete(schema, row, version, values)
    ensures Sized(row)
  {
    assert Pow256(4) == TWO32;
    LittleEndianRoundTrip(|row|, 4);
  }

  // ----- A row decoded with another version's schema -----

  const NARROW: Schema := [Column(String, true)]
  const NUMBER: Schema := [Column(SmallInt, true)]
  const WIDE: Schema := [Column(String, true), Column(SmallInt, true)]

  // Eleven bytes of version 1: header, null bitmap, the number 8, the offset 10
  // and the string "a".
  const ROW: seq<byte> := [1, 1, 11, 0, 0, 0, 0, 8, 0, 10, 97]

  lemma Layouts()
    ensures FieldOffset(NARROW, 0) == 7 && Start(NARROW) == 7 && Strs(NARROW) == 1 && StrBase(NARROW, 1) == 8
    ensures FieldOffset(WIDE, 1) == 7 && Start(WIDE) == 9 && Strs(WIDE) == 1 && StrBase(WIDE, 1) == 10
    ensures StrCount(NARROW, 0) == 0 && StrCount(WIDE, 0) == 0 && StrCount(WIDE, 1) == 1
  {
    assert FieldOffset(WIDE, 0) == 7 && StrCount(WIDE, 1) == 1;
  }

  lemma HeaderIs()
    ensures HeaderOk(ROW, 1)
  {
    assert LittleEndian(11, 4) == [11] + LittleEndian(0, 3) == [11, 0, 0, 0];
  }

  // Under the wide schema the row holds "a" and 8, under the narrow one a
  // string of three bytes.
  lemma RowIsWide()
    ensures Complete(WIDE, ROW, 1, [VStr([97]), VInt16(8)])
  {
    Layouts();
    HeaderIs();
    var values := [VStr([97]), VInt16(8)];
    assert StrBytes(values, 1) == 1 && StrBytes(values, 2) == 1;
    assert FixedBytes(VInt16(8)) == [8, 0];
    assert ColumnOk(WIDE, ROW, 1, values, 0);
    assert ColumnOk(WIDE, ROW, 1, values, 1);
  }

  lemma RowIsNarrow()
    ensures Complete(NARROW, ROW, 1, [VStr([0, 10, 97])])
  {
    Layouts();
    HeaderIs();
    var values := [VStr([0, 10, 97])];
    assert StrBytes(values, 1) == 3;
    assert ColumnOk(NARROW, ROW, 1, values, 0);
  }

  // The first version-1 row after Init is read with the schema of version 0,
  // whether version 1 is known or not, and gives a string it does not hold.
  method MixedUp(known: bool) returns (p: RowProject, out: seq<byte>)
    ensures p.Valid() && p.Decoder(1) == 0 && p.plist == [0] && p.outputSchema == NARROW
    ensures p.versSchema == if known then map[0 := NARROW, 1 := WIDE] else map[0 := NARROW]
    ensures Complete(WIDE, ROW, 1, [VStr([97]), VInt16(8)])
    ensures Complete(NARROW, out, 1, [VStr([0, 10, 97])])
  {
    hide Complete, Covers, IsOffsetVec, AddrLength, Start, Strs, RowSize, StrBase;
    RowIsWide();
    RowIsNarrow();
    p := SetUp(known);
    ghost var values := [VStr([0, 10, 97])];
    assert p.Picked(values) == values;
    SmallSize();
    CompleteSized(NARROW, ROW, 1, values);
    var ok;
    ok, out := p.Project(Some(ROW), values);
  }

  method SetUp(known: bool) returns (p: RowProject)
    ensures p.Valid() && p.home == 0 && p.curVer == 1 && p.plist == [0] && p.outputSchema == NARROW
    ensures p.versSchema == if known then map[0 := NARROW, 1 := WIDE] else map[0 := NARROW]
    ensures fresh(p) && fresh(p.rowBuilder) && forall v :: v in p.versViews ==> fresh(p.versViews[v]) && p.versViews[v].isValid
  {
    hide Complete, IsOffsetVec, AddrLength, Start, Strs, RowSize, StrBase;
    p := new RowProject(if known then map[0 := NARROW, 1 := WIDE] else map[0 := NARROW], [0]);
    assert Reaches(p.versSchema[0], [0]);
    var ok := p.Init();
    assert p.home == 0 && Covers(NARROW, [0], p.outputSchema) && p.outputSchema == NARROW;
  }

  lemma SmallSize()
    ensures RowSize(Start(NARROW), Strs(NARROW), StrBytes([VStr([0, 10, 97])], 1)) < TWO32
    ensures RowSize(Start(NUMBER), Strs(NUMBER), StrBytes([VInt16(8)], 1)) < TWO32
  {
    Layouts();
    assert StrBytes([VStr([0, 10, 97])], 1) == 3 && StrBytes([VInt16(8)], 1) == 0;
    assert Start(NUMBER) == 9 && Strs(NUMBER) == 0;
  }

  // Versions 1 and 2, and a column only version 2 has: a version-1 row, which
  // holds one string and no number, is read with the schema of version 2 and
  // gives a number.
  method WrongColumn() returns (p: RowProject, out: seq<byte>)
    ensures p.Valid() && p.versSchema == map[1 := NARROW, 2 := WIDE] && p.plist == [1] && p.outputSchema == NUMBER
    ensures 1 !in p.versViews && p.Decoder(1) == 2
    ensures Complete(NARROW, ROW, 1, [VStr([0, 10, 97])])
    ensures Complete(NUMBER, out, 1, [VInt16(8)])
  {
    hide Complete, Covers, IsOffsetVec, AddrLength, Start, Strs, RowSize, StrBase;
    RowIsWide();
    RowIsNarrow();
    p := SetUpLate();
    ghost var values := [VStr([97]), VInt16(8)];
    assert p.Picked(values) == [VInt16(8)];
    SmallSize();
    CompleteSized(WIDE, ROW, 1, values);
    var ok;
    ok, out := p.Project(Some(ROW), values);
  }

  method SetUpLate() returns (p: RowProject)
    ensures p.Valid() && p.home == 2 && p.curVer == 1 && p.plist == [1] && p.outputSchema == NUMBER
    ensures p.versSchema == map[1 := NARROW, 2 := WIDE] && 1 !in p.versViews
    ensures fresh(p) && fresh(p.rowBuilder) && forall v :: v in p.versViews ==> fresh(p.versViews[v]) && p.versViews[v].isValid
  {
    hide Complete, IsOffsetVec, AddrLength, Start, Strs, RowSize, StrBase;
    p := new RowProject(map[1 := NARROW, 2 := WIDE], [1]);
    assert p.plist[0] == 1 && Reaches(p.versSchema[2], p.plist) && !Reaches(p.versSchema[1], p.plist);
    var ok := p.Init();
    assert p.home == 2 && Covers(WIDE, [1], p.outputSchema) && p.outputSchema == NUMBER;
  }
}

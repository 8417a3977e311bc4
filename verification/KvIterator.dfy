// KvIterator of src/base/kv_iterator.h: walks over the records packed into a scan
// or traverse response. The records are what Encode and EncodeFull of
// src/codec/row_codec.h write one after the other.

module KvIterators {
  import opened Bytes

  const TWO32: nat := 0x1_0000_0000

  datatype Rec = Rec(time: nat, pk: seq<byte>, value: seq<byte>)

  // A size word, the size of the pk if there is one, the time, the pk and the
  // value.
  function RecBytes(hasPk: bool, r: Rec): (bs: seq<byte>)
    ensures |bs| == (if hasPk then 16 else 12) + |r.pk| + |r.value|
  {
    LittleEndian(8 + |r.pk| + |r.value|, 4) + (if hasPk then LittleEndian(|r.pk|, 4) else []) +
    LittleEndian(r.time, 8) + r.pk + r.value
  }

  function AllBytes(hasPk: bool, recs: seq<Rec>, n: nat): seq<byte>
    requires n <= |recs|
  {
    if n == 0 then [] else AllBytes(hasPk, recs, n - 1) + RecBytes(hasPk, recs[n - 1])
  }

  predicate RecOk(hasPk: bool, r: Rec) {
    r.time < Pow256(8) && (!hasPk ==> r.pk == [])
  }

  // The response holds exactly these records. Offsets are 32-bit, and a step
  // looks up to eight bytes ahead.
  ghost predicate Holds(data: seq<byte>, hasPk: bool, recs: seq<Rec>) {
    && data == AllBytes(hasPk, recs, |recs|) && |data| + 8 < TWO32
    && forall i :: 0 <= i < |recs| ==> RecOk(hasPk, recs[i])
  }

  lemma {:induction false} RecInAll(hasPk: bool, recs: seq<Rec>, i: nat, n: nat)
    requires i < n <= |recs|
    ensures At(AllBytes(hasPk, recs, n), |AllBytes(hasPk, recs, i)|, RecBytes(hasPk, recs[i]))
    ensures |AllBytes(hasPk, recs, i + 1)| == |AllBytes(hasPk, recs, i)| + |RecBytes(hasPk, recs[i])|
  {
    hide RecBytes;
    if i < n - 1 {
      RecInAll(hasPk, recs, i, n - 1);
      AtPrefix(AllBytes(hasPk, recs, n - 1), RecBytes(hasPk, recs[n - 1]), |AllBytes(hasPk, recs, i)|, RecBytes(hasPk, recs[i]));
    }
  }

  // The five parts of a record, by where they start in it.
  lemma {:induction false} Parts(hasPk: bool, r: Rec)
    requires RecOk(hasPk, r)
    ensures var bs, h := RecBytes(hasPk, r), if hasPk then 8 else 4;
      && At(bs, 0, LittleEndian(8 + |r.pk| + |r.value|, 4)) && (hasPk ==> At(bs, 4, LittleEndian(|r.pk|, 4)))
      && At(bs, h, LittleEndian(r.time, 8)) && At(bs, h + 8, r.pk) && At(bs, h + 8 + |r.pk|, r.value)
  {
    hide LittleEndian;
  }

  lemma {:induction false} WordAt(data: seq<byte>, from: nat, n: nat, w: nat)
    requires At(data, from, LittleEndian(n, w)) && n < Pow256(w)
    ensures from + w <= |data| && FromLittleEndian(data[from..from + w]) == n
  {
    LittleEndianRoundTrip(n, w);
  }

  // The fields of the record that starts at `from`.
  lemma {:induction false} Fields(data: seq<byte>, hasPk: bool, from: nat, r: Rec)
    requires RecOk(hasPk, r) && At(data, from, RecBytes(hasPk, r)) && |data| < TWO32
    ensures var h := if hasPk then from + 8 else from + 4;
      && h + 8 + |r.pk| + |r.value| <= |data|
      && FromLittleEndian(data[from..from + 4]) == 8 + |r.pk| + |r.value|
      && (hasPk ==> FromLittleEndian(data[from + 4..from + 8]) == |r.pk|)
      && FromLittleEndian(data[h..h + 8]) == r.time
      && data[h + 8..h + 8 + |r.pk|] == r.pk
      && data[h + 8 + |r.pk|..h + 8 + |r.pk| + |r.value|] == r.value
  {
    hide RecBytes, FromLittleEndian, LittleEndian;
    Parts(hasPk, r);
    var bs, h := RecBytes(hasPk, r), if hasPk then 8 else 4;
    assert Pow256(4) == TWO32;
    AtWithin(data, from, bs, 0, LittleEndian(8 + |r.pk| + |r.value|, 4));
    WordAt(data, from, 8 + |r.pk| + |r.value|, 4);
    if hasPk {
      AtWithin(data, from, bs, 4, LittleEndian(|r.pk|, 4));
      WordAt(data, from + 4, |r.pk|, 4);
    }
    AtWithin(data, from, bs, h, LittleEndian(r.time, 8));
    WordAt(data, from + h, r.time, 8);
    AtWithin(data, from, bs, h + 8, r.pk);
    AtWithin(data, from, bs, h + 8 + |r.pk|, r.value);
  }

  class KvIterator {
    const data: seq<byte>
    const hasPk: bool
    var buffer: nat
    var offset: nat
    var time: nat
    var pk: seq<byte>
    var value: seq<byte>
    ghost const recs: seq<Rec>
    // The current record.
    ghost var at: nat

    ghost predicate Inv()
      reads this
    {
      && Holds(data, hasPk, recs)
      && if at < |recs| then
           offset == buffer == |AllBytes(hasPk, recs, at + 1)| && Rec(time, pk, value) == recs[at]
         else
           at == |recs| && offset == |data| + (if hasPk then 8 else 4)
    }

    constructor (data: seq<byte>, hasPk: bool, ghost recs: seq<Rec>)
      requires Holds(data, hasPk, recs)
      ensures Inv() && this.recs == recs && at == 0
    {
      hide RecBytes;
      this.data, this.hasPk, this.recs := data, hasPk, recs;
      buffer, offset, time, pk, value, at := 0, 0, 0, [], [], 0;
      new;
      Step();
    }

    // The next record starts at `offset`, or there is none.
    ghost predicate Ready()
      reads this
    {
      Holds(data, hasPk, recs) && at <= |recs| && offset == buffer == |AllBytes(hasPk, recs, at)| && (!hasPk ==> pk == [])
    }

    // Next with a pk in front of each value.
    method StepWithPk()
      requires Ready() && hasPk
      modifies this`buffer, this`offset, this`time, this`pk, this`value
      ensures Inv()
    {
      hide RecBytes, FromLittleEndian;
      if at < |recs| {
        RecInAll(hasPk, recs, at, |recs|);
        Fields(data, hasPk, offset, recs[at]);
      }
      if offset + 8 > |data| {
        offset := offset + 8;
        return;
      }
      var totalSize := FromLittleEndian(data[buffer..buffer + 4]);
      buffer := buffer + 4;
      var pkSize := FromLittleEndian(data[buffer..buffer + 4]);
      buffer := buffer + 4;
      time := FromLittleEndian(data[buffer..buffer + 8]);
      buffer := buffer + 8;
      pk := data[buffer..buffer + pkSize];
      buffer := buffer + pkSize;
      value := data[buffer..buffer + (totalSize - pkSize - 8)];
      buffer := buffer + (totalSize - pkSize - 8);
      offset := offset + 8 + totalSize;
    }

    method StepWithoutPk()
      requires Ready() && !hasPk
      modifies this`buffer, this`offset, this`time, this`value
      ensures Inv()
    {
      hide RecBytes, FromLittleEndian;
      if at < |recs| {
        RecInAll(hasPk, recs, at, |recs|);
        Fields(data, hasPk, offset, recs[at]);
      }
      if offset + 4 > |data| {
        offset := offset + 4;
        return;
      }
      var blockSize := FromLittleEndian(data[buffer..buffer + 4]);
      buffer := buffer + 4;
      time := FromLittleEndian(data[buffer..buffer + 8]);
      buffer := buffer + 8;
      value := data[buffer..buffer + (blockSize - 8)];
      buffer := buffer + (blockSize - 8);
      offset := offset + 4 + blockSize;
    }

    method Step()
      requires Ready()
      modifies this`buffer, this`offset, this`time, this`pk, this`value
      ensures Inv()
    {
      if hasPk {
        StepWithPk();
      } else {
        StepWithoutPk();
      }
    }

    method Valid() returns (b: bool)
      requires Inv()
      ensures b <==> at < |recs|
    {
      hide RecBytes;
      if at < |recs| {
        RecInAll(hasPk, recs, at, |recs|);
      }
      b := offset <= |data| && |data| >= (if hasPk then 16 else 12);
    }

    // A step off the last record is the end.
    method Next()
      requires Inv() && at < |recs|
      modifies this`buffer, this`offset, this`time, this`pk, this`value, this`at
      ensures Inv() && at == old(at) + 1
    {
      at := at + 1;
      Step();
    }

    method Current() returns (r: Rec)
      requires Inv() && at < |recs|
      ensures r == recs[at]
    {
      r := Rec(time, pk, value);
    }
  }
}

/** Repeated fields from any writer: packed or not is all the same, an array takes exactly what it has room
    for, and a fixed-count array that was received is complete. */
module PbRepeated {
  import opened PbWire
  import opened PbCommon
  import opened PbFormat
  import opened PbEvolution
  import opened PbStream
  import opened PbFits

  // ----- Packed or not

  /** Byte sequences that each hold one scalar of the field. */
  ghost predicate Parts(f: Field, parts: seq<Bytes>)
    requires f.ltype.Packable()
  {
    forall k :: 0 <= k < |parts| ==> One(f, parts[k])
  }

  predicate One(f: Field, p: Bytes)
    requires f.ltype.Packable()
  {
    DecodeScalar(f, p).Ok? && DecodeScalar(f, p).rest == []
  }

  function Concat(parts: seq<Bytes>): Bytes {
    if parts == [] then [] else parts[0] + Concat(parts[1..])
  }

  /** A key of its own for every part. */
  function Apart(tag: nat, wireType: nat, parts: seq<Bytes>): Bytes {
    if parts == [] then [] else TagBytes(wireType, tag) + parts[0] + Apart(tag, wireType, parts[1..])
  }

  /** The array with the scalars of the parts stored behind the first `count` items. */
  function PutAll(f: Field, parts: seq<Bytes>, items: seq<Value>, count: nat): Option<(seq<Value>, nat)>
    requires f.ltype.Packable() && Parts(f, parts)
  {
    if parts == [] then Some((items, count))
    else if count >= f.arraySize then None
    else
      assert One(f, parts[0]);
      PutAll(f, parts[1..], Put(items, count, DecodeScalar(f, parts[0]).value), count + 1)
  }

  lemma {:induction false} PackedParts(f: Field, parts: seq<Bytes>, items: seq<Value>, count: nat)
    requires f.ltype.Packable() && Parts(f, parts)
    ensures DecodePacked(f, Concat(parts), items, count) == PutAll(f, parts, items, count)
    decreases |parts|
  {
    hide DecodeScalar;
    if parts != [] {
      assert One(f, parts[0]);
      var p, others := parts[0], Concat(parts[1..]);
      ScalarLocal(f, p, others);
      assert [] + others == others && p != [];
      PackedParts(f, parts[1..], Put(items, count, DecodeScalar(f, p).value), count + 1);
    }
  }

  /** A packed array is taken exactly when there is room for all of its items. */
  lemma {:induction false} RoomExactly(f: Field, parts: seq<Bytes>, items: seq<Value>, count: nat)
    requires f.ltype.Packable() && Parts(f, parts)
    ensures PutAll(f, parts, items, count).Some? <==> parts == [] || count + |parts| <= f.arraySize
    ensures DecodePacked(f, Concat(parts), items, count).Some? <==> parts == [] || count + |parts| <= f.arraySize
    decreases |parts|
  {
    hide DecodeScalar, DecodePacked;
    PackedParts(f, parts, items, count);
    if parts != [] && count < f.arraySize {
      assert One(f, parts[0]);
      RoomExactly(f, parts[1..], Put(items, count, DecodeScalar(f, parts[0]).value), count + 1);
    }
  }

  function ValuesOf(f: Field, parts: seq<Bytes>): (vs: seq<Value>)
    requires f.ltype.Packable() && Parts(f, parts)
    ensures |vs| == |parts|
  {
    if parts == [] then []
    else
      assert One(f, parts[0]);
      [DecodeScalar(f, parts[0]).value] + ValuesOf(f, parts[1..])
  }

  /** The items go behind the first `count` ones, over those that were there from an earlier reception. */
  lemma {:induction false} PutAllIs(f: Field, parts: seq<Bytes>, items: seq<Value>, count: nat)
    requires f.ltype.Packable() && Parts(f, parts) && count <= |items| && PutAll(f, parts, items, count).Some?
    ensures var n := count + |parts|;
            PutAll(f, parts, items, count)
            == Some((items[..count] + ValuesOf(f, parts) + From(items, n), n))
    decreases |parts|
  {
    hide DecodeScalar, Put;
    if parts == [] {
      assert items[..count] + [] + From(items, count) == items;
    } else {
      assert One(f, parts[0]);
      var v := DecodeScalar(f, parts[0]).value;
      PutOne(items, count, v, count + |parts|);
      PutAllIs(f, parts[1..], Put(items, count, v), count + 1);
      Regroup(items[..count], v, ValuesOf(f, parts[1..]), From(items, count + |parts|));
    }
  }

  /** What is left behind the first n items, if anything. */
  function From(items: seq<Value>, n: nat): seq<Value> { if n < |items| then items[n..] else [] }

  lemma PutOne(items: seq<Value>, count: nat, v: Value, n: nat)
    requires count <= |items| && count < n
    ensures count + 1 <= |Put(items, count, v)| && Put(items, count, v)[..count + 1] == items[..count] + [v]
    ensures From(Put(items, count, v), n) == From(items, n)
  {
  }

  lemma Regroup(a: seq<Value>, v: Value, b: seq<Value>, c: seq<Value>)
    ensures (a + [v]) + b + c == a + ([v] + b) + c
  {
  }

  /** A fixed-count array that is received again is replaced. */
  lemma FixedReplaced(f: Field, parts: seq<Bytes>, items: seq<Value>)
    requires f.ltype.Packable() && Parts(f, parts) && |parts| == f.arraySize && |items| <= f.arraySize
    ensures PutAll(f, parts, items, 0) == Some((ValuesOf(f, parts), f.arraySize))
  {
    hide PutAll, Put, ValuesOf, Parts, DecodePacked;
    RoomExactly(f, parts, items, 0);
    PutAllIs(f, parts, items, 0);
    assert From(items, f.arraySize) == [];
    assert items[..0] + ValuesOf(f, parts) + [] == ValuesOf(f, parts);
  }

  /** The state with `items` and their count in field i, which has arrived. */
  function With(fields: seq<Field>, i: nat, st: State, items: seq<Value>, n: nat): State
    requires i < |fields|
  {
    st.(m := st.m[DataPos(fields, i) := Array(items)],
        fixedCount := if fields[i].FixedCount() then n else st.fixedCount)
  }

  /** A record with one item, whatever its wire type unless it says packed. */
  lemma ItemRecord(fields: seq<Field>, i: nat, wireType: nat, p: Bytes, tail: Bytes, st: State)
    requires ValidSchema(fields) && i < |fields| && fields[i].htype.Repeated? && fields[i].ltype.Packable()
    requires wireType != PB_WT_STRING && One(fields[i], p) && Arrive(fields, i, st).Some?
    ensures var f, st1 := fields[i], Arrive(fields, i, st).value;
            var items := Look(fields, i, st1.m).items;
            var count := Count(f, st1, items);
            DecodeRecord(fields, f.tag, wireType, p + tail, st)
            == if count >= f.arraySize then Fail
               else Ok(With(fields, i, st1, Put(items, count, DecodeScalar(f, p).value), count + 1), tail)
  {
    hide DecodeScalar, DataPos, FixedFull, RequiredBefore, Find, ValidSchema, Put, Look, Arrive;
    FindAt(fields, i);
    ScalarLocal(fields[i], p, tail);
    assert [] + tail == tail;
    ScalarValue(fields[i], p + tail);
  }

  lemma ScalarValue(f: Field, s: Bytes)
    requires f.ltype.Packable()
    ensures DecodeValue(f, s, ZeroValue(f)) == DecodeScalar(f, s)
  {
    hide DecodeScalar;
  }

  /** Once a field has arrived it stays. */
  lemma ArrivesOnce(fields: seq<Field>, i: nat, st: State, items: seq<Value>, n: nat)
    requires i < |fields| && fields[i].htype.Repeated? && Arrive(fields, i, st).Some?
    ensures var st1 := With(fields, i, Arrive(fields, i, st).value, items, n);
            && Arrive(fields, i, st1) == Some(st1)
            && Look(fields, i, st1.m).items == items
            && Count(fields[i], st1, items) == if fields[i].FixedCount() then n else |items|
  {
    hide DataPos, FixedFull, RequiredBefore;
  }

  lemma WithWith(fields: seq<Field>, i: nat, st: State, a: seq<Value>, k: nat, b: seq<Value>, n: nat)
    requires i < |fields|
    ensures With(fields, i, With(fields, i, st, a, k), b, n) == With(fields, i, st, b, n)
  {
    hide DataPos;
    var p := DataPos(fields, i);
    assert st.m[p := Array(a)][p := Array(b)] == st.m[p := Array(b)];
  }

  /** The records of the parts one after the other. */
  lemma {:induction false} ApartDecodes(fields: seq<Field>, i: nat, wireType: nat, parts: seq<Bytes>, tail: Bytes,
                                        st: State)
    requires ValidSchema(fields) && i < |fields| && fields[i].htype.Repeated? && fields[i].ltype.Packable()
    requires wireType < 8 && wireType != PB_WT_STRING && Parts(fields[i], parts) && parts != []
    requires Arrive(fields, i, st).Some?
    ensures var f, st1 := fields[i], Arrive(fields, i, st).value;
            var items := Look(fields, i, st1.m).items;
            var all := PutAll(f, parts, items, Count(f, st1, items));
            DecodeLoop(fields, Apart(f.tag, wireType, parts) + tail, st)
            == if all.None? then Fail
               else DecodeLoop(fields, tail, With(fields, i, st1, all.value.0, all.value.1))
    decreases |parts|
  {
    hide DecodeLoop, DecodeRecord, DecodeScalar, Arrive, TagBytes, ValidSchema, Look, Put, With, Find;
    var f, st1 := fields[i], Arrive(fields, i, st).value;
    var items := Look(fields, i, st1.m).items;
    var count := Count(f, st1, items);
    var p, others := parts[0], Apart(f.tag, wireType, parts[1..]);
    assert One(f, p);
    TagInRange(fields, i);
    assert Apart(f.tag, wireType, parts) + tail == TagBytes(wireType, f.tag) + p + (others + tail);
    ItemRecord(fields, i, wireType, p, others + tail, st);
    if count >= f.arraySize {
      RecordFails(fields, f.tag, wireType, p, others + tail, st);
    } else {
      var items' := Put(items, count, DecodeScalar(f, p).value);
      var st' := With(fields, i, st1, items', count + 1);
      RecordStep(fields, f.tag, wireType, p, others + tail, st, st');
      ArrivesOnce(fields, i, st, items', count + 1);
      if |parts| == 1 {
        assert others + tail == tail;
      } else {
        ApartDecodes(fields, i, wireType, parts[1..], tail, st');
        CountAfter(f, items, count, DecodeScalar(f, p).value);
        var all := PutAll(f, parts[1..], items', count + 1);
        if all.Some? { WithWith(fields, i, st1, items', count + 1, all.value.0, all.value.1); }
      }
      CountAfter(f, items, count, DecodeScalar(f, p).value);
    }
  }

  lemma CountAfter(f: Field, items: seq<Value>, count: nat, v: Value)
    requires f.htype.Repeated? && (f.FixedCount() || count == |items|)
    ensures (if f.FixedCount() then count + 1 else |Put(items, count, v)|) == count + 1
  {
  }

  lemma TagInRange(fields: seq<Field>, i: nat)
    requires ValidSchema(fields) && i < |fields|
    ensures 1 <= fields[i].tag < 0x2000_0000
  {
  }

  lemma RecordFails(fields: seq<Field>, tag: nat, wireType: nat, payload: Bytes, tail: Bytes, st: State)
    requires 1 <= tag < 0x2000_0000 && wireType < 8 && DecodeRecord(fields, tag, wireType, payload + tail, st).Fail?
    ensures DecodeLoop(fields, TagBytes(wireType, tag) + payload + tail, st).Fail?
  {
    hide TagBytes, ReadTag, DecodeRecord;
    TagRoundTrip(tag, wireType, payload + tail);
    assert TagBytes(wireType, tag) + payload + tail == TagBytes(wireType, tag) + (payload + tail);
  }

  /** The packed record of the parts. */
  lemma PackedDecodes(fields: seq<Field>, i: nat, parts: seq<Bytes>, tail: Bytes, st: State)
    requires ValidSchema(fields) && i < |fields| && fields[i].htype.Repeated? && fields[i].ltype.Packable()
    requires Parts(fields[i], parts) && |Concat(parts)| < U32 && Arrive(fields, i, st).Some?
    ensures var f, st1 := fields[i], Arrive(fields, i, st).value;
            var items := Look(fields, i, st1.m).items;
            var all := PutAll(f, parts, items, Count(f, st1, items));
            DecodeLoop(fields, TagBytes(PB_WT_STRING, f.tag) + LengthPrefixed(Concat(parts)) + tail, st)
            == if all.None? then Fail
               else DecodeLoop(fields, tail, With(fields, i, st1, all.value.0, all.value.1))
  {
    hide DecodeLoop, DecodeScalar, DecodePacked, Arrive, TagBytes, ValidSchema, Look, Count, Find, DataPos,
         LengthPrefixed;
    var f, st1 := fields[i], Arrive(fields, i, st).value;
    var items := Look(fields, i, st1.m).items;
    TagInRange(fields, i);
    FindAt(fields, i);
    StringRoundTrip(Concat(parts), tail);
    PackedParts(f, parts, items, Count(f, st1, items));
    var all := PutAll(f, parts, items, Count(f, st1, items));
    if all.None? {
      RecordFails(fields, f.tag, PB_WT_STRING, LengthPrefixed(Concat(parts)), tail, st);
    } else {
      RecordStep(fields, f.tag, PB_WT_STRING, LengthPrefixed(Concat(parts)), tail, st,
                 With(fields, i, st1, all.value.0, all.value.1));
    }
  }

  /** Packed and unpacked are the same: one record with all the scalars, or a record for each of them under any
      other wire type, are accepted alike and leave the same state. */
  lemma PackedIsApart(fields: seq<Field>, i: nat, wireType: nat, parts: seq<Bytes>, tail: Bytes, st: State)
    requires ValidSchema(fields) && i < |fields| && fields[i].htype.Repeated? && fields[i].ltype.Packable()
    requires wireType < 8 && wireType != PB_WT_STRING && Parts(fields[i], parts) && parts != []
    requires |Concat(parts)| < U32
    ensures DecodeLoop(fields, TagBytes(PB_WT_STRING, fields[i].tag) + LengthPrefixed(Concat(parts)) + tail, st)
            == DecodeLoop(fields, Apart(fields[i].tag, wireType, parts) + tail, st)
  {
    hide DecodeLoop, DecodeRecord, Arrive, TagBytes, ValidSchema, LengthPrefixed, Find;
    TagInRange(fields, i);
    FindAt(fields, i);
    if Arrive(fields, i, st).Some? {
      PackedDecodes(fields, i, parts, tail, st);
      ApartDecodes(fields, i, wireType, parts, tail, st);
    } else {
      var others := Apart(fields[i].tag, wireType, parts[1..]);
      NotArrived(fields, i, PB_WT_STRING, LengthPrefixed(Concat(parts)) + tail, st);
      RecordFails(fields, fields[i].tag, PB_WT_STRING, LengthPrefixed(Concat(parts)), tail, st);
      NotArrived(fields, i, wireType, parts[0] + (others + tail), st);
      RecordFails(fields, fields[i].tag, wireType, parts[0], others + tail, st);
      assert Apart(fields[i].tag, wireType, parts) + tail
             == TagBytes(wireType, fields[i].tag) + parts[0] + (others + tail);
    }
  }

  lemma NotArrived(fields: seq<Field>, i: nat, wireType: nat, s: Bytes, st: State)
    requires i < |fields| && Find(fields, fields[i].tag) == i && Arrive(fields, i, st).None?
    ensures DecodeRecord(fields, fields[i].tag, wireType, s, st).Fail?
  {
  }

  /** The wire type of a field that is known is looked at only to tell a packed array. */
  lemma WireTypeIgnored(fields: seq<Field>, i: nat, wireType: nat, wireType': nat, s: Bytes, st: State)
    requires i < |fields|
    requires fields[i].htype.Repeated? && fields[i].ltype.Packable() ==>
               (wireType == PB_WT_STRING <==> wireType' == PB_WT_STRING)
    ensures DecodeField(fields, i, wireType, s, st) == DecodeField(fields, i, wireType', s, st)
  {
  }

  // ----- Fixed-count arrays

  /** No items, or all of them; those being received are counted. */
  ghost predicate Complete(fields: seq<Field>, i: nat, st: State)
    requires i < |fields| && fields[i].FixedCount()
  {
    var n, size := |Look(fields, i, st.m).items|, fields[i].arraySize;
    if st.fixed == Some(i) then st.fixedCount <= size && (n == size || n == st.fixedCount) else n == 0 || n == size
  }

  ghost predicate AllComplete(fields: seq<Field>, st: State) {
    forall i :: 0 <= i < |fields| && fields[i].FixedCount() ==> Complete(fields, i, st)
  }

  lemma {:induction false} PackedCounts(f: Field, s: Bytes, items: seq<Value>, count: nat)
    requires f.ltype.Packable() && DecodePacked(f, s, items, count).Some?
    requires count <= f.arraySize && (|items| == f.arraySize || |items| == count)
    ensures var (all, n) := DecodePacked(f, s, items, count).value;
            n <= f.arraySize && (|all| == f.arraySize || |all| == n)
    decreases |s|
  {
    hide DecodeScalar;
    if s != [] {
      var r := DecodeScalar(f, s);
      PackedCounts(f, r.rest, Put(items, count, r.value), count + 1);
    }
  }

  lemma ArriveComplete(fields: seq<Field>, i: nat, st: State, j: nat)
    requires i < |fields| && j < |fields| && fields[j].FixedCount() && AllComplete(fields, st)
    requires Arrive(fields, i, st).Some?
    ensures Complete(fields, j, Arrive(fields, i, st).value)
  {
    hide DataPos, RequiredBefore;
    assert Complete(fields, j, st);
  }

  lemma StoredComplete(fields: seq<Field>, i: nat, wireType: nat, s: Bytes, st: State)
    requires i < |fields| && fields[i].FixedCount() && Complete(fields, i, st) && st.fixed == Some(i)
    requires DecodeField(fields, i, wireType, s, st).Ok?
    ensures Complete(fields, i, DecodeField(fields, i, wireType, s, st).value)
  {
    hide DecodeValue, DecodePacked, ReadString, DataPos, Init, InitSlot, ZeroValue;
    var f, items := fields[i], Look(fields, i, st.m).items;
    if wireType == PB_WT_STRING && f.ltype.Packable() {
      PackedCounts(f, ReadString(s).value, items, st.fixedCount);
      var (all, n) := DecodePacked(f, ReadString(s).value, items, st.fixedCount).value;
      var st' := DecodeField(fields, i, wireType, s, st).value;
      assert Look(fields, i, st'.m).items == all && st'.fixedCount == n && st'.fixed == st.fixed;
    }
  }

  lemma FieldComplete(fields: seq<Field>, i: nat, wireType: nat, s: Bytes, st: State, j: nat)
    requires ValidSchema(fields) && i < |fields| && j < |fields| && fields[j].FixedCount()
    requires Complete(fields, j, st) && (fields[i].FixedCount() ==> st.fixed == Some(i))
    requires DecodeField(fields, i, wireType, s, st).Ok?
    ensures Complete(fields, j, DecodeField(fields, i, wireType, s, st).value)
  {
    hide DecodeValue, DecodePacked, ReadString, DataPos, Init, InitSlot, ZeroValue, ValidSchema;
    if i == j {
      StoredComplete(fields, i, wireType, s, st);
    } else {
      if DataPos(fields, i) == DataPos(fields, j) { SharedSlot(fields, i, j); }
      var st' := DecodeField(fields, i, wireType, s, st).value;
      assert Look(fields, j, st'.m) == Look(fields, j, st.m) && st'.fixed == st.fixed;
      assert fields[i].FixedCount() || st'.fixedCount == st.fixedCount;
    }
  }

  lemma RecordComplete(fields: seq<Field>, tag: nat, wireType: nat, s: Bytes, st: State)
    requires ValidSchema(fields) && AllComplete(fields, st) && DecodeRecord(fields, tag, wireType, s, st).Ok?
    ensures AllComplete(fields, DecodeRecord(fields, tag, wireType, s, st).value)
  {
    hide ValidSchema, DecodeField, Skip, ReadVarint32, RequiredBefore, FixedFull, Complete;
    var i := Find(fields, tag);
    if i < |fields| {
      var st1 := Arrive(fields, i, st).value;
      forall j | 0 <= j < |fields| && fields[j].FixedCount()
        ensures Complete(fields, j, DecodeField(fields, i, wireType, s, st1).value)
      {
        ArriveComplete(fields, i, st, j);
        FieldComplete(fields, i, wireType, s, st1, j);
      }
    }
  }

  lemma EndComplete(fields: seq<Field>, st: State)
    requires AllComplete(fields, st)
    ensures AllComplete(fields, st.(ended := true))
  {
    hide Look;
    forall i | 0 <= i < |fields| && fields[i].FixedCount() ensures Complete(fields, i, st.(ended := true)) {
      assert Complete(fields, i, st);
    }
  }

  lemma {:induction false} LoopComplete(fields: seq<Field>, s: Bytes, st: State)
    requires ValidSchema(fields) && AllComplete(fields, st) && DecodeLoop(fields, s, st).Ok?
    ensures AllComplete(fields, DecodeLoop(fields, s, st).value)
    decreases |s|
  {
    hide ValidSchema, AllComplete, DecodeRecord, ReadTag;
    if s != [] {
      match ReadTag(s)
      case TagEnd(_) => EndComplete(fields, st);
      case TagOk(tag, wireType, rest) =>
        RecordComplete(fields, tag, wireType, rest, st);
        var r := DecodeRecord(fields, tag, wireType, rest, st);
        LoopComplete(fields, r.rest, r.value);
    }
  }

  /** A fixed-count array of an accepted message has no items or all of them, whichever others were received
      before and behind it. */
  lemma FixedComplete(fields: seq<Field>, s: Bytes, m: Msg, i: nat)
    requires ValidSchema(fields) && i < |fields| && fields[i].FixedCount()
    requires forall j :: 0 <= j < |fields| && fields[j].FixedCount() ==> Complete(fields, j, Start(m))
    requires Decode(fields, s, m).Ok?
    ensures var n := |Look(fields, i, Decode(fields, s, m).value).items|; n == 0 || n == fields[i].arraySize
  {
    hide ValidSchema, DecodeLoop, RequiredSeen, Look;
    LoopComplete(fields, s, Start(m));
    var st := DecodeLoop(fields, s, Start(m)).value;
    assert Complete(fields, i, st);
  }
}

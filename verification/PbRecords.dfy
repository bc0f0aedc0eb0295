/** What an encoding looks like to someone who knows nothing of the schema: the keys it holds, in order, and
    their payloads; which fields are left out; and when there is an encoding at all. */
module PbRecords {
  import opened Arith
  import opened PbWire
  import opened PbCommon
  import opened PbFormat
  import opened PbEvolution
  import opened PbFits

  /** A key and what it announces. */
  datatype Record = Record(tag: nat, wireType: nat, payload: Bytes)

  /** The records of a byte sequence, found by the wire types alone. */
  function Records(s: Bytes): Option<seq<Record>>
    decreases |s|
  {
    if s == [] then Some([])
    else
      match ReadTag(s)
      case TagOk(tag, wireType, rest) =>
        var tail :- Skip(wireType, rest);
        var others :- Records(tail);
        Some([Record(tag, wireType, rest[..|rest| - |tail|])] + others)
      case _ => None
  }

  // ----- Which fields are written

  /** A value that proto3 does not leave out: a number that is not zero, bytes or a string that are not
      empty, bytes of a fixed length, or a message with a field that is filled in. */
  ghost predicate NotZero(f: Field, v: Value)
    decreases f, 0
  {
    match f.ltype
    case LBytes => |BlobOf(v)| > 0
    case LString => |BlobOf(v)| > 0 && BlobOf(v)[0] != 0
    case LFixedLengthBytes => true
    case LSubmessage(sub) => exists i :: 0 <= i < |sub| && Filled(sub[i], Look(sub, i, SlotsOf(v)))
    case _ => IntOf(v) != 0
  }

  ghost predicate Filled(f: Field, slot: Slot)
    requires SlotFits(f, slot)
    decreases f, 1
  {
    match f.htype
    case Required => true
    case Repeated => f.FixedCount() || |slot.items| > 0
    case Oneof => slot.which > 0
    case Optional => if f.Singular() then NotZero(f, slot.value) else slot.has
  }

  ghost predicate Written(f: Field, slot: Slot)
    requires SlotFits(f, slot)
  {
    match f.htype
    case Required => true
    case Repeated => f.FixedCount() || |slot.items| > 0
    case Oneof => slot.which == f.tag
    case Optional => if f.Singular() then NotZero(f, slot.value) else slot.has
  }

  lemma {:induction false} NotZeroIs(f: Field, v: Value)
    requires f.dataSize > 0 && ValidSub(f)
    ensures NotZero(f, v) <==> !IsDefaultValue(f, v)
    decreases f, 0
  {
    if f.ltype.LSubmessage? { NotZeroFrom(f.ltype.fields, SlotsOf(v), 0); }
  }

  lemma {:induction false} FilledIs(f: Field, slot: Slot)
    requires SlotFits(f, slot) && f.dataSize > 0 && ValidSub(f)
    ensures Filled(f, slot) <==> !IsDefaultSlot(f, slot)
    decreases f, 1
  {
    if f.Singular() { NotZeroIs(f, slot.value); }
  }

  lemma {:induction false} NotZeroFrom(fields: seq<Field>, m: Msg, i: nat)
    requires ValidSchema(fields) && i <= |fields|
    ensures IsDefaultFrom(fields, m, i) <==> forall j :: i <= j < |fields| ==> !Filled(fields[j], Look(fields, j, m))
    decreases fields, 2, |fields| - i
  {
    if i < |fields| {
      assert ValidType(fields[i]) && ValidSub(fields[i]);
      FilledIs(fields[i], Look(fields, i, m));
      NotZeroFrom(fields, m, i + 1);
    }
  }

  // ----- The records of an encoding

  function Payload(f: Field, v: Value): Bytes {
    if EncodeValue(f, v).Some? then EncodeValue(f, v).value else []
  }

  function PackedPayload(f: Field, items: seq<Value>): Bytes
    requires f.ltype.Packable()
  {
    if EncodePacked(f, items).Some? then LengthPrefixed(EncodePacked(f, items).value) else []
  }

  /** A packable array is one record, any other one a record per item. */
  ghost function ArrayRecords(f: Field, items: seq<Value>): seq<Record> {
    if items == [] then []
    else if f.ltype.Packable() then
      [Record(f.tag, PB_WT_STRING, PackedPayload(f, items))]
    else seq(|items|, k requires 0 <= k < |items| => Record(f.tag, WireType(f.ltype), Payload(f, items[k])))
  }

  ghost function SlotRecords(f: Field, slot: Slot): seq<Record>
    requires SlotFits(f, slot)
  {
    if f.htype.Repeated? then ArrayRecords(f, Items(f, slot.items))
    else if Written(f, slot) then [Record(f.tag, WireType(f.ltype), Payload(f, ValueOf(slot)))]
    else []
  }

  /** The fields in the order of the schema, those that are not written left out. */
  ghost function MessageRecords(fields: seq<Field>, m: Msg, i: nat): seq<Record>
    requires i <= |fields|
    decreases |fields| - i
  {
    if i == |fields| then [] else SlotRecords(fields[i], Look(fields, i, m)) + MessageRecords(fields, m, i + 1)
  }

  /** A record in front of others. */
  lemma OneRecord(tag: nat, wireType: nat, payload: Bytes, tail: Bytes)
    requires 1 <= tag < 0x2000_0000 && wireType < 8 && Skip(wireType, payload + tail) == Some(tail)
    ensures Records(TagBytes(wireType, tag) + payload + tail)
            == if Records(tail).Some? then Some([Record(tag, wireType, payload)] + Records(tail).value) else None
  {
    hide TagBytes, ReadTag, Skip;
    TagRoundTrip(tag, wireType, payload + tail);
    assert TagBytes(wireType, tag) + payload + tail == TagBytes(wireType, tag) + (payload + tail);
    assert (payload + tail)[..|payload + tail| - |tail|] == payload;
  }

  lemma {:induction false} UnpackedRecords(f: Field, items: seq<Value>, tail: Bytes)
    requires 1 <= f.tag < 0x2000_0000 && EncodeUnpacked(f, items).Some? && Records(tail).Some?
    requires |EncodeUnpacked(f, items).value| < U32 && !f.ltype.Packable()
    ensures Records(EncodeUnpacked(f, items).value + tail) == Some(ArrayRecords(f, items) + Records(tail).value)
    decreases |items|
  {
    hide TagBytes, EncodeValue, Skip, Records;
    if items == [] {
      assert [] + tail == tail && ArrayRecords(f, []) + Records(tail).value == Records(tail).value;
    } else {
      var first, others := EncodeValue(f, items[0]).value, EncodeUnpacked(f, items[1..]).value;
      UnpackedRecords(f, items[1..], tail);
      SkipsValue(f, items[0], others + tail);
      OneRecord(f.tag, WireType(f.ltype), first, others + tail);
      assert TagBytes(WireType(f.ltype), f.tag) + first + others + tail
             == TagBytes(WireType(f.ltype), f.tag) + first + (others + tail);
      FirstItem(f, items);
      var one := [Record(f.tag, WireType(f.ltype), first)];
      assert one + (ArrayRecords(f, items[1..]) + Records(tail).value)
             == one + ArrayRecords(f, items[1..]) + Records(tail).value;
    }
  }

  lemma FirstItem(f: Field, items: seq<Value>)
    requires items != [] && !f.ltype.Packable()
    ensures ArrayRecords(f, items)
            == [Record(f.tag, WireType(f.ltype), Payload(f, items[0]))] + ArrayRecords(f, items[1..])
  {
    hide Payload;
  }

  lemma PresentIs(f: Field, slot: Slot)
    requires SlotFits(f, slot) && !f.htype.Repeated? && f.dataSize > 0 && ValidSub(f)
    ensures Present(f, slot) <==> Written(f, slot)
  {
    if f.Singular() { NotZeroIs(f, slot.value); }
  }

  lemma SlotHasRecords(f: Field, slot: Slot, tail: Bytes)
    requires SlotFits(f, slot) && ValidType(f) && ValidSub(f) && 1 <= f.tag < 0x2000_0000
    requires EncodeSlot(f, slot).Some? && |EncodeSlot(f, slot).value| < U32 && Records(tail).Some?
    ensures Records(EncodeSlot(f, slot).value + tail) == Some(SlotRecords(f, slot) + Records(tail).value)
  {
    hide TagBytes, EncodeValue, EncodePacked, Skip, Records, IsDefaultValue, NotZero, ValidSub, EncodeUnpacked, Items;
    if f.htype.Repeated? {
      ArrayHasRecords(f, Items(f, slot.items), tail);
    } else {
      PresentIs(f, slot);
      if Present(f, slot) {
        var v := ValueOf(slot);
        SkipsValue(f, v, tail);
        OneRecord(f.tag, WireType(f.ltype), EncodeValue(f, v).value, tail);
      } else {
        assert [] + tail == tail && [] + Records(tail).value == Records(tail).value;
      }
    }
  }

  lemma ArrayHasRecords(f: Field, items: seq<Value>, tail: Bytes)
    requires 1 <= f.tag < 0x2000_0000 && EncodeArray(f, items).Some? && Records(tail).Some?
    requires |EncodeArray(f, items).value| < U32
    ensures Records(EncodeArray(f, items).value + tail) == Some(ArrayRecords(f, items) + Records(tail).value)
  {
    hide TagBytes, EncodePacked, Skip, Records, EncodeUnpacked;
    if items == [] {
      assert [] + tail == tail && ArrayRecords(f, []) + Records(tail).value == Records(tail).value;
    } else if f.ltype.Packable() {
      var body := EncodePacked(f, items).value;
      PrefixLonger(body);
      StringRoundTrip(body, tail);
      assert Skip(PB_WT_STRING, LengthPrefixed(body) + tail) == Some(tail) by { SkipsString(body, tail); }
      OneRecord(f.tag, PB_WT_STRING, LengthPrefixed(body), tail);
    } else {
      UnpackedRecords(f, items, tail);
    }
  }

  lemma SkipsString(b: Bytes, rest: Bytes)
    requires |b| < U32
    ensures Skip(PB_WT_STRING, LengthPrefixed(b) + rest) == Some(rest)
  {
    StringRoundTrip(b, rest);
  }

  /** An encoding read without the schema: for every field that is written a record, or one per item, in the
      order of the schema; and nothing else. */
  lemma {:induction false} EncodingRecords(fields: seq<Field>, m: Msg, i: nat)
    requires ValidSchema(fields) && i <= |fields|
    requires EncodeFrom(fields, m, i).Some? && |EncodeFrom(fields, m, i).value| < U32
    ensures Records(EncodeFrom(fields, m, i).value) == Some(MessageRecords(fields, m, i))
    decreases |fields| - i
  {
    hide EncodeSlot, SlotRecords, Records, Look;
    if i < |fields| {
      assert ValidType(fields[i]) && ValidSub(fields[i]) && 1 <= fields[i].tag < 0x2000_0000;
      EncodingRecords(fields, m, i + 1);
      SlotHasRecords(fields[i], Look(fields, i, m), EncodeFrom(fields, m, i + 1).value);
    } else {
      NoRecords();
    }
  }

  lemma NoRecords()
    ensures Records([]) == Some([])
  {
  }

  ghost predicate HasKey(rs: seq<Record>, tag: nat) {
    exists k :: 0 <= k < |rs| && rs[k].tag == tag
  }

  lemma {:induction false} KeysOf(fields: seq<Field>, m: Msg, i: nat, j: nat)
    requires ValidSchema(fields) && i <= |fields| && j < |fields|
    ensures HasKey(MessageRecords(fields, m, i), fields[j].tag) <==> i <= j && Written(fields[j], Look(fields, j, m))
    decreases |fields| - i
  {
    hide SlotRecords, Look, Written, ValidSchema;
    if i < |fields| {
      KeysOf(fields, m, i + 1, j);
      SlotKeys(fields, i, m);
      if i != j { TagsDiffer(fields, i, j); }
      var a, b := SlotRecords(fields[i], Look(fields, i, m)), MessageRecords(fields, m, i + 1);
      KeyInBoth(a, b, fields[j].tag);
    }
  }

  lemma KeyInBoth(a: seq<Record>, b: seq<Record>, tag: nat)
    ensures HasKey(a + b, tag) <==> HasKey(a, tag) || HasKey(b, tag)
  {
    if HasKey(a, tag) {
      var k :| 0 <= k < |a| && a[k].tag == tag;
      assert (a + b)[k].tag == tag;
    }
    if HasKey(b, tag) {
      var k :| 0 <= k < |b| && b[k].tag == tag;
      assert (a + b)[|a| + k].tag == tag;
    }
  }

  lemma SlotKeys(fields: seq<Field>, i: nat, m: Msg)
    requires ValidSchema(fields) && i < |fields|
    ensures var f, rs := fields[i], SlotRecords(fields[i], Look(fields, i, m));
            && (forall k :: 0 <= k < |rs| ==> rs[k].tag == f.tag)
            && (|rs| > 0 <==> Written(f, Look(fields, i, m)))
    ensures forall tag :: HasKey(SlotRecords(fields[i], Look(fields, i, m)), tag)
                          <==> tag == fields[i].tag && Written(fields[i], Look(fields, i, m))
  {
    hide Look, NotZero, Payload;
    var f, slot := fields[i], Look(fields, i, m);
    assert ValidType(f);
    var rs := SlotRecords(f, slot);
    if |rs| > 0 { assert rs[0].tag == f.tag; }
  }

  /** Which keys an encoding holds: those of the required fields, of those with their flag set, of the selected
      arms, of arrays that are not empty, and of singular fields that are not zero. */
  lemma WrittenExactly(fields: seq<Field>, m: Msg, j: nat)
    requires ValidSchema(fields) && j < |fields|
    requires Encode(fields, m).Some? && |Encode(fields, m).value| < U32
    ensures Records(Encode(fields, m).value).Some?
    ensures HasKey(Records(Encode(fields, m).value).value, fields[j].tag) <==> Written(fields[j], Look(fields, j, m))
  {
    EncodingRecords(fields, m, 0);
    KeysOf(fields, m, 0, j);
  }

  /** A fixed-count array is written with all of its items, received or not. */
  lemma FixedCountRecords(f: Field, slot: Slot)
    requires f.FixedCount() && SlotFits(f, slot) && ValidType(f) && !f.ltype.Packable()
    ensures |SlotRecords(f, slot)| == f.arraySize
    ensures forall k :: 0 <= k < f.arraySize ==>
              SlotRecords(f, slot)[k].payload == Payload(f, if k < |slot.items| then slot.items[k] else ZeroValue(f))
  {
    hide Payload, ZeroValue;
  }

  // ----- What a new message is and is encoded to

  /** pb_message_set_to_defaults: the declared default of every field or else zero, nothing present, and the same
      in submessages. */
  lemma InitExactly(fields: seq<Field>, i: nat)
    requires ValidSchema(fields) && i < |fields|
    ensures var f, slot := fields[i], Look(fields, i, Init(fields));
            && (f.htype.Repeated? ==> slot.items == [])
            && (f.htype.Oneof? ==> slot.which == 0)
            && (f.htype.Required? || f.htype.Optional? ==>
                  && !slot.has
                  && (f.ltype.LSubmessage? ==> slot.value == Message(Init(f.ltype.fields)))
                  && (!f.ltype.LSubmessage? && f.init.Some? ==> slot.value == f.init.value)
                  && (!f.ltype.LSubmessage? && f.init.None? ==> slot.value == ZeroValue(f)))
  {
    LookInit(fields, i);
  }

  /** No required, fixed-count or fixed-length singular field, also not in a singular submessage. */
  ghost predicate Quiet(fields: seq<Field>) {
    forall i :: 0 <= i < |fields| ==> QuietField(fields[i])
  }

  ghost predicate QuietField(f: Field) {
    && !f.htype.Required? && !f.FixedCount()
    && (f.Singular() ==> !f.ltype.LFixedLengthBytes? && (f.ltype.LSubmessage? ==> Quiet(f.ltype.fields)))
  }

  lemma {:induction false} InitFilled(f: Field)
    requires ValidType(f) && ValidSub(f)
    ensures Filled(f, InitSlot(f)) <==> !QuietField(f)
    decreases f
  {
    if f.Singular() && f.ltype.LSubmessage? {
      var sub := f.ltype.fields;
      forall i | 0 <= i < |sub| ensures Filled(sub[i], Look(sub, i, Init(sub))) <==> !QuietField(sub[i]) {
        assert ValidType(sub[i]) && ValidSub(sub[i]);
        LookInit(sub, i);
        InitFilled(sub[i]);
      }
      assert SlotsOf(InitSlot(f).value) == Init(sub);
    }
  }

  lemma NothingWritten(f: Field)
    requires ValidType(f) && ValidSub(f) && f.tag > 0
    ensures EncodeSlot(f, InitSlot(f)) == Some([]) <==> QuietField(f)
  {
    InitFilled(f);
    var slot := InitSlot(f);
    WrittenInit(f);
    hide InitSlot, NotZero, EncodeValue, ValidSub, IsDefaultValue, QuietField, Filled, Items, EncodeArray, Present;
    if f.htype.Repeated? {
      if f.FixedCount() { AllItems(f, slot.items); }
      if Items(f, slot.items) != [] { ArrayNotEmpty(f, Items(f, slot.items)); }
      EmptyArray(f);
    } else {
      PresentIs(f, slot);
    }
  }

  lemma WrittenInit(f: Field)
    requires f.tag > 0
    ensures Written(f, InitSlot(f)) <==> Filled(f, InitSlot(f))
    ensures f.htype.Repeated? ==>
              && InitSlot(f).items == [] && (!f.FixedCount() ==> Items(f, []) == [])
              && (Filled(f, InitSlot(f)) <==> f.FixedCount())
  {
    hide InitValue, NotZero;
  }

  lemma AllItems(f: Field, items: seq<Value>)
    requires f.FixedCount()
    ensures |Items(f, items)| == f.arraySize
  {
  }

  lemma EmptyArray(f: Field)
    ensures EncodeArray(f, []) == Some([])
  {
  }

  lemma ArrayNotEmpty(f: Field, items: seq<Value>)
    requires items != []
    ensures EncodeArray(f, items) != Some([])
  {
    hide EncodeValue, EncodePacked, LengthPrefixed;
  }

  /** A message set to its defaults is encoded to nothing at all if and only if its type is quiet. */
  lemma InitIsEmpty(fields: seq<Field>)
    requires ValidSchema(fields)
    ensures Encode(fields, Init(fields)) == Some([]) <==> Quiet(fields)
  {
    InitEmptyFrom(fields, 0);
  }

  lemma FirstAndOthers(fields: seq<Field>, i: nat)
    requires i < |fields|
    ensures (forall j :: i <= j < |fields| ==> QuietField(fields[j]))
            <==> QuietField(fields[i]) && forall j :: i + 1 <= j < |fields| ==> QuietField(fields[j])
  {
    hide QuietField;
  }

  lemma {:induction false} InitEmptyFrom(fields: seq<Field>, i: nat)
    requires ValidSchema(fields) && i <= |fields|
    ensures EncodeFrom(fields, Init(fields), i) == Some([])
            <==> forall j :: i <= j < |fields| ==> QuietField(fields[j])
    decreases |fields| - i
  {
    hide EncodeSlot, InitSlot, QuietField, Init, Look;
    if i < |fields| {
      assert ValidType(fields[i]) && ValidSub(fields[i]) && fields[i].tag > 0;
      LookInit(fields, i);
      NothingWritten(fields[i]);
      InitEmptyFrom(fields, i + 1);
      var first, others := EncodeSlot(fields[i], InitSlot(fields[i])), EncodeFrom(fields, Init(fields), i + 1);
      FirstAndOthers(fields, i);
      if first.Some? && others.Some? { assert |first.value + others.value| == |first.value| + |others.value|; }
    }
  }

  // ----- When there is an encoding

  ghost predicate CanEncode(f: Field, v: Value)
    decreases f, 0
  {
    match f.ltype
    case LBytes => |BlobOf(v)| + BYTES_OFFSET <= f.dataSize
    case LSubmessage(sub) => forall i :: 0 <= i < |sub| ==> CanEncodeSlot(sub[i], Look(sub, i, SlotsOf(v)))
    case _ => true
  }

  ghost predicate CanEncodeSlot(f: Field, slot: Slot)
    requires SlotFits(f, slot)
    decreases f, 1
  {
    if f.htype.Repeated? then
      && |Items(f, slot.items)| <= f.arraySize
      && forall k :: 0 <= k < |Items(f, slot.items)| ==> CanEncode(f, Items(f, slot.items)[k])
    else Present(f, slot) ==> CanEncode(f, ValueOf(slot))
  }

  lemma {:induction false} ValueEncodes(f: Field, v: Value)
    requires ValidType(f) && ValidSub(f)
    ensures EncodeValue(f, v).Some? <==> CanEncode(f, v)
    decreases f, 0
  {
    if f.ltype.LSubmessage? {
      FromEncodes(f.ltype.fields, SlotsOf(v), 0);
    }
  }

  lemma {:induction false} PackedEncodes(f: Field, items: seq<Value>)
    requires ValidType(f) && f.ltype.Packable()
    ensures EncodePacked(f, items).Some?
    decreases |items|
  {
    if items != [] { PackedEncodes(f, items[1..]); }
  }

  lemma {:induction false} UnpackedEncodes(f: Field, items: seq<Value>)
    requires ValidType(f) && ValidSub(f)
    ensures EncodeUnpacked(f, items).Some? <==> forall k :: 0 <= k < |items| ==> CanEncode(f, items[k])
    decreases f, 1, |items|
  {
    hide CanEncode, EncodeValue, ValidSub;
    if items != [] {
      ValueEncodes(f, items[0]);
      UnpackedEncodes(f, items[1..]);
      assert items == [items[0]] + items[1..];
      assert forall k :: 0 < k < |items| ==> items[k] == items[1..][k - 1];
    }
  }

  lemma {:induction false} SlotEncodes(f: Field, slot: Slot)
    requires ValidType(f) && ValidSub(f) && SlotFits(f, slot)
    ensures EncodeSlot(f, slot).Some? <==> CanEncodeSlot(f, slot)
    decreases f, 2
  {
    hide Items, EncodeValue, EncodeUnpacked, EncodePacked, ValidSub, Present;
    if f.htype.Repeated? {
      var items := Items(f, slot.items);
      if f.ltype.Packable() { PackedEncodes(f, items); } else { UnpackedEncodes(f, items); }
    } else if Present(f, slot) {
      ValueEncodes(f, ValueOf(slot));
    }
  }

  lemma {:induction false} FromEncodes(fields: seq<Field>, m: Msg, i: nat)
    requires ValidSchema(fields) && i <= |fields|
    ensures EncodeFrom(fields, m, i).Some?
            <==> forall j :: i <= j < |fields| ==> CanEncodeSlot(fields[j], Look(fields, j, m))
    decreases fields, 3, |fields| - i
  {
    hide EncodeSlot, CanEncodeSlot, Look;
    if i < |fields| {
      assert ValidType(fields[i]) && ValidSub(fields[i]);
      SlotEncodes(fields[i], Look(fields, i, m));
      FromEncodes(fields, m, i + 1);
    }
  }

  /** The encoder fails if and only if an array holds more items than there is room for, or bytes that are
      written are longer than their buffer, at some depth. */
  lemma EncodesExactly(fields: seq<Field>, m: Msg)
    requires ValidSchema(fields)
    ensures Encode(fields, m).Some? <==> forall j :: 0 <= j < |fields| ==> CanEncodeSlot(fields[j], Look(fields, j, m))
  {
    FromEncodes(fields, m, 0);
  }

  lemma ZeroFits(f: Field)
    requires ValidType(f) && ValidSub(f) && DefaultFits(f)
    ensures FitsValue(f, ZeroValue(f))
  {
    if f.ltype.LSubmessage? {
      var sub := f.ltype.fields;
      forall i | 0 <= i < |sub| ensures FitsSlot(sub[i], Look(sub, i, map[])) {
        assert ValidType(sub[i]) && ValidSub(sub[i]) && DefaultFits(sub[i]);
        InitSlotFits(sub[i]);
      }
    }
  }

  lemma {:induction false} FitsCanEncode(f: Field, v: Value)
    requires ValidType(f) && ValidSub(f) && DefaultFits(f) && FitsValue(f, v)
    ensures CanEncode(f, v)
    decreases f, 0
  {
    if f.ltype.LSubmessage? {
      var sub := f.ltype.fields;
      forall i | 0 <= i < |sub| ensures CanEncodeSlot(sub[i], Look(sub, i, SlotsOf(v))) {
        assert FitsSlot(sub[i], Look(sub, i, v.slots));
        assert ValidType(sub[i]) && ValidSub(sub[i]) && DefaultFits(sub[i]);
        FitsCanEncodeSlot(sub[i], Look(sub, i, v.slots));
      }
    }
  }

  lemma {:induction false} FitsCanEncodeSlot(f: Field, slot: Slot)
    requires ValidType(f) && ValidSub(f) && DefaultFits(f) && SlotFits(f, slot) && FitsSlot(f, slot)
    ensures CanEncodeSlot(f, slot)
    decreases f, 1
  {
    hide FitsValue, CanEncode, ZeroValue, ValidSub, DefaultFits, IsDefaultValue;
    if f.htype.Repeated? {
      var items := Items(f, slot.items);
      forall k | 0 <= k < |items| ensures CanEncode(f, items[k]) {
        ZeroFits(f);
        FitsCanEncode(f, items[k]);
      }
    } else if Present(f, slot) {
      FitsCanEncode(f, ValueOf(slot));
    }
  }

  /** Whatever was decoded can be encoded again. */
  lemma DecodedEncodes(fields: seq<Field>, s: Bytes)
    requires ValidSchema(fields) && DefaultsFit(fields) && Decode(fields, s, Init(fields)).Ok?
    ensures Encode(fields, Decode(fields, s, Init(fields)).value).Some?
  {
    var m := Decode(fields, s, Init(fields)).value;
    DecodedFits(fields, s);
    forall j | 0 <= j < |fields| ensures CanEncodeSlot(fields[j], Look(fields, j, m)) {
      assert FitsSlot(fields[j], Look(fields, j, m));
      assert ValidType(fields[j]) && ValidSub(fields[j]) && DefaultFits(fields[j]);
      FitsCanEncodeSlot(fields[j], Look(fields, j, m));
    }
    EncodesExactly(fields, m);
  }

  // ----- The payloads

  /** The bytes of a number, by its type: a negative one takes ten bytes whatever the size of its field, zigzag
      numbers alternate, booleans are 0 and 1, fixed ones are little-endian. */
  lemma ScalarPayload(f: Field, v: Value)
    requires f.ltype.Packable() && FitsValue(f, v)
    ensures f.ltype.LBool? ==> Payload(f, v) == [v.i]
    ensures f.ltype.LUVarint? ==> Payload(f, v) == Varint(v.i)
    ensures f.ltype.LVarint? ==> Payload(f, v) == Varint(if v.i < 0 then v.i + U64 else v.i)
    ensures f.ltype.LVarint? && v.i < 0 ==> |Payload(f, v)| == 10
    ensures f.ltype.LSVarint? ==> Payload(f, v) == Varint(if v.i < 0 then -2 * v.i - 1 else 2 * v.i)
    ensures f.ltype.LFixed32? ==> |Payload(f, v)| == 4 && FixedValue(Payload(f, v)) == v.i
    ensures f.ltype.LFixed64? ==> |Payload(f, v)| == 8 && FixedValue(Payload(f, v)) == v.i
  {
    hide Varint, FixedBytes, FixedValue, Cast, ZigZag;
    var i := v.i;
    if f.ltype.LFixed32? {
      Pow256Values();
      FixedValueOfBytes(i, 4);
      SmallRemainder(i, U32);
    } else if f.ltype.LFixed64? {
      Pow256Values();
      FixedValueOfBytes(i, 8);
      SmallRemainder(i, U64);
    } else if f.ltype.LUVarint? {
      SmallRemainder(i, Modulus(f.dataSize));
    } else if f.ltype.LBool? {
      OneByte(i);
    } else {
      CastInRange(i, f.dataSize);
      if f.ltype.LVarint? && i < 0 { Varint64Length(i + U64); }
      if f.ltype.LSVarint? { ZigZagPattern(i); }
    }
  }

  lemma SmallRemainder(v: nat, m: nat)
    requires v < m
    ensures v % m == v
  {
    DivUnique(v, m, 0, v);
  }

  lemma OneByte(v: nat)
    requires v < 128
    ensures Varint(v) == [v]
  {
  }

  lemma ZigZagPattern(i: int)
    requires -U63 <= i < U63
    ensures ZigZag(i) == if i < 0 then -2 * i - 1 else 2 * i
  {
    if i < 0 { DivUnique(2 * i + U64, U64, 0, 2 * i + U64); assert (2 * i) % U64 == 2 * i + U64; }
  }

  /** The bytes of a length-delimited value: its length and itself, a string up to its first NUL, a message as
      its own encoding. */
  lemma DelimitedPayload(f: Field, v: Value)
    requires FitsValue(f, v) && ValidType(f) && ValidSub(f) && DefaultFits(f)
    ensures f.ltype.LBytes? || f.ltype.LFixedLengthBytes? ==> Payload(f, v) == LengthPrefixed(v.bytes)
    ensures f.ltype.LString? ==>
              exists n :: && 0 <= n <= |v.bytes| && Payload(f, v) == LengthPrefixed(v.bytes[..n])
                          && (n == |v.bytes| || v.bytes[n] == 0) && forall k :: 0 <= k < n ==> v.bytes[k] != 0
    ensures f.ltype.LSubmessage? ==>
              && Encode(f.ltype.fields, v.slots).Some?
              && Payload(f, v) == LengthPrefixed(Encode(f.ltype.fields, v.slots).value)
  {
    FitsCanEncode(f, v);
    ValueEncodes(f, v);
    hide FitsValue, Encode, ValidSub, DefaultFits, CanEncode;
    if f.ltype.LString? {
      StringCut(v.bytes, f.dataSize);
    } else if f.ltype.LFixedLengthBytes? {
      assert |v.bytes| == f.dataSize && Inline(v.bytes, f.dataSize) == v.bytes;
    }
  }

  lemma {:induction false} StringCut(b: Bytes, size: nat)
    requires |b| < size
    ensures var n := |CString(b, size)|;
            && n <= |b| && CString(b, size) == b[..n] && (n == |b| || b[n] == 0) && forall k :: 0 <= k < n ==> b[k] != 0
  {
    if b != [] && b[0] != 0 {
      StringCut(b[1..], size - 1);
      var n := |CString(b[1..], size - 1)|;
      assert b[..n + 1] == [b[0]] + b[1..][..n];
      forall k | 0 <= k < n + 1 ensures b[k] != 0 {
        if k > 0 { assert b[1..][k - 1] != 0; }
      }
    }
  }
}

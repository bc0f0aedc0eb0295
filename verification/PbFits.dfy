/** A decoded message fits its struct: no input makes the decoder store more items than an array has, more
    bytes than a buffer has, or a number that its member cannot hold, at any depth. */
module PbFits {
  import opened PbWire
  import opened PbCommon
  import opened PbFormat
  import opened PbEvolution

  // ----- What the storage of a field can hold

  ghost predicate FitsValue(f: Field, v: Value)
    decreases f, 0
  {
    match f.ltype
    case LBool => v.Int? && 0 <= v.i <= 1
    case LUVarint => v.Int? && f.dataSize in {1, 2, 4, 8} && 0 <= v.i < Modulus(f.dataSize)
    case LVarint => v.Int? && f.dataSize in {1, 2, 4, 8} && SignedRange(v.i, f.dataSize)
    case LSVarint => v.Int? && f.dataSize in {1, 2, 4, 8} && SignedRange(v.i, f.dataSize)
    case LFixed32 => v.Int? && 0 <= v.i < U32
    case LFixed64 => v.Int? && 0 <= v.i < U64
    case LBytes => v.Blob? && |v.bytes| + BYTES_OFFSET <= f.dataSize
    case LString => v.Blob? && |v.bytes| < f.dataSize
    case LFixedLengthBytes => v.Blob? && |v.bytes| == f.dataSize
    case LSubmessage(sub) => v.Message? && FitsMsg(sub, v.slots)
  }

  /** Of a union only the selected arm is looked at. */
  ghost predicate FitsSlot(f: Field, slot: Slot)
    requires SlotFits(f, slot)
    decreases f, 1
  {
    match f.htype
    case Repeated => |slot.items| <= f.arraySize && forall k :: 0 <= k < |slot.items| ==> FitsValue(f, slot.items[k])
    case Oneof => slot.which == f.tag ==> FitsValue(f, slot.arm)
    case _ => FitsValue(f, slot.value)
  }

  ghost predicate FitsMsg(fields: seq<Field>, m: Msg)
    decreases fields, 2
  {
    forall i :: 0 <= i < |fields| ==> FitsSlot(fields[i], Look(fields, i, m))
  }

  /** The default values of a schema fit their members. */
  ghost predicate DefaultsFit(fields: seq<Field>) {
    forall i :: 0 <= i < |fields| ==> DefaultFits(fields[i])
  }

  ghost predicate DefaultFits(f: Field) {
    if f.ltype.LSubmessage? then DefaultsFit(f.ltype.fields)
    else f.init.Some? ==> FitsValue(f, f.init.value)
  }

  // ----- The defaults fit

  lemma {:induction false} InitSlotFits(f: Field)
    requires ValidType(f) && ValidSub(f) && DefaultFits(f) && f.tag > 0
    ensures FitsSlot(f, InitSlot(f))
    decreases f, 1
  {
    if f.ltype.LSubmessage? { InitFits(f.ltype.fields); }
  }

  /** A message set to its defaults fits. */
  lemma {:induction false} InitFits(fields: seq<Field>)
    requires ValidSchema(fields) && DefaultsFit(fields)
    ensures FitsMsg(fields, Init(fields))
    decreases fields, 2
  {
    forall i | 0 <= i < |fields| ensures FitsSlot(fields[i], Look(fields, i, Init(fields))) {
      LookInit(fields, i);
      assert ValidType(fields[i]) && ValidSub(fields[i]) && DefaultFits(fields[i]);
      InitSlotFits(fields[i]);
    }
  }

  // ----- What is read fits

  lemma ScalarFits(f: Field, s: Bytes)
    requires f.ltype.Packable() && DecodeScalar(f, s).Ok?
    ensures FitsValue(f, DecodeScalar(f, s).value)
  {
    hide ReadVarint32, ReadVarint64, UnZigZag, Cast;
    if f.ltype.LFixed32? || f.ltype.LFixed64? {
      Pow256Values();
      var n := if f.ltype.LFixed32? then 4 else 8;
      FixedBelow(s[..n]);
    } else if !f.ltype.LBool? {
      UnsignedBelow(ReadVarint64(s).value, f.dataSize);
    }
  }

  lemma UnsignedBelow(v: nat, size: nat)
    requires size in {1, 2, 4, 8}
    ensures 0 <= v % Modulus(size) < Modulus(size)
  {
  }

  lemma {:induction false} FixedBelow(s: Bytes)
    ensures FixedValue(s) < Pow256(|s|)
  {
    if s != [] { FixedBelow(s[1..]); }
  }

  lemma {:induction false} PackedFits(f: Field, s: Bytes, items: seq<Value>, count: nat)
    requires f.ltype.Packable() && DecodePacked(f, s, items, count).Some? && |items| <= f.arraySize
    requires forall k :: 0 <= k < |items| ==> FitsValue(f, items[k])
    ensures var all := DecodePacked(f, s, items, count).value.0;
            |all| <= f.arraySize && forall k :: 0 <= k < |all| ==> FitsValue(f, all[k])
    decreases |s|
  {
    hide DecodeScalar, FitsValue;
    if s != [] {
      ScalarFits(f, s);
      PackedFits(f, DecodeScalar(f, s).rest, Put(items, count, DecodeScalar(f, s).value), count + 1);
    }
  }

  lemma BlobFits(f: Field, s: Bytes)
    requires f.ltype.LBytes? || f.ltype.LString? || f.ltype.LFixedLengthBytes?
    requires DecodeBlob(f, s).Ok?
    ensures FitsValue(f, DecodeBlob(f, s).value)
  {
    hide ReadVarint32;
  }

  /** What a value is merged into: it fits when it is a message that is not overwritten. */
  ghost predicate PriorFits(f: Field, prior: Value) {
    f.ltype.LSubmessage? && !f.htype.Repeated? ==> FitsMsg(f.ltype.fields, SlotsOf(prior))
  }

  lemma {:induction false} ValueFits(f: Field, s: Bytes, prior: Value)
    requires ValidSub(f) && DefaultFits(f) && PriorFits(f, prior)
    requires DecodeValue(f, s, prior).Ok?
    ensures FitsValue(f, DecodeValue(f, s, prior).value)
    decreases |s|, 0
  {
    hide ReadString, DecodeScalar, DecodeBlob, Decode, FitsMsg, Init, ValidSchema;
    if f.ltype.LSubmessage? {
      var sub := f.ltype.fields;
      var base := if f.htype.Repeated? then Init(sub) else SlotsOf(prior);
      InitFits(sub);
      DecodeFits(sub, ReadString(s).value, base);
    } else if f.ltype.Packable() {
      ScalarFits(f, s);
    } else {
      BlobFits(f, s);
    }
  }

  lemma {:induction false} FieldFits(fields: seq<Field>, i: nat, wireType: nat, s: Bytes, st: State)
    requires ValidSchema(fields) && DefaultsFit(fields) && FitsMsg(fields, st.m) && i < |fields|
    requires DecodeField(fields, i, wireType, s, st).Ok?
    ensures FitsMsg(fields, DecodeField(fields, i, wireType, s, st).value.m)
    decreases |s|, 2
  {
    var st' := DecodeField(fields, i, wireType, s, st).value;
    SlotFitsAfter(fields, i, wireType, s, st);
    hide DecodeField, FitsSlot, DataPos, ValidType, ValidSub;
    forall j | 0 <= j < |fields| ensures FitsSlot(fields[j], Look(fields, j, st'.m)) {
      if j != i { OtherFits(fields, i, wireType, s, st, j); }
    }
  }

  /** The field that was read. */
  lemma {:induction false} SlotFitsAfter(fields: seq<Field>, i: nat, wireType: nat, s: Bytes, st: State)
    requires ValidSchema(fields) && DefaultsFit(fields) && FitsMsg(fields, st.m) && i < |fields|
    requires DecodeField(fields, i, wireType, s, st).Ok?
    ensures FitsSlot(fields[i], Look(fields, i, DecodeField(fields, i, wireType, s, st).value.m))
    decreases |s|, 1, 1
  {
    var f, slot := fields[i], Look(fields, i, st.m);
    assert FitsSlot(f, slot) && ValidSub(f) && ValidType(f) && DefaultFits(f);
    hide FitsMsg, ValidSchema, DefaultsFit, DecodeValue, DecodePacked, ReadString, DataPos, Init, InitSlot, ZeroValue,
         FitsValue, ValidSub, DefaultFits, ValidType;
    if f.htype.Repeated? {
      RepeatedFits(fields, i, wireType, s, st);
    } else {
      PriorOk(fields, i, st.m);
      ValueFits(f, s, Prior(fields, i, st.m));
    }
  }

  lemma PriorOk(fields: seq<Field>, i: nat, m: Msg)
    requires i < |fields| && FitsSlot(fields[i], Look(fields, i, m)) && !fields[i].htype.Repeated?
    requires ValidSub(fields[i]) && DefaultFits(fields[i])
    ensures PriorFits(fields[i], Prior(fields, i, m))
  {
    hide FitsMsg, Init, Look, ValidSchema, DefaultsFit;
    if fields[i].ltype.LSubmessage? { InitFits(fields[i].ltype.fields); }
  }

  lemma {:induction false} RepeatedFits(fields: seq<Field>, i: nat, wireType: nat, s: Bytes, st: State)
    requires i < |fields| && fields[i].htype.Repeated? && ValidSub(fields[i]) && DefaultFits(fields[i])
    requires FitsSlot(fields[i], Look(fields, i, st.m)) && DecodeField(fields, i, wireType, s, st).Ok?
    ensures FitsSlot(fields[i], Look(fields, i, DecodeField(fields, i, wireType, s, st).value.m))
    decreases |s|, 1, 0
  {
    hide DecodeValue, DecodePacked, ReadString, DataPos, Init, InitSlot, ZeroValue, FitsValue, ValidSub, DefaultFits;
    var f, items := fields[i], Look(fields, i, st.m).items;
    if wireType == PB_WT_STRING && f.ltype.Packable() {
      PackedFits(f, ReadString(s).value, items, Count(f, st, items));
    } else {
      ValueFits(f, s, ZeroValue(f));
    }
  }

  /** The other fields keep what they had; the other arms of a union are not selected any more. */
  lemma OtherFits(fields: seq<Field>, i: nat, wireType: nat, s: Bytes, st: State, j: nat)
    requires ValidSchema(fields) && FitsMsg(fields, st.m) && i < |fields| && j < |fields| && i != j
    requires DecodeField(fields, i, wireType, s, st).Ok?
    ensures FitsSlot(fields[j], Look(fields, j, DecodeField(fields, i, wireType, s, st).value.m))
  {
    hide DecodeValue, DecodePacked, ReadString, DataPos, Init, InitSlot, ZeroValue, FitsValue, ValidSchema;
    assert FitsSlot(fields[j], Look(fields, j, st.m));
    TagsDiffer(fields, i, j);
    if DataPos(fields, i) == DataPos(fields, j) { SharedSlot(fields, i, j); }
  }

  lemma {:induction false} RecordFits(fields: seq<Field>, tag: nat, wireType: nat, s: Bytes, st: State)
    requires ValidSchema(fields) && DefaultsFit(fields) && FitsMsg(fields, st.m)
    requires DecodeRecord(fields, tag, wireType, s, st).Ok?
    ensures FitsMsg(fields, DecodeRecord(fields, tag, wireType, s, st).value.m)
    decreases |s|, 3
  {
    hide ValidSchema, DefaultsFit, FitsMsg, DecodeField, Skip, ReadVarint32, RequiredBefore, FixedFull;
    var i := Find(fields, tag);
    if i < |fields| { FieldFits(fields, i, wireType, s, Arrive(fields, i, st).value); }
  }

  lemma {:induction false} LoopFits(fields: seq<Field>, s: Bytes, st: State)
    requires ValidSchema(fields) && DefaultsFit(fields) && FitsMsg(fields, st.m) && DecodeLoop(fields, s, st).Ok?
    ensures FitsMsg(fields, DecodeLoop(fields, s, st).value.m)
    decreases |s|, 4
  {
    hide ValidSchema, DefaultsFit, FitsMsg, DecodeRecord, ReadTag;
    if s != [] {
      match ReadTag(s)
      case TagEnd(_) =>
      case TagOk(tag, wireType, rest) =>
        RecordFits(fields, tag, wireType, rest, st);
        var r := DecodeRecord(fields, tag, wireType, rest, st);
        LoopFits(fields, r.rest, r.value);
    }
  }

  /** Memory safety of the decoder: whatever the input, a message that fits is turned into one that fits. */
  lemma {:induction false} DecodeFits(fields: seq<Field>, s: Bytes, m: Msg)
    requires ValidSchema(fields) && DefaultsFit(fields) && FitsMsg(fields, m) && Decode(fields, s, m).Ok?
    ensures FitsMsg(fields, Decode(fields, s, m).value)
    decreases |s|, 5
  {
    hide ValidSchema, DefaultsFit, FitsMsg, DecodeLoop, RequiredSeen, FixedFull;
    LoopFits(fields, s, Start(m));
  }

  /** The same for pb_decode. */
  lemma DecodedFits(fields: seq<Field>, s: Bytes)
    requires ValidSchema(fields) && DefaultsFit(fields) && Decode(fields, s, Init(fields)).Ok?
    ensures FitsMsg(fields, Decode(fields, s, Init(fields)).value)
  {
    hide ValidSchema, DefaultsFit, FitsMsg, Decode, Init;
    InitFits(fields);
    DecodeFits(fields, s, Init(fields));
  }
}

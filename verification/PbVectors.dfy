/** The worked examples of the Protocol Buffers encoding guide, as this encoder writes them: they fix the wire
    format, which round trips alone do not. */
module PbVectors {
  import opened PbWire
  import opened PbCommon
  import opened PbFormat

  /** A 32-bit integer, a string of at most 15 bytes, a submessage or an array, required or repeated. */
  function Plain(tag: nat, ltype: LType, htype: HType, size: nat, room: nat): Field {
    Field(tag, ltype, htype, 0, if htype.Repeated? then -1 else 0, size, room, None)
  }

  lemma VarintPair(v: nat)
    requires 128 <= v < 0x4000
    ensures Varint(v) == [v % 128 + 128, v / 128]
  {
    assert Varint(v / 128) == [v / 128];
  }

  lemma VarintTriple(v: nat)
    requires 0x4000 <= v < 0x20_0000
    ensures Varint(v) == [v % 128 + 128, v / 128 % 128 + 128, v / 128 / 128]
  {
    VarintPair(v / 128);
  }

  lemma OneField(f: Field, slot: Slot, s: Bytes)
    requires SlotFits(f, slot) && EncodeSlot(f, slot) == Some(s)
    ensures Encode([f], map[f.dataOffset := slot]) == Some(s)
  {
    hide EncodeSlot;
    var m: Msg := map[f.dataOffset := slot];
    assert Look([f], 0, m) == slot;
    assert EncodeFrom([f], m, 1) == Some([]);
    assert s + [] == s;
  }

  /** A key and a length of one byte each. */
  lemma Tagged(wireType: nat, tag: nat, s: Bytes)
    requires tag * 8 + wireType < 128
    ensures TagBytes(wireType, tag) + s == [tag * 8 + wireType] + s
  {
    assert Varint(tag * 8 + wireType) == [tag * 8 + wireType];
  }

  lemma Prefixed(s: Bytes)
    requires |s| < 128
    ensures LengthPrefixed(s) == [|s|] + s
  {
    assert Varint(|s|) == [|s|];
  }

  function Number(): Field { Plain(1, LVarint, Required, 4, 0) }

  lemma NumberPayload(f: Field, v: nat)
    requires f.ltype.LVarint? && f.dataSize == 4 && v < 0x20_0000
    ensures EncodeScalar(f, Int(v)) == Some(Varint(v)) && EncodeValue(f, Int(v)) == Some(Varint(v))
  {
    hide Varint;
    assert Cast(v, 4) == v;
  }

  /** int32 a = 1 with the value 150. */
  lemma Integer()
    ensures Encode([Number()], map[0 := Single(false, Int(150))]) == Some([0x08, 0x96, 0x01])
  {
    VarintPair(150);
    NumberPayload(Number(), 150);
    Tagged(0, 1, [0x96, 0x01]);
    assert [0x08] + [0x96, 0x01] == [0x08, 0x96, 0x01];
    hide TagBytes, EncodeValue;
    OneField(Number(), Single(false, Int(150)), [0x08, 0x96, 0x01]);
  }

  const TESTING: Bytes := [0x74, 0x65, 0x73, 0x74, 0x69, 0x6e, 0x67]

  /** string b = 2 with the value "testing". */
  lemma Text()
    ensures Encode([Plain(2, LString, Required, 16, 0)], map[0 := Single(false, Blob(TESTING))])
            == Some([0x12, 0x07] + TESTING)
  {
    var f := Plain(2, LString, Required, 16, 0);
    WholeString(TESTING, 16);
    Prefixed(TESTING);
    Tagged(2, 2, [0x07] + TESTING);
    assert [0x12] + ([0x07] + TESTING) == [0x12, 0x07] + TESTING;
    hide TagBytes, LengthPrefixed, CString;
    OneField(f, Single(false, Blob(TESTING)), [0x12, 0x07] + TESTING);
  }

  lemma {:induction false} WholeString(b: Bytes, size: nat)
    requires |b| < size && forall k :: 0 <= k < |b| ==> b[k] != 0
    ensures CString(b, size) == b
  {
    if b != [] { WholeString(b[1..], size - 1); }
  }

  /** A submessage c = 3 with the field of the first example. */
  lemma Nested()
    ensures Encode([Plain(3, LSubmessage([Number()]), Required, 4, 0)],
                   map[0 := Single(false, Message(map[0 := Single(false, Int(150))]))])
            == Some([0x1a, 0x03, 0x08, 0x96, 0x01])
  {
    var f := Plain(3, LSubmessage([Number()]), Required, 4, 0);
    var inner: Msg := map[0 := Single(false, Int(150))];
    Integer();
    Prefixed([0x08, 0x96, 0x01]);
    assert [0x03] + [0x08, 0x96, 0x01] == [0x03, 0x08, 0x96, 0x01];
    Tagged(2, 3, [0x03, 0x08, 0x96, 0x01]);
    assert [0x1a] + [0x03, 0x08, 0x96, 0x01] == [0x1a, 0x03, 0x08, 0x96, 0x01];
    hide TagBytes, LengthPrefixed, Number;
    assert EncodeFrom(f.ltype.fields, inner, 0) == Some([0x08, 0x96, 0x01]);
    assert EncodeValue(f, Message(inner)) == Some([0x03, 0x08, 0x96, 0x01]);
    hide EncodeFrom, EncodeValue;
    OneField(f, Single(false, Message(inner)), [0x1a, 0x03, 0x08, 0x96, 0x01]);
  }

  lemma PackedOne(f: Field, items: seq<Value>, first: Bytes, others: Bytes)
    requires f.ltype.Packable() && items != [] && EncodeScalar(f, items[0]) == Some(first)
    requires EncodePacked(f, items[1..]) == Some(others)
    ensures EncodePacked(f, items) == Some(first + others)
  {
  }

  const BODY: Bytes := [0x03, 0x8e, 0x02, 0x9e, 0xa7, 0x05]

  lemma PackedBody(f: Field)
    requires f.ltype.LVarint? && f.dataSize == 4
    ensures EncodePacked(f, [Int(3), Int(270), Int(86942)]) == Some(BODY)
  {
    NumberPayload(f, 3);
    NumberPayload(f, 270);
    NumberPayload(f, 86942);
    assert Varint(3) == [0x03];
    VarintPair(270);
    VarintTriple(86942);
    assert EncodePacked(f, []) == Some([]);
    hide EncodeScalar, EncodePacked, Varint;
    PackedOne(f, [Int(86942)], [0x9e, 0xa7, 0x05], []);
    assert [0x9e, 0xa7, 0x05] + [] == [0x9e, 0xa7, 0x05];
    assert [Int(270), Int(86942)][1..] == [Int(86942)];
    PackedOne(f, [Int(270), Int(86942)], [0x8e, 0x02], [0x9e, 0xa7, 0x05]);
    assert [0x8e, 0x02] + [0x9e, 0xa7, 0x05] == [0x8e, 0x02, 0x9e, 0xa7, 0x05];
    assert [Int(3), Int(270), Int(86942)][1..] == [Int(270), Int(86942)];
    PackedOne(f, [Int(3), Int(270), Int(86942)], [0x03], [0x8e, 0x02, 0x9e, 0xa7, 0x05]);
    assert [0x03] + [0x8e, 0x02, 0x9e, 0xa7, 0x05] == BODY;
  }

  /** repeated int32 f = 6 with the values 3, 270 and 86942, packed. */
  lemma Packed()
    ensures Encode([Plain(6, LVarint, Repeated, 4, 3)], map[0 := Array([Int(3), Int(270), Int(86942)])])
            == Some([0x32, 0x06] + [0x03, 0x8e, 0x02, 0x9e, 0xa7, 0x05])
  {
    var f, items := Plain(6, LVarint, Repeated, 4, 3), [Int(3), Int(270), Int(86942)];
    PackedBody(f);
    Prefixed(BODY);
    Tagged(2, 6, [0x06] + BODY);
    assert [0x32] + ([0x06] + BODY) == [0x32, 0x06] + BODY;
    hide TagBytes, LengthPrefixed, EncodePacked;
    OneField(f, Array(items), [0x32, 0x06] + BODY);
  }
}

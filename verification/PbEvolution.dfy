/** Decoding inverts encoding. The main theorem is stated for two schemas: bytes written under a
    schema `big` are read under a schema `small` that knows some of its fields, at every depth, and
    show the values of exactly those fields. With one schema for both it is the round trip. */
module PbEvolution {
  import opened PbWire
  import opened PbCommon
  import opened PbFormat

  // ----- Well-formed messages

  /** A value its field's type can hold, in the form the decoder accepts: strings keep a byte for
      their NUL, and contain none. */
  ghost predicate ValidValue(f: Field, v: Value)
    decreases f, 0
  {
    match f.ltype
    case LBool => v.Int? && 0 <= v.i <= 1
    case LUVarint => v.Int? && f.dataSize in {1, 2, 4, 8} && 0 <= v.i < Modulus(f.dataSize)
    case LVarint => v.Int? && f.dataSize in {1, 2, 4, 8} && SignedRange(v.i, f.dataSize)
    case LSVarint => v.Int? && f.dataSize in {1, 2, 4, 8} && SignedRange(v.i, f.dataSize)
    case LFixed32 => v.Int? && 0 <= v.i < U32
    case LFixed64 => v.Int? && 0 <= v.i < U64
    case LBytes => v.Blob? && |v.bytes| + BYTES_OFFSET <= f.dataSize
    case LString => v.Blob? && |v.bytes| < f.dataSize && forall k :: 0 <= k < |v.bytes| ==> v.bytes[k] != 0
    case LFixedLengthBytes => v.Blob? && |v.bytes| == f.dataSize
    case LSubmessage(sub) => v.Message? && ValidMsg(sub, v.slots)
  }

  ghost predicate ValidSlot(f: Field, slot: Slot)
    requires SlotFits(f, slot)
    decreases f, 1
  {
    if f.htype.Repeated? then
      && |slot.items| <= f.arraySize
      && (f.FixedCount() ==> |slot.items| == f.arraySize)
      && forall k :: 0 <= k < |slot.items| ==> ValidValue(f, slot.items[k])
    else f.Singular() || Present(f, slot) ==> ValidValue(f, ValueOf(slot))
  }

  ghost predicate ValidMsg(fields: seq<Field>, m: Msg)
    decreases fields, 2
  {
    forall i :: 0 <= i < |fields| ==> ValidSlot(fields[i], Look(fields, i, m))
  }

  // ----- The same message under two schemas

  /** Field g of the writer's schema can be read as field f. */
  ghost predicate Compatible(f: Field, g: Field)
    decreases f, 0
  {
    && f.htype == g.htype
    && (f.sizeOffset == 0 <==> g.sizeOffset == 0)
    && f.arraySize == g.arraySize
    && (if f.ltype.LSubmessage? then g.ltype.LSubmessage? && Extends(g.ltype.fields, f.ltype.fields)
        else f.ltype == g.ltype && f.dataSize == g.dataSize)
  }

  /** `big` has every field of `small`, in any order and among others with other tags; fields in one
      union of `small` are in one union of `big`. */
  ghost predicate Extends(big: seq<Field>, small: seq<Field>)
    decreases small
  {
    && (forall j :: 0 <= j < |small| ==> Known(big, small[j]))
    && (forall j, k :: 0 <= j < k < |small| && DataPos(small, j) == DataPos(small, k) ==>
          SamePlace(big, small[j].tag, small[k].tag))
  }

  ghost predicate Known(big: seq<Field>, f: Field)
    decreases f, 1
  {
    Find(big, f.tag) < |big| && Compatible(f, big[Find(big, f.tag)])
  }

  ghost predicate SamePlace(fields: seq<Field>, tag: nat, tag': nat) {
    Find(fields, tag) < |fields| && Find(fields, tag') < |fields| ==>
      DataPos(fields, Find(fields, tag)) == DataPos(fields, Find(fields, tag'))
  }

  /** `a` under schema `small` shows what `b` under schema `big` shows of the fields of `small`:
      the same presence, and where present the same value. Absent values and inactive union arms
      are not compared. */
  ghost predicate Agree(small: seq<Field>, a: Msg, big: seq<Field>, b: Msg)
    decreases small, 2
  {
    forall j :: 0 <= j < |small| ==> FieldAgrees(small, a, big, b, j)
  }

  ghost predicate FieldAgrees(small: seq<Field>, a: Msg, big: seq<Field>, b: Msg, j: nat)
    requires j < |small|
    decreases small, 1
  {
    var i := Find(big, small[j].tag);
    i < |big| && SlotAgrees(small[j], Look(small, j, a), big[i], Look(big, i, b))
  }

  ghost predicate SlotAgrees(f: Field, x: Slot, g: Field, y: Slot)
    requires SlotFits(f, x) && SlotFits(g, y)
    decreases f, 1
  {
    && f.htype == g.htype
    && match f.htype
       case Required => ValueAgrees(f, x.value, g, y.value)
       case Optional =>
         if f.sizeOffset == 0 then ValueAgrees(f, x.value, g, y.value)
         else x.has == y.has && (x.has ==> ValueAgrees(f, x.value, g, y.value))
       case Oneof => (x.which == f.tag <==> y.which == g.tag) && (x.which == f.tag ==> ValueAgrees(f, x.arm, g, y.arm))
       case Repeated => ItemsAgree(f, x.items, g, y.items)
  }

  ghost predicate ItemsAgree(f: Field, xs: seq<Value>, g: Field, ys: seq<Value>)
    decreases f, 0, 1
  {
    |xs| == |ys| && forall k :: 0 <= k < |xs| ==> ValueAgrees(f, xs[k], g, ys[k])
  }

  ghost predicate ValueAgrees(f: Field, v: Value, g: Field, w: Value)
    decreases f, 0, 0
  {
    if f.ltype.LSubmessage? && g.ltype.LSubmessage? then
      v.Message? && w.Message? && Agree(f.ltype.fields, v.slots, g.ltype.fields, w.slots)
    else v == w
  }

  // ----- Encoding a well-formed message succeeds

  lemma {:induction false} EncodesPacked(f: Field, items: seq<Value>)
    requires f.ltype.Packable()
    requires forall k :: 0 <= k < |items| ==> ValidValue(f, items[k])
    ensures EncodePacked(f, items).Some?
  {
    if items != [] {
      assert ValidValue(f, items[0]);
      EncodesPacked(f, items[1..]);
    }
  }

  lemma {:induction false} EncodesValue(f: Field, v: Value)
    requires ValidValue(f, v)
    ensures EncodeValue(f, v).Some?
    decreases f, 0
  {
    if f.ltype.LSubmessage? {
      EncodesFrom(f.ltype.fields, v.slots, 0);
    }
  }

  lemma {:induction false} EncodesUnpacked(f: Field, items: seq<Value>)
    requires forall k :: 0 <= k < |items| ==> ValidValue(f, items[k])
    ensures EncodeUnpacked(f, items).Some?
    decreases f, 1, |items|
  {
    if items != [] {
      EncodesValue(f, items[0]);
      EncodesUnpacked(f, items[1..]);
    }
  }

  lemma ItemsId(f: Field, slot: Slot)
    requires SlotFits(f, slot) && f.htype.Repeated? && ValidSlot(f, slot)
    ensures Items(f, slot.items) == slot.items
  {
  }

  lemma {:induction false} EncodesSlot(f: Field, slot: Slot)
    requires SlotFits(f, slot) && ValidSlot(f, slot)
    ensures EncodeSlot(f, slot).Some?
    decreases f, 2
  {
    if f.htype.Repeated? {
      ItemsId(f, slot);
      if f.ltype.Packable() { EncodesPacked(f, slot.items); } else { EncodesUnpacked(f, slot.items); }
    } else if Present(f, slot) {
      EncodesValue(f, ValueOf(slot));
    }
  }

  /** Only an array longer than its storage, a bytes field longer than its buffer or an unsupported
      integer size stop the encoder. */
  lemma {:induction false} EncodesFrom(fields: seq<Field>, m: Msg, i: nat)
    requires ValidMsg(fields, m) && i <= |fields|
    ensures EncodeFrom(fields, m, i).Some?
    decreases fields, 3, |fields| - i
  {
    if i < |fields| {
      EncodesSlot(fields[i], Look(fields, i, m));
      EncodesFrom(fields, m, i + 1);
    }
  }

  // ----- Values

  /** Scalars of every type and size survive, the clamp check of the decoder included. */
  lemma ScalarRoundTrip(f: Field, g: Field, v: Value, rest: Bytes)
    requires f.ltype == g.ltype && f.dataSize == g.dataSize && f.ltype.Packable()
    requires ValidValue(g, v)
    ensures EncodeScalar(g, v).Some? && EncodeScalar(g, v).value != []
    ensures DecodeScalar(f, EncodeScalar(g, v).value + rest) == Ok(v, rest)
  {
    hide Varint, ReadVarint64, ReadVarint32, ReadFixed, FixedBytes, Cast, ZigZag, UnZigZag, Pow256;
    var i := v.i;
    if f.ltype.LBool? {
      Varint32RoundTrip(i, rest);
    } else if f.ltype.LFixed32? {
      ModUnique(0, i);
      Pow256Values();
      FixedRoundTrip(i, 4, rest);
    } else if f.ltype.LFixed64? {
      Mod64Small(i);
      Pow256Values();
      FixedRoundTrip(i, 8, rest);
    } else if f.ltype.LUVarint? {
      ModulusSmall(i, f.dataSize);
      Varint64RoundTrip(i, rest);
    } else {
      CastInRange(i, f.dataSize);
      if f.ltype.LSVarint? { SVarintRoundTrip(i, rest); } else { SignedVarintRoundTrip(i, f.dataSize, rest); }
    }
  }

  lemma ModulusSmall(i: nat, size: nat)
    requires size in {1, 2, 4, 8} && i < Modulus(size)
    ensures i % Modulus(size) == i && i < U64
  {
    Mod64Small(i);
  }

  lemma SVarintRoundTrip(i: int, rest: Bytes)
    requires -U63 <= i < U63
    ensures var r := ReadVarint64(Varint(ZigZag(i)) + rest);
            r.Ok? && r.rest == rest && UnZigZag(r.value % U64) == i
  {
    UnZigZagOfZigZag(i);
    Mod64Small(ZigZag(i));
    Varint64RoundTrip(ZigZag(i), rest);
  }

  lemma SignedVarintRoundTrip(i: int, size: nat, rest: Bytes)
    requires size in {1, 2, 4, 8} && SignedRange(i, size)
    requires -U63 <= i < U63
    ensures var r := ReadVarint64(Varint(AsUnsigned(i)) + rest);
            r.Ok? && r.rest == rest && Cast(r.value, if size == 8 then 8 else 4) == i
  {
    CastOfUnsigned(i, size);
    Varint64RoundTrip(AsUnsigned(i), rest);
  }

  lemma CastInRange(i: int, size: nat)
    requires size in {1, 2, 4, 8} && SignedRange(i, size)
    ensures Cast(i, size) == i && -U63 <= i < U63
  {
  }

  /** Fields of 32 bits or less are cast to int32 first. */
  lemma CastOfUnsigned(i: int, size: nat)
    requires size in {1, 2, 4, 8} && SignedRange(i, size)
    requires -U63 <= i < U63
    ensures Cast(AsUnsigned(i), if size == 8 then 8 else 4) == i
  {
  }

  lemma {:induction false} PackedRoundTrip(f: Field, g: Field, items: seq<Value>, done: seq<Value>)
    requires f.ltype == g.ltype && f.dataSize == g.dataSize && f.ltype.Packable()
    requires forall k :: 0 <= k < |items| ==> ValidValue(g, items[k])
    requires |done| + |items| <= f.arraySize
    ensures EncodePacked(g, items).Some?
    ensures DecodePacked(f, EncodePacked(g, items).value, done, |done|) == Some((done + items, |done| + |items|))
    decreases |items|
  {
    hide EncodeScalar, DecodeScalar, ValidValue;
    if items == [] {
      assert done + items == done;
    } else {
      EncodesPacked(g, items[1..]);
      var others := EncodePacked(g, items[1..]).value;
      ScalarRoundTrip(f, g, items[0], others);
      PackedRoundTrip(f, g, items[1..], done + [items[0]]);
      assert done + [items[0]] + items[1..] == done + items;
    }
  }

  lemma StringRoundTrip(s: Bytes, rest: Bytes)
    requires |s| < U32
    ensures ReadString(LengthPrefixed(s) + rest) == Ok(s, rest)
  {
    Mod64Small(|s|);
    Varint32RoundTrip(|s|, s + rest);
    assert LengthPrefixed(s) + rest == Varint(|s|) + (s + rest);
    assert (s + rest)[..|s|] == s && (s + rest)[|s|..] == rest;
  }

  lemma {:induction false} CStringWhole(b: Bytes, size: nat)
    requires |b| < size && forall k :: 0 <= k < |b| ==> b[k] != 0
    ensures CString(b, size) == b
  {
    if b != [] { CStringWhole(b[1..], size - 1); }
  }

  lemma BlobReads(f: Field, b: Bytes, rest: Bytes)
    requires |b| < U32
    requires if f.ltype.LFixedLengthBytes? then 0 < |b| == f.dataSize <= PB_SIZE_MAX
             else if f.ltype.LString? then |b| < f.dataSize
             else f.ltype.LBytes? && |b| + BYTES_OFFSET <= f.dataSize <= PB_SIZE_MAX
    ensures DecodeBlob(f, LengthPrefixed(b) + rest) == Ok(Blob(b), rest)
  {
    hide Varint, ReadVarint32;
    Mod64Small(|b|);
    Varint32RoundTrip(|b|, b + rest);
    assert LengthPrefixed(b) + rest == Varint(|b|) + (b + rest);
    assert (b + rest)[..|b|] == b && (b + rest)[|b|..] == rest;
  }

  lemma BlobRoundTrip(f: Field, g: Field, v: Value, rest: Bytes)
    requires f.ltype == g.ltype && f.dataSize == g.dataSize && ValidType(f)
    requires f.ltype.LBytes? || f.ltype.LString? || f.ltype.LFixedLengthBytes?
    requires ValidValue(g, v) && |EncodeValue(g, v).value| < U32
    ensures DecodeBlob(f, EncodeValue(g, v).value + rest) == Ok(v, rest)
  {
    hide DecodeBlob, Varint;
    var b := v.bytes;
    if f.ltype.LString? { CStringWhole(b, g.dataSize); }
    if f.ltype.LFixedLengthBytes? { assert Inline(b, g.dataSize) == b; }
    assert EncodeValue(g, v).value == LengthPrefixed(b);
    BlobReads(f, b, rest);
  }

  lemma TagRoundTrip(tag: nat, wireType: nat, rest: Bytes)
    requires 1 <= tag < 0x2000_0000 && wireType < 8
    ensures ReadTag(TagBytes(wireType, tag) + rest) == TagOk(tag, wireType, rest)
    ensures TagBytes(wireType, tag) != []
  {
    hide Varint, ReadVarint32;
    Mod64Small(tag * 8 + wireType);
    Varint32RoundTrip(tag * 8 + wireType, rest);
  }

  // ----- Unknown fields

  lemma PrefixLonger(body: Bytes)
    ensures |LengthPrefixed(body)| > |body|
  {
  }

  /** pb_skip_field consumes exactly what the encoder of the field's type wrote. */
  lemma SkipsValue(g: Field, v: Value, rest: Bytes)
    requires EncodeValue(g, v).Some? && |EncodeValue(g, v).value| < U32
    ensures Skip(WireType(g.ltype), EncodeValue(g, v).value + rest) == Some(rest)
  {
    var s := EncodeValue(g, v).value;
    if g.ltype.Packable() {
      SkipsScalar(g, v, rest);
    } else {
      var body :| s == LengthPrefixed(body);
      PrefixLonger(body);
      StringRoundTrip(body, rest);
    }
  }

  lemma SkipsScalar(g: Field, v: Value, rest: Bytes)
    requires g.ltype.Packable() && EncodeScalar(g, v).Some?
    ensures Skip(WireType(g.ltype), EncodeScalar(g, v).value + rest) == Some(rest)
  {
    var s := EncodeScalar(g, v).value;
    if WireType(g.ltype) == PB_WT_VARINT {
      var n: nat :| s == Varint(n);
      VarintParses(n);
      VarintLenLocal(s, rest);
      assert (s + rest)[|s|..] == rest;
    } else {
      assert (s + rest)[|s|..] == rest;
    }
  }

  /** A record whose payload is consumed exactly is one step of the loop. */
  lemma RecordStep(fields: seq<Field>, tag: nat, wireType: nat, payload: Bytes, tail: Bytes, st: State, st': State)
    requires 1 <= tag < 0x2000_0000 && wireType < 8
    requires DecodeRecord(fields, tag, wireType, payload + tail, st) == Ok(st', tail)
    ensures DecodeLoop(fields, TagBytes(wireType, tag) + payload + tail, st) == DecodeLoop(fields, tail, st')
  {
    hide TagBytes, ReadTag, DecodeRecord;
    TagRoundTrip(tag, wireType, payload + tail);
    assert TagBytes(wireType, tag) + payload + tail == TagBytes(wireType, tag) + (payload + tail);
  }

  // ----- Elided singular fields

  lemma {:induction false} DefaultFromAt(fields: seq<Field>, m: Msg, i: nat, j: nat)
    requires i <= j < |fields| && IsDefaultFrom(fields, m, i)
    ensures IsDefaultSlot(fields[j], Look(fields, j, m))
    decreases j - i
  {
    if i < j { DefaultFromAt(fields, m, i + 1, j); }
  }

  /** A slot the decoder has not written shows what the writer's slot shows when that was not
      written: nothing, or the zero value of a singular field. */
  lemma {:induction false} AbsentAgrees(f: Field, x: Slot, g: Field, y: Slot)
    requires Compatible(f, g) && f.tag == g.tag
    requires ValidType(f) && ValidSub(f) && ValidType(g) && ValidSub(g)
    requires SlotFits(f, x) && SlotFits(g, y) && ValidSlot(g, y) && Unset(f, x)
    requires if g.htype.Repeated? then y.items == [] else !Present(g, y)
    ensures SlotAgrees(f, x, g, y)
    decreases f, 1
  {
    if f.Singular() {
      ElidedIsInit(f, g, y.value);
    }
  }

  /** What pb_check_proto3_default_value leaves out is what the decoder starts from. */
  lemma {:induction false} ElidedIsInit(f: Field, g: Field, v: Value)
    requires Compatible(f, g) && f.Singular()
    requires ValidType(f) && ValidSub(f) && ValidType(g) && ValidSub(g)
    requires ValidValue(g, v) && IsDefaultValue(g, v)
    ensures ValueAgrees(f, InitValue(f), g, v)
    decreases f, 0
  {
    if f.ltype.LSubmessage? {
      ElidedMessage(f.ltype.fields, g.ltype.fields, v.slots);
    }
  }

  lemma {:induction false} ElidedMessage(small: seq<Field>, big: seq<Field>, m: Msg)
    requires ValidSchema(small) && ValidSchema(big) && Extends(big, small)
    requires ValidMsg(big, m) && IsDefaultFrom(big, m, 0)
    ensures Agree(small, Init(small), big, m)
    decreases small, 2
  {
    forall j | 0 <= j < |small|
      ensures FieldAgrees(small, Init(small), big, m, j)
    {
      LookInit(small, j);
      assert Known(big, small[j]);
      var i := Find(big, small[j].tag);
      DefaultFromAt(big, m, 0, i);
      assert ValidSlot(big[i], Look(big, i, m));
      assert ValidType(small[j]) && ValidType(big[i]) && ValidSub(small[j]) && ValidSub(big[i]);
      AbsentAgrees(small[j], InitSlot(small[j]), big[i], Look(big, i, m));
    }
  }

  ghost predicate Unset(f: Field, slot: Slot)
    requires SlotFits(f, slot)
  {
    if f.htype.Oneof? then slot.which != f.tag else slot == InitSlot(f)
  }

  // ----- The state of the loop after the first i fields of the writer's schema

  ghost predicate FieldDone(small: seq<Field>, a: Msg, big: seq<Field>, b: Msg, i: nat, j: nat)
    requires j < |small|
  {
    if Find(big, small[j].tag) < i then FieldAgrees(small, a, big, b, j) else Unset(small[j], Look(small, j, a))
  }

  ghost predicate SeenBy(small: seq<Field>, big: seq<Field>, i: nat, seen: set<nat>) {
    forall j :: 0 <= j < |small| && small[j].htype.Required? && Find(big, small[j].tag) < i
                && RequiredBefore(small, j) < PB_MAX_REQUIRED_FIELDS ==>
                RequiredBefore(small, j) in seen
  }

  ghost predicate Reached(small: seq<Field>, big: seq<Field>, m: Msg, i: nat, st: State) {
    && !st.ended
    && (forall j :: 0 <= j < |small| ==> FieldDone(small, st.m, big, m, i, j))
    && SeenBy(small, big, i, st.seen)
    && (st.fixed.Some? ==>
          && st.fixed.value < |small|
          && Find(big, small[st.fixed.value].tag) < i
          && st.fixedCount == small[st.fixed.value].arraySize)
  }

  lemma LookOther(fields: seq<Field>, m: Msg, i: nat, slot: Slot, j: nat)
    requires ValidSchema(fields) && i < |fields| && j < |fields| && i != j
    requires !fields[i].htype.Oneof? || !fields[j].htype.Oneof? || DataPos(fields, i) != DataPos(fields, j)
    ensures Look(fields, j, m[DataPos(fields, i) := slot]) == Look(fields, j, m)
  {
    if DataPos(fields, i) == DataPos(fields, j) { SharedSlot(fields, i, j); }
  }

  /** Fields of the reader other than the one just handled are as far as they were. */
  lemma OthersStay(small: seq<Field>, big: seq<Field>, m: Msg, i: nat, a: Msg, a': Msg, j: nat)
    requires ValidSchema(small) && ValidSchema(big) && Extends(big, small) && i < |big| && j < |small|
    requires small[j].tag != big[i].tag
    requires FieldDone(small, a, big, m, i, j)
    requires Look(small, j, a') == Look(small, j, a)
    ensures FieldDone(small, a', big, m, i + 1, j)
  {
  }

  /** When union arm `big[i]` is active, no other arm of the reader's union is. */
  lemma OtherArm(small: seq<Field>, big: seq<Field>, m: Msg, i: nat, a': Msg, j: nat, j': nat)
    requires ValidSchema(small) && ValidSchema(big) && Extends(big, small)
    requires i < |big| && j < |small| && j' < |small| && j != j'
    requires small[j].tag == big[i].tag && DataPos(small, j) == DataPos(small, j')
    requires big[i].htype.Oneof? && Look(big, i, m).which == big[i].tag
    requires small[j'].htype.Oneof? && Look(small, j', a').which == small[j].tag
    ensures FieldDone(small, a', big, m, i + 1, j')
  {
    hide DataPos, Find, ValidType, ValidSub, ValueAgrees, InitSlot;
    FindAt(big, i);
    assert Known(big, small[j']);
    var i' := Find(big, small[j'].tag);
    assert Compatible(small[j'], big[i']);
    var lo, hi := if j < j' then j else j', if j < j' then j' else j;
    assert SamePlace(big, small[lo].tag, small[hi].tag);
    assert small[lo].tag != small[hi].tag;
    SameLook(big, i, i', m);
    assert Unset(small[j'], Look(small, j', a'));
    assert Look(big, i', m).which == small[j].tag;
    assert SlotAgrees(small[j'], Look(small, j', a'), big[i'], Look(big, i', m));
    assert FieldAgrees(small, a', big, m, j');
  }

  /** Two arms of a union look at the same slot. */
  lemma SameLook(fields: seq<Field>, i: nat, i': nat, m: Msg)
    requires i < |fields| && i' < |fields| && DataPos(fields, i) == DataPos(fields, i')
    requires fields[i].htype.Oneof? && fields[i'].htype.Oneof?
    ensures Look(fields, i, m) == Look(fields, i', m)
  {
  }

  /** A field the reader does not know changes nothing. */
  lemma ReachedSkipped(small: seq<Field>, big: seq<Field>, m: Msg, i: nat, st: State)
    requires ValidSchema(small) && ValidSchema(big) && Extends(big, small) && i < |big|
    requires Find(small, big[i].tag) == |small|
    requires Reached(small, big, m, i, st)
    ensures Reached(small, big, m, i + 1, st)
  {
    hide FieldAgrees, Unset, Find, Extends, ValidSchema;
    var next := i + 1;
    forall k | 0 <= k < |small| ensures FieldDone(small, st.m, big, m, next, k) {
      assert small[k].tag != big[i].tag;
      assert FieldDone(small, st.m, big, m, i, k);
      OthersStay(small, big, m, i, st.m, st.m, k);
    }
    assert forall k :: 0 <= k < |small| && Find(big, small[k].tag) < next ==> Find(big, small[k].tag) < i by {
      forall k | 0 <= k < |small| ensures Find(big, small[k].tag) != i {
        assert small[k].tag != big[i].tag;
      }
    }
  }

  lemma UnknownRecord(small: seq<Field>, tag: nat, wireType: nat, s: Bytes, tail: Bytes, st: State)
    requires Find(small, tag) == |small| && tag > 0
    requires Skip(wireType, s) == Some(tail)
    ensures DecodeRecord(small, tag, wireType, s, st) == Ok(st, tail)
  {
  }

  /** The value the decoder of a field that is not repeated merges into. */
  function Prior(small: seq<Field>, j: nat, m: Msg): Value
    requires j < |small| && !small[j].htype.Repeated?
  {
    var f, x := small[j], Look(small, j, m);
    if !f.htype.Oneof? then x.value
    else if f.ltype.LSubmessage? && x.which != f.tag then Message(Init(f.ltype.fields))
    else x.arm
  }

  lemma PriorIsInit(small: seq<Field>, j: nat, m: Msg)
    requires j < |small| && !small[j].htype.Repeated? && small[j].ltype.LSubmessage?
    requires Unset(small[j], Look(small, j, m))
    ensures SlotsOf(Prior(small, j, m)) == Init(small[j].ltype.fields)
  {
    if !small[j].htype.Oneof? {
      assert InitSlot(small[j]).value == InitValue(small[j]);
    }
  }

  /** The state after value w of field j, which is not repeated. */
  function Store(small: seq<Field>, j: nat, w: Value, st: State): State
    requires j < |small| && !small[j].htype.Repeated?
  {
    var f, x := small[j], Look(small, j, st.m);
    var slot := if f.htype.Oneof? then Union(f.tag, w)
                else Single(x.has || (f.htype.Optional? && f.sizeOffset != 0), w);
    var seen := if f.htype.Required? && RequiredBefore(small, j) < PB_MAX_REQUIRED_FIELDS
                then st.seen + {RequiredBefore(small, j)} else st.seen;
    st.(m := st.m[DataPos(small, j) := slot], seen := seen)
  }

  lemma KnownRecord(small: seq<Field>, j: nat, wireType: nat, s: Bytes, w: Value, tail: Bytes, st: State)
    requires j < |small| && Find(small, small[j].tag) == j && !small[j].htype.Repeated?
    requires DecodeValue(small[j], s, Prior(small, j, st.m)) == Ok(w, tail)
    ensures DecodeRecord(small, small[j].tag, wireType, s, st) == Ok(Store(small, j, w, st), tail)
  {
    hide DecodeValue, DataPos, RequiredBefore, Look;
  }

  lemma ReachedStored(small: seq<Field>, big: seq<Field>, m: Msg, i: nat, j: nat, w: Value, st: State)
    requires ValidSchema(small) && ValidSchema(big) && Extends(big, small) && i < |big| && j < |small|
    requires small[j].tag == big[i].tag && Compatible(small[j], big[i])
    requires !big[i].htype.Repeated? && Present(big[i], Look(big, i, m))
    requires ValueAgrees(small[j], w, big[i], ValueOf(Look(big, i, m)))
    requires Reached(small, big, m, i, st)
    ensures Reached(small, big, m, i + 1, Store(small, j, w, st))
  {
    hide ValueAgrees, Extends, ValidSchema, DataPos, Find, RequiredBefore;
    var f, g, next := small[j], big[i], i + 1;
    var st' := Store(small, j, w, st);
    var slot := st'.m[DataPos(small, j)];
    FindAt(big, i);
    assert Look(small, j, st'.m) == slot;
    forall k | 0 <= k < |small| ensures FieldDone(small, st'.m, big, m, next, k) {
      assert FieldDone(small, st.m, big, m, i, k);
      if k == j {
        assert SlotAgrees(f, slot, g, Look(big, i, m));
        assert FieldAgrees(small, st'.m, big, m, j);
      } else {
        TagsDiffer(small, j, k);
        if f.htype.Oneof? && small[k].htype.Oneof? && DataPos(small, k) == DataPos(small, j) {
          SameLook(small, j, k, st'.m);
          OtherArm(small, big, m, i, st'.m, j, k);
        } else {
          LookOther(small, st.m, j, slot, k);
          OthersStay(small, big, m, i, st.m, st'.m, k);
        }
      }
    }
    assert SeenBy(small, big, next, st'.seen) by {
      forall k | 0 <= k < |small| && small[k].htype.Required? && Find(big, small[k].tag) < next
                 && RequiredBefore(small, k) < PB_MAX_REQUIRED_FIELDS
        ensures RequiredBefore(small, k) in st'.seen
      {
        if k != j {
          TagsDiffer(small, j, k);
          FindHit(big, small[k].tag, i);
        }
      }
    }
  }

  lemma TagsDiffer(fields: seq<Field>, j: nat, k: nat)
    requires ValidSchema(fields) && j < |fields| && k < |fields| && j != k
    ensures fields[j].tag != fields[k].tag
  {
  }

  lemma FindHit(fields: seq<Field>, tag: nat, i: nat)
    requires i < |fields| && fields[i].tag != tag
    ensures Find(fields, tag) != i
  {
  }

  /** One field of the message written as a single record: the record is decoded or skipped. */
  lemma {:induction false} SingleEvolves(small: seq<Field>, big: seq<Field>, m: Msg, i: nat, tail: Bytes, st: State)
    returns (st': State)
    requires ValidSchema(small) && ValidSchema(big) && Extends(big, small) && ValidMsg(big, m) && i < |big|
    requires !big[i].htype.Repeated? && Present(big[i], Look(big, i, m))
    requires EncodeSlot(big[i], Look(big, i, m)).Some? && |EncodeSlot(big[i], Look(big, i, m)).value| < U32
    requires Reached(small, big, m, i, st)
    ensures DecodeLoop(small, EncodeSlot(big[i], Look(big, i, m)).value + tail, st) == DecodeLoop(small, tail, st')
    ensures Reached(small, big, m, i + 1, st')
    decreases big, 2, |big| - i, 0
  {
    hide DecodeLoop, DecodeRecord, DecodeValue, EncodeValue, DataPos, Find, TagBytes, IsDefaultValue, Skip;
    var g, y := big[i], Look(big, i, m);
    var v := ValueOf(y);
    assert ValidSlot(g, y) && ValidType(g) && ValidSub(g);
    var s := EncodeValue(g, v).value;
    var wt := WireType(g.ltype);
    var j := Find(small, g.tag);
    if j == |small| {
      SkipsValue(g, v, tail);
      UnknownRecord(small, g.tag, wt, s + tail, tail, st);
      st' := st;
      ReachedSkipped(small, big, m, i, st);
    } else {
      var f := small[j];
      FindAt(big, i);
      assert Known(big, f) && ValidType(f) && ValidSub(f);
      assert Compatible(f, g);
      assert FieldDone(small, st.m, big, m, i, j);
      if f.ltype.LSubmessage? { PriorIsInit(small, j, st.m); }
      var prior := Prior(small, j, st.m);
      ValueEvolves(f, g, v, tail, prior);
      var w := DecodeValue(f, s + tail, prior).value;
      KnownRecord(small, j, wt, s + tail, w, tail, st);
      st' := Store(small, j, w, st);
      ReachedStored(small, big, m, i, j, w, st);
    }
    RecordStep(small, g.tag, wt, s, tail, st, st');
  }

  /** Reading one value gives back the value, whatever the types of its submessages have grown. */
  lemma {:induction false} ValueEvolves(f: Field, g: Field, v: Value, rest: Bytes, prior: Value)
    requires Compatible(f, g) && ValidType(f) && ValidSub(f) && ValidType(g) && ValidSub(g)
    requires ValidValue(g, v)
    requires EncodeValue(g, v).Some? && |EncodeValue(g, v).value| < U32
    requires f.ltype.LSubmessage? && !f.htype.Repeated? ==> SlotsOf(prior) == Init(f.ltype.fields)
    ensures var r := DecodeValue(f, EncodeValue(g, v).value + rest, prior);
            r.Ok? && r.rest == rest && ValueAgrees(f, r.value, g, v)
    decreases g, 0
  {
    hide Varint, ReadVarint32, ReadString, DecodeScalar, EncodeScalar, DecodeBlob, Decode, EncodeFrom,
      ValidSchema, ValidMsg, Extends, Agree, Init, CString, Inline;
    if f.ltype.LSubmessage? {
      var small, big := f.ltype.fields, g.ltype.fields;
      var body := Encode(big, v.slots).value;
      StringRoundTrip(body, rest);
      MessageEvolves(small, big, v.slots);
    } else if f.ltype.Packable() {
      ScalarRoundTrip(f, g, v, rest);
    } else {
      BlobRoundTrip(f, g, v, rest);
    }
  }

  /** The bytes a message was encoded to under `big` decode under `small`, are consumed to the end,
      and show the message's values of the fields of `small`. */
  lemma {:induction false} MessageEvolves(small: seq<Field>, big: seq<Field>, m: Msg)
    requires ValidSchema(small) && ValidSchema(big) && Extends(big, small) && ValidMsg(big, m)
    requires Encode(big, m).Some? && |Encode(big, m).value| < U32
    ensures var r := Decode(small, Encode(big, m).value, Init(small));
            r.Ok? && r.rest == [] && Agree(small, r.value, big, m)
    decreases big, 4
  {
    var s := Encode(big, m).value;
    var st := FromInit(small, big, m, []);
    assert s + [] == s;
    FinishEvolved(small, big, m, st);
  }

  lemma {:induction false} FromInit(small: seq<Field>, big: seq<Field>, m: Msg, tail: Bytes)
    returns (st: State)
    requires ValidSchema(small) && ValidSchema(big) && Extends(big, small) && ValidMsg(big, m)
    requires Encode(big, m).Some? && |Encode(big, m).value| < U32
    ensures DecodeLoop(small, Encode(big, m).value + tail, Start(Init(small))) == DecodeLoop(small, tail, st)
    ensures Reached(small, big, m, |big|, st)
    decreases big, 3, |big| + 1
  {
    forall j | 0 <= j < |small| ensures FieldDone(small, Init(small), big, m, 0, j) {
      LookInit(small, j);
      assert small[j].tag >= 1;
    }
    st := FieldsEvolve(small, big, m, 0, tail, Start(Init(small)));
  }

  lemma FinishEvolved(small: seq<Field>, big: seq<Field>, m: Msg, st: State)
    requires ValidSchema(small) && Extends(big, small)
    requires Reached(small, big, m, |big|, st)
    ensures FixedFull(small, st) && RequiredSeen(small, st.seen)
    ensures Agree(small, st.m, big, m)
  {
    forall r | 0 <= r < RequiredBefore(small, |small|) && r < PB_MAX_REQUIRED_FIELDS ensures r in st.seen {
      var j := RequiredAt(small, r, |small|);
      assert Known(big, small[j]);
    }
    forall j | 0 <= j < |small| ensures FieldAgrees(small, st.m, big, m, j) {
      assert Known(big, small[j]);
      assert FieldDone(small, st.m, big, m, |big|, j);
    }
  }

  /** The r-th required field. */
  lemma {:induction false} RequiredAt(fields: seq<Field>, r: nat, n: nat) returns (j: nat)
    requires n <= |fields| && r < RequiredBefore(fields, n)
    ensures j < n && fields[j].htype.Required? && RequiredBefore(fields, j) == r
  {
    if fields[n - 1].htype.Required? && RequiredBefore(fields, n - 1) == r {
      j := n - 1;
    } else {
      j := RequiredAt(fields, r, n - 1);
    }
  }

  lemma {:induction false} FieldsEvolve(small: seq<Field>, big: seq<Field>, m: Msg, i: nat, tail: Bytes, st: State)
    returns (st': State)
    requires ValidSchema(small) && ValidSchema(big) && Extends(big, small) && ValidMsg(big, m) && i <= |big|
    requires EncodeFrom(big, m, i).Some? && |EncodeFrom(big, m, i).value| < U32
    requires Reached(small, big, m, i, st)
    ensures DecodeLoop(small, EncodeFrom(big, m, i).value + tail, st) == DecodeLoop(small, tail, st')
    ensures Reached(small, big, m, |big|, st')
    decreases big, 3, |big| - i
  {
    hide DecodeLoop, Reached, ValidSchema, Extends, ValidMsg, EncodeSlot;
    if i == |big| {
      st' := st;
      assert [] + tail == tail;
    } else {
      var first := EncodeSlot(big[i], Look(big, i, m)).value;
      var others := EncodeFrom(big, m, i + 1).value;
      assert first + others + tail == first + (others + tail);
      var st1 := SlotEvolves(small, big, m, i, others + tail, st);
      st' := FieldsEvolve(small, big, m, i + 1, tail, st1);
    }
  }

  lemma {:induction false} SlotEvolves(small: seq<Field>, big: seq<Field>, m: Msg, i: nat, tail: Bytes, st: State)
    returns (st': State)
    requires ValidSchema(small) && ValidSchema(big) && Extends(big, small) && ValidMsg(big, m) && i < |big|
    requires EncodeSlot(big[i], Look(big, i, m)).Some? && |EncodeSlot(big[i], Look(big, i, m)).value| < U32
    requires Reached(small, big, m, i, st)
    ensures DecodeLoop(small, EncodeSlot(big[i], Look(big, i, m)).value + tail, st) == DecodeLoop(small, tail, st')
    ensures Reached(small, big, m, i + 1, st')
    decreases big, 2, |big| - i, 1
  {
    var g, y := big[i], Look(big, i, m);
    assert ValidSlot(g, y);
    if g.htype.Repeated? && y.items != [] {
      ItemsId(g, y);
      st' := ArrayEvolves(small, big, m, i, tail, st);
    } else if !g.htype.Repeated? && Present(g, y) {
      st' := SingleEvolves(small, big, m, i, tail, st);
    } else {
      if g.htype.Repeated? { ItemsId(g, y); }
      assert EncodeSlot(g, y).value == [];
      assert [] + tail == tail;
      st' := st;
      AbsentEvolves(small, big, m, i, st);
    }
  }

  /** A field that is not written leaves the reader's field as it was initialised. */
  lemma AbsentEvolves(small: seq<Field>, big: seq<Field>, m: Msg, i: nat, st: State)
    requires ValidSchema(small) && ValidSchema(big) && Extends(big, small) && ValidMsg(big, m) && i < |big|
    requires if big[i].htype.Repeated? then Look(big, i, m).items == [] else !Present(big[i], Look(big, i, m))
    requires Reached(small, big, m, i, st)
    ensures Reached(small, big, m, i + 1, st)
  {
    hide FieldAgrees, Unset, DataPos, Find;
    var g, y, next := big[i], Look(big, i, m), i + 1;
    assert ValidSlot(g, y);
    FindAt(big, i);
    forall j | 0 <= j < |small| ensures FieldDone(small, st.m, big, m, next, j) {
      assert FieldDone(small, st.m, big, m, i, j);
      assert Known(big, small[j]);
      if small[j].tag == g.tag {
        assert ValidType(small[j]) && ValidSub(small[j]) && ValidType(g) && ValidSub(g);
        AbsentAgrees(small[j], Look(small, j, st.m), g, y);
        ShowsField(small, st.m, big, m, j);
      } else {
        OthersStay(small, big, m, i, st.m, st.m, j);
        FindHit(big, small[j].tag, i);
      }
    }
    forall j | 0 <= j < |small| && small[j].htype.Required? && Find(big, small[j].tag) < next
               && RequiredBefore(small, j) < PB_MAX_REQUIRED_FIELDS
      ensures RequiredBefore(small, j) in st.seen
    {
      assert Known(big, small[j]) && Compatible(small[j], big[Find(big, small[j].tag)]);
    }
  }

  lemma ShowsField(small: seq<Field>, a: Msg, big: seq<Field>, b: Msg, j: nat)
    requires j < |small| && Find(big, small[j].tag) < |big|
    requires SlotAgrees(small[j], Look(small, j, a),
                         big[Find(big, small[j].tag)], Look(big, Find(big, small[j].tag), b))
    ensures FieldAgrees(small, a, big, b, j)
  {
  }

  // ----- Arrays

  lemma {:induction false} UnpackedSkipped(small: seq<Field>, g: Field, items: seq<Value>, tail: Bytes, st: State)
    requires 1 <= g.tag < 0x2000_0000 && Find(small, g.tag) == |small|
    requires EncodeUnpacked(g, items).Some? && |EncodeUnpacked(g, items).value| < U32
    ensures DecodeLoop(small, EncodeUnpacked(g, items).value + tail, st) == DecodeLoop(small, tail, st)
    decreases |items|
  {
    if items == [] {
      assert [] + tail == tail;
    } else {
      hide EncodeValue, DecodeRecord, DecodeLoop, Skip, TagBytes, Find, WireType;
      var wt := WireType(g.ltype);
      var first, others := EncodeValue(g, items[0]).value, EncodeUnpacked(g, items[1..]).value;
      Concat4(TagBytes(wt, g.tag), first, others, tail);
      SkipsValue(g, items[0], others + tail);
      WireTypeSmall(g.ltype);
      UnknownRecord(small, g.tag, wt, first + (others + tail), others + tail, st);
      RecordStep(small, g.tag, wt, first, others + tail, st, st);
      UnpackedSkipped(small, g, items[1..], tail, st);
    }
  }

  lemma Concat4(a: Bytes, b: Bytes, c: Bytes, d: Bytes)
    ensures a + b + c + d == a + b + (c + d)
  {
  }

  lemma WireTypeSmall(l: LType)
    ensures WireType(l) < 8
  {
  }

  /** Ready to receive entry |done| of the reader's array j. */
  ghost predicate Receiving(small: seq<Field>, j: nat, done: seq<Value>, st: State)
    requires j < |small| && small[j].htype.Repeated?
  {
    && Look(small, j, st.m) == Array(done)
    && (small[j].FixedCount() ==>
          if st.fixed == Some(j) then st.fixedCount == |done| else done == [] && FixedFull(small, st))
  }

  /** The state after the array's entries: nothing but the array has changed. */
  ghost predicate Received(small: seq<Field>, j: nat, done: seq<Value>, st: State, st': State)
    requires j < |small| && small[j].htype.Repeated?
  {
    && Look(small, j, st'.m) == Array(done)
    && st'.ended == st.ended && st'.seen == st.seen
    && (forall k :: 0 <= k < |small| && k != j ==> Look(small, k, st'.m) == Look(small, k, st.m))
    && (if small[j].FixedCount() then st'.fixed == Some(j) && st'.fixedCount == |done|
        else st'.fixed == st.fixed && st'.fixedCount == st.fixedCount)
  }

  /** An entry, or a packed block of entries, put at the end of array j. */
  function Append(small: seq<Field>, j: nat, done: seq<Value>, st: State): State
    requires j < |small|
  {
    var st1 := st.(m := st.m[DataPos(small, j) := Array(done)]);
    if small[j].FixedCount() then st1.(fixed := Some(j), fixedCount := |done|) else st1
  }

  lemma AppendReceives(small: seq<Field>, j: nat, done: seq<Value>, st: State)
    requires ValidSchema(small) && j < |small| && small[j].htype.Repeated?
    ensures Received(small, j, done, st, Append(small, j, done, st))
  {
    forall k | 0 <= k < |small| && k != j
      ensures Look(small, k, Append(small, j, done, st).m) == Look(small, k, st.m)
    {
      LookOther(small, st.m, j, Array(done), k);
    }
  }

  lemma SubSchema(fields: seq<Field>, j: nat)
    requires ValidSchema(fields) && j < |fields|
    ensures ValidType(fields[j]) && ValidSub(fields[j]) && 1 <= fields[j].tag < 0x2000_0000
  {
  }

  /** One entry of an array that is not packed. */
  lemma EntryRecord(small: seq<Field>, j: nat, done: seq<Value>, wireType: nat, s: Bytes, w: Value,
                    tail: Bytes, st: State)
    requires j < |small| && small[j].htype.Repeated? && !small[j].ltype.Packable()
    requires Find(small, small[j].tag) == j && Receiving(small, j, done, st) && |done| < small[j].arraySize
    requires DecodeValue(small[j], s, ZeroValue(small[j])) == Ok(w, tail)
    ensures DecodeRecord(small, small[j].tag, wireType, s, st) == Ok(Append(small, j, done + [w], st), tail)
  {
    hide DecodeValue, DataPos, RequiredBefore, Look, ZeroValue;
  }

  lemma {:induction false} UnpackedStored(small: seq<Field>, j: nat, g: Field, items: seq<Value>, done: seq<Value>,
                                          tail: Bytes, st: State)
    returns (st': State, r: seq<Value>)
    requires ValidSchema(small) && ValidType(g) && ValidSub(g)
    requires j < |small| && Find(small, g.tag) == j && Compatible(small[j], g)
    requires g.htype.Repeated? && !g.ltype.Packable() && items != []
    requires |done| + |items| <= g.arraySize
    requires forall k :: 0 <= k < |items| ==> ValidValue(g, items[k])
    requires EncodeUnpacked(g, items).Some? && |EncodeUnpacked(g, items).value| < U32
    requires Receiving(small, j, done, st)
    ensures DecodeLoop(small, EncodeUnpacked(g, items).value + tail, st) == DecodeLoop(small, tail, st')
    ensures ItemsAgree(small[j], r, g, items) && Received(small, j, done + r, st, st')
    decreases g, 1, |items|
  {
    hide EncodeValue, DecodeRecord, DecodeLoop, DecodeValue, TagBytes, Find, WireType, DataPos, ValidSchema, ValidValue;
    var f := small[j];
    SubSchema(small, j);
    var wt := WireType(g.ltype);
    var first, others := EncodeValue(g, items[0]).value, EncodeUnpacked(g, items[1..]).value;
    Concat4(TagBytes(wt, g.tag), first, others, tail);
    ValueEvolves(f, g, items[0], others + tail, ZeroValue(f));
    var w := DecodeValue(f, first + (others + tail), ZeroValue(f)).value;
    var st1 := Append(small, j, done + [w], st);
    AppendReceives(small, j, done + [w], st);
    WireTypeSmall(g.ltype);
    EntryRecord(small, j, done, wt, first + (others + tail), w, others + tail, st);
    RecordStep(small, g.tag, wt, first, others + tail, st, st1);
    if |items| == 1 {
      assert others == [] && [] + tail == tail;
      st', r := st1, [w];
    } else {
      var st2, r' := UnpackedStored(small, j, g, items[1..], done + [w], tail, st1);
      st', r := st2, [w] + r';
      assert done + [w] + r' == done + r;
    }
  }

  /** A packed block of entries. */
  lemma PackedRecord(small: seq<Field>, j: nat, g: Field, items: seq<Value>, tail: Bytes, st: State)
    requires ValidSchema(small) && j < |small| && small[j].htype.Repeated? && small[j].ltype.Packable()
    requires Find(small, small[j].tag) == j && Receiving(small, j, [], st)
    requires small[j].ltype == g.ltype && small[j].dataSize == g.dataSize && |items| <= small[j].arraySize
    requires forall k :: 0 <= k < |items| ==> ValidValue(g, items[k])
    requires EncodePacked(g, items).Some? && |EncodePacked(g, items).value| < U32
    ensures DecodeRecord(small, small[j].tag, PB_WT_STRING, LengthPrefixed(EncodePacked(g, items).value) + tail, st)
            == Ok(Append(small, j, items, st), tail)
  {
    hide EncodePacked, DecodePacked, LengthPrefixed, ReadString, DataPos, RequiredBefore, Look, ValidSchema, ValidValue;
    StringRoundTrip(EncodePacked(g, items).value, tail);
    PackedRoundTrip(small[j], g, items, []);
    assert [] + items == items;
  }

  lemma ReachedReceived(small: seq<Field>, big: seq<Field>, m: Msg, i: nat, j: nat, r: seq<Value>,
                        st: State, st': State)
    requires ValidSchema(small) && ValidSchema(big) && Extends(big, small) && i < |big| && j < |small|
    requires small[j].tag == big[i].tag && Compatible(small[j], big[i])
    requires big[i].htype.Repeated? && ItemsAgree(small[j], r, big[i], Look(big, i, m).items)
    requires small[j].FixedCount() ==> |r| == small[j].arraySize
    requires Reached(small, big, m, i, st) && Received(small, j, r, st, st')
    ensures Reached(small, big, m, i + 1, st')
  {
    hide ItemsAgree, Extends, ValidSchema, DataPos, Find, RequiredBefore, Unset;
    var next := i + 1;
    FindAt(big, i);
    forall k | 0 <= k < |small| ensures FieldDone(small, st'.m, big, m, next, k) {
      assert FieldDone(small, st.m, big, m, i, k);
      if k == j {
        assert SlotAgrees(small[j], Look(small, j, st'.m), big[i], Look(big, i, m));
        assert FieldAgrees(small, st'.m, big, m, j);
      } else {
        TagsDiffer(small, j, k);
        OthersStay(small, big, m, i, st.m, st'.m, k);
      }
    }
    assert SeenBy(small, big, next, st'.seen) by {
      forall k | 0 <= k < |small| && small[k].htype.Required? && Find(big, small[k].tag) < next
                 && RequiredBefore(small, k) < PB_MAX_REQUIRED_FIELDS
        ensures RequiredBefore(small, k) in st'.seen
      {
        if k != j {
          TagsDiffer(small, j, k);
          FindHit(big, small[k].tag, i);
        }
      }
    }
  }

  /** A fixed-count field has not been received before: other ones are complete. */
  lemma NotYetReceived(small: seq<Field>, big: seq<Field>, m: Msg, i: nat, j: nat, st: State)
    requires i < |big| && j < |small| && small[j].htype.Repeated? && Find(big, small[j].tag) == i
    requires Reached(small, big, m, i, st)
    ensures Receiving(small, j, [], st)
  {
    hide FieldAgrees, Find;
    assert FieldDone(small, st.m, big, m, i, j);
  }

  lemma {:induction false} ArrayEvolves(small: seq<Field>, big: seq<Field>, m: Msg, i: nat, tail: Bytes, st: State)
    returns (st': State)
    requires ValidSchema(small) && ValidSchema(big) && Extends(big, small) && ValidMsg(big, m) && i < |big|
    requires big[i].htype.Repeated? && Look(big, i, m).items != []
    requires Items(big[i], Look(big, i, m).items) == Look(big, i, m).items
    requires EncodeSlot(big[i], Look(big, i, m)).Some? && |EncodeSlot(big[i], Look(big, i, m)).value| < U32
    requires Reached(small, big, m, i, st)
    ensures DecodeLoop(small, EncodeSlot(big[i], Look(big, i, m)).value + tail, st) == DecodeLoop(small, tail, st')
    ensures Reached(small, big, m, i + 1, st')
    decreases big, 2, |big| - i, 0
  {
    hide DecodeLoop, DecodeRecord, DecodeValue, EncodeValue, EncodePacked, EncodeUnpacked, TagBytes, LengthPrefixed,
      DataPos, Find, ValidValue, Skip, ValidSchema, Reached, Received, Receiving, ItemsAgree;
    var g, items := big[i], Look(big, i, m).items;
    assert ValidSlot(g, Look(big, i, m));
    SubSchema(big, i);
    var j := Find(small, g.tag);
    if j == |small| {
      st' := st;
      if g.ltype.Packable() {
        var data := EncodePacked(g, items).value;
        SkipsString(data, tail);
        UnknownRecord(small, g.tag, PB_WT_STRING, LengthPrefixed(data) + tail, tail, st);
        RecordStep(small, g.tag, PB_WT_STRING, LengthPrefixed(data), tail, st, st);
      } else {
        UnpackedSkipped(small, g, items, tail, st);
      }
      ReachedSkipped(small, big, m, i, st);
    } else {
      var f := small[j];
      FindAt(big, i);
      assert Known(big, f) && Compatible(f, g);
      NotYetReceived(small, big, m, i, j, st);
      var r := items;
      if g.ltype.Packable() {
        var data := EncodePacked(g, items).value;
        PrefixLonger(data);
        PackedRecord(small, j, g, items, tail, st);
        st' := Append(small, j, items, st);
        AppendReceives(small, j, items, st);
        RecordStep(small, g.tag, PB_WT_STRING, LengthPrefixed(data), tail, st, st');
        ScalarsAgree(f, items, g);
      } else {
        st', r := UnpackedStored(small, j, g, items, [], tail, st);
        assert [] + r == r;
        SameCount(f, r, g, items);
      }
      ReachedReceived(small, big, m, i, j, r, st, st');
    }
  }

  lemma SkipsString(data: Bytes, tail: Bytes)
    requires |LengthPrefixed(data)| < U32
    ensures Skip(PB_WT_STRING, LengthPrefixed(data) + tail) == Some(tail)
  {
    PrefixLonger(data);
    StringRoundTrip(data, tail);
  }

  lemma ScalarsAgree(f: Field, items: seq<Value>, g: Field)
    requires f.ltype.Packable()
    ensures ItemsAgree(f, items, g, items)
  {
  }

  lemma SameCount(f: Field, xs: seq<Value>, g: Field, ys: seq<Value>)
    requires ItemsAgree(f, xs, g, ys)
    ensures |xs| == |ys|
  {
  }

  lemma {:induction false} CStringLength(b: Bytes, size: nat)
    ensures |CString(b, size)| <= size
  {
    if b != [] && size > 0 && b[0] != 0 { CStringLength(b[1..], size - 1); }
  }

  /** A string comes back exactly when it leaves a byte of its buffer for the NUL; the encoder writes
      one that fills the buffer, and the decoder rejects it. */
  lemma StringExact(f: Field, v: Value, rest: Bytes)
    requires f.ltype.LString? && f.dataSize < U32
    ensures EncodeValue(f, v).Some?
    ensures var c := CString(BlobOf(v), f.dataSize);
            DecodeValue(f, EncodeValue(f, v).value + rest, v) == if |c| < f.dataSize then Ok(Blob(c), rest) else Fail
  {
    hide CString, Varint, ReadVarint32;
    var c := CString(BlobOf(v), f.dataSize);
    CStringLength(BlobOf(v), f.dataSize);
    Mod64Small(|c|);
    Varint32RoundTrip(|c|, c + rest);
    assert LengthPrefixed(c) + rest == Varint(|c|) + (c + rest);
    assert (c + rest)[..|c|] == c && (c + rest)[|c|..] == rest;
  }

  /** A buffer filled to its last byte: encoded, and not decoded again. */
  lemma FullBufferIsLost(f: Field)
    requires f.ltype.LString? && f.dataSize == 3
    ensures EncodeValue(f, Blob([97, 98, 99])) == Some([3, 97, 98, 99])
    ensures DecodeValue(f, [3, 97, 98, 99], Blob([])) == Fail
  {
    var b: Bytes := [97, 98, 99];
    assert CString(b[3..], 0) == [] && CString(b[2..], 1) == [99] by { assert b[2..][1..] == b[3..]; }
    assert CString(b[1..], 2) == [98, 99] by { assert b[1..][1..] == b[2..]; }
    assert CString(b, 3) == b;
    Mod64Small(3);
    StringExact(f, Blob(b), []);
    assert LengthPrefixed(b) == [3, 97, 98, 99];
    assert [3, 97, 98, 99] + [] == LengthPrefixed(b);
  }

  // ----- The theorems about whole messages

  /** Schema evolution: what a newer writer encodes, an older reader decodes to the part it knows,
      unknown fields at any depth being skipped. */
  lemma SchemaEvolution(small: seq<Field>, big: seq<Field>, m: Msg)
    requires ValidSchema(small) && ValidSchema(big) && Extends(big, small) && ValidMsg(big, m)
    ensures Encode(big, m).Some?
    ensures |Encode(big, m).value| < U32 ==>
              var r := Decode(small, Encode(big, m).value, Init(small));
              r.Ok? && r.rest == [] && Agree(small, r.value, big, m)
  {
    EncodesFrom(big, m, 0);
    if |Encode(big, m).value| < U32 { MessageEvolves(small, big, m); }
  }

  lemma {:induction false} CompatibleSelf(f: Field)
    requires f.ltype.LSubmessage? ==> ValidSchema(f.ltype.fields)
    ensures Compatible(f, f)
    decreases f
  {
    if f.ltype.LSubmessage? { ExtendsSelf(f.ltype.fields); }
  }

  lemma {:induction false} ExtendsSelf(fields: seq<Field>)
    requires ValidSchema(fields)
    ensures Extends(fields, fields)
    decreases fields
  {
    forall j | 0 <= j < |fields| ensures Find(fields, fields[j].tag) == j && Known(fields, fields[j]) {
      FindAt(fields, j);
      assert ValidSub(fields[j]);
      CompatibleSelf(fields[j]);
    }
  }

  /** The round trip: pb_decode of what pb_encode wrote succeeds, consumes all of it, and gives a
      message with the same fields present and the same values in them. */
  lemma RoundTrip(fields: seq<Field>, m: Msg)
    requires ValidSchema(fields) && ValidMsg(fields, m)
    ensures Encode(fields, m).Some?
    ensures |Encode(fields, m).value| < U32 ==>
              var r := Decode(fields, Encode(fields, m).value, Init(fields));
              r.Ok? && r.rest == [] && Agree(fields, r.value, fields, m)
  {
    ExtendsSelf(fields);
    SchemaEvolution(fields, fields, m);
  }
}

/** The encoder of pb_encode.c as it runs: an output stream over a caller's buffer, or a stream that
    only counts. Every method is proved to emit exactly the bytes of the format, in both modes, which
    is what makes the sizing pass and the writing pass of a submessage agree. */
module PbEncode {
  import opened PbWire
  import opened PbCommon
  import opened PbFormat

  /** The fields of a pb_ostream_t and the contents of its buffer at one moment. */
  datatype Snapshot = Snapshot(sizing: bool, out: Bytes, state: nat, maxSize: nat, written: nat)

  /** There is room in the buffer for what the stream may still write. */
  predicate Good(s: Snapshot) {
    !s.sizing ==> s.written <= s.maxSize && s.state + (s.maxSize - s.written) <= |s.out|
  }

  /** What an encoding step that should produce `e` does. A counting stream succeeds exactly when
      there is an encoding, and advances by its length. A writing stream succeeds exactly when the
      encoding also fits; then it has stored it at its position. In all cases the bytes before its
      old position and behind its new one are untouched. */
  predicate Emits(s: Snapshot, s': Snapshot, e: Option<Bytes>, ok: bool)
    requires Good(s)
  {
    && Good(s') && s'.sizing == s.sizing && s'.maxSize == s.maxSize && |s'.out| == |s.out|
    && s'.written >= s.written
    && (ok <==> e.Some? && (s.sizing || s.written + |e.value| <= s.maxSize))
    && (ok ==> s'.written == s.written + |e.value|)
    && (!s.sizing ==>
          && s'.state - s.state == s'.written - s.written
          && s'.out[..s.state] == s.out[..s.state]
          && s'.out[s'.state..] == s.out[s'.state..]
          && (ok ==> s'.out[s.state..s'.state] == e.value))
  }

  function Then(e: Option<Bytes>, e': Option<Bytes>): Option<Bytes> {
    if e.Some? && e'.Some? then Some(e.value + e'.value) else None
  }

  lemma EmitsNothing(s: Snapshot)
    requires Good(s)
    ensures Emits(s, s, Some([]), true)
  {
  }

  lemma EmitsThen(s: Snapshot, s1: Snapshot, s2: Snapshot, e: Option<Bytes>, e': Option<Bytes>, ok: bool)
    requires Good(s) && Emits(s, s1, e, true) && Emits(s1, s2, e', ok)
    ensures Emits(s, s2, Then(e, e'), ok)
  {
    if !s.sizing {
      var end := s.state + (s.maxSize - s.written);
      assert s1.state + (s1.maxSize - s1.written) == end;
      assert s2.out[..s.state] == s2.out[..s1.state][..s.state];
      assert s1.out[..s.state] == s1.out[..s1.state][..s.state];
      if ok {
        assert s2.out[s.state..s1.state] == s2.out[..s1.state][s.state..];
        assert s1.out[s.state..s1.state] == s1.out[..s1.state][s.state..];
        assert s2.out[s.state..s2.state] == s2.out[s.state..s1.state] + s2.out[s1.state..s2.state];
      }
    }
  }

  lemma EmitsFail(s: Snapshot, s1: Snapshot, e: Option<Bytes>, e': Option<Bytes>)
    requires Good(s) && Emits(s, s1, e, false)
    ensures Emits(s, s1, Then(e, e'), false)
  {
  }

  /** pb_ostream_t: `buf == null` is the sizing stream, whose callback is NULL. */
  class OStream {
    const buf: array?<byte>
    const maxSize: nat
    var state: nat
    var bytesWritten: nat

    ghost function Now(): Snapshot
      reads this, buf
    {
      Snapshot(buf == null, if buf == null then [] else buf[..], state, maxSize, bytesWritten)
    }

    ghost predicate Valid()
      reads this, buf
    {
      Good(Now())
    }

    /** PB_OSTREAM_SIZING */
    constructor Sizing()
      ensures Valid() && buf == null && bytesWritten == 0
    {
      buf, maxSize, state, bytesWritten := null, 0, 0, 0;
    }

    /** A stream over part of a buffer, starting at `state`. */
    constructor Over(buf: array<byte>, state: nat, maxSize: nat)
      requires state + maxSize <= buf.Length
      ensures Valid() && this.buf == buf && this.state == state && this.maxSize == maxSize && bytesWritten == 0
    {
      this.buf, this.maxSize, this.state, bytesWritten := buf, maxSize, state, 0;
    }

    /** buf_write: copies into the buffer in place and moves the position. */
    method BufWrite(data: Bytes)
      requires buf != null && state + |data| <= buf.Length
      modifies this`state, buf
      ensures state == old(state) + |data|
      ensures buf[..] == old(buf[..state]) + data + old(buf[state + |data|..])
    {
      ghost var before := buf[..];
      var dest := state;
      state := state + |data|;
      for i := 0 to |data|
        invariant state == dest + |data|
        invariant buf[..] == before[..dest] + data[..i] + before[dest + i..]
      {
        buf[dest + i] := data[i];
      }
      assert data[..|data|] == data;
      assert before[..dest] == old(buf[..state]) && before[dest + |data|..] == old(buf[state + |data|..]);
    }

    /** pb_write with a buffer. */
    method Write(data: Bytes) returns (ok: bool)
      requires Valid()
      modifies this, buf
      ensures Emits(old(Now()), Now(), Some(data), ok)
    {
      if |data| > 0 && buf != null {
        if bytesWritten + |data| > maxSize { return false; }
        BufWrite(data);
      }
      bytesWritten := bytesWritten + |data|;
      assert buf != null ==> buf[..] == old(Now()).out[..old(state)] + data + old(Now()).out[old(state) + |data|..];
      return true;
    }

    /** pb_write of a NULL buffer on a sizing stream. */
    method Count(size: nat)
      requires Valid() && buf == null
      modifies this`bytesWritten
      ensures bytesWritten == old(bytesWritten) + size
    {
      bytesWritten := bytesWritten + size;
    }
  }

  /** The test for a full stream: on machine sizes, with a sum that wraps around, pb_write decides the
      comparison of the sum proper. */
  lemma FullGuard(written: nat, size: nat, maxSize: nat, modulus: nat)
    requires written <= maxSize < modulus && size < modulus
    ensures var sum := (written + size) % modulus;
            sum < written || sum > maxSize <==> written + size > maxSize
  {
  }

  // ----- Scalars

  /** pb_encode_varint: groups of seven bits into a local buffer, the last one without its
      continuation bit; a single byte is written directly. */
  method EncodeVarint(stream: OStream, value: nat) returns (ok: bool)
    requires stream.Valid() && value < U64
    modifies stream, stream.buf
    ensures Emits(old(stream.Now()), stream.Now(), Some(Varint(value)), ok)
  {
    hide Emits, Good, Varint;
    VarintStep(value);
    if value <= 0x7F {
      ok := stream.Write([value]);
      return;
    }
    var buffer, i := VarintBuffer(value);
    ok := stream.Write(buffer[..i]);
  }

  /** The loop of pb_encode_varint over its local buffer. */
  method VarintBuffer(value: nat) returns (buffer: array<byte>, i: nat)
    requires 0x7F < value < U64
    ensures fresh(buffer) && i <= buffer.Length && buffer[..i] == Varint(value)
  {
    hide Varint;
    buffer := new byte[10];
    var v: nat := value;
    i := 0;
    Varint64Length(value);
    while v != 0
      invariant i <= 10 && (v > 0 ==> i + |Varint(v)| <= 10)
      invariant v > 0 ==> Varint(value) == buffer[..i] + Varint(v)
      invariant v == 0 ==> i > 0 && buffer[i - 1] >= 128 && Varint(value) == buffer[..i - 1] + [buffer[i - 1] - 128]
      decreases v
    {
      VarintStep(v);
      buffer[i] := v % 128 + 128;
      assert buffer[..i + 1] == buffer[..i] + [v % 128 + 128];
      v := v / 128;
      i := i + 1;
    }
    buffer[i - 1] := buffer[i - 1] - 128;
    assert buffer[..i] == buffer[..i - 1] + [buffer[i - 1]];
  }

  lemma VarintStep(v: nat)
    ensures Varint(v) == if v < 128 then [v] else [v % 128 + 128] + Varint(v / 128)
  {
  }

  /** pb_encode_svarint */
  method EncodeSVarint(stream: OStream, value: int) returns (ok: bool)
    requires stream.Valid() && -U63 <= value < U63
    modifies stream, stream.buf
    ensures Emits(old(stream.Now()), stream.Now(), Some(Varint(ZigZag(value))), ok)
  {
    UnZigZagOfZigZag(value);
    var zigzagged: nat;
    if value < 0 { zigzagged := U64 - 1 - (2 * value) % U64; } else { zigzagged := 2 * value; }
    ok := EncodeVarint(stream, zigzagged);
  }

  /** pb_encode_fixed32 */
  method EncodeFixed32(stream: OStream, val: nat) returns (ok: bool)
    requires stream.Valid() && val < U32
    modifies stream, stream.buf
    ensures Emits(old(stream.Now()), stream.Now(), Some(FixedBytes(val, 4)), ok)
  {
    var bytes := [val % 0x100, val / 0x100 % 0x100, val / 0x1_0000 % 0x100, val / 0x100_0000 % 0x100];
    Fixed4(val);
    ok := stream.Write(bytes);
  }

  /** pb_encode_fixed64 */
  method EncodeFixed64(stream: OStream, val: nat) returns (ok: bool)
    requires stream.Valid() && val < U64
    modifies stream, stream.buf
    ensures Emits(old(stream.Now()), stream.Now(), Some(FixedBytes(val, 8)), ok)
  {
    var high := val / U32;
    var bytes := [val % 0x100, val / 0x100 % 0x100, val / 0x1_0000 % 0x100, val / 0x100_0000 % 0x100,
                  val / U32 % 0x100, val / 0x100_0000_0000 % 0x100, val / 0x1_0000_0000_0000 % 0x100,
                  val / 0x100_0000_0000_0000 % 0x100];
    Fixed8(val);
    ok := stream.Write(bytes);
  }

  lemma Fixed4(v: nat)
    ensures FixedBytes(v, 4) == [v % 0x100, v / 0x100 % 0x100, v / 0x1_0000 % 0x100, v / 0x100_0000 % 0x100]
  {
    assert v / 0x100 / 0x100 == v / 0x1_0000;
    assert v / 0x100 / 0x100 / 0x100 == v / 0x100_0000;
    assert FixedBytes(v / 0x100_0000, 1) == [v / 0x100_0000 % 0x100];
    assert FixedBytes(v / 0x1_0000, 2) == [v / 0x1_0000 % 0x100, v / 0x100_0000 % 0x100];
  }

  lemma FixedStep(v: nat, n: nat)
    requires n > 0
    ensures FixedBytes(v, n) == [v % 256] + FixedBytes(v / 256, n - 1)
  {
  }

  lemma FixedSplit(v: nat)
    ensures FixedBytes(v, 8) == FixedBytes(v, 4) + FixedBytes(v / U32, 4)
  {
    hide FixedBytes;
    var a := v / 0x100;
    var b := a / 0x100;
    var c := b / 0x100;
    var d := c / 0x100;
    assert d == v / U32;
    FixedStep(v, 8); FixedStep(a, 7); FixedStep(b, 6); FixedStep(c, 5);
    FixedStep(v, 4); FixedStep(a, 3); FixedStep(b, 2); FixedStep(c, 1);
    assert FixedBytes(d, 0) == [];
  }

  lemma Fixed8(v: nat)
    ensures FixedBytes(v, 8) ==
            [v % 0x100, v / 0x100 % 0x100, v / 0x1_0000 % 0x100, v / 0x100_0000 % 0x100,
             v / U32 % 0x100, v / 0x100_0000_0000 % 0x100, v / 0x1_0000_0000_0000 % 0x100,
             v / 0x100_0000_0000_0000 % 0x100]
  {
    FixedSplit(v);
    Fixed4(v);
    Fixed4(v / U32);
    assert v / U32 / 0x100 == v / 0x100_0000_0000;
    assert v / U32 / 0x1_0000 == v / 0x1_0000_0000_0000;
    assert v / U32 / 0x100_0000 == v / 0x100_0000_0000_0000;
  }

  /** pb_encode_tag */
  method EncodeTag(stream: OStream, wireType: nat, tag: nat) returns (ok: bool)
    requires stream.Valid()
    modifies stream, stream.buf
    ensures Emits(old(stream.Now()), stream.Now(), Some(TagBytes(wireType, tag)), ok)
  {
    ok := EncodeVarint(stream, (tag * 8 + wireType) % U64);
  }

  /** pb_encode_string */
  method EncodeString(stream: OStream, data: Bytes) returns (ok: bool)
    requires stream.Valid()
    modifies stream, stream.buf
    ensures Emits(old(stream.Now()), stream.Now(), Some(LengthPrefixed(data)), ok)
  {
    hide Emits, Good;
    ghost var s := stream.Now();
    var size := |data| % U64;
    ok := EncodeVarint(stream, size);
    ghost var s1 := stream.Now();
    if !ok {
      EmitsFail(s, s1, Some(Varint(size)), Some(data));
      return;
    }
    EmitsGood(s, s1, Some(Varint(size)), true);
    ok := stream.Write(data);
    EmitsThen(s, s1, stream.Now(), Some(Varint(size)), Some(data), ok);
  }

  // ----- Fields

  /** pb_enc_bool, pb_enc_varint, pb_enc_uvarint, pb_enc_svarint, pb_enc_fixed32, pb_enc_fixed64 */
  method EncScalar(stream: OStream, f: Field, src: Value) returns (ok: bool)
    requires stream.Valid() && f.ltype.Packable()
    modifies stream, stream.buf
    ensures Emits(old(stream.Now()), stream.Now(), EncodeScalar(f, src), ok)
  {
    hide Emits, Good, Varint, FixedBytes;
    var i := IntOf(src);
    if f.ltype.LBool? {
      ok := EncodeVarint(stream, if i != 0 then 1 else 0);
    } else if f.ltype.LFixed32? {
      ok := EncodeFixed32(stream, i % U32);
    } else if f.ltype.LFixed64? {
      ok := EncodeFixed64(stream, i % U64);
    } else if f.dataSize !in {1, 2, 4, 8} {
      EmitsNone(stream.Now());
      ok := false;
    } else if f.ltype.LUVarint? {
      ModulusBound(i, f.dataSize);
      ok := EncodeVarint(stream, i % Modulus(f.dataSize));
    } else if f.ltype.LSVarint? {
      ok := EncodeSVarint(stream, Cast(i, f.dataSize));
    } else {
      ok := EncodeVarint(stream, AsUnsigned(Cast(i, f.dataSize)));
    }
  }

  lemma ModulusBound(i: int, size: nat)
    requires size in {1, 2, 4, 8}
    ensures 0 <= i % Modulus(size) < U64
  {
  }

  lemma EmitsNone(s: Snapshot)
    requires Good(s)
    ensures Emits(s, s, None, false)
  {
  }

  /** The loop of pb_enc_string that looks for the NUL. */
  method StringLength(b: Bytes, maxSize: nat) returns (size: nat)
    ensures size <= |b| && b[..size] == CString(b, maxSize)
  {
    size := 0;
    while size < maxSize && size < |b| && b[size] != 0
      invariant size <= |b| && size <= maxSize
      invariant forall k :: 0 <= k < size ==> b[k] != 0
    {
      size := size + 1;
    }
    CStringAt(b, maxSize, size);
  }

  lemma {:induction false} CStringAt(b: Bytes, maxSize: nat, n: nat)
    requires n <= |b| && n <= maxSize && forall k :: 0 <= k < n ==> b[k] != 0
    requires n == maxSize || n == |b| || b[n] == 0
    ensures CString(b, maxSize) == b[..n]
  {
    if n > 0 {
      CStringAt(b[1..], maxSize - 1, n - 1);
      assert b[..n] == [b[0]] + b[1..][..n - 1];
    }
  }

  /** PB_ENCODERS[PB_LTYPE(f.type)] */
  method EncValue(stream: OStream, f: Field, src: Value) returns (ok: bool)
    requires stream.Valid()
    modifies stream, stream.buf
    ensures Emits(old(stream.Now()), stream.Now(), EncodeValue(f, src), ok)
    decreases f, 0, 0
  {
    hide Emits, Good, EncodeScalar, LengthPrefixed;
    match f.ltype {
      case LBytes =>
        if |BlobOf(src)| > f.dataSize - BYTES_OFFSET {
          EmitsNone(stream.Now());
          return false;
        }
        ok := EncodeString(stream, BlobOf(src));
      case LString =>
        var size := StringLength(BlobOf(src), f.dataSize);
        ok := EncodeString(stream, BlobOf(src)[..size]);
      case LFixedLengthBytes =>
        ok := EncodeString(stream, Inline(BlobOf(src), f.dataSize));
      case LSubmessage(sub) =>
        ok := EncodeSubmessage(stream, sub, SlotsOf(src));
      case _ =>
        ok := EncScalar(stream, f, src);
    }
  }

  /** pb_encode_submessage, which is also pb_encode_delimited: a sizing pass, the length, and a
      writing pass through a substream limited to that length. */
  method EncodeSubmessage(stream: OStream, fields: seq<Field>, src: Msg) returns (ok: bool)
    requires stream.Valid()
    modifies stream, stream.buf
    ensures Emits(old(stream.Now()), stream.Now(), Delimited(Encode(fields, src)), ok)
    decreases fields, 5, 0
  {
    hide Encode, Good, Emits;
    ghost var s := stream.Now();
    ghost var e := Encode(fields, src);
    var sizing := new OStream.Sizing();
    ghost var z := sizing.Now();
    ok := EncodeMessage(sizing, fields, src);
    SizingEmits(z, sizing.Now(), e, ok);
    if !ok {
      EmitsNone(stream.Now());
      return;
    }
    var size := sizing.bytesWritten;
    ok := EncodeVarint(stream, size % U64);
    ghost var s1 := stream.Now();
    if !ok {
      EmitsFail(s, s1, Some(Varint(size % U64)), e);
      return;
    }
    EmitsGood(s, s1, Some(Varint(size % U64)), true);
    if stream.buf == null {
      stream.Count(size);
      CountEmits(s1, stream.Now(), e.value);
      EmitsThen(s, s1, stream.Now(), Some(Varint(size % U64)), e, true);
      return;
    }
    if stream.bytesWritten + size > stream.maxSize {
      NoRoom(s1, e);
      EmitsThen(s, s1, s1, Some(Varint(size % U64)), e, false);
      return false;
    }
    GoodRoom(s1, size);
    var sub := new OStream.Over(stream.buf, stream.state, size);
    ghost var t := sub.Now();
    ok := EncodeMessage(sub, fields, src);
    // The second pass writes as much as the first one counted.
    SubEmits(s1, t, sub.Now(), size, e, ok);
    assert ok && sub.bytesWritten == size;
    stream.bytesWritten := stream.bytesWritten + sub.bytesWritten;
    stream.state := sub.state;
    assert stream.Now() == AfterSub(s1, sub.Now());
    EmitsThen(s, s1, stream.Now(), Some(Varint(size % U64)), e, true);
  }

  function Delimited(e: Option<Bytes>): Option<Bytes> {
    if e.Some? then Some(LengthPrefixed(e.value)) else None
  }

  lemma SizingEmits(z: Snapshot, z': Snapshot, e: Option<Bytes>, ok: bool)
    requires z.sizing && z.written == 0 && Good(z) && Emits(z, z', e, ok)
    ensures ok <==> e.Some?
    ensures ok ==> z'.written == |e.value|
  {
  }

  lemma CountEmits(s: Snapshot, s': Snapshot, data: Bytes)
    requires s.sizing && Good(s) && s' == s.(written := s.written + |data|)
    ensures Emits(s, s', Some(data), true)
  {
  }

  lemma NoRoom(s: Snapshot, e: Option<Bytes>)
    requires Good(s) && !s.sizing && e.Some? && s.written + |e.value| > s.maxSize
    ensures Emits(s, s, e, false)
  {
  }

  lemma GoodRoom(s: Snapshot, size: nat)
    requires Good(s) && !s.sizing && s.written + size <= s.maxSize
    ensures s.state + size <= |s.out|
  {
  }

  function AfterSub(s: Snapshot, t': Snapshot): Snapshot {
    s.(out := t'.out, state := t'.state, written := s.written + t'.written)
  }

  /** A writing pass into exactly the counted room succeeds and fills it. */
  lemma SubEmits(s: Snapshot, t: Snapshot, t': Snapshot, size: nat, e: Option<Bytes>, ok: bool)
    requires Good(s) && !s.sizing && s.written + size <= s.maxSize
    requires t == Snapshot(false, s.out, s.state, size, 0)
    requires e.Some? && |e.value| == size
    requires Good(t) && Emits(t, t', e, ok)
    ensures ok && t'.written == size && Emits(s, AfterSub(s, t'), e, true)
  {
  }

  /** pb_encode: every field in turn, through the iterator. */
  method EncodeMessage(stream: OStream, fields: seq<Field>, src: Msg) returns (ok: bool)
    requires stream.Valid()
    modifies stream, stream.buf
    ensures Emits(old(stream.Now()), stream.Now(), Encode(fields, src), ok)
    decreases fields, 4, 0
  {
    hide Emits, Good, EncodeSlot, DataPos, SizePos, RequiredBefore, Look;
    ghost var s := stream.Now();
    ghost var done: Bytes := [];
    EmitsNothing(s);
    ThenEmpty(Encode(fields, src));
    var iter := new FieldIter(fields);
    if fields == [] { return true; }
    while true
      invariant iter.Valid() && iter.fields == fields && fresh(iter) && iter.pos < |fields|
      invariant Emits(s, stream.Now(), Some(done), true)
      invariant Encode(fields, src) == Then(Some(done), EncodeFrom(fields, src, iter.pos))
      decreases |fields| - iter.pos
    {
      ghost var i, s1 := iter.pos, stream.Now();
      ghost var e := EncodeSlot(fields[i], Look(fields, i, src));
      EmitsGood(s, s1, Some(done), true);
      LookIsSlotAt(fields, i, src);
      ok := EncodeBasicField(stream, fields[iter.pos], SlotAt(src, iter.pData, fields[iter.pos]));
      Unfold(fields, src, i, done);
      if !ok {
        EmitsThen(s, s1, stream.Now(), Some(done), e, false);
        EmitsFail(s, stream.Now(), Then(Some(done), e), EncodeFrom(fields, src, i + 1));
        return;
      }
      EmitsThen(s, s1, stream.Now(), Some(done), e, true);
      EmitsSome(s, stream.Now(), Then(Some(done), e));
      done := done + e.value;
      assert done + [] == done;
      var more := iter.Next();
      if !more { return true; }
    }
  }

  lemma LookIsSlotAt(fields: seq<Field>, i: nat, m: Msg)
    requires i < |fields|
    ensures SlotAt(m, DataPos(fields, i), fields[i]) == Look(fields, i, m)
  {
  }

  lemma ThenEmpty(e: Option<Bytes>)
    ensures Then(Some([]), e) == e
  {
    if e.Some? { assert [] + e.value == e.value; }
  }

  lemma EmitsGood(s: Snapshot, s': Snapshot, e: Option<Bytes>, ok: bool)
    requires Good(s) && Emits(s, s', e, ok)
    ensures Good(s')
  {
  }

  lemma EmitsSome(s: Snapshot, s': Snapshot, e: Option<Bytes>)
    requires Good(s) && Emits(s, s', e, true)
    ensures e.Some?
  {
  }

  lemma Unfold(fields: seq<Field>, m: Msg, i: nat, done: Bytes)
    requires i < |fields|
    ensures var e := EncodeSlot(fields[i], Look(fields, i, m));
            Then(Some(done), EncodeFrom(fields, m, i)) == Then(Then(Some(done), e), EncodeFrom(fields, m, i + 1))
    ensures EncodeFrom(fields, m, |fields|) == Some([])
  {
    var e, e' := EncodeSlot(fields[i], Look(fields, i, m)), EncodeFrom(fields, m, i + 1);
    if e.Some? && e'.Some? {
      assert done + (e.value + e'.value) == done + e.value + e'.value;
    }
  }

  /** encode_basic_field */
  method EncodeBasicField(stream: OStream, f: Field, slot: Slot) returns (ok: bool)
    requires stream.Valid() && SlotFits(f, slot)
    modifies stream, stream.buf
    ensures Emits(old(stream.Now()), stream.Now(), EncodeSlot(f, slot), ok)
    decreases f, 3, 0
  {
    hide Emits, Good, EncodeValue, EncodeArray, TagBytes, IsDefaultValue;
    if f.htype.Repeated? {
      ok := EncArray(stream, f, Items(f, slot.items));
      return;
    }
    var present := true;
    if f.htype.Optional? {
      if f.sizeOffset != 0 { present := slot.has; }
      else {
        var elided := CheckProto3Default(f, slot.value);
        present := !elided;
      }
    } else if f.htype.Oneof? {
      present := slot.which == f.tag;
    }
    if present {
      ok := EncodeTagged(stream, f, ValueOf(slot));
    } else {
      EmitsNothing(stream.Now());
      ok := true;
    }
  }

  /** A tag for the field's type, then its value. */
  method EncodeTagged(stream: OStream, f: Field, src: Value) returns (ok: bool)
    requires stream.Valid()
    modifies stream, stream.buf
    ensures Emits(old(stream.Now()), stream.Now(),
                  Then(Some(TagBytes(WireType(f.ltype), f.tag)), EncodeValue(f, src)), ok)
    decreases f, 0, 1
  {
    hide Emits, Good, EncodeValue, TagBytes;
    ghost var s := stream.Now();
    ghost var tag, e := Some(TagBytes(WireType(f.ltype), f.tag)), EncodeValue(f, src);
    ok := EncodeTag(stream, WireType(f.ltype), f.tag);
    ghost var s1 := stream.Now();
    if !ok {
      EmitsFail(s, s1, tag, e);
      return;
    }
    EmitsGood(s, s1, tag, true);
    ok := EncValue(stream, f, src);
    EmitsThen(s, s1, stream.Now(), tag, e, ok);
  }

  /** The loop over the entries of a packed array. */
  method EncPacked(stream: OStream, f: Field, items: seq<Value>) returns (ok: bool)
    requires stream.Valid() && f.ltype.Packable()
    modifies stream, stream.buf
    ensures Emits(old(stream.Now()), stream.Now(), EncodePacked(f, items), ok)
  {
    hide Emits, Good, EncodeScalar;
    ghost var s := stream.Now();
    ghost var done: Bytes := [];
    EmitsNothing(s);
    ThenEmpty(EncodePacked(f, items));
    assert items[0..] == items;
    for i := 0 to |items|
      invariant Emits(s, stream.Now(), Some(done), true)
      invariant EncodePacked(f, items) == Then(Some(done), EncodePacked(f, items[i..]))
    {
      ghost var s1 := stream.Now();
      ghost var e, e' := EncodeScalar(f, items[i]), EncodePacked(f, items[i + 1..]);
      EmitsGood(s, s1, Some(done), true);
      ok := EncScalar(stream, f, items[i]);
      assert items[i..][1..] == items[i + 1..];
      if e.Some? && e'.Some? { assert done + (e.value + e'.value) == done + e.value + e'.value; }
      if !ok {
        EmitsThen(s, s1, stream.Now(), Some(done), e, false);
        EmitsFail(s, stream.Now(), Then(Some(done), e), e');
        return;
      }
      EmitsThen(s, s1, stream.Now(), Some(done), e, true);
      EmitsSome(s, stream.Now(), Then(Some(done), e));
      done := done + e.value;
    }
    assert items[|items|..] == [];
    assert done + [] == done;
    ok := true;
  }

  /** The loop over the entries of any other array. */
  method EncUnpacked(stream: OStream, f: Field, items: seq<Value>) returns (ok: bool)
    requires stream.Valid()
    modifies stream, stream.buf
    ensures Emits(old(stream.Now()), stream.Now(), EncodeUnpacked(f, items), ok)
    decreases f, 1, 0
  {
    hide Emits, Good, EncodeValue, TagBytes;
    ghost var s := stream.Now();
    ghost var done: Bytes := [];
    ghost var tag := TagBytes(WireType(f.ltype), f.tag);
    EmitsNothing(s);
    ThenEmpty(EncodeUnpacked(f, items));
    assert items[0..] == items;
    for i := 0 to |items|
      invariant Emits(s, stream.Now(), Some(done), true)
      invariant EncodeUnpacked(f, items) == Then(Some(done), EncodeUnpacked(f, items[i..]))
    {
      ghost var s1 := stream.Now();
      ghost var e, e' := Then(Some(tag), EncodeValue(f, items[i])), EncodeUnpacked(f, items[i + 1..]);
      EmitsGood(s, s1, Some(done), true);
      ok := EncodeTagged(stream, f, items[i]);
      assert items[i..][1..] == items[i + 1..];
      if e.Some? && e'.Some? { assert done + (e.value + e'.value) == done + e.value + e'.value; }
      if !ok {
        EmitsThen(s, s1, stream.Now(), Some(done), e, false);
        EmitsFail(s, stream.Now(), Then(Some(done), e), e');
        return;
      }
      EmitsThen(s, s1, stream.Now(), Some(done), e, true);
      EmitsSome(s, stream.Now(), Then(Some(done), e));
      done := done + e.value;
    }
    assert items[|items|..] == [];
    assert done + [] == done;
    ok := true;
  }

  /** encode_array: packed when the type allows it, with a sizing pass for varints. */
  method EncArray(stream: OStream, f: Field, items: seq<Value>) returns (ok: bool)
    requires stream.Valid()
    modifies stream, stream.buf
    ensures Emits(old(stream.Now()), stream.Now(), EncodeArray(f, items), ok)
    decreases f, 2, 0
  {
    hide Emits, Good, EncodePacked, EncodeUnpacked, TagBytes;
    ghost var s := stream.Now();
    if |items| == 0 {
      EmitsNothing(s);
      return true;
    }
    if |items| > f.arraySize {
      EmitsNone(s);
      return false;
    }
    if !f.ltype.Packable() {
      ok := EncUnpacked(stream, f, items);
      return;
    }
    ghost var tag, e := Some(TagBytes(PB_WT_STRING, f.tag)), EncodePacked(f, items);
    ok := EncodeTag(stream, PB_WT_STRING, f.tag);
    ghost var s1 := stream.Now();
    if !ok {
      EmitsFail(s, s1, tag, Delimited(e));
      return;
    }
    EmitsGood(s, s1, tag, true);
    var size: nat;
    if f.ltype.LFixed32? {
      FixedPacked(f, items, 4);
      size := 4 * |items|;
    } else if f.ltype.LFixed64? {
      FixedPacked(f, items, 8);
      size := 8 * |items|;
    } else {
      var sizing := new OStream.Sizing();
      ghost var z := sizing.Now();
      ok := EncPacked(sizing, f, items);
      SizingEmits(z, sizing.Now(), e, ok);
      if !ok {
        EmitsNone(s1);
        EmitsThen(s, s1, s1, tag, None, false);
        return;
      }
      size := sizing.bytesWritten;
    }
    ghost var prefix := Some(Varint(size % U64));
    ok := EncodeVarint(stream, size % U64);
    ghost var s2 := stream.Now();
    EmitsThen(s, s1, s2, tag, prefix, ok);
    ghost var front := Then(tag, prefix);
    assert Then(front, e) == EncodeArray(f, items) by { FrontThen(f, items, size); }
    if !ok {
      EmitsFail(s, s2, front, e);
      return;
    }
    EmitsGood(s, s2, front, true);
    if stream.buf == null {
      stream.Count(size);
      CountEmits(s2, stream.Now(), e.value);
      EmitsThen(s, s2, stream.Now(), front, e, true);
      return true;
    }
    ok := EncPacked(stream, f, items);
    EmitsThen(s, s2, stream.Now(), front, e, ok);
  }

  lemma FrontThen(f: Field, items: seq<Value>, size: nat)
    requires f.ltype.Packable() && 0 < |items| <= f.arraySize
    requires EncodePacked(f, items).Some? && |EncodePacked(f, items).value| == size
    ensures Then(Then(Some(TagBytes(PB_WT_STRING, f.tag)), Some(Varint(size % U64))), EncodePacked(f, items))
            == EncodeArray(f, items)
  {
    hide EncodePacked, TagBytes, Varint;
    var tag, prefix, data := TagBytes(PB_WT_STRING, f.tag), Varint(size % U64), EncodePacked(f, items).value;
    assert tag + prefix + data == tag + (prefix + data);
  }

  lemma {:induction false} FixedPacked(f: Field, items: seq<Value>, n: nat)
    requires (f.ltype.LFixed32? && n == 4) || (f.ltype.LFixed64? && n == 8)
    ensures EncodePacked(f, items).Some? && |EncodePacked(f, items).value| == n * |items|
  {
    if items != [] { FixedPacked(f, items[1..], n); }
  }

  /** pb_check_proto3_default_value for the data of a field without a has member: a submessage is
      searched field by field. */
  method CheckProto3Default(f: Field, v: Value) returns (b: bool)
    ensures b == IsDefaultValue(f, v)
    decreases f, 0
  {
    match f.ltype {
      case LBytes => b := |BlobOf(v)| == 0;
      case LString => b := |BlobOf(v)| == 0 || f.dataSize == 0 || BlobOf(v)[0] == 0;
      case LFixedLengthBytes => b := f.dataSize == 0;
      case LSubmessage(sub) => b := CheckAllDefault(sub, SlotsOf(v));
      case _ => b := IntOf(v) == 0;
    }
  }

  method CheckAllDefault(fields: seq<Field>, m: Msg) returns (b: bool)
    ensures b == IsDefaultFrom(fields, m, 0)
    decreases fields, 2
  {
    hide DataPos, SizePos, RequiredBefore, IsDefaultSlot;
    var iter := new FieldIter(fields);
    if fields == [] { return true; }
    while true
      invariant iter.Valid() && iter.fields == fields && fresh(iter) && iter.pos < |fields|
      invariant IsDefaultFrom(fields, m, 0) == IsDefaultFrom(fields, m, iter.pos)
      decreases |fields| - iter.pos
    {
      LookIsSlotAt(fields, iter.pos, m);
      var zero := CheckSlotDefault(fields[iter.pos], SlotAt(m, iter.pData, fields[iter.pos]));
      if !zero { return false; }
      var more := iter.Next();
      if !more { return true; }
    }
  }

  method CheckSlotDefault(f: Field, slot: Slot) returns (b: bool)
    requires SlotFits(f, slot)
    ensures b == IsDefaultSlot(f, slot)
    decreases f, 1
  {
    match f.htype {
      case Required => b := false;
      case Repeated => b := f.sizeOffset != 0 && |slot.items| == 0;
      case Oneof => b := slot.which == 0;
      case Optional =>
        if f.sizeOffset != 0 { b := !slot.has; } else { b := CheckProto3Default(f, slot.value); }
    }
  }

  /** pb_encode_nullterminated */
  method EncodeNullTerminated(stream: OStream, fields: seq<Field>, src: Msg) returns (ok: bool)
    requires stream.Valid()
    modifies stream, stream.buf
    ensures Emits(old(stream.Now()), stream.Now(), Then(Encode(fields, src), Some([0])), ok)
  {
    hide Emits, Good, Encode;
    ghost var s := stream.Now();
    ok := EncodeMessage(stream, fields, src);
    ghost var s1 := stream.Now();
    if !ok {
      EmitsFail(s, s1, Encode(fields, src), Some([0]));
      return;
    }
    EmitsGood(s, s1, Encode(fields, src), true);
    ok := stream.Write([0]);
    EmitsThen(s, s1, stream.Now(), Encode(fields, src), Some([0]), ok);
  }

  /** pb_get_encoded_size */
  method GetEncodedSize(fields: seq<Field>, src: Msg) returns (ok: bool, size: nat)
    ensures ok <==> Encode(fields, src).Some?
    ensures ok ==> size == |Encode(fields, src).value|
  {
    var stream := new OStream.Sizing();
    ok := EncodeMessage(stream, fields, src);
    size := stream.bytesWritten;
  }

  /** pb_encode into a fresh buffer: succeeds exactly when the counted size fits, and then fills the
      front of the buffer with the encoding and leaves the rest alone. */
  method EncodeToBuffer(buf: array<byte>, fields: seq<Field>, src: Msg) returns (ok: bool, written: nat)
    modifies buf
    ensures ok <==> Encode(fields, src).Some? && |Encode(fields, src).value| <= buf.Length
    ensures written <= buf.Length
    ensures ok ==> buf[..written] == Encode(fields, src).value
    ensures ok ==> written == |Encode(fields, src).value|
    ensures buf[written..] == old(buf[written..])
  {
    var stream := new OStream.Over(buf, 0, buf.Length);
    ok := EncodeMessage(stream, fields, src);
    written := stream.bytesWritten;
  }
}

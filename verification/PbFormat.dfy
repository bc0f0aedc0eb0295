/** What pb_encode.c writes and pb_decode.c reads, as functions on byte sequences. The methods of
    PbEncode and PbDecode are proved to compute these functions; the properties of the format are
    lemmas about them. */
module PbFormat {
  import opened PbWire
  import opened PbCommon

  // ----- Encoding

  function WireType(l: LType): nat {
    match l
    case LFixed32 => PB_WT_32BIT
    case LFixed64 => PB_WT_64BIT
    case LBytes => PB_WT_STRING
    case LString => PB_WT_STRING
    case LSubmessage(_) => PB_WT_STRING
    case LFixedLengthBytes => PB_WT_STRING
    case _ => PB_WT_VARINT
  }

  /** pb_encode_tag, on 64 bits. */
  function TagBytes(wireType: nat, tag: nat): Bytes { Varint((tag * 8 + wireType) % U64) }

  /** pb_encode_string; the length is cast to 64 bits. */
  function LengthPrefixed(s: Bytes): Bytes { Varint(|s| % U64) + s }

  /** A C string in a buffer of `size` bytes: up to the first NUL, or all of the buffer. */
  function CString(b: Bytes, size: nat): Bytes {
    if b == [] || size == 0 || b[0] == 0 then [] else [b[0]] + CString(b[1..], size - 1)
  }

  /** The bytes of an inline array of `n` bytes. */
  function Inline(b: Bytes, n: nat): (r: Bytes)
    ensures |r| == n
  {
    seq(n, k requires 0 <= k => if k < |b| then b[k] else 0)
  }

  /** The entries of a repeated field: `count` of them, or the whole array of a fixed-count field,
      whose entries that were never received are zero. */
  function Items(f: Field, items: seq<Value>): seq<Value> {
    if f.FixedCount()
    then seq(f.arraySize, k requires 0 <= k => if k < |items| then items[k] else ZeroValue(f))
    else items
  }

  /** pb_enc_bool, pb_enc_varint, pb_enc_uvarint, pb_enc_svarint, pb_enc_fixed32, pb_enc_fixed64 */
  function EncodeScalar(f: Field, v: Value): Option<Bytes>
    requires f.ltype.Packable()
  {
    var i := IntOf(v);
    if f.ltype.LBool? then Some(Varint(if i != 0 then 1 else 0))
    else if f.ltype.LFixed32? then Some(FixedBytes(i % U32, 4))
    else if f.ltype.LFixed64? then Some(FixedBytes(i % U64, 8))
    else if f.dataSize !in {1, 2, 4, 8} then None
    else if f.ltype.LUVarint? then Some(Varint(i % Modulus(f.dataSize)))
    else if f.ltype.LSVarint? then Some(Varint(ZigZag(Cast(i, f.dataSize))))
    else Some(Varint(AsUnsigned(Cast(i, f.dataSize))))
  }

  function EncodePacked(f: Field, items: seq<Value>): Option<Bytes>
    requires f.ltype.Packable()
  {
    if items == [] then Some([])
    else
      var first :- EncodeScalar(f, items[0]);
      var others :- EncodePacked(f, items[1..]);
      Some(first + others)
  }

  /** The payload of one value, behind its tag. */
  function EncodeValue(f: Field, v: Value): Option<Bytes>
    decreases f, 0
  {
    match f.ltype
    case LBytes => if |BlobOf(v)| > f.dataSize - BYTES_OFFSET then None else Some(LengthPrefixed(BlobOf(v)))
    case LString => Some(LengthPrefixed(CString(BlobOf(v), f.dataSize)))
    case LFixedLengthBytes => Some(LengthPrefixed(Inline(BlobOf(v), f.dataSize)))
    case LSubmessage(sub) =>
      var s :- EncodeFrom(sub, SlotsOf(v), 0);
      Some(LengthPrefixed(s))
    case _ => EncodeScalar(f, v)
  }

  /** A tag and a payload for every item. */
  function EncodeUnpacked(f: Field, items: seq<Value>): Option<Bytes>
    decreases f, 1, |items|
  {
    if items == [] then Some([])
    else
      var first :- EncodeValue(f, items[0]);
      var others :- EncodeUnpacked(f, items[1..]);
      Some(TagBytes(WireType(f.ltype), f.tag) + first + others)
  }

  /** encode_array */
  function EncodeArray(f: Field, items: seq<Value>): Option<Bytes>
    decreases f, 2
  {
    if items == [] then Some([])
    else if |items| > f.arraySize then None
    else if f.ltype.Packable() then
      var data :- EncodePacked(f, items);
      Some(TagBytes(PB_WT_STRING, f.tag) + LengthPrefixed(data))
    else EncodeUnpacked(f, items)
  }

  /** Whether encode_basic_field writes a required, optional or oneof field at all. */
  predicate Present(f: Field, slot: Slot)
    requires SlotFits(f, slot) && !f.htype.Repeated?
  {
    match f.htype
    case Required => true
    case Optional => if f.sizeOffset != 0 then slot.has else !IsDefaultValue(f, slot.value)
    case Oneof => slot.which == f.tag
  }

  function ValueOf(slot: Slot): Value
    requires !slot.Array?
  {
    if slot.Single? then slot.value else slot.arm
  }

  /** encode_basic_field */
  function EncodeSlot(f: Field, slot: Slot): Option<Bytes>
    requires SlotFits(f, slot)
    decreases f, 3
  {
    if f.htype.Repeated? then EncodeArray(f, Items(f, slot.items))
    else if Present(f, slot) then
      var s :- EncodeValue(f, ValueOf(slot));
      Some(TagBytes(WireType(f.ltype), f.tag) + s)
    else Some([])
  }

  /** pb_encode, from field i on. */
  function EncodeFrom(fields: seq<Field>, m: Msg, i: nat): Option<Bytes>
    requires i <= |fields|
    decreases fields, 4, |fields| - i
  {
    if i == |fields| then Some([])
    else
      var first :- EncodeSlot(fields[i], Look(fields, i, m));
      var others :- EncodeFrom(fields, m, i + 1);
      Some(first + others)
  }

  function Encode(fields: seq<Field>, m: Msg): Option<Bytes> { EncodeFrom(fields, m, 0) }

  /** pb_check_proto3_default_value for the data of a singular field. */
  predicate IsDefaultValue(f: Field, v: Value)
    decreases f, 0
  {
    match f.ltype
    case LBytes => BlobOf(v) == []
    case LString => CString(BlobOf(v), f.dataSize) == []
    case LFixedLengthBytes => f.dataSize == 0
    case LSubmessage(sub) => IsDefaultFrom(sub, SlotsOf(v), 0)
    case _ => IntOf(v) == 0
  }

  /** pb_check_proto3_default_value */
  predicate IsDefaultSlot(f: Field, slot: Slot)
    requires SlotFits(f, slot)
    decreases f, 1
  {
    match f.htype
    case Required => false
    case Repeated => f.sizeOffset != 0 && slot.items == []
    case Oneof => slot.which == 0
    case Optional => if f.sizeOffset != 0 then !slot.has else IsDefaultValue(f, slot.value)
  }

  predicate IsDefaultFrom(fields: seq<Field>, m: Msg, i: nat)
    requires i <= |fields|
    decreases fields, 2, |fields| - i
  {
    i == |fields| || (IsDefaultSlot(fields[i], Look(fields, i, m)) && IsDefaultFrom(fields, m, i + 1))
  }

  // ----- Decoding

  datatype TagRead = TagFail | TagEnd(rest: Bytes) | TagOk(tag: nat, wireType: nat, rest: Bytes)

  /** pb_decode_tag on a stream that is not empty: a zero ends the message. */
  function ReadTag(s: Bytes): (r: TagRead)
    ensures r.TagOk? ==> |r.rest| < |s|
  {
    match ReadVarint32(s)
    case Fail => TagFail
    case Ok(v, rest) => if v == 0 then TagEnd(rest) else TagOk(v / 8, v % 8, rest)
  }

  /** pb_skip_field: a varint may have any length here. */
  function Skip(wireType: nat, s: Bytes): (r: Option<Bytes>)
    ensures r.Some? ==> |r.value| <= |s|
  {
    if wireType == PB_WT_VARINT then
      if VarintLen(s) == 0 then None else Some(s[VarintLen(s)..])
    else if wireType == PB_WT_64BIT then
      if |s| < 8 then None else Some(s[8..])
    else if wireType == PB_WT_STRING then
      match ReadString(s)
      case Fail => None
      case Ok(_, rest) => Some(rest)
    else if wireType == PB_WT_32BIT then
      if |s| < 4 then None else Some(s[4..])
    else None
  }

  /** A length and that many bytes, as pb_make_string_substream cuts them off. */
  function ReadString(s: Bytes): (r: Read<Bytes>)
    ensures r.Ok? ==> |r.value| + |r.rest| < |s|
  {
    match ReadVarint32(s)
    case Fail => Fail
    case Ok(n, rest) => if |rest| < n then Fail else Ok(rest[..n], rest[n..])
  }

  /** pb_dec_bool, pb_dec_varint, pb_dec_uvarint, pb_dec_svarint, pb_dec_fixed32, pb_dec_fixed64 */
  function DecodeScalar(f: Field, s: Bytes): (r: Read<Value>)
    requires f.ltype.Packable()
    ensures r.Ok? ==> |r.rest| < |s|
  {
    if f.ltype.LBool? then
      var (v, rest) :- ReadVarint32(s);
      Ok(Int(if v != 0 then 1 else 0), rest)
    else if f.ltype.LFixed32? then
      var (v, rest) :- ReadFixed(s, 4);
      Ok(Int(v), rest)
    else if f.ltype.LFixed64? then
      var (v, rest) :- ReadFixed(s, 8);
      Ok(Int(v), rest)
    else
      var (v, rest) :- ReadVarint64(s);
      if f.dataSize !in {1, 2, 4, 8} then Fail
      else if f.ltype.LUVarint? then
        if v % Modulus(f.dataSize) != v then Fail else Ok(Int(v), rest)
      else
        var i := if f.ltype.LSVarint? then UnZigZag(v % U64) else Cast(v, if f.dataSize == 8 then 8 else 4);
        if Cast(i, f.dataSize) != i then Fail else Ok(Int(i), rest)
  }

  /** Store an entry at the end of an array, or over an older entry of a fixed-count one. */
  function Put(items: seq<Value>, k: nat, v: Value): seq<Value> {
    if k < |items| then items[k := v] else items + [v]
  }

  /** The loop over a packed array: the new items and how many there are. */
  function DecodePacked(f: Field, s: Bytes, items: seq<Value>, count: nat): Option<(seq<Value>, nat)>
    requires f.ltype.Packable()
    decreases |s|
  {
    if s == [] then Some((items, count))
    else if count >= f.arraySize then None
    else
      match DecodeScalar(f, s)
      case Fail => None
      case Ok(v, rest) => DecodePacked(f, rest, Put(items, count, v), count + 1)
  }

  function DecodeBlob(f: Field, s: Bytes): (r: Read<Value>)
    requires f.ltype.LBytes? || f.ltype.LString? || f.ltype.LFixedLengthBytes?
    ensures r.Ok? ==> |r.rest| <= |s|
  {
    var (n, rest) :- ReadVarint32(s);
    if f.ltype.LFixedLengthBytes? then
      if n > PB_SIZE_MAX then Fail
      else if n == 0 then Ok(Blob(Inline([], f.dataSize)), rest)
      else if n != f.dataSize || |rest| < n then Fail
      else Ok(Blob(rest[..n]), rest[n..])
    else if f.ltype.LString? then
      if n + 1 > f.dataSize || |rest| < n then Fail else Ok(Blob(rest[..n]), rest[n..])
    else
      if n > PB_SIZE_MAX || n + BYTES_OFFSET > f.dataSize || |rest| < n then Fail
      else Ok(Blob(rest[..n]), rest[n..])
  }

  /** The decoder of the field's type, storing over `prior`. A submessage in an array starts from its
      defaults; any other is merged into the value that is there. */
  function DecodeValue(f: Field, s: Bytes, prior: Value): (r: Read<Value>)
    ensures r.Ok? ==> |r.rest| <= |s|
    decreases |s|, 0
  {
    match f.ltype
    case LBytes => DecodeBlob(f, s)
    case LString => DecodeBlob(f, s)
    case LFixedLengthBytes => DecodeBlob(f, s)
    case LSubmessage(sub) =>
      var (body, rest) :- ReadString(s);
      var base := if f.htype.Repeated? then Init(sub) else SlotsOf(prior);
      (match Decode(sub, body, base)
       case Fail => Fail
       case Ok(m, _) => Ok(Message(m), rest))
    case _ => DecodeScalar(f, s)
  }

  /** The local variables of pb_decode_noinit: the message, the required fields seen, the fixed-count
      field being received, and whether a zero tag has ended the message. */
  datatype State = State(m: Msg, seen: set<nat>, fixed: Option<nat>, fixedCount: nat, ended: bool)

  function Start(m: Msg): State { State(m, {}, None, 0, false) }

  /** Bookkeeping before the field's decoder runs. */
  function Arrive(fields: seq<Field>, i: nat, st: State): Option<State>
    requires i < |fields|
  {
    var f := fields[i];
    if f.FixedCount() && st.fixed != Some(i) then
      if FixedFull(fields, st) then Some(st.(fixed := Some(i), fixedCount := 0)) else None
    else if f.htype.Required? && RequiredBefore(fields, i) < PB_MAX_REQUIRED_FIELDS then
      Some(st.(seen := st.seen + {RequiredBefore(fields, i)}))
    else Some(st)
  }

  /** The fixed-count field received last has all of its entries. */
  predicate FixedFull(fields: seq<Field>, st: State) {
    st.fixed.None? || (st.fixed.value < |fields| && st.fixedCount == fields[st.fixed.value].arraySize)
  }

  function Count(f: Field, st: State, items: seq<Value>): nat {
    if f.FixedCount() then st.fixedCount else |items|
  }

  /** decode_static_field */
  function DecodeField(fields: seq<Field>, i: nat, wireType: nat, s: Bytes, st: State): (r: Read<State>)
    requires i < |fields|
    ensures r.Ok? ==> |r.rest| <= |s|
    decreases |s|, 1
  {
    var f := fields[i];
    var k := DataPos(fields, i);
    var slot := Look(fields, i, st.m);
    match f.htype
    case Required =>
      var (v, rest) :- DecodeValue(f, s, slot.value);
      Ok(st.(m := st.m[k := Single(slot.has, v)]), rest)
    case Optional =>
      var (v, rest) :- DecodeValue(f, s, slot.value);
      Ok(st.(m := st.m[k := Single(f.sizeOffset != 0 || slot.has, v)]), rest)
    case Oneof =>
      var base := if f.ltype.LSubmessage? && slot.which != f.tag then Message(Init(f.ltype.fields)) else slot.arm;
      var (v, rest) :- DecodeValue(f, s, base);
      Ok(st.(m := st.m[k := Union(f.tag, v)]), rest)
    case Repeated =>
      var count := Count(f, st, slot.items);
      if wireType == PB_WT_STRING && f.ltype.Packable() then
        var (body, rest) :- ReadString(s);
        match DecodePacked(f, body, slot.items, count)
        case None => Fail
        case Some((items, n)) =>
          Ok(st.(m := st.m[k := Array(items)], fixedCount := if f.FixedCount() then n else st.fixedCount), rest)
      else if count >= f.arraySize then Fail
      else
        var (v, rest) :- DecodeValue(f, s, ZeroValue(f));
        Ok(st.(m := st.m[k := Array(Put(slot.items, count, v))],
               fixedCount := if f.FixedCount() then count + 1 else st.fixedCount), rest)
  }

  /** One field of the input, behind its tag. An empty message type takes tag 0 with a non-zero wire
      type for its terminator and reads a bool there. */
  function DecodeRecord(fields: seq<Field>, tag: nat, wireType: nat, s: Bytes, st: State): (r: Read<State>)
    ensures r.Ok? ==> |r.rest| <= |s|
    decreases |s|, 2
  {
    var i := Find(fields, tag);
    if i < |fields| then
      match Arrive(fields, i, st)
      case None => Fail
      case Some(st') => DecodeField(fields, i, wireType, s, st')
    else if fields == [] && tag == 0 then
      match ReadVarint32(s)
      case Fail => Fail
      case Ok(_, rest) => Ok(st, rest)
    else
      match Skip(wireType, s)
      case None => Fail
      case Some(rest) => Ok(st, rest)
  }

  /** The loop of pb_decode_noinit. */
  function DecodeLoop(fields: seq<Field>, s: Bytes, st: State): (r: Read<State>)
    ensures r.Ok? ==> |r.rest| <= |s|
    decreases |s|, 3
  {
    if s == [] then Ok(st, s)
    else
      match ReadTag(s)
      case TagFail => Fail
      case TagEnd(rest) => Ok(st.(ended := true), rest)
      case TagOk(tag, wireType, rest) =>
        match DecodeRecord(fields, tag, wireType, rest, st)
        case Fail => Fail
        case Ok(st', rest') => DecodeLoop(fields, rest', st')
  }

  /** Each of the first 64 required fields has been seen. */
  predicate RequiredSeen(fields: seq<Field>, seen: set<nat>) {
    forall r :: 0 <= r < RequiredBefore(fields, |fields|) && r < PB_MAX_REQUIRED_FIELDS ==> r in seen
  }

  /** pb_decode_noinit */
  function Decode(fields: seq<Field>, s: Bytes, m: Msg): (r: Read<Msg>)
    ensures r.Ok? ==> |r.rest| <= |s|
    decreases |s|, 4
  {
    match DecodeLoop(fields, s, Start(m))
    case Fail => Fail
    case Ok(st, rest) =>
      if FixedFull(fields, st) && RequiredSeen(fields, st.seen) then Ok(st.m, rest) else Fail
  }

  /** pb_decode_delimited: the substream is closed, and with it skipped to its end, in every case. */
  function DecodeDelimited(fields: seq<Field>, s: Bytes): Read<Msg> {
    match ReadString(s)
    case Fail => Fail
    case Ok(body, rest) =>
      match Decode(fields, body, Init(fields))
      case Fail => Fail
      case Ok(m, _) => Ok(m, rest)
  }
}

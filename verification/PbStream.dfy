/** What holds of arbitrary input bytes: readers look only at what they consume, so that
    concatenated inputs are merged, frames are recovered one by one, and the required-field check
    is exact. */
module PbStream {
  import opened PbWire
  import opened PbCommon
  import opened PbFormat
  import opened PbEvolution

  // ----- Readers are local

  lemma ReadTagLocal(x: Bytes, y: Bytes)
    requires !ReadTag(x).TagFail?
    ensures ReadTag(x + y) == match ReadTag(x)
                              case TagEnd(rest) => TagEnd(rest + y)
                              case TagOk(tag, wireType, rest) => TagOk(tag, wireType, rest + y)
  {
    ReadVarint32Local(x, y);
  }

  lemma ReadStringLocal(x: Bytes, y: Bytes)
    requires ReadString(x).Ok?
    ensures ReadString(x + y) == Ok(ReadString(x).value, ReadString(x).rest + y)
  {
    ReadVarint32Local(x, y);
    var n, rest := ReadVarint32(x).value, ReadVarint32(x).rest;
    assert (rest + y)[..n] == rest[..n] && (rest + y)[n..] == rest[n..] + y;
  }

  lemma ReadFixedLocal(x: Bytes, n: nat, y: Bytes)
    requires ReadFixed(x, n).Ok?
    ensures ReadFixed(x + y, n) == Ok(ReadFixed(x, n).value, ReadFixed(x, n).rest + y)
  {
    assert (x + y)[..n] == x[..n] && (x + y)[n..] == x[n..] + y;
  }

  lemma SkipLocal(wireType: nat, x: Bytes, y: Bytes)
    requires Skip(wireType, x).Some?
    ensures Skip(wireType, x + y) == Some(Skip(wireType, x).value + y)
  {
    if wireType == PB_WT_VARINT {
      VarintLenLocal(x, y);
      assert (x + y)[VarintLen(x)..] == x[VarintLen(x)..] + y;
    } else if wireType == PB_WT_STRING {
      ReadStringLocal(x, y);
    } else if wireType == PB_WT_64BIT {
      assert (x + y)[8..] == x[8..] + y;
    } else {
      assert (x + y)[4..] == x[4..] + y;
    }
  }

  lemma ScalarLocal(f: Field, x: Bytes, y: Bytes)
    requires f.ltype.Packable() && DecodeScalar(f, x).Ok?
    ensures DecodeScalar(f, x + y) == Ok(DecodeScalar(f, x).value, DecodeScalar(f, x).rest + y)
  {
    hide ReadVarint32, ReadVarint64, ReadFixed, Cast, UnZigZag, Modulus;
    if f.ltype.LBool? {
      ReadVarint32Local(x, y);
    } else if f.ltype.LFixed32? {
      ReadFixedLocal(x, 4, y);
    } else if f.ltype.LFixed64? {
      ReadFixedLocal(x, 8, y);
    } else {
      ReadVarint64Local(x, y);
    }
  }

  lemma BlobLocal(f: Field, x: Bytes, y: Bytes)
    requires f.ltype.LBytes? || f.ltype.LString? || f.ltype.LFixedLengthBytes?
    requires DecodeBlob(f, x).Ok?
    ensures DecodeBlob(f, x + y) == Ok(DecodeBlob(f, x).value, DecodeBlob(f, x).rest + y)
  {
    hide ReadVarint32, Inline;
    ReadVarint32Local(x, y);
    var n, rest := ReadVarint32(x).value, ReadVarint32(x).rest;
    if n <= |rest| {
      assert (rest + y)[..n] == rest[..n] && (rest + y)[n..] == rest[n..] + y;
    }
  }

  lemma ValueLocal(f: Field, x: Bytes, prior: Value, y: Bytes)
    requires DecodeValue(f, x, prior).Ok?
    ensures DecodeValue(f, x + y, prior) == Ok(DecodeValue(f, x, prior).value, DecodeValue(f, x, prior).rest + y)
  {
    hide Decode, DecodeScalar, DecodeBlob, ReadString, Init;
    if f.ltype.LSubmessage? {
      ReadStringLocal(x, y);
    } else if f.ltype.Packable() {
      ScalarLocal(f, x, y);
    } else {
      BlobLocal(f, x, y);
    }
  }

  lemma FieldLocal(fields: seq<Field>, i: nat, wireType: nat, x: Bytes, st: State, y: Bytes)
    requires i < |fields| && DecodeField(fields, i, wireType, x, st).Ok?
    ensures DecodeField(fields, i, wireType, x + y, st)
            == Ok(DecodeField(fields, i, wireType, x, st).value, DecodeField(fields, i, wireType, x, st).rest + y)
  {
    hide DecodeValue, DecodePacked, ReadString, Init, DataPos, Look, ZeroValue;
    var f, slot := fields[i], Look(fields, i, st.m);
    if f.htype.Repeated? {
      if wireType == PB_WT_STRING && f.ltype.Packable() {
        ReadStringLocal(x, y);
      } else {
        ValueLocal(f, x, ZeroValue(f), y);
      }
    } else {
      ValueLocal(f, x, Prior(fields, i, st.m), y);
    }
  }

  lemma RecordLocal(fields: seq<Field>, tag: nat, wireType: nat, x: Bytes, st: State, y: Bytes)
    requires DecodeRecord(fields, tag, wireType, x, st).Ok?
    ensures DecodeRecord(fields, tag, wireType, x + y, st)
            == Ok(DecodeRecord(fields, tag, wireType, x, st).value, DecodeRecord(fields, tag, wireType, x, st).rest + y)
  {
    hide DecodeField, Skip, ReadVarint32, Arrive;
    var i := Find(fields, tag);
    if i < |fields| {
      FieldLocal(fields, i, wireType, x, Arrive(fields, i, st).value, y);
    } else if fields == [] && tag == 0 {
      ReadVarint32Local(x, y);
    } else {
      SkipLocal(wireType, x, y);
    }
  }

  /** Input that was consumed to its end without a zero tag is a prefix of longer inputs; after a
      zero tag nothing more is looked at. */
  lemma {:induction false} LoopConcat(fields: seq<Field>, x: Bytes, y: Bytes, st: State)
    requires !st.ended && DecodeLoop(fields, x, st).Ok?
    ensures var r := DecodeLoop(fields, x, st);
            DecodeLoop(fields, x + y, st)
            == if r.value.ended then Ok(r.value, r.rest + y) else DecodeLoop(fields, y, r.value)
    decreases |x|
  {
    hide DecodeRecord, ReadTag;
    if x == [] {
      assert x + y == y;
    } else {
      ReadTagLocal(x, y);
      match ReadTag(x)
      case TagEnd(_) =>
      case TagOk(tag, wireType, rest) =>
        RecordLocal(fields, tag, wireType, rest, st, y);
        var r := DecodeRecord(fields, tag, wireType, rest, st);
        RecordKeeps(fields, tag, wireType, rest, st);
        LoopConcat(fields, r.rest, y, r.value);
    }
  }

  lemma RecordKeeps(fields: seq<Field>, tag: nat, wireType: nat, s: Bytes, st: State)
    requires DecodeRecord(fields, tag, wireType, s, st).Ok?
    ensures DecodeRecord(fields, tag, wireType, s, st).value.ended == st.ended
  {
    hide DecodeValue, DecodePacked, Skip, ReadString, ReadVarint32, DataPos, Look, Find, RequiredBefore, FixedFull;
  }

  lemma {:induction false} LoopEndsAtEnd(fields: seq<Field>, s: Bytes, st: State)
    requires !st.ended && DecodeLoop(fields, s, st).Ok? && !DecodeLoop(fields, s, st).value.ended
    ensures DecodeLoop(fields, s, st).rest == []
    decreases |s|
  {
    hide DecodeRecord, ReadTag;
    if s != [] {
      match ReadTag(s)
      case TagEnd(_) =>
      case TagOk(tag, wireType, rest) =>
        var r := DecodeRecord(fields, tag, wireType, rest, st);
        RecordKeeps(fields, tag, wireType, rest, st);
        LoopEndsAtEnd(fields, r.rest, r.value);
    }
  }

  // ----- Concatenation is merge

  /** The required fields seen before do not influence what is decoded. */
  lemma RecordSeen(fields: seq<Field>, tag: nat, wireType: nat, s: Bytes, st: State, extra: set<nat>)
    ensures DecodeRecord(fields, tag, wireType, s, st.(seen := st.seen + extra)) ==
            match DecodeRecord(fields, tag, wireType, s, st)
            case Fail => Fail
            case Ok(st', rest) => Ok(st'.(seen := st'.seen + extra), rest)
  {
    hide DecodeField, Skip, ReadVarint32, Find, RequiredBefore;
    var i := Find(fields, tag);
    if i < |fields| {
      var k := RequiredBefore(fields, i);
      assert st.seen + extra + {k} == st.seen + {k} + extra;
      if Arrive(fields, i, st).Some? { FieldSeen(fields, i, wireType, s, Arrive(fields, i, st).value, extra); }
    }
  }

  lemma FieldSeen(fields: seq<Field>, i: nat, wireType: nat, s: Bytes, st: State, extra: set<nat>)
    requires i < |fields|
    ensures DecodeField(fields, i, wireType, s, st.(seen := st.seen + extra)) ==
            match DecodeField(fields, i, wireType, s, st)
            case Fail => Fail
            case Ok(st', rest) => Ok(st'.(seen := st'.seen + extra), rest)
  {
    hide DecodeValue, DecodePacked, ReadString, DataPos, Look, ZeroValue, Init, Put;
  }

  lemma {:induction false} LoopSeen(fields: seq<Field>, s: Bytes, st: State, extra: set<nat>)
    ensures DecodeLoop(fields, s, st.(seen := st.seen + extra)) ==
            match DecodeLoop(fields, s, st)
            case Fail => Fail
            case Ok(st', rest) => Ok(st'.(seen := st'.seen + extra), rest)
    decreases |s|
  {
    hide DecodeRecord, ReadTag;
    if s != [] {
      match ReadTag(s)
      case TagFail =>
      case TagEnd(_) =>
      case TagOk(tag, wireType, rest) =>
        RecordSeen(fields, tag, wireType, rest, st, extra);
        var r := DecodeRecord(fields, tag, wireType, rest, st);
        if r.Ok? { LoopSeen(fields, r.rest, r.value, extra); }
    }
  }

  ghost predicate NoFixedCount(fields: seq<Field>) {
    forall i :: 0 <= i < |fields| ==> !fields[i].FixedCount()
  }

  lemma RecordNoFixed(fields: seq<Field>, tag: nat, wireType: nat, s: Bytes, st: State)
    requires NoFixedCount(fields) && DecodeRecord(fields, tag, wireType, s, st).Ok?
    ensures var st' := DecodeRecord(fields, tag, wireType, s, st).value;
            st'.fixed == st.fixed && st'.fixedCount == st.fixedCount
  {
    hide DecodeValue, DecodePacked, Skip, ReadString, ReadVarint32, DataPos, Look, Find, RequiredBefore, FixedFull;
    var i := Find(fields, tag);
    if i < |fields| { assert !fields[i].FixedCount(); }
  }

  lemma {:induction false} LoopNoFixed(fields: seq<Field>, s: Bytes, st: State)
    requires NoFixedCount(fields) && DecodeLoop(fields, s, st).Ok?
    ensures var st' := DecodeLoop(fields, s, st).value;
            st'.fixed == st.fixed && st'.fixedCount == st.fixedCount
    decreases |s|
  {
    hide DecodeRecord, ReadTag;
    if s != [] {
      match ReadTag(s)
      case TagEnd(_) =>
      case TagOk(tag, wireType, rest) =>
        RecordNoFixed(fields, tag, wireType, rest, st);
        var r := DecodeRecord(fields, tag, wireType, rest, st);
        LoopNoFixed(fields, r.rest, r.value);
    }
  }

  /** The last byte of `s` was consumed and no zero tag was met. */
  predicate Clean(fields: seq<Field>, s: Bytes, m: Msg) {
    var r := DecodeLoop(fields, s, Start(m));
    r.Ok? && !r.value.ended
  }

  /** Decoding two inputs one after the other into the same struct is decoding their concatenation:
      when x has been accepted, x + y is accepted exactly when the fields of y are, with the same
      result; the required fields may then be missing from y. */
  lemma ConcatenationIsMerge(fields: seq<Field>, x: Bytes, y: Bytes, m: Msg)
    requires NoFixedCount(fields) && Clean(fields, x, m) && Decode(fields, x, m).Ok?
    ensures Decode(fields, x, m).rest == []
    ensures var m' := Decode(fields, x, m).value;
            Decode(fields, x + y, m) == match DecodeLoop(fields, y, Start(m'))
                                        case Fail => Fail
                                        case Ok(st, rest) => Ok(st.m, rest)
    ensures var m' := Decode(fields, x, m).value;
            Decode(fields, y, m').Ok? ==> Decode(fields, x + y, m) == Decode(fields, y, m')
  {
    hide DecodeLoop;
    var st := DecodeLoop(fields, x, Start(m)).value;
    LoopConcat(fields, x, y, Start(m));
    LoopEndsAtEnd(fields, x, Start(m));
    LoopNoFixed(fields, x, Start(m));
    assert Start(st.m).(seen := {} + st.seen) == st;
    LoopSeen(fields, y, Start(st.m), st.seen);
    if DecodeLoop(fields, y, Start(st.m)).Ok? { LoopNoFixed(fields, y, Start(st.m)); }
  }

  /** Last one wins: a record of a field that is not repeated and not a message leaves the same value
      whatever was received before. */
  lemma LastWins(fields: seq<Field>, i: nat, wireType: nat, s: Bytes, st: State, st': State)
    requires i < |fields| && !fields[i].htype.Repeated? && !fields[i].ltype.LSubmessage?
    ensures var r, r' := DecodeField(fields, i, wireType, s, st), DecodeField(fields, i, wireType, s, st');
            && (r.Ok? <==> r'.Ok?)
            && (r.Ok? ==>
                  r.rest == r'.rest && ValueOf(Look(fields, i, r.value.m)) == ValueOf(Look(fields, i, r'.value.m)))
  {
    hide DecodeScalar, DecodeBlob, DataPos, Init, InitSlot;
  }

  /** The field of the last record that was stored where field i lives, and what followed its tag. */
  function LastRecord(fields: seq<Field>, i: nat, s: Bytes, st: State): (r: Option<(nat, Bytes)>)
    requires i < |fields|
    ensures r.Some? ==> r.value.0 < |fields| && DataPos(fields, r.value.0) == DataPos(fields, i)
    decreases |s|
  {
    if s == [] then None
    else
      match ReadTag(s)
      case TagFail => None
      case TagEnd(_) => None
      case TagOk(tag, wireType, rest) =>
        match DecodeRecord(fields, tag, wireType, rest, st)
        case Fail => None
        case Ok(st', rest') =>
          var later, k := LastRecord(fields, i, rest', st'), Find(fields, tag);
          if later.Some? then later
          else if k < |fields| && DataPos(fields, k) == DataPos(fields, i) then Some((k, rest))
          else None
  }

  /** The slot holds what the decoder of field k makes of s. */
  ghost predicate Holds(f: Field, slot: Slot, s: Bytes) {
    && DecodeValue(f, s, ZeroValue(f)).Ok? && !slot.Array?
    && ValueOf(slot) == DecodeValue(f, s, ZeroValue(f)).value
    && (f.htype.Oneof? ==> slot.Union? && slot.which == f.tag)
    && (f.htype.Optional? && f.sizeOffset != 0 ==> slot.Single? && slot.has)
  }

  lemma RecordStores(fields: seq<Field>, i: nat, tag: nat, wireType: nat, s: Bytes, st: State)
    requires ValidSchema(fields) && i < |fields| && !fields[i].htype.Repeated?
    requires DecodeRecord(fields, tag, wireType, s, st).Ok?
    ensures var m, k := DecodeRecord(fields, tag, wireType, s, st).value.m, Find(fields, tag);
            if k < |fields| && DataPos(fields, k) == DataPos(fields, i) then
              fields[k].ltype.LSubmessage? || Holds(fields[k], Look(fields, i, m), s)
            else Look(fields, i, m) == Look(fields, i, st.m)
  {
    hide ValidSchema, DecodeScalar, DecodeBlob, DataPos, Init, InitSlot, RequiredBefore, Find, DecodePacked, Skip,
         FixedFull,
      ReadString, ReadVarint32, ZeroValue;
    var k := Find(fields, tag);
    if k < |fields| {
      if k != i && DataPos(fields, k) == DataPos(fields, i) { SharedSlot(fields, k, i); }
      var st1 := Arrive(fields, k, st).value;
      if DataPos(fields, k) == DataPos(fields, i) && !fields[k].ltype.LSubmessage? {
        PriorIgnored(fields[k], s, ValueOf(Look(fields, k, st1.m)));
      }
    }
  }

  /** Only submessages are merged into what is there. */
  lemma PriorIgnored(f: Field, s: Bytes, prior: Value)
    requires !f.ltype.LSubmessage?
    ensures DecodeValue(f, s, prior) == DecodeValue(f, s, ZeroValue(f))
  {
    hide DecodeScalar, DecodeBlob;
  }

  /** Last one wins, for whole inputs: a field that is not repeated ends up with the value of its last
      record, a union with that of the last record of any of its arms; without one they stay. */
  lemma {:induction false} LastRecordWins(fields: seq<Field>, i: nat, s: Bytes, st: State)
    requires ValidSchema(fields) && i < |fields| && !fields[i].htype.Repeated? && DecodeLoop(fields, s, st).Ok?
    ensures var slot := Look(fields, i, DecodeLoop(fields, s, st).value.m);
            match LastRecord(fields, i, s, st)
            case None => slot == Look(fields, i, st.m)
            case Some((k, payload)) => fields[k].ltype.LSubmessage? || Holds(fields[k], slot, payload)
    decreases |s|
  {
    hide DecodeRecord, ReadTag, ValidSchema, Look, Holds, DataPos, Find;
    if s != [] {
      match ReadTag(s)
      case TagEnd(_) =>
      case TagOk(tag, wireType, rest) =>
        var r := DecodeRecord(fields, tag, wireType, rest, st);
        RecordStores(fields, i, tag, wireType, rest, st);
        LastRecordWins(fields, i, r.rest, r.value);
    }
  }

  /** The items of a packed array are appended, and do not depend on those received before. */
  lemma {:induction false} PackedAppends(f: Field, s: Bytes, items: seq<Value>, more: seq<Value>)
    requires f.ltype.Packable() && DecodePacked(f, s, items + more, |items| + |more|).Some?
    ensures var (all, n) := DecodePacked(f, s, items + more, |items| + |more|).value;
            && n == |all| && items <= all
            && DecodePacked(f, s, more, |more|) == Some((all[|items|..], n - |items|))
    decreases |s|
  {
    hide DecodeScalar;
    if s == [] {
      assert (items + more)[|items|..] == more;
    } else {
      var v, rest := DecodeScalar(f, s).value, DecodeScalar(f, s).rest;
      assert items + more + [v] == items + (more + [v]);
      PackedAppends(f, rest, items, more + [v]);
    }
  }

  /** Repeated fields append: a record of a repeated field with a counter, packed or not, adds its
      items, which do not depend on what was received before, behind those that are there. */
  lemma RepeatedAppends(fields: seq<Field>, i: nat, wireType: nat, s: Bytes, st: State)
    returns (more: seq<Value>)
    requires i < |fields| && fields[i].htype.Repeated? && !fields[i].FixedCount()
    requires DecodeField(fields, i, wireType, s, st).Ok?
    ensures Look(fields, i, DecodeField(fields, i, wireType, s, st).value.m).items == Look(fields, i, st.m).items + more
    ensures if wireType == PB_WT_STRING && fields[i].ltype.Packable()
            then DecodePacked(fields[i], ReadString(s).value, [], 0) == Some((more, |more|))
            else DecodeValue(fields[i], s, ZeroValue(fields[i])).Ok?
                 && more == [DecodeValue(fields[i], s, ZeroValue(fields[i])).value]
  {
    hide DecodeValue, DataPos, Init, InitSlot, ReadString, DecodePacked, ZeroValue;
    var f, items := fields[i], Look(fields, i, st.m).items;
    if wireType == PB_WT_STRING && f.ltype.Packable() {
      var body := ReadString(s).value;
      assert items + [] == items;
      PackedAppends(f, body, items, []);
      more := DecodePacked(f, body, [], 0).value.0;
    } else {
      more := [DecodeValue(f, s, ZeroValue(f)).value];
    }
  }

  // ----- Framing

  /** pb_encode_delimited for one message after the other. */
  function EncodeFrames(fields: seq<Field>, ms: seq<Msg>): Option<Bytes> {
    if ms == [] then Some([])
    else
      var first :- Encode(fields, ms[0]);
      var others :- EncodeFrames(fields, ms[1..]);
      Some(LengthPrefixed(first) + others)
  }

  /** `n` calls of pb_decode_delimited. */
  function DecodeFrames(fields: seq<Field>, s: Bytes, n: nat): Read<seq<Msg>> {
    if n == 0 then Ok([], s)
    else
      var (first, rest) :- DecodeDelimited(fields, s);
      var (others, rest') :- DecodeFrames(fields, rest, n - 1);
      Ok([first] + others, rest')
  }

  ghost predicate AllAgree(fields: seq<Field>, rs: seq<Msg>, ms: seq<Msg>) {
    |rs| == |ms| && forall k :: 0 <= k < |ms| ==> Agree(fields, rs[k], fields, ms[k])
  }

  ghost predicate AllValid(fields: seq<Field>, ms: seq<Msg>) {
    forall k :: 0 <= k < |ms| ==> ValidMsg(fields, ms[k]) && EncodesShort(fields, ms[k])
  }

  predicate EncodesShort(fields: seq<Field>, m: Msg) {
    Encode(fields, m).Some? ==> |Encode(fields, m).value| < U32
  }

  /** Any sequence of delimited messages is recovered in order, and the stream is left where the
      frames end. */
  lemma {:induction false} FramesRoundTrip(fields: seq<Field>, ms: seq<Msg>, rest: Bytes)
    requires ValidSchema(fields) && AllValid(fields, ms)
    ensures EncodeFrames(fields, ms).Some?
    ensures var r := DecodeFrames(fields, EncodeFrames(fields, ms).value + rest, |ms|);
            r.Ok? && r.rest == rest && AllAgree(fields, r.value, ms)
    decreases |ms|
  {
    hide ValidSchema, ValidMsg, Encode, Decode, Agree, LengthPrefixed, ReadString;
    if ms == [] {
      assert [] + rest == rest;
    } else {
      assert ValidMsg(fields, ms[0]) && EncodesShort(fields, ms[0]);
      RoundTrip(fields, ms[0]);
      FramesRoundTrip(fields, ms[1..], rest);
      var first, others := Encode(fields, ms[0]).value, EncodeFrames(fields, ms[1..]).value;
      StringRoundTrip(first, others + rest);
      assert LengthPrefixed(first) + others + rest == LengthPrefixed(first) + (others + rest);
      var r := Decode(fields, first, Init(fields)).value;
      var rs := DecodeFrames(fields, others + rest, |ms| - 1).value;
      forall k | 0 <= k < |ms| ensures Agree(fields, ([r] + rs)[k], fields, ms[k]) {
        if k > 0 { assert Agree(fields, rs[k - 1], fields, ms[1..][k - 1]); }
      }
    }
  }

  /** pb_encode_nullterminated output followed by anything decodes, even under an older schema, to
      the same message, and the stream is left behind the zero. */
  lemma NullTerminated(small: seq<Field>, big: seq<Field>, m: Msg, junk: Bytes)
    requires ValidSchema(small) && ValidSchema(big) && Extends(big, small) && ValidMsg(big, m)
    requires EncodesShort(big, m)
    ensures Encode(big, m).Some?
    ensures var r := Decode(small, Encode(big, m).value + [0] + junk, Init(small));
            r.Ok? && r.rest == junk && Agree(small, r.value, big, m)
  {
    hide ValidSchema, ValidMsg, Extends, Agree, Encode, Reached, RequiredSeen, DecodeLoop, Init;
    SchemaEvolution(small, big, m);
    var s := Encode(big, m).value;
    var tail := [0] + junk;
    assert s + [0] + junk == s + tail;
    var st := FromInit(small, big, m, tail);
    ZeroEnds(small, junk, st);
    NotEnded(small, big, m, st);
    FinishEvolved(small, big, m, st);
  }

  lemma NotEnded(small: seq<Field>, big: seq<Field>, m: Msg, st: State)
    requires Reached(small, big, m, |big|, st)
    ensures !st.ended
  {
  }

  lemma ZeroTag(junk: Bytes)
    ensures ReadTag([0] + junk) == TagEnd(junk)
  {
    Varint32RoundTrip(0, junk);
    assert Varint(0) == [0];
  }

  lemma ZeroEnds(fields: seq<Field>, junk: Bytes, st: State)
    ensures DecodeLoop(fields, [0] + junk, st) == Ok(st.(ended := true), junk)
  {
    hide DecodeRecord, ReadTag;
    ZeroTag(junk);
    var s := [0] + junk;
    assert DecodeLoop(fields, s, st) == Ok(st.(ended := true), junk);
  }

  // ----- Fields that are not in the schema

  /** The record is skipped: its payload is what its wire type says, and the state stays. */
  predicate Skipped(fields: seq<Field>, tag: nat, wireType: nat, s: Bytes, st: State) {
    DecodeRecord(fields, tag, wireType, s, st)
    == if Skip(wireType, s).Some? then Ok(st, Skip(wireType, s).value) else Fail
  }

  /** A payload that is skipped differently by every wire type than a bool is read. */
  const TELLING: Bytes := [1, 7, 0, 0, 0, 0, 0, 0]

  lemma BoolInstead(wireType: nat, st: State)
    requires 0 < wireType < 8
    ensures !Skipped([], 0, wireType, TELLING, st)
  {
    hide Varint, VarintLen, Fits32;
    assert Varint(1) == [1] by { VarintOne(1); }
    Varint32RoundTrip(1, TELLING[1..]);
    assert TELLING == [1] + TELLING[1..];
  }

  lemma VarintOne(v: nat)
    requires v < 128
    ensures Varint(v) == [v]
  {
  }

  /** Unknown records are skipped, for every payload, exactly when the message type is not empty or the
      tag is not 0: the terminator of an empty type matches tag 0, and a bool is read for it. */
  lemma SkippedExactly(fields: seq<Field>, tag: nat, wireType: nat, st: State)
    requires Find(fields, tag) == |fields| && 0 < wireType < 8
    ensures (forall s :: Skipped(fields, tag, wireType, s, st)) <==> fields != [] || tag != 0
  {
    hide Skip, ReadVarint32;
    if fields == [] && tag == 0 {
      BoolInstead(wireType, st);
    } else {
      forall s ensures Skipped(fields, tag, wireType, s, st) {
      }
    }
  }

  /** A record with tag 0 and wire type 5: a message type with a field skips it, an empty one takes the
      first byte of the payload for a bool and fails on the rest. */
  lemma EmptyTypeFails(f: Field, m: Msg)
    requires f.tag == 1
    ensures Decode([], [5, 1, 2, 3, 4], m).Fail?
    ensures DecodeLoop([f], [5, 1, 2, 3, 4], Start(m)) == Ok(Start(m), [])
  {
    var st := Start(m);
    EmptyLoop(5, 1, [2, 3, 4], st);
    EmptyLoop(2, 3, [4], st);
    assert [5, 1] + [2, 3, 4] == [5, 1, 2, 3, 4] && [2, 3] + [4] == [2, 3, 4];
    EmptyLoopFails(4, st);
    SkipsFour(f, st);
  }

  /** An empty message type goes on behind the bool. */
  lemma EmptyLoop(key: byte, b: byte, s: Bytes, st: State)
    requires 0 < key < 8 && b < 128
    ensures DecodeLoop([], [key, b] + s, st) == DecodeLoop([], s, st)
  {
    SmallTag(key, [b] + s);
    EmptyBool(key, b, s, st);
    assert [key, b] + s == [key] + ([b] + s);
    hide DecodeRecord, ReadTag;
  }

  lemma EmptyLoopFails(key: byte, st: State)
    requires 0 < key < 8
    ensures DecodeLoop([], [key], st).Fail?
  {
    SmallTag(key, []);
    NoBool(key, st);
    assert [key] + [] == [key];
    hide DecodeRecord, ReadTag;
  }

  lemma SmallTag(key: byte, s: Bytes)
    requires 0 < key < 128
    ensures ReadTag([key] + s) == TagOk(key / 8, key % 8, s)
  {
    hide VarintLen, Fits32;
    VarintOne(key);
    Varint32RoundTrip(key, s);
  }

  lemma EmptyBool(wireType: nat, b: byte, s: Bytes, st: State)
    requires b < 128
    ensures DecodeRecord([], 0, wireType, [b] + s, st) == Ok(st, s)
  {
    hide VarintLen, Fits32;
    VarintOne(b);
    Varint32RoundTrip(b, s);
  }

  lemma NoBool(wireType: nat, st: State)
    ensures DecodeRecord([], 0, wireType, [], st).Fail?
  {
  }

  lemma SkipsFour(f: Field, st: State)
    requires f.tag == 1
    ensures DecodeLoop([f], [5, 1, 2, 3, 4], st) == Ok(st, [])
  {
    var payload: Bytes := [1, 2, 3, 4];
    SmallTag(5, payload);
    assert [5] + payload == [5, 1, 2, 3, 4];
    assert [f][1..] == [] && Find([f], 0) == 1;
    assert DecodeRecord([f], 0, 5, payload, st) == Ok(st, []);
    hide DecodeRecord, ReadTag;
    assert DecodeLoop([f], [], st) == Ok(st, []);
  }

  // ----- The required-field check

  /** The tags of the records the loop handles. */
  function Tags(fields: seq<Field>, s: Bytes, st: State): set<nat>
    decreases |s|
  {
    if s == [] then {}
    else
      match ReadTag(s)
      case TagFail => {}
      case TagEnd(_) => {}
      case TagOk(tag, wireType, rest) =>
        match DecodeRecord(fields, tag, wireType, rest, st)
        case Fail => {}
        case Ok(st', rest') => {tag} + Tags(fields, rest', st')
  }

  lemma RecordMarks(fields: seq<Field>, tag: nat, wireType: nat, s: Bytes, st: State)
    requires DecodeRecord(fields, tag, wireType, s, st).Ok?
    ensures var i := Find(fields, tag);
            DecodeRecord(fields, tag, wireType, s, st).value.seen ==
            if i < |fields| && fields[i].htype.Required? && RequiredBefore(fields, i) < PB_MAX_REQUIRED_FIELDS
            then st.seen + {RequiredBefore(fields, i)} else st.seen
  {
    hide DecodeValue, DecodePacked, Skip, ReadString, ReadVarint32, DataPos, Look, Find, RequiredBefore, FixedFull;
  }

  /** Bit r of the seen fields is set exactly when the r-th required field was among the records. */
  lemma {:induction false} SeenExactly(fields: seq<Field>, s: Bytes, st: State, i: nat)
    requires ValidSchema(fields) && DecodeLoop(fields, s, st).Ok?
    requires i < |fields| && fields[i].htype.Required? && RequiredBefore(fields, i) < PB_MAX_REQUIRED_FIELDS
    ensures RequiredBefore(fields, i) in DecodeLoop(fields, s, st).value.seen <==>
            RequiredBefore(fields, i) in st.seen || fields[i].tag in Tags(fields, s, st)
    decreases |s|
  {
    hide DecodeRecord, ReadTag, ValidSchema, RequiredBefore, Find;
    if s != [] {
      match ReadTag(s)
      case TagEnd(_) =>
      case TagOk(tag, wireType, rest) =>
        var r := DecodeRecord(fields, tag, wireType, rest, st);
        RecordMarks(fields, tag, wireType, rest, st);
        SeenExactly(fields, r.rest, r.value, i);
        FindAt(fields, i);
        var k := Find(fields, tag);
        if k < |fields| && k != i && fields[k].htype.Required? {
          if k < i { RequiredDistinct(fields, k, i); } else { RequiredDistinct(fields, i, k); }
        }
    }
  }

  /** Input whose fields decode is accepted exactly when the fixed-count field received last is
      complete and each of the first 64 required fields occurred in it. */
  lemma RequiredCheck(fields: seq<Field>, s: Bytes, m: Msg)
    requires ValidSchema(fields) && DecodeLoop(fields, s, Start(m)).Ok?
    ensures Decode(fields, s, m).Ok? <==>
            && FixedFull(fields, DecodeLoop(fields, s, Start(m)).value)
            && forall i :: 0 <= i < |fields| && fields[i].htype.Required?
                           && RequiredBefore(fields, i) < PB_MAX_REQUIRED_FIELDS ==>
                             fields[i].tag in Tags(fields, s, Start(m))
  {
    hide DecodeLoop, Tags, ValidSchema, RequiredBefore, FixedFull;
    var seen := DecodeLoop(fields, s, Start(m)).value.seen;
    forall i | 0 <= i < |fields| && fields[i].htype.Required? && RequiredBefore(fields, i) < PB_MAX_REQUIRED_FIELDS
      ensures RequiredBefore(fields, i) in seen <==> fields[i].tag in Tags(fields, s, Start(m))
      ensures RequiredBefore(fields, i) < RequiredBefore(fields, |fields|)
    {
      SeenExactly(fields, s, Start(m), i);
      RequiredDistinct(fields, i, |fields|);
    }
    if Decode(fields, s, m).Ok? {
    } else if FixedFull(fields, DecodeLoop(fields, s, Start(m)).value) {
      var r :| 0 <= r < RequiredBefore(fields, |fields|) && r < PB_MAX_REQUIRED_FIELDS && r !in seen;
      var i := RequiredAt(fields, r, |fields|);
    }
  }
}

/** The decoder of pb_decode.c as it runs: an input stream over a buffer, cut into substreams, and a
    loop that walks the descriptors with the circular iterator. Every method is proved to compute
    the corresponding function of PbFormat on the bytes the stream has left. */
module PbDecode {
  import opened Arith
  import opened PbWire
  import opened PbCommon
  import opened PbFormat

  /** pb_istream_t over a memory buffer. */
  class IStream {
    const buf: Bytes
    var state: nat
    var bytesLeft: nat

    ghost predicate Valid()
      reads this
    {
      state + bytesLeft <= |buf|
    }

    /** What is left to read. */
    ghost function Rest(): Bytes
      reads this
      requires Valid()
    {
      buf[state..state + bytesLeft]
    }

    /** Where the stream ends in its buffer; reading never moves it. */
    ghost function End(): nat
      reads this
    {
      state + bytesLeft
    }

    constructor (buf: Bytes, state: nat, bytesLeft: nat)
      requires state + bytesLeft <= |buf|
      ensures Valid() && this.buf == buf && this.state == state && this.bytesLeft == bytesLeft
    {
      this.buf, this.state, this.bytesLeft := buf, state, bytesLeft;
    }

    /** pb_readbyte */
    method ReadByte() returns (ok: bool, b: byte)
      requires Valid()
      modifies this
      ensures Valid() && End() == old(End())
      ensures ok <==> old(Rest()) != []
      ensures ok ==> b == old(Rest())[0] && Rest() == old(Rest())[1..]
      ensures !ok ==> Rest() == old(Rest())
    {
      if bytesLeft == 0 { return false, 0; }
      b := buf[state];
      state := state + 1;
      bytesLeft := bytesLeft - 1;
      ok := true;
      assert buf[state..state + bytesLeft] == old(buf[state..state + bytesLeft])[1..];
    }

    /** pb_read; a NULL destination only skips. */
    method Read(count: nat) returns (ok: bool, data: Bytes)
      requires Valid()
      modifies this
      ensures Valid() && End() == old(End())
      ensures ok <==> count <= |old(Rest())|
      ensures ok ==> data == old(Rest())[..count] && Rest() == old(Rest())[count..]
    {
      if count == 0 { return true, []; }
      if bytesLeft < count { return false, []; }
      data := buf[state..state + count];
      state := state + count;
      bytesLeft := bytesLeft - count;
      ok := true;
    }
  }

  // ----- Varints

  lemma VarintLenIs(s: Bytes, n: nat)
    requires 0 < n <= |s| && s[n - 1] < 128 && forall k :: 0 <= k < n - 1 ==> s[k] >= 128
    ensures VarintLen(s) == n
  {
    var m := VarintLen(s);
    if m != n { assert false; }
  }

  /** No varint ends within the first n bytes. */
  lemma VarintLenBeyond(s: Bytes, n: nat)
    requires n <= |s| && forall k :: 0 <= k < n ==> s[k] >= 128
    ensures VarintLen(s) == 0 || VarintLen(s) > n
  {
    var m := VarintLen(s);
    if 0 < m <= n { assert false; }
  }

  /** `result | (byte & 0x7F) << bitpos` on 64 and 32 bits, for a result below 2^bitpos and a bitpos
      that is a multiple of seven: the bits are disjoint, and those shifted out are lost. */
  function OrShifted64(result: nat, b: byte, bitpos: nat): nat {
    (result + b % 128 * Pow128(bitpos / 7)) % U64
  }

  function OrShifted32(result: nat, b: byte, bitpos: nat): nat {
    (result + b % 128 * Pow128(bitpos / 7)) % U32
  }

  lemma Accumulate64(g: Bytes, b: byte, acc: nat)
    requires acc == Base128(g) % U64
    ensures OrShifted64(acc, b, 7 * |g|) == Base128(g + [b]) % U64
  {
    hide Base128, Pow128;
    Base128Append(g, b);
    var p, d: nat := Pow128(|g|), b % 128;
    assert d * p >= 0;
    ModAdd64(Base128(g), d * p);
  }

  lemma ModAdd64(a: nat, b: nat)
    ensures (a % U64 + b) % U64 == (a + b) % U64
  {
    var q, r := a / U64, a % U64;
    var q', r' := (r + b) / U64, (r + b) % U64;
    assert a + b == U64 * (q + q') + r';
    assert (U64 * (q + q') + r') % U64 == r';
  }

  lemma ModAdd32(a: nat, b: nat)
    ensures (a % U32 + b) % U32 == (a + b) % U32
  {
    var q, r := a / U32, a % U32;
    var q', r' := (r + b) / U32, (r + b) % U32;
    assert a + b == U32 * (q + q') + r';
    ModUnique(q + q', r');
  }

  lemma Accumulate32(g: Bytes, b: byte, acc: nat)
    requires acc == Base128(g) % U32
    ensures OrShifted32(acc, b, 7 * |g|) == Base128(g + [b]) % U32
  {
    hide Base128, Pow128;
    Base128Append(g, b);
    var p, d: nat := Pow128(|g|), b % 128;
    assert d * p >= 0;
    ModAdd32(Base128(g), d * p);
  }

  /** pb_decode_varint */
  method DecodeVarint(stream: IStream) returns (ok: bool, dest: nat)
    requires stream.Valid()
    modifies stream
    ensures stream.Valid() && stream.End() == old(stream.End())
    ensures ok <==> ReadVarint64(old(stream.Rest())).Ok?
    ensures ok ==> ReadVarint64(old(stream.Rest())) == Ok(dest, stream.Rest())
  {
    hide Base128, VarintLen, OrShifted64, ReadVarint64;
    ghost var s := stream.Rest();
    ghost var k: nat := 0;
    var bitpos, result: nat := 0, 0;
    assert s[..0] == [] && s[0..] == s;
    assert Base128([]) == 0 by { Base128Empty(); }
    while true
      invariant k <= 10 && k <= |s| && bitpos == 7 * k && stream.Valid() && stream.End() == old(stream.End())
      invariant stream.Rest() == s[k..]
      invariant forall j :: 0 <= j < k ==> s[j] >= 128
      invariant result == Base128(s[..k]) % U64
      decreases 10 - k
    {
      if bitpos >= 64 {
        Rejected64(s, k);
        return false, 0;
      }
      var more, b := stream.ReadByte();
      if !more {
        Rejected64(s, k);
        return false, 0;
      }
      Accumulate64(s[..k], b, result);
      assert s[..k + 1] == s[..k] + [b];
      result := OrShifted64(result, b, bitpos);
      bitpos := bitpos + 7;
      k := k + 1;
      if b < 128 {
        Accepted64(s, k);
        return true, result;
      }
    }
  }

  lemma Rejected64(s: Bytes, k: nat)
    requires k <= |s| && forall j :: 0 <= j < k ==> s[j] >= 128
    requires k == |s| || k >= 10
    ensures ReadVarint64(s).Fail?
  {
    VarintLenBeyond(s, k);
  }

  lemma Accepted64(s: Bytes, k: nat)
    requires 0 < k <= |s| && k <= 10 && s[k - 1] < 128 && forall j :: 0 <= j < k - 1 ==> s[j] >= 128
    ensures ReadVarint64(s) == Ok(Base128(s[..k]) % U64, s[k..])
  {
    hide Base128;
    VarintLenIs(s, k);
  }

  lemma Base128Empty()
    ensures Base128([]) == 0
  {
  }

  /** pb_decode_varint32: the bytes from the sixth on must be padding or a sign extension. */
  method DecodeVarint32(stream: IStream) returns (ok: bool, dest: nat)
    requires stream.Valid()
    modifies stream
    ensures stream.Valid() && stream.End() == old(stream.End())
    ensures ok <==> ReadVarint32(old(stream.Rest())).Ok?
    ensures ok ==> ReadVarint32(old(stream.Rest())) == Ok(dest, stream.Rest())
  {
    hide ReadVarint32, Scanned;
    ghost var s := stream.Rest();
    var more, b := stream.ReadByte();
    if !more {
      Unfinished(s);
      return false, 0;
    }
    FirstByte(s);
    var result: nat := b % 128;
    if b < 128 {
      Accepted(s, 1, result);
      return true, result;
    }
    ok, dest := DecodeMultibyte(stream, b, s);
  }

  /** What is known after k bytes of a varint: they go on up to the last one, the low 32 bits of the
      first five are in the result, and those from the sixth on are padding or sign extension. */
  ghost predicate Scanned(s: Bytes, k: nat, result: nat) {
    && 1 <= k <= |s| && (forall j :: 0 <= j < k - 1 ==> s[j] >= 128)
    && result == Low32(s, k) && AllHigh(s, k)
  }

  /** The multibyte case of pb_decode_varint32_eof, behind the first byte. */
  method DecodeMultibyte(stream: IStream, first: byte, ghost s: Bytes) returns (ok: bool, dest: nat)
    requires stream.Valid() && Scanned(s, 1, first % 128) && first == s[0] >= 128 && stream.Rest() == s[1..]
    modifies stream
    ensures stream.Valid() && stream.End() == old(stream.End())
    ensures ok <==> ReadVarint32(s).Ok?
    ensures ok ==> ReadVarint32(s) == Ok(dest, stream.Rest())
  {
    hide ReadVarint32, Scanned;
    ScannedSome(s, 1, first % 128);
    var b, bitpos: nat := first, 7;
    ghost var k: nat := 1;
    dest := first % 128;
    while b >= 128
      invariant 1 <= k <= |s| && bitpos == 7 * k && stream.Valid() && stream.End() == old(stream.End())
      invariant stream.Rest() == s[k..] && b == s[k - 1] && Scanned(s, k, dest)
      decreases |s| - k
    {
      var more;
      more, b := stream.ReadByte();
      if !more {
        NotEnded(s, k, dest);
        return false, 0;
      }
      ok, dest := TakeByte(dest, b, bitpos, s, k);
      if !ok { return false, 0; }
      bitpos := bitpos + 7;
      k := k + 1;
    }
    if bitpos == 35 && b / 16 % 8 != 0 {
      FifthByte(s, dest);
      return false, 0;
    }
    Accepted(s, k, dest);
    ok := true;
  }

  lemma ScannedSome(s: Bytes, k: nat, result: nat)
    requires Scanned(s, k, result)
    ensures 1 <= k <= |s|
  {
  }

  lemma NotEnded(s: Bytes, k: nat, result: nat)
    requires Scanned(s, k, result) && k == |s| && s[k - 1] >= 128
    ensures ReadVarint32(s).Fail?
  {
    Unfinished(s);
  }

  /** The low 32 bits of the first k bytes; those from the sixth on do not contribute. */
  ghost function Low32(s: Bytes, k: nat): nat
    requires k <= |s|
  {
    Base128(s[..if k <= 5 then k else 5]) % U32
  }

  /** One byte of the multibyte case, at index k. */
  method TakeByte(result: nat, b: byte, bitpos: nat, ghost s: Bytes, ghost k: nat) returns (ok: bool, result': nat)
    requires 1 <= k < |s| && bitpos == 7 * k && b == s[k] && s[k - 1] >= 128 && Scanned(s, k, result)
    ensures !ok ==> ReadVarint32(s).Fail?
    ensures var next := k + 1;
            ok ==> Scanned(s, next, result')
  {
    hide Base128, OrShifted32, ReadVarint32, HighByteOk, AllHigh, VarintLen, Pow128, Fits32;
    result' := result;
    if bitpos >= 32 {
      var signExtension: byte := if bitpos < 63 then 0xFF else 0x01;
      if b % 128 != 0 && (result < U31 || b != signExtension) {
        TooLong(s, k);
        return false, result;
      }
    } else {
      Accumulate32(s[..k], b, result);
      assert s[..k + 1] == s[..k] + [b];
      result' := OrShifted32(result, b, bitpos);
    }
    HighBytes(s, k, k + 1);
    ok := true;
  }

  lemma Accepted(s: Bytes, k: nat, result: nat)
    requires Scanned(s, k, result) && s[k - 1] < 128 && (k == 5 ==> s[4] < 16)
    ensures ReadVarint32(s) == Ok(result, s[k..])
  {
    hide Base128, HighByteOk, VarintLen;
    VarintLenIs(s, k);
  }

  lemma Unfinished(s: Bytes)
    requires forall j :: 0 <= j < |s| ==> s[j] >= 128
    ensures ReadVarint32(s).Fail?
  {
    VarintLenBeyond(s, |s|);
  }

  lemma FifthByte(s: Bytes, result: nat)
    requires Scanned(s, 5, result) && 16 <= s[4] < 128
    ensures ReadVarint32(s).Fail?
  {
    VarintLenIs(s, 5);
  }

  lemma FirstByte(s: Bytes)
    requires s != []
    ensures Scanned(s, 1, s[0] % 128)
  {
    assert s[..1] == [s[0]];
    assert Base128([s[0]]) == s[0] % 128 by { assert [s[0]][1..] == []; }
  }

  /** A byte at index k >= 5 that is neither padding nor sign extension makes the varint too long. */
  lemma TooLong(s: Bytes, k: nat)
    requires 5 <= k < |s| && forall j :: 0 <= j < k ==> s[j] >= 128
    requires s[k] % 128 != 0 && (Base128(s[..5]) % U32 < U31 || s[k] != SignExtension(k))
    ensures ReadVarint32(s).Fail?
  {
    hide Base128, VarintLen;
    var n := VarintLen(s);
    VarintLenBeyond(s, k);
    if n > 0 {
      var g := s[..n];
      assert g[..5] == s[..5];
      assert !HighByteOk(g, k);
    }
  }

  /** The bytes of the first k from the sixth on are padding or sign extension. */
  ghost predicate AllHigh(s: Bytes, k: nat)
    requires k <= |s|
  {
    forall j :: 5 <= j < k ==> HighByteOk(s[..k], j)
  }

  lemma HighBytes(s: Bytes, k: nat, n: nat)
    requires n == k + 1 <= |s| && AllHigh(s, k)
    requires k >= 5 ==> s[k] % 128 == 0 || (Base128(s[..5]) % U32 >= U31 && s[k] == SignExtension(k))
    ensures AllHigh(s, n)
  {
    hide Base128;
    if k >= 5 {
      assert s[..k][..5] == s[..5] && s[..n][..5] == s[..5];
      forall j | 5 <= j < n ensures HighByteOk(s[..n], j) {
        if j < k { assert HighByteOk(s[..k], j); }
      }
    }
  }

  /** pb_skip_varint */
  method SkipVarint(stream: IStream) returns (ok: bool)
    requires stream.Valid()
    modifies stream
    ensures stream.Valid() && stream.End() == old(stream.End())
    ensures ok <==> VarintLen(old(stream.Rest())) > 0
    ensures ok ==> stream.Rest() == old(stream.Rest())[VarintLen(old(stream.Rest()))..]
  {
    hide VarintLen;
    ghost var s := stream.Rest();
    ghost var k: nat := 0;
    while true
      invariant k <= |s| && stream.Valid() && stream.End() == old(stream.End()) && stream.Rest() == s[k..]
      invariant forall j :: 0 <= j < k ==> s[j] >= 128
      decreases |s| - k
    {
      VarintLenBeyond(s, k);
      var more, data := stream.Read(1);
      if !more { return false; }
      k := k + 1;
      if data[0] < 128 {
        VarintLenIs(s, k);
        return true;
      }
    }
  }

  // ----- Substreams

  /** pb_make_string_substream: the substream takes its bytes from the parent, whose position moves
      when the substream is closed. */
  method MakeSubstream(stream: IStream) returns (ok: bool, sub: IStream)
    requires stream.Valid()
    modifies stream
    ensures stream.Valid() && fresh(sub) && sub.Valid() && sub.buf == stream.buf
    ensures stream.End() <= old(stream.End())
    ensures ok <==> ReadString(old(stream.Rest())).Ok?
    ensures ok ==> sub.Rest() == ReadString(old(stream.Rest())).value
    ensures ok ==> sub.state == stream.state && sub.bytesLeft + stream.End() == old(stream.End())
    ensures ok ==> sub.End() + stream.bytesLeft <= |stream.buf|
    ensures ok ==> stream.buf[sub.End()..sub.End() + stream.bytesLeft] == ReadString(old(stream.Rest())).rest
  {
    hide ReadVarint32;
    sub := new IStream(stream.buf, 0, 0);
    var size;
    ok, size := DecodeVarint32(stream);
    if !ok { return; }
    ghost var rest := stream.Rest();
    if stream.bytesLeft < size { return false, sub; }
    sub := new IStream(stream.buf, stream.state, size);
    stream.bytesLeft := stream.bytesLeft - size;
    Cut(stream.buf, stream.state, stream.bytesLeft + size, size);
  }

  lemma Cut(buf: Bytes, start: nat, len: nat, n: nat)
    requires start + len <= |buf| && n <= len
    ensures buf[start..start + n] == buf[start..start + len][..n]
    ensures buf[start + n..start + len] == buf[start..start + len][n..]
  {
  }

  /** pb_close_string_substream: skips what the substream has left. */
  method CloseSubstream(stream: IStream, sub: IStream)
    requires sub.Valid() && sub != stream && sub.buf == stream.buf
    requires sub.End() + stream.bytesLeft <= |stream.buf|
    modifies stream, sub
    ensures stream.Valid() && stream.bytesLeft == old(stream.bytesLeft)
    ensures stream.state == old(sub.End())
    ensures stream.Rest() == stream.buf[old(sub.End())..old(sub.End()) + stream.bytesLeft]
  {
    if sub.bytesLeft > 0 {
      var _, _ := sub.Read(sub.bytesLeft);
    }
    stream.state := sub.state;
  }

  /** pb_skip_field */
  method SkipField(stream: IStream, wireType: nat) returns (ok: bool)
    requires stream.Valid()
    modifies stream
    ensures stream.Valid() && stream.End() == old(stream.End())
    ensures ok <==> Skip(wireType, old(stream.Rest())).Some?
    ensures ok ==> Skip(wireType, old(stream.Rest())) == Some(stream.Rest())
  {
    hide VarintLen, ReadVarint32;
    var data;
    if wireType == PB_WT_VARINT {
      ok := SkipVarint(stream);
    } else if wireType == PB_WT_64BIT {
      ok, data := stream.Read(8);
    } else if wireType == PB_WT_STRING {
      var length;
      ok, length := DecodeVarint32(stream);
      if ok { ok, data := stream.Read(length); }
    } else if wireType == PB_WT_32BIT {
      ok, data := stream.Read(4);
    } else {
      ok := false;
    }
  }

  // ----- Values

  /** pb_decode_fixed32 and pb_decode_fixed64 */
  method DecodeFixed(stream: IStream, n: nat) returns (ok: bool, dest: nat)
    requires stream.Valid() && n in {4, 8}
    modifies stream
    ensures stream.Valid() && stream.End() == old(stream.End())
    ensures ok <==> ReadFixed(old(stream.Rest()), n).Ok?
    ensures ok ==> ReadFixed(old(stream.Rest()), n) == Ok(dest, stream.Rest())
  {
    var bytes;
    ok, bytes := stream.Read(n);
    dest := 0;
    if ok { dest := FromBytes(bytes); }
  }

  /** The sum of the bytes, each shifted to its place. */
  method FromBytes(bytes: Bytes) returns (v: nat)
    requires |bytes| in {4, 8}
    ensures v == FixedValue(bytes)
  {
    hide FixedValue;
    var b: seq<nat> := bytes;
    v := b[0] + 0x100 * b[1] + 0x1_0000 * b[2] + 0x100_0000 * b[3];
    FixedFour(bytes);
    if |bytes| == 8 {
      v := v + U32 * b[4] + 0x100_0000_0000 * b[5] + 0x1_0000_0000_0000 * b[6] + 0x100_0000_0000_0000 * b[7];
      FixedFour(bytes[4..]);
    } else {
      FixedNone(bytes[4..]);
    }
  }

  lemma FixedFour(s: Bytes)
    requires |s| >= 4
    ensures FixedValue(s) == s[0] + 0x100 * s[1] + 0x1_0000 * s[2] + 0x100_0000 * s[3] + U32 * FixedValue(s[4..])
    ensures |s| == 4 ==> FixedValue(s[4..]) == 0
  {
    assert s[1..][1..] == s[2..] && s[2..][1..] == s[3..] && s[3..][1..] == s[4..];
    assert FixedValue(s[3..]) == s[3] + 256 * FixedValue(s[4..]);
    assert FixedValue(s[2..]) == s[2] + 256 * FixedValue(s[3..]);
    assert FixedValue(s[1..]) == s[1] + 256 * FixedValue(s[2..]);
  }

  lemma FixedNone(s: Bytes)
    requires s == []
    ensures FixedValue(s) == 0
  {
  }

  /** pb_dec_bool, pb_dec_varint, pb_dec_uvarint, pb_dec_svarint, pb_dec_fixed32, pb_dec_fixed64 */
  method DecScalar(stream: IStream, f: Field) returns (ok: bool, dest: Value)
    requires stream.Valid() && f.ltype.Packable()
    modifies stream
    ensures stream.Valid() && stream.End() == old(stream.End())
    ensures ok <==> DecodeScalar(f, old(stream.Rest())).Ok?
    ensures ok ==> DecodeScalar(f, old(stream.Rest())) == Ok(dest, stream.Rest())
  {
    hide ReadVarint32, ReadVarint64, ReadFixed;
    var v;
    dest := Int(0);
    if f.ltype.LBool? {
      ok, v := DecodeVarint32(stream);
      if ok { dest := Int(if v != 0 then 1 else 0); }
    } else if f.ltype.LFixed32? {
      ok, v := DecodeFixed(stream, 4);
      dest := Int(v);
    } else if f.ltype.LFixed64? {
      ok, v := DecodeFixed(stream, 8);
      dest := Int(v);
    } else {
      ok, v := DecodeVarint(stream);
      if !ok { return; }
      if f.dataSize !in {1, 2, 4, 8} { return false, dest; }
      if f.ltype.LUVarint? {
        var clamped := v % Modulus(f.dataSize);
        dest := Int(clamped);
        ok := clamped == v;
      } else {
        var svalue := if f.ltype.LSVarint? then UnZigZag(v % U64) else Cast(v, if f.dataSize == 8 then 8 else 4);
        var clamped := Cast(svalue, f.dataSize);
        dest := Int(clamped);
        ok := clamped == svalue;
      }
    }
  }

  /** pb_dec_bytes, pb_dec_string, pb_dec_fixed_length_bytes */
  method DecBlob(stream: IStream, f: Field) returns (ok: bool, dest: Value)
    requires stream.Valid() && (f.ltype.LBytes? || f.ltype.LString? || f.ltype.LFixedLengthBytes?)
    modifies stream
    ensures stream.Valid() && stream.End() == old(stream.End())
    ensures ok <==> DecodeBlob(f, old(stream.Rest())).Ok?
    ensures ok ==> DecodeBlob(f, old(stream.Rest())) == Ok(dest, stream.Rest())
  {
    hide ReadVarint32;
    dest := Blob([]);
    var size, data;
    ok, size := DecodeVarint32(stream);
    if !ok { return; }
    if f.ltype.LFixedLengthBytes? {
      if size > PB_SIZE_MAX { return false, dest; }
      if size == 0 { return true, Blob(Inline([], f.dataSize)); }
      if size != f.dataSize { return false, dest; }
    } else if f.ltype.LString? {
      if size + 1 > f.dataSize { return false, dest; }
    } else {
      if size > PB_SIZE_MAX { return false, dest; }
      if size + BYTES_OFFSET > f.dataSize { return false, dest; }
    }
    ok, data := stream.Read(size);
    if ok { dest := Blob(data); }
  }

  /** PB_DECODERS[PB_LTYPE(f.type)]: decodes over `prior`. */
  method DecValue(stream: IStream, f: Field, prior: Value) returns (ok: bool, dest: Value)
    requires stream.Valid() && ValidSub(f)
    modifies stream
    ensures stream.Valid() && stream.End() <= old(stream.End()) && (ok ==> stream.End() == old(stream.End()))
    ensures ok <==> DecodeValue(f, old(stream.Rest()), prior).Ok?
    ensures ok ==> DecodeValue(f, old(stream.Rest()), prior) == Ok(dest, stream.Rest())
    decreases stream.bytesLeft, 1
  {
    hide Decode, DecodeScalar, DecodeBlob, Init, ValidSchema, ReadString;
    if f.ltype.LSubmessage? {
      ok, dest := DecSubmessage(stream, f, prior);
    } else if f.ltype.Packable() {
      ok, dest := DecScalar(stream, f);
    } else {
      ok, dest := DecBlob(stream, f);
    }
  }

  /** pb_dec_submessage: array entries are initialised, other submessages already are. */
  method DecSubmessage(stream: IStream, f: Field, prior: Value) returns (ok: bool, dest: Value)
    requires stream.Valid() && f.ltype.LSubmessage? && ValidSub(f)
    modifies stream
    ensures stream.Valid() && stream.End() <= old(stream.End()) && (ok ==> stream.End() == old(stream.End()))
    ensures ok <==> DecodeValue(f, old(stream.Rest()), prior).Ok?
    ensures ok ==> DecodeValue(f, old(stream.Rest()), prior) == Ok(dest, stream.Rest())
    decreases stream.bytesLeft, 0
  {
    hide Decode, ReadString, Init, ValidSchema;
    dest := Message(map[]);
    var sub, m;
    ok, sub := MakeSubstream(stream);
    if !ok { return; }
    var fields := f.ltype.fields;
    if f.htype.Repeated? {
      ok, m := DecodeMessage(sub, fields);
    } else {
      ok, m := DecodeNoinit(sub, fields, SlotsOf(prior));
    }
    CloseSubstream(stream, sub);
    if ok { dest := Message(m); }
  }

  // ----- Fields

  /** The loop over a packed array. */
  method DecPacked(sub: IStream, f: Field, items: seq<Value>, size: nat)
    returns (ok: bool, items': seq<Value>, size': nat)
    requires sub.Valid() && f.ltype.Packable()
    modifies sub
    ensures sub.Valid() && sub.End() == old(sub.End())
    ensures var r := DecodePacked(f, old(sub.Rest()), items, size);
            ok && sub.bytesLeft == 0 <==> r.Some?
    ensures ok && sub.bytesLeft == 0 ==> DecodePacked(f, old(sub.Rest()), items, size) == Some((items', size'))
  {
    hide DecodeScalar, Put;
    ok, items', size' := true, items, size;
    while sub.bytesLeft > 0 && size' < f.arraySize
      invariant sub.Valid() && sub.End() == old(sub.End())
      invariant DecodePacked(f, old(sub.Rest()), items, size) == DecodePacked(f, sub.Rest(), items', size')
      decreases sub.bytesLeft
    {
      var v;
      ok, v := DecScalar(sub, f);
      if !ok { return; }
      items' := Put(items', size', v);
      size' := size' + 1;
    }
  }

  /** decode_static_field for the field the iterator stands on; `st` is the state of the loop. */
  method DecStaticField(stream: IStream, iter: FieldIter, wireType: nat, dest: Msg, fixedCount: nat, ghost st: State)
    returns (ok: bool, dest': Msg, fixedCount': nat)
    requires stream.Valid() && iter.Valid() && iter.fields != [] && ValidSchema(iter.fields)
    requires iter.fields[iter.pos].FixedCount() ==> iter.pSize.Counter?
    requires st.m == dest && st.fixedCount == fixedCount
    modifies stream
    ensures stream.Valid() && stream.End() <= old(stream.End()) && (ok ==> stream.End() == old(stream.End()))
    ensures ok <==> DecodeField(iter.fields, iter.pos, wireType, old(stream.Rest()), st).Ok?
    ensures ok ==> DecodeField(iter.fields, iter.pos, wireType, old(stream.Rest()), st)
                   == Ok(st.(m := dest', fixedCount := fixedCount'), stream.Rest())
    decreases stream.bytesLeft, 3
  {
    hide DecodeValue, DecodePacked, ReadString, Init, DataPos, SizePos, RequiredBefore, ValidSchema,
         ZeroValue, InitSlot;
    var f := iter.fields[iter.pos];
    SubSchemaOf(iter.fields, iter.pos);
    SizeApart(iter.fields, iter.pos);
    dest', fixedCount' := dest, fixedCount;
    var k := iter.pData;
    var slot := SlotAt(dest, k, f);
    assert slot == Look(iter.fields, iter.pos, dest);
    var v;
    match f.htype {
      case Required =>
        ok, v := DecValue(stream, f, slot.value);
        if ok { dest' := dest[k := Single(slot.has, v)]; }
      case Optional =>
        var has := slot.has;
        if iter.pSize != Member(k) { has := true; }
        ok, v := DecValue(stream, f, slot.value);
        if ok { dest' := dest[k := Single(has, v)]; }
      case Oneof =>
        var arm := slot.arm;
        if f.ltype.LSubmessage? && slot.which != f.tag {
          var defaults := SetToDefaults(f.ltype.fields);
          arm := Message(defaults);
        }
        ok, v := DecValue(stream, f, arm);
        if ok { dest' := dest[k := Union(f.tag, v)]; }
      case Repeated =>
        var size := if iter.pSize.Counter? then fixedCount else |slot.items|;
        EntriesOfField(iter.fields, iter.pos, wireType, stream.Rest(), st);
        var items;
        ok, items, size := DecArray(stream, f, wireType, slot.items, size);
        if ok {
          dest' := dest[k := Array(items)];
          if iter.pSize.Counter? { fixedCount' := size; }
        }
    }
  }

  /** One record of an array: the items and their number afterwards. */
  ghost function Entries(f: Field, wireType: nat, s: Bytes, items: seq<Value>, count: nat): Read<(seq<Value>, nat)> {
    if wireType == PB_WT_STRING && f.ltype.Packable() then
      var (body, rest) :- ReadString(s);
      match DecodePacked(f, body, items, count)
      case None => Fail
      case Some(r) => Ok(r, rest)
    else if count >= f.arraySize then Fail
    else
      var (v, rest) :- DecodeValue(f, s, ZeroValue(f));
      Ok((Put(items, count, v), count + 1), rest)
  }

  lemma EntriesOfField(fields: seq<Field>, i: nat, wireType: nat, s: Bytes, st: State)
    requires i < |fields| && fields[i].htype.Repeated?
    ensures var items := Look(fields, i, st.m).items;
            var r := Entries(fields[i], wireType, s, items, Count(fields[i], st, items));
            DecodeField(fields, i, wireType, s, st)
            == if r.Fail? then Fail
               else Ok(st.(m := st.m[DataPos(fields, i) := Array(r.value.0)],
                           fixedCount := if fields[i].FixedCount() then r.value.1 else st.fixedCount), r.rest)
  {
    hide DecodeValue, DecodePacked, ReadString, DataPos, Init, InitSlot, ZeroValue, Put, SlotAt;
  }

  /** The cases of decode_static_field for repeated fields; size is the counter that pSize points to. */
  method DecArray(stream: IStream, f: Field, wireType: nat, items: seq<Value>, size: nat)
    returns (ok: bool, items': seq<Value>, size': nat)
    requires stream.Valid() && ValidSub(f)
    modifies stream
    ensures stream.Valid() && stream.End() <= old(stream.End()) && (ok ==> stream.End() == old(stream.End()))
    ensures ok <==> Entries(f, wireType, old(stream.Rest()), items, size).Ok?
    ensures ok ==> Entries(f, wireType, old(stream.Rest()), items, size) == Ok((items', size'), stream.Rest())
    decreases stream.bytesLeft, 2
  {
    hide DecodeValue, DecodePacked, ReadString, ZeroValue, Put;
    items', size' := items, size;
    if wireType == PB_WT_STRING && f.ltype.Packable() {
      var sub;
      ok, sub := MakeSubstream(stream);
      if !ok { return; }
      ok, items', size' := DecPacked(sub, f, items, size);
      if sub.bytesLeft != 0 { return false, items', size'; }
      CloseSubstream(stream, sub);
    } else {
      if size >= f.arraySize { return false, items, size; }
      var v;
      ok, v := DecValue(stream, f, ZeroValue(f));
      if ok { items', size' := Put(items, size, v), size + 1; }
    }
  }

  /** The comparison of pSize with pData tells the fields without a has or count member. */
  lemma SizeApart(fields: seq<Field>, i: nat)
    requires i < |fields|
    ensures fields[i].htype.Repeated? || fields[i].htype.Optional? ==>
              (SizePos(fields, i) == DataPos(fields, i) <==> fields[i].sizeOffset == 0)
  {
  }

  lemma SubSchemaOf(fields: seq<Field>, i: nat)
    requires ValidSchema(fields) && i < |fields|
    ensures ValidSub(fields[i]) && fields[i].tag > 0
    ensures fields[i].ltype.LSubmessage? ==> ValidSchema(fields[i].ltype.fields)
  {
  }

  // ----- Defaults

  /** pb_message_set_to_defaults: every field through the iterator. */
  method SetToDefaults(fields: seq<Field>) returns (m: Msg)
    requires ValidSchema(fields)
    ensures m == Init(fields)
  {
    hide ValidSchema, DataPos, SizePos, RequiredBefore, InitSlot;
    m := map[];
    var iter := new FieldIter(fields);
    if fields == [] { return; }
    var more := true;
    while more
      invariant iter.Valid() && iter.fields == fields && fresh(iter) && iter.pos < |fields|
      invariant Initialised(fields, m, if more then iter.pos else |fields|)
      decreases more, |fields| - iter.pos
    {
      Initialise(fields, m, iter.pos, iter.pos + 1);
      m := m[iter.pData := InitSlot(fields[iter.pos])];
      more := iter.Next();
    }
    InitialisedAll(fields, m);
  }

  ghost predicate Initialised(fields: seq<Field>, m: Msg, i: nat)
    requires i <= |fields|
  {
    && (forall j :: 0 <= j < i ==> DataPos(fields, j) in m && m[DataPos(fields, j)] == InitSlot(fields[j]))
    && (forall k :: k in m ==> exists j :: 0 <= j < i && DataPos(fields, j) == k)
  }

  lemma Initialise(fields: seq<Field>, m: Msg, i: nat, next: nat)
    requires ValidSchema(fields) && i < |fields| && next == i + 1 && Initialised(fields, m, i)
    ensures Initialised(fields, m[DataPos(fields, i) := InitSlot(fields[i])], next)
  {
    hide ValidSchema, DataPos;
    forall j | 0 <= j < i && DataPos(fields, j) == DataPos(fields, i)
      ensures InitSlot(fields[j]) == InitSlot(fields[i])
    {
      SharedSlot(fields, j, i);
    }
    var m' := m[DataPos(fields, i) := InitSlot(fields[i])];
    forall k | k in m' ensures exists j :: 0 <= j < next && DataPos(fields, j) == k {
      if k in m {
        var j :| 0 <= j < i && DataPos(fields, j) == k;
      }
    }
  }

  lemma {:induction false} InitKeys(fields: seq<Field>, i: nat, k: nat) returns (j: nat)
    requires i <= |fields| && k in InitFrom(fields, i)
    ensures i <= j < |fields| && DataPos(fields, j) == k
    decreases |fields| - i
  {
    hide DataPos;
    if DataPos(fields, i) == k { j := i; } else { j := InitKeys(fields, i + 1, k); }
  }

  lemma InitialisedAll(fields: seq<Field>, m: Msg)
    requires ValidSchema(fields) && Initialised(fields, m, |fields|)
    ensures m == Init(fields)
  {
    hide ValidSchema, DataPos, InitSlot;
    var n := Init(fields);
    forall k | k in n ensures k in m && m[k] == n[k] {
      var j := InitKeys(fields, 0, k);
      LookInitFrom(fields, 0, j);
    }
    forall k | k in m ensures k in n {
      var j :| 0 <= j < |fields| && DataPos(fields, j) == k;
      LookInitFrom(fields, 0, j);
    }
  }

  // ----- The bitmap of required fields

  function Pow2(k: nat): (p: nat)
    ensures p > 0
  {
    if k == 0 then 1 else 2 * Pow2(k - 1)
  }

  /** The n low bits of the word that stands for the indices from `base` on. */
  ghost function Word(seen: set<nat>, base: nat, n: nat): (w: nat)
    ensures w < Pow2(n)
  {
    if n == 0 then 0
    else Word(seen, base, n - 1) + if base + n - 1 in seen then Pow2(n - 1) else 0
  }

  /** `word | 1 << k` */
  function SetBit(w: nat, k: nat): nat {
    if w / Pow2(k) % 2 == 1 then w else w + Pow2(k)
  }

  lemma {:induction false} WordSplit(seen: set<nat>, base: nat, n: nat, k: nat) returns (h: nat)
    requires k < n
    ensures Word(seen, base, n) == Word(seen, base, k) + (if base + k in seen then Pow2(k) else 0) + 2 * (Pow2(k) * h)
  {
    if n == k + 1 {
      h := 0;
    } else {
      var h' := WordSplit(seen, base, n - 1, k);
      if base + n - 1 in seen {
        h := h' + Pow2(n - 2 - k);
        Pow2Factor(k, n - 2 - k);
        Distribute(Pow2(k), h', Pow2(n - 2 - k));
      } else {
        h := h';
      }
    }
  }

  lemma {:induction false} Pow2Factor(k: nat, j: nat)
    ensures Pow2(k) * Pow2(j) == Pow2(k + j)
  {
    if j > 0 {
      Pow2Factor(k, j - 1);
      Twice(Pow2(k), Pow2(j - 1));
    }
  }

  lemma Twice(a: int, b: int)
    ensures a * (2 * b) == 2 * (a * b)
  {
  }

  lemma BitOf(seen: set<nat>, base: nat, k: nat)
    requires k < 32
    ensures Word(seen, base, 32) / Pow2(k) % 2 == 1 <==> base + k in seen
  {
    hide Word, Pow2;
    var h := WordSplit(seen, base, 32, k);
    var b: nat := if base + k in seen then 1 else 0;
    var p := Pow2(k);
    Distribute(p, b, 2 * h);
    Twice(p, h);
    DivUnique(Word(seen, base, 32), p, b + 2 * h, Word(seen, base, k));
  }

  lemma {:induction false} WordAdd(seen: set<nat>, base: nat, n: nat, k: nat)
    requires base + k !in seen
    ensures Word(seen + {base + k}, base, n) == Word(seen, base, n) + if k < n then Pow2(k) else 0
  {
    if n > 0 { WordAdd(seen, base, n - 1, k); }
  }

  lemma {:induction false} WordOther(seen: set<nat>, base: nat, n: nat, x: nat)
    requires x < base || base + n <= x
    ensures Word(seen + {x}, base, n) == Word(seen, base, n)
  {
    if n > 0 { WordOther(seen, base, n - 1, x); }
  }

  /** Setting a bit of the bitmap adds the index to the set it stands for. */
  lemma SetBitAdds(seen: set<nat>, base: nat, k: nat)
    requires k < 32
    ensures SetBit(Word(seen, base, 32), k) == Word(seen + {base + k}, base, 32)
  {
    BitOf(seen, base, k);
    if base + k in seen {
      assert seen + {base + k} == seen;
    } else {
      WordAdd(seen, base, 32, k);
    }
  }

  /** Of the n indices from `base` on, the set has exactly the first r. */
  ghost predicate Exactly(seen: set<nat>, base: nat, n: nat, r: nat) {
    forall x :: base <= x < base + n ==> (x in seen <==> x < base + r)
  }

  /** A word equals the mask of its r low bits exactly when those are the indices in the set. */
  lemma {:induction false} WordMask(seen: set<nat>, base: nat, n: nat, r: nat)
    requires r <= n
    ensures Word(seen, base, n) == Pow2(r) - 1 <==> Exactly(seen, base, n, r)
  {
    if n > 0 {
      var top := base + n - 1;
      var r' := if r == n then r - 1 else r;
      WordMask(seen, base, n - 1, r');
      if r < n { Pow2Monotonic(r, n - 1); }
      assert Exactly(seen, base, n, r) <==> Exactly(seen, base, n - 1, r') && (top in seen <==> top < base + r);
    }
  }

  lemma {:induction false} Pow2Monotonic(j: nat, k: nat)
    requires j <= k
    ensures Pow2(j) <= Pow2(k)
  {
    if j < k { Pow2Monotonic(j, k - 1); }
  }

  lemma AllBits()
    ensures Pow2(32) == U32
  {
    assert Pow2(8) == 0x100;
    assert Pow2(16) == 0x1_0000;
    assert Pow2(24) == 0x100_0000;
  }

  /** `allbits >> (32 - r)` */
  lemma MaskIs(r: nat)
    requires r <= 32
    ensures (U32 - 1) / Pow2(32 - r) == Pow2(r) - 1
  {
    hide Pow2;
    AllBits();
    Pow2Factor(32 - r, r);
    var p, q := Pow2(32 - r), Pow2(r);
    Distribute(p, q, -1);
    DivUnique(U32 - 1, p, q - 1, p - 1);
  }

  /** The final check of pb_decode_noinit: whole words first, then the remaining bits. */
  method CheckRequired(fieldsSeen: array<nat>, required: nat, ghost fields: seq<Field>, ghost seen: set<nat>)
    returns (ok: bool)
    requires Tracks(fields, fieldsSeen, seen) && required == RequiredBefore(fields, |fields|)
    ensures ok <==> forall r :: 0 <= r < required && r < PB_MAX_REQUIRED_FIELDS ==> r in seen
  {
    hide Word, Pow2, RequiredBefore;
    var count := if required > PB_MAX_REQUIRED_FIELDS then PB_MAX_REQUIRED_FIELDS else required;
    AllBits();
    for i := 0 to count / 32
      invariant forall r :: 0 <= r < 32 * i ==> r in seen
    {
      FullWord(seen, 32 * i);
      if fieldsSeen[i] != U32 - 1 { return false; }
    }
    if count % 32 != 0 {
      var i := count / 32;
      MaskIs(count % 32);
      PartWord(seen, 32 * i, count % 32);
      if fieldsSeen[i] != (U32 - 1) / Pow2(32 - count % 32) { return false; }
    }
    ok := true;
  }

  lemma FullWord(seen: set<nat>, base: nat)
    ensures Word(seen, base, 32) == U32 - 1 <==> forall r :: base <= r < base + 32 ==> r in seen
  {
    hide Word, Pow2;
    AllBits();
    WordMask(seen, base, 32, 32);
  }

  lemma PartWord(seen: set<nat>, base: nat, n: nat)
    requires n < 32 && forall x :: x in seen ==> x < base + n
    ensures Word(seen, base, 32) == Pow2(n) - 1 <==> forall r :: base <= r < base + n ==> r in seen
  {
    hide Word, Pow2;
    WordMask(seen, base, 32, n);
  }

  // ----- Messages

  /** pb_decode_tag on a stream with something left. */
  method DecodeTag(stream: IStream) returns (ok: bool, wireType: nat, tag: nat, eof: bool)
    requires stream.Valid() && stream.bytesLeft > 0
    modifies stream
    ensures stream.Valid() && stream.End() == old(stream.End())
    ensures match ReadTag(old(stream.Rest()))
            case TagFail => !ok && !eof
            case TagEnd(rest) => !ok && eof && stream.Rest() == rest
            case TagOk(t, w, rest) => ok && tag == t && wireType == w && stream.Rest() == rest
  {
    hide ReadVarint32;
    wireType, tag, eof := 0, 0, false;
    var temp;
    ok, temp := DecodeVarint32(stream);
    if !ok { return; }
    if temp == 0 { return false, 0, 0, true; }
    tag, wireType := temp / 8, temp % 8;
  }

  /** The bitmap stands for the required fields of the state. */
  ghost predicate Tracks(fields: seq<Field>, fieldsSeen: array<nat>, seen: set<nat>)
    reads fieldsSeen
  {
    && fieldsSeen.Length == 2
    && fieldsSeen[0] == Word(seen, 0, 32) && fieldsSeen[1] == Word(seen, 32, 32)
    && forall x :: x in seen ==> x < RequiredBefore(fields, |fields|)
  }

  /** The part of the loop of pb_decode_noinit for a field the iterator has found. */
  method DecodeKnown(stream: IStream, iter: FieldIter, wireType: nat, dest: Msg, fixed: Option<nat>, fixedCount: nat,
                     fieldsSeen: array<nat>, ghost st: State)
    returns (ok: bool, m: Msg, fixed': Option<nat>, fixedCount': nat, ghost st': State)
    requires stream.Valid() && iter.Valid() && iter.fields != [] && ValidSchema(iter.fields)
    requires Tracks(iter.fields, fieldsSeen, st.seen) && !st.ended
    requires st.m == dest && st.fixed == fixed && st.fixedCount == fixedCount
    requires fixed.Some? ==> fixed.value < |iter.fields|
    requires iter.pSize.Counter? ==> fixed == Some(iter.pos)
    modifies stream, fieldsSeen, iter`pSize
    ensures iter.Valid() && (ok && iter.pSize.Counter? ==> fixed' == Some(iter.pos))
    ensures stream.Valid() && stream.End() <= old(stream.End()) && (ok ==> stream.End() == old(stream.End()))
    ensures ok <==> DecodeRecord(iter.fields, iter.fields[iter.pos].tag, wireType, old(stream.Rest()), st).Ok?
    ensures ok ==> DecodeRecord(iter.fields, iter.fields[iter.pos].tag, wireType, old(stream.Rest()), st)
                   == Ok(st', stream.Rest())
    ensures ok ==> Tracks(iter.fields, fieldsSeen, st'.seen) && !st'.ended
    ensures ok ==> st'.m == m && st'.fixed == fixed' && st'.fixedCount == fixedCount'
    ensures ok && fixed'.Some? ==> fixed'.value < |iter.fields|
    decreases stream.bytesLeft, 4
  {
    hide DecodeField, ValidSchema, Find, DataPos, SizePos, RequiredBefore, Word, SetBit;
    var fields := iter.fields;
    var f := fields[iter.pos];
    FindAt(fields, iter.pos);
    SizeApart(fields, iter.pos);
    m, fixed', fixedCount', st' := dest, fixed, fixedCount, st;
    if f.htype.Repeated? && iter.pSize == Member(iter.pData) {
      if fixed != Some(iter.pos) {
        if fixed.Some? && fixedCount != fields[fixed.value].arraySize { return false, m, fixed', fixedCount', st'; }
        fixed', fixedCount' := Some(iter.pos), 0;
      }
      iter.pSize := Counter;
    }
    ghost var st1 := Arrive(fields, iter.pos, st).value;
    if f.htype.Required? && iter.requiredFieldIndex < PB_MAX_REQUIRED_FIELDS {
      var index := iter.requiredFieldIndex;
      MarkSeen(fields, iter.pos, st);
      fieldsSeen[index / 32] := SetBit(fieldsSeen[index / 32], index % 32);
    }
    ok, m, fixedCount' := DecStaticField(stream, iter, wireType, m, fixedCount', st1);
    st' := st1.(m := m, fixedCount := fixedCount');
  }

  lemma LoopStep(fields: seq<Field>, s: Bytes, st: State)
    requires s != [] && ReadTag(s).TagOk?
    ensures var r := DecodeRecord(fields, ReadTag(s).tag, ReadTag(s).wireType, ReadTag(s).rest, st);
            DecodeLoop(fields, s, st) == if r.Ok? then DecodeLoop(fields, r.rest, r.value) else Fail
  {
    hide DecodeRecord, ReadTag;
  }

  lemma LoopStop(fields: seq<Field>, s: Bytes, st: State)
    requires s == [] || !ReadTag(s).TagOk?
    ensures DecodeLoop(fields, s, st) == if s == [] then Ok(st, s) else if ReadTag(s).TagFail? then Fail
                                         else Ok(st.(ended := true), ReadTag(s).rest)
  {
    hide DecodeRecord, ReadTag;
  }

  lemma UnknownStep(fields: seq<Field>, tag: nat, wireType: nat, s: Bytes, st: State)
    requires Find(fields, tag) == |fields| && (fields != [] || tag != 0)
    ensures DecodeRecord(fields, tag, wireType, s, st)
            == if Skip(wireType, s).Some? then Ok(st, Skip(wireType, s).value) else Fail
  {
    hide Skip;
  }

  lemma TerminatorStep(wireType: nat, s: Bytes, st: State)
    ensures DecodeRecord([], 0, wireType, s, st)
            == if ReadVarint32(s).Ok? then Ok(st, ReadVarint32(s).rest) else Fail
  {
    hide ReadVarint32;
  }

  lemma LoopFails(fields: seq<Field>, s: Bytes, dest: Msg)
    ensures DecodeLoop(fields, s, Start(dest)).Fail? ==> Decode(fields, s, dest).Fail?
  {
    hide DecodeLoop;
  }

  /** The checks behind the loop. */
  lemma Finish(fields: seq<Field>, s: Bytes, dest: Msg, st: State, rest: Bytes)
    requires DecodeLoop(fields, s, Start(dest)) == Ok(st, rest)
    requires st.fixed.Some? ==> st.fixed.value < |fields|
    ensures Decode(fields, s, dest) ==
            if (st.fixed.Some? ==> st.fixedCount == fields[st.fixed.value].arraySize)
               && (forall r :: 0 <= r < RequiredBefore(fields, |fields|) && r < PB_MAX_REQUIRED_FIELDS ==> r in st.seen)
            then Ok(st.m, rest) else Fail
  {
    hide DecodeLoop, RequiredBefore;
  }

  /** The part of the loop for a tag that is not in the descriptors. The terminator of an empty
      message type matches tag 0 all the same: its type reads as a required bool. */
  method DecodeUnknown(stream: IStream, fields: seq<Field>, tag: nat, wireType: nat, found: bool, ghost st: State)
    returns (ok: bool)
    requires stream.Valid()
    requires found <==> fields == [] && tag == 0
    requires forall k :: 0 <= k < |fields| ==> fields[k].tag != tag
    modifies stream
    ensures stream.Valid() && stream.End() == old(stream.End())
    ensures ok <==> DecodeRecord(fields, tag, wireType, old(stream.Rest()), st).Ok?
    ensures ok ==> DecodeRecord(fields, tag, wireType, old(stream.Rest()), st) == Ok(st, stream.Rest())
  {
    hide Skip, Find, ReadVarint32, DecodeRecord;
    NotFound(fields, tag);
    if !found {
      UnknownStep(fields, tag, wireType, stream.Rest(), st);
      ok := SkipField(stream, wireType);
    } else {
      var ignored;
      TerminatorStep(wireType, stream.Rest(), st);
      ok, ignored := DecodeVarint32(stream);
    }
  }

  /** The part of the loop of pb_decode_noinit behind the tag. */
  method DecodeTagged(stream: IStream, iter: FieldIter, tag: nat, wireType: nat, dest: Msg, fixed: Option<nat>,
                      fixedCount: nat, fieldsSeen: array<nat>, ghost st: State)
    returns (ok: bool, m: Msg, fixed': Option<nat>, fixedCount': nat, ghost st': State)
    requires stream.Valid() && iter.Valid() && ValidSchema(iter.fields)
    requires Tracks(iter.fields, fieldsSeen, st.seen) && !st.ended
    requires st.m == dest && st.fixed == fixed && st.fixedCount == fixedCount
    requires fixed.Some? ==> fixed.value < |iter.fields|
    requires iter.pSize.Counter? ==> fixed == Some(iter.pos)
    modifies stream, iter, fieldsSeen
    ensures stream.Valid() && stream.End() <= old(stream.End()) && (ok ==> stream.End() == old(stream.End()))
    ensures ok <==> DecodeRecord(iter.fields, tag, wireType, old(stream.Rest()), st).Ok?
    ensures ok ==> DecodeRecord(iter.fields, tag, wireType, old(stream.Rest()), st) == Ok(st', stream.Rest())
    ensures iter.Valid()
    ensures ok ==> Tracks(iter.fields, fieldsSeen, st'.seen) && !st'.ended
    ensures ok ==> st'.m == m && st'.fixed == fixed' && st'.fixedCount == fixedCount'
    ensures ok && fixed'.Some? ==> fixed'.value < |iter.fields|
    ensures ok && iter.pSize.Counter? ==> fixed' == Some(iter.pos)
    decreases stream.bytesLeft, 5
  {
    hide DecodeRecord, ValidSchema, DataPos, SizePos, RequiredBefore, Tracks, Find;
    var found := iter.Find(tag);
    if !found || iter.fields == [] {
      m, fixed', fixedCount', st' := dest, fixed, fixedCount, st;
      ok := DecodeUnknown(stream, iter.fields, tag, wireType, found, st);
    } else {
      ok, m, fixed', fixedCount', st' := DecodeKnown(stream, iter, wireType, dest, fixed, fixedCount, fieldsSeen, st);
    }
  }

  /** pb_decode_noinit: fields are found wherever the iterator stands, unknown ones are skipped, and
      the required and fixed-count fields are checked at the end. */
  method DecodeNoinit(stream: IStream, fields: seq<Field>, dest: Msg) returns (ok: bool, m: Msg)
    requires stream.Valid() && ValidSchema(fields)
    modifies stream
    ensures stream.Valid() && stream.End() <= old(stream.End()) && (ok ==> stream.End() == old(stream.End()))
    ensures ok <==> Decode(fields, old(stream.Rest()), dest).Ok?
    ensures ok ==> Decode(fields, old(stream.Rest()), dest) == Ok(m, stream.Rest())
    decreases stream.bytesLeft, 6
  {
    hide ReadTag, DecodeLoop, DecodeRecord, Decode, Skip, ValidSchema, Find, DataPos, SizePos, RequiredBefore,
         ReadVarint32,
      Tracks, FixedFull, RequiredSeen, Arrive;
    ghost var s := stream.Rest();
    ghost var st := Start(dest);
    m := dest;
    var fieldsSeen := new nat[2](_ => 0);
    var fixed: Option<nat>, fixedCount: nat := None, 0;
    var iter := new FieldIter(fields);
    NoneSeen(fields, fieldsSeen);
    LoopFails(fields, s, dest);
    while stream.bytesLeft > 0
      invariant stream.Valid() && stream.End() == old(stream.End()) && stream.bytesLeft <= old(stream.bytesLeft)
      invariant iter.Valid() && iter.fields == fields && fresh(iter) && fresh(fieldsSeen)
      invariant Tracks(fields, fieldsSeen, st.seen) && !st.ended
      invariant st.m == m && st.fixed == fixed && st.fixedCount == fixedCount
      invariant fixed.Some? ==> fixed.value < |fields|
      invariant iter.pSize.Counter? ==> fixed == Some(iter.pos)
      invariant DecodeLoop(fields, s, Start(dest)) == DecodeLoop(fields, stream.Rest(), st)
      decreases stream.bytesLeft
    {
      var wireType, tag, eof;
      ghost var s1 := stream.Rest();
      ok, wireType, tag, eof := DecodeTag(stream);
      if !ok {
        LoopStop(fields, s1, st);
        if !eof { return; }
        st := st.(ended := true);
        LoopStop(fields, [], st);
        break;
      }
      LoopStep(fields, s1, st);
      ok, m, fixed, fixedCount, st := DecodeTagged(stream, iter, tag, wireType, m, fixed, fixedCount, fieldsSeen, st);
      if !ok { return; }
    }
    if !st.ended { LoopStop(fields, [], st); }
    Finish(fields, s, dest, st, stream.Rest());
    if fixed.Some? && fixedCount != fields[fixed.value].arraySize { return false, m; }
    var required := CountRequired(iter);
    ok := CheckRequired(fieldsSeen, required, fields, st.seen);
  }

  lemma NoneSeen(fields: seq<Field>, fieldsSeen: array<nat>)
    requires fieldsSeen.Length == 2 && fieldsSeen[0] == 0 && fieldsSeen[1] == 0
    ensures Tracks(fields, fieldsSeen, {})
  {
    WordMask({}, 0, 32, 0);
    WordMask({}, 32, 32, 0);
  }

  lemma NotFound(fields: seq<Field>, tag: nat)
    requires forall k :: 0 <= k < |fields| ==> fields[k].tag != tag
    ensures Find(fields, tag) == |fields|
  {
  }

  /** Marking field i keeps the bitmap in step with the state. */
  lemma MarkSeen(fields: seq<Field>, i: nat, st: State)
    requires i < |fields| && fields[i].htype.Required? && RequiredBefore(fields, i) < PB_MAX_REQUIRED_FIELDS
    requires forall x :: x in st.seen ==> x < RequiredBefore(fields, |fields|)
    ensures var index := RequiredBefore(fields, i);
            var seen := st.seen + {index};
            && (forall x :: x in seen ==> x < RequiredBefore(fields, |fields|))
            && (if index < 32 then Word(seen, 0, 32) == SetBit(Word(st.seen, 0, 32), index)
                                  && Word(seen, 32, 32) == Word(st.seen, 32, 32)
                else Word(seen, 32, 32) == SetBit(Word(st.seen, 32, 32), index - 32)
                     && Word(seen, 0, 32) == Word(st.seen, 0, 32))
  {
    hide Word, SetBit;
    var index := RequiredBefore(fields, i);
    RequiredDistinct(fields, i, |fields|);
    if index < 32 {
      SetBitAdds(st.seen, 0, index);
      WordOther(st.seen, 32, 32, index);
    } else {
      SetBitAdds(st.seen, 32, index - 32);
      WordOther(st.seen, 0, 32, index);
    }
  }

  /** The number of required fields, found by running the iterator from wherever it stands until it
      wraps around. */
  method CountRequired(iter: FieldIter) returns (required: nat)
    requires iter.Valid()
    modifies iter
    ensures required == RequiredBefore(iter.fields, |iter.fields|)
  {
    hide DataPos, SizePos;
    if iter.fields == [] { return 0; }
    required := 0;
    var lastRequired, more := false, true;
    while more
      invariant iter.Valid() && iter.pos < |iter.fields|
      invariant !more ==> required == RequiredBefore(iter.fields, |iter.fields| - 1)
                          && lastRequired == iter.fields[|iter.fields| - 1].htype.Required?
      decreases more, |iter.fields| - iter.pos
    {
      required := iter.requiredFieldIndex;
      lastRequired := iter.fields[iter.pos].htype.Required?;
      more := iter.Next();
    }
    if lastRequired { required := required + 1; }
  }

  /** pb_decode */
  method DecodeMessage(stream: IStream, fields: seq<Field>) returns (ok: bool, m: Msg)
    requires stream.Valid() && ValidSchema(fields)
    modifies stream
    ensures stream.Valid() && stream.End() <= old(stream.End()) && (ok ==> stream.End() == old(stream.End()))
    ensures ok <==> Decode(fields, old(stream.Rest()), Init(fields)).Ok?
    ensures ok ==> Decode(fields, old(stream.Rest()), Init(fields)) == Ok(m, stream.Rest())
    decreases stream.bytesLeft, 7
  {
    hide Decode, Init, ValidSchema;
    m := SetToDefaults(fields);
    ok, m := DecodeNoinit(stream, fields, m);
  }

  /** pb_decode_delimited */
  method DecodeDelimitedMessage(stream: IStream, fields: seq<Field>) returns (ok: bool, m: Msg)
    requires stream.Valid() && ValidSchema(fields)
    modifies stream
    ensures stream.Valid()
    ensures ok <==> DecodeDelimited(fields, old(stream.Rest())).Ok?
    ensures ok ==> DecodeDelimited(fields, old(stream.Rest())) == Ok(m, stream.Rest())
  {
    hide Decode, Init, ValidSchema, ReadString;
    m := map[];
    var sub;
    ok, sub := MakeSubstream(stream);
    if !ok { return; }
    ok, m := DecodeMessage(sub, fields);
    CloseSubstream(stream, sub);
  }
}

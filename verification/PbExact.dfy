/** What the readers accept and give, for all inputs: not only for what the encoder of this repository
    writes, but for every byte sequence another writer may send. */
module PbExact {
  import opened Arith
  import opened PbWire
  import opened PbCommon
  import opened PbFormat
  import opened PbEvolution

  // ----- Varints of any form

  /** One varint: the first byte without a continuation bit is the last one. */
  predicate Terminated(g: Bytes) {
    |g| > 0 && g[|g| - 1] < 128 && forall k :: 0 <= k < |g| - 1 ==> g[k] >= 128
  }

  predicate Endless(s: Bytes) { forall k :: 0 <= k < |s| ==> s[k] >= 128 }

  lemma LenOf(g: Bytes, rest: Bytes)
    requires Terminated(g)
    ensures VarintLen(g + rest) == |g| && (g + rest)[..|g|] == g && (g + rest)[|g|..] == rest
  {
    var n := VarintLen(g);
    assert g[|g| - 1] < 128 && n > 0;
    VarintLenLocal(g, rest);
  }

  lemma NoLen(s: Bytes)
    requires Endless(s)
    ensures VarintLen(s) == 0
  {
  }

  /** The 64-bit reader takes any varint of at most ten bytes, and nothing else. */
  lemma Varint64Exactly(g: Bytes, rest: Bytes)
    requires Terminated(g)
    ensures ReadVarint64(g + rest) == if |g| <= 10 then Ok(Base128(g) % U64, rest) else Fail
  {
    LenOf(g, rest);
  }

  lemma EndlessFails(s: Bytes)
    requires Endless(s)
    ensures ReadVarint64(s).Fail? && ReadVarint32(s).Fail? && Skip(PB_WT_VARINT, s).None?
  {
    NoLen(s);
  }

  /** A varint made k bytes longer than it needs to be. */
  function Padded(g: Bytes, k: nat): (r: Bytes)
    requires Terminated(g)
    ensures |r| == |g| + k
  {
    if k == 0 then g else g[..|g| - 1] + [g[|g| - 1] + 128] + seq(k - 1, _ => 128) + [0]
  }

  lemma PaddedTerminated(g: Bytes, k: nat)
    requires Terminated(g)
    ensures Terminated(Padded(g, k))
    ensures forall j :: 0 <= j < |g| ==> Padded(g, k)[j] % 128 == g[j] % 128
    ensures forall j :: |g| <= j < |g| + k ==> Padded(g, k)[j] % 128 == 0
  {
  }

  lemma {:induction false} SameDigits(x: Bytes, y: Bytes)
    requires |x| <= |y|
    requires forall j :: 0 <= j < |x| ==> x[j] % 128 == y[j] % 128
    requires forall j :: |x| <= j < |y| ==> y[j] % 128 == 0
    ensures Base128(x) == Base128(y)
    decreases |y|
  {
    if x != [] {
      SameDigits(x[1..], y[1..]);
    } else if y != [] {
      SameDigits([], y[1..]);
    }
  }

  /** Padding changes nothing for the 64-bit reader as long as ten bytes are not exceeded. */
  lemma PaddedVarint64(v: nat, k: nat, rest: Bytes)
    requires v < U64 && |Varint(v)| + k <= 10
    ensures Terminated(Varint(v))
    ensures ReadVarint64(Padded(Varint(v), k) + rest) == Ok(v, rest)
  {
    VarintTerminated(v);
    VarintParses(v);
    var g := Varint(v);
    PaddedTerminated(g, k);
    SameDigits(g, Padded(g, k));
    Varint64Exactly(Padded(g, k), rest);
    Mod64Small(v);
  }

  lemma VarintTerminated(v: nat)
    ensures Terminated(Varint(v))
  {
    VarintParses(v);
  }

  /** The 32-bit reader takes any number of trailing 0x80 bytes, as its comment says. */
  lemma PaddedVarint32(v: nat, k: nat, rest: Bytes)
    requires v < U32
    ensures Terminated(Varint(v))
    ensures ReadVarint32(Padded(Varint(v), k) + rest) == Ok(v, rest)
  {
    VarintTerminated(v);
    var g := Varint(v);
    if k == 0 {
      Varint32RoundTrip(v, rest);
    } else {
      VarintParses(v);
      Pow128Values();
      VarintSize(v, 5);
      var p := Padded(g, k);
      PaddedTerminated(g, k);
      LenOf(p, rest);
      FirstFive(g, p, v);
      HighBytesZero(g, p);
      assert |p| > 5 ==> (p + rest)[..5] == p[..5];
    }
  }

  lemma HighBytesZero(g: Bytes, p: Bytes)
    requires |g| <= 5 && |g| < |p| && Terminated(p)
    requires forall j :: |g| <= j < |p| ==> p[j] % 128 == 0
    ensures Fits32(p)
  {
    if |p| > 5 {
      forall j | 5 <= j < |p| ensures HighByteOk(p, j) {
      }
    }
  }

  lemma FirstFive(g: Bytes, p: Bytes, v: nat)
    requires |g| <= 5 && |g| <= |p| && Base128(g) == v < U32
    requires forall j :: 0 <= j < |g| ==> p[j] % 128 == g[j] % 128
    requires forall j :: |g| <= j < |p| ==> p[j] % 128 == 0
    ensures Base128(if |p| <= 5 then p else p[..5]) % U32 == v
  {
    SameDigits(g, if |p| <= 5 then p else p[..5]);
    DivUnique(v, U32, 0, v);
  }

  // ----- Scalars

  /** A cast is the only value in range with the same remainder. */
  lemma CastExactly(v: int, size: nat, i: int)
    requires size in {1, 2, 4, 8}
    ensures Cast(v, size) == i <==> SignedRange(i, size) && (v - i) % Modulus(size) == 0
  {
    var m := Modulus(size);
    var q, r := v / m, v % m;
    assert v == m * q + r;
    if SignedRange(i, size) && (v - i) % m == 0 {
      var q' := (v - i) / m;
      assert v - i == m * q';
      SameRemainder(m, q, r, q', i);
    }
    var c := Cast(v, size);
    assert (v - c) % m == 0 by { CastRemainder(v, m, q, r, c); }
  }

  lemma CastRemainder(v: int, m: nat, q: int, r: nat, c: int)
    requires m > 0 && v == m * q + r && (c == r || c == r - m)
    ensures (v - c) % m == 0
  {
    var k := if c == r then q else q + 1;
    Distribute(m, q, 1);
    assert v - c == m * k;
    ZeroMod(m, k);
  }

  lemma ZeroMod(m: nat, k: int)
    requires m > 0
    ensures (m * k) % m == 0
  {
    var q, r := (m * k) / m, (m * k) % m;
    assert m * k == m * q + r;
    Distribute(m, k, -q);
    assert m * (k - q) == r;
    if k - q >= 1 { AtLeast(m, k - q); assert false; }
    if k - q <= -1 { AtLeast(m, q - k); Distribute(m, k - q, q - k); assert false; }
  }

  lemma SameRemainder(m: nat, q: int, r: nat, q': int, i: int)
    requires m > 0 && m % 2 == 0 && m * q + r == m * q' + i && r < m && -(m / 2) <= i < m / 2
    ensures i == if r < m / 2 then r else r - m
  {
    Distribute(m, q, -q');
    assert m * (q - q') == i - r;
    var d := q - q';
    if d >= 1 { AtLeast(m, d); assert false; }
    if d <= -2 { Monotone(m, d, -2); assert false; }
    if d == -1 { assert i == r - m; } else { assert i == r; }
  }

  /** pb_dec_varint, for every varint: a field of at most 32 bits takes exactly the numbers it can hold that
      agree with the varint modulo 2^32, one of 64 bits modulo 2^64. */
  lemma VarintFieldExactly(f: Field, s: Bytes, v: nat, rest: Bytes, i: int)
    requires f.ltype.LVarint? && f.dataSize in {1, 2, 4, 8} && ReadVarint64(s) == Ok(v, rest)
    ensures DecodeScalar(f, s) == Ok(Int(i), rest)
            <==> SignedRange(i, f.dataSize) && (v - i) % (if f.dataSize == 8 then U64 else U32) == 0
    ensures DecodeScalar(f, s).Fail? || exists j :: DecodeScalar(f, s) == Ok(Int(j), rest)
  {
    hide ReadVarint64;
    var n := if f.dataSize == 8 then 8 else 4;
    CastExactly(v, n, i);
    InRange(Cast(v, n), f.dataSize);
  }

  /** Another writer's short form of a negative number, and the long one, are read alike. */
  lemma NegativeForms(f: Field, i: int, rest: Bytes)
    requires f.ltype.LVarint? && f.dataSize in {1, 2, 4} && i < 0 && SignedRange(i, f.dataSize)
    ensures DecodeScalar(f, Varint(i + U32) + rest) == Ok(Int(i), rest) && |Varint(i + U32)| == 5
    ensures DecodeScalar(f, Varint(i + U64) + rest) == Ok(Int(i), rest) && |Varint(i + U64)| == 10
  {
    hide DecodeScalar, ReadVarint64, Varint, Base128;
    Varint64RoundTrip(i + U32, rest);
    Varint64RoundTrip(i + U64, rest);
    VarintFieldExactly(f, Varint(i + U32) + rest, i + U32, rest, i);
    VarintFieldExactly(f, Varint(i + U64) + rest, i + U64, rest, i);
    Varint64Length(i + U64);
    Pow128Values();
    VarintSize(i + U32, 5);
    VarintSize(i + U32, 4);
  }

  /** pb_dec_uvarint: exactly the numbers the field can hold. */
  lemma UVarintFieldExactly(f: Field, s: Bytes, v: nat, rest: Bytes)
    requires f.ltype.LUVarint? && f.dataSize in {1, 2, 4, 8} && ReadVarint64(s) == Ok(v, rest)
    ensures DecodeScalar(f, s) == if v < Modulus(f.dataSize) then Ok(Int(v), rest) else Fail
  {
    hide ReadVarint64;
    var m := Modulus(f.dataSize);
    if v < m { DivUnique(v, m, 0, v); }
  }

  /** pb_dec_svarint: even numbers stand for the numbers from 0 up, odd ones for those from -1 down. */
  lemma SVarintFieldExactly(f: Field, s: Bytes, v: nat, rest: Bytes, i: int)
    requires f.ltype.LSVarint? && f.dataSize in {1, 2, 4, 8} && ReadVarint64(s) == Ok(v, rest)
    ensures DecodeScalar(f, s) == Ok(Int(i), rest)
            <==> SignedRange(i, f.dataSize) && v == if i >= 0 then 2 * i else -2 * i - 1
    ensures DecodeScalar(f, s).Fail? || exists j :: DecodeScalar(f, s) == Ok(Int(j), rest)
  {
    hide ReadVarint64, UnZigZag, Cast;
    SmallerThanU64(s);
    ZigZagIs(v);
    InRange(UnZigZag(v), f.dataSize);
  }

  lemma SmallerThanU64(s: Bytes)
    requires ReadVarint64(s).Ok?
    ensures ReadVarint64(s).value < U64 && ReadVarint64(s).value % U64 == ReadVarint64(s).value
  {
    Mod64Small(ReadVarint64(s).value);
  }

  lemma InRange(j: int, size: nat)
    requires size in {1, 2, 4, 8}
    ensures Cast(j, size) == j <==> SignedRange(j, size)
  {
    CastExactly(j, size, j);
    assert (j - j) % Modulus(size) == 0;
  }

  lemma ZigZagIs(v: nat)
    requires v < U64
    ensures UnZigZag(v) == if v % 2 == 0 then v / 2 else -(v / 2) - 1
  {
    if v % 2 == 1 {
      CastId(U64 - 1 - v / 2, -(v / 2) - 1);
    } else {
      CastId(v / 2, v / 2);
    }
  }

  /** pb_dec_bool: any number but zero is true. */
  lemma BoolFieldExactly(f: Field, s: Bytes, v: nat, rest: Bytes)
    requires f.ltype.LBool? && ReadVarint32(s) == Ok(v, rest)
    ensures DecodeScalar(f, s) == Ok(Int(if v == 0 then 0 else 1), rest)
  {
  }

  /** pb_dec_fixed32 and pb_dec_fixed64: any four or eight bytes are the encoding of what is read. */
  lemma FixedFieldExactly(f: Field, s: Bytes)
    requires f.ltype.LFixed32? || f.ltype.LFixed64?
    ensures var n := if f.ltype.LFixed32? then 4 else 8;
            if |s| < n then DecodeScalar(f, s).Fail?
            else exists v :: && 0 <= v < Pow256(n) && FixedBytes(v, n) == s[..n]
                             && DecodeScalar(f, s) == Ok(Int(v), s[n..])
  {
    var n := if f.ltype.LFixed32? then 4 else 8;
    if |s| >= n {
      BytesOfFixedValue(s[..n]);
      assert DecodeScalar(f, s) == Ok(Int(FixedValue(s[..n])), s[n..]);
    }
  }

  lemma {:induction false} BytesOfFixedValue(s: Bytes)
    ensures FixedValue(s) < Pow256(|s|) && FixedBytes(FixedValue(s), |s|) == s
  {
    if s != [] { BytesOfFixedValue(s[1..]); }
  }

  /** Little-endian: byte k holds the k-th group of eight bits. */
  lemma {:induction false} LittleEndian(v: nat, n: nat, k: nat)
    requires k < n
    ensures FixedBytes(v, n)[k] == Shifted(v, k) % 256
  {
    if k > 0 { LittleEndian(v / 256, n - 1, k - 1); }
  }

  function Shifted(v: nat, k: nat): nat { if k == 0 then v else Shifted(v / 256, k - 1) }

  /** Scalars fail when their varint does. */
  lemma ScalarNeedsVarint(f: Field, s: Bytes)
    requires f.ltype.LVarint? || f.ltype.LUVarint? || f.ltype.LSVarint? || f.ltype.LBool?
    ensures (if f.ltype.LBool? then ReadVarint32(s).Fail? else ReadVarint64(s).Fail?) ==> DecodeScalar(f, s).Fail?
  {
  }

  // ----- Length-delimited values

  /** pb_dec_bytes, pb_dec_string and pb_dec_fixed_length_bytes: exactly the lengths there is room for. */
  lemma BlobFieldExactly(f: Field, b: Bytes, rest: Bytes)
    requires f.ltype.LBytes? || f.ltype.LString? || f.ltype.LFixedLengthBytes?
    requires |b| < U32
    ensures DecodeBlob(f, LengthPrefixed(b) + rest) ==
            if f.ltype.LBytes? then
              if |b| <= PB_SIZE_MAX && |b| + BYTES_OFFSET <= f.dataSize then Ok(Blob(b), rest) else Fail
            else if f.ltype.LString? then if |b| < f.dataSize then Ok(Blob(b), rest) else Fail
            else if b == [] then Ok(ZeroValue(f), rest)
            else if |b| == f.dataSize <= PB_SIZE_MAX then Ok(Blob(b), rest)
            else Fail
  {
    hide Varint, ReadVarint32;
    LengthReads(b, rest);
    assert (b + rest)[..|b|] == b && (b + rest)[|b|..] == rest;
    if f.ltype.LFixedLengthBytes? { assert Inline([], f.dataSize) == ZeroValue(f).bytes; }
    assert b == [] ==> b + rest == rest;
  }

  lemma LengthReads(b: Bytes, rest: Bytes)
    requires |b| < U32
    ensures ReadVarint32(LengthPrefixed(b) + rest) == Ok(|b|, b + rest)
  {
    Mod64Small(|b|);
    Varint32RoundTrip(|b|, b + rest);
    assert LengthPrefixed(b) + rest == Varint(|b|) + (b + rest);
  }

  /** An announced length that the input does not have fails, in every length-delimited reader. */
  lemma TooShort(f: Field, n: nat, s: Bytes)
    requires |s| < n < U32
    ensures ReadString(Varint(n) + s).Fail? && Skip(PB_WT_STRING, Varint(n) + s).None?
    ensures f.ltype.LBytes? || f.ltype.LString? || f.ltype.LFixedLengthBytes? ==> DecodeBlob(f, Varint(n) + s).Fail?
  {
    hide Varint, ReadVarint32;
    Varint32RoundTrip(n, s);
  }

  // ----- Skipping

  /** pb_skip_field: what each wire type skips, whatever it contains; there is no other wire type. */
  lemma SkipsExactly(wireType: nat, g: Bytes, b: Bytes, rest: Bytes, s: Bytes)
    requires Terminated(g) && |b| < U32
    ensures Skip(PB_WT_VARINT, g + rest) == Some(rest)
    ensures Skip(PB_WT_64BIT, s) == if |s| < 8 then None else Some(s[8..])
    ensures Skip(PB_WT_32BIT, s) == if |s| < 4 then None else Some(s[4..])
    ensures Skip(PB_WT_STRING, LengthPrefixed(b) + rest) == Some(rest)
    ensures wireType !in {PB_WT_VARINT, PB_WT_64BIT, PB_WT_32BIT, PB_WT_STRING} ==> Skip(wireType, s).None?
  {
    LenOf(g, rest);
    StringRoundTrip(b, rest);
  }
}

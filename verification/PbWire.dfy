/** Byte-level encodings shared by pb_encode.c and pb_decode.c: base-128 varints, zigzag and
    fixed-width integers, stated on sequences of bytes. Shifts and masks of the C code appear as
    multiplication, division and remainder by powers of two; 32- and 64-bit wrap-around is written
    out as `% U32` and `% U64`. */
module PbWire {
  type byte = b: int | 0 <= b < 256
  type Bytes = seq<byte>

  const U31: int := 0x8000_0000
  const U32: int := 0x1_0000_0000
  const U63: int := 0x8000_0000_0000_0000
  const U64: int := 0x1_0000_0000_0000_0000

  /** The outcome of reading from the front of a stream: the value and the bytes that are left. */
  datatype Read<+T> = Fail | Ok(value: T, rest: Bytes) {
    predicate IsFailure() { Fail? }
    function PropagateFailure<U>(): Read<U> requires Fail? { Fail }
    function Extract(): (T, Bytes) requires Ok? { (value, rest) }
  }

  datatype Option<+T> = None | Some(value: T) {
    predicate IsFailure() { None? }
    function PropagateFailure<U>(): Option<U> requires None? { None }
    function Extract(): T requires Some? { value }
  }

  // ----- Base 128 varints

  /** The number of bytes of the varint at the front of `s`, up to and including the first byte
      with a clear continuation bit; 0 when no byte of `s` ends it. */
  function VarintLen(s: Bytes): (n: nat)
    ensures n <= |s|
    ensures n > 0 ==> s[n - 1] < 128 && forall k :: 0 <= k < n - 1 ==> s[k] >= 128
    ensures n == 0 ==> forall k :: 0 <= k < |s| ==> s[k] >= 128
  {
    if s == [] then 0
    else if s[0] < 128 then 1
    else
      var n := VarintLen(s[1..]);
      if n == 0 then 0 else n + 1
  }

  /** Seven bits per byte, least significant group first. */
  function Base128(g: Bytes): nat {
    if g == [] then 0 else g[0] % 128 + 128 * Base128(g[1..])
  }

  function Pow128(k: nat): (p: nat)
    ensures p > 0
  {
    if k == 0 then 1 else 128 * Pow128(k - 1)
  }

  /** pb_decode_varint: at most ten bytes, bits above 63 are lost. */
  function ReadVarint64(s: Bytes): (r: Read<nat>)
    ensures r.Ok? ==> |r.rest| < |s|
  {
    var n := VarintLen(s);
    if n == 0 || n > 10 then Fail else Ok(Base128(s[..n]) % U64, s[n..])
  }

  /** The byte that a sign-extended negative 32-bit number has at index `k >= 5` of its varint. */
  function SignExtension(k: nat): byte { if k < 9 then 0xFF else 0x01 }

  /** What pb_decode_varint32_eof accepts: bits above 31 must be zero, or ones when bit 31 is set.
      The high bits of a fifth byte are looked at only when that byte is the last one. */
  predicate Fits32(g: Bytes) {
    || |g| <= 4
    || (|g| == 5 && g[4] < 16)
    || (|g| > 5 && forall k :: 5 <= k < |g| ==> HighByteOk(g, k))
  }

  predicate HighByteOk(g: Bytes, k: nat)
    requires |g| > 5 && 5 <= k < |g|
  {
    g[k] % 128 == 0 || (Base128(g[..5]) % U32 >= U31 && g[k] == SignExtension(k))
  }

  /** pb_decode_varint32. */
  function ReadVarint32(s: Bytes): (r: Read<nat>)
    ensures r.Ok? ==> |r.rest| < |s| && r.value < U32
  {
    var n := VarintLen(s);
    if n == 0 || !Fits32(s[..n]) then Fail
    else Ok(Base128(if n <= 5 then s[..n] else s[..5]) % U32, s[n..])
  }

  /** pb_encode_varint. */
  function Varint(v: nat): (s: Bytes)
    ensures |s| >= 1
  {
    if v < 128 then [v] else [v % 128 + 128] + Varint(v / 128)
  }

  lemma {:induction false} Base128Append(g: Bytes, b: byte)
    ensures Base128(g + [b]) == Base128(g) + (b % 128) * Pow128(|g|)
  {
    if g == [] {
      assert g + [b] == [b];
      assert Base128([b][1..]) == 0;
    } else {
      Base128Append(g[1..], b);
      assert (g + [b])[1..] == g[1..] + [b];
      var d, p: nat := b % 128, Pow128(|g| - 1);
      assert d * (128 * p) == 128 * (d * p);
    }
  }

  lemma {:induction false} Base128Bound(g: Bytes)
    ensures Base128(g) < Pow128(|g|)
  {
    if g != [] { Base128Bound(g[1..]); }
  }

  /** The first varint of a stream does not depend on what follows it. */
  lemma {:induction false} VarintLenLocal(x: Bytes, y: Bytes)
    requires VarintLen(x) > 0
    ensures VarintLen(x + y) == VarintLen(x)
  {
    assert (x + y)[0] == x[0];
    if x[0] >= 128 {
      VarintLenLocal(x[1..], y);
      assert (x + y)[1..] == x[1..] + y;
    }
  }

  lemma ReadVarint64Local(x: Bytes, y: Bytes)
    requires ReadVarint64(x).Ok?
    ensures ReadVarint64(x + y) == Ok(ReadVarint64(x).value, ReadVarint64(x).rest + y)
  {
    VarintLenLocal(x, y);
    var n := VarintLen(x);
    assert (x + y)[..n] == x[..n];
    assert (x + y)[n..] == x[n..] + y;
  }

  lemma ReadVarint32Local(x: Bytes, y: Bytes)
    requires ReadVarint32(x).Ok?
    ensures ReadVarint32(x + y) == Ok(ReadVarint32(x).value, ReadVarint32(x).rest + y)
  {
    VarintLenLocal(x, y);
    var n := VarintLen(x);
    assert (x + y)[..n] == x[..n];
    assert n > 5 ==> (x + y)[..5] == x[..5];
    assert (x + y)[n..] == x[n..] + y;
  }

  /** A varint is self-delimiting and denotes the value it was made from. */
  lemma {:induction false} VarintParses(v: nat)
    ensures VarintLen(Varint(v)) == |Varint(v)|
    ensures Base128(Varint(v)) == v
  {
    if v < 128 {
      assert Varint(v)[1..] == [];
    } else {
      VarintParses(v / 128);
      assert Varint(v)[1..] == Varint(v / 128);
    }
  }

  /** The varint of v takes k bytes exactly when v needs k groups of seven bits. */
  lemma {:induction false} VarintSize(v: nat, k: nat)
    requires k >= 1
    ensures |Varint(v)| <= k <==> v < Pow128(k)
  {
    if v >= 128 {
      if k == 1 {
        assert Pow128(1) == 128 * Pow128(0);
      } else {
        VarintSize(v / 128, k - 1);
        assert Pow128(k) == 128 * Pow128(k - 1);
      }
    } else {
      Pow128Monotonic(1, k);
      assert Pow128(1) == 128 * Pow128(0);
    }
  }

  lemma {:induction false} Pow128Monotonic(j: nat, k: nat)
    requires j <= k
    ensures Pow128(j) <= Pow128(k)
  {
    if j < k { Pow128Monotonic(j, k - 1); }
  }

  lemma Pow128Values()
    ensures Pow128(4) == 0x1000_0000
    ensures Pow128(5) == 0x8_0000_0000
    ensures Pow128(9) == U63
    ensures Pow128(10) > U64
  {
    assert Pow128(1) == 128;
    assert Pow128(2) == 0x4000;
    assert Pow128(3) == 0x20_0000;
    assert Pow128(4) == 0x1000_0000;
    assert Pow128(5) == 0x8_0000_0000;
    assert Pow128(6) == 0x400_0000_0000;
    assert Pow128(7) == 0x2_0000_0000_0000;
    assert Pow128(8) == 0x100_0000_0000_0000;
  }

  lemma Varint64Length(v: nat)
    requires v < U64
    ensures |Varint(v)| <= 10
    ensures |Varint(v)| == 10 <==> v >= U63
  {
    Pow128Values();
    VarintSize(v, 10);
    VarintSize(v, 9);
  }

  lemma Mod64Small(v: nat)
    requires v < U64
    ensures v % U64 == v
  {
  }

  /** Every 64-bit value survives pb_encode_varint followed by pb_decode_varint, whatever follows. */
  lemma Varint64RoundTrip(v: nat, rest: Bytes)
    requires v < U64
    ensures ReadVarint64(Varint(v) + rest) == Ok(v, rest)
  {
    VarintParses(v);
    Varint64Length(v);
    Mod64Small(v);
    var s := Varint(v);
    assert s[..|s|] == s;
    ReadVarint64Local(s, rest);
    assert s[|s|..] + rest == rest;
  }

  // ----- pb_decode_varint32 against pb_decode_varint

  lemma {:induction false} Base128Split(g: Bytes, k: nat)
    requires k <= |g|
    ensures Base128(g) == Base128(g[..k]) + Pow128(k) * Base128(g[k..])
  {
    if k == 0 {
      assert g[..0] == [] && g[0..] == g;
    } else {
      Base128Split(g[1..], k - 1);
      Base128Step(g);
      Base128Step(g[..k]);
      hide Base128;
      assert g[..k][1..] == g[1..][..k - 1];
      assert g[k..] == g[1..][k - 1..];
      MulAssoc(128, Pow128(k - 1), Base128(g[k..]));
    }
  }

  lemma Base128Step(g: Bytes)
    requires |g| > 0
    ensures Base128(g) == g[0] % 128 + 128 * Base128(g[1..])
  {
  }

  lemma MulAssoc(a: int, b: int, c: int)
    ensures a * (b * c) == (a * b) * c
  {
  }

  lemma LowBits(a: nat, q: nat)
    ensures (a + 0x8_0000_0000 * q) % U32 == a % U32
  {
    var x, r := a / U32, a % U32;
    ModUnique(x + 8 * q, r);
    assert a + 0x8_0000_0000 * q == U32 * (x + 8 * q) + r;
  }

  lemma ModUnique(x: int, r: int)
    requires 0 <= r < U32
    ensures (U32 * x + r) % U32 == r
  {
  }

  lemma Mod64Mod32(v: nat)
    ensures v % U64 % U32 == v % U32
  {
  }

  /** When the 32-bit reader accepts a varint of at most ten bytes, the 64-bit reader accepts it,
      stops at the same place, and its low 32 bits are the 32-bit result. */
  lemma Varint32Refines64(s: Bytes)
    requires VarintLen(s) <= 10
    requires ReadVarint32(s).Ok?
    ensures ReadVarint64(s).Ok?
    ensures ReadVarint64(s).rest == ReadVarint32(s).rest
    ensures ReadVarint32(s).value == ReadVarint64(s).value % U32
  {
    var n := VarintLen(s);
    var g := s[..n];
    Mod64Mod32(Base128(g));
    if n > 5 {
      Base128Split(g, 5);
      Pow128Values();
      assert g[..5] == s[..5];
      LowBits(Base128(g[..5]), Base128(g[5..]));
    }
  }

  /** Group k of seven bits of v. */
  function Digit(v: nat, k: nat): (d: nat)
    ensures d < 128
  {
    if k == 0 then v % 128 else Digit(v / 128, k - 1)
  }

  lemma {:induction false} VarintDigit(v: nat, k: nat)
    requires k < |Varint(v)|
    ensures Varint(v)[k] == Digit(v, k) + (if k < |Varint(v)| - 1 then 128 else 0)
    ensures k == |Varint(v)| - 1 && k > 0 ==> Digit(v, k) > 0
  {
    if k > 0 { VarintDigit(v / 128, k - 1); }
  }

  /** Which 64-bit values pb_decode_varint32 accepts in their canonical encoding: those of 32 bits,
      and the negative ones with bit 31 set whose groups 5 to 8 are each all zeros or all ones. */
  predicate Accepted32(v: nat) {
    || v < U32
    || (v >= U63 && v % U32 >= U31 && forall k :: 5 <= k <= 8 ==> Digit(v, k) in {0, 127})
  }

  lemma Varint32Low(v: nat)
    requires |Varint(v)| > 5
    ensures Base128(Varint(v)[..5]) % U32 == v % U32
  {
    VarintParses(v);
    Base128Split(Varint(v), 5);
    Pow128Values();
    LowBits(Base128(Varint(v)[..5]), Base128(Varint(v)[5..]));
  }

  lemma {:induction false} TopDigit(v: nat, k: nat)
    requires v < 2 * Pow128(k)
    ensures Digit(v, k) <= 1
  {
    if k > 0 {
      assert Pow128(k) == 128 * Pow128(k - 1);
      TopDigit(v / 128, k - 1);
    }
  }

  lemma FitsLong(v: nat)
    requires v < U64
    requires |Varint(v)| > 5
    ensures Fits32(Varint(v)) <==> Accepted32(v)
  {
    var g := Varint(v);
    var n := |g|;
    Varint64Length(v);
    Pow128Values();
    VarintSize(v, 5);
    Varint32Low(v);
    forall k | 5 <= k < n
      ensures g[k] == Digit(v, k) + (if k < n - 1 then 128 else 0)
      ensures k == n - 1 ==> Digit(v, k) > 0
    {
      VarintDigit(v, k);
    }
    if Fits32(g) {
      assert HighByteOk(g, n - 1);
      assert g[n - 1] == SignExtension(n - 1);
      assert n == 10;
      forall k | 5 <= k <= 8
        ensures Digit(v, k) in {0, 127}
      {
        assert HighByteOk(g, k);
      }
    }
    if Accepted32(v) {
      TopDigit(v, 9);
      forall k | 5 <= k < n
        ensures HighByteOk(g, k)
      {
      }
    }
  }

  lemma FitsFive(v: nat)
    requires |Varint(v)| == 5
    ensures Varint(v)[4] == v / 0x1000_0000
  {
    var g := Varint(v);
    VarintParses(v);
    Base128Split(g, 4);
    Base128Bound(g[..4]);
    Pow128Values();
    assert g[4..] == [g[4]] && [g[4]][1..] == [];
    VarintDigit(v, 4);
    DivDigit(v, Base128(g[..4]), g[4]);
  }

  lemma DivDigit(v: nat, low: nat, top: nat)
    requires v == low + 0x1000_0000 * top && low < 0x1000_0000
    ensures v / 0x1000_0000 == top
  {
  }

  lemma FitsCanonical(v: nat)
    requires v < U64
    ensures Fits32(Varint(v)) <==> Accepted32(v)
  {
    Pow128Values();
    VarintSize(v, 4);
    VarintSize(v, 5);
    if |Varint(v)| == 5 {
      FitsFive(v);
    } else if |Varint(v)| > 5 {
      FitsLong(v);
    }
  }

  /** The exact set of values whose canonical varint the 32-bit reader accepts. */
  lemma Varint32Accepts(v: nat, rest: Bytes)
    requires v < U64
    ensures ReadVarint32(Varint(v) + rest).Ok? <==> Accepted32(v)
    ensures Accepted32(v) ==> ReadVarint32(Varint(v) + rest) == Ok(v % U32, rest)
  {
    hide Varint, VarintLen, Base128, Fits32, Accepted32;
    var s := Varint(v);
    var n := |s|;
    VarintParses(v);
    VarintLenLocal(s, rest);
    assert (s + rest)[..n] == s;
    assert (s + rest)[n..] == rest;
    FitsCanonical(v);
    if n > 5 {
      Varint32Low(v);
      assert (s + rest)[..5] == s[..5];
    }
  }

  lemma Varint32RoundTrip(v: nat, rest: Bytes)
    requires v < U32
    ensures ReadVarint32(Varint(v) + rest) == Ok(v, rest)
  {
    ModUnique(0, v);
    Varint32Accepts(v, rest);
  }

  lemma {:induction false} DigitOf(v: nat, k: nat, q: nat, r: nat)
    requires v == Pow128(k) * q + r && r < Pow128(k)
    ensures Digit(v, k) == q % 128
  {
    if k > 0 {
      MulAssoc(128, Pow128(k - 1), q);
      DigitOf(v / 128, k - 1, q, r / 128);
    }
  }

  /** Negative int32 values, sign-extended to 64 bits, are accepted; values between 2^32 and 2^63
      are not. */
  lemma Varint32Signed(v: nat)
    ensures U64 - U31 <= v < U64 ==> Accepted32(v)
    ensures U32 <= v < U63 ==> !Accepted32(v)
  {
    if U64 - U31 <= v < U64 {
      Pow128Values();
      assert Pow128(6) == 0x400_0000_0000;
      assert Pow128(7) == 0x2_0000_0000_0000;
      assert Pow128(8) == 0x100_0000_0000_0000;
      DigitOf(v, 5, v / 0x8_0000_0000, v % 0x8_0000_0000);
      DigitOf(v, 6, v / 0x400_0000_0000, v % 0x400_0000_0000);
      DigitOf(v, 7, v / 0x2_0000_0000_0000, v % 0x2_0000_0000_0000);
      DigitOf(v, 8, v / 0x100_0000_0000_0000, v % 0x100_0000_0000_0000);
    }
  }

  /** The reader takes more than the 32-bit values and the sign-extended negative ones: the varint of
      2^63 + 2^31 is far from both and read as 2^31. */
  lemma Varint32TakesMore(rest: Bytes)
    ensures var v := U63 + U31;
            && U32 <= v < U64 - U31 && Accepted32(v)
            && ReadVarint32(Varint(v) + rest) == Ok(U31, rest)
  {
    hide Varint, ReadVarint32;
    var v := U63 + U31;
    Pow128Values();
    assert Pow128(6) == 0x400_0000_0000;
    assert Pow128(7) == 0x2_0000_0000_0000;
    assert Pow128(8) == 0x100_0000_0000_0000;
    DigitOf(v, 5, v / 0x8_0000_0000, v % 0x8_0000_0000);
    DigitOf(v, 6, v / 0x400_0000_0000, v % 0x400_0000_0000);
    DigitOf(v, 7, v / 0x2_0000_0000_0000, v % 0x2_0000_0000_0000);
    DigitOf(v, 8, v / 0x100_0000_0000_0000, v % 0x100_0000_0000_0000);
    Varint32Accepts(v, rest);
  }

  // ----- Two's complement casts and zigzag

  /** The unsigned 64-bit pattern of a signed value. */
  function AsUnsigned(i: int): nat
    requires -U63 <= i < U63
  {
    if i < 0 then i + U64 else i
  }

  /** The C cast of an unsigned pattern to a signed integer of `size` bytes. */
  function Cast(v: int, size: nat): (i: int)
    requires size in {1, 2, 4, 8}
    ensures SignedRange(i, size)
  {
    var m := Modulus(size);
    var r := v % m;
    if r < m / 2 then r else r - m
  }

  function Modulus(size: nat): (m: nat)
    requires size in {1, 2, 4, 8}
  {
    if size == 1 then 0x100 else if size == 2 then 0x1_0000 else if size == 4 then U32 else U64
  }

  predicate SignedRange(i: int, size: nat)
    requires size in {1, 2, 4, 8}
  {
    -(Modulus(size) / 2) <= i < Modulus(size) / 2
  }

  /** pb_encode_svarint: the complement of twice a negative value, twice a non-negative one. */
  function ZigZag(i: int): nat
    requires -U63 <= i < U63
  {
    if i < 0 then U64 - 1 - (2 * i) % U64 else 2 * i
  }

  /** pb_decode_svarint. */
  function UnZigZag(v: nat): int
    requires v < U64
  {
    if v % 2 == 1 then Cast(U64 - 1 - v / 2, 8) else Cast(v / 2, 8)
  }

  lemma CastId(v: int, i: int)
    requires -U63 <= i < U63
    requires v == AsUnsigned(i)
    ensures Cast(v, 8) == i
  {
  }

  /** Zigzag is a bijection between the signed and the unsigned 64-bit integers, the minimum
      included: both compositions are the identity. */
  lemma UnZigZagOfZigZag(i: int)
    requires -U63 <= i < U63
    ensures ZigZag(i) < U64 && UnZigZag(ZigZag(i)) == i
  {
    hide Cast;
    if i < 0 {
      assert (2 * i) % U64 == 2 * i + U64;
      assert ZigZag(i) == 2 * (-i - 1) + 1;
      assert ZigZag(i) / 2 == -i - 1;
      CastId(U64 - 1 - (-i - 1), i);
    } else {
      CastId(i, i);
    }
  }

  lemma ZigZagOfUnZigZag(v: nat)
    requires v < U64
    ensures -U63 <= UnZigZag(v) < U63 && ZigZag(UnZigZag(v)) == v
  {
    var h := v / 2;
    if v % 2 == 1 {
      CastId(U64 - 1 - h, -h - 1);
      assert (2 * (-h - 1)) % U64 == 2 * (-h - 1) + U64;
    } else {
      CastId(h, h);
    }
  }

  // ----- Fixed-width little-endian integers

  function FixedBytes(v: nat, n: nat): (s: Bytes)
    ensures |s| == n
  {
    if n == 0 then [] else [v % 256] + FixedBytes(v / 256, n - 1)
  }

  function FixedValue(s: Bytes): nat {
    if s == [] then 0 else s[0] + 256 * FixedValue(s[1..])
  }

  function Pow256(k: nat): nat {
    if k == 0 then 1 else 256 * Pow256(k - 1)
  }

  /** pb_decode_fixed32 and pb_decode_fixed64, for n == 4 and n == 8. */
  function ReadFixed(s: Bytes, n: nat): (r: Read<nat>)
    ensures r.Ok? ==> |r.rest| == |s| - n
  {
    if |s| < n then Fail else Ok(FixedValue(s[..n]), s[n..])
  }

  lemma {:induction false} FixedValueOfBytes(v: nat, n: nat)
    requires v < Pow256(n)
    ensures FixedValue(FixedBytes(v, n)) == v
  {
    if n > 0 {
      FixedValueOfBytes(v / 256, n - 1);
      assert FixedBytes(v, n)[1..] == FixedBytes(v / 256, n - 1);
    }
  }

  lemma FixedRoundTrip(v: nat, n: nat, rest: Bytes)
    requires v < Pow256(n)
    ensures ReadFixed(FixedBytes(v, n) + rest, n) == Ok(v, rest)
  {
    FixedValueOfBytes(v, n);
    var s := FixedBytes(v, n) + rest;
    assert s[..n] == FixedBytes(v, n);
    assert s[n..] == rest;
  }

  lemma Pow256Values()
    ensures Pow256(4) == U32 && Pow256(8) == U64
  {
    assert Pow256(2) == 0x1_0000;
    assert Pow256(6) == 0x1_0000_0000_0000;
  }
}

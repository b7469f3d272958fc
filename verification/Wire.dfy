/**
 * Bytes, base 128 varints, tags and length prefixes.
 *
 * The functions follow the Protocol Buffers "Encoding" document, section "Base 128 Varints".
 * The methods are the library's readers and writers, which accumulate with wrapping unsigned
 * arithmetic and leave each continuation bit to be cancelled by the next byte; they are proved
 * to compute the functions.
 */
module Wire {
  import opened Wrappers

  newtype Byte = b: int | 0 <= b < 256
  type Bytes = seq<Byte>

  const UINT32_LIMIT: int := 0x1_0000_0000
  const UINT64_LIMIT: int := 0x1_0000_0000_0000_0000
  /** INT_MAX - kSlopBytes, the largest length prefix the parser accepts. */
  const MAX_LENGTH: int := 0x7FFF_FFEF

  type UInt32 = v: int | 0 <= v < UINT32_LIMIT
  type UInt64 = v: int | 0 <= v < UINT64_LIMIT
  type Int32 = v: int | -0x8000_0000 <= v < 0x8000_0000

  // ---------------------------------------------------------------- the standard's varints

  function Pow128(n: nat): (p: nat)
    ensures p >= 1
  {
    if n == 0 then 1 else 128 * Pow128(n - 1)
  }

  /** The number a group of varint bytes stands for: seven bits a byte, least significant first. */
  function Payload(s: Bytes): nat {
    if s == [] then 0 else s[0] as int % 128 + 128 * Payload(s[1..])
  }

  /** How many bytes the varint at the front of `s` has, if it ends within `limit` bytes. */
  function VarintLength(s: Bytes, limit: nat): (r: Option<nat>)
    ensures r.Some? ==> 1 <= r.value <= |s| && r.value <= limit && s[r.value - 1] < 128
    ensures r.Some? ==> forall i :: 0 <= i < r.value - 1 ==> s[i] >= 128
    ensures r.None? ==> forall i :: 0 <= i < |s| && i < limit ==> s[i] >= 128
  {
    if s == [] || limit == 0 then None
    else if s[0] < 128 then Some(1)
    else
      match VarintLength(s[1..], limit - 1)
      case None => None
      case Some(n) => Some(n + 1)
  }

  function EncodeVarint(v: nat): (s: Bytes)
    ensures |s| >= 1
  {
    if v < 128 then [v as Byte] else [(v % 128 + 128) as Byte] + EncodeVarint(v / 128)
  }

  /** A 64-bit varint: at most ten bytes, high bits dropped. */
  function Varint64(s: Bytes): (r: Read<UInt64>)
    ensures r.Got? ==> 1 <= r.size <= |s|
  {
    match VarintLength(s, 10)
    case None => Bad
    case Some(n) => Got(Payload(s[..n]) % UINT64_LIMIT, n)
  }

  /** A tag: at most five bytes, kept modulo 2^32. */
  function Tag(s: Bytes): (r: Read<UInt32>)
    ensures r.Got? ==> 1 <= r.size <= |s|
  {
    match VarintLength(s, 5)
    case None => Bad
    case Some(n) => Got(Payload(s[..n]) % UINT32_LIMIT, n)
  }

  /** A length prefix: at most five bytes and at most MAX_LENGTH. */
  function Length(s: Bytes): (r: Read<nat>)
    ensures r.Got? ==> 1 <= r.size <= |s| && r.value <= MAX_LENGTH
  {
    match VarintLength(s, 5)
    case None => Bad
    case Some(n) => if Payload(s[..n]) <= MAX_LENGTH then Got(Payload(s[..n]), n) else Bad
  }

  lemma {:induction false} PayloadSnoc(s: Bytes, b: Byte)
    ensures Payload(s + [b]) == Payload(s) + b as int % 128 * Pow128(|s|)
  {
    if s == [] {
      assert Payload([b][1..]) == 0;
      assert s + [b] == [b];
    } else {
      assert (s + [b])[1..] == s[1..] + [b];
      PayloadSnoc(s[1..], b);
      var k, p := b as int % 128, Pow128(|s| - 1);
      assert 128 * (k * p) == k * (128 * p);
    }
  }

  lemma FirstByte(s: Bytes)
    requires s != []
    ensures Payload(s[..1]) == s[0] as int % 128
  {
    assert s[..1][1..] == [];
  }

  lemma {:induction false} PayloadBound(s: Bytes)
    ensures Payload(s) < Pow128(|s|)
  {
    if s != [] {
      PayloadBound(s[1..]);
    }
  }

  /** One unfolding: a first byte that continues leaves the rest to decide. */
  lemma UnfoldVarint(s: Bytes, limit: nat)
    requires s != [] && limit > 0
    ensures s[0] < 128 ==> VarintLength(s, limit) == Some(1)
    ensures s[0] >= 128 ==>
              VarintLength(s, limit)
              == match VarintLength(s[1..], limit - 1) { case None => None case Some(n) => Some(n + 1) }
  {
  }

  lemma {:induction false} VarintLengthIgnoresSuffix(s: Bytes, t: Bytes, limit: nat)
    requires VarintLength(s, limit).Some?
    ensures VarintLength(s + t, limit) == VarintLength(s, limit)
    decreases |s|
  {
    hide VarintLength;
    UnfoldVarint(s, limit);
    UnfoldVarint(s + t, limit);
    if s[0] >= 128 {
      assert (s + t)[1..] == s[1..] + t;
      VarintLengthIgnoresSuffix(s[1..], t, limit - 1);
    }
  }

  lemma {:induction false} EncodedPayload(v: nat)
    ensures Payload(EncodeVarint(v)) == v
  {
    var e := EncodeVarint(v);
    if v < 128 {
      assert Payload(e[1..]) == 0;
    } else {
      EncodedPayload(v / 128);
      assert e[1..] == EncodeVarint(v / 128);
      assert e[0] as int % 128 == v % 128;
    }
  }

  /** An encoded number is recognized with its length, whatever follows it. */
  lemma {:induction false} EncodedVarint(v: nat, t: Bytes, limit: nat)
    requires limit > 0 && v < Pow128(limit)
    ensures |EncodeVarint(v)| <= limit
    ensures VarintLength(EncodeVarint(v) + t, limit) == Some(|EncodeVarint(v)|)
    ensures (EncodeVarint(v) + t)[..|EncodeVarint(v)|] == EncodeVarint(v)
    decreases v
  {
    if v >= 128 {
      var e := EncodeVarint(v);
      EncodedVarint(v / 128, t, limit - 1);
      assert e[1..] == EncodeVarint(v / 128);
      assert (e + t)[1..] == EncodeVarint(v / 128) + t;
      UnfoldVarint(e + t, limit);
    }
  }

  lemma Powers()
    ensures Pow128(0) == 1 && Pow128(1) == 0x80 && Pow128(2) == 0x4000 && Pow128(3) == 0x20_0000
    ensures Pow128(4) == 0x1000_0000
    ensures Pow128(5) == 0x8_0000_0000 && Pow128(9) == 0x8000_0000_0000_0000 && Pow128(10) >= UINT64_LIMIT
  {
    assert Pow128(1) == 128 && Pow128(2) == 128 * Pow128(1) && Pow128(3) == 128 * Pow128(2);
    assert Pow128(4) == 128 * Pow128(3) && Pow128(5) == 128 * Pow128(4) && Pow128(6) == 128 * Pow128(5);
    assert Pow128(7) == 128 * Pow128(6) && Pow128(8) == 128 * Pow128(7) && Pow128(9) == 128 * Pow128(8);
    assert Pow128(10) == 128 * Pow128(9);
  }

  /** Every 64-bit value survives the wire, whatever follows it. */
  lemma Varint64RoundTrip(v: UInt64, t: Bytes)
    ensures Varint64(EncodeVarint(v) + t) == Got(v, |EncodeVarint(v)|)
  {
    hide EncodeVarint, VarintLength, Payload;
    Powers();
    EncodedVarint(v, t, 10);
    EncodedPayload(v);
  }

  /** Every 32-bit tag survives the wire. */
  lemma TagRoundTrip(v: UInt32, t: Bytes)
    ensures Tag(EncodeVarint(v) + t) == Got(v, |EncodeVarint(v)|)
  {
    hide EncodeVarint, VarintLength, Payload;
    Powers();
    EncodedVarint(v, t, 5);
    EncodedPayload(v);
  }

  /** Every accepted length survives the wire. */
  lemma LengthRoundTrip(v: nat, t: Bytes)
    requires v <= MAX_LENGTH
    ensures Length(EncodeVarint(v) + t) == Got(v, |EncodeVarint(v)|)
  {
    hide EncodeVarint, VarintLength, Payload;
    Powers();
    EncodedVarint(v, t, 5);
    EncodedPayload(v);
  }

  /** The two examples of the Encoding specification, section "Base 128 Varints", and the largest number. */
  lemma VarintExamples()
    ensures EncodeVarint(150) == [0x96, 0x01] && EncodeVarint(300) == [0xAC, 0x02] && EncodeVarint(1) == [0x01]
    ensures |EncodeVarint(0xFFFF_FFFF_FFFF_FFFF)| == 10
    ensures Varint64([0xAC, 0x02]) == Got(300, 2)
  {
    Varint64RoundTrip(300, []);
    assert EncodeVarint(300) + [] == [0xAC, 0x02];
    EncodedVarint(0xFFFF_FFFF_FFFF_FFFF, [], 10);
    LongVarint(0xFFFF_FFFF_FFFF_FFFF, 9);
  }

  lemma {:induction false} LongVarint(v: nat, n: nat)
    requires v >= Pow128(n)
    ensures |EncodeVarint(v)| > n
  {
    if n > 0 {
      LongVarint(v / 128, n - 1);
    }
  }

  lemma {:induction false} LengthOfVarint(s: Bytes, n: nat, limit: nat)
    requires n < |s| && s[n] < 128 && forall i :: 0 <= i < n ==> s[i] >= 128
    ensures VarintLength(s, limit) == if n < limit then Some(n + 1) else None
  {
    hide VarintLength;
    if limit == 0 {
      NoVarint(s);
    } else {
      UnfoldVarint(s, limit);
      if n > 0 {
        LengthOfVarint(s[1..], n - 1, limit - 1);
      }
    }
  }

  lemma NoVarint(s: Bytes)
    ensures VarintLength(s, 0) == None
  {
  }

  /** Overlong numbers: a value may take ten bytes, a tag and a length five, and higher bits are dropped. */
  lemma VarintLimits(s: Bytes, n: nat)
    requires n < |s| && s[n] < 128 && forall i :: 0 <= i < n ==> s[i] >= 128
    ensures Varint64(s) == if n < 10 then Got(Payload(s[..n + 1]) % 0x1_0000_0000_0000_0000, n + 1) else Bad
    ensures Tag(s) == if n < 5 then Got(Payload(s[..n + 1]) % 0x1_0000_0000, n + 1) else Bad
    ensures n >= 5 ==> Length(s) == Bad
  {
    hide VarintLength, Payload;
    LengthOfVarint(s, n, 10);
    LengthOfVarint(s, n, 5);
  }

  /** A length is accepted exactly up to INT_MAX - 16. */
  lemma LengthLimit(v: nat, t: Bytes)
    requires v < 0x8_0000_0000
    ensures Length(EncodeVarint(v) + t) == if v <= 2147483631 then Got(v, |EncodeVarint(v)|) else Bad
  {
    hide EncodeVarint, VarintLength, Payload;
    Powers();
    EncodedVarint(v, t, 5);
    EncodedPayload(v);
  }

  /** A primitive that can be read is read the same way when more bytes follow. */
  lemma PrimitivesIgnoreSuffix(s: Bytes, t: Bytes)
    ensures Varint64(s).Got? ==> Varint64(s + t) == Varint64(s)
    ensures Tag(s).Got? ==> Tag(s + t) == Tag(s)
    ensures Length(s).Got? ==> Length(s + t) == Length(s)
  {
    hide VarintLength, Payload;
    if VarintLength(s, 10).Some? {
      VarintLengthIgnoresSuffix(s, t, 10);
      assert (s + t)[..VarintLength(s, 10).value] == s[..VarintLength(s, 10).value];
    }
    if VarintLength(s, 5).Some? {
      VarintLengthIgnoresSuffix(s, t, 5);
      assert (s + t)[..VarintLength(s, 5).value] == s[..VarintLength(s, 5).value];
    }
  }

  // ---------------------------------------------------------------- the library's readers

  /** VarintParse and VarintParseSlow64: 32-bit sums for two bytes, then 64-bit sums. */
  method ReadVarint64(s: Bytes) returns (r: Read<UInt64>)
    ensures r == Varint64(s)
  {
    hide VarintLength;
    hide Payload;
    hide Pow128;
    Powers();
    if |s| == 0 {
      return Bad;
    }
    var res := s[0] as int;
    FirstByte(s);
    if res < 128 {
      return Got(res, 1);
    }
    if |s| == 1 {
      return Bad;
    }
    var byte := s[1] as int;
    res := (res + (byte - 1) * 128) % UINT32_LIMIT;
    AccumulateStep(s, 1, 4, UINT32_LIMIT);
    if byte < 128 {
      PayloadBound(s[..2]);
      return Got(res, 2);
    }
    r := ReadVarint64Slow(s, res);
  }

  method ReadVarint64Slow(s: Bytes, res32: UInt32) returns (r: Read<UInt64>)
    requires |s| >= 2 && s[0] >= 128 && s[1] >= 128
    requires res32 == Payload(s[..2]) + Pow128(2)
    ensures r == Varint64(s)
  {
    hide VarintLength;
    hide Payload;
    hide Pow128;
    Powers();
    var res: int := res32;
    var i := 2;
    while i < 10 && i < |s|
      invariant 2 <= i <= 10 && i <= |s|
      invariant forall j :: 0 <= j < i ==> s[j] >= 128
      invariant i < 10 ==> res == Payload(s[..i]) + Pow128(i)
    {
      var byte := s[i] as int;
      res := (res + (byte - 1) * Pow128(i)) % UINT64_LIMIT;
      AccumulateStep(s, i, 9, UINT64_LIMIT);
      if byte < 128 {
        return Got(res, i + 1);
      }
      i := i + 1;
    }
    return Bad;
  }

  /**
   * One step of the accumulation: while the carry of the previous continuation bit fits, adding
   * (byte - 1) << 7i cancels it and leaves the next one; in the last position the sum wraps to
   * the standard's value.
   */
  lemma AccumulateStep(s: Bytes, i: nat, last: nat, modulus: nat)
    requires i < |s| && i <= last
    requires forall j :: 0 <= j < i ==> s[j] >= 128
    requires Pow128(last) < modulus
    requires i < last ==> Pow128(last) * 2 <= modulus
    ensures i < last && s[i] >= 128 ==>
              (Payload(s[..i]) + Pow128(i) + (s[i] as int - 1) * Pow128(i)) % modulus
              == Payload(s[..i + 1]) + Pow128(i + 1)
    ensures s[i] < 128 ==>
              (Payload(s[..i]) + Pow128(i) + (s[i] as int - 1) * Pow128(i)) % modulus == Payload(s[..i + 1]) % modulus
  {
    var b := s[i] as int;
    var x, p := Payload(s[..i]), Pow128(i);
    assert s[..i + 1] == s[..i] + [s[i]];
    PayloadSnoc(s[..i], s[i]);
    assert x + p + (b - 1) * p == x + b * p by {
      Distribute(b, p);
    }
    if b < 128 {
      assert b % 128 == b;
    } else if i < last {
      assert b * p == (b - 128) * p + 128 * p;
      PayloadBound(s[..i + 1]);
      Pow128Monotone(i + 1, last);
      SmallModulo(x + b * p, modulus);
    }
  }

  lemma Distribute(b: int, p: int)
    ensures p + (b - 1) * p == b * p
  {
  }

  lemma SmallModulo(x: int, modulus: nat)
    requires 0 <= x < modulus
    ensures x % modulus == x
  {
  }

  lemma {:induction false} Pow128Monotone(m: nat, n: nat)
    requires m <= n
    ensures Pow128(m) <= Pow128(n)
    decreases n
  {
    if m < n {
      Pow128Monotone(m, n - 1);
    }
  }

  /** ReadTag and ReadTagFallback: the same accumulation in 32 bits, five bytes at most. */
  method ReadTag(s: Bytes) returns (r: Read<UInt32>)
    ensures r == Tag(s)
  {
    hide VarintLength;
    hide Payload;
    hide Pow128;
    Powers();
    if |s| == 0 {
      return Bad;
    }
    var res := s[0] as int;
    FirstByte(s);
    if res < 128 {
      return Got(res, 1);
    }
    var i := 1;
    while i < 5 && i < |s|
      invariant 1 <= i <= 5 && i <= |s|
      invariant forall j :: 0 <= j < i ==> s[j] >= 128
      invariant i < 5 ==> res == Payload(s[..i]) + Pow128(i)
    {
      var byte := s[i] as int;
      res := (res + (byte - 1) * Pow128(i)) % UINT32_LIMIT;
      AccumulateStep(s, i, 4, UINT32_LIMIT);
      if byte < 128 {
        return Got(res, i + 1);
      }
      i := i + 1;
    }
    return Bad;
  }

  /** ReadSize and ReadSizeFallback: the fifth byte must be below 8 and the sum at most MAX_LENGTH. */
  method ReadSize(s: Bytes) returns (r: Read<nat>)
    ensures r == Length(s)
  {
    hide VarintLength;
    hide Payload;
    hide Pow128;
    Powers();
    if |s| == 0 {
      return Bad;
    }
    var res := s[0] as int;
    FirstByte(s);
    if res < 128 {
      return Got(res, 1);
    }
    var i := 1;
    while i < 4 && i < |s|
      invariant 1 <= i <= 4 && i <= |s|
      invariant forall j :: 0 <= j < i ==> s[j] >= 128
      invariant res == Payload(s[..i]) + Pow128(i)
    {
      var byte := s[i] as int;
      res := (res + (byte - 1) * Pow128(i)) % UINT32_LIMIT;
      AccumulateStep(s, i, 4, UINT32_LIMIT);
      if byte < 128 {
        Pow128Monotone(i + 1, 4);
        PayloadBound(s[..i + 1]);
        return Got(res, i + 1);
      }
      i := i + 1;
    }
    if i == |s| {
      return Bad;
    }
    r := ReadLastSizeByte(s, res);
  }

  method ReadLastSizeByte(s: Bytes, sum: int) returns (r: Read<nat>)
    requires |s| > 4 && forall j :: 0 <= j < 4 ==> s[j] >= 128
    requires sum == Payload(s[..4]) + Pow128(4)
    ensures r == Length(s)
  {
    hide VarintLength;
    hide Payload;
    hide Pow128;
    Powers();
    var last := s[4] as int;
    LastLengthByte(s);
    if last >= 8 {
      return Bad;
    }
    var res := (sum + (last - 1) * 0x1000_0000) % UINT32_LIMIT;
    return if res > MAX_LENGTH then Bad else Got(res, 5);
  }

  /** The fifth byte of a length prefix carries bits 28 to 30 and nothing above. */
  lemma LastLengthByte(s: Bytes)
    requires |s| > 4 && forall j :: 0 <= j < 4 ==> s[j] >= 128
    ensures s[4] < 128 ==> VarintLength(s, 5) == Some(5)
    ensures s[4] >= 128 ==> VarintLength(s, 5) == None
    ensures Payload(s[..5]) == Payload(s[..4]) + (s[4] as int) % 128 * 0x1000_0000
    ensures Payload(s[..4]) < 0x1000_0000
  {
    Powers();
    assert s[..5] == s[..4] + [s[4]];
    PayloadSnoc(s[..4], s[4]);
    PayloadBound(s[..4]);
  }

  // ---------------------------------------------------------------- sizes and writes

  /** floor(log2(v)) for a positive number. */
  function Log2Floor(v: nat): nat
    requires v > 0
  {
    if v == 1 then 0 else 1 + Log2Floor(v / 2)
  }

  /** CodedOutputStream::VarintSize64 and VarintSize32: a division by 7 done as a multiplication. */
  function VarintSize(v: UInt64): nat {
    var odd := if v % 2 == 0 then v + 1 else v;
    (Log2Floor(odd) * 9 + 73) / 64
  }

  lemma {:induction false} Log2OfQuotient(v: nat)
    requires v >= 128
    ensures Log2Floor(v) == 7 + Log2Floor(v / 128)
  {
    assert v / 2 / 2 / 2 / 2 / 2 / 2 / 2 == v / 128;
    assert Log2Floor(v) == 1 + Log2Floor(v / 2) == 2 + Log2Floor(v / 2 / 2) == 3 + Log2Floor(v / 2 / 2 / 2);
    var w := v / 2 / 2 / 2;
    assert Log2Floor(w) == 1 + Log2Floor(w / 2) == 2 + Log2Floor(w / 2 / 2) == 3 + Log2Floor(w / 2 / 2 / 2);
  }

  lemma {:induction false} LengthByLog2(v: nat)
    requires v > 0
    ensures |EncodeVarint(v)| == Log2Floor(v) / 7 + 1
    decreases v
  {
    if v < 128 {
      assert Pow2(7) == 128;
      Log2Bound(v, 7);
    } else {
      Log2OfQuotient(v);
      LengthByLog2(v / 128);
    }
  }

  lemma {:induction false} Log2Bound(v: nat, bits: nat)
    requires 0 < v < Pow2(bits)
    ensures Log2Floor(v) < bits
    decreases v
  {
    if v > 1 {
      Log2Bound(v / 2, bits - 1);
    }
  }

  function Pow2(n: nat): nat {
    if n == 0 then 1 else 2 * Pow2(n - 1)
  }

  lemma Pow2Of64()
    ensures Pow2(64) == UINT64_LIMIT
  {
    assert Pow2(8) == 0x100 && Pow2(16) == 0x1_0000 && Pow2(24) == 0x100_0000 && Pow2(32) == 0x1_0000_0000;
    assert Pow2(40) == 0x100_0000_0000 && Pow2(48) == 0x1_0000_0000_0000 && Pow2(56) == 0x100_0000_0000_0000;
  }

  lemma DivisionBySeven(k: nat)
    requires k < 64
    ensures (k * 9 + 73) / 64 == k / 7 + 1
  {
  }

  /** VarintSize is the exact number of bytes the encoder writes, for every 64-bit value. */
  lemma VarintSizeIsLength(v: UInt64)
    ensures VarintSize(v) == |EncodeVarint(v)|
  {
    var odd := if v % 2 == 0 then v + 1 else v;
    Pow2Of64();
    Log2Bound(odd, 64);
    LengthByLog2(odd);
    DivisionBySeven(Log2Floor(odd));
    SameLength(v, odd);
  }

  lemma {:induction false} SameLength(v: nat, w: nat)
    requires v == w || (v % 2 == 0 && w == v + 1)
    ensures |EncodeVarint(v)| == |EncodeVarint(w)|
  {
    if v >= 128 {
      assert v / 128 == w / 128;
    }
  }

  /** `after` is `before` with `data` written at `target` and nothing else touched. */
  ghost predicate Written(before: Bytes, after: Bytes, target: nat, data: Bytes) {
    && target + |data| <= |before|
    && after == before[..target] + data + before[target + |data|..]
  }

  lemma WrittenThen(a: Bytes, b: Bytes, c: Bytes, target: nat, x: Bytes, y: Bytes)
    requires Written(a, b, target, x) && Written(b, c, target + |x|, y)
    ensures Written(a, c, target, x + y)
  {
  }

  lemma WrittenNothing(a: Bytes, target: nat)
    requires target <= |a|
    ensures Written(a, a, target, [])
  {
  }

  /** UnsafeVarint: write the low byte, then set its top bit when another byte must follow. */
  method WriteVarint(buf: array<Byte>, target: nat, v: UInt64) returns (end: nat)
    requires target + |EncodeVarint(v)| <= buf.Length
    modifies buf
    ensures end == target + |EncodeVarint(v)|
    ensures Written(old(buf[..]), buf[..], target, EncodeVarint(v))
  {
    hide Written;
    hide EncodeVarint;
    ghost var before := buf[..];
    ghost var done: Bytes := [];
    var value: UInt64 := v;
    end := target;
    buf[end] := (value % 256) as Byte;
    end := end + 1;
    WrittenByte(before, buf[..], target, (value % 256) as Byte);
    assert done + [(value % 256) as Byte] == [(value % 256) as Byte];
    while value >= 0x80
      invariant EncodeVarint(v) == done + EncodeVarint(value)
      invariant end == target + |done| + 1
      invariant Written(before, buf[..], target, done + [(value % 256) as Byte])
      decreases value
    {
      ghost var was, first := buf[..], (value % 256) as Byte;
      ghost var low := (value % 128 + 128) as Byte;
      EncodeStep(v, done, value);
      LastWritten(before, was, target, done, first);
      buf[end - 1] := if buf[end - 1] < 128 then buf[end - 1] + 128 else buf[end - 1];
      SetTopBit(value);
      assert buf[end - 1] == low;
      value := value / 128;
      buf[end] := (value % 256) as Byte;
      ContinueWrite(before, was, buf[..], target, done, first, low, (value % 256) as Byte);
      done := done + [low];
      end := end + 1;
    }
    EncodeStep(v, done, value);
  }

  lemma SetTopBit(value: nat)
    ensures (if value % 256 < 128 then value % 256 + 128 else value % 256) == value % 128 + 128
  {
  }

  /** One more byte of an encoding that is written up to `done`. */
  lemma EncodeStep(v: nat, done: Bytes, value: nat)
    requires EncodeVarint(v) == done + EncodeVarint(value)
    ensures value >= 128 ==> EncodeVarint(v) == done + [(value % 128 + 128) as Byte] + EncodeVarint(value / 128)
    ensures value >= 128 ==> |EncodeVarint(v)| >= |done| + 2
    ensures value < 128 ==> EncodeVarint(v) == done + [(value % 256) as Byte]
  {
  }

  lemma WrittenByte(before: Bytes, now: Bytes, target: nat, b: Byte)
    requires target < |before| && now == before[target := b]
    ensures Written(before, now, target, [b])
  {
  }

  lemma LastWritten(before: Bytes, now: Bytes, target: nat, done: Bytes, b: Byte)
    requires Written(before, now, target, done + [b])
    ensures |now| == |before| && now[target + |done|] == b
  {
  }

  /** Rewriting the last byte and adding one more extends what was written. */
  lemma ContinueWrite(
      before: Bytes, was: Bytes, now: Bytes, target: nat, done: Bytes, first: Byte, low: Byte, next: Byte)
    requires target + |done| + 1 < |before| == |was|
    requires Written(before, was, target, done + [first])
    requires now == was[target + |done| := low][target + |done| + 1 := next]
    ensures Written(before, now, target, done + [low] + [next])
  {
    var n := target + |done|;
    assert was == before[..target] + (done + [first]) + before[n + 1..];
    assert now == before[..target] + (done + [low] + [next]) + before[n + 2..];
  }

  /** memcpy of a string or of raw bytes. */
  method WriteRaw(buf: array<Byte>, target: nat, data: Bytes) returns (end: nat)
    requires target + |data| <= buf.Length
    modifies buf
    ensures end == target + |data|
    ensures Written(old(buf[..]), buf[..], target, data)
  {
    hide Written;
    ghost var before := buf[..];
    WrittenNothing(before, target);
    assert data[..0] == [];
    for i := 0 to |data|
      invariant Written(before, buf[..], target, data[..i])
    {
      ghost var was := buf[..];
      WrittenLength(before, was, target, data[..i]);
      buf[target + i] := data[i];
      WrittenByte(was, buf[..], target + i, data[i]);
      WrittenThen(before, was, buf[..], target, data[..i], [data[i]]);
      assert data[..i] + [data[i]] == data[..i + 1];
    }
    assert data[..|data|] == data;
    end := target + |data|;
  }

  lemma WrittenLength(before: Bytes, after: Bytes, target: nat, data: Bytes)
    requires Written(before, after, target, data)
    ensures |after| == |before|
  {
  }
}

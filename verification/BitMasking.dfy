/**
  The fuzzer's big-endian masking loops (p4_fuzzer/fuzz_util.cc): each overwrites a copy of its
  argument byte by byte, and each is proved to be an arithmetic operation on the denoted number.
 */
module BitMasking {
  import opened ByteStrings
  import opened Common

  // ----- what the masks compute -----

  /** Remainder by an even divisor, bit by bit. */
  lemma ModDouble(x: nat, p: nat)
    requires p > 0
    ensures x % (2 * p) == 2 * ((x / 2) % p) + x % 2
  {
    var q, r := (x / 2) / p, (x / 2) % p;
    DivisionStep(x / 2, p, q, r);
    DoubleProduct(q, p);
    RemainderIs(x, q, 2 * p, 2 * r + x % 2);
  }

  lemma DivisionStep(x: nat, p: nat, q: nat, r: nat)
    requires p > 0 && q == x / p && r == x % p
    ensures x == q * p + r && r < p
  {
  }

  /** Conjunction with 2^k - 1 keeps the k least significant bits. */
  lemma {:induction false} LowMask(x: nat, k: nat)
    ensures BitAnd(x, Pow2(k) - 1) == x % Pow2(k)
  {
    if k > 0 {
      LowMask(x / 2, k - 1);
      ModDouble(x, Pow2(k - 1));
      AndOdd(x, Pow2(k - 1) - 1);
    }
  }

  lemma AndOdd(x: nat, m: nat)
    ensures BitAnd(x, 2 * m + 1) == 2 * BitAnd(x / 2, m) + x % 2
  {
    assert (2 * m + 1) / 2 == m;
  }

  lemma AndEven(x: nat, m: nat)
    ensures BitAnd(x, 2 * m) == 2 * BitAnd(x / 2, m)
  {
    assert (2 * m) / 2 == m;
  }

  /** Conjunction with the n-bit complement of 2^k - 1 clears the k least significant bits. */
  lemma {:induction false} HighMask(x: nat, n: nat, k: nat)
    requires x < Pow2(n) && k <= n
    ensures Pow2(k) <= Pow2(n)
    ensures BitAnd(x, Pow2(n) - Pow2(k)) == x - x % Pow2(k)
  {
    Pow2Monotone(k, n);
    if k == 0 {
      LowMask(x, n);
      RemainderIs(x, 0, Pow2(n), x);
    } else {
      HighMask(x / 2, n - 1, k - 1);
      ClearedDouble(x, Pow2(n - 1) - Pow2(k - 1), Pow2(k - 1));
    }
  }

  lemma ClearedDouble(x: nat, m: nat, p: nat)
    requires p > 0 && BitAnd(x / 2, m) == x / 2 - (x / 2) % p
    ensures BitAnd(x, 2 * m) == x - x % (2 * p)
  {
    AndEven(x, m);
    ModDouble(x, p);
  }

  /** The number denoted by data, split around the byte at position i. */
  lemma SplitAt(data: Bytes, i: nat)
    requires i < |data|
    ensures var m := |data| - i - 1;
            BigEndian(data) ==
            (BigEndian(data[..i]) * 256 + data[i]) * Pow2(8 * m) + BigEndian(data[i + 1..])
  {
    var a, b := data[..i + 1], data[i + 1..];
    assert data == a + b;
    BigEndianConcat(a, b);
    LastByte(a);
    assert a[..i] == data[..i] && |b| == |data| - i - 1;
  }

  lemma LastByte(a: Bytes)
    requires a != []
    ensures BigEndian(a) == BigEndian(a[..|a| - 1]) * 256 + a[|a| - 1]
  {
  }

  /** What remains of a split number modulo a power that cuts through its middle byte. */
  lemma CutThroughByte(high: nat, x: Byte, low: nat, m: nat, o: nat)
    requires o <= 8 && low < Pow2(8 * m)
    ensures ((high * 256 + x) * Pow2(8 * m) + low) % Pow2(8 * m + o)
            == (x % Pow2(o)) * Pow2(8 * m) + low
  {
    Pow2Sum(8 * m, o);
    Pow2Sum(8 - o, o);
    Pow2Byte();
    var w := Pow2(o);
    DivisionStep(x, w, x / w, x % w);
    CutCore(high, x, low, Pow2(8 * m), w, Pow2(8 - o), x / w, x % w);
  }

  lemma CutCore(high: nat, x: nat, low: nat, p: nat, w: nat, h: nat, q: nat, r: nat)
    requires h * w == 256 && x == q * w + r && r < w && low < p && 0 < p * w
    ensures ((high * 256 + x) * p + low) % (p * w) == r * p + low
  {
    CutAlgebra(high, h, q, r, w, p, low);
    ScaleMonotone(r + 1, w, p);
    RemainderIs((high * 256 + x) * p + low, high * h + q, p * w, r * p + low);
  }

  lemma CutAlgebra(high: nat, h: nat, q: nat, r: nat, w: nat, p: nat, low: nat)
    ensures (high * (h * w) + (q * w + r)) * p + low == (high * h + q) * (p * w) + (r * p + low)
    ensures (r + 1) * p == r * p + p
  {
  }

  // ----- the loops -----

  method ZeroFirstBytes(count: nat, data: Bytes) returns (r: Bytes)
    requires count <= |data|
    ensures r == Zeros(count) + data[count..]
  {
    r := data;
    for i := 0 to count
      invariant |r| == |data|
      invariant r == Zeros(i) + data[i..]
    {
      r := r[i := 0];
    }
  }

  /** Keeps the usedBits least significant bits of data: the result is data modulo 2^usedBits. */
  method SetUnusedBitsToZero(usedBits: nat, data: Bytes) returns (r: Bytes)
    requires usedBits <= |data| * 8
    ensures |r| == |data|
    ensures BigEndian(r) == BigEndian(data) % Pow2(usedBits)
  {
    var bytes := |data|;
    var usedBytes := DivideRoundedUp(usedBits, 8);
    var overhangingBits := usedBits % 8;
    UsedBytes(usedBits, bytes);
    var unusedBytes := bytes - usedBytes;
    r := ZeroFirstBytes(unusedBytes, data);
    if overhangingBits != 0 {
      var paddingMask := Pow2(overhangingBits) - 1;
      r := r[unusedBytes := BitAnd(r[unusedBytes], paddingMask)];
      MaskedHead(data, unusedBytes, overhangingBits, r);
    } else {
      ZeroedHead(data, unusedBytes, r);
    }
  }

  lemma UsedBytes(usedBits: nat, bytes: nat)
    requires usedBits <= bytes * 8
    ensures var used, over := DivideRoundedUp(usedBits, 8), usedBits % 8;
            used <= bytes && (over == 0 ==> usedBits == 8 * used)
            && (over != 0 ==> used > 0 && usedBits == 8 * (used - 1) + over)
  {
  }

  lemma ZeroedHead(data: Bytes, i: nat, r: Bytes)
    requires i <= |data| && r == Zeros(i) + data[i..]
    ensures BigEndian(r) == BigEndian(data) % Pow2(8 * (|data| - i))
  {
    BigEndianZeros(i);
    BigEndianConcat(Zeros(i), data[i..]);
    assert data == data[..i] + data[i..];
    BigEndianConcat(data[..i], data[i..]);
    BigEndianBound(data[i..]);
    RemainderIs(BigEndian(data), BigEndian(data[..i]), Pow2(8 * (|data| - i)), BigEndian(data[i..]));
  }

  lemma MaskedHead(data: Bytes, i: nat, o: nat, r: Bytes)
    requires i < |data| && 0 < o < 8
    requires r == Zeros(i) + [BitAnd(data[i], Pow2(o) - 1)] + data[i + 1..]
    ensures BigEndian(r) == BigEndian(data) % Pow2(8 * (|data| - i - 1) + o)
  {
    LowMask(data[i], o);
    HeadSplit(data, i, BitAnd(data[i], Pow2(o) - 1), r);
    DataCut(data, i, o);
  }

  /** The remainder of a number modulo a power that cuts through the byte at position i. */
  lemma DataCut(data: Bytes, i: nat, o: nat)
    requires i < |data| && o <= 8
    ensures BigEndian(data) % Pow2(8 * (|data| - i - 1) + o)
            == (data[i] % Pow2(o)) * Pow2(8 * (|data| - i - 1)) + BigEndian(data[i + 1..])
  {
    SplitAt(data, i);
    BigEndianBound(data[i + 1..]);
    CutThroughByte(BigEndian(data[..i]), data[i], BigEndian(data[i + 1..]), |data| - i - 1, o);
  }

  lemma HeadSplit(data: Bytes, i: nat, x: Byte, r: Bytes)
    requires i < |data| && r == Zeros(i) + [x] + data[i + 1..]
    ensures BigEndian(r) == x * Pow2(8 * (|data| - i - 1)) + BigEndian(data[i + 1..])
  {
    var head := Zeros(i) + [x];
    BigEndianConcat(head, data[i + 1..]);
    BigEndianZeros(i);
    LastByte(head);
    assert head[..i] == Zeros(i);
  }

  /** Clears the zeroBits least significant bits of data. */
  method ZeroNLeastSignificantBits(zeroBits: nat, data: Bytes) returns (r: Bytes)
    requires zeroBits <= |data| * 8
    ensures |r| == |data|
    ensures BigEndian(r) == BigEndian(data) - BigEndian(data) % Pow2(zeroBits)
  {
    var bytes := |data|;
    var totalBits := bytes * 8;
    var usedBits := totalBits - zeroBits;
    var fullyUsedBytes := usedBits / 8;
    var hasPartialByte := usedBits % 8 != 0;
    r := data;
    ghost var kept := fullyUsedBytes;
    ghost var cut := if hasPartialByte then 8 - usedBits % 8 else 8;
    Pow2Byte();
    Pow2Monotone(cut, 8);
    for i := fullyUsedBytes to bytes
      invariant |r| == bytes
      invariant i == fullyUsedBytes ==> r == data
      invariant i > fullyUsedBytes ==>
                  r == data[..kept]
                       + [if hasPartialByte then BitAnd(data[kept], 256 - Pow2(cut)) else 0]
                       + Zeros(i - kept - 1) + data[i..]
    {
      if i == fullyUsedBytes && hasPartialByte {
        // The int mask is the complement of 2^cut - 1; its low byte is 256 - 2^cut.
        var mask := 256 - Pow2(8 - usedBits % 8);
        r := r[i := BitAnd(r[i], mask)];
      } else {
        r := r[i := 0];
      }
    }
    if kept < bytes {
      MaskedTail(data, kept, cut, r);
    } else {
      assert zeroBits == 0 && r == data;
    }
  }

  lemma MaskedTail(data: Bytes, i: nat, k: nat, r: Bytes)
    requires i < |data| && 0 < k <= 8 && Pow2(k) <= 256
    requires r == data[..i]
                  + [if k < 8 then BitAnd(data[i], 256 - Pow2(k)) else 0]
                  + Zeros(|data| - i - 1)
    ensures BigEndian(r) == BigEndian(data) - BigEndian(data) % Pow2(8 * (|data| - i - 1) + k)
  {
    var m := |data| - i - 1;
    ClearedByte(data[i], k, r[i]);
    SplitTail(data, i, r);
    SplitAt(data, i);
    DataCut(data, i, k);
    TailAlgebra(BigEndian(data[..i]) * 256, data[i], r[i], Pow2(8 * m), BigEndian(data[i + 1..]), BigEndian(data),
                BigEndian(r), BigEndian(data) % Pow2(8 * m + k));
  }

  lemma SplitTail(data: Bytes, i: nat, r: Bytes)
    requires i < |data| == |r| && r[..i] == data[..i] && r[i + 1..] == Zeros(|data| - i - 1)
    ensures BigEndian(r) == (BigEndian(data[..i]) * 256 + r[i]) * Pow2(8 * (|data| - i - 1))
  {
    var head, tail := r[..i + 1], r[i + 1..];
    Parted(r, i);
    LastByte(head);
    assert BigEndian(head) == BigEndian(data[..i]) * 256 + r[i];
    ZerosAfter(head, |tail|);
  }

  lemma ZerosAfter(head: Bytes, n: nat)
    ensures BigEndian(head + Zeros(n)) == BigEndian(head) * Pow2(8 * n)
  {
    BigEndianConcat(head, Zeros(n));
    BigEndianZeros(n);
  }

  lemma Parted<T>(s: seq<T>, i: nat)
    requires i < |s|
    ensures s == s[..i + 1] + s[i + 1..] && s[..i + 1][..i] == s[..i]
  {
  }

  lemma ClearedByte(x: Byte, k: nat, y: Byte)
    requires 0 < k <= 8 && Pow2(k) <= 256
    requires y == if k < 8 then BitAnd(x, 256 - Pow2(k)) else 0
    ensures y == x - x % Pow2(k)
  {
    Pow2Byte();
    HighMask(x, 8, k);
  }

  lemma TailAlgebra(high: nat, x: nat, y: nat, p: nat, low: nat, d: nat, r: nat, rest: nat)
    requires y <= x
    requires d == (high + x) * p + low
    requires r == (high + y) * p
    requires rest == (x - y) * p + low
    ensures r == d - rest
  {
  }

  // ----- generated values -----

  datatype LpmMatch = LpmMatch(value: Bytes, prefixLen: nat)

  /** The random bytes drawn; `noise` is the random source. */
  function Drawn(noise: nat -> Byte, bytes: nat): (data: Bytes)
    ensures |data| == bytes
  {
    seq(bytes, i requires 0 <= i < bytes => noise(i))
  }

  /** Random bytes with the unused bits set to zero: the random number modulo 2^bits. */
  method FuzzBitsInBytes(bits: nat, bytes: nat, noise: nat -> Byte) returns (data: Bytes)
    requires bits <= bytes * 8
    ensures |data| == bytes && BigEndian(data) < Pow2(bits)
    ensures BigEndian(data) == BigEndian(Drawn(noise, bytes)) % Pow2(bits)
  {
    data := Zeros(bytes);
    for i := 0 to bytes
      invariant |data| == bytes
      invariant forall j :: 0 <= j < i ==> data[j] == noise(j)
    {
      data := data[i := noise(i)];
    }
    assert data == Drawn(noise, bytes);
    data := SetUnusedBitsToZero(bits, data);
  }

  method FuzzBits(bits: int, noise: nat -> Byte) returns (r: Option<Bytes>)
    ensures r.Some? <==> bits > 0
    ensures r.Some? ==> |r.value| == DivideRoundedUp(bits, 8) && BigEndian(r.value) < Pow2(bits)
    ensures r.Some? ==> BigEndian(r.value) == BigEndian(Drawn(noise, DivideRoundedUp(bits, 8))) % Pow2(bits)
  {
    if bits <= 0 {
      return None;
    }
    UsedBytes(bits, bits);
    var data := FuzzBitsInBytes(bits, DivideRoundedUp(bits, 8), noise);
    r := Some(data);
  }

  /** One of the multiples of eight, or any length but zero. */
  function PrefixLength(bits: int, favourCommon: bool, pick: nat): int
    requires bits > 0
  {
    if bits >= 8 && favourCommon then 8 * (pick % (bits / 8) + 1) else UniformHalfOpen(1, bits + 1, pick)
  }

  /** Every length but zero can be drawn, and every multiple of eight when those are favoured. */
  lemma PrefixLengthsDrawn(bits: int, favourCommon: bool, length: int)
    requires 1 <= length <= bits && (favourCommon && bits >= 8 ==> length % 8 == 0)
    ensures exists pick: nat :: PrefixLength(bits, favourCommon, pick) == length
  {
    if favourCommon && bits >= 8 {
      var pick := length / 8 - 1;
      PickInRange(pick, bits / 8);
      assert PrefixLength(bits, favourCommon, pick) == length;
    } else {
      PickInRange(length - 1, bits);
      assert PrefixLength(bits, favourCommon, length - 1) == length;
    }
  }

  method FuzzPrefixLength(bits: int, favourCommon: bool, pick: nat) returns (prefixLen: int)
    requires bits > 0
    ensures prefixLen == PrefixLength(bits, favourCommon, pick) && 1 <= prefixLen <= bits
    ensures favourCommon && bits >= 8 ==> prefixLen % 8 == 0
  {
    var likelyBits: seq<int> := [];
    var i := 8;
    while i <= bits
      invariant i == 8 * (|likelyBits| + 1) && i <= if bits < 8 then 8 else bits + 8
      invariant forall j :: 0 <= j < |likelyBits| ==> likelyBits[j] == 8 * (j + 1)
    {
      likelyBits := likelyBits + [i];
      i := i + 8;
    }
    if bits >= 8 && favourCommon {
      assert |likelyBits| == bits / 8;
      prefixLen := likelyBits[pick % |likelyBits|];
    } else {
      prefixLen := UniformHalfOpen(1, bits + 1, pick);
    }
  }

  /**
    A prefix of random bits followed by zeros. The three random decisions (whether to favour
    multiples of eight, which prefix length, which bits) are parameters.
   */
  method FuzzLpmFieldMatch(bits: int, favourCommon: bool, pick: nat, noise: nat -> Byte)
    returns (r: Option<LpmMatch>)
    ensures r.Some? <==> bits > 0
    ensures r.Some? ==> r.value.prefixLen == PrefixLength(bits, favourCommon, pick) && 1 <= r.value.prefixLen <= bits
    ensures r.Some? ==> |r.value.value| == DivideRoundedUp(bits, 8)
    ensures r.Some? ==> var random := BigEndian(Drawn(noise, DivideRoundedUp(bits, 8))) % Pow2(bits);
                        BigEndian(r.value.value) == random - random % Pow2(bits - r.value.prefixLen)
    ensures r.Some? ==> BigEndian(r.value.value) < Pow2(bits)
    ensures r.Some? ==> BigEndian(r.value.value) % Pow2(bits - r.value.prefixLen) == 0
  {
    var value := FuzzBits(bits, noise);
    if value == None {
      return None;
    }
    var prefixLen := FuzzPrefixLength(bits, favourCommon, pick);
    UsedBytes(bits, bits);
    var zeroed := ZeroNLeastSignificantBits(bits - prefixLen, value.value);
    ClearedIsMultiple(BigEndian(value.value), Pow2(bits - prefixLen));
    r := Some(LpmMatch(zeroed, prefixLen));
  }

  lemma ClearedIsMultiple(d: nat, p: nat)
    requires p > 0
    ensures (d - d % p) % p == 0
  {
    DivisionStep(d, p, d / p, d % p);
    RemainderIs(d - d % p, d / p, p, 0);
  }
}

/**
  Byte strings in network byte order and their numeric value. A byte string stands for the number
  BigEndian gives it; every operation on bits is specified by arithmetic on that number.
 */
module ByteStrings {

  type Byte = x: nat | x < 256

  type Bytes = seq<Byte>

  function Pow2(n: nat): (p: nat)
    ensures p > 0
  {
    if n == 0 then 1 else 2 * Pow2(n - 1)
  }

  /** The number a byte string denotes, first byte most significant. */
  function BigEndian(data: Bytes): nat
  {
    if data == [] then 0 else BigEndian(data[..|data| - 1]) * 256 + data[|data| - 1]
  }

  /** Bitwise conjunction of two non-negative numbers. */
  function BitAnd(a: nat, b: nat): (r: nat)
    ensures r <= a
  {
    if a == 0 || b == 0 then 0
    else 2 * BitAnd(a / 2, b / 2) + (if a % 2 == 1 && b % 2 == 1 then 1 else 0)
  }

  /** The canonical form of a byte string: leading zeros removed, at least one byte kept. */
  function StripLeadingZeros(data: Bytes): Bytes
  {
    if |data| > 1 && data[0] == 0 then StripLeadingZeros(data[1..]) else data
  }

  /** Non-empty, and the value fits in `bits` bits; zero still needs one bit. */
  predicate FitsWidth(data: Bytes, bits: nat)
  {
    data != [] && 0 < bits && BigEndian(data) < Pow2(bits)
  }

  function Zeros(n: nat): (z: Bytes)
    ensures |z| == n
  {
    seq(n, i => 0)
  }

  function DivideRoundedUp(n: nat, d: nat): nat
  {
    if n == 0 || d == 0 then 0 else (n - 1) / d + 1
  }

  // ----- arithmetic facts -----

  lemma {:induction false} Pow2Sum(a: nat, b: nat)
    ensures Pow2(a + b) == Pow2(a) * Pow2(b)
  {
    if a > 0 {
      Pow2Sum(a - 1, b);
      assert Pow2(a + b) == 2 * (Pow2(a - 1) * Pow2(b));
    }
  }

  lemma Pow2Byte()
    ensures Pow2(8) == 256
  {
  }

  lemma ScaleMonotone(a: nat, b: nat, k: nat)
    requires a <= b
    ensures a * k <= b * k
  {
  }

  /** A number written as q * d + r with r below d has remainder r. */
  lemma RemainderIs(v: nat, q: nat, d: nat, r: nat)
    requires v == q * d + r && r < d
    ensures v % d == r && v / d == q
  {
    var q', r' := v / d, v % d;
    assert v == q' * d + r';
    if q' > q {
      ScaleMonotone(q + 1, q', d);
    } else if q' < q {
      ScaleMonotone(q' + 1, q, d);
    }
  }

  lemma DoubleProduct(a: nat, p: nat)
    ensures a * (2 * p) == 2 * (a * p)
  {
  }

  lemma ScaleProduct(a: nat, p: nat)
    ensures a * (p * 256) == (a * p) * 256
  {
  }

  lemma {:induction false} BigEndianConcat(a: Bytes, b: Bytes)
    ensures BigEndian(a + b) == BigEndian(a) * Pow2(8 * |b|) + BigEndian(b)
  {
    if b == [] {
      assert a + b == a;
    } else {
      var n := |b| - 1;
      var init := b[..n];
      assert (a + b)[..|a + b| - 1] == a + init;
      BigEndianConcat(a, init);
      Pow2Byte();
      Pow2Sum(8 * n, 8);
      assert 8 * |b| == 8 * n + 8;
      ScaleProduct(BigEndian(a), Pow2(8 * n));
    }
  }

  lemma {:induction false} BigEndianBound(data: Bytes)
    ensures BigEndian(data) < Pow2(8 * |data|)
  {
    if data != [] {
      var n := |data| - 1;
      BigEndianBound(data[..n]);
      Pow2Byte();
      Pow2Sum(8 * n, 8);
      assert 8 * |data| == 8 * n + 8;
      ScaleMonotone(BigEndian(data[..n]) + 1, Pow2(8 * n), 256);
    }
  }

  lemma {:induction false} BigEndianZeros(n: nat)
    ensures BigEndian(Zeros(n)) == 0
  {
    if n > 0 {
      assert Zeros(n)[..n - 1] == Zeros(n - 1);
      BigEndianZeros(n - 1);
    }
  }

  /** Stripping keeps the value and is idempotent, so canonical strings are fixed points. */
  lemma {:induction false} StripKeepsValue(data: Bytes)
    ensures BigEndian(StripLeadingZeros(data)) == BigEndian(data)
    ensures StripLeadingZeros(StripLeadingZeros(data)) == StripLeadingZeros(data)
    ensures (StripLeadingZeros(data) == []) == (data == [])
  {
    if |data| > 1 && data[0] == 0 {
      assert data == [0] + data[1..];
      BigEndianConcat([0], data[1..]);
      assert BigEndian([0]) == 0 by { BigEndianZeros(1); assert Zeros(1) == [0]; }
      StripKeepsValue(data[1..]);
    }
  }

  /** Two non-empty byte strings strip to the same canonical string exactly when they denote the same number. */
  lemma {:induction false} CanonicalIffSameValue(a: Bytes, b: Bytes)
    requires a != [] && b != []
    ensures StripLeadingZeros(a) == StripLeadingZeros(b) <==> BigEndian(a) == BigEndian(b)
  {
    StripKeepsValue(a);
    StripKeepsValue(b);
    if BigEndian(a) == BigEndian(b) {
      StrippedShape(a);
      StrippedShape(b);
      StrippedDetermined(StripLeadingZeros(a), StripLeadingZeros(b));
    }
  }

  lemma {:induction false} StrippedShape(data: Bytes)
    requires data != []
    ensures var s := StripLeadingZeros(data); s != [] && (|s| > 1 ==> s[0] != 0)
  {
    if |data| > 1 && data[0] == 0 {
      StrippedShape(data[1..]);
    }
  }

  /** A leading non-zero byte pins the length from below. */
  lemma LeadingByteBound(data: Bytes)
    requires data != [] && data[0] != 0
    ensures BigEndian(data) >= Pow2(8 * (|data| - 1))
  {
    assert data == [data[0]] + data[1..];
    BigEndianConcat([data[0]], data[1..]);
    assert BigEndian([data[0]]) == data[0] by { assert [data[0]][..0] == []; }
    ScaleMonotone(1, data[0], Pow2(8 * (|data| - 1)));
  }

  lemma {:induction false} Pow2Monotone(a: nat, b: nat)
    requires a <= b
    ensures Pow2(a) <= Pow2(b)
  {
    Pow2Sum(a, b - a);
    ScaleMonotone(1, Pow2(b - a), Pow2(a));
  }

  lemma {:induction false} SameLengthDetermined(a: Bytes, b: Bytes)
    requires |a| == |b| && BigEndian(a) == BigEndian(b)
    ensures a == b
  {
    if a != [] {
      var n := |a| - 1;
      SameLengthDetermined(a[..n], b[..n]);
      assert a == a[..n] + [a[n]] && b == b[..n] + [b[n]];
    }
  }

  lemma StrippedDetermined(a: Bytes, b: Bytes)
    requires a != [] && (|a| > 1 ==> a[0] != 0)
    requires b != [] && (|b| > 1 ==> b[0] != 0)
    requires BigEndian(a) == BigEndian(b)
    ensures a == b
  {
    if |a| > |b| {
      LeadingByteBound(a);
      BigEndianBound(b);
      Pow2Monotone(8 * |b|, 8 * (|a| - 1));
    } else if |b| > |a| {
      LeadingByteBound(b);
      BigEndianBound(a);
      Pow2Monotone(8 * |a|, 8 * (|b| - 1));
    } else {
      SameLengthDetermined(a, b);
    }
  }
}

/**
  Bit-vector values as Z3 prints them, and the three decoders of that text (p4_symbolic/z3_util.cc,
  p4_infra/string_encodings/bit_string.h, p4_infra/string_encodings/hex_string.cc).
 */
module Z3Values {
  import opened ByteStrings
  import opened Common

  // ----- digits -----

  function HexCharToDigit(c: char): (d: Option<nat>)
    ensures d.Some? ==> d.value < 16
  {
    if '0' <= c <= '9' then Some(c as int - '0' as int)
    else if 'a' <= c <= 'f' then Some(c as int - 'a' as int + 10)
    else if 'A' <= c <= 'F' then Some(c as int - 'A' as int + 10)
    else None
  }

  /** The i-th character of either alphabet is digit i, and nothing else is a digit. */
  lemma DigitsInOrder(c: char, i: nat)
    ensures HexCharToDigit(c) == Some(i)
       <==> i < 16 && (c == "0123456789abcdef"[i] || c == "0123456789ABCDEF"[i])
  {
  }

  predicate IsDigit(c: char, base: nat)
  {
    HexCharToDigit(c).Some? && HexCharToDigit(c).value < base
  }

  predicate AllDigits(s: string, base: nat)
  {
    forall i :: 0 <= i < |s| ==> IsDigit(s[i], base)
  }

  /** The length of the longest prefix of digits. */
  function DigitRun(s: string, base: nat): (n: nat)
    ensures n <= |s| && AllDigits(s[..n], base)
    ensures n < |s| ==> !IsDigit(s[n], base)
  {
    if s == "" || !IsDigit(s[0], base) then 0
    else
      var n := DigitRun(s[1..], base);
      assert s[..n + 1] == [s[0]] + s[1..][..n];
      n + 1
  }

  /** The number a digit string denotes, first digit most significant. */
  function NumberOf(s: string, base: nat): nat
    requires AllDigits(s, base)
  {
    if s == "" then 0
    else
      assert AllDigits(s[..|s| - 1], base);
      NumberOf(s[..|s| - 1], base) * base + HexCharToDigit(s[|s| - 1]).value
  }

  lemma RunOfDigits(s: string, base: nat)
    ensures AllDigits(s, base) <==> DigitRun(s, base) == |s|
  {
  }

  // ----- bits -----

  type Bits = seq<bool>

  /** The number a bit string denotes, first bit most significant. */
  function BitsValue(bits: Bits): nat
  {
    if bits == [] then 0 else 2 * BitsValue(bits[..|bits| - 1]) + (if bits[|bits| - 1] then 1 else 0)
  }

  function Padding(n: nat): (bits: Bits)
    ensures |bits| == n
  {
    seq(n, i => false)
  }

  function Nibble(digit: nat): Bits
  {
    [digit / 8 % 2 == 1, digit / 4 % 2 == 1, digit / 2 % 2 == 1, digit % 2 == 1]
  }

  function HexBits(s: string): (bits: Bits)
    requires AllDigits(s, 16)
    ensures |bits| == 4 * |s|
  {
    if s == "" then []
    else
      assert AllDigits(s[..|s| - 1], 16);
      HexBits(s[..|s| - 1]) + Nibble(HexCharToDigit(s[|s| - 1]).value)
  }

  function BinaryBits(s: string): Bits
  {
    seq(|s|, i requires 0 <= i < |s| => s[i] == '1')
  }

  function ByteBits(b: Byte): Bits
  {
    [b / 128 % 2 == 1, b / 64 % 2 == 1, b / 32 % 2 == 1, b / 16 % 2 == 1] + Nibble(b)
  }

  function BytesBits(bytes: Bytes): Bits
  {
    if bytes == [] then [] else BytesBits(bytes[..|bytes| - 1]) + ByteBits(bytes[|bytes| - 1])
  }

  lemma {:induction false} BitsConcat(a: Bits, b: Bits)
    ensures BitsValue(a + b) == BitsValue(a) * Pow2(|b|) + BitsValue(b)
  {
    if b == [] {
      assert a + b == a;
    } else {
      var n := |b| - 1;
      assert (a + b)[..|a + b| - 1] == a + b[..n];
      BitsConcat(a, b[..n]);
      DoubleProduct(BitsValue(a), Pow2(n));
      assert Pow2(n + 1) == 2 * Pow2(n);
    }
  }

  lemma {:induction false} BitsBound(bits: Bits)
    ensures BitsValue(bits) < Pow2(|bits|)
  {
    if bits != [] {
      BitsBound(bits[..|bits| - 1]);
    }
  }

  /** Leading zero bits do not change the number. */
  lemma {:induction false} PaddingIsNeutral(n: nat, bits: Bits)
    ensures BitsValue(Padding(n) + bits) == BitsValue(bits)
  {
    if n == 0 {
      assert Padding(0) + bits == bits;
    } else {
      PaddingIsNeutral(n - 1, bits);
      assert Padding(n) + bits == [false] + (Padding(n - 1) + bits);
      BitsConcat([false], Padding(n - 1) + bits);
      assert [false][..0] == [];
      assert BitsValue([false]) == 0;
    }
  }

  lemma BitValue(bits: Bits, bit: bool)
    ensures BitsValue(bits + [bit]) == 2 * BitsValue(bits) + (if bit then 1 else 0)
  {
  }

  lemma NibbleValue(bits: Bits, digit: nat)
    requires digit < 16
    ensures BitsValue(bits + Nibble(digit)) == 16 * BitsValue(bits) + digit
  {
    var n := Nibble(digit);
    assert bits + n == bits + [n[0]] + [n[1]] + [n[2]] + [n[3]];
    BitValue(bits, n[0]);
    BitValue(bits + [n[0]], n[1]);
    BitValue(bits + [n[0]] + [n[1]], n[2]);
    BitValue(bits + [n[0]] + [n[1]] + [n[2]], n[3]);
    DigitFromBits(digit);
  }

  lemma DigitFromBits(digit: nat)
    requires digit < 16
    ensures digit == 8 * (digit / 8 % 2) + 4 * (digit / 4 % 2) + 2 * (digit / 2 % 2) + digit % 2
  {
  }

  /** The bits of a hexadecimal string denote the same number as its digits. */
  lemma {:induction false} HexBitsValue(s: string)
    requires AllDigits(s, 16)
    ensures BitsValue(HexBits(s)) == NumberOf(s, 16)
  {
    if s != "" {
      var init := s[..|s| - 1];
      assert AllDigits(init, 16);
      HexBitsValue(init);
      NibbleValue(HexBits(init), HexCharToDigit(s[|s| - 1]).value);
    }
  }

  lemma {:induction false} BinaryBitsValue(s: string)
    requires AllDigits(s, 2)
    ensures BitsValue(BinaryBits(s)) == NumberOf(s, 2)
  {
    if s != "" {
      var init := s[..|s| - 1];
      assert AllDigits(init, 2);
      BinaryBitsValue(init);
      assert BinaryBits(s)[..|s| - 1] == BinaryBits(init);
      assert IsDigit(s[|s| - 1], 2);
    }
  }

  lemma HighDigit(high: nat, low: nat)
    requires low < 16
    ensures var b := high * 16 + low; b / 16 == high && b / 32 == high / 2 && b / 64 == high / 4 && b / 128 == high / 8
  {
  }

  lemma EvenPart(h: nat, x: nat)
    ensures (2 * h + x) % 2 == x % 2
  {
  }

  lemma Halves(high: nat, low: nat)
    ensures (high * 16 + low) / 2 == high * 8 + low / 2
    ensures (high * 16 + low) / 4 == high * 4 + low / 4
    ensures (high * 16 + low) / 8 == high * 2 + low / 8
  {
  }

  lemma LowDigit(high: nat, low: nat)
    ensures Nibble(high * 16 + low) == Nibble(low)
  {
    Halves(high, low);
    EvenPart(high * 8, low);
    EvenPart(high * 4, low / 2);
    EvenPart(high * 2, low / 4);
    EvenPart(high, low / 8);
  }

  lemma PairOfDigits(high: nat, low: nat)
    requires high < 16 && low < 16
    ensures ByteBits(high * 16 + low) == Nibble(high) + Nibble(low)
  {
    HighDigit(high, low);
    LowDigit(high, low);
  }

  lemma HexBitsExtend(s: string, c: char)
    requires AllDigits(s, 16) && IsDigit(c, 16)
    ensures AllDigits(s + [c], 16)
    ensures HexBits(s + [c]) == HexBits(s) + Nibble(HexCharToDigit(c).value)
  {
  }

  lemma {:induction false} HexBitsConcat(a: string, b: string)
    requires AllDigits(a, 16) && AllDigits(b, 16)
    ensures AllDigits(a + b, 16)
    ensures HexBits(a + b) == HexBits(a) + HexBits(b)
  {
    if b == "" {
      assert a + b == a;
    } else {
      var init, last := b[..|b| - 1], b[|b| - 1];
      HexBitsConcat(a, init);
      HexBitsExtend(a + init, last);
      HexBitsExtend(init, last);
      assert b == init + [last];
      Associates(a, init, [last]);
      Associates(HexBits(a), HexBits(init), Nibble(HexCharToDigit(last).value));
    }
  }

  // ----- hexadecimal strings -----

  predicate HexTagged(hex: string)
  {
    |hex| >= 2 && hex[0] == '0' && hex[1] == 'x'
  }

  predicate IsHexString(hex: string)
  {
    HexTagged(hex) && |hex| % 2 == 0 && AllDigits(hex[2..], 16)
  }

  method HexStringToByteString(hex: string) returns (status: StatusCode, bytes: Bytes)
    ensures status == if IsHexString(hex) then Ok else InvalidArgument
    ensures status == Ok ==> BytesBits(bytes) == HexBits(hex[2..])
  {
    bytes := [];
    if !HexTagged(hex) {
      return InvalidArgument, bytes;
    }
    var digits := hex[2..];
    if |digits| % 2 != 0 {
      return InvalidArgument, bytes;
    }
    status, bytes := PairsToBytes(digits);
  }

  method PairsToBytes(digits: string) returns (status: StatusCode, bytes: Bytes)
    requires |digits| % 2 == 0
    ensures status == if AllDigits(digits, 16) then Ok else InvalidArgument
    ensures status == Ok ==> BytesBits(bytes) == HexBits(digits)
  {
    bytes := [];
    var i := 0;
    ghost var pairs := |digits| / 2;
    while i < |digits|
      invariant 0 <= i <= |digits| && i == 2 * |bytes|
      invariant AllDigits(digits[..i], 16)
      invariant BytesBits(bytes) == HexBits(digits[..i])
    {
      assert |bytes| < pairs;
      if !IsDigit(digits[i], 16) {
        return InvalidArgument, bytes;
      }
      if !IsDigit(digits[i + 1], 16) {
        return InvalidArgument, bytes;
      }
      PairExtends(digits, i, bytes);
      bytes := bytes + [PairByte(digits[i], digits[i + 1])];
      i := i + 2;
    }
    assert digits[..|digits|] == digits;
    status := Ok;
  }

  function PairByte(high: char, low: char): Byte
    requires IsDigit(high, 16) && IsDigit(low, 16)
  {
    HexCharToDigit(high).value * 16 + HexCharToDigit(low).value
  }

  lemma PairExtends(digits: string, i: nat, bytes: Bytes)
    requires i + 1 < |digits| && IsDigit(digits[i], 16) && IsDigit(digits[i + 1], 16)
    requires AllDigits(digits[..i], 16) && BytesBits(bytes) == HexBits(digits[..i])
    ensures AllDigits(digits[..i + 2], 16)
    ensures BytesBits(bytes + [PairByte(digits[i], digits[i + 1])])
            == HexBits(digits[..i + 2])
  {
    assert digits[..i + 2] == digits[..i] + [digits[i]] + [digits[i + 1]];
    PairAfter(digits[..i], digits[i], digits[i + 1], bytes);
  }

  lemma PairAfter(s: string, high: char, low: char, bytes: Bytes)
    requires AllDigits(s, 16) && IsDigit(high, 16) && IsDigit(low, 16) && BytesBits(bytes) == HexBits(s)
    ensures AllDigits(s + [high] + [low], 16)
    ensures BytesBits(bytes + [PairByte(high, low)]) == HexBits(s + [high] + [low])
  {
    HexBitsExtend(s, high);
    HexBitsExtend(s + [high], low);
    PairOfDigits(HexCharToDigit(high).value, HexCharToDigit(low).value);
    assert (bytes + [PairByte(high, low)])[..|bytes|] == bytes;
  }

  /** A bit string that grows at the end. */
  class BitString {
    var bits: Bits

    constructor ()
      ensures bits == []
    {
      bits := [];
    }

    method AppendBit(bit: bool)
      modifies this
      ensures bits == old(bits) + [bit]
    {
      bits := bits + [bit];
    }

    /** The eight bits of a byte, most significant first. */
    method AppendBits(byte: Byte)
      modifies this
      ensures bits == old(bits) + ByteBits(byte)
    {
      var weights := [128, 64, 32, 16, 8, 4, 2, 1];
      for i := 0 to 8
        invariant bits == old(bits) + ByteBits(byte)[..i]
      {
        assert ByteBits(byte)[..i + 1] == ByteBits(byte)[..i] + [ByteBits(byte)[i]];
        bits := bits + [byte / weights[i] % 2 == 1];
      }
    }

    method AppendBytes(bytes: Bytes)
      modifies this
      ensures bits == old(bits) + BytesBits(bytes)
    {
      for i := 0 to |bytes|
        invariant bits == old(bits) + BytesBits(bytes[..i])
      {
        assert bytes[..i + 1][..i] == bytes[..i];
        AppendBits(bytes[i]);
      }
      assert bytes[..|bytes|] == bytes;
    }

    method AppendHexString(hex: string) returns (status: StatusCode)
      modifies this
      ensures status == if IsHexString(hex) then Ok else InvalidArgument
      ensures bits == if status == Ok then old(bits) + HexBits(hex[2..]) else old(bits)
    {
      var bytes;
      status, bytes := HexStringToByteString(hex);
      if status == Ok {
        AppendBytes(bytes);
      }
    }

    method Pad(n: nat)
      modifies this
      ensures bits == old(bits) + Padding(n)
    {
      for i := 0 to n
        invariant bits == old(bits) + Padding(i)
      {
        AppendBit(false);
      }
    }
  }

  /** On an error the padding and the bits of the valid prefix have been appended. */
  method AppendBitCharStringToPDPIBitString(result: BitString, s: string, numBits: nat) returns (status: StatusCode)
    modifies result
    ensures status == if |s| <= numBits && AllDigits(s, 2) then Ok else InvalidArgument
    ensures result.bits == if |s| > numBits then old(result.bits)
                           else old(result.bits) + Padding(numBits - |s|) + BinaryBits(s[..DigitRun(s, 2)])
  {
    if |s| > numBits {
      return InvalidArgument;
    }
    result.Pad(numBits - |s|);
    RunOfDigits(s, 2);
    for i := 0 to |s|
      invariant AllDigits(s[..i], 2) && i <= DigitRun(s, 2)
      invariant result.bits == old(result.bits) + Padding(numBits - |s|) + BinaryBits(s[..i])
    {
      assert s[..i + 1] == s[..i] + [s[i]];
      BinaryDigit(s[i]);
      assert i < DigitRun(s, 2) ==> IsDigit(s[..DigitRun(s, 2)][i], 2);
      match s[i] {
        case '1' => result.AppendBit(true);
        case '0' => result.AppendBit(false);
        case _ => return InvalidArgument;
      }
    }
    status := Ok;
  }

  lemma BinaryDigit(c: char)
    ensures IsDigit(c, 2) <==> c == '0' || c == '1'
  {
  }

  /** What a hexadecimal string appends: all of it, or on an error a valid first digit of an odd-length string. */
  function HexAppended(s: string): Bits
  {
    if AllDigits(s, 16) then HexBits(s)
    else if |s| % 2 == 1 && IsDigit(s[0], 16) then Nibble(HexCharToDigit(s[0]).value)
    else []
  }

  /** The source's view of the same: a first digit on its own, then the pairs, if they are all digits. */
  function HexRest(rest: string): Bits
  {
    if AllDigits(rest, 16) then HexBits(rest) else []
  }

  lemma EvenAppended(s: string)
    requires |s| % 2 == 0
    ensures HexAppended(s) == HexRest(s)
  {
  }

  lemma OddLength(s: string)
    requires |s| % 2 != 0
    ensures |s| % 2 == 1 && s != "" && |s[1..]| % 2 == 0
  {
  }

  lemma Associate(a: Bits, b: Bits, c: Bits)
    ensures a + b + c == a + (b + c)
  {
  }

  lemma OddAppended(s: string)
    requires |s| % 2 == 1 && IsDigit(s[0], 16)
    ensures AllDigits(s, 16) <==> AllDigits(s[1..], 16)
    ensures HexAppended(s) == Nibble(HexCharToDigit(s[0]).value) + HexRest(s[1..])
  {
    var first := [s[0]];
    assert s == first + s[1..];
    assert first[..0] == "" && AllDigits(first, 16);
    assert HexBits(first) == Nibble(HexCharToDigit(s[0]).value);
    if AllDigits(s[1..], 16) {
      HexBitsConcat(first, s[1..]);
    } else {
      assert !AllDigits(s, 16);
      assert Nibble(HexCharToDigit(s[0]).value) + [] == Nibble(HexCharToDigit(s[0]).value);
    }
  }

  method AppendDigit(result: BitString, digit: nat)
    modifies result
    ensures result.bits == old(result.bits) + Nibble(digit)
  {
    var weights := [1, 2, 4, 8];
    var i := 3;
    while i >= 0
      invariant -1 <= i <= 3
      invariant result.bits == old(result.bits) + Nibble(digit)[..3 - i]
    {
      result.AppendBit(digit / weights[i] % 2 == 1);
      i := i - 1;
    }
  }

  method AppendHexCharStringToPDPIBitString(result: BitString, s: string, numBits: nat) returns (status: StatusCode)
    modifies result
    ensures status == if 4 * |s| <= numBits && AllDigits(s, 16) then Ok else InvalidArgument
    ensures result.bits == if 4 * |s| > numBits then old(result.bits)
                           else old(result.bits) + Padding(numBits - 4 * |s|) + HexAppended(s)
  {
    if 4 * |s| > numBits {
      return InvalidArgument;
    }
    result.Pad(numBits - 4 * |s|);
    ghost var padded := result.bits;
    if |s| % 2 == 0 {
      EvenAppended(s);
      status := AppendPairs(result, s);
      return;
    }
    OddLength(s);
    var digit := HexCharToDigit(s[0]);
    if digit == None {
      assert !IsDigit(s[0], 16);
      assert HexAppended(s) == [];
      return InvalidArgument;
    }
    OddAppended(s);
    AppendDigit(result, digit.value);
    status := AppendPairs(result, s[1..]);
    Associate(padded, Nibble(digit.value), HexRest(s[1..]));
  }

  method AppendPairs(result: BitString, digits: string) returns (status: StatusCode)
    requires |digits| % 2 == 0
    modifies result
    ensures status == if AllDigits(digits, 16) then Ok else InvalidArgument
    ensures result.bits == old(result.bits) + HexRest(digits)
  {
    var hex := "0x" + digits;
    assert hex[2..] == digits;
    status := result.AppendHexString(hex);
  }

  // ----- the value a Z3 string denotes -----

  predicate Tagged(value: string, tag: char)
  {
    |value| >= 2 && value[0] == '#' && value[1] == tag
  }

  /** A bit-vector value of at most `width` bits: "#x" and hexadecimal digits, or "#b" and bits. */
  predicate WellFormed(value: string, width: nat)
  {
    || (Tagged(value, 'x') && AllDigits(value[2..], 16) && 4 * |value[2..]| <= width)
    || (Tagged(value, 'b') && AllDigits(value[2..], 2) && |value[2..]| <= width)
  }

  function ValueOf(value: string, width: nat): nat
    requires WellFormed(value, width)
  {
    if Tagged(value, 'x') then NumberOf(value[2..], 16) else NumberOf(value[2..], 2)
  }

  /** Succeeds exactly on well-formed values, and then appends exactly numBits bits that denote the value. */
  method AppendZ3ValueStringToBitString(result: BitString, value: string, numBits: nat) returns (status: StatusCode)
    modifies result
    ensures status == if WellFormed(value, numBits) then Ok else InvalidArgument
    ensures status == Ok ==>
              && |result.bits| == |old(result.bits)| + numBits
              && old(result.bits) <= result.bits
              && BitsValue(result.bits[|old(result.bits)|..]) == ValueOf(value, numBits)
  {
    ghost var start := result.bits;
    if Tagged(value, 'x') {
      var digits := value[2..];
      status := AppendHexCharStringToPDPIBitString(result, digits, numBits);
      if status == Ok {
        assert result.bits[|start|..] == Padding(numBits - 4 * |digits|) + HexBits(digits);
        PaddingIsNeutral(numBits - 4 * |digits|, HexBits(digits));
        HexBitsValue(digits);
      }
    } else if Tagged(value, 'b') {
      var digits := value[2..];
      status := AppendBitCharStringToPDPIBitString(result, digits, numBits);
      if status == Ok {
        RunOfDigits(digits, 2);
        assert digits[..|digits|] == digits;
        assert result.bits[|start|..] == Padding(numBits - |digits|) + BinaryBits(digits);
        PaddingIsNeutral(numBits - |digits|, BinaryBits(digits));
        BinaryBitsValue(digits);
      }
    } else {
      status := InvalidArgument;
    }
  }

  // ----- conversion to integers -----

  /** The outcome of a conversion: a number, an error status, or a C++ exception. */
  datatype Decoded = Number(value: nat) | Refused(code: StatusCode) | Thrown

  predicate IsSpace(c: char)
  {
    c == ' ' || c == '\t' || c == '\n' || c == '\r' || c == 11 as char || c == 12 as char
  }

  function SkipSpaces(s: string): string
  {
    if s != "" && IsSpace(s[0]) then SkipSpaces(s[1..]) else s
  }

  function SkipTrailingSpaces(s: string): string
  {
    if s != "" && IsSpace(s[|s| - 1]) then SkipTrailingSpaces(s[..|s| - 1]) else s
  }

  predicate HexPrefixed(s: string)
  {
    |s| >= 2 && s[0] == '0' && (s[1] == 'x' || s[1] == 'X')
  }

  /** std::stoull: spaces, a sign, a "0x" before hexadecimal digits, and the longest run of digits. */
  function Stoull(s: string, base: nat): Decoded
  {
    var t := SkipSpaces(s);
    var negative := t != "" && t[0] == '-';
    var unsigned := if t != "" && (t[0] == '-' || t[0] == '+') then t[1..] else t;
    var body := if base == 16 && HexPrefixed(unsigned) && |unsigned| > 2 && IsDigit(unsigned[2], 16)
                then unsigned[2..] else unsigned;
    var digits := body[..DigitRun(body, base)];
    if digits == "" then Thrown
    else
      var n := NumberOf(digits, base);
      if n >= Pow2(64) then Thrown
      else if negative then Number((Pow2(64) - n) % Pow2(64)) else Number(n)
  }

  /** absl::SimpleHexAtoi for 128 bits: the whole text must be digits, after spaces, a plus sign or "0x". */
  function SimpleHexAtoi(s: string): Option<nat>
  {
    var t := SkipTrailingSpaces(SkipSpaces(s));
    if t != "" && t[0] == '-' then None
    else
      var unsigned := if t != "" && t[0] == '+' then t[1..] else t;
      var body := if HexPrefixed(unsigned) then unsigned[2..] else unsigned;
      if body == "" || !AllDigits(body, 16) || NumberOf(body, 16) >= Pow2(128) then None
      else Some(NumberOf(body, 16))
  }

  function Z3ValueStringToInt(value: string): Decoded
  {
    if Tagged(value, 'x') then Stoull(value[2..], 16)
    else if Tagged(value, 'b') then Stoull(value[2..], 2)
    else if value == "true" then Number(1)
    else if value == "false" then Number(0)
    else Stoull(value, 10)
  }

  function EvalZ3BitvectorToUInt64(value: string, size: nat): Decoded
  {
    if size > 64 then Refused(InvalidArgument) else Z3ValueStringToInt(value)
  }

  /** The number with the given upper and lower 64 bits. */
  function MakeUint128(hi: nat, lo: nat): nat
  {
    hi * Pow2(64) + lo
  }

  function EvalZ3BitvectorToUInt128(value: string, size: nat): Decoded
  {
    if size > 128 then Refused(InvalidArgument)
    else if Tagged(value, 'x') then
      var n := SimpleHexAtoi(value[2..]);
      if n == None then Refused(InvalidArgument) else Number(n.value)
    else if Tagged(value, 'b') then
      var digits := value[2..];
      if |digits| > 64 then
        var hi := Stoull(digits[..|digits| - 64], 2);
        var lo := Stoull(digits[|digits| - 64..], 2);
        if hi.Number? && lo.Number? then Number(MakeUint128(hi.value, lo.value)) else Thrown
      else
        var lo := Stoull(digits, 2);
        if lo.Number? then Number(MakeUint128(0, lo.value)) else Thrown
    else Refused(InvalidArgument)
  }

  // ----- the decoders agree -----

  lemma DigitsArePlain(s: string, base: nat)
    requires AllDigits(s, base)
    ensures SkipSpaces(s) == s == SkipTrailingSpaces(s)
    ensures s != "" ==> s[0] != '-' && s[0] != '+'
    ensures !HexPrefixed(s)
  {
  }

  /** On plain digits stoull is their number, unless there are none or the number needs more than 64 bits. */
  lemma StoullOfDigits(s: string, base: nat)
    requires AllDigits(s, base)
    ensures Stoull(s, base) == if s != "" && NumberOf(s, base) < Pow2(64) then Number(NumberOf(s, base)) else Thrown
  {
    RunOfDigits(s, base);
    assert s[..|s|] == s;
    DigitsArePlain(s, base);
  }

  lemma SimpleHexAtoiOfDigits(s: string)
    requires AllDigits(s, 16)
    ensures SimpleHexAtoi(s) == if s != "" && NumberOf(s, 16) < Pow2(128) then Some(NumberOf(s, 16)) else None
  {
    DigitsArePlain(s, 16);
  }

  lemma SplitNumber(a: string, b: string)
    requires AllDigits(a, 2) && AllDigits(b, 2)
    ensures AllDigits(a + b, 2)
    ensures NumberOf(a + b, 2) == NumberOf(a, 2) * Pow2(|b|) + NumberOf(b, 2)
    ensures NumberOf(b, 2) < Pow2(|b|)
  {
    BinaryBitsValue(a);
    BinaryBitsValue(b);
    BinaryBitsValue(a + b);
    assert BinaryBits(a + b) == BinaryBits(a) + BinaryBits(b);
    BitsConcat(BinaryBits(a), BinaryBits(b));
    BitsBound(BinaryBits(b));
  }

  /** A well-formed value is below 2^width. */
  lemma ValueFits(value: string, width: nat)
    requires WellFormed(value, width)
    ensures ValueOf(value, width) < Pow2(width)
  {
    var digits := value[2..];
    if Tagged(value, 'x') {
      HexBitsValue(digits);
      BitsBound(HexBits(digits));
      Pow2Monotone(4 * |digits|, width);
    } else {
      BinaryBitsValue(digits);
      BitsBound(BinaryBits(digits));
      Pow2Monotone(|digits|, width);
    }
  }

  /**
    The 64-bit decoder reads what the bit-string decoder appends, exactly when there is a digit and
    64 bits suffice.
   */
  lemma IntAgrees(value: string, width: nat)
    requires WellFormed(value, width)
    ensures Z3ValueStringToInt(value)
            == if |value| > 2 && ValueOf(value, width) < Pow2(64) then Number(ValueOf(value, width)) else Thrown
  {
    StoullOfDigits(value[2..], if Tagged(value, 'x') then 16 else 2);
  }

  /** A number split into two 64-bit halves needs more than 128 bits exactly when its upper half overflows. */
  lemma SplitOverflow(hi: nat, lo: nat)
    requires lo < Pow2(64)
    ensures MakeUint128(hi, lo) < Pow2(128) <==> hi < Pow2(64)
  {
    Pow2Sum(64, 64);
    if hi < Pow2(64) {
      ScaleMonotone(hi + 1, Pow2(64), Pow2(64));
    } else {
      ScaleMonotone(Pow2(64), hi, Pow2(64));
    }
  }

  lemma SplitHalves(digits: string)
    requires AllDigits(digits, 2) && |digits| > 64
    ensures var hi, lo := Stoull(digits[..|digits| - 64], 2), Stoull(digits[|digits| - 64..], 2);
            && lo.Number?
            && (hi.Number? <==> NumberOf(digits, 2) < Pow2(128))
            && (hi.Number? ==> MakeUint128(hi.value, lo.value) == NumberOf(digits, 2))
  {
    var a, b := digits[..|digits| - 64], digits[|digits| - 64..];
    assert AllDigits(a, 2) && AllDigits(b, 2);
    assert digits == a + b;
    SplitNumber(a, b);
    StoullOfDigits(a, 2);
    StoullOfDigits(b, 2);
    SplitOverflow(NumberOf(a, 2), NumberOf(b, 2));
  }

  /** The 128-bit decoder agrees too, exactly when there is a digit; too wide a vector is refused. */
  lemma UInt128Agrees(value: string, width: nat)
    requires WellFormed(value, width) && width <= 128
    ensures EvalZ3BitvectorToUInt128(value, width)
            == if |value| > 2 then Number(ValueOf(value, width))
               else if Tagged(value, 'x') then Refused(InvalidArgument) else Thrown
  {
    var digits := value[2..];
    ValueFits(value, width);
    Pow2Monotone(width, 128);
    if Tagged(value, 'x') {
      SimpleHexAtoiOfDigits(digits);
    } else if |digits| > 64 {
      SplitHalves(digits);
    } else {
      StoullOfDigits(digits, 2);
      BinaryBitsValue(digits);
      BitsBound(BinaryBits(digits));
      Pow2Monotone(|digits|, 64);
    }
  }

  /** On every value the bit-string decoder accepts, with a digit and within the width limits, all three agree. */
  lemma DecodersAgree(value: string, width: nat)
    requires WellFormed(value, width) && |value| > 2
    ensures width <= 64 ==> EvalZ3BitvectorToUInt64(value, width) == Number(ValueOf(value, width))
    ensures width <= 128 ==> EvalZ3BitvectorToUInt128(value, width) == Number(ValueOf(value, width))
  {
    ValueFits(value, width);
    if width <= 64 {
      Pow2Monotone(width, 64);
      IntAgrees(value, width);
    }
    if width <= 128 {
      UInt128Agrees(value, width);
    }
  }

  // ----- other texts -----

  predicate Spaces(s: string)
  {
    forall i :: 0 <= i < |s| ==> s[i] in {' ', '\t', '\n', '\r', 11 as char, 12 as char}
  }

  lemma {:induction false} SpacesSkipped(spaces: string, s: string)
    requires Spaces(spaces) && (s == "" || !IsSpace(s[0]))
    ensures SkipSpaces(spaces + s) == s
  {
    if spaces == "" {
      assert spaces + s == s;
    } else {
      assert (spaces + s)[1..] == spaces[1..] + s;
      SpacesSkipped(spaces[1..], s);
    }
  }

  lemma {:induction false} SpacesSkippedAtEnd(s: string, spaces: string)
    requires Spaces(spaces) && (s == "" || !IsSpace(s[|s| - 1]))
    ensures SkipTrailingSpaces(s + spaces) == s
  {
    if spaces == "" {
      assert s + spaces == s;
    } else {
      var n := |spaces| - 1;
      assert (s + spaces)[..|s| + n] == s + spaces[..n];
      SpacesSkippedAtEnd(s, spaces[..n]);
    }
  }

  lemma {:induction false} RunBeforeRest(digits: string, rest: string, base: nat)
    requires AllDigits(digits, base) && (rest == "" || !IsDigit(rest[0], base))
    ensures DigitRun(digits + rest, base) == |digits|
  {
    if digits == "" {
      assert digits + rest == rest;
    } else {
      assert (digits + rest)[1..] == digits[1..] + rest;
      RunBeforeRest(digits[1..], rest, base);
    }
  }

  /** stoull reads the digits after spaces and a sign and ignores what follows them. */
  lemma StoullReads(spaces: string, sign: string, digits: string, rest: string, base: nat)
    requires Spaces(spaces) && (sign == "" || sign == "-" || sign == "+")
    requires digits != "" && AllDigits(digits, base) && (rest == "" || !IsDigit(rest[0], base))
    requires base == 16 ==> !HexPrefixed(digits + rest)
    ensures Stoull(spaces + (sign + (digits + rest)), base)
            == var n := NumberOf(digits, base);
               if n >= Pow2(64) then Thrown
               else if sign == "-" then Number(if n == 0 then 0 else Pow2(64) - n)
               else Number(n)
  {
    var text, signed := digits + rest, sign + (digits + rest);
    assert text[0] == digits[0] && IsDigit(digits[0], base);
    assert signed[0] == if sign == "" then digits[0] else sign[0];
    SpacesSkipped(spaces, signed);
    RunBeforeRest(digits, rest, base);
    assert text[..|digits|] == digits;
    if sign == "" {
      assert signed == text;
      StoullOfText(spaces + signed, text, digits, base);
    } else {
      assert signed[1..] == text;
      StoullOfSigned(spaces + signed, signed, digits, base);
    }
  }

  lemma StoullOfText(s: string, text: string, digits: string, base: nat)
    requires SkipSpaces(s) == text && digits != "" && AllDigits(digits, base)
    requires text != "" && text[0] != '-' && text[0] != '+'
    requires text[..DigitRun(text, base)] == digits && (base == 16 ==> !HexPrefixed(text))
    ensures Stoull(s, base) == if NumberOf(digits, base) >= Pow2(64) then Thrown else Number(NumberOf(digits, base))
  {
  }

  lemma StoullOfSigned(s: string, t: string, digits: string, base: nat)
    requires SkipSpaces(s) == t && digits != "" && AllDigits(digits, base)
    requires t != "" && (t[0] == '-' || t[0] == '+')
    requires t[1..][..DigitRun(t[1..], base)] == digits && (base == 16 ==> !HexPrefixed(t[1..]))
    ensures Stoull(s, base)
            == var n := NumberOf(digits, base);
               if n >= Pow2(64) then Thrown
               else if t[0] == '-' then Number(if n == 0 then 0 else Pow2(64) - n)
               else Number(n)
  {
    SmallOrZero(NumberOf(digits, base), Pow2(64));
  }

  lemma SmallOrZero(n: nat, limit: nat)
    requires limit > 0
    ensures n < limit ==> (limit - n) % limit == if n == 0 then 0 else limit - n
  {
  }

  /** Where there is no digit, stoull throws. */
  lemma StoullThrows(spaces: string, rest: string, base: nat)
    requires Spaces(spaces)
    requires rest == "" || (!IsSpace(rest[0]) && rest[0] != '-' && rest[0] != '+' && !IsDigit(rest[0], base))
    ensures Stoull(spaces + rest, base) == Thrown
  {
    SpacesSkipped(spaces, rest);
    assert rest == "" + rest;
    RunBeforeRest("", rest, base);
  }

  /** Booleans have values of their own. */
  lemma BooleanValues()
    ensures Z3ValueStringToInt("true") == Number(1) && Z3ValueStringToInt("false") == Number(0)
  {
    assert "true"[0] == 't' && "false"[0] == 'f';
  }

  /** Text of decimal digits only is a decimal number. */
  lemma DecimalValues(digits: string)
    requires AllDigits(digits, 10)
    ensures Z3ValueStringToInt(digits)
            == if digits != "" && NumberOf(digits, 10) < Pow2(64) then Number(NumberOf(digits, 10)) else Thrown
  {
    StoullOfDigits(digits, 10);
    NoOtherText(digits);
  }

  lemma NoOtherText(digits: string)
    requires AllDigits(digits, 10)
    ensures digits != "true" && digits != "false" && !Tagged(digits, 'x') && !Tagged(digits, 'b')
  {
    assert "true"[0] == 't' && "false"[0] == 'f';
    if digits != "" {
      assert IsDigit(digits[0], 10);
    }
  }

  /** What is refused as too wide, or as no bit vector. */
  lemma RefusedValues(value: string, size: nat)
    ensures size > 64 ==> EvalZ3BitvectorToUInt64(value, size) == Refused(InvalidArgument)
    ensures size <= 64 ==> EvalZ3BitvectorToUInt64(value, size) == Z3ValueStringToInt(value)
    ensures size > 128 || !(|value| >= 2 && value[0] == '#' && (value[1] == 'x' || value[1] == 'b')) ==>
              EvalZ3BitvectorToUInt128(value, size) == Refused(InvalidArgument)
  {
  }

  /** absl::SimpleHexAtoi takes digits between spaces, after a plus sign or "0x", and nothing else after them. */
  lemma SimpleHexAtoiReads(before: string, digits: string, after: string)
    requires Spaces(before) && Spaces(after) && digits != "" && AllDigits(digits, 16)
    ensures var n := if NumberOf(digits, 16) < Pow2(128) then Some(NumberOf(digits, 16)) else None;
            SimpleHexAtoi(before + (digits + after)) == n
            && SimpleHexAtoi("+" + digits) == n && SimpleHexAtoi("0x" + digits) == n
            && SimpleHexAtoi("-" + digits) == None
  {
    SpacedDigits(before, digits, after);
    SimpleHexAtoiOf(before + (digits + after), digits, digits, digits);
    PlainEnds("+", digits);
    assert ("+" + digits)[1..] == digits;
    SimpleHexAtoiOf("+" + digits, "+" + digits, digits, digits);
    PlainEnds("0x", digits);
    assert ("0x" + digits)[2..] == digits;
    SimpleHexAtoiOf("0x" + digits, "0x" + digits, "0x" + digits, digits);
    PlainEnds("-", digits);
  }

  lemma SpacedDigits(before: string, digits: string, after: string)
    requires Spaces(before) && Spaces(after) && digits != "" && AllDigits(digits, 16)
    ensures SkipTrailingSpaces(SkipSpaces(before + (digits + after))) == digits
  {
    assert IsDigit(digits[0], 16) && IsDigit(digits[|digits| - 1], 16);
    assert (digits + after)[0] == digits[0];
    SpacesSkipped(before, digits + after);
    SpacesSkippedAtEnd(digits, after);
  }

  /** The text s without spaces is t, that without a sign is `unsigned`, and that without "0x" is digits. */
  lemma SimpleHexAtoiOf(s: string, t: string, unsigned: string, digits: string)
    requires SkipTrailingSpaces(SkipSpaces(s)) == t && t != "" && t[0] != '-'
    requires unsigned == if t[0] == '+' then t[1..] else t
    requires digits != "" && AllDigits(digits, 16)
    requires digits == if HexPrefixed(unsigned) then unsigned[2..] else unsigned
    ensures SimpleHexAtoi(s) == if NumberOf(digits, 16) < Pow2(128) then Some(NumberOf(digits, 16)) else None
  {
  }

  lemma PlainEnds(prefix: string, digits: string)
    requires prefix != "" && !IsSpace(prefix[0]) && digits != "" && AllDigits(digits, 16)
    ensures SkipTrailingSpaces(SkipSpaces(prefix + digits)) == prefix + digits
  {
    var s := prefix + digits;
    assert s[0] == prefix[0] && s[|s| - 1] == digits[|digits| - 1] && IsDigit(digits[|digits| - 1], 16);
  }

  /** Text without a digit is accepted as zero bits, but no integer can be read from it. */
  lemma EmptyValues(width: nat)
    ensures WellFormed("#x", width) && WellFormed("#b", width)
    ensures ValueOf("#x", width) == ValueOf("#b", width) == 0
    ensures Z3ValueStringToInt("#x") == Z3ValueStringToInt("#b") == Thrown
  {
  }
}

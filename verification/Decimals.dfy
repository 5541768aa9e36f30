/** Decimal printing of 32-bit numbers: the digit count by a closed formula, and the digits
    written backwards two at a time. */
module Decimals {
  import opened Bytes
  import opened Bits

  const U32: nat := 0x1_0000_0000

  /** The decimal numeral of `n`, without leading zeros. */
  function Decimal(n: nat): (r: seq<byte>)
    ensures r != [] && forall i :: 0 <= i < |r| ==> 48 <= r[i] <= 57
  {
    if n < 10 then [48 + n] else Decimal(n / 10) + [48 + n % 10]
  }

  function Value(digits: seq<byte>): int
    decreases |digits|
  {
    if digits == [] then 0
    else 10 * Value(digits[..|digits| - 1]) + (digits[|digits| - 1] as int - 48)
  }

  function Pow10(n: nat): nat {
    if n == 0 then 1 else 10 * Pow10(n - 1)
  }

  /** The numeral denotes its number, and starts with 0 only for 0 itself. */
  lemma {:induction false} DecimalDenotes(n: nat)
    ensures Value(Decimal(n)) == n
    ensures Decimal(n)[0] == 48 ==> n == 0
  {
    if n < 10 {
      assert Decimal(n)[..0] == [];
    } else {
      DecimalDenotes(n / 10);
      assert Decimal(n)[..|Decimal(n)| - 1] == Decimal(n / 10);
    }
  }

  lemma {:induction false} DecimalLength(n: nat, k: nat)
    requires Pow10(k) <= n < Pow10(k + 1) || (k == 0 && n < 10)
    ensures |Decimal(n)| == k + 1
    decreases k
  {
    if k > 0 {
      assert Pow10(k) >= 10 by { Pow10Positive(k - 1); }
      DecimalLength(n / 10, k - 1);
    }
  }

  lemma {:induction false} Pow10Positive(k: nat)
    ensures Pow10(k) >= 1
  {
    if k > 0 { Pow10Positive(k - 1); }
  }

  // ---------- utility_u32_len ----------

  function BitCount(x: nat): nat {
    if x == 0 then 0 else 1 + BitCount(x / 2)
  }

  /** `__builtin_clz`: the leading zero bits of a non-zero 32-bit number. */
  function CountLeadingZeros(x: nat): nat
    requires 0 < x < U32
  {
    BitCountBounds(x);
    U32IsPow2();
    BitCountBelow(x, 32);
    32 - BitCount(x)
  }

  lemma {:induction false} BitCountBounds(x: nat)
    requires x > 0
    ensures 1 <= BitCount(x)
    ensures Pow2(BitCount(x) - 1) <= x < Pow2(BitCount(x))
  {
    if x > 1 { BitCountBounds(x / 2); } else { assert BitCount(1) == 1; }
  }

  lemma {:induction false} BitCountBelow(x: nat, k: nat)
    requires x < Pow2(k)
    ensures BitCount(x) <= k
    decreases k
  {
    if k > 0 && x > 0 { BitCountBelow(x / 2, k - 1); }
  }

  lemma U32IsPow2()
    ensures Pow2(32) == U32
  {
    assert Pow2(8) == 256 by { assert Pow2(4) == 16; }
    Pow2Add(8, 8);
    Pow2Add(16, 16);
  }

  const POW_10: seq<nat> := [0, 10, 100, 1000, 10000, 100000, 1000000, 10000000, 100000000, 1000000000]

  lemma Pow10Table(t: nat)
    requires 1 <= t <= 9
    ensures POW_10[t] == Pow10(t)
  {
    assert Pow10(3) == 1000;
    assert Pow10(6) == 1000000 by { assert Pow10(5) == 100000; assert Pow10(4) == 10000; }
    assert Pow10(9) == 1000000000 by { assert Pow10(8) == 100000000; assert Pow10(7) == 10000000; }
    assert Pow10(1) == 10 && Pow10(2) == 100;
  }

  /** 1233/4096 is close enough to log10(2): a number of `b` bits has `t` or `t + 1` digits. */
  lemma LogEstimate(b: nat, t: nat)
    requires 1 <= b <= 32 && t == b * 1233 / 4096
    ensures t <= 9
    ensures t == 0 ==> Pow2(b) <= 10
    ensures 1 <= t ==> Pow2(b) <= 10 * POW_10[t]
    ensures t == 1 ==> 1 <= Pow2(b - 1)
    ensures 2 <= t ==> POW_10[t - 1] <= Pow2(b - 1)
  {
    hide Pow2;
    Pow2Values();
    if b <= 8 {
      assert b == 1 || b == 2 || b == 3 || b == 4 || b == 5 || b == 6 || b == 7 || b == 8;
    } else if b <= 16 {
      assert b == 9 || b == 10 || b == 11 || b == 12 || b == 13 || b == 14 || b == 15 || b == 16;
    } else if b <= 24 {
      assert b == 17 || b == 18 || b == 19 || b == 20 || b == 21 || b == 22 || b == 23 || b == 24;
    } else {
      assert b == 25 || b == 26 || b == 27 || b == 28 || b == 29 || b == 30 || b == 31 || b == 32;
    }
  }

  /** The powers of two up to 2^32, spelled out. */
  lemma Pow2Values()
    ensures Pow2(0) == 1 && Pow2(1) == 2 && Pow2(2) == 4 && Pow2(3) == 8
    ensures Pow2(4) == 16 && Pow2(5) == 32 && Pow2(6) == 64 && Pow2(7) == 128
    ensures Pow2(8) == 256 && Pow2(9) == 512 && Pow2(10) == 1024 && Pow2(11) == 2048
    ensures Pow2(12) == 4096 && Pow2(13) == 8192 && Pow2(14) == 16384 && Pow2(15) == 32768
    ensures Pow2(16) == 65536 && Pow2(17) == 131072 && Pow2(18) == 262144 && Pow2(19) == 524288
    ensures Pow2(20) == 1048576 && Pow2(21) == 2097152 && Pow2(22) == 4194304 && Pow2(23) == 8388608
    ensures Pow2(24) == 16777216 && Pow2(25) == 33554432 && Pow2(26) == 67108864 && Pow2(27) == 134217728
    ensures Pow2(28) == 268435456 && Pow2(29) == 536870912 && Pow2(30) == 1073741824 && Pow2(31) == 2147483648
    ensures Pow2(32) == 4294967296
  {
  }

  lemma OrOne(n: nat)
    ensures Or(n, 1) == if n % 2 == 1 then n else n + 1
  {
    OrZero(n / 2);
    assert Or(n / 2, 0) == n / 2;
  }

  /** `utility_u32_len`: the exact number of decimal digits. */
  method U32Len(n: nat) returns (len: nat)
    requires n < U32
    ensures len == |Decimal(n)| <= 10
  {
    hide Or, Decimal, BitCount;
    OrOne(n);
    U32IsPow2();
    var x := Or(n, 1);
    var b := 32 - CountLeadingZeros(x);
    BitCountBounds(x);
    BitCountBelow(x, 32);
    var t := b * 1233 / 4096;
    LogEstimate(b, t);
    len := t - (if n < POW_10[t] then 1 else 0) + 1;
    DigitsByEstimate(n, b, t);
  }

  lemma DigitsByEstimate(n: nat, b: nat, t: nat)
    requires 1 <= b <= 32 && t == b * 1233 / 4096 && t <= 9
    requires n < Pow2(b) && (n == 0 ==> b == 1) && (n > 0 ==> Pow2(b - 1) <= n + (n + 1) % 2)
    ensures |Decimal(n)| == t - (if n < POW_10[t] then 1 else 0) + 1
  {
    hide Decimal, Pow10;
    LogEstimate(b, t);
    if n > 0 && t >= 2 { EvenPower(b, n); }
    if t == 0 {
      DecimalLength(n, 0);
    } else {
      Pow10Table(t);
      Pow10Next(t);
      if n < POW_10[t] {
        if t == 1 { DecimalLength(n, 0); } else {
          Pow10Table(t - 1);
          DecimalLength(n, t - 1);
        }
      } else {
        DecimalLength(n, t);
      }
    }
  }

  /** Setting the lowest bit does not reach the next power of two. */
  lemma EvenPower(b: nat, n: nat)
    requires 2 <= b && Pow2(b - 1) <= n + (n + 1) % 2
    ensures Pow2(b - 1) <= n
  {
    assert Pow2(b - 1) == 2 * Pow2(b - 2);
  }

  lemma Pow10Next(t: nat)
    ensures Pow10(t + 1) == 10 * Pow10(t)
  {
  }

  // ---------- utility_u32_sprint ----------

  /** The table "00", "01", ..., "99" as one string. */
  const DIGITS: seq<byte> := seq(200, i requires 0 <= i < 200 => 48 + (if i % 2 == 0 then i / 2 / 10 else i / 2 % 10))

  function Pair(k: nat): (r: seq<byte>)
    requires k < 100
    ensures |r| == 2
  {
    [48 + k / 10, 48 + k % 10]
  }

  lemma DecimalPair(n: nat)
    requires n >= 10
    ensures n >= 100 ==> Decimal(n) == Decimal(n / 100) + Pair(n % 100)
    ensures n < 100 ==> Decimal(n) == Pair(n)
  {
    if n >= 100 {
      assert n / 10 / 10 == n / 100 && n / 10 % 10 == n % 100 / 10 && n % 100 % 10 == n % 10;
      assert Decimal(n) == Decimal(n / 10) + [48 + n % 10];
      assert Decimal(n / 10) == Decimal(n / 100) + [48 + n % 100 / 10];
      assert Pair(n % 100) == [48 + n % 100 / 10] + [48 + n % 10];
    } else {
      assert Decimal(n / 10) == [48 + n / 10];
    }
  }

  lemma TableEntry(k: nat)
    requires k < 100
    ensures DIGITS[2 * k] == 48 + k / 10 && DIGITS[2 * k + 1] == 48 + k % 10
  {
  }

  /** `*--string = b`. */
  method PutBefore(string_: array<byte>, p: nat, b: byte) returns (q: nat)
    requires 0 < p <= string_.Length
    modifies string_
    ensures q == p - 1
    ensures string_[q..] == [b] + old(string_[p..])
    ensures string_[..q] == old(string_[..q])
  {
    q := p - 1;
    string_[q] := b;
  }

  /** Two digits from the table, written before position `p`. */
  method PutPair(string_: array<byte>, p: nat, k: nat) returns (q: nat)
    requires 2 <= p <= string_.Length && k < 100
    modifies string_
    ensures q == p - 2
    ensures string_[q..] == Pair(k) + old(string_[p..])
    ensures string_[..q] == old(string_[..p])[..q]
  {
    TableEntry(k);
    var i := k * 2;
    q := PutBefore(string_, p, DIGITS[i + 1]);
    q := PutBefore(string_, q, DIGITS[i]);
  }

  /** `utility_u32_sprint`: the numeral ends at position `end` of the string; nothing else changes. */
  method U32Sprint(number: nat, string_: array<byte>, end: nat)
    requires number < U32 && |Decimal(number)| <= end <= string_.Length
    modifies string_
    ensures var start := end - |Decimal(number)|;
            && string_[..start] == old(string_[..start])
            && string_[start..] == Decimal(number) + old(string_[end..])
  {
    hide Decimal, Pair;
    var n, p := number, end;
    ghost var before := string_[..];
    while n >= 100
      invariant |Decimal(n)| <= p <= end && p - |Decimal(n)| == end - |Decimal(number)|
      invariant Decimal(n) + string_[p..] == Decimal(number) + before[end..]
      invariant string_[..p] == before[..p]
      decreases n
    {
      DecimalPair(n);
      ConcatAssociates(Decimal(n / 100), Pair(n % 100), string_[p..]);
      var k := n % 100;
      n := n / 100;
      p := PutPair(string_, p, k);
      assert before[..p + 2][..p] == before[..p];
    }
    DecimalPairOrOne(n);
    if n < 10 {
      p := PutBefore(string_, p, n + 48);
    } else {
      p := PutPair(string_, p, n);
    }
    assert before[..p + |Decimal(n)|][..p] == before[..p];
  }

  lemma DecimalPairOrOne(n: nat)
    requires n < 100
    ensures Decimal(n) == if n < 10 then [48 + n] else Pair(n)
  {
    if n >= 10 { DecimalPair(n); }
  }

  /** `utility_u32_toa`: the numeral and a terminating zero at the front of the string. */
  method U32Toa(number: nat, string_: array<byte>)
    requires number < U32 && |Decimal(number)| < string_.Length
    modifies string_
    ensures var len := |Decimal(number)|;
            && string_[..len] == Decimal(number) && string_[len] == 0
            && string_[len + 1..] == old(string_[len + 1..])
  {
    hide Decimal;
    var length := U32Len(number);
    ghost var before := string_[..];
    string_[length] := 0;
    ghost var ended := string_[..];
    U32Sprint(number, string_, length);
    assert string_[..] == string_[..0] + string_[0..] == Decimal(number) + ended[length..];
    assert string_[length + 1..] == string_[..][length + 1..] == ended[length + 1..];
  }
}

/** Numbers in arrays of bits, least significant bit first (src/common/fixed_array.hpp): storing one, reading it back, and the
    test of whether it fits, which compares doubles. */
module BitNumbers {
  import opened Remainders

  /** The n low bits of a number, least significant first. */
  function BitsOf(value: nat, n: nat): (bits: seq<bool>)
    ensures |bits| == n
  {
    if n == 0 then [] else [value % 2 == 1] + BitsOf(value / 2, n - 1)
  }

  function ValueOf(bits: seq<bool>): nat {
    if bits == [] then 0 else (if bits[0] then 1 else 0) + 2 * ValueOf(bits[1..])
  }

  function Pow2(n: nat): (p: nat)
    ensures p > 0
  {
    if n == 0 then 1 else 2 * Pow2(n - 1)
  }

  lemma {:induction false} ValueOfBits(value: nat, n: nat)
    requires value < Pow2(n)
    ensures ValueOf(BitsOf(value, n)) == value
  {
    if n > 0 {
      ValueOfBits(value / 2, n - 1);
    }
  }

  /** Bit k is the one worth 2^k. */
  lemma {:induction false} BitsOfAt(value: nat, n: nat, k: nat)
    requires k < n
    ensures BitsOf(value, n)[k] == (value / Pow2(k) % 2 == 1)
  {
    hide *;
    FirstBit(value, n, k);
    if k > 0 {
      BitsOfAt(value / 2, n - 1, k - 1);
      HalfFirst(value, Pow2(k - 1));
    }
  }

  lemma FirstBit(value: nat, n: nat, k: nat)
    requires k < n
    ensures if k == 0 then BitsOf(value, n)[0] == (value % 2 == 1) && Pow2(0) == 1
            else BitsOf(value, n)[k] == BitsOf(value / 2, n - 1)[k - 1] && Pow2(k) == 2 * Pow2(k - 1)
  {
  }

  lemma HalfFirst(value: nat, p: nat)
    requires p > 0
    ensures value / 2 / p == value / (2 * p)
  {
    var h, q, r := value / 2, value / 2 / p, value / 2 % p;
    assert h == q * p + r && value == 2 * h + value % 2;
    assert q * (2 * p) == 2 * (q * p);
    ModUnique(value, q, 2 * p, 2 * r + value % 2);
  }

  lemma Pow2Of32()
    ensures Pow2(32) == 0x1_0000_0000
  {
    assert Pow2(8) == 0x100;
    assert Pow2(16) == 0x1_0000;
    assert Pow2(24) == 0x100_0000;
  }

  lemma {:induction false} ValueMore(bits: seq<bool>, b: bool)
    ensures ValueOf(bits + [b]) == ValueOf(bits) + if b then Pow2(|bits|) else 0
  {
    if bits != [] {
      ValueMore(bits[1..], b);
      assert (bits + [b])[1..] == bits[1..] + [b];
    }
  }

  lemma {:induction false} Pow2Grows(m: nat, n: nat)
    requires m <= n
    ensures Pow2(m) <= Pow2(n) && (m < n ==> 2 * Pow2(m) <= Pow2(n))
  {
    if m < n {
      Pow2Grows(m, n - 1);
    }
  }

  lemma {:induction false} Pow2Plus(m: nat, n: nat)
    ensures Pow2(m + n) == Pow2(m) * Pow2(n)
  {
    if m > 0 {
      Pow2Plus(m - 1, n);
      assert Pow2(m) * Pow2(n) == 2 * (Pow2(m - 1) * Pow2(n));
    }
  }

  /** The number of bits of a number. */
  function BitLength(val: nat): (n: nat)
    ensures val < Pow2(n) && (n > 0 ==> Pow2(n - 1) <= val)
  {
    if val == 0 then 0 else 1 + BitLength(val / 2)
  }

  /** The nearest multiple of a unit, of two equally near the even one. */
  function Nearest(val: nat, unit: nat): (r: nat)
    requires unit > 0
    ensures r == val / unit * unit || r == (val / unit + 1) * unit
  {
    var q, r := val / unit, val % unit;
    assert q * unit >= 0 && (q + 1) * unit >= 0;
    if 2 * r > unit || (2 * r == unit && q % 2 == 1) then (q + 1) * unit else q * unit
  }

  /** The double nearest to an integer; a double has 53 significant bits. */
  function Rounded(val: nat): nat {
    var n := BitLength(val);
    if n <= 53 then val else Nearest(val, Pow2(n - 53))
  }

  /** The numbers that the test accepts for an array of a size; the last few of a large array round up to a power of two that
      does not fit. */
  function Limit(size: nat): int {
    if size <= 53 then Pow2(size) else Pow2(size) - Pow2(size - 54)
  }

  lemma RoundedFitsIff(val: nat, size: nat)
    ensures Rounded(val) < Pow2(size) <==> val < Limit(size)
  {
    hide Rounded, BitLength, Pow2;
    var n := BitLength(val);
    RoundedBetween(val);
    if n > size {
      Pow2Grows(size, n - 1);
    } else if n < size {
      Pow2Grows(n, size);
      BelowLimit(n, size);
    } else if n > 53 {
      RoundedAtTop(val);
    } else {
      RoundedExact(val);
    }
  }

  lemma RoundedExact(val: nat)
    requires BitLength(val) <= 53
    ensures Rounded(val) == val
  {
  }

  lemma BelowLimit(n: nat, size: nat)
    requires n < size
    ensures Pow2(n) <= Limit(size)
    ensures Pow2(n) < Pow2(size)
  {
    hide Pow2;
    Pow2Grows(n, size);
    Positive(n);
    if size > 53 {
      Pow2Grows(size - 54, size - 1);
      Pow2Grows(n, size - 1);
      Pow2Grows(size - 1, size);
    }
  }

  lemma Positive(n: nat)
    ensures Pow2(n) > 0
  {
  }

  /** Rounding stays between the powers of two around a number. */
  lemma RoundedBetween(val: nat)
    ensures Rounded(val) <= Pow2(BitLength(val)) && (val > 0 ==> Pow2(BitLength(val) - 1) <= Rounded(val))
  {
    if BitLength(val) > 53 {
      RoundedBetweenLarge(val);
    }
  }

  lemma RoundedBetweenLarge(val: nat)
    requires BitLength(val) > 53
    ensures Pow2(BitLength(val) - 1) <= Rounded(val) <= Pow2(BitLength(val))
  {
    hide BitLength, Pow2, Nearest;
    var n := BitLength(val);
    Pow2Plus(53, n - 53);
    Pow2Plus(52, n - 53);
    Quotient(val, Pow2(n - 53), Pow2(52), Pow2(53));
  }

  lemma Quotient(val: nat, unit: nat, low: nat, high: nat)
    requires unit > 0 && low * unit <= val < high * unit
    ensures low <= val / unit < high
    ensures low * unit <= val / unit * unit && (val / unit + 1) * unit <= high * unit
  {
    var q, r := val / unit, val % unit;
    assert val == q * unit + r;
    assert (q + 1) * unit == q * unit + unit;
    MulReflects(low, q + 1, unit);
    MulReflects(q, high, unit);
    MulMonotone(low, q, unit);
    MulMonotone(q + 1, high, unit);
  }

  /** Among the numbers of exactly n bits, those that round up to 2^n are the last half unit. */
  lemma RoundedAtTop(val: nat)
    requires BitLength(val) > 53
    ensures var n := BitLength(val); Rounded(val) < Pow2(n) <==> val < Pow2(n) - Pow2(n - 54)
  {
    var n := BitLength(val);
    var half := Pow2(n - 54);
    assert Pow2(n - 53) == 2 * half;
    hide Pow2, BitLength, Nearest;
    Pow2Plus(53, n - 53);
    Pow2Of53();
    TopQuotient(val, half);
  }

  lemma Pow2Of53()
    ensures Pow2(53) == 0x20_0000_0000_0000
  {
    assert Pow2(11) == 0x800 && Pow2(10) == 0x400;
    hide Pow2;
    Pow2Of32();
    Pow2Plus(11, 10);
    Pow2Plus(21, 32);
  }

  lemma TopQuotient(val: nat, half: nat)
    requires half > 0 && val < 0x20_0000_0000_0000 * (2 * half)
    ensures var unit := 2 * half;
            Nearest(val, unit) < 0x20_0000_0000_0000 * unit <==> val < 0x20_0000_0000_0000 * unit - half
  {
    var unit, top := 2 * half, 0x20_0000_0000_0000;
    var q, r := val / unit, val % unit;
    assert val == q * unit + r;
    Quotient(val, unit, 0, top);
    assert (q + 1) * unit == q * unit + unit;
    if q < top - 1 {
      hide Nearest;
      MulMonotone(q + 1, top - 1, unit);
    }
  }

  /** num_val_bits_ok, for a number of a type of some width: exact up to 53 bits, and above for all but the numbers that round
      up. A number always fits an array as wide as its type. */
  method NumValBitsOk(val: nat, bitSize: nat, size: nat) returns (ok: bool)
    requires val < Pow2(bitSize)
    ensures ok <==> size >= bitSize || val < Limit(size)
  {
    var valNumBits := bitSize;
    for i := 0 to bitSize
      invariant valNumBits == bitSize
      invariant forall k | 0 <= k < i :: Pow2(k) <= Rounded(val)
    {
      if Pow2(i) > Rounded(val) {
        valNumBits := i;
        break;
      }
    }
    hide Rounded;
    RoundedFitsIff(val, size);
    if valNumBits <= size {
      Pow2Grows(valNumBits, size);
    }
    return valNumBits <= size;
  }

  /** set_ullong: stores the number, or changes nothing and says so. */
  method SetUllong(bits: array<bool>, value: nat) returns (ok: bool)
    requires value < Pow2(64)
    modifies bits
    ensures ok <==> bits.Length >= 64 || value < Limit(bits.Length)
    ensures bits[..] == if ok then BitsOf(value, bits.Length) else old(bits[..])
  {
    hide Limit, Pow2, BitsOf;
    ok := NumValBitsOk(value, 64, bits.Length);
    if !ok {
      return;
    }
    FitsIfAccepted(value, bits.Length);
    for k := 0 to bits.Length
      invariant forall j | 0 <= j < k :: !bits[j]
    {
      bits[k] := false;
    }
    var val: nat, i := value, 0;
    while val > 0
      invariant 0 <= i <= bits.Length && val < Pow2(bits.Length - i)
      invariant forall j | i <= j < bits.Length :: !bits[j]
      invariant BitsOf(value, bits.Length) == bits[..i] + BitsOf(val, bits.Length - i)
    {
      BitsStep(val, bits.Length - i);
      bits[i] := val % 2 == 1;
      val := val / 2;
      i := i + 1;
    }
    ZeroBits(bits.Length - i);
    assert bits[i..] == BitsOf(0, bits.Length - i);
    assert bits[..] == bits[..i] + bits[i..];
  }

  lemma BitsStep(val: nat, n: nat)
    requires 0 < val < Pow2(n)
    ensures n > 0 && val / 2 < Pow2(n - 1) && BitsOf(val, n) == [val % 2 == 1] + BitsOf(val / 2, n - 1)
  {
  }

  lemma {:induction false} ZeroBits(n: nat)
    ensures forall k | 0 <= k < n :: !BitsOf(0, n)[k]
  {
    if n > 0 {
      ZeroBits(n - 1);
    }
  }

  /** What the test accepts does fit. */
  lemma FitsIfAccepted(value: nat, size: nat)
    requires value < Pow2(64) && (size >= 64 || value < Limit(size))
    ensures value < Pow2(size)
  {
    hide Pow2;
    if size >= 64 {
      Pow2Grows(64, size);
    } else if size > 53 {
      Positive(size - 54);
    }
  }

  /** to_ullong: the number the bits spell, modulo 2^64. */
  method ToUllong(bits: array<bool>) returns (val: nat)
    ensures val == ValueOf(bits[..]) % Pow2(64)
  {
    val := 0;
    var exp := 1;
    Pow2Of64();
    assert Pow2(0) == 1 && ValueOf(bits[..0]) == 0;
    hide Pow2, ValueOf;
    for i := 0 to bits.Length
      invariant exp == Pow2(i) % 0x1_0000_0000_0000_0000
      invariant val == ValueOf(bits[..i]) % 0x1_0000_0000_0000_0000
    {
      ValueMore(bits[..i], bits[i]);
      assert bits[..i + 1] == bits[..i] + [bits[i]];
      ModularSteps(ValueOf(bits[..i]), i);
      val := (val + if bits[i] then exp else 0) % 0x1_0000_0000_0000_0000;
      exp := exp * 2 % 0x1_0000_0000_0000_0000;
    }
    assert bits[..bits.Length] == bits[..];
  }

  lemma SumModWord(a: nat, b: nat)
    ensures var m := 0x1_0000_0000_0000_0000; (a % m + b % m) % m == (a + b) % m
  {
    var m := 0x1_0000_0000_0000_0000;
    var s := a % m + b % m;
    ModUnique(a + b, a / m + b / m + s / m, m, s % m);
  }

  lemma ModularSteps(v: nat, i: nat)
    ensures var m, e := 0x1_0000_0000_0000_0000, Pow2(i);
            && v % m % m == v % m
            && (v % m + e % m) % m == (v + e) % m
            && e % m * 2 % m == Pow2(i + 1) % m
  {
    var m, e := 0x1_0000_0000_0000_0000, Pow2(i);
    assert Pow2(i + 1) == 2 * e;
    hide Pow2;
    SumModWord(v, e);
    SumModWord(e, e);
    SmallMod(v % m, m);
  }

  lemma Pow2Of64()
    ensures Pow2(64) == 0x1_0000_0000_0000_0000
  {
    Pow2Of32();
    Pow2Plus(32, 32);
  }

  /** A number that set_ullong accepts comes back from to_ullong, whatever the size of the array. */
  method StoreAndRead(bits: array<bool>, value: nat) returns (ok: bool, val: nat)
    requires value < Pow2(64)
    modifies bits
    ensures ok <==> bits.Length >= 64 || value < Limit(bits.Length)
    ensures ok ==> val == value
  {
    hide Limit, Pow2, BitsOf, ValueOf;
    ok := SetUllong(bits, value);
    val := ToUllong(bits);
    if ok {
      FitsIfAccepted(value, bits.Length);
      ValueOfBits(value, bits.Length);
      Pow2Of64();
    }
  }
}

/**
 `struct bintime`, a 64.64 fixed-point time: its arithmetic with manual carries.

 The seconds are a signed and the fraction is an unsigned 64-bit integer. Seconds that leave their range
 wrap around; the results below say exactly when they do not.
 */
module BinTime {
  import opened Power

  const TWO_32: int := 0x1_0000_0000
  const TWO_63: int := 0x8000_0000_0000_0000
  const TWO_64: int := 0x1_0000_0000_0000_0000
  const TWO_127: int := 0x8000_0000_0000_0000_0000_0000_0000_0000
  const TWO_128: int := 0x1_0000_0000_0000_0000_0000_0000_0000_0000

  type Uint32 = x: int | 0 <= x < TWO_32
  type Uint64 = x: int | 0 <= x < TWO_64
  type Int64 = x: int | -TWO_63 <= x < TWO_63

  /** Conversion to an unsigned 64-bit integer. */
  function Unsigned(x: int): Uint64 {
    x % TWO_64
  }

  /** Conversion to a signed 64-bit integer. */
  function Signed(x: int): Int64 {
    (x + TWO_63) % TWO_64 - TWO_63
  }

  /** The number of 128 bits, in two's complement, that is congruent to `x`. */
  ghost function Wrap(x: int): int {
    (x + TWO_127) % TWO_128 - TWO_127
  }

  /** `hi | lo`, where the low bits of `hi` that `lo` may use are clear. */
  function Or(hi: int, lo: int, ghost bits: nat): (r: int)
    requires hi % Pow2(bits) == 0 && 0 <= lo < Pow2(bits)
  {
    hi + lo
  }

  lemma {:induction false} WrapUnique(x: int, y: int, k: int)
    requires x == y + k * TWO_128 && -TWO_127 <= y < TWO_127
    ensures Wrap(x) == y
  {
  }

  /** A number is represented exactly if and only if it is in range. */
  lemma {:induction false} WrapExact(x: int)
    ensures Wrap(x) == x <==> -TWO_127 <= x < TWO_127
  {
  }

  lemma {:induction false} SignedHigh(hi: int, lo: Uint64)
    ensures Signed(hi) * TWO_64 + lo == Wrap(hi * TWO_64 + lo)
  {
    var k := (hi + TWO_63) / TWO_64;
    assert hi == Signed(hi) + k * TWO_64;
    WrapUnique(hi * TWO_64 + lo, Signed(hi) * TWO_64 + lo, k);
  }

  class Bintime {
    var sec: Int64
    var frac: Uint64

    /** The time in units of 2^-64 seconds. */
    ghost function Value(): int
      reads this
    {
      sec * TWO_64 + frac
    }

    /** The lines that `bintime_addx` and `bintime_add` share: the fraction, and the carry out of it. */
    method AddFraction(x: Uint64)
      modifies this
      ensures frac == Unsigned(old(frac) + x)
      ensures sec == CarriedSec(old(sec), old(frac), x)
    {
      var u := frac;
      frac := Unsigned(frac + x);
      if u > frac {
        sec := Signed(sec + 1);
      }
    }

    /** `bintime_addx`. */
    method AddX(x: Uint64)
      modifies this
      ensures Value() == Wrap(old(Value()) + x)
    {
      AddOk(sec, frac, 0, x, Value(), x);
      SignedSame(CarriedSec(sec, frac, x));
      AddFraction(x);
    }

    /** `bintime_add`. Adding a time to itself counts a carry out of the fraction twice, so that it is
        right if and only if the fraction is below one half. */
    method Add(bt2: Bintime)
      modifies this
      ensures this != bt2 ==> Value() == Wrap(old(Value()) + old(bt2.Value()))
      ensures this == bt2 ==> Value() == Wrap(2 * old(Value()) + if old(frac) < TWO_63 then 0 else TWO_64)
      ensures this == bt2 ==> (Value() == Wrap(old(Value()) + old(bt2.Value())) <==> old(frac) < TWO_63)
    {
      hide Signed, Unsigned, Wrap, CarriedSec;
      ghost var s, f, s2, f2 := sec, frac, bt2.sec, bt2.frac;
      AddFraction(bt2.frac);
      sec := Signed(sec + bt2.sec);
      if this == bt2 {
        TwiceOk(s, f, old(Value()));
        TwiceExact(old(Value()), f);
      } else {
        AddOk(s, f, s2, f2, old(Value()), old(bt2.Value()));
      }
    }

    /** `bintime_sub`. */
    method Sub(bt2: Bintime)
      modifies this
      ensures Value() == Wrap(old(Value()) - old(bt2.Value()))
    {
      SubOk(sec, frac, bt2.sec, bt2.frac);
      var u := frac;
      frac := Unsigned(frac - bt2.frac);
      if u < frac {
        sec := Signed(sec - 1);
      }
      sec := Signed(sec - bt2.sec);
    }

    /** `bintime_mul`. Neither partial product leaves 64 bits, whatever the factor. */
    method Mul(x: Uint32)
      modifies this
      ensures Value() == Wrap(old(Value()) * x)
    {
      ghost var f := frac;
      MulOk(sec, frac, x, Value());
      var p1, p2 := Partial(frac, x);
      sec := Signed(sec * x);
      sec := Signed(sec + p2 / TWO_32);
      frac := Or(Unsigned(p2 * TWO_32), p1 % TWO_32, 32);
    }

    /** `bintime_shift` by up to 63 bits: to the left it multiplies, to the right it rounds down. */
    method Shift(exp: int)
      requires -63 <= exp <= 63
      modifies this
      ensures exp >= 0 ==> Value() == Wrap(old(Value()) * Pow2(exp))
      ensures exp < 0 ==> Value() == old(Value()) / Pow2(-exp)
    {
      if exp > 0 {
        LeftOk(sec, frac, exp);
        sec := Signed(sec * Pow2(exp));
        sec := Signed(Or(sec, frac / Pow2(64 - exp), exp));
        frac := Unsigned(frac * Pow2(exp));
      } else if exp < 0 {
        RightOk(sec, frac, -exp);
        frac := frac / Pow2(-exp);
        frac := Or(Unsigned(Unsigned(sec) * Pow2(64 + exp)), frac, 64 + exp);
        sec := sec / Pow2(-exp);
      } else {
        WrapExact(Value());
      }
    }
  }

  lemma {:induction false} SignedSum(a: int, b: int)
    ensures Signed(Signed(a) + b) == Signed(a + b)
  {
  }

  lemma {:induction false} SignedExact(x: int)
    ensures Signed(x) == x <==> -TWO_63 <= x < TWO_63
  {
  }

  lemma {:induction false} SignedTwice(a: int)
    ensures Signed(Signed(a) + Signed(a)) == Signed(a + a)
  {
    SignedSum(a, a);
    SignedSum(a, Signed(a));
  }

  // ---------- addition and subtraction ----------

  /** The seconds once `x` has been added to the fraction `f`. */
  function CarriedSec(s: Int64, f: Uint64, x: Uint64): Int64 {
    if f > Unsigned(f + x) then Signed(s + 1) else s
  }

  lemma {:induction false} SignedSame(s: Int64)
    ensures Signed(s + 0) == s
  {
  }

  lemma {:induction false} AddOk(s: Int64, f: Uint64, s2: Int64, f2: Uint64, v: int, v2: int)
    requires v == s * TWO_64 + f && v2 == s2 * TWO_64 + f2
    ensures Signed(CarriedSec(s, f, f2) + s2) * TWO_64 + Unsigned(f + f2) == Wrap(v + v2)
  {
    var f' := Unsigned(f + f2);
    var carry := if f > f' then 1 else 0;
    assert f + f2 == carry * TWO_64 + f';
    SignedSum(s + carry, s2);
    SignedHigh(s + carry + s2, f');
  }

  lemma {:induction false} TwiceOk(s: Int64, f: Uint64, v: int)
    requires v == s * TWO_64 + f
    ensures var up := CarriedSec(s, f, f);
      Signed(up + up) * TWO_64 + Unsigned(f + f) == Wrap(2 * v + if f < TWO_63 then 0 else TWO_64)
  {
    var f' := Unsigned(f + f);
    var carry := if f > f' then 1 else 0;
    assert f + f == carry * TWO_64 + f' && (carry == 0 <==> f < TWO_63);
    SignedTwice(s + carry);
    SignedHigh(s + carry + s + carry, f');
  }

  /** Doubling a time by adding it to itself is right exactly when the fraction does not carry. */
  lemma {:induction false} TwiceExact(v: int, f: Uint64)
    ensures Wrap(2 * v + if f < TWO_63 then 0 else TWO_64) == Wrap(2 * v) <==> f < TWO_63
  {
    WrapDiffers(2 * v);
  }

  /** Half a second added to itself gives two seconds, not one. */
  method HalfTwice() returns (sec: int, frac: int)
    ensures sec == 2 && frac == 0
    ensures sec * TWO_64 + frac != Wrap(TWO_63 + TWO_63) == 1 * TWO_64
  {
    var bt := new Bintime;
    bt.sec, bt.frac := 0, TWO_63;
    bt.Add(bt);
    assert Wrap(2 * TWO_63 + TWO_64) == 2 * TWO_64;
    SameValue(bt.sec, bt.frac, 2, 0);
    sec, frac := bt.sec, bt.frac;
  }

  lemma {:induction false} WrapDiffers(x: int)
    ensures Wrap(x + TWO_64) != Wrap(x)
  {
    var a, b := x + TWO_127, x + TWO_64 + TWO_127;
    assert a == (a / TWO_128) * TWO_128 + a % TWO_128;
    assert b == (b / TWO_128) * TWO_128 + b % TWO_128;
  }

  lemma {:induction false} SubOk(s: Int64, f: Uint64, s2: Int64, f2: Uint64)
    ensures var f' := Unsigned(f - f2); var down := if f < f' then Signed(s - 1) else s;
      Signed(down - s2) * TWO_64 + f' == Wrap((s * TWO_64 + f) - (s2 * TWO_64 + f2))
  {
    var f' := Unsigned(f - f2);
    var borrow := if f < f' then 1 else 0;
    var a: int, b: int := s, s2;
    assert f - f2 == f' - borrow * TWO_64;
    SignedSum(a - borrow, -b);
    SignedHigh(a - borrow - b, f');
  }

  // ---------- multiplication ----------

  lemma {:induction false} Product(a: int, x: int)
    requires 0 <= a < TWO_32 && 0 <= x < TWO_32
    ensures 0 <= a * x <= (TWO_32 - 1) * (TWO_32 - 1)
  {
    MulMonotone(x, TWO_32 - 1, a);
    MulMonotone(a, TWO_32 - 1, TWO_32 - 1);
    MulMonotone(0, a, x);
  }

  lemma {:induction false} Double(n: nat, p: nat)
    requires Pow2(n) == p
    ensures Pow2(n + n) == p * p
  {
    Pow2Sum(n, n);
  }

  lemma {:induction false} Widths()
    ensures Pow2(32) == TWO_32 && Pow2(64) == TWO_64
  {
    Double(4, 16);
    Double(8, 0x100);
    Double(16, 0x1_0000);
    Double(32, TWO_32);
  }

  /** The product of the low half of the fraction. */
  ghost function LowProduct(f: Uint64, x: Uint32): (p: Uint64)
    ensures p == (f % TWO_32) * x
  {
    Product(f % TWO_32, x);
    (f % TWO_32) * x
  }

  /** The product of the high half, with what the low half carries into it. */
  ghost function HighProduct(f: Uint64, x: Uint32): (p: Uint64)
    ensures p == (f / TWO_32) * x + LowProduct(f, x) / TWO_32
  {
    Product(f / TWO_32, x);
    (f / TWO_32) * x + LowProduct(f, x) / TWO_32
  }

  /** The two partial products put together are the product of the fraction. */
  lemma {:induction false} PartialProducts(f: Uint64, x: Uint32)
    ensures f * x == HighProduct(f, x) * TWO_32 + LowProduct(f, x) % TWO_32
  {
    var hi, lo := f / TWO_32, f % TWO_32;
    assert f * x == (hi * TWO_32 + lo) * x == hi * x * TWO_32 + lo * x;
  }

  lemma {:induction false} MulOk(s: Int64, f: Uint64, x: Uint32, v: int)
    requires v == s * TWO_64 + f
    ensures var hi, lo := Unsigned(HighProduct(f, x) * TWO_32), LowProduct(f, x) % TWO_32;
      && hi % Pow2(32) == 0 && lo < Pow2(32) && hi + lo < TWO_64
      && Signed(Signed(s * x) + HighProduct(f, x) / TWO_32) * TWO_64 + (hi + lo) == Wrap(v * x)
  {
    Widths();
    PartialProducts(f, x);
    MulCarry(s * x, HighProduct(f, x), LowProduct(f, x) % TWO_32);
    Distribute(s, f, x);
  }

  /** The two partial products as the code computes them, each cut off at 64 bits: nothing is lost. */
  method Partial(f: Uint64, x: Uint32) returns (p1: Uint64, p2: Uint64)
    ensures p1 == LowProduct(f, x) && p2 == HighProduct(f, x)
  {
    p1 := Unsigned((f % TWO_32) * x);
    assert p1 == LowProduct(f, x);
    p2 := Unsigned((f / TWO_32) * x + p1 / TWO_32);
    assert p2 == HighProduct(f, x);
  }

  lemma {:induction false} Distribute(s: int, f: int, x: int)
    ensures (s * TWO_64 + f) * x == s * x * TWO_64 + f * x
  {
  }

  /** What is shifted out of the fraction goes to the seconds, the rest is put together by `|`. */
  lemma {:induction false} MulCarry(a: int, p2: Uint64, lo: int)
    requires 0 <= lo < TWO_32
    ensures var hi := Unsigned(p2 * TWO_32);
      && hi % TWO_32 == 0 && hi + lo < TWO_64
      && Signed(Signed(a) + p2 / TWO_32) * TWO_64 + (hi + lo) == Wrap(a * TWO_64 + (p2 * TWO_32 + lo))
  {
    var hi := ShiftedOut(p2);
    SignedSum(a, p2 / TWO_32);
    SignedHigh(a + p2 / TWO_32, hi + lo);
  }

  lemma {:induction false} ShiftedOut(p2: Uint64) returns (hi: int)
    ensures hi == Unsigned(p2 * TWO_32) && 0 <= hi <= TWO_64 - TWO_32 && hi % TWO_32 == 0
    ensures p2 * TWO_32 == (p2 / TWO_32) * TWO_64 + hi
  {
    hi := (p2 % TWO_32) * TWO_32;
    DivUnique(p2 * TWO_32, TWO_64, p2 / TWO_32, hi);
  }

  // ---------- shifting ----------

  lemma {:induction false} Halves(n: nat)
    requires n <= 64
    ensures Pow2(n) * Pow2(64 - n) == TWO_64
  {
    Pow2Sum(n, 64 - n);
    Widths();
  }

  lemma {:induction false} SignedMultiple(s: int, p: int, q: int)
    requires p > 0 && p * q == TWO_64
    ensures Signed(s * p) % p == 0
  {
    var k := (s * p + TWO_63) / TWO_64;
    assert Signed(s * p) == s * p - k * TWO_64;
    assert Signed(s * p) == (s - k * q) * p;
    Multiple(s - k * q, p);
  }

  lemma {:induction false} LeftParts(s: int, f: int, p: int, q: int)
    requires p > 0 && q > 0 && p * q == TWO_64 && 0 <= f < TWO_64
    ensures 0 <= f / q < p
    ensures (s * TWO_64 + f) * p == (s * p + f / q) * TWO_64 + Unsigned(f * p)
  {
    var d, r := f / q, f % q;
    assert f == d * q + r;
    DivBound(f, p, q);
    MulMonotone(r, q - 1, p);
    MulMonotone(0, r, p);
    assert (q - 1) * p == q * p - p;
    assert f * p == d * (q * p) + r * p;
    DivUnique(f * p, TWO_64, d, r * p);
    assert (s * TWO_64 + f) * p == s * p * TWO_64 + f * p;
  }

  lemma {:induction false} LeftOk(s: Int64, f: Uint64, n: nat)
    requires 1 <= n <= 63
    ensures var p, q := Pow2(n), Pow2(64 - n); var hi := Signed(s * p);
      && hi % p == 0 && 0 <= f / q < p
      && Signed(hi + f / q) * TWO_64 + Unsigned(f * p) == Wrap((s * TWO_64 + f) * p)
  {
    var p, q := Pow2(n), Pow2(64 - n);
    Halves(n);
    LeftParts(s, f, p, q);
    SignedMultiple(s, p, q);
    SignedSum(s * p, f / q);
    SignedHigh(s * p + f / q, Unsigned(f * p));
  }

  /** The bits of the seconds that a right shift moves into the fraction. */
  lemma {:induction false} MovedBits(s: Int64, p: int, q: int)
    requires p > 0 && q > 0 && p * q == TWO_64
    ensures Unsigned(Unsigned(s) * q) == (s % p) * q && ((s % p) * q) % q == 0
    ensures 0 <= (s % p) * q <= TWO_64 - q
  {
    var h, r, k := s / p, s % p, if s < 0 then -1 else 0;
    var u := s - k * TWO_64;
    assert Unsigned(s) == u;
    Spread(h, r, k, p, q);
    MulMonotone(r, p - 1, q);
    MulMonotone(0, r, q);
    assert (p - 1) * q == p * q - q;
    DivUnique(u * q, TWO_64, h - k * q, r * q);
    Multiple(r, q);
  }

  lemma {:induction false} Spread(h: int, r: int, k: int, p: int, q: int)
    ensures (h * p + r - k * (p * q)) * q == (h - k * q) * (p * q) + r * q
  {
    assert (h * p + r - k * (p * q)) * q == h * p * q + r * q - k * (p * q) * q;
    assert (h - k * q) * (p * q) == h * (p * q) - k * q * (p * q);
  }

  lemma {:induction false} RightOk(s: Int64, f: Uint64, n: nat)
    requires 1 <= n <= 63
    ensures var p, q := Pow2(n), Pow2(64 - n); var hi := Unsigned(Unsigned(s) * q);
      && hi % q == 0 && 0 <= f / p < q && hi + f / p < TWO_64 && -TWO_63 <= s / p < TWO_63
      && (s / p) * TWO_64 + (hi + f / p) == (s * TWO_64 + f) / p
  {
    var p, q := Pow2(n), Pow2(64 - n);
    Halves(n);
    MovedBits(s, p, q);
    DivBound(f, q, p);
    DivShrinks(s, p);
    RightQuotient(s, f, p, q);
  }

  lemma {:induction false} RightQuotient(s: int, f: int, p: int, q: int)
    requires p > 0 && q > 0 && p * q == TWO_64
    ensures (s * TWO_64 + f) / p == (s / p) * TWO_64 + (s % p) * q + f / p
  {
    var h, r, d, e := s / p, s % p, f / p, f % p;
    Gather(h, r, d, e, p, q);
    DivUnique(s * TWO_64 + f, p, h * TWO_64 + r * q + d, e);
  }

  lemma {:induction false} Gather(h: int, r: int, d: int, e: int, p: int, q: int)
    ensures (h * p + r) * (p * q) + (d * p + e) == (h * (p * q) + r * q + d) * p + e
  {
    assert (h * p + r) * (p * q) == h * p * (p * q) + r * (p * q);
    assert (h * (p * q) + r * q + d) * p == h * (p * q) * p + r * q * p + d * p;
  }

  lemma {:induction false} DivShrinks(s: Int64, p: int)
    requires p > 0
    ensures -TWO_63 <= s / p < TWO_63
  {
    var h, r := s / p, s % p;
    assert s == h * p + r;
    MulMonotone(1, p, TWO_63);
    if h >= 0 {
      MulMonotone(1, p, h);
    } else {
      MulMonotone(1, p, -h - 1);
      assert (-h - 1) * p == -(h * p) - p;
    }
  }

  // ---------- consequences ----------

  lemma {:induction false} WrapSub(a: int, b: int)
    requires -TWO_127 <= a < TWO_127
    ensures Wrap(Wrap(a + b) - b) == a
  {
    var k := (a + b + TWO_127) / TWO_128;
    assert Wrap(a + b) == a + b - k * TWO_128;
    WrapUnique(Wrap(a + b) - b, a, -k);
  }

  lemma {:induction false} SameValue(s: Int64, f: Uint64, s': Int64, f': Uint64)
    requires s * TWO_64 + f == s' * TWO_64 + f'
    ensures s == s' && f == f'
  {
  }

  /** Subtracting undoes adding, field by field, even when the sum wraps around. With the same time as
      both arguments the end is zero, whatever the beginning. */
  method AddThenSub(bt: Bintime, bt2: Bintime)
    modifies bt
    ensures bt != bt2 ==> bt.sec == old(bt.sec) && bt.frac == old(bt.frac)
    ensures bt == bt2 ==> bt.sec == 0 && bt.frac == 0
  {
    ghost var s, f, v, v2 := bt.sec, bt.frac, bt.Value(), bt2.Value();
    bt.Add(bt2);
    bt.Sub(bt2);
    if bt == bt2 {
      SameValue(bt.sec, bt.frac, 0, 0);
    } else {
      WrapSub(v, v2);
      SameValue(bt.sec, bt.frac, s, f);
    }
  }
}

/**
 The C integer types, conversions and bit operations that the kernel uses
 (32-bit target), written out over Dafny's unbounded integers.
 */
module CTypes {

  type uint8 = x: int | 0 <= x < 0x100
  type uint16 = x: int | 0 <= x < 0x1_0000
  type uint32 = x: int | 0 <= x < 0x1_0000_0000
  type int32 = x: int | -0x8000_0000 <= x < 0x8000_0000

  // Error numbers of src/status.h; functions return them negated.
  const EIO: int32 := 1
  const EINVARG: int32 := 2
  const ENOMEM: int32 := 3
  const EUNIMP: int32 := 7

  /** Conversion to a 32-bit unsigned value: reduction modulo 2^32. */
  function ToUint32(x: int): uint32 {
    x % 0x1_0000_0000
  }

  /** Conversion to a 32-bit signed value: two's complement wrap-around. */
  function ToInt32(x: int): int32 {
    var u := x % 0x1_0000_0000;
    if u < 0x8000_0000 then u else u - 0x1_0000_0000
  }

  /** C division truncates toward zero. */
  function CDiv(a: int, b: int): int
    requires b > 0
  {
    if a >= 0 then a / b else -((-a) / b)
  }

  /** The C remainder has the sign of the dividend. */
  function CMod(a: int, b: int): int
    requires b > 0
  {
    a - b * CDiv(a, b)
  }

  function BitOr(a: nat, b: nat): nat
    decreases a + b
  {
    if a == 0 && b == 0 then 0
    else (if a % 2 == 1 || b % 2 == 1 then 1 else 0) + 2 * BitOr(a / 2, b / 2)
  }

  function BitAnd(a: nat, b: nat): nat
    decreases a + b
  {
    if a == 0 && b == 0 then 0
    else (if a % 2 == 1 && b % 2 == 1 then 1 else 0) + 2 * BitAnd(a / 2, b / 2)
  }

  /** x shifted left by k bits. */
  function Shl(x: nat, k: nat): nat {
    if k == 0 then x else 2 * Shl(x, k - 1)
  }

  lemma {:induction false} BitOrZero(a: nat)
    ensures BitOr(a, 0) == a && BitOr(0, a) == a
  {
    if a > 0 {
      BitOrZero(a / 2);
    }
  }

  function Pow2(k: nat): (p: nat)
    ensures p > 0
  {
    if k == 0 then 1 else 2 * Pow2(k - 1)
  }

  /** Bit k of x is set. */
  predicate Bit(x: nat, k: nat) {
    x / Pow2(k) % 2 == 1
  }

  lemma BitOfHalf(x: nat, k: nat)
    requires k > 0
    ensures Bit(x, k) == Bit(x / 2, k - 1)
  {
    var p, h := Pow2(k - 1), x / 2;
    DivUnique(x, 2 * p, h / p, 2 * (h % p) + x % 2);
  }

  /** Or-ing sets the bits that are set on either side, and no others. */
  lemma {:induction false} BitOrBits(a: nat, b: nat, k: nat)
    ensures Bit(BitOr(a, b), k) <==> Bit(a, k) || Bit(b, k)
    decreases k
  {
    if k > 0 {
      BitOfHalf(a, k);
      BitOfHalf(b, k);
      BitOfHalf(BitOr(a, b), k);
      BitOrBits(a / 2, b / 2, k - 1);
      assert BitOr(a, b) / 2 == BitOr(a / 2, b / 2);
    }
  }

  /** And-ing keeps the bits that are set on both sides. */
  lemma {:induction false} BitAndBits(a: nat, b: nat, k: nat)
    ensures Bit(BitAnd(a, b), k) <==> Bit(a, k) && Bit(b, k)
    decreases k
  {
    if k > 0 {
      BitOfHalf(a, k);
      BitOfHalf(b, k);
      BitOfHalf(BitAnd(a, b), k);
      BitAndBits(a / 2, b / 2, k - 1);
      assert BitAnd(a, b) / 2 == BitAnd(a / 2, b / 2);
    }
  }

  /** Or-ing bits below 2^k leaves a multiple of 2^k as it is. */
  lemma {:induction false} BitOrShl(x: nat, low: nat, f: nat, k: nat)
    requires low < Shl(1, k) && f < Shl(1, k)
    ensures BitOr(Shl(x, k) + low, f) == Shl(x, k) + BitOr(low, f)
  {
    if k == 0 {
      BitOrZero(x);
    } else {
      BitOrShl(x, low / 2, f / 2, k - 1);
    }
  }

  lemma {:induction false} BitOrBound(a: nat, b: nat, k: nat)
    requires a < Shl(1, k) && b < Shl(1, k)
    ensures BitOr(a, b) < Shl(1, k)
  {
    if k > 0 {
      BitOrBound(a / 2, b / 2, k - 1);
    }
  }

  /** A mask of k ones keeps the value of anything below 2^k. */
  lemma {:induction false} BitAndOnes(a: nat, k: nat)
    requires a < Shl(1, k)
    ensures BitAnd(a, Shl(1, k) - 1) == a
  {
    if k > 0 {
      BitAndOnes(a / 2, k - 1);
    }
  }

  lemma BitAndEvenMask(a: nat, low: nat, m: nat)
    requires low < 2
    ensures BitAnd(2 * a + low, 2 * m) == 2 * BitAnd(a, m)
  {
    if 2 * a + low == 0 && m == 0 {
      assert BitAnd(0, 0) == 0;
    }
  }

  lemma {:induction false} BitAndZero(a: nat)
    ensures BitAnd(a, 0) == 0
  {
    if a > 0 {
      BitAndZero(a / 2);
    }
  }

  /** Testing bit 4. */
  lemma BitAndSixteen(a: nat)
    ensures BitAnd(a, 16) == 16 * (a / 16 % 2)
  {
    var b := a / 16;
    assert a == 16 * b + a % 16;
    Shl4(b);
    Shl4(1);
    BitAndShl(b, a % 16, 1, 4);
    BitAndZero(b / 2);
    assert BitAnd(b, 1) == b % 2;
    Shl4(b % 2);
  }

  /** A mask whose low k bits are clear drops the low k bits of the value. */
  lemma {:induction false} BitAndShl(x: nat, low: nat, mask: nat, k: nat)
    requires low < Shl(1, k)
    ensures BitAnd(Shl(x, k) + low, Shl(mask, k)) == Shl(BitAnd(x, mask), k)
  {
    if k > 0 {
      BitAndShl(x, low / 2, mask, k - 1);
      BitAndEvenMask(Shl(x, k - 1) + low / 2, low % 2, Shl(mask, k - 1));
    }
  }

  lemma {:induction false} ShlScales(x: nat, k: nat, j: nat)
    ensures Shl(x, k + j) == Shl(Shl(x, j), k)
  {
    if k > 0 {
      ShlScales(x, k - 1, j);
    }
  }

  lemma Shl4(x: nat)
    ensures Shl(x, 4) == 16 * x
  {
    assert Shl(x, 1) == 2 * x;
    assert Shl(x, 2) == 4 * x;
    assert Shl(x, 3) == 8 * x;
  }

  lemma Shl12(x: nat)
    ensures Shl(x, 12) == 4096 * x
  {
    Shl4(x);
    Shl4(16 * x);
    Shl4(256 * x);
    ShlScales(x, 4, 4);
    ShlScales(x, 4, 8);
  }

  lemma Ones20()
    ensures Shl(1, 20) == 0x10_0000
  {
    Shl12(1);
    Shl4(4096);
    Shl4(65536);
    ShlScales(1, 4, 12);
    ShlScales(1, 4, 16);
  }

  /** x & 0xfffff000, the frame address of a page-table or directory entry. */
  lemma BitAndFrameMask(x: uint32)
    ensures BitAnd(x, 0xfffff000) == x - x % 4096
  {
    Shl12(x / 4096);
    Shl12(1);
    Shl12(0xfffff);
    BitAndShl(x / 4096, x % 4096, 0xfffff, 12);
    Ones20();
    BitAndOnes(x / 4096, 20);
    Shl12(BitAnd(x / 4096, 0xfffff));
  }

  /** (a + low) | f for a page-aligned a and twelve flag bits. */
  lemma BitOrFlags(a: nat, low: nat, f: nat)
    requires a % 4096 == 0 && low < 4096 && f < 4096
    ensures BitOr(a + low, f) == a + BitOr(low, f) < a + 4096
    ensures BitOr(a, f) == a + f
  {
    Shl12(a / 4096);
    Shl12(1);
    BitOrShl(a / 4096, low, f, 12);
    BitOrShl(a / 4096, 0, f, 12);
    BitOrZero(f);
    BitOrBound(low, f, 12);
  }

  /** Quotient and remainder are the only pair that fit. */
  lemma DivUnique(a: int, d: int, q: int, r: int)
    requires d > 0 && a == d * q + r && 0 <= r < d
    ensures a / d == q && a % d == r
  {
    var e := a / d - q;
    assert d * e == r - a % d;
    assert e >= 1 ==> d * e >= d;
    assert e <= -1 ==> d * e <= -d;
  }

  /** Wrapping ignores multiples of 2^32. */
  lemma WrapShift(x: int, k: int)
    ensures ToInt32(x - 0x1_0000_0000 * k) == ToInt32(x)
  {
    DivUnique(x - 0x1_0000_0000 * k, 0x1_0000_0000, x / 0x1_0000_0000 - k, x % 0x1_0000_0000);
  }

  /** Adding to a wrapped value and reading the sum as unsigned undoes the wrap. */
  lemma UnwrapSum(x: nat, y: nat)
    requires x + y < 0x1_0000_0000
    ensures ToUint32(ToInt32(x) + y) == x + y
  {
    if x >= 0x8000_0000 {
      DivUnique(x + y - 0x1_0000_0000, 0x1_0000_0000, -1, x + y);
    }
  }

  /** An intermediate wrap does not change the wrapped result of adding or multiplying. */
  lemma WrapThrough(x: int, m: int, y: int)
    ensures ToInt32(ToInt32(x) * m + y) == ToInt32(x * m + y)
  {
    var k := (x - ToInt32(x)) / 0x1_0000_0000;
    assert x - ToInt32(x) == 0x1_0000_0000 * k;
    assert ToInt32(x) * m + y == x * m + y - 0x1_0000_0000 * (k * m) by {
      assert (x - 0x1_0000_0000 * k) * m == x * m - 0x1_0000_0000 * (k * m);
    }
    WrapShift(x * m + y, k * m);
  }

  lemma MulLe(x: int, y: int, z: nat)
    requires x <= y
    ensures x * z <= y * z
  {
  }

  lemma DivMonotone(a: nat, b: nat, z: nat)
    requires a <= b && z > 0
    ensures a / z <= b / z
  {
    var p, q := a / z, b / z;
    assert a == p * z + a % z && b == q * z + b % z;
    if q < p {
      MulLe(q + 1, p, z);
    }
  }
}

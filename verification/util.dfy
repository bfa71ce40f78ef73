/** Small shared vocabulary: an Option type, byte-sized integers and the
    integer bit arithmetic that the C code does with shifts, masks and
    `log2`. */
module Util {

  datatype Option<+T> = None | Some(value: T)

  /** An unsigned 8-bit value (a C `uint8_t`/`char` byte). */
  type Byte = x: int | 0 <= x < 0x100

  /** An unsigned 64-bit value (a C `uint64_t`). */
  type U64 = x: int | 0 <= x < 0x1_0000_0000_0000_0000

  function Pow2(n: nat): (r: nat)
    ensures r >= 1
  {
    if n == 0 then 1 else 2 * Pow2(n - 1)
  }

  /** Bit `i` of `x`: the value `(x >> i) & 1`. */
  function Bit(x: nat, i: nat): (b: nat)
    ensures b < 2
  {
    (x / Pow2(i)) % 2
  }

  /** Bitwise AND of two non-negative integers, bit by bit from the least
      significant end. */
  function BitAnd(a: nat, b: nat): (r: nat)
    ensures r <= a && r <= b
    decreases a
  {
    if a == 0 || b == 0 then 0
    else 2 * BitAnd(a / 2, b / 2) + (if a % 2 == 1 && b % 2 == 1 then 1 else 0)
  }

  /** Integer floor of the base-2 logarithm: the position of the highest set
      bit. This stands for the C `(uint64_t)log2(x)` on floating point. */
  function Log2(x: nat): (e: nat)
    requires x >= 1
    ensures Pow2(e) <= x < Pow2(e + 1)
  {
    if x == 1 then 0 else 1 + Log2(x / 2)
  }

  lemma DivModUnique(x: int, d: int, q: int, r: int)
    requires d > 0 && 0 <= r < d && x == d * q + r
    ensures x / d == q && x % d == r
  {
    var q', r' := x / d, x % d;
    assert x == d * q' + r';
    if q' > q {
      assert d * q' >= d * (q + 1) by { MulMonotone(d, q + 1, q'); }
      assert false;
    } else if q' < q {
      assert d * q >= d * (q' + 1) by { MulMonotone(d, q' + 1, q); }
      assert false;
    }
  }

  lemma MulMonotone(d: int, a: int, b: int)
    requires d > 0 && a <= b
    ensures d * a <= d * b
  {
    assert d * b - d * a == d * (b - a);
  }

  /** Shifting right by `a` and then by `b` is shifting by `a + b`. */
  lemma {:induction false} DivDiv(x: nat, a: nat, b: nat)
    requires a > 0 && b > 0
    ensures x / (a * b) == (x / a) / b
  {
    var q1, r1 := x / a, x % a;
    var q2, r2 := q1 / b, q1 % b;
    assert x == a * (b * q2 + r2) + r1;
    assert x == (a * b) * q2 + (a * r2 + r1) by {
      assert a * (b * q2 + r2) == (a * b) * q2 + a * r2;
    }
    assert a * r2 + r1 < a * b by {
      MulMonotone(a, r2, b - 1);
      assert a * (b - 1) == a * b - a;
    }
    DivModUnique(x, a * b, q2, a * r2 + r1);
  }

  lemma {:induction false} Pow2Add(a: nat, b: nat)
    ensures Pow2(a + b) == Pow2(a) * Pow2(b)
    decreases a
  {
    if a > 0 {
      Pow2Add(a - 1, b);
      assert Pow2(a + b) == 2 * Pow2(a - 1 + b);
    }
  }

  /** `x >> (i + 1)` is `(x >> i) >> 1`. */
  lemma ShiftOnce(x: nat, i: nat)
    ensures x / Pow2(i + 1) == (x / Pow2(i)) / 2
  {
    assert Pow2(i + 1) == Pow2(i) * 2;
    DivDiv(x, Pow2(i), 2);
  }

  /** One step of the root-to-leaf walk: the slot reached after consuming the
      bits of `k` above `i` is extended by bit `i`. */
  lemma PathStep(k: nat, i: nat)
    ensures k / Pow2(i) == 2 * (k / Pow2(i + 1)) + Bit(k, i)
  {
    ShiftOnce(k, i);
  }

  /** Above its highest set bit `e`, `k` shifted right by `e` is 1. */
  lemma ShiftToTop(k: nat)
    requires k >= 1
    ensures k / Pow2(Log2(k)) == 1
  {
    var e := Log2(k);
    DivModUnique(k, Pow2(e), 1, k - Pow2(e));
  }

  /** Dividing by `2q` is halving and then dividing by `q`, bit 0 aside. */
  lemma ModDouble(x: nat, q: nat)
    requires q > 0
    ensures x % (2 * q) == 2 * ((x / 2) % q) + x % 2
  {
    var a := x / 2;
    var b, c := a / q, a % q;
    assert x == 2 * a + x % 2;
    assert a == q * b + c;
    assert 2 * a == (2 * q) * b + 2 * c by {
      assert 2 * (q * b) == (2 * q) * b;
    }
    DivModUnique(x, 2 * q, b, 2 * c + x % 2);
  }

  lemma HalfOfMask(p: nat)
    requires p > 0
    ensures (Pow2(p) - 1) % 2 == 1 && (Pow2(p) - 1) / 2 == Pow2(p - 1) - 1
  {
    DivModUnique(Pow2(p) - 1, 2, Pow2(p - 1) - 1, 1);
  }

  /** Masking with `2^p - 1` keeps the low `p` bits: `x & (2^p - 1) == x % 2^p`. */
  lemma {:induction false} MaskIsMod(x: nat, p: nat)
    ensures BitAnd(x, Pow2(p) - 1) == x % Pow2(p)
    decreases p
  {
    if p > 0 && x > 0 {
      var q := Pow2(p - 1);
      var m := Pow2(p) - 1;
      assert Pow2(p) == 2 * q;
      HalfOfMask(p);
      assert m != 0 && m % 2 == 1 && m / 2 == q - 1;
      var low := BitAnd(x / 2, q - 1);
      MaskIsMod(x / 2, p - 1);
      assert low == (x / 2) % q;
      assert BitAnd(x, m) == 2 * BitAnd(x / 2, m / 2) + (if x % 2 == 1 && m % 2 == 1 then 1 else 0);
      assert (if x % 2 == 1 && m % 2 == 1 then 1 else 0) == x % 2;
      ModDouble(x, q);
    } else if p == 0 {
      assert Pow2(p) == 1;
    } else {
      DivModUnique(0, Pow2(p), 0, 0);
    }
  }

  lemma HalfOfPow2(i: nat)
    requires i > 0
    ensures Pow2(i) % 2 == 0 && Pow2(i) / 2 == Pow2(i - 1)
  {
    DivModUnique(Pow2(i), 2, Pow2(i - 1), 0);
  }

  /** Testing `x & (1 << i)` for non-zero is testing bit `i`. */
  lemma {:induction false} AndPow2IsBit(x: nat, i: nat)
    ensures BitAnd(x, Pow2(i)) == Pow2(i) * Bit(x, i)
    decreases i
  {
    if x == 0 {
      assert Bit(x, i) == 0;
    } else if i == 0 {
      assert BitAnd(x, 1) == 2 * BitAnd(x / 2, 0) + (if x % 2 == 1 then 1 else 0);
    } else {
      HalfOfPow2(i);
      AndPow2IsBit(x / 2, i - 1);
      assert BitAnd(x, Pow2(i)) == 2 * BitAnd(x / 2, Pow2(i - 1));
      assert Bit(x / 2, i - 1) == Bit(x, i) by {
        DivDiv(x, 2, Pow2(i - 1));
      }
    }
  }
}

/**
 * The 32-bit integer semantics of JavaScript's bitwise operators, stated on
 * unbounded integers.  `|` and `&` work bit by bit on the two's-complement
 * 32-bit patterns of their operands; `<<` shifts that pattern (dropping the
 * bits that leave it); `>>` shifts with sign fill, which is floor division.
 * `%` truncates toward zero.
 */
module JsBits {

  function Pow2(k: nat): (p: nat)
    ensures p >= 1
  {
    if k == 0 then 1 else 2 * Pow2(k - 1)
  }

  const Two31: int := 0x8000_0000
  const Two32: int := 0x1_0000_0000

  /** ECMAScript ToUint32: the 32-bit pattern of x, read unsigned. */
  function ToUint32(x: int): (u: nat)
    ensures u < Two32
    ensures (x - u) % Two32 == 0
  {
    if 0 <= x < Two32 then x else x % Two32
  }

  /** ECMAScript ToInt32: the 32-bit pattern of x, read as two's complement. */
  function ToInt32(x: int): (i: int)
    ensures -Two31 <= i < Two31
    ensures (x - i) % Two32 == 0
  {
    if -Two31 <= x < Two31 then x
    else
      var m := x % Two32;
      if m >= Two31 then m - Two32 else m
  }

  /** Bitwise or of two naturals, one bit at a time from the least significant. */
  function NatOr(a: nat, b: nat): nat
    decreases a
  {
    if a == 0 then b
    else if b == 0 then a
    else 2 * NatOr(a / 2, b / 2) + (if a % 2 == 1 || b % 2 == 1 then 1 else 0)
  }

  /** Bitwise and of two naturals, one bit at a time from the least significant. */
  function NatAnd(a: nat, b: nat): nat
    decreases a
  {
    if a == 0 || b == 0 then 0
    else 2 * NatAnd(a / 2, b / 2) + (if a % 2 == 1 && b % 2 == 1 then 1 else 0)
  }

  /** JavaScript `x << k`. */
  function Shl(x: int, k: nat): int
    requires k < 32
  {
    ToInt32(x * Pow2(k))
  }

  /** JavaScript `x >> k` (sign-propagating). */
  function Sar(x: int, k: nat): int
    requires k < 32
  {
    ToInt32(x) / Pow2(k)
  }

  /** JavaScript `x | y`. */
  function BitOr(x: int, y: int): int {
    ToInt32(NatOr(ToUint32(x), ToUint32(y)))
  }

  /** JavaScript `x & y`. */
  function BitAnd(x: int, y: int): int {
    ToInt32(NatAnd(ToUint32(x), ToUint32(y)))
  }

  /** JavaScript `a % n` on integers: the remainder takes the sign of `a`. */
  function JsRem(a: int, n: int): (r: int)
    requires n > 0
    ensures -n < r < n
    ensures a >= 0 ==> r >= 0
    ensures a <= 0 ==> r <= 0
  {
    if a >= 0 then a % n else -((-a) % n)
  }

  // ---------------------------------------------------------------------
  // Facts about the operators on small non-negative values.

  lemma Int32OfSmall(x: int)
    requires 0 <= x < Two31
    ensures ToInt32(x) == x && ToUint32(x) == x
  {
  }

  lemma {:induction false} OrBound(a: nat, b: nat, k: nat)
    requires a < Pow2(k) && b < Pow2(k)
    ensures NatOr(a, b) < Pow2(k)
    decreases a
  {
    if a != 0 && b != 0 {
      assert k > 0;
      OrBound(a / 2, b / 2, k - 1);
    }
  }

  lemma {:induction false} OrZero(a: nat)
    ensures NatOr(a, 0) == a && NatOr(0, a) == a
  {
  }

  lemma {:induction false} OrCommutes(a: nat, b: nat)
    ensures NatOr(a, b) == NatOr(b, a)
    decreases a
  {
    if a != 0 && b != 0 {
      OrCommutes(a / 2, b / 2);
    }
  }

  /** When no bit is set in both, or is addition. */
  lemma {:induction false} OrDisjoint(a: nat, b: nat)
    requires NatAnd(a, b) == 0
    ensures NatOr(a, b) == a + b
    decreases a
  {
    if a != 0 && b != 0 {
      OrDisjoint(a / 2, b / 2);
    }
  }

  /** x * 2^k, written as k doublings so that proofs about it stay linear. */
  function Shifted(x: nat, k: nat): (r: nat)
    ensures r == 0 <==> x == 0
  {
    if k == 0 then x else 2 * Shifted(x, k - 1)
  }

  lemma {:induction false} ShiftedIsProduct(x: nat, k: nat)
    ensures Shifted(x, k) == x * Pow2(k)
  {
    if k > 0 {
      ShiftedIsProduct(x, k - 1);
      var h := Pow2(k - 1);
      assert x * (2 * h) == 2 * (x * h);
    }
  }

  lemma {:induction false} ShiftedAdds(x: nat, y: nat, k: nat)
    ensures Shifted(x + y, k) == Shifted(x, k) + Shifted(y, k)
  {
    if k > 0 {
      ShiftedAdds(x, y, k - 1);
    }
  }

  lemma {:induction false} ShiftedTwice(x: nat, k: nat, j: nat)
    ensures Shifted(Shifted(x, k), j) == Shifted(x, k + j)
  {
    if j > 0 {
      ShiftedTwice(x, k, j - 1);
    }
  }

  lemma {:induction false} AndShift(p: nat, q: nat, k: nat)
    ensures NatAnd(Shifted(p, k), Shifted(q, k)) == Shifted(NatAnd(p, q), k)
  {
    if k > 0 {
      AndShift(p, q, k - 1);
    }
  }

  /** Shifted high bits and a low value that fits below them share no bit. */
  lemma {:induction false} AndLowZero(p: nat, q: nat, k: nat)
    requires q < Pow2(k)
    ensures NatAnd(Shifted(p, k), q) == 0
  {
    if k > 0 && p != 0 && q != 0 {
      AndLowZero(p, q / 2, k - 1);
    }
  }

  /** `a & (2^k - 1)` keeps the k low bits. */
  lemma AndLowMask(a: nat, k: nat)
    ensures NatAnd(a, Pow2(k) - 1) == a % Pow2(k)
  {
    AndLowBits(a, k);
    LowBitsMod(a, k);
  }

  /** The k low bits of a, assembled one bit at a time. */
  function LowBits(a: nat, k: nat): nat {
    if k == 0 then 0 else 2 * LowBits(a / 2, k - 1) + a % 2
  }

  lemma {:induction false} AndLowBits(a: nat, k: nat)
    ensures NatAnd(a, Pow2(k) - 1) == LowBits(a, k)
  {
    if k == 0 {
      assert Pow2(0) - 1 == 0;
    } else if a == 0 {
      LowBitsOfZero(k);
    } else {
      AndLowMaskStep(a, k);
      AndLowBits(a / 2, k - 1);
    }
  }

  lemma {:induction false} LowBitsOfZero(k: nat)
    ensures LowBits(0, k) == 0
  {
    if k > 0 {
      LowBitsOfZero(k - 1);
    }
  }

  lemma {:induction false} LowBitsMod(a: nat, k: nat)
    ensures LowBits(a, k) == a % Pow2(k)
  {
    if k == 0 {
      ModUnique(a, 1, a, 0);
    } else {
      LowBitsMod(a / 2, k - 1);
      DoubleMod(a, k);
    }
  }

  /** One bit of `a & (2^k - 1)`: the low bit of a, then the rest against 2^(k-1) - 1. */
  lemma AndLowMaskStep(a: nat, k: nat)
    requires a != 0 && k > 0
    ensures NatAnd(a, Pow2(k) - 1) == 2 * NatAnd(a / 2, Pow2(k - 1) - 1) + a % 2
  {
    var h := Pow2(k - 1);
    var m := Pow2(k) - 1;
    assert m == 2 * h - 1;
    assert m / 2 == h - 1 && m % 2 == 1;
  }

  /** `a % 2^k` is the low bit of a below `(a / 2) % 2^(k-1)`. */
  lemma DoubleMod(a: nat, k: nat)
    requires k > 0
    ensures a % Pow2(k) == 2 * ((a / 2) % Pow2(k - 1)) + a % 2
  {
    var h := Pow2(k - 1);
    var q := (a / 2) / h;
    var s := (a / 2) % h;
    assert a == 2 * (a / 2) + a % 2;
    assert a / 2 == q * h + s;
    assert a == (2 * h) * q + (2 * s + a % 2) by {
      assert 2 * (q * h) == (2 * h) * q;
    }
    ModUnique(a, 2 * h, q, 2 * s + a % 2);
    assert Pow2(k) == 2 * h;
  }

  lemma {:induction false} MulAtLeast(n: int, d: nat)
    requires n > 0 && d >= 1
    ensures n * d >= n
  {
    if d > 1 {
      MulAtLeast(n, d - 1);
      assert n * d == n * (d - 1) + n;
    }
  }

  /** Euclidean division has one quotient and one remainder. */
  lemma ModUnique(a: int, n: int, q: int, r: int)
    requires n > 0 && 0 <= r < n && a == n * q + r
    ensures a / n == q && a % n == r
  {
    var q0, r0 := a / n, a % n;
    var d := q - q0;
    assert n * q == n * q0 + n * d;
    assert n * d == r0 - r;
    if d >= 1 {
      MulAtLeast(n, d);
    } else if d <= -1 {
      assert n * (-d) == -(n * d);
      MulAtLeast(n, -d);
    }
  }

  /** One step of NatAnd against an even operand. */
  lemma AndEvenStep(a: nat, b: nat)
    requires b % 2 == 0
    ensures NatAnd(a, b) == 2 * NatAnd(a / 2, b / 2)
  {
    if a == 0 || b == 0 {
      assert NatAnd(a / 2, b / 2) == 0;
    }
  }

  /** One step of NatOr, valid for every pair. */
  lemma OrStep(a: nat, b: nat)
    ensures NatOr(a, b) == 2 * NatOr(a / 2, b / 2) + (if a % 2 == 1 || b % 2 == 1 then 1 else 0)
  {
    if a == 0 {
      OrZero(b / 2);
    } else if b == 0 {
      OrZero(a / 2);
    }
  }

  /** Masking with ones above bit k acts on the quotient by 2^k only. */
  lemma {:induction false} AndShiftLow(q: nat, r: nat, m: nat, k: nat)
    requires r < Pow2(k)
    ensures NatAnd(Shifted(q, k) + r, Shifted(m, k)) == Shifted(NatAnd(q, m), k)
  {
    if k > 0 {
      var q1, m1 := Shifted(q, k - 1), Shifted(m, k - 1);
      assert (2 * q1 + r) / 2 == q1 + r / 2;
      AndEvenStep(2 * q1 + r, 2 * m1);
      AndShiftLow(q, r / 2, m, k - 1);
    }
  }

  /** Or of a low value with two operands shifted by the same amount. */
  lemma {:induction false} OrShiftLow(r: nat, x: nat, y: nat, k: nat)
    requires r < Pow2(k)
    ensures NatOr(r + Shifted(x, k), Shifted(y, k)) == r + Shifted(NatOr(x, y), k)
  {
    if k > 0 {
      var x1, y1 := Shifted(x, k - 1), Shifted(y, k - 1);
      assert (r + 2 * x1) / 2 == r / 2 + x1 && (r + 2 * x1) % 2 == r % 2;
      OrStep(r + 2 * x1, 2 * y1);
      OrShiftLow(r / 2, x, y, k - 1);
    }
  }

  /** `hi * 2^k | lo` is `hi * 2^k + lo` when lo fits in k bits. */
  lemma PlaceBits(hi: nat, lo: nat, k: nat)
    requires lo < Pow2(k)
    ensures NatOr(Shifted(hi, k), lo) == Shifted(hi, k) + lo
  {
    AndLowZero(hi, lo, k);
    OrDisjoint(Shifted(hi, k), lo);
  }

  /** `a & ((2^m - 1) * 2^k)` clears the k low bits of a value below 2^(k+m). */
  lemma AndHighMask(q: nat, r: nat, m: nat, k: nat)
    requires q < Pow2(m) && r < Pow2(k)
    ensures NatAnd(Shifted(q, k) + r, Shifted(Pow2(m) - 1, k)) == Shifted(q, k)
  {
    AndShiftLow(q, r, Pow2(m) - 1, k);
    AndLowMask(q, m);
    ModUnique(q, Pow2(m), 0, q);
  }

  lemma Pow2Values()
    ensures Pow2(1) == 2 && Pow2(2) == 4 && Pow2(3) == 8 && Pow2(5) == 32
    ensures Pow2(6) == 64 && Pow2(7) == 128 && Pow2(8) == 256 && Pow2(10) == 1024
    ensures Pow2(11) == 2048 && Pow2(13) == 8192 && Pow2(15) == 32768
    ensures Pow2(4) == 16 && Pow2(16) == 65536 && Pow2(18) == 262144
  {
  }

  /** The fix-up after a JavaScript remainder yields the Euclidean remainder. */
  lemma JsRemFixUp(a: int, n: int)
    requires n > 0
    ensures (var r := JsRem(a, n); if r < 0 then r + n else r) == a % n
  {
    if a < 0 {
      var b := -a;
      var q, s := b / n, b % n;
      assert b == n * q + s;
      if s == 0 {
        assert a == n * (-q) + 0;
        ModUnique(a, n, -q, 0);
      } else {
        assert a == n * (-q - 1) + (n - s);
        ModUnique(a, n, -q - 1, n - s);
      }
    }
  }

  // ---------------------------------------------------------------------
  // The operators on values that fit in 31 bits, as ordinary arithmetic.

  lemma ShlSmall(x: nat, k: nat)
    requires k < 32 && x * Pow2(k) < Two31
    ensures Shl(x, k) == x * Pow2(k)
  {
  }

  lemma SarSmall(x: nat, k: nat)
    requires k < 32 && x < Two31
    ensures Sar(x, k) == x / Pow2(k)
  {
  }

  /**
   * `h * 2^j | y` (either order) is `h * 2^j + y` when y fits in j bits:
   * the two operands occupy disjoint bit ranges.
   */
  lemma OrOfDisjoint(h: nat, y: nat, j: nat)
    requires y < Pow2(j) && h * Pow2(j) + y < Two31
    ensures BitOr(h * Pow2(j), y) == h * Pow2(j) + y
    ensures BitOr(y, h * Pow2(j)) == h * Pow2(j) + y
  {
    var x := h * Pow2(j);
    assert NatOr(x, y) == x + y by {
      ShiftedIsProduct(h, j);
      PlaceBits(h, y, j);
    }
    OrOfSmall(x, y);
  }

  lemma OrOfSmall(x: nat, y: nat)
    requires NatOr(x, y) == x + y && x + y < Two31
    ensures BitOr(x, y) == x + y && BitOr(y, x) == x + y
  {
    OrCommutes(x, y);
    OrOfSmallOneWay(x, y);
    OrOfSmallOneWay(y, x);
  }

  lemma OrOfSmallOneWay(x: nat, y: nat)
    requires NatOr(x, y) == x + y && x + y < Two31
    ensures BitOr(x, y) == x + y
  {
    BitOrOfNats(x, y);
    SameInt32(NatOr(x, y), x + y);
    Int32OfSmall(x + y);
  }

  lemma SameInt32(a: int, b: int)
    requires a == b
    ensures ToInt32(a) == ToInt32(b)
  {
  }

  /** On 32-bit naturals `|` is NatOr followed by ToInt32. */
  lemma BitOrOfNats(x: nat, y: nat)
    requires x < Two32 && y < Two32
    ensures BitOr(x, y) == ToInt32(NatOr(x, y))
  {
    var ux, uy := ToUint32(x), ToUint32(y);
    assert ux == x && uy == y;
    SameOr(ux, uy, x, y);
  }

  lemma SameOr(a: nat, b: nat, c: nat, d: nat)
    requires a == c && b == d
    ensures ToInt32(NatOr(a, b)) == ToInt32(NatOr(c, d))
  {
  }

  /** `x & (2^k - 1)` is `x % 2^k`. */
  lemma AndOfLowMask(x: nat, k: nat)
    requires x < Two31 && Pow2(k) <= Two31
    ensures BitAnd(x, Pow2(k) - 1) == x % Pow2(k)
  {
    var mask := Pow2(k) - 1;
    Int32OfSmall(x);
    Int32OfSmall(mask);
    AndLowMask(x, k);
    var low := x % Pow2(k);
    assert low < Pow2(k);
    Int32OfSmall(low);
  }

  /** `(h * 2^k + r) & ((2^m - 1) * 2^k)` is `h * 2^k` when h < 2^m and r < 2^k. */
  lemma AndOfHighMask(h: nat, r: nat, m: nat, k: nat)
    requires h < Pow2(m) && r < Pow2(k) && h * Pow2(k) + r < Two31
    requires (Pow2(m) - 1) * Pow2(k) < Two31
    ensures BitAnd(h * Pow2(k) + r, (Pow2(m) - 1) * Pow2(k)) == h * Pow2(k)
  {
    var x := h * Pow2(k) + r;
    var mask := (Pow2(m) - 1) * Pow2(k);
    assert NatAnd(x, mask) == h * Pow2(k) by {
      ShiftedIsProduct(h, k);
      ShiftedIsProduct(Pow2(m) - 1, k);
      AndHighMask(h, r, m, k);
    }
    Int32OfSmall(x);
    Int32OfSmall(mask);
    Int32OfSmall(h * Pow2(k));
  }

  // The same facts with the power of two passed as a value, so that callers
  // work with literal constants and never multiply by Pow2.

  lemma ShlBy(x: nat, k: nat, p: nat)
    requires k < 32 && p == Pow2(k) && x * p < Two31
    ensures Shl(x, k) == x * p
  {
    ShlSmall(x, k);
  }

  /** `(q * 2^k) >> k` is q. */
  lemma SarBy(q: nat, k: nat, p: nat)
    requires k < 32 && p == Pow2(k) && q * p < Two31
    ensures Sar(q * p, k) == q
  {
    SarSmall(q * p, k);
    ModUnique(q * p, p, q, 0);
  }

  /** `hi | y` is `hi + y` when hi is a multiple of 2^k and y < 2^k. */
  lemma OrBy(q: nat, hi: nat, y: nat, k: nat, p: nat)
    requires p == Pow2(k) && hi == q * p && y < p && hi + y < Two31
    ensures BitOr(hi, y) == hi + y
  {
    OrOfDisjoint(q, y, k);
  }

  lemma AndLowBy(x: nat, k: nat, p: nat)
    requires p == Pow2(k) && x < Two31 && p <= Two31
    ensures BitAnd(x, p - 1) == x % p
  {
    AndOfLowMask(x, k);
  }
}

/** Python's integer bit operators on unbounded non-negative integers, and the
    facts that tie them to division and remainder by powers of two. */
module Bits {

  /** 2 to the power k. */
  function Pow2(k: nat): (r: nat)
    ensures r >= 1
  {
    if k == 0 then 1 else 2 * Pow2(k - 1)
  }

  /** `a << k`. */
  function ShiftLeft(a: nat, k: nat): nat
  {
    a * Pow2(k)
  }

  /** `a >> k`, one bit at a time. */
  function ShiftRight(a: nat, k: nat): nat
  {
    if k == 0 then a else ShiftRight(a / 2, k - 1)
  }

  /** `a & b`, bit by bit from the least significant end. */
  function BitAnd(a: nat, b: nat): nat
    decreases a
  {
    if a == 0 || b == 0 then 0 else (a % 2) * (b % 2) + 2 * BitAnd(a / 2, b / 2)
  }

  /** `a | b`, bit by bit from the least significant end. */
  function BitOr(a: nat, b: nat): nat
    decreases a + b
  {
    if a == 0 then b
    else if b == 0 then a
    else (if a % 2 == 1 || b % 2 == 1 then 1 else 0) + 2 * BitOr(a / 2, b / 2)
  }

  lemma {:induction false} Pow2Add(a: nat, b: nat)
    ensures Pow2(a + b) == Pow2(a) * Pow2(b)
    decreases a
  {
    if a > 0 {
      Pow2Add(a - 1, b);
      assert Pow2(a + b) == 2 * Pow2(a - 1 + b);
    }
  }

  /** The powers of two the decoder's masks and shifts use. */
  lemma Pow2Constants()
    ensures Pow2(3) == 8 && Pow2(7) == 128
  {
    assert Pow2(1) == 2;
    assert Pow2(2) == 4;
    assert Pow2(3) == 8;
    assert Pow2(4) == 16;
    assert Pow2(5) == 32;
    assert Pow2(6) == 64;
  }

  /** Splitting a remainder by an even modulus into its lowest bit and the rest. */
  lemma ModDouble(a: nat, q: nat)
    requires q >= 1
    ensures a % (2 * q) == a % 2 + 2 * ((a / 2) % q)
    ensures a / (2 * q) == (a / 2) / q
  {
    var h := a / 2;
    var r := h % q;
    var d := h / q;
    assert h == q * d + r;
    assert a == 2 * h + a % 2;
    assert a == (2 * q) * d + (2 * r + a % 2);
    assert 0 <= 2 * r + a % 2 < 2 * q;
    DivModUnique(a, 2 * q, d, 2 * r + a % 2);
  }

  lemma DivModUnique(a: nat, m: nat, d: nat, r: nat)
    requires m >= 1
    requires a == m * d + r && r < m
    ensures a / m == d && a % m == r
  {
    var d0 := a / m;
    var r0 := a % m;
    assert a == m * d0 + r0;
    if d0 < d {
      MulMono(m, d0 + 1, d);
    } else if d0 > d {
      MulMono(m, d + 1, d0);
    }
  }

  lemma MulMono(m: nat, x: nat, y: nat)
    requires x <= y
    ensures m * x <= m * y
  {
  }

  /** Masking with 2^k - 1 keeps the k lowest bits: `a & (2^k - 1) == a % 2^k`. */
  lemma {:induction false} AndLowMask(a: nat, k: nat)
    ensures BitAnd(a, Pow2(k) - 1) == a % Pow2(k)
    decreases k
  {
    if k == 0 {
      assert Pow2(k) == 1;
    } else if a == 0 {
    } else {
      var q := Pow2(k - 1);
      var low := BitAnd(a / 2, q - 1);
      assert Pow2(k) == 2 * q;
      assert BitAnd(a, Pow2(k) - 1) == a % 2 + 2 * low by {
        var m := 2 * q - 1;
        assert m % 2 == 1 && m / 2 == q - 1 by {
          assert m == 2 * (q - 1) + 1;
        }
        AndOdd(a, m);
      }
      assert low == (a / 2) % q by {
        AndLowMask(a / 2, k - 1);
      }
      assert a % Pow2(k) == a % 2 + 2 * ((a / 2) % q) by {
        ModDouble(a, q);
      }
    }
  }

  /** With an odd mask, the lowest bit of `a & m` is the lowest bit of `a`. */
  lemma AndOdd(a: nat, m: nat)
    requires a > 0 && m % 2 == 1
    ensures BitAnd(a, m) == a % 2 + 2 * BitAnd(a / 2, m / 2)
  {
  }

  /** With an even mask, the lowest bit of `a & m` is clear. */
  lemma AndEven(a: nat, m: nat, h: nat)
    requires m == 2 * h
    ensures BitAnd(a, m) == 2 * BitAnd(a / 2, h)
  {
    if a != 0 && m != 0 {
      assert m % 2 == 0 && m / 2 == h;
    }
  }

  /** Shifting right by k is division by 2^k. */
  lemma {:induction false} ShiftRightDiv(a: nat, k: nat)
    ensures ShiftRight(a, k) == a / Pow2(k)
    decreases k
  {
    if k > 0 {
      var q := Pow2(k - 1);
      ShiftRightDiv(a / 2, k - 1);
      ModDouble(a, q);
    }
  }

  /** Masking with 2^k isolates bit k: `a & 2^k` is 2^k when that bit is set, else 0. */
  lemma {:induction false} AndSingleBit(a: nat, k: nat)
    ensures BitAnd(a, Pow2(k)) == ((a / Pow2(k)) % 2) * Pow2(k)
    decreases k
  {
    var p := Pow2(k);
    if k == 0 {
      assert p == 1;
      assert BitAnd(a / 2, 0) == 0;
    } else {
      var q := Pow2(k - 1);
      var bit := ((a / 2) / q) % 2;
      assert p == 2 * q;
      assert BitAnd(a, p) == 2 * BitAnd(a / 2, q) by {
        AndEven(a, p, q);
      }
      assert BitAnd(a / 2, q) == bit * q by {
        AndSingleBit(a / 2, k - 1);
      }
      assert a / p == (a / 2) / q by {
        ModDouble(a, q);
      }
      assert 2 * (bit * q) == bit * p;
    }
  }

  /** OR-ing a value into bits that are all clear is addition:
      `a | (c << k) == a + (c << k)` whenever `a < 2^k`. */
  lemma {:induction false} OrDisjoint(a: nat, c: nat, k: nat)
    requires a < Pow2(k)
    ensures BitOr(a, ShiftLeft(c, k)) == a + ShiftLeft(c, k)
    decreases k
  {
    if k > 0 && a != 0 && c != 0 {
      var q := Pow2(k - 1);
      var b := c * Pow2(k);
      assert b == 2 * (c * q);
      assert b % 2 == 0 && b / 2 == c * q;
      OrDisjoint(a / 2, c, k - 1);
      assert BitOr(a, b) == a % 2 + 2 * (a / 2 + c * q);
    }
  }
}

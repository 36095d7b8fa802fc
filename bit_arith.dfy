/**
  Powers of two, single bits of natural numbers, and the division and
  remainder facts that the bit loops and the 32-bit accumulator of the
  checksum rely on.
 */
module BitArith {

  /** 2^i, the value of Go's `1 << i`. */
  function Pow2(i: nat): (r: nat)
    ensures r > 0
  {
    if i == 0 then 1 else 2 * Pow2(i - 1)
  }

  /** Bit i of n, Go's `(n >> i) % 2`. */
  function Bit(n: nat, i: nat): (b: nat)
  {
    (n / Pow2(i)) % 2
  }

  /** Go's `x | (1 << i)` on a non-negative x: bit i is switched on, the other bits are kept. */
  function SetBit(x: nat, i: nat): (r: nat)
  {
    if Bit(x, i) == 1 then x else x + Pow2(i)
  }

  lemma {:induction false} Pow2Constants()
    ensures Pow2(8) == 0x100 && Pow2(16) == 0x1_0000
  {
    assert Pow2(4) == 16;
    assert Pow2(8) == 0x100;
  }

  lemma {:induction false} Pow2Add(a: nat, b: nat)
    ensures Pow2(a + b) == Pow2(a) * Pow2(b)
  {
    if b > 0 {
      Pow2Add(a, b - 1);
      assert Pow2(a + b) == 2 * Pow2(a + b - 1);
    }
  }

  lemma {:induction false} Pow2Monotone(a: nat, b: nat)
    requires a <= b
    ensures Pow2(a) <= Pow2(b)
  {
    if a < b {
      Pow2Monotone(a, b - 1);
    }
  }

  lemma {:induction false} MulAtLeast(d: int, m: int)
    requires d >= 1 && m > 0
    ensures d * m >= m
  {
    if d > 1 {
      MulAtLeast(d - 1, m);
      assert d * m == (d - 1) * m + m;
    }
  }

  /** Division with remainder is unique: q and r are n's quotient and remainder by m. */
  lemma {:induction false} DivModUnique(n: int, m: int, q: int, r: int)
    requires m > 0 && 0 <= r < m && n == q * m + r
    ensures n / m == q && n % m == r
  {
    var q', r' := n / m, n % m;
    assert n == q' * m + r' && 0 <= r' < m;
    if q' > q {
      assert (q' - q) * m == r - r';
      MulAtLeast(q' - q, m);
    } else if q' < q {
      assert (q - q') * m == r' - r;
      MulAtLeast(q - q', m);
    }
  }

  /** Reducing modulo m before adding does not change the sum modulo m. */
  lemma {:induction false} ModAddMod(a: nat, b: nat, m: nat)
    requires m > 0
    ensures (a % m + b) % m == (a + b) % m
  {
    var r := (a % m + b) % m;
    var q := (a % m + b) / m;
    assert a % m + b == q * m + r;
    assert a + b == (q + a / m) * m + r;
    DivModUnique(a + b, m, q + a / m, r);
  }

  lemma {:induction false} MulNonneg(x: int, y: int)
    requires x >= 0 && y >= 0
    ensures x * y >= 0
  {
    if x > 0 && y > 0 {
      MulAtLeast(x, y);
    }
  }

  /** Dividing by x * y is dividing by x and then by y. */
  lemma {:induction false} DivDiv(n: nat, x: int, y: int)
    requires x > 0 && y > 0
    ensures n / (x * y) == (n / x) / y
  {
    var q, r1, r2 := (n / x) / y, n % x, (n / x) % y;
    assert n == (n / x) * x + r1;
    assert n / x == q * y + r2;
    assert n == q * (x * y) + (r2 * x + r1) by {
      assert n == (q * y + r2) * x + r1;
      assert (q * y + r2) * x == q * (x * y) + r2 * x;
    }
    assert r2 * x + r1 < x * y by {
      MulNonneg(y - 1 - r2, x);
      assert (y - 1 - r2) * x == x * y - x - r2 * x;
    }
    MulNonneg(r2, x);
    DivModUnique(n, x * y, q, r2 * x + r1);
  }

  /** Dividing by 2^(a+b) is dividing by 2^a and then by 2^b. */
  lemma {:induction false} DivPow2Add(n: nat, a: nat, b: nat)
    ensures n / Pow2(a + b) == (n / Pow2(a)) / Pow2(b)
  {
    Pow2Add(a, b);
    DivDiv(n, Pow2(a), Pow2(b));
  }

  /** The low i+1 bits of n are its low i bits plus bit i in place i. */
  lemma {:induction false} LowBitsStep(n: nat, i: nat)
    ensures n % Pow2(i + 1) == n % Pow2(i) + Pow2(i) * Bit(n, i)
  {
    var p := Pow2(i);
    var a, b := n / p, n % p;
    assert Pow2(i + 1) == 2 * p;
    assert n == a * p + b;
    assert a == (a / 2) * 2 + a % 2;
    assert n == (a / 2) * (2 * p) + (a % 2 * p + b) by {
      assert a * p == ((a / 2) * 2 + a % 2) * p;
    }
    assert a % 2 * p + b < 2 * p;
    DivModUnique(n, 2 * p, a / 2, a % 2 * p + b);
  }

  /** A number below 2^i has bit i clear, so setting it adds 2^i. */
  lemma {:induction false} SetBitOfSmall(x: nat, i: nat)
    requires x < Pow2(i)
    ensures SetBit(x, i) == x + Pow2(i)
  {
    DivModUnique(x, Pow2(i), 0, x);
  }

  /** Bit s + k of n is bit k of q, n shifted right by s. */
  lemma {:induction false} BitOfShifted(n: nat, s: nat, k: nat, q: nat)
    requires q == n / Pow2(s)
    ensures Bit(n, s + k) == Bit(q, k)
  {
    DivPow2Add(n, s, k);
  }

  /**
    One step of copying bits: if x holds the low i bits of n, setting bit i
    of x when bit i of n is set gives the low i + 1 bits of n, which lie
    below 2^k for every k > i.
   */
  lemma {:induction false} CopyBitStep(n: nat, x: nat, i: nat, k: nat)
    requires x == n % Pow2(i) && i < k
    ensures (if Bit(n, i) == 1 then SetBit(x, i) else x) == n % Pow2(i + 1)
    ensures n % Pow2(i + 1) < Pow2(k)
  {
    LowBitsStep(n, i);
    Pow2Monotone(i + 1, k);
    if Bit(n, i) == 1 {
      SetBitOfSmall(x, i);
    }
  }

  /** Bitwise exclusive or of the low w bits of a and b: Go's `^` on w-bit values. */
  function Xor(a: nat, b: nat, w: nat): (r: nat)
  {
    if w == 0 then 0 else (a % 2 + b % 2) % 2 + 2 * Xor(a / 2, b / 2, w - 1)
  }

  /** Exclusive or with w one-bits complements a w-bit number. */
  lemma {:induction false} XorAllOnes(x: nat, w: nat)
    requires x < Pow2(w)
    ensures Xor(x, Pow2(w) - 1, w) == Pow2(w) - 1 - x
  {
    if w > 0 {
      var h := Pow2(w - 1);
      var m := Pow2(w) - 1;
      assert m == 2 * (h - 1) + 1;
      assert m % 2 == 1 && m / 2 == h - 1;
      assert x == 2 * (x / 2) + x % 2;
      assert x / 2 < h;
      XorAllOnes(x / 2, w - 1);
      assert (x % 2 + m % 2) % 2 == 1 - x % 2;
    }
  }
}

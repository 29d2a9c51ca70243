/**
 * 32-bit machine words as integers below 2^32, with the wrap of addition and
 * subtraction written out, and bitwise AND on naturals. Shared by the Secure
 * monitor and the firmware drivers.
 */
module Words {
  const Modulus: int := 0x1_0000_0000

  /** A 32-bit `size_t` or pointer. */
  type word = x: int | 0 <= x < Modulus

  /** `a + b` on 32-bit words. */
  function AddW(a: word, b: word): (r: word)
    ensures r == (a + b) % Modulus
  {
    if a + b >= Modulus then a + b - Modulus else a + b
  }

  /** `a - b` on 32-bit words. */
  function SubW(a: word, b: word): (r: word)
    ensures r == (a - b) % Modulus
  {
    if a < b then a - b + Modulus else a - b
  }

  /** Bitwise AND of two naturals, least significant bit first. */
  function AndBits(a: nat, b: nat): (r: nat)
    ensures r <= a && r <= b
    decreases a
  {
    if a == 0 || b == 0 then 0
    else 2 * AndBits(a / 2, b / 2) + (if a % 2 == 1 && b % 2 == 1 then 1 else 0)
  }

  /** Bitwise NOT of a 32-bit word. */
  function Complement(x: word): word {
    Modulus - 1 - x
  }

  function Pow2(k: nat): (r: nat)
    ensures r >= 1
  {
    if k == 0 then 1 else 2 * Pow2(k - 1)
  }

  predicate IsPow2(x: int)
    decreases if x < 0 then 0 else x
  {
    x == 1 || (x > 1 && x % 2 == 0 && IsPow2(x / 2))
  }

  // ---------------------------------------------------------------------------
  // The mask rounds up to a power of two

  lemma {:induction false} AllOnes(x: nat, w: nat)
    requires x < Pow2(w)
    ensures AndBits(x, Pow2(w) - 1) == x
    decreases w
  {
    if x > 0 {
      AllOnes(x / 2, w - 1);
    }
  }

  /** Masking with `2^w - 1` keeps the low `w` bits: the remainder by `2^w`. */
  lemma {:induction false} LowBits(x: nat, w: nat)
    ensures AndBits(x, Pow2(w) - 1) == x % Pow2(w)
    decreases w
  {
    if w == 0 {
      ModUnique(x, 1, x, 0);
    } else if x == 0 {
      ModUnique(0, Pow2(w), 0, 0);
    } else {
      var p := Pow2(w - 1);
      assert Pow2(w) == 2 * p;
      assert (2 * p - 1) / 2 == p - 1 && (2 * p - 1) % 2 == 1;
      LowBits(x / 2, w - 1);
      assert AndBits(x, 2 * p - 1) == 2 * ((x / 2) % p) + x % 2;
      ModDouble(x, p);
    }
  }


  lemma ModDouble(x: nat, b: nat)
    requires b > 0
    ensures x % (2 * b) == 2 * ((x / 2) % b) + x % 2
  {
    var q := x / 2;
    var s := q % b;
    var t := q / b;
    assert q == b * t + s;
    assert x == (2 * b) * t + (2 * s + x % 2);
    ModUnique(x, 2 * b, t, 2 * s + x % 2);
  }

  lemma MulStep(d: int, k: int)
    requires d > 0
    ensures k >= 1 ==> d * k >= d
    ensures k <= 0 ==> d * k <= 0
  {
    if k >= 1 {
      assert d * k == d * (k - 1) + d;
    } else {
      assert d * k == -(d * -k);
    }
  }

  lemma ModUnique(x: int, d: int, q: int, r: int)
    requires 0 <= r < d && x == d * q + r
    ensures x % d == r && x / d == q
  {
    var q' := x / d;
    var r' := x % d;
    assert d * q' + r' == d * q + r;
    if q' < q {
      assert d * q - d * q' == d * (q - q');
      MulStep(d, q - q');
      assert false;
    } else if q' > q {
      assert d * q' - d * q == d * (q' - q);
      MulStep(d, q' - q);
      assert false;
    }
  }

  /** Clearing the bits below a power of two `a` rounds down to a multiple of `a`. */
  lemma {:induction false} ClearLowBits(x: nat, a: nat, w: nat)
    requires IsPow2(a) && a <= Pow2(w) && x < Pow2(w)
    ensures AndBits(x, Pow2(w) - a) == x - x % a
    decreases a
  {
    if a == 1 {
      AllOnes(x, w);
    } else if x == 0 || a == Pow2(w) {
      assert x < a && AndBits(x, Pow2(w) - a) == 0;
      ModUnique(x, a, 0, x);
    } else {
      var h, p, m := a / 2, Pow2(w - 1), Pow2(w) - a;
      assert a == 2 * h && Pow2(w) == 2 * p;
      assert m > 0 && m % 2 == 0 && m / 2 == p - h;
      ClearLowBits(x / 2, h, w - 1);
      ClearStep(x, a, h, m);
    }
  }

  /** Rounding `x / 2` down to a multiple of `h` gives `x` rounded down to a multiple of `2 h`. */
  lemma ClearStep(x: nat, a: nat, h: nat, m: nat)
    requires a == 2 * h && h > 0 && x > 0 && m > 0 && m % 2 == 0
    requires AndBits(x / 2, m / 2) == x / 2 - (x / 2) % h
    ensures AndBits(x, m) == x - x % a
  {
    ModDouble(x, h);
    HalvedRemainder(x, a, h, AndBits(x / 2, m / 2));
  }

  /** The arithmetic that lifts a rounding of `x / 2` to `h` to a rounding of `x` to `2 h`. */
  lemma HalvedRemainder(x: nat, a: nat, h: nat, half: int)
    requires a == 2 * h && h > 0
    requires half == x / 2 - (x / 2) % h
    requires x % (2 * h) == 2 * ((x / 2) % h) + x % 2
    ensures 2 * half == x - x % a
  {
  }

  lemma {:induction false} Pow2Add(a: nat, b: nat)
    ensures Pow2(a + b) == Pow2(a) * Pow2(b)
    decreases a
  {
    if a > 0 {
      Pow2Add(a - 1, b);
      assert Pow2(a + b) == 2 * Pow2(a - 1 + b);
    }
  }

  lemma ModulusIsPow2()
    ensures Pow2(32) == Modulus
  {
    assert Pow2(2) == 4;
    Pow2Add(2, 2);
    Pow2Add(4, 4);
    Pow2Add(8, 8);
    Pow2Add(16, 16);
  }

  /** A power of two below 2^32 divides 2^32. */
  lemma {:induction false} Pow2DividesModulus(a: nat, w: nat)
    requires IsPow2(a) && a <= Pow2(w)
    ensures Pow2(w) % a == 0
    decreases a
  {
    if a > 1 {
      assert w > 0;
      Pow2DividesModulus(a / 2, w - 1);
      var k := Pow2(w - 1) / (a / 2);
      assert Pow2(w - 1) == (a / 2) * k;
      assert Pow2(w) == a * k;
      ModUnique(Pow2(w), a, k, 0);
    }
  }

  /** Two multiples of `a` that differ differ by at least `a`. */
  lemma MultiplesApart(x: nat, y: nat, a: nat)
    requires a > 0 && x % a == 0 && y % a == 0 && x < y
    ensures x + a <= y
  {
    var i := x / a;
    var j := y / a;
    assert x == a * i && y == a * j;
    assert y - x == a * (j - i);
    MulStep(a, j - i);
  }

}

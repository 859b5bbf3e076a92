/** The integer widths of the 64-bit C platform the chart is built for: `size_t`
    reduction modulo 2^64, the `int` range, and powers of two. */
module SizeT {

  const SIZE_MOD: int := 0x1_0000_0000_0000_0000
  const SIZE_MAX: int := SIZE_MOD - 1
  const INT_MAX: int := 0x7fff_ffff

  /** A value of C's `size_t`. */
  type Size = x: int | 0 <= x < SIZE_MOD

  /** Conversion of an integer to `size_t`, which is also what `size_t` `+` and `-`
      yield: reduction modulo 2^64. */
  function ToSize(x: int): (r: Size)
    ensures 0 <= x < SIZE_MOD ==> r == x
    ensures -SIZE_MOD <= x < 0 ==> r == x + SIZE_MOD
  {
    if 0 <= x < SIZE_MOD then x
    else if -SIZE_MOD <= x < 0 then x + SIZE_MOD
    else x % SIZE_MOD
  }

  function Pow2(k: nat): (r: nat)
    ensures r >= 1
  {
    if k == 0 then 1 else 2 * Pow2(k - 1)
  }

  /** `n` is 1, 2, 4, 8, ... */
  predicate IsPow2(n: int)
    decreases n
  {
    if n <= 1 then n == 1 else n % 2 == 0 && IsPow2(n / 2)
  }

  lemma DoubleIsPow2(n: int)
    requires IsPow2(n)
    ensures IsPow2(2 * n)
  {
  }

  lemma {:induction false} Pow2IsPow2(k: nat)
    ensures IsPow2(Pow2(k))
  {
    if k > 0 {
      Pow2IsPow2(k - 1);
      DoubleIsPow2(Pow2(k - 1));
    }
  }

  lemma {:induction false} Pow2Monotone(j: nat, k: nat)
    requires j <= k
    ensures Pow2(j) <= Pow2(k)
  {
    if j < k {
      Pow2Monotone(j, k - 1);
    }
  }

  /** Every power of two up to 2^k divides 2^k. */
  lemma {:induction false} Pow2Divides(n: int, k: nat) returns (t: nat)
    requires IsPow2(n) && n <= Pow2(k)
    ensures n * t == Pow2(k)
  {
    if n == 1 {
      t := Pow2(k);
    } else {
      var m := n / 2;
      assert n == 2 * m;
      assert k > 0;
      var t' := Pow2Divides(m, k - 1);
      t := t';
      calc {
        n * t;
        (2 * m) * t';
        2 * (m * t');
        Pow2(k);
      }
    }
  }

  lemma {:induction false} MulAtLeast(d: int, n: int)
    requires d >= 1 && n > 0
    ensures d * n >= n
  {
    if d > 1 {
      MulAtLeast(d - 1, n);
      assert d * n == (d - 1) * n + n;
    }
  }

  /** Euclidean division is unique. */
  lemma ModUnique(y: int, n: int, q: int, r: int)
    requires n > 0 && y == q * n + r && 0 <= r < n
    ensures y % n == r
  {
    var q0, r0 := y / n, y % n;
    assert y == q0 * n + r0;
    assert (q - q0) * n == q * n - q0 * n;
    if q > q0 {
      MulAtLeast(q - q0, n);
    } else if q < q0 {
      MulAtLeast(q0 - q, n);
    }
  }

  /** Conversion to `size_t` is reduction modulo 2^64 for every integer. */
  lemma ToSizeIsMod(x: int)
    ensures ToSize(x) == x % SIZE_MOD
  {
    if 0 <= x < SIZE_MOD {
      ModUnique(x, SIZE_MOD, 0, x);
    } else if -SIZE_MOD <= x < 0 {
      ModUnique(x, SIZE_MOD, -1, x + SIZE_MOD);
    }
  }

  lemma {:induction false} Pow2Add(a: nat, b: nat)
    ensures Pow2(a + b) == Pow2(a) * Pow2(b)
  {
    if b > 0 {
      Pow2Add(a, b - 1);
      assert Pow2(a + b) == 2 * Pow2(a + b - 1);
    }
  }

  lemma Pow2Of64()
    ensures Pow2(64) == SIZE_MOD
  {
    assert Pow2(2) == 4;
    Pow2Add(2, 2);
    assert Pow2(4) == 0x10;
    Pow2Add(4, 4);
    assert Pow2(8) == 0x100;
    Pow2Add(8, 8);
    assert Pow2(16) == 0x1_0000;
    Pow2Add(16, 16);
    assert Pow2(32) == 0x1_0000_0000;
    Pow2Add(32, 32);
  }

  /** Reduction modulo `n` of a value at most one period away from `[0, n)`. */
  lemma ModNear(x: int, n: int)
    requires n > 0 && -n <= x < 2 * n
    ensures x % n == if x < 0 then x + n else if x < n then x else x - n
  {
    if x < 0 {
      ModUnique(x, n, -1, x + n);
    } else if x < n {
      ModUnique(x, n, 0, x);
    } else {
      ModUnique(x, n, 1, x - n);
    }
  }

  lemma Distributes(q: int, t: int, n: int)
    ensures (q + t) * n == q * n + t * n
  {
  }

  /** Every power of two up to 2^64 divides 2^64. */
  lemma DividesSizeMod(n: int) returns (t: nat)
    requires IsPow2(n) && n <= SIZE_MOD
    ensures n * t == SIZE_MOD
  {
    Pow2Of64();
    t := Pow2Divides(n, 64);
  }

  /** For a power of two `n` up to 2^64, reducing a `size_t` result modulo `n`
      gives the mathematical residue: the wrap-around of unsigned arithmetic
      is a multiple of `n`. */
  lemma UnsignedModAgrees(x: int, n: int)
    requires IsPow2(n) && n <= SIZE_MOD
    requires -SIZE_MOD <= x < SIZE_MOD
    ensures ToSize(x) % n == x % n
  {
    if x < 0 {
      var t := DividesSizeMod(n);
      assert n > 0;
      var q, r := x / n, x % n;
      Distributes(q, t, n);
      assert ToSize(x) == x + SIZE_MOD;
      ModUnique(ToSize(x), n, q + t, r);
    }
  }
}

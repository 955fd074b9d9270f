/** Integer facts shared by the bit packer and the probe-sequence proofs.
    Dafny's `/` and `%` are Euclidean, which for a positive divisor is the
    same as Java's arithmetic right shift (floor division). */
module Arith {

  function Pow2(n: nat): (r: nat)
    ensures r >= 1
  {
    if n == 0 then 1 else 2 * Pow2(n - 1)
  }

  lemma {:induction false} Pow2Add(a: nat, b: nat)
    ensures Pow2(a + b) == Pow2(a) * Pow2(b)
  {
    if b > 0 {
      Pow2Add(a, b - 1);
      var pa, pb := Pow2(a), Pow2(b - 1);
      assert Pow2(a + b) == 2 * Pow2(a + (b - 1));
      assert Pow2(b) == 2 * pb;
      MulAssoc(pa, 2, pb);
    }
  }

  lemma Pow2Byte()
    ensures Pow2(8) == 256
  {
  }

  lemma Pow2Code()
    ensures Pow2(4) == 16 && Pow2(12) == 4096
  {
    Pow2Add(4, 8);
    Pow2Byte();
  }

  lemma Pow2Word()
    ensures Pow2(24) == 0x100_0000
  {
    Pow2Add(12, 12);
    Pow2Code();
  }

  lemma MulAssoc(a: int, b: int, c: int)
    ensures a * (b * c) == (a * b) * c
    ensures a * (b * c) == (a * c) * b
  {
  }

  lemma MulMono(d: int, k: int)
    requires d > 0
    ensures k > 0 ==> d * k >= d
    ensures k < 0 ==> d * k <= -d
  {
  }

  /** Quotient and remainder are unique. */
  lemma DivMod(q: int, d: int, r: int)
    requires d > 0 && 0 <= r < d
    ensures (q * d + r) / d == q && (q * d + r) % d == r
  {
    var x := q * d + r;
    var k := x / d - q;
    assert x == d * (x / d) + x % d;
    assert d * (x / d) == d * k + d * q;
    MulMono(d, k);
  }

  lemma ModAddMultiple(x: int, k: int, d: int)
    requires d > 0
    ensures (x + k * d) % d == x % d
  {
    assert x == (x / d) * d + x % d;
    assert x + k * d == (x / d + k) * d + x % d;
    DivMod(x / d + k, d, x % d);
  }

  lemma DivAddMultiple(x: int, k: int, d: int)
    requires d > 0
    ensures (x + k * d) / d == x / d + k
  {
    assert x == (x / d) * d + x % d;
    assert x + k * d == (x / d + k) * d + x % d;
    DivMod(x / d + k, d, x % d);
  }

  /** Halving a floor quotient is the floor quotient by twice the divisor. */
  lemma DivHalf(x: int, a: int)
    requires a > 0
    ensures (x / a) / 2 == x / (a * 2)
  {
    var q := x / a;
    var r := x % a;
    assert x == a * q + r;
    var q2, r2 := q / 2, q % 2;
    var rest := r + a * r2;
    assert 0 <= rest < a * 2 by {
      assert r2 == 0 || r2 == 1;
    }
    assert a * q == (a * 2) * q2 + a * r2 by {
      assert q == 2 * q2 + r2;
      MulAssoc(a, 2, q2);
    }
    DivMod(q2, a * 2, rest);
  }
}

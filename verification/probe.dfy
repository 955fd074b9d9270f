/** The probe sequence of the compressor's hash table: the home slot of a
    (prefix, byte) key, the fixed stride, the wrap-around step, and the proof
    that, because the table size 5021 is prime, the probe sequence of any key
    visits every slot within TABLE_SIZE steps. */
module Probe {
  import opened Params
  import opened Arith

  /** Bitwise exclusive or of two non-negative integers, one bit at a time
      from the least significant. */
  function Xor(a: nat, b: nat): (r: nat)
    ensures r <= a + b
    ensures b == 0 ==> r == a
    ensures a == b ==> r == 0
    decreases a + b
  {
    if a == 0 && b == 0 then 0 else 2 * Xor(a / 2, b / 2) + (a + b) % 2
  }

  /** Exclusive or of two `n`-bit values is an `n`-bit value. */
  lemma {:induction false} XorBound(a: nat, b: nat, n: nat)
    requires a < Pow2(n) && b < Pow2(n)
    ensures Xor(a, b) < Pow2(n)
    decreases n
  {
    if n > 0 && !(a == 0 && b == 0) {
      XorBound(a / 2, b / 2, n - 1);
    }
  }

  /** `(character << HASHING_SHIFT) ^ prefixCodeVal`. Both operands are
      non-negative and below 2^12, so Java's `int` shift cannot overflow
      and the exclusive or stays below 4096. */
  function Home(prefix: int, character: int): (h: int)
    requires 0 <= prefix < CODE_SPACE && IsByte(character)
    ensures 0 <= h < CODE_SPACE && h < TABLE_SIZE
  {
    Pow2Code();
    XorBound(character * Pow2(HASHING_SHIFT), prefix, 12);
    Xor(character * Pow2(HASHING_SHIFT), prefix)
  }

  /** The home slot of the key (65, 65), the first key the compressor
      learns on the input "AAAA": 65 << 4 is 1040, whose set bits are
      disjoint from those of 65. */
  lemma HomeExample()
    ensures Home(65, 65) == 1105
  {
    Pow2Code();
    XorExample();
  }

  /** Evaluates 1040 ^ 65 bit by bit, from the last step of the recursion up. */
  lemma XorExample()
    ensures Xor(1040, 65) == 1105
  {
    XorStep(1, 0, 0, 1);
    XorStep(2, 0, 1, 0);
    XorStep(4, 0, 2, 0);
    XorStep(8, 0, 4, 0);
    XorStep(16, 1, 8, 1);
    XorStep(32, 2, 17, 0);
    XorStep(65, 4, 34, 1);
    XorStep(130, 8, 69, 0);
    XorStep(260, 16, 138, 0);
    XorStep(520, 32, 276, 0);
    XorStep(1040, 65, 552, 1);
  }

  /** One step of `Xor`, given the value of the recursive call. */
  lemma XorStep(a: nat, b: nat, q: nat, r: nat)
    requires !(a == 0 && b == 0) && Xor(a / 2, b / 2) == q && r == (a + b) % 2
    ensures Xor(a, b) == 2 * q + r
  {
  }

  predicate IsSlot(i: int) {
    0 <= i < TABLE_SIZE
  }

  /** The stride subtracted at each probe: 1 for home slot 0, otherwise
      `TABLE_SIZE - index`. */
  function Stride(h: int): (s: int)
    requires IsSlot(h)
    ensures 0 < s < TABLE_SIZE
    ensures (h + s) % TABLE_SIZE == (if h == 0 then 1 else 0)
  {
    if h == 0 then 1 else TABLE_SIZE - h
  }

  /** One probe step: `index -= offset; if (index < 0) index += TABLE_SIZE;`.
      A single correction suffices: the step is subtraction modulo TABLE_SIZE. */
  function NextProbe(i: int, s: int): (j: int)
    requires IsSlot(i) && 0 < s < TABLE_SIZE
    ensures IsSlot(j)
    ensures j == (i - s) % TABLE_SIZE
  {
    var j := i - s;
    if j < 0 then j + TABLE_SIZE else j
  }

  /** The slot visited after `k` probe steps from home slot `h`. */
  function ProbeAt(h: int, s: int, k: nat): (i: int)
    requires IsSlot(h) && 0 < s < TABLE_SIZE
    ensures IsSlot(i)
  {
    if k == 0 then h else NextProbe(ProbeAt(h, s, k - 1), s)
  }

  /** Closed form of the probe sequence: after `k` steps the probe is at
      `h - k * s` modulo TABLE_SIZE. */
  lemma {:induction false} ProbeClosed(h: int, s: int, k: nat)
    requires IsSlot(h) && 0 < s < TABLE_SIZE
    ensures ProbeAt(h, s, k) == (h - k * s) % TABLE_SIZE
  {
    if k > 0 {
      ProbeClosed(h, s, k - 1);
      var a := h - (k - 1) * s;
      var q, r := a / TABLE_SIZE, a % TABLE_SIZE;
      assert h - k * s == a - s by {
        assert k * s == (k - 1) * s + s;
      }
      var prev := ProbeAt(h, s, k - 1);
      assert prev == r;
      assert ProbeAt(h, s, k) == NextProbe(prev, s);
      assert a - s == (r - s) + q * TABLE_SIZE;
      ModAddMultiple(r - s, q, TABLE_SIZE);
    }
  }

  // ---------------------------------------------------------------------------
  // TABLE_SIZE is prime

  ghost predicate Prime(n: int) {
    n >= 2 && forall k :: 2 <= k < n ==> n % k != 0
  }

  /** Trial division of `n` by every `k` in [lo, hi]. */
  predicate NoDivisorIn(n: nat, lo: nat, hi: nat)
    decreases hi - lo
  {
    if lo > hi then true
    else if lo == 0 || n % lo == 0 then false
    else NoDivisorIn(n, lo + 1, hi)
  }

  lemma {:induction false} NoDivisorInSound(n: nat, lo: nat, hi: nat, k: int)
    requires NoDivisorIn(n, lo, hi) && lo <= k <= hi
    ensures n % k != 0
    decreases hi - lo
  {
    if lo < k {
      NoDivisorInSound(n, lo + 1, hi, k);
    }
  }

  lemma TrialDivision()
    ensures NoDivisorIn(TABLE_SIZE, 2, 70)
  {
    assert NoDivisorIn(TABLE_SIZE, 66, 70);
    assert NoDivisorIn(TABLE_SIZE, 62, 70);
    assert NoDivisorIn(TABLE_SIZE, 58, 70);
    assert NoDivisorIn(TABLE_SIZE, 54, 70);
    assert NoDivisorIn(TABLE_SIZE, 50, 70);
    assert NoDivisorIn(TABLE_SIZE, 46, 70);
    assert NoDivisorIn(TABLE_SIZE, 42, 70);
    assert NoDivisorIn(TABLE_SIZE, 38, 70);
    assert NoDivisorIn(TABLE_SIZE, 34, 70);
    assert NoDivisorIn(TABLE_SIZE, 30, 70);
    assert NoDivisorIn(TABLE_SIZE, 26, 70);
    assert NoDivisorIn(TABLE_SIZE, 22, 70);
    assert NoDivisorIn(TABLE_SIZE, 18, 70);
    assert NoDivisorIn(TABLE_SIZE, 14, 70);
    assert NoDivisorIn(TABLE_SIZE, 10, 70);
    assert NoDivisorIn(TABLE_SIZE, 6, 70);
  }

  /** 5021 is prime: a divisor would have a cofactor, and one of the two is
      at most 70 (71 * 71 > 5021), which trial division excludes. */
  lemma TableSizePrime()
    ensures Prime(TABLE_SIZE)
  {
    TrialDivision();
    forall k | 2 <= k < TABLE_SIZE
      ensures TABLE_SIZE % k != 0
    {
      if TABLE_SIZE % k == 0 {
        var j := TABLE_SIZE / k;
        assert TABLE_SIZE == j * k;
        if k <= 70 {
          NoDivisorInSound(TABLE_SIZE, 2, 70, k);
        } else {
          MulMono(k, j - 70);
          assert 2 <= j <= 70;
          DivMod(k, j, 0);
          NoDivisorInSound(TABLE_SIZE, 2, 70, j);
        }
      }
    }
  }

  /** Modulo a prime, a product of non-multiples is a non-multiple. The proof
      replaces `a` by `TABLE_SIZE % a`, which is smaller and still works. */
  lemma {:induction false} NoZeroDivisors(a: int, d: int)
    requires 0 < a < TABLE_SIZE && 0 < d < TABLE_SIZE
    ensures (a * d) % TABLE_SIZE != 0
    decreases a
  {
    if a > 1 {
      TableSizePrime();
      var q, r := TABLE_SIZE / a, TABLE_SIZE % a;
      assert TABLE_SIZE == q * a + r;
      assert 0 < r < a;
      NoZeroDivisors(r, d);
      if (a * d) % TABLE_SIZE == 0 {
        var m := (a * d) / TABLE_SIZE;
        assert a * d == TABLE_SIZE * m;
        calc {
          r * d;
          (TABLE_SIZE - q * a) * d;
          TABLE_SIZE * d - (q * a) * d;
          { MulAssoc(q, a, d); }
          TABLE_SIZE * d - q * (a * d);
          TABLE_SIZE * d - q * (TABLE_SIZE * m);
          { MulAssoc(q, TABLE_SIZE, m); }
          (d - q * m) * TABLE_SIZE;
        }
        ModAddMultiple(0, d - q * m, TABLE_SIZE);
      }
    }
  }

  // ---------------------------------------------------------------------------
  // The probe sequence visits every slot

  /** The first TABLE_SIZE probe positions are pairwise distinct. */
  lemma ProbeInjective(h: int, s: int, k1: nat, k2: nat)
    requires IsSlot(h) && 0 < s < TABLE_SIZE
    requires k1 < k2 < TABLE_SIZE
    ensures ProbeAt(h, s, k1) != ProbeAt(h, s, k2)
  {
    ProbeClosed(h, s, k1);
    ProbeClosed(h, s, k2);
    var x, y := h - k1 * s, h - k2 * s;
    assert x - y == (k2 - k1) * s;
    NoZeroDivisors(k2 - k1, s);
    if x % TABLE_SIZE == y % TABLE_SIZE {
      assert x == (x / TABLE_SIZE) * TABLE_SIZE + x % TABLE_SIZE;
      assert y == (y / TABLE_SIZE) * TABLE_SIZE + y % TABLE_SIZE;
      assert x - y == (x / TABLE_SIZE - y / TABLE_SIZE) * TABLE_SIZE;
      ModAddMultiple(0, x / TABLE_SIZE - y / TABLE_SIZE, TABLE_SIZE);
    }
  }

  ghost function Orbit(h: int, s: int, n: nat): set<int>
    requires IsSlot(h) && 0 < s < TABLE_SIZE
  {
    set k | 0 <= k < n :: ProbeAt(h, s, k)
  }

  lemma {:induction false} OrbitSize(h: int, s: int, n: nat)
    requires IsSlot(h) && 0 < s < TABLE_SIZE && n <= TABLE_SIZE
    ensures |Orbit(h, s, n)| == n
  {
    if n > 0 {
      OrbitSize(h, s, n - 1);
      var last := ProbeAt(h, s, n - 1);
      assert Orbit(h, s, n) == Orbit(h, s, n - 1) + {last};
      if last in Orbit(h, s, n - 1) {
        var k :| 0 <= k < n - 1 && ProbeAt(h, s, k) == last;
        ProbeInjective(h, s, k, n - 1);
      }
    }
  }

  /** The slot indices below `n`. */
  ghost function Slots(n: nat): (r: set<int>)
    ensures |r| == n
    ensures forall i :: 0 <= i < n ==> i in r
    ensures forall i :: i in r ==> 0 <= i < n
  {
    if n == 0 then {} else Slots(n - 1) + {n - 1}
  }

  /** A subset with as many elements as the whole set is the whole set. */
  lemma SubsetSameSize(a: set<int>, b: set<int>)
    requires a <= b && |a| == |b|
    ensures a == b
  {
    var d := b - a;
    assert b == a + d && a * d == {};
  }

  /** Termination of the probe loop rests on this: within TABLE_SIZE steps,
      the probe sequence from any home slot with its stride reaches any
      given slot. */
  lemma ProbeCovers(h: int, e: int) returns (k: nat)
    requires IsSlot(h) && IsSlot(e)
    ensures k < TABLE_SIZE && ProbeAt(h, Stride(h), k) == e
  {
    k := OrbitCovers(h, Stride(h), TABLE_SIZE, e);
  }

  /** The first `n` = TABLE_SIZE probes are `n` distinct slots below `n`,
      hence all of them. (The size is a parameter so that the set of slots
      is not expanded element by element.) */
  lemma OrbitCovers(h: int, s: int, n: nat, e: int) returns (k: nat)
    requires IsSlot(h) && 0 < s < TABLE_SIZE && n == TABLE_SIZE && 0 <= e < n
    ensures k < n && ProbeAt(h, s, k) == e
  {
    var orbit, all := Orbit(h, s, n), Slots(n);
    OrbitSize(h, s, n);
    assert orbit <= all;
    SubsetSameSize(orbit, all);
    assert e in orbit;
    k :| 0 <= k < n && ProbeAt(h, s, k) == e;
  }
}

/** The integer algorithms of detail/math_functions.hpp, on words of `w` bits where overflow matters. */
module MathFunctions {
  import opened Words

  // ---------- greatest common divisor

  predicate Divides(d: nat, n: nat)
    requires d > 0
  {
    n % d == 0
  }

  lemma DividesProduct(d: nat, q: nat)
    requires d > 0
    ensures Divides(d, d * q) && d * q / d == q
  {
    DivModUnique(d * q, d, q, 0);
  }

  /** Divisors of `x` divide x*c + y exactly when they divide `y`. */
  lemma DividesSum(d: nat, x: nat, c: nat, y: nat)
    requires d > 0 && Divides(d, x)
    ensures Divides(d, x * c + y) <==> Divides(d, y)
  {
    var k := x / d;
    assert x == d * k;
    assert x * c == d * (k * c) by {
      assert d * k * c == d * (k * c);
    }
    DivModUnique(x * c + y, d, k * c + y / d, y % d);
  }

  /** One step of Euclid's algorithm keeps the common divisors. */
  lemma EuclidStep(a: nat, b: nat, d: nat)
    requires b > 0 && d > 0
    ensures Divides(d, a) && Divides(d, b) <==> Divides(d, b) && Divides(d, a % b)
  {
    if Divides(d, b) {
      DividesSum(d, b, a / b, a % b);
      assert a == b * (a / b) + a % b;
    }
  }

  /** The result divides both numbers, and every common divisor divides it. */
  method Gcd(A: nat, B: nat) returns (r: nat)
    requires A > 0 && B > 0
    ensures r > 0 && Divides(r, A) && Divides(r, B)
    ensures forall d: nat | d > 0 :: Divides(d, A) && Divides(d, B) <==> Divides(d, r)
  {
    var a, b := A, B;
    while true
      invariant a > 0 && b > 0
      invariant forall d: nat | d > 0 :: Divides(d, a) && Divides(d, b) <==> Divides(d, A) && Divides(d, B)
      decreases b
    {
      forall d: nat | d > 0 ensures Divides(d, a) && Divides(d, b) <==> Divides(d, b) && Divides(d, a % b) {
        EuclidStep(a, b, d);
      }
      var tmp := b;
      b := a % b;
      a := tmp;
      if b == 0 {
        break;
      }
    }
    r := a;
    assert Divides(r, r);
  }

  // ---------- least common multiple

  predicate CommonMultiple(a: nat, b: nat, x: nat)
    requires a > 0 && b > 0
  {
    Divides(a, x) && Divides(b, x)
  }

  /** The least positive common multiple, searched from `k` on. */
  lemma {:induction false} LeastFrom(a: nat, b: nat, k: nat, bound: nat) returns (m: nat)
    requires a > 0 && b > 0 && 0 < k <= bound && CommonMultiple(a, b, bound)
    requires forall x | 0 < x < k :: !CommonMultiple(a, b, x)
    ensures 0 < m <= bound && CommonMultiple(a, b, m) && forall x | 0 < x < m :: !CommonMultiple(a, b, x)
    decreases bound - k
  {
    if CommonMultiple(a, b, k) {
      m := k;
    } else {
      m := LeastFrom(a, b, k + 1, bound);
    }
  }

  /** The least positive common multiple divides every other. */
  lemma LeastDivides(a: nat, b: nat, m: nat, x: nat)
    requires a > 0 && b > 0 && 0 < m && CommonMultiple(a, b, m) && CommonMultiple(a, b, x)
    requires forall y | 0 < y < m :: !CommonMultiple(a, b, y)
    ensures Divides(m, x)
  {
    var q, r := x / m, x % m;
    assert x == m * q + r;
    DividesSum(a, m, q, r);
    DividesSum(b, m, q, r);
    assert CommonMultiple(a, b, r);
  }

  /** If m is a multiple of a and a * b == m * q, then q divides b. */
  lemma Cofactor(a: nat, b: nat, m: nat, q: nat)
    requires a > 0 && q > 0 && Divides(a, m) && a * b == m * q
    ensures Divides(q, b)
  {
    var s := m / a;
    assert m == a * s;
    assert a * b == a * (s * q) by {
      assert a * s * q == a * (s * q);
    }
    CancelFactor(a, b, s * q);
    DividesProduct(q, s);
  }

  lemma CancelFactor(a: nat, x: nat, y: nat)
    requires a > 0 && a * x == a * y
    ensures x == y
  {
    if x < y {
      MulMonotone(a, x + 1, y);
    } else if y < x {
      MulMonotone(a, y + 1, x);
    }
  }

  lemma MulOrder(x: nat, g: nat, y: nat, q: nat)
    requires x * g == y * q && q <= g && 0 < q
    ensures x <= y
  {
    if y < x {
      MulMonotone(g, y + 1, x);
      MulMonotone(y, q, g);
    }
  }

  /** With g the greatest common divisor, (a / g) * b is a common multiple and divides every other. */
  lemma LeastCommonMultiple(a: nat, b: nat, g: nat, x: nat)
    requires a > 0 && b > 0 && g > 0
    requires forall d: nat | d > 0 :: Divides(d, a) && Divides(d, b) <==> Divides(d, g)
    requires CommonMultiple(a, b, x)
    ensures a / g * b > 0 && CommonMultiple(a, b, a / g * b) && Divides(a / g * b, x)
  {
    var m := a / g * b;
    ProductMultiple(a, b, g);
    var l := LeastFrom(a, b, 1, m);
    LeastDivides(a, b, l, x);
    LeastIs(a, b, g, m, l);
  }

  lemma ProductMultiple(a: nat, b: nat, g: nat)
    requires a > 0 && b > 0 && g > 0 && forall d: nat | d > 0 :: Divides(d, a) && Divides(d, b) <==> Divides(d, g)
    ensures a / g * b > 0 && CommonMultiple(a, b, a / g * b) && a / g * b * g == a * b
  {
    assert Divides(g, g);
    assert a == g * (a / g) && b == g * (b / g);
    Factors(a / g, b / g, g, a, b);
    DividesProduct(a, b / g);
    DividesProduct(b, a / g);
  }

  lemma Factors(a': nat, b': nat, g: nat, a: nat, b: nat)
    requires a == g * a' && b == g * b' && a > 0 && b > 0
    ensures a' * b == a * b' == b * a' && a' * b * g == a * b && a' * b > 0
  {
    assert a' * (g * b') == g * a' * b';
    assert a' * b * g == g * a' * b;
    MulMonotone(b, 1, a');
  }

  lemma LeastIs(a: nat, b: nat, g: nat, m: nat, l: nat)
    requires a > 0 && b > 0 && g > 0 && 0 < l <= m && m * g == a * b
    requires forall d: nat | d > 0 :: Divides(d, a) && Divides(d, b) <==> Divides(d, g)
    requires CommonMultiple(a, b, l) && forall y | 0 < y < l :: !CommonMultiple(a, b, y)
    ensures l == m
  {
    DividesProduct(a, b);
    DividesProduct(b, a);
    LeastDivides(a, b, l, a * b);
    var q := a * b / l;
    assert a * b == l * q && q > 0 by {
      MulMonotone(a, 1, b);
    }
    Cofactor(a, b, l, q);
    Cofactor(b, a, l, q);
    assert Divides(q, g);
    assert q <= g by {
      assert g == q * (g / q);
      if g < q {
        DivModUnique(g, q, 0, g);
      }
    }
    MulOrder(m, g, l, q);
  }

  /** `m` is the least common multiple: positive, a common multiple, and a divisor of every other. */
  ghost predicate IsLcm(a: nat, b: nat, m: nat)
    requires a > 0 && b > 0
  {
    m > 0 && CommonMultiple(a, b, m) && forall x: nat | CommonMultiple(a, b, x) :: Divides(m, x)
  }

  /** The word returned is the least common multiple exactly when that fits in a word. */
  method Lcm(w: nat, A: nat, B: nat) returns (r: nat)
    requires 0 < A < Pow2(w) && 0 < B < Pow2(w)
    ensures exists m: nat :: IsLcm(A, B, m) && (r == m <==> m < Pow2(w))
  {
    r := A;
    var g := Gcd(A, B);
    r := r / g;
    ghost var least := A / g * B;
    DividesProduct(A, 0);
    LeastCommonMultiple(A, B, g, 0);
    forall x: nat | CommonMultiple(A, B, x) ensures Divides(least, x) {
      LeastCommonMultiple(A, B, g, x);
    }
    assert IsLcm(A, B, least);
    r := Wrap(w, r * B);
  }

  // ---------- powers of two

  /** power_of_2 after `n` turns of the loop: the shift drops the highest bit of a word. */
  function PowerAfter(w: nat, n: nat): nat {
    if n == 0 then Wrap(w, 1) else Wrap(w, 2 * PowerAfter(w, n - 1))
  }

  lemma {:induction false} PowerAfterIs(w: nat, n: nat)
    requires w > 0
    ensures PowerAfter(w, n) == if n < w then Pow2(n) else 0
  {
    if n > 0 {
      PowerAfterIs(w, n - 1);
      if n < w {
        Pow2Monotone(n + 1, w);
      }
      WrapShift(w, 0);
    } else {
      Pow2Monotone(1, w);
    }
  }

  /** The loops of log2_ceil and upper_power_of_2 end exactly for arguments up to 2^(w-1). */
  lemma LoopEnds(w: nat, A: nat)
    requires w > 0
    ensures (exists n: nat :: PowerAfter(w, n) >= A) <==> A <= Pow2(w - 1)
  {
    forall n: nat ensures PowerAfter(w, n) <= Pow2(w - 1) {
      PowerAfterIs(w, n);
      if n < w {
        Pow2Monotone(n, w - 1);
      }
    }
    PowerAfterIs(w, w - 1);
    if A <= Pow2(w - 1) {
      assert PowerAfter(w, w - 1) >= A;
    }
  }

  /** The exponent of the least power of two that is at least `A`. */
  method Log2Ceil(w: nat, A: nat) returns (i: nat)
    requires w > 0 && A <= Pow2(w - 1)
    ensures forall k: nat :: Pow2(k) >= A <==> k >= i
  {
    i := 0;
    var powerOf2 := 1;
    while powerOf2 < A
      invariant i < w && powerOf2 == Pow2(i) == PowerAfter(w, i)
      invariant i > 0 ==> Pow2(i - 1) < A
      decreases w - i
    {
      if i == w - 1 {
        assert false;
      }
      PowerAfterIs(w, i + 1);
      powerOf2 := Wrap(w, 2 * powerOf2);
      i := i + 1;
    }
    LeastExponent(A, i);
  }

  lemma LeastExponent(A: nat, i: nat)
    requires Pow2(i) >= A && (i > 0 ==> Pow2(i - 1) < A)
    ensures forall k: nat :: Pow2(k) >= A <==> k >= i
  {
    forall k: nat ensures Pow2(k) >= A <==> k >= i {
      if k >= i {
        Pow2Monotone(i, k);
      } else {
        Pow2Monotone(k, i - 1);
      }
    }
  }

  /** The least power of two that is at least `A`. */
  method UpperPowerOf2(w: nat, A: nat) returns (powerOf2: nat)
    requires w > 0 && A <= Pow2(w - 1)
    ensures A <= powerOf2 < Pow2(w) && exists i: nat :: powerOf2 == Pow2(i)
    ensures forall k: nat | Pow2(k) >= A :: powerOf2 <= Pow2(k)
  {
    powerOf2 := 1;
    ghost var i := 0;
    while powerOf2 < A
      invariant i < w && powerOf2 == Pow2(i) == PowerAfter(w, i)
      invariant i > 0 ==> Pow2(i - 1) < A
      decreases w - i
    {
      if i == w - 1 {
        assert false;
      }
      PowerAfterIs(w, i + 1);
      powerOf2 := Wrap(w, 2 * powerOf2);
      i := i + 1;
    }
    Pow2Monotone(i, w - 1);
    LeastExponent(A, i);
    forall k: nat | Pow2(k) >= A ensures powerOf2 <= Pow2(k) {
      Pow2Monotone(i, k);
    }
  }

  // ---------- highest set bit

  lemma HalfBelow(n: nat, s: nat)
    requires n < Pow2(2 * s)
    ensures n / Pow2(s) < Pow2(s) && (n / Pow2(s) == 0 <==> n < Pow2(s))
  {
    Pow2Add(s, s);
    QuotientBelow(n, Pow2(s));
  }

  lemma QuotientBelow(n: nat, p: nat)
    requires p > 0 && n < p * p
    ensures n / p < p && (n / p == 0 <==> n < p)
  {
    var q := n / p;
    assert n == p * q + n % p;
    if q >= p {
      MulMonotone(p, p, q);
    }
    if q > 0 {
      MulMonotone(p, 1, q);
    }
  }

  lemma DivTwice(x: nat, a: nat, b: nat)
    ensures x / Pow2(a) / Pow2(b) == x / Pow2(a + b)
  {
    Pow2Add(a, b);
    NestedQuotient(x, Pow2(a), Pow2(b), Pow2(a + b));
  }

  lemma NestedQuotient(x: nat, p: nat, q: nat, pq: nat)
    requires p > 0 && q > 0 && pq == p * q && pq > 0
    ensures x / p / q == x / pq
  {
    var y := x / p;
    NestedParts(x, p, q, pq, y, x % p, y / q, y % q);
  }

  lemma NestedParts(x: nat, p: nat, q: nat, pq: nat, y: nat, r: nat, z: nat, s: nat)
    requires pq == p * q && pq > 0 && x == p * y + r && r < p && y == q * z + s && s < q
    ensures x / pq == z
  {
    Distribute(p, q, z, s);
    RemainderBound(p, q, r, s);
    DivModUnique(x, pq, z, p * s + r);
  }

  lemma RemainderBound(p: nat, q: nat, r: nat, s: nat)
    requires r < p && s < q
    ensures 0 <= p * s + r < p * q
  {
    MulMonotone(p, s + 1, q);
  }

  lemma Distribute(p: nat, q: nat, z: nat, s: nat)
    ensures p * (q * z + s) == p * q * z + p * s
  {
  }

  /** For a word width that is a power of two, the binary search finds the position of the highest set bit. */
  method FloorLog2(e: nat, x: nat) returns (log2: nat)
    requires x < Pow2(Pow2(e))
    ensures x > 0 ==> Pow2(log2) <= x < Pow2(log2 + 1)
    ensures x == 0 ==> log2 == 0
  {
    var bits := Pow2(e);
    var n := x;
    log2 := 0;
    var shift := bits / 2;
    ghost var j := e;
    assert x / Pow2(0) == x;
    while shift != 0
      invariant shift == if j == 0 then 0 else Pow2(j - 1)
      invariant n < Pow2(Pow2(j)) && n == x / Pow2(log2)
      invariant x > 0 ==> n > 0
      invariant x == 0 ==> log2 == 0 && n == 0
      decreases j
    {
      var tmp := n / Pow2(shift);
      HalfBelow(n, shift);
      if tmp != 0 {
        DivTwice(x, log2, shift);
        log2 := log2 + shift;
        n := tmp;
      }
      shift := shift / 2;
      j := j - 1;
    }
    if x > 0 {
      assert Pow2(1) == 2;
      assert n == 1;
      QuotientOne(x, Pow2(log2));
    }
  }

  lemma QuotientOne(x: nat, p: nat)
    requires p > 0 && x / p == 1
    ensures p <= x < 2 * p
  {
  }
}

/** Unsigned machine words of any width: powers of two, wrap-around, and bitwise and/or on naturals. */
module Words {

  function Pow2(n: nat): (p: nat)
    ensures p >= 1
  {
    if n == 0 then 1 else 2 * Pow2(n - 1)
  }

  lemma {:induction false} Pow2Add(a: nat, b: nat)
    ensures Pow2(a + b) == Pow2(a) * Pow2(b)
  {
    if a > 0 {
      Pow2Add(a - 1, b);
    }
  }

  lemma {:induction false} Pow2Monotone(a: nat, b: nat)
    requires a <= b
    ensures Pow2(a) <= Pow2(b)
  {
    if a < b {
      Pow2Monotone(a, b - 1);
    }
  }

  // ---------- division

  lemma MulMonotone(m: nat, a: int, b: int)
    requires a <= b
    ensures m * a <= m * b
  {
  }

  lemma MulStep(c: int, m: int)
    ensures c * m == (c - 1) * m + m
  {
  }

  lemma DivModUnique(x: int, m: int, q: int, r: int)
    requires m > 0 && x == m * q + r && 0 <= r < m
    ensures x / m == q && x % m == r
  {
    QuotientUnique(m, q, r, x / m, x % m);
  }

  lemma QuotientUnique(m: int, q: int, r: int, q': int, r': int)
    requires m > 0 && 0 <= r < m && 0 <= r' < m && m * q + r == m * q' + r'
    ensures q == q' && r == r'
  {
    if q < q' {
      MulMonotone(m, q + 1, q');
    } else if q' < q {
      MulMonotone(m, q' + 1, q);
    }
  }

  // ---------- words of w bits

  /** `x` reduced modulo 2^w, written without division: unsigned arithmetic of `w` bits wraps around. */
  function Wrap(w: nat, x: int): (r: nat)
    ensures r < Pow2(w)
    decreases if x < 0 then Pow2(w) - x else x
  {
    if x < 0 then Wrap(w, x + Pow2(w)) else if x < Pow2(w) then x else Wrap(w, x - Pow2(w))
  }

  /** Wrap is the remainder of division by 2^w. */
  lemma {:induction false} WrapIsMod(w: nat, x: int)
    ensures Wrap(w, x) == x % Pow2(w)
    decreases if x < 0 then Pow2(w) - x else x
  {
    if x < 0 {
      WrapIsMod(w, x + Pow2(w));
      ModShift(x, Pow2(w));
    } else if x >= Pow2(w) {
      WrapIsMod(w, x - Pow2(w));
      ModShift(x - Pow2(w), Pow2(w));
    } else {
      DivModUnique(x, Pow2(w), 0, x);
    }
  }

  lemma ModShift(x: int, m: int)
    requires m > 0
    ensures (x + m) % m == x % m
  {
    DivModUnique(x + m, m, x / m + 1, x % m);
  }

  lemma WrapShift(w: nat, x: int)
    ensures Wrap(w, x + Pow2(w)) == Wrap(w, x)
  {
  }

  lemma WrapSmall(w: nat, x: int)
    requires 0 <= x < Pow2(w)
    ensures Wrap(w, x) == x
  {
  }

  lemma WrapTwice(w: nat, x: int)
    ensures Wrap(w, Wrap(w, x)) == Wrap(w, x)
  {
  }

  /** A difference of words wraps once at most, and is zero only for equal words. */
  lemma WrapBack(w: nat, x: nat, y: nat)
    requires x < Pow2(w) && y < Pow2(w)
    ensures Wrap(w, x - y) == if x >= y then x - y else x - y + Pow2(w)
    ensures Wrap(w, x - y) == 0 <==> x == y
  {
  }

  /** A sum of words is its reduced sum exactly when it is a word, and otherwise the reduced sum is less than
      either. */
  lemma SumWraps(w: nat, x: nat, y: nat)
    requires x < Pow2(w) && y < Pow2(w)
    ensures if x + y < Pow2(w) then Wrap(w, x + y) == x + y else Wrap(w, x + y) < x && Wrap(w, x + y) < y
  {
  }

  /** A reduced number is at most the number, and at least 2^w below it when it is not the number. */
  lemma {:induction false} WrapBelow(w: nat, x: nat)
    ensures Wrap(w, x) <= x && (x >= Pow2(w) ==> Wrap(w, x) + Pow2(w) <= x)
    decreases x
  {
    if x >= Pow2(w) {
      WrapBelow(w, x - Pow2(w));
    }
  }

  /** Reducing an operand first does not change a reduced sum. */
  lemma {:induction false} WrapAdd(w: nat, x: int, y: int)
    ensures Wrap(w, Wrap(w, x) + y) == Wrap(w, x + y)
    decreases if x < 0 then Pow2(w) - x else x
  {
    if x < 0 {
      WrapAdd(w, x + Pow2(w), y);
      WrapShift(w, x + y);
    } else if x >= Pow2(w) {
      WrapAdd(w, x - Pow2(w), y);
      WrapShift(w, x - Pow2(w) + y);
    }
  }

  lemma {:induction false} WrapMultiple(k: nat, c: nat, x: int)
    ensures Wrap(k, x + c * Pow2(k)) == Wrap(k, x)
  {
    if c > 0 {
      WrapMultiple(k, c - 1, x);
      WrapShift(k, x + (c - 1) * Pow2(k));
      MulStep(c, Pow2(k));
    }
  }

  /** The low bits of a word are those of the number it was reduced from. */
  lemma {:induction false} WrapWrap(k: nat, w: nat, x: int)
    requires k <= w
    ensures Wrap(k, Wrap(w, x)) == Wrap(k, x)
    decreases if x < 0 then Pow2(w) - x else x
  {
    Pow2Add(w - k, k);
    if x < 0 {
      WrapWrap(k, w, x + Pow2(w));
      WrapMultiple(k, Pow2(w - k), x);
    } else if x >= Pow2(w) {
      WrapWrap(k, w, x - Pow2(w));
      WrapMultiple(k, Pow2(w - k), x - Pow2(w));
    }
  }

  /** `x` is a multiple of 2^k. */
  predicate Aligned(k: nat, x: int) {
    Wrap(k, x) == 0
  }

  lemma WrapDifference(k: nat, x: int, y: int)
    requires Wrap(k, x) == 0 && Wrap(k, y) == 0
    ensures Wrap(k, x - y) == 0
  {
    WrapAdd(k, x, 0 - y);
    WrapAdd(k, y, 0 - y);
  }

  /** A word added to a reduced number needs no further reduction when their sum is a word. */
  lemma WrapPlus(w: nat, x: int, y: nat)
    requires Wrap(w, x) + y < Pow2(w)
    ensures Wrap(w, x + y) == Wrap(w, x) + y
  {
    WrapAdd(w, x, y);
    WrapSmall(w, Wrap(w, x) + y);
  }

  // ---------- bitwise operations

  function And(x: nat, y: nat): nat {
    if x == 0 || y == 0 then 0 else 2 * And(x / 2, y / 2) + (if x % 2 == 1 && y % 2 == 1 then 1 else 0)
  }

  function Or(x: nat, y: nat): nat {
    if x == 0 then y else if y == 0 then x
    else 2 * Or(x / 2, y / 2) + (if x % 2 == 1 || y % 2 == 1 then 1 else 0)
  }

  /** The complement of a w-bit word. */
  function Not(w: nat, x: nat): nat
    requires x < Pow2(w)
  {
    Pow2(w) - 1 - x
  }

  /** The low n + 1 bits are the low n bits of the half, shifted, and the last bit. */
  lemma {:induction false} WrapDouble(n: nat, x: nat)
    ensures Wrap(n + 1, x) == 2 * Wrap(n, x / 2) + x % 2
    decreases x
  {
    if x >= Pow2(n + 1) {
      WrapDouble(n, x - Pow2(n + 1));
      assert (x - 2 * Pow2(n)) / 2 == x / 2 - Pow2(n);
    }
  }

  lemma {:induction false} AndOnes(x: nat, n: nat)
    ensures And(x, Pow2(n) - 1) == Wrap(n, x)
  {
    if n == 0 {
      WrapZero(x);
    } else {
      AndOnes(x / 2, n - 1);
      WrapDouble(n - 1, x);
      assert (Pow2(n) - 1) / 2 == Pow2(n - 1) - 1;
    }
  }

  lemma {:induction false} WrapZero(x: nat)
    ensures Wrap(0, x) == 0
  {
    if x > 0 {
      WrapZero(x - 1);
    }
  }

  lemma {:induction false} AndNot(w: nat, x: nat, m: nat)
    requires x < Pow2(w) && m < Pow2(w)
    ensures And(x, m) + And(x, Not(w, m)) == x
  {
    if w > 0 {
      assert Not(w, m) / 2 == Not(w - 1, m / 2) && Not(w, m) % 2 == 1 - m % 2;
      AndNot(w - 1, x / 2, m / 2);
    }
  }

  lemma {:induction false} OrPlusAnd(x: nat, y: nat)
    ensures Or(x, y) + And(x, y) == x + y
  {
    if x != 0 && y != 0 {
      OrPlusAnd(x / 2, y / 2);
    }
  }

  /** A word whose low n bits are zero shares no bit with a word below 2^n. */
  lemma {:induction false} AndDisjoint(x: nat, y: nat, n: nat)
    requires Wrap(n, x) == 0 && y < Pow2(n)
    ensures And(x, y) == 0
  {
    if n > 0 && x != 0 && y != 0 {
      WrapDouble(n - 1, x);
      AndDisjoint(x / 2, y / 2, n - 1);
    }
  }

  /** Above a word whose low n bits are zero there is room for 2^n. */
  lemma {:induction false} MultipleGap(n: nat, w: nat, e: nat)
    requires n <= w && e < Pow2(w) && Wrap(n, e) == 0
    ensures e + Pow2(n) <= Pow2(w)
  {
    if n > 0 {
      WrapDouble(n - 1, e);
      MultipleGap(n - 1, w - 1, e / 2);
    }
  }
}

/** Integers as JavaScript reads them: IEEE 754 doubles, rounded to nearest with ties to even. */
module Doubles {
  const TWO_52: int := 0x10_0000_0000_0000
  const TWO_53: int := 0x20_0000_0000_0000

  /** Spacing of the doubles around a non-negative integer. */
  function Ulp(a: nat): (u: nat)
    ensures u >= 1
  {
    if a < TWO_53 then 1 else 2 * Ulp(a / 2)
  }

  /** Nearest multiple of `u`, ties to even. */
  function Nearest(a: nat, u: nat): int
    requires u >= 1
  {
    var q, r := a / u, a % u;
    if 2 * r < u || (2 * r == u && q % 2 == 0) then q * u else (q + 1) * u
  }

  /** The integer a JSON number becomes when `JSON.parse` reads it. */
  function ToDouble(n: int): int {
    if n < 0 then -Nearest(-n, Ulp(-n)) else Nearest(n, Ulp(n))
  }

  /** An integer survives exactly when it is a multiple of the spacing at its magnitude. */
  predicate Representable(n: int) {
    var a: nat := if n < 0 then -n else n;
    a % Ulp(a) == 0
  }

  lemma NearestFixes(a: nat, u: nat)
    requires u >= 1
    ensures Nearest(a, u) == a <==> a % u == 0
  {
    var q, r := a / u, a % u;
    assert a == q * u + r;
    assert (q + 1) * u == q * u + u;
  }

  lemma ToDoubleFixes(n: int)
    ensures ToDouble(n) == n <==> Representable(n)
    ensures -TWO_53 <= n <= TWO_53 ==> Representable(n)
  {
    var a: nat := if n < 0 then -n else n;
    NearestFixes(a, Ulp(a));
    assert Ulp(TWO_53) == 2 * Ulp(TWO_53 / 2);
  }

  /** There are times that do not survive: the first is one past 2^53. */
  lemma FirstLostTime()
    ensures !Representable(TWO_53 + 1)
    ensures forall n :: -TWO_53 <= n <= TWO_53 ==> Representable(n)
  {
    assert Ulp(TWO_53 + 1) == 2 * Ulp((TWO_53 + 1) / 2);
    forall n | -TWO_53 <= n <= TWO_53
      ensures Representable(n)
    {
      ToDoubleFixes(n);
    }
  }

  // ---- Nearest ------------------------------------------------------------------------------

  function Distance(a: int, b: int): nat { if a < b then b - a else a - b }

  /** Neighbouring multiples of `u` are `u` apart. */
  lemma {:induction false} GridGap(i: int, j: int, u: nat)
    requires i < j
    ensures i * u + u <= j * u
    decreases j - i
  {
    if i + 1 < j {
      GridGap(i, j - 1, u);
    }
    assert j * u == (j - 1) * u + u;
  }

  lemma {:induction false} Quotient(k: nat, u: nat)
    requires u >= 1
    ensures (k * u) % u == 0 && (k * u) / u == k
  {
    var x := k * u;
    var q, r := x / u, x % u;
    assert x == q * u + r;
    if q < k {
      GridGap(q, k, u);
    } else if q > k {
      GridGap(k, q, u);
    }
  }

  lemma {:induction false} Regroup(i: nat, j: nat, z: nat)
    ensures i * (j * z) == (i * j) * z
  {
  }

  lemma {:induction false} DividesTrans(x: nat, y: nat, z: nat)
    requires y >= 1 && z >= 1 && x % y == 0 && y % z == 0
    ensures x % z == 0
  {
    var i, j := x / y, y / z;
    assert x == i * y && y == j * z;
    Regroup(i, j, z);
    Quotient(i * j, z);
  }

  /** The spacing at `a` is the power of two that leaves 53 significant bits. */
  lemma {:induction false} UlpBounds(a: nat)
    ensures a < TWO_53 * Ulp(a)
    ensures Ulp(a) == 1 || TWO_52 * Ulp(a) <= a
  {
    if a >= TWO_53 {
      UlpBounds(a / 2);
    }
  }

  lemma {:induction false} UlpStart(a: nat)
    ensures Ulp(TWO_52 * Ulp(a)) == Ulp(a)
  {
    if a >= TWO_53 {
      UlpStart(a / 2);
      assert (TWO_52 * Ulp(a)) / 2 == TWO_52 * Ulp(a / 2);
    }
  }

  lemma {:induction false} Doubled(x: nat, y: nat)
    requires y >= 1 && x % y == 0
    ensures (2 * x) % (2 * y) == 0
  {
    var k := x / y;
    assert x == k * y;
    assert 2 * x == k * (2 * y);
    Quotient(k, 2 * y);
  }

  /** Spacings never shrink, and each divides the wider ones. */
  lemma {:induction false} UlpDivides(a: nat, b: nat)
    requires a <= b
    ensures Ulp(b) % Ulp(a) == 0
  {
    if a >= TWO_53 {
      UlpDivides(a / 2, b / 2);
      Doubled(Ulp(b / 2), Ulp(a / 2));
    }
  }

  /** From the start of the binade of `a` upwards, representable integers lie on the grid of `a`. */
  lemma {:induction false} OnGrid(a: nat, m: nat)
    requires m % Ulp(m) == 0 && m >= TWO_52 * Ulp(a)
    ensures m % Ulp(a) == 0
  {
    UlpStart(a);
    UlpDivides(TWO_52 * Ulp(a), m);
    DividesTrans(m, Ulp(m), Ulp(a));
  }

  /** `x` is as close to `a` as `m` is; and if it is no closer, `m` is `x` itself or `x` is even on the grid of `u`. */
  predicate Closest(x: int, a: int, m: int, u: nat)
    requires u >= 1
  {
    && Distance(x, a) <= Distance(m, a)
    && (Distance(x, a) == Distance(m, a) && x != m ==> (x / u) % 2 == 0)
  }

  /** Of two neighbours on the grid the closer one is as close as any multiple. */
  lemma {:induction false} Closer(low: int, r: nat, u: nat, up: bool, m: int)
    requires r < u && (if up then 2 * r >= u else 2 * r <= u) && (m <= low || m >= low + u)
    ensures var x, a := if up then low + u else low, low + r;
            Distance(x, a) <= Distance(m, a) && (Distance(x, a) == Distance(m, a) && x != m ==> 2 * r == u)
  {
  }

  /** No multiple lies strictly between neighbours. */
  lemma {:induction false} Neighbours(q: int, k: int, u: nat)
    ensures (k * u <= q * u || k * u >= q * u + u) && (q + 1) * u == q * u + u
  {
    if k < q {
      GridGap(k, q, u);
    } else if k > q {
      GridGap(q, k, u);
    }
  }

  lemma {:induction false} NearestUp(a: nat, u: nat) returns (q: nat, r: nat, up: bool)
    requires u >= 1
    ensures q == a / u && r == a % u < u && a == q * u + r
    ensures if up then 2 * r >= u else 2 * r <= u
    ensures 2 * r == u ==> (up <==> q % 2 == 1)
    ensures Nearest(a, u) == (if up then q + 1 else q) * u
  {
    q, r := a / u, a % u;
    up := !(2 * r < u || (2 * r == u && q % 2 == 0));
  }

  lemma {:induction false} NearestOnGrid(a: nat, u: nat, k: int)
    requires u >= 1
    ensures Closest(Nearest(a, u), a, k * u, u)
  {
    var q, r, up := NearestUp(a, u);
    Neighbours(q, k, u);
    Closer(q * u, r, u, up, k * u);
    Quotient(if up then q + 1 else q, u);
  }

  lemma {:induction false} NearestToMultiple(a: nat, u: nat, m: nat)
    requires u >= 1 && m % u == 0
    ensures Closest(Nearest(a, u), a, m, u)
  {
    var k := m / u;
    assert m == k * u;
    NearestOnGrid(a, u, k);
  }

  lemma {:induction false} NearestNatural(a: nat, m: nat)
    requires m % Ulp(m) == 0
    ensures Closest(Nearest(a, Ulp(a)), a, m, Ulp(a))
  {
    var u := Ulp(a);
    UlpBounds(a);
    if u == 1 {
      NearestFixes(a, 1);
    } else {
      var start := TWO_52 * u;
      if m >= start {
        OnGrid(a, m);
        NearestToMultiple(a, u, m);
      } else {
        Quotient(TWO_52, u);
        NearestToMultiple(a, u, start);
      }
    }
  }

  lemma {:induction false} BelowRepresentable(a: nat, x: nat)
    requires x <= a && x % Ulp(a) == 0
    ensures Representable(x)
  {
    UlpDivides(x, a);
    DividesTrans(x, Ulp(a), Ulp(x));
  }

  lemma {:induction false} MultipleOf(v: nat, u: nat)
    requires u >= 1 && v >= 1 && v % u == 0
    ensures v == u || v >= 2 * u
  {
    var k := v / u;
    assert v == k * u;
    if k > 2 {
      GridGap(2, k, u);
    }
  }

  lemma {:induction false} Squeeze(x: nat, v: nat, u: nat)
    requires TWO_52 * v <= x <= TWO_53 * u && v >= 2 * u && v >= 1
    ensures x % v == 0
  {
    assert x == TWO_52 * v;
    Quotient(TWO_52, v);
  }

  /** Up to the end of the binade of `a`, the grid of `a` is representable. */
  lemma {:induction false} AboveRepresentable(a: nat, x: nat)
    requires a <= x <= TWO_53 * Ulp(a) && x % Ulp(a) == 0
    ensures Representable(x)
  {
    var u, v := Ulp(a), Ulp(x);
    UlpBounds(x);
    UlpDivides(a, x);
    MultipleOf(v, u);
    if v != u {
      Squeeze(x, v, u);
    }
  }

  lemma {:induction false} NextMultiple(a: nat, u: nat, k: nat)
    requires u >= 1 && a < k * u
    ensures var x := (a / u + 1) * u; a <= x <= k * u && x % u == 0
  {
    var q := a / u;
    assert a == q * u + a % u;
    Neighbours(q, k, u);
    Quotient(q + 1, u);
  }

  lemma {:induction false} NextRepresentable(a: nat)
    ensures Representable((a / Ulp(a) + 1) * Ulp(a))
  {
    UlpBounds(a);
    NextMultiple(a, Ulp(a), TWO_53);
    AboveRepresentable(a, (a / Ulp(a) + 1) * Ulp(a));
  }

  lemma {:induction false} LastRepresentable(a: nat)
    ensures Representable(a / Ulp(a) * Ulp(a))
  {
    var u := Ulp(a);
    Quotient(a / u, u);
    BelowRepresentable(a, a / u * u);
  }

  /** Rounding goes to a representable integer. */
  lemma {:induction false} NearestRepresentable(a: nat)
    ensures Nearest(a, Ulp(a)) >= 0 && Representable(Nearest(a, Ulp(a)))
  {
    var q, r, up := NearestUp(a, Ulp(a));
    NonNegative(q, Ulp(a));
    if up {
      NextRepresentable(a);
    } else {
      LastRepresentable(a);
    }
  }

  lemma {:induction false} NonNegative(q: nat, u: nat)
    ensures q * u >= 0 && (q + 1) * u >= 0
  {
  }

  function Pow2(e: nat): (p: nat)
    ensures p >= 1
  {
    if e == 0 then 1 else 2 * Pow2(e - 1)
  }

  lemma {:induction false} UlpIsPower(a: nat) returns (e: nat)
    ensures Ulp(a) == Pow2(e)
  {
    e := 0;
    if a >= TWO_53 {
      var f := UlpIsPower(a / 2);
      e := f + 1;
    }
  }

  lemma {:induction false} PowersDivide(d: nat, e: nat)
    requires d <= e
    ensures Pow2(e) % Pow2(d) == 0
  {
    if d > 0 {
      PowersDivide(d - 1, e - 1);
      Doubled(Pow2(e - 1), Pow2(d - 1));
    }
  }

  lemma {:induction false} SignificandFits(a: nat, k: nat, e: nat)
    requires k <= TWO_53 && a == k * Pow2(e)
    ensures a % Ulp(a) == 0
  {
    var d := UlpIsPower(a);
    var p, u := Pow2(e), Ulp(a);
    Quotient(k, p);
    if d <= e {
      PowersDivide(d, e);
      DividesTrans(a, p, u);
    } else {
      PowersDivide(e, d);
      MultipleOf(u, p);
      UlpBounds(a);
      if u != p {
        if k < TWO_53 {
          GridGap(k, TWO_53, p);
        }
        Squeeze(a, u, p);
      }
    }
  }

  /** `a` is `k` shifted left by `e` bits. */
  predicate Shifted(a: nat, k: nat, e: nat) { a == k * Pow2(e) }

  /** The integers that survive are those with at most 53 significant bits. */
  lemma {:induction false} RepresentableExact(n: int)
    ensures Representable(n) <==> exists k: nat, e: nat :: k <= TWO_53 && Shifted(Distance(n, 0), k, e)
  {
    var a := Distance(n, 0);
    var d := UlpIsPower(a);
    UlpBounds(a);
    if Representable(n) {
      var k := a / Ulp(a);
      assert Shifted(a, k, d);
      if k > TWO_53 {
        GridGap(TWO_53, k, Ulp(a));
      }
    }
    if k: nat, e: nat :| k <= TWO_53 && Shifted(a, k, e) {
      SignificandFits(a, k, e);
    }
  }

  /**
    IEEE 754 rounding: an integer in the file is read as a double that no double is closer to it
    than, and of two equally close ones as the one with the even significand.
    */
  lemma {:induction false} ToDoubleNearest(n: int, m: int)
    requires Representable(m)
    ensures Representable(ToDouble(n))
    ensures Distance(ToDouble(n), n) <= Distance(m, n)
    ensures Distance(ToDouble(n), n) == Distance(m, n) && ToDouble(n) != m ==>
              (Distance(ToDouble(n), 0) / Ulp(Distance(n, 0))) % 2 == 0
  {
    var a: nat := Distance(n, 0);
    var b: nat := if (n < 0) == (m < 0) then Distance(m, 0) else 0;
    assert b % Ulp(b) == 0;
    NearestRepresentable(a);
    NearestNatural(a, b);
  }
}

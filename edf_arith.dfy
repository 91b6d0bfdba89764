/*
 * gcd, lcm and lcm_periods of src/PA3/edf.c: the simulation horizon is the
 * least common multiple of all task periods. Arguments are the positive
 * periods the simulator calls these with; C's % agrees with Dafny's % there.
 */
module EdfArith {
  import opened EdfSpec

  /** Euclidean division is unique: `q` and `r` are the quotient and remainder. */
  lemma DivUnique(n: int, d: int, q: int, r: int)
    requires d > 0 && n == q * d + r && 0 <= r < d
    ensures n / d == q && n % d == r
  {
    var q', r' := n / d, n % d;
    assert n == q' * d + r' && 0 <= r' < d;
    assert (q - q') * d == r' - r;
    MulBounds(q - q', d);
  }

  /** `n` is a multiple of `d`, witnessed by `m`, so `d` divides `n`. */
  lemma MultipleMod(n: int, m: int, d: int)
    requires d > 0 && n == m * d
    ensures n % d == 0 && n / d == m
  {
    DivUnique(n, d, m, 0);
  }

  lemma MulBounds(k: int, d: int)
    requires d > 0
    ensures k >= 1 ==> k * d >= d
    ensures k <= -1 ==> k * d <= -d
  {
    if k >= 1 {
      assert k * d == d + (k - 1) * d;
    } else if k <= -1 {
      assert k * d == -d + (k + 1) * d;
    }
  }

  /** Divisibility by a positive number is transitive. */
  lemma DividesTrans(a: int, b: int, c: int)
    requires b > 0 && c > 0 && a % b == 0 && b % c == 0
    ensures a % c == 0
  {
    MultipleMod(a, (a / b) * (b / c), c) by {
      assert a == (a / b) * b && b == (b / c) * c;
      assert a == (a / b) * ((b / c) * c);
    }
  }

  /** If `d` divides `y` and `x % y`, it divides `x`; and conversely for `x`, `y`. */
  lemma ModStep(x: int, y: int, d: int)
    requires y > 0 && d > 0 && y % d == 0
    ensures (x % y) % d == 0 <==> x % d == 0
  {
    var q := x / y;
    assert x == q * y + x % y;
    var b := y / d;
    assert y == b * d;
    assert q * y == (q * b) * d;
    if (x % y) % d == 0 {
      var a := (x % y) / d;
      assert x % y == a * d;
      MultipleMod(x, q * b + a, d);
    }
    if x % d == 0 {
      var c := x / d;
      assert x == c * d;
      MultipleMod(x % y, c - q * b, d);
    }
  }

  /**
   * gcd (edf.c:39-44): Euclid's algorithm. The result is a positive common
   * divisor of `x` and `y`, and `gcd(x, 0) == x`.
   */
  function Gcd(x: int, y: int): (r: int)
    requires x > 0 && y >= 0
    ensures r > 0 && x % r == 0 && y % r == 0
    ensures y == 0 ==> r == x
    decreases y
  {
    if y == 0 then x
    else
      var r := Gcd(y, x % y);
      ModStep(x, y, r);
      r
  }

  /** Every common divisor of `x` and `y` divides gcd(x, y). */
  lemma {:induction false} GcdGreatest(x: int, y: int, d: int)
    requires x > 0 && y >= 0 && d > 0
    requires x % d == 0 && y % d == 0
    ensures Gcd(x, y) % d == 0
    decreases y
  {
    if y != 0 {
      ModStep(x, y, d);
      GcdGreatest(y, x % y, d);
    }
  }

  /**
   * lcm (edf.c:51-53): `(x * y) / gcd(x, y)`, with the product inside the
   * 32-bit range. The result is a positive common multiple of `x` and `y`.
   */
  function Lcm(x: int, y: int): (r: int)
    requires x > 0 && y > 0 && x * y <= INT_MAX
    ensures r > 0 && r % x == 0 && r % y == 0
  {
    var g := Gcd(x, y);
    LcmIsMultiple(x, y, g);
    LcmIsMultiple(y, x, g);
    (x * y) / g
  }

  /** For a common divisor g, x * y / g is the positive multiple (y / g) of x. */
  lemma LcmIsMultiple(x: int, y: int, g: int)
    requires x > 0 && y > 0 && g > 0 && x % g == 0 && y % g == 0
    ensures (x * y) / g > 0 && ((x * y) / g) % x == 0
  {
    var b := y / g;
    QuotPositive(y, g);
    var r := x * b;
    ProductRegroup(x, y, b, g);
    MultipleMod(x * y, r, g);
    MultipleMod(r, b, x);
    MulBounds(b, x);
  }

  lemma QuotPositive(y: int, g: int)
    requires y > 0 && g > 0 && y % g == 0
    ensures y / g > 0 && y == (y / g) * g
  {
    MulBounds(y / g, g);
  }

  lemma ProductRegroup(x: int, y: int, b: int, g: int)
    requires y == b * g
    ensures x * y == (x * b) * g
  {
  }

  function Periods(procs: seq<Task>): (ps: seq<int>)
    ensures |ps| == |procs| && forall i :: 0 <= i < |procs| ==> ps[i] == procs[i].period
  {
    seq(|procs|, i requires 0 <= i < |procs| => procs[i].period)
  }

  /** The 32-bit product at every lcm step of lcm_periods stays in range. */
  ghost predicate Fits(ps: seq<int>)
    requires |ps| >= 1 && forall i :: 0 <= i < |ps| ==> ps[i] > 0
    decreases |ps|, 0
  {
    |ps| == 1 || (Fits(ps[..|ps| - 1]) && LcmFold(ps[..|ps| - 1]) * ps[|ps| - 1] <= INT_MAX)
  }

  /** The value lcm_periods computes: lcm folded over the periods from the left. */
  function LcmFold(ps: seq<int>): (r: int)
    requires |ps| >= 1 && forall i :: 0 <= i < |ps| ==> ps[i] > 0
    requires Fits(ps)
    ensures r > 0 && forall i :: 0 <= i < |ps| ==> r % ps[i] == 0
    decreases |ps|, 1
  {
    if |ps| == 1 then ps[0]
    else
      var c := LcmFold(ps[..|ps| - 1]);
      var r := Lcm(c, ps[|ps| - 1]);
      assert forall i :: 0 <= i < |ps| - 1 ==> r % ps[i] == 0 by {
        forall i | 0 <= i < |ps| - 1 ensures r % ps[i] == 0 {
          assert c % ps[..|ps| - 1][i] == 0;
          DividesTrans(r, c, ps[i]);
        }
      }
      r
  }

  /**
   * lcm_periods (edf.c:60-66): the simulation horizon, a positive common
   * multiple of every period.
   */
  method LcmPeriods(procs: seq<Task>) returns (currLcm: int)
    requires |procs| >= 1 && PeriodsPositive(procs)
    requires Fits(Periods(procs))
    ensures currLcm == LcmFold(Periods(procs))
    ensures currLcm > 0 && forall i :: 0 <= i < |procs| ==> currLcm % procs[i].period == 0
  {
    ghost var ps := Periods(procs);
    currLcm := procs[0].period;
    assert ps[..1] == [ps[0]];
    for i := 1 to |procs|
      invariant Fits(ps[..i]) && currLcm == LcmFold(ps[..i])
    {
      assert ps[..i + 1][..i] == ps[..i];
      FitsPrefix(ps, i + 1);
      currLcm := Lcm(currLcm, procs[i].period);
    }
    assert ps[..|procs|] == ps;
  }

  /** Fits holds for every non-empty prefix of a sequence it holds for. */
  lemma {:induction false} FitsPrefix(ps: seq<int>, n: int)
    requires |ps| >= 1 && forall i :: 0 <= i < |ps| ==> ps[i] > 0
    requires Fits(ps) && 1 <= n <= |ps|
    ensures Fits(ps[..n])
    decreases |ps|
  {
    if n < |ps| {
      assert ps[..n] == ps[..|ps| - 1][..n];
      FitsPrefix(ps[..|ps| - 1], n);
    } else {
      assert ps[..n] == ps;
    }
  }
}

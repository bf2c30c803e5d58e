/** The integer utilities of `MathUtils`: factorials, Fibonacci numbers,
    primality and factorisation, gcd/lcm, powers, binomials and the decimal
    digit tricks. Each routine is stated against an independent mathematical
    definition. */
module MathUtils {
  import opened Outcomes
  import opened Sequences

  // ---------------------------------------------------------------------
  // Divisibility and primes
  // ---------------------------------------------------------------------

  /** `d` divides `x`; zero divides only zero. */
  ghost predicate Divides(d: int, x: int)
  {
    if d == 0 then x == 0 else x % d == 0
  }

  /** A prime has no divisor strictly between 1 and itself. */
  ghost predicate Prime(n: int)
  {
    n >= 2 && forall d :: 2 <= d < n ==> !Divides(d, n)
  }

  lemma DividesMultiple(d: int, k: int)
    ensures Divides(d, d * k)
  {
    if d != 0 {
      var q, r := (d * k) / d, (d * k) % d;
      var t := k - q;
      assert d * t == r;
      if t > 0 {
        MulAtLeast(d, t);
      } else if t < 0 {
        MulAtLeast(d, -t);
      }
    }
  }

  lemma MulAtLeast(d: int, t: int)
    requires t >= 1
    ensures d > 0 ==> d * t >= d
    ensures d < 0 ==> d * t <= d
  {
  }

  lemma MulMonotone(a: int, b: int, c: int, e: int)
    requires 0 <= a <= c && 0 <= b <= e
    ensures a * b <= c * e
  {
    assert a * b <= c * b;
  }

  /** A positive divisor splits `x` into itself times the quotient. */
  lemma DividesQuotient(d: int, x: int)
    requires d > 0 && Divides(d, x)
    ensures x == d * (x / d)
  {
  }

  lemma DividesTransitive(a: int, b: int, c: int)
    requires a > 0 && b > 0 && Divides(a, b) && Divides(b, c)
    ensures Divides(a, c)
  {
    DividesQuotient(a, b);
    DividesQuotient(b, c);
    var j, k := b / a, c / b;
    assert c == a * (j * k);
    DividesMultiple(a, j * k);
  }

  /** An odd number has no even divisor. */
  lemma OddHasNoEvenDivisor(n: int, d: int)
    requires n % 2 == 1 && d > 0 && d % 2 == 0
    ensures !Divides(d, n)
  {
    if Divides(d, n) {
      DividesMultiple(2, d / 2);
      DividesTransitive(2, d, n);
      assert false;
    }
  }

  /** A positive divisor of a positive number is no larger than it. */
  lemma DivisorBound(d: int, x: int)
    requires d > 0 && x > 0 && Divides(d, x)
    ensures d <= x
  {
    DividesQuotient(d, x);
    assert x / d >= 1;
  }

  lemma MulCancelLess(a: int, b: int, d: int)
    requires d > 0 && a * d < b * d
    ensures a < b
  {
  }

  /** Trial division up to the square root suffices: a number with no divisor
      in [2, i) and below i*i is prime. */
  lemma {:induction false} PrimeBelowSquare(n: int, i: int)
    requires n >= 2 && i >= 2 && n < i * i
    requires NoDivisorBelow(n, i)
    ensures Prime(n)
  {
    forall d | 2 <= d < n
      ensures !Divides(d, n)
    {
      if d >= i && Divides(d, n) {
        DividesQuotient(d, n);
        var q := n / d;
        assert q * d == n;
        MulCancelLess(1, q, d);
        MulMonotone(i, i, d, i);
        MulCancelLess(q, i, d);
        DividesMultiple(q, d);
        assert false;
      }
    }
  }

  /** `is_prime`: rejects numbers below 2, accepts 2, rejects other even
      numbers, then tries odd candidates while their square is at most `n`. */
  method IsPrime(n: int) returns (prime: bool)
    ensures prime <==> Prime(n)
  {
    if n < 2 {
      return false;
    }
    if n == 2 {
      return true;
    }
    if n % 2 == 0 {
      assert Divides(2, n);
      return false;
    }
    var i := 3;
    while i * i <= n
      invariant 3 <= i && i % 2 == 1
      invariant forall d :: 2 <= d < i ==> !Divides(d, n)
      decreases n - i
    {
      if n % i == 0 {
        assert Divides(i, n) && i < n;
        return false;
      }
      OddHasNoEvenDivisor(n, i + 1);
      i := i + 2;
    }
    PrimeBelowSquare(n, i);
    return true;
  }

  /** Product of a sequence of factors, 1 for none. */
  function Product(s: seq<int>): int
  {
    if s == [] then 1 else Product(s[..|s| - 1]) * s[|s| - 1]
  }

  lemma ProductAppend(s: seq<int>, x: int)
    ensures Product(s + [x]) == Product(s) * x
  {
    assert (s + [x])[..|s|] == s;
  }

  ghost predicate Sorted(s: seq<int>)
  {
    forall i, j :: 0 <= i < j < |s| ==> s[i] <= s[j]
  }

  /** No number in [2, d) divides m. */
  ghost predicate NoDivisorBelow(m: int, d: int)
  {
    forall k :: 2 <= k < d ==> !Divides(k, m)
  }

  /** Every factor found so far is a prime no larger than d. */
  ghost predicate PrimesUpTo(s: seq<int>, d: int)
  {
    forall k :: 0 <= k < |s| ==> Prime(s[k]) && s[k] <= d
  }

  /** Appending a prime at the bound keeps the factors sorted primes. */
  lemma AppendFactor(s: seq<int>, d: int)
    requires PrimesUpTo(s, d) && Sorted(s) && Prime(d)
    ensures PrimesUpTo(s + [d], d) && Sorted(s + [d])
  {
  }

  lemma PrimesUpToRaise(s: seq<int>, d: int, e: int)
    requires PrimesUpTo(s, d) && d <= e
    ensures PrimesUpTo(s, e)
  {
  }

  /** One division step of the inner loop: a candidate that divides what is
      left, and has no smaller divisor in common with it, is prime, and
      dividing it out keeps the product and the "no small divisor" fact. */
  lemma DivideOut(factors: seq<int>, m: int, d: int, n: int)
    requires 2 <= d && 1 <= m && m % d == 0
    requires Product(factors) * m == n && NoDivisorBelow(m, d)
    ensures 1 <= m / d < m && Prime(d)
    ensures Product(factors + [d]) * (m / d) == n
    ensures NoDivisorBelow(m / d, d)
  {
    assert Divides(d, m);
    DivisorBound(d, m);
    forall k | 2 <= k < d
      ensures !Divides(k, d)
    {
      if Divides(k, d) {
        DividesTransitive(k, d, m);
      }
    }
    DividesQuotient(d, m);
    var rest := m / d;
    MulCancelLess(0, rest, d);
    MulMonotone(rest, 2, rest, d);
    forall k | 2 <= k < d
      ensures !Divides(k, rest)
    {
      if Divides(k, rest) {
        DividesMultiple(rest, d);
        assert rest * d == m;
        DividesTransitive(k, rest, m);
      }
    }
    ProductAppend(factors, d);
    assert Product(factors + [d]) * rest == Product(factors) * (d * rest);
  }

  /** `prime_factors`: divides out each candidate `d` as often as it goes while
      `d*d` does not exceed what is left, then keeps a remainder above 1. */
  method PrimeFactors(n: int) returns (factors: seq<int>)
    ensures n <= 1 ==> factors == []
    ensures n > 1 ==> Product(factors) == n
    ensures forall k :: 0 <= k < |factors| ==> Prime(factors[k])
    ensures Sorted(factors)
  {
    if n <= 1 {
      return [];
    }
    factors := [];
    var m := n;
    var d := 2;
    while d * d <= m
      invariant 2 <= d && 1 <= m
      invariant Product(factors) * m == n && NoDivisorBelow(m, d)
      invariant PrimesUpTo(factors, d) && Sorted(factors)
      decreases m - d
    {
      MulAtLeast(d, d);
      ghost var before := m;
      while m % d == 0
        invariant 1 <= m <= before
        invariant Product(factors) * m == n && NoDivisorBelow(m, d)
        invariant PrimesUpTo(factors, d) && Sorted(factors)
        decreases m
      {
        DivideOut(factors, m, d, n);
        AppendFactor(factors, d);
        factors := factors + [d];
        m := m / d;
      }
      assert !Divides(d, m);
      PrimesUpToRaise(factors, d, d + 1);
      d := d + 1;
    }
    if m > 1 {
      PrimeBelowSquare(m, d);
      assert m >= d by {
        assert Divides(m, m);
      }
      ProductAppend(factors, m);
      PrimesUpToRaise(factors, d, m);
      AppendFactor(factors, m);
      factors := factors + [m];
    }
  }

  // ---------------------------------------------------------------------
  // Greatest common divisor and least common multiple
  // ---------------------------------------------------------------------

  function Abs(x: int): (r: int)
    ensures r >= 0 && (r == x || r == -x)
  {
    if x < 0 then -x else x
  }

  /** Python's `//`: the quotient rounded towards minus infinity. */
  function FloorDiv(x: int, y: int): int
    requires y != 0
  {
    if y < 0 && x % y != 0 then x / y - 1 else x / y
  }

  /** Python's `%`: what `//` leaves over, carrying the sign of the divisor. */
  function PyMod(x: int, y: int): (r: int)
    requires y != 0
    ensures y > 0 ==> 0 <= r < y
    ensures y < 0 ==> y < r <= 0
  {
    x - y * FloorDiv(x, y)
  }

  lemma DividesByQuotient(d: int, x: int)
    requires d != 0 && Divides(d, x)
    ensures x == d * (x / d)
  {
  }

  /** A common divisor divides every integer combination. */
  lemma DividesCombination(d: int, a: int, b: int, s: int, t: int)
    requires Divides(d, a) && Divides(d, b)
    ensures Divides(d, s * a + t * b)
  {
    if d != 0 {
      DividesByQuotient(d, a);
      DividesByQuotient(d, b);
      var i, j := a / d, b / d;
      assert s * a + t * b == d * (s * i + t * j);
      DividesMultiple(d, s * i + t * j);
    }
  }

  lemma DividesAbs(d: int, x: int)
    ensures Divides(d, x) <==> Divides(d, Abs(x))
  {
    if Divides(d, x) {
      DividesCombination(d, x, 0, -1, 0);
    }
    if Divides(d, -x) {
      DividesCombination(d, -x, 0, -1, 0);
    }
  }

  lemma DividesAbsDivisor(d: int, x: int)
    requires Divides(d, x)
    ensures Divides(Abs(d), x)
  {
    if d < 0 {
      DividesByQuotient(d, x);
      assert x == (-d) * (-(x / d));
      DividesMultiple(-d, -(x / d));
    }
  }

  /** One Euclidean step rewrites the Bezout bookkeeping: with
      `x == k*y + r`, the old pair is a combination of the new one and the
      new remainder is a combination of `a` and `b`. */
  lemma EuclidStep(a: int, b: int, x: int, y: int, k: int, r: int,
                   sx: int, tx: int, sy: int, ty: int, p: int, q: int, u: int, w: int)
    requires r == x - y * k
    requires x == sx * a + tx * b && y == sy * a + ty * b
    requires a == p * x + q * y && b == u * x + w * y
    ensures r == (sx - k * sy) * a + (tx - k * ty) * b
    ensures a == (p * k + q) * y + p * r && b == (u * k + w) * y + u * r
  {
    assert x == y * k + r;
    assert p * x == p * k * y + p * r;
    assert u * x == u * k * y + u * r;
  }

  /** When the loop stops, |x| is the gcd: it divides both inputs, every
      common divisor divides it, and it is a combination of the inputs. */
  lemma EuclidResult(a: int, b: int, x: int, sx: int, tx: int, p: int, u: int)
    requires x == sx * a + tx * b && a == p * x && b == u * x
    ensures Divides(Abs(x), a) && Divides(Abs(x), b)
    ensures Abs(x) == 0 <==> a == 0 && b == 0
    ensures forall d :: Divides(d, a) && Divides(d, b) ==> Divides(d, Abs(x))
    ensures Abs(x) > 0 ==> forall d :: Divides(d, a) && Divides(d, b) ==> d <= Abs(x)
    ensures (if x < 0 then -sx else sx) * a + (if x < 0 then -tx else tx) * b == Abs(x)
  {
    var g := Abs(x);
    DividesMultiple(x, p);
    DividesMultiple(x, u);
    assert a == x * p && b == x * u;
    DividesAbsDivisor(x, a);
    DividesAbsDivisor(x, b);
    forall d | Divides(d, a) && Divides(d, b)
      ensures Divides(d, g)
    {
      DividesCombination(d, a, b, sx, tx);
      DividesAbs(d, x);
    }
    if g > 0 {
      forall d | Divides(d, a) && Divides(d, b)
        ensures d <= g
      {
        DividesCombination(d, a, b, sx, tx);
        DividesAbs(d, x);
        if d > 0 {
          DivisorBound(d, g);
        }
      }
    }
  }

  /** `gcd`: the Euclidean loop with Python's `%`, then the absolute value.
      The ghost results are Bezout coefficients of the answer. */
  method Gcd(a: int, b: int) returns (g: int, ghost s: int, ghost t: int)
    ensures g >= 0 && Divides(g, a) && Divides(g, b)
    ensures g == 0 <==> a == 0 && b == 0
    ensures forall d :: Divides(d, a) && Divides(d, b) ==> Divides(d, g)
    ensures g > 0 ==> forall d :: Divides(d, a) && Divides(d, b) ==> d <= g
    ensures s * a + t * b == g
  {
    var x, y := a, b;
    // x and y are combinations of a and b, and a and b of x and y
    ghost var sx, tx, sy, ty := 1, 0, 0, 1;
    ghost var p, q, u, w := 1, 0, 0, 1;
    while y != 0
      invariant x == sx * a + tx * b && y == sy * a + ty * b
      invariant a == p * x + q * y && b == u * x + w * y
      decreases Abs(y)
    {
      ghost var k := FloorDiv(x, y);
      EuclidStep(a, b, x, y, k, PyMod(x, y), sx, tx, sy, ty, p, q, u, w);
      x, y := y, PyMod(x, y);
      sx, tx, sy, ty := sy, ty, sx - k * sy, tx - k * ty;
      p, q, u, w := p * k + q, p, u * k + w, u;
    }
    EuclidResult(a, b, x, sx, tx, p, u);
    g := Abs(x);
    s, t := if x < 0 then -sx else sx, if x < 0 then -tx else tx;
  }

  lemma MulDivCancel(g: int, x: int)
    requires g != 0
    ensures (g * x) / g == x
  {
    DividesMultiple(g, x);
    DividesByQuotient(g, g * x);
    assert g * (x - (g * x) / g) == 0;
  }

  lemma AbsMul(a: int, b: int)
    ensures Abs(a * b) == Abs(a) * Abs(b)
  {
  }

  /** Dividing both sides of a divisibility by a positive factor. */
  lemma CancelFactor(l: int, m: int, g: int)
    requires g > 0 && Divides(l * g, m * g)
    ensures Divides(l, m)
  {
    if l != 0 {
      assert l * g != 0;
      DividesByQuotient(l * g, m * g);
      var c := (m * g) / (l * g);
      assert g * (m - l * c) == 0;
      assert m == l * c;
      DividesMultiple(l, c);
    }
  }

  /** A common multiple times the gcd is a multiple of `a*b`, through the
      Bezout identity. */
  lemma CommonMultipleTimesGcd(m: int, g: int, a: int, b: int, s: int, t: int, ma: int, mb: int)
    requires s * a + t * b == g && m == a * ma && m == b * mb
    ensures m * g == (a * b) * (s * mb + t * ma)
  {
    assert m * g == s * (a * m) + t * (b * m);
    assert a * m == (a * b) * mb;
    assert b * m == (a * b) * ma;
  }

  /** `lcm`: zero when either argument is zero, otherwise `|a*b|` divided by
      the gcd. */
  method Lcm(a: int, b: int) returns (l: int)
    ensures a == 0 || b == 0 ==> l == 0
    ensures a != 0 && b != 0 ==> l > 0 && Divides(a, l) && Divides(b, l)
    ensures a != 0 && b != 0 ==> forall m :: Divides(a, m) && Divides(b, m) ==> Divides(l, m)
  {
    if a != 0 && b != 0 {
      var g;
      ghost var s, t;
      g, s, t := Gcd(a, b);
      l := Abs(a * b) / g;
      LcmProperties(a, b, g, s, t);
    } else {
      l := 0;
    }
  }

  lemma LcmProperties(a: int, b: int, g: int, s: int, t: int)
    requires a != 0 && b != 0 && g > 0 && Divides(g, a) && Divides(g, b)
    requires s * a + t * b == g
    ensures Abs(a * b) / g > 0
    ensures Divides(a, Abs(a * b) / g) && Divides(b, Abs(a * b) / g)
    ensures forall m :: Divides(a, m) && Divides(b, m) ==> Divides(Abs(a * b) / g, m)
  {
    DividesByQuotient(g, a);
    DividesByQuotient(g, b);
    var i, j := a / g, b / g;
    var l := Abs(a * b) / g;
    assert a * b == g * (i * b);
    AbsMul(g, i * b);
    MulDivCancel(g, Abs(i * b));
    assert l == Abs(i * b);
    assert i * b == a * j;
    assert i != 0;
    AbsMul(i, b);
    MulCancelLess(0, Abs(i), Abs(b));
    DividesMultiple(b, i);
    assert b * i == i * b;
    DividesAbs(b, i * b);
    DividesMultiple(a, j);
    DividesAbs(a, a * j);
    assert l * g == Abs(a * b);
    forall m | Divides(a, m) && Divides(b, m)
      ensures Divides(l, m)
    {
      DividesByQuotient(a, m);
      DividesByQuotient(b, m);
      CommonMultipleTimesGcd(m, g, a, b, s, t, m / a, m / b);
      DividesMultiple(a * b, s * (m / b) + t * (m / a));
      DividesAbsDivisor(a * b, m * g);
      assert Divides(l * g, m * g);
      CancelFactor(l, m, g);
    }
  }

  // ---------------------------------------------------------------------
  // Factorial, Fibonacci and powers
  // ---------------------------------------------------------------------

  /** n!, the product 1 * 2 * ... * n. */
  function Fact(n: nat): (r: nat)
    ensures r >= 1
  {
    if n == 0 then 1 else n * Fact(n - 1)
  }

  /** `factorial`: a ValueError for negative input, 1 for 0 and 1, and
      otherwise `n` times the factorial of `n - 1`. */
  function Factorial(n: int): (r: Result<int>)
    ensures n < 0 <==> r == Err(ValueError)
    ensures n >= 0 ==> r == Ok(Fact(n))
    decreases if n < 0 then 0 else n
  {
    if n < 0 then Err(ValueError)
    else if n == 0 || n == 1 then Ok(1)
    else Ok(n * Factorial(n - 1).value)
  }

  /** The Fibonacci numbers: F(0) = 0, F(1) = 1, F(n) = F(n-1) + F(n-2). */
  function Fib(n: nat): nat
  {
    if n < 2 then n else Fib(n - 1) + Fib(n - 2)
  }

  /** `fibonacci`: a ValueError for negative input; otherwise the pair
      `a, b` walks up the sequence from F(0), F(1). */
  method Fibonacci(n: int) returns (r: Result<int>)
    ensures n < 0 <==> r == Err(ValueError)
    ensures n >= 0 ==> r == Ok(Fib(n))
  {
    if n < 0 {
      return Err(ValueError);
    }
    if n == 0 {
      return Ok(0);
    }
    if n == 1 {
      return Ok(1);
    }
    var a, b := 0, 1;
    for i := 2 to n + 1
      invariant a == Fib(i - 2) && b == Fib(i - 1)
    {
      a, b := b, a + b;
    }
    return Ok(b);
  }

  /** `fibonacci_sequence`: the first `n` Fibonacci numbers, each appended as
      the sum of the two before it. */
  method FibonacciSequence(n: int) returns (sequence: seq<int>)
    ensures n <= 0 ==> sequence == []
    ensures n > 0 ==> |sequence| == n
    ensures forall i :: 0 <= i < |sequence| ==> sequence[i] == Fib(i)
  {
    if n <= 0 {
      return [];
    }
    if n == 1 {
      return [0];
    }
    sequence := [0, 1];
    for i := 2 to n
      invariant |sequence| == i
      invariant forall k :: 0 <= k < i ==> sequence[k] == Fib(k)
    {
      sequence := sequence + [sequence[i - 1] + sequence[i - 2]];
    }
  }

  /** b to the power e: e factors of b. */
  function Pow(b: int, e: nat): int
  {
    if e == 0 then 1 else b * Pow(b, e - 1)
  }

  /** Exponents add: b^(m+k) == b^m * b^k. */
  lemma {:induction false} PowAdd(b: int, m: nat, k: nat)
    ensures Pow(b, m + k) == Pow(b, m) * Pow(b, k)
  {
    if m > 0 {
      PowAdd(b, m - 1, k);
      assert Pow(b, m + k) == b * Pow(b, m - 1 + k);
    }
  }

  /** `power` for a non-negative exponent: 1 for exponent 0, otherwise
      `base` multiplied in `exponent` times. */
  method Power(base: int, exponent: nat) returns (result: int)
    ensures result == Pow(base, exponent)
  {
    if exponent == 0 {
      return 1;
    }
    result := 1;
    for i := 0 to exponent
      invariant result == Pow(base, i)
    {
      result := result * base;
    }
  }

  // ---------------------------------------------------------------------
  // Combinations and permutations
  // ---------------------------------------------------------------------

  /** Binomial coefficients by Pascal's rule; zero outside 0 <= k <= n. */
  function Binom(n: int, k: int): nat
    decreases n
  {
    if k < 0 || k > n then 0
    else if k == 0 || k == n then 1
    else Binom(n - 1, k - 1) + Binom(n - 1, k)
  }

  /** The step of the multiplicative formula:
      C(n, k+1) * (k+1) == C(n, k) * (n-k). */
  lemma {:induction false} BinomStep(n: int, k: int)
    requires 0 <= k < n
    ensures Binom(n, k + 1) * (k + 1) == Binom(n, k) * (n - k)
    decreases n
  {
    if k + 1 == n {
      if n > 1 {
        BinomStep(n - 1, n - 2);
        assert Binom(n, n - 1) == Binom(n - 1, n - 2) + Binom(n - 1, n - 1);
      }
    } else if k == 0 {
      BinomStep(n - 1, 0);
      assert Binom(n, 1) == Binom(n - 1, 0) + Binom(n - 1, 1);
    } else {
      BinomStep(n - 1, k);
      BinomStep(n - 1, k - 1);
      var x, y, z := Binom(n - 1, k - 1), Binom(n - 1, k), Binom(n - 1, k + 1);
      assert Binom(n, k + 1) == y + z;
      assert Binom(n, k) == x + y;
      assert z * (k + 1) == y * (n - 1 - k);
      assert y * k == x * (n - k);
      PascalStepAlgebra(x, y, z, n, k);
    }
  }

  /** The ring identity behind one inductive step of `BinomStep`. */
  lemma PascalStepAlgebra(x: int, y: int, z: int, n: int, k: int)
    requires z * (k + 1) == y * (n - 1 - k) && y * k == x * (n - k)
    ensures (y + z) * (k + 1) == (x + y) * (n - k)
  {
    assert (y + z) * (k + 1) == y * (k + 1) + z * (k + 1);
    assert (x + y) * (n - k) == x * (n - k) + y * (n - k);
    assert y * (k + 1) + y * (n - 1 - k) == y * n;
    assert y * k + y * (n - k) == y * n;
  }

  /** The factorial formula: C(n, k) * k! * (n-k)! == n!. */
  lemma {:induction false} BinomFactorials(n: int, k: int)
    requires 0 <= k <= n
    ensures Binom(n, k) * (Fact(k) * Fact(n - k)) == Fact(n)
    decreases k
  {
    if k > 0 {
      BinomFactorials(n, k - 1);
      BinomStep(n, k - 1);
      var c, c1 := Binom(n, k - 1), Binom(n, k);
      var f, g := Fact(k - 1), Fact(n - k);
      assert Fact(k) == k * f;
      assert Fact(n - (k - 1)) == (n - k + 1) * g;
      FactorialsStepAlgebra(c, c1, f, g, k, n - k + 1, Fact(n));
    }
  }

  /** The ring identity behind one inductive step of `BinomFactorials`. */
  lemma FactorialsStepAlgebra(c: int, c1: int, f: int, g: int, k: int, m: int, total: int)
    requires c1 * k == c * m && c * (f * (m * g)) == total
    ensures c1 * ((k * f) * g) == total
  {
    assert c1 * ((k * f) * g) == (c1 * k) * (f * g);
    assert (c * m) * (f * g) == c * (f * (m * g));
  }

  /** Choosing k is choosing the n-k left behind. */
  lemma BinomSymmetric(n: int, k: int)
    requires 0 <= k <= n
    ensures Binom(n, k) == Binom(n, n - k)
  {
    BinomFactorials(n, k);
    BinomFactorials(n, n - k);
    var x := Fact(k) * Fact(n - k);
    assert n - (n - k) == k;
    assert Fact(n - k) * Fact(k) == x;
    MulCancelEq(Binom(n, k), Binom(n, n - k), x);
  }

  lemma MulCancelEq(a: int, b: int, x: int)
    requires x > 0 && a * x == b * x
    ensures a == b
  {
    assert (a - b) * x == 0;
  }

  /** Every `//` of the loop in `combination` is exact: C(n, i) * (n-i) is a
      multiple of i+1, and the quotient is C(n, i+1). */
  lemma CombinationStepExact(n: int, i: int)
    requires 0 <= i < n
    ensures Divides(i + 1, Binom(n, i) * (n - i))
    ensures Binom(n, i) * (n - i) / (i + 1) == Binom(n, i + 1)
  {
    BinomStep(n, i);
    DividesMultiple(i + 1, Binom(n, i + 1));
    MulDivCancel(i + 1, Binom(n, i + 1));
    assert Binom(n, i) * (n - i) == (i + 1) * Binom(n, i + 1);
  }

  /** `combination`: 0 outside 0 <= r <= n, 1 at either end, otherwise the
      multiplicative formula run up to the smaller of r and n-r. */
  method Combination(n: int, r: int) returns (c: int)
    ensures c == Binom(n, r)
    ensures 0 <= r <= n ==> c * (Fact(r) * Fact(n - r)) == Fact(n)
  {
    if r > n || r < 0 {
      return 0;
    }
    BinomFactorials(n, r);
    if r == 0 || r == n {
      return 1;
    }
    var k := if r < n - r then r else n - r;
    BinomSymmetric(n, r);
    var result := 1;
    for i := 0 to k
      invariant result == Binom(n, i)
    {
      CombinationStepExact(n, i);
      result := result * (n - i) / (i + 1);
    }
    return result;
  }

  /** `permutation`: 0 outside 0 <= r <= n, 1 for r == 0, otherwise the
      product n * (n-1) * ... * (n-r+1). */
  method Permutation(n: int, r: int) returns (p: int)
    ensures (r > n || r < 0) ==> p == 0
    ensures 0 <= r <= n ==> p * Fact(n - r) == Fact(n)
  {
    if r > n || r < 0 {
      return 0;
    }
    if r == 0 {
      return 1;
    }
    p := 1;
    var i := n;
    while i > n - r
      invariant n - r <= i <= n
      invariant p * Fact(i) == Fact(n)
    {
      assert Fact(i) == i * Fact(i - 1);
      assert (p * i) * Fact(i - 1) == p * Fact(i);
      p := p * i;
      i := i - 1;
    }
  }

  // ---------------------------------------------------------------------
  // Decimal digits
  // ---------------------------------------------------------------------

  predicate IsDigit(c: char)
  {
    '0' <= c <= '9'
  }

  predicate AllDigits(s: string)
  {
    forall i :: 0 <= i < |s| ==> IsDigit(s[i])
  }

  function DigitChar(d: int): (c: char)
    requires 0 <= d < 10
    ensures IsDigit(c) && c as int - '0' as int == d
  {
    ('0' as int + d) as char
  }

  /** Python's `int` of one digit character. */
  function DigitValue(c: char): (d: int)
    requires IsDigit(c)
    ensures 0 <= d < 10 && DigitChar(d) == c
  {
    c as int - '0' as int
  }

  /** `str` of a natural number: its decimal numeral, with no leading zero
      except for 0 itself. */
  function Str(m: nat): (s: string)
    ensures |s| >= 1 && AllDigits(s)
    ensures s[0] == '0' <==> m == 0
    ensures DigitValue(s[|s| - 1]) == m % 10
  {
    if m < 10 then [DigitChar(m)] else Str(m / 10) + [DigitChar(m % 10)]
  }

  /** Python's `int` of a digit string: Horner's rule, so leading zeros do
      not count. */
  function ParseInt(s: string): nat
    requires AllDigits(s)
  {
    if s == [] then 0 else ParseInt(s[..|s| - 1]) * 10 + DigitValue(s[|s| - 1])
  }

  /** Sum of the digit values of a digit string. */
  function DigitSum(s: string): nat
    requires AllDigits(s)
  {
    if s == [] then 0 else DigitSum(s[..|s| - 1]) + DigitValue(s[|s| - 1])
  }

  /** Reading back a numeral gives the number: `int(str(m)) == m`. */
  lemma {:induction false} ParseStr(m: nat)
    ensures ParseInt(Str(m)) == m
  {
    if m >= 10 {
      ParseStr(m / 10);
      var s := Str(m);
      assert s[..|s| - 1] == Str(m / 10);
    }
  }

  /** A digit string whose last digit is not zero reads as a positive number. */
  lemma ParseIntAtLeastLast(s: string)
    requires AllDigits(s) && |s| >= 1
    ensures ParseInt(s) >= DigitValue(s[|s| - 1])
  {
  }

  /** A digit string with no leading zero reads as a positive number. */
  lemma {:induction false} ParseIntPositive(s: string)
    requires AllDigits(s) && |s| >= 1 && s[0] != '0'
    ensures ParseInt(s) >= 1
    ensures |s| >= 2 ==> ParseInt(s) >= 10
  {
    if |s| >= 2 {
      ParseIntPositive(s[..|s| - 1]);
    }
  }

  /** A canonical numeral is the `str` of what it reads as:
      `str(int(s)) == s` when `s` has no leading zero. */
  lemma {:induction false} StrParse(s: string)
    requires AllDigits(s) && |s| >= 1 && (|s| == 1 || s[0] != '0')
    ensures Str(ParseInt(s)) == s
  {
    if |s| >= 2 {
      var p := s[..|s| - 1];
      ParseIntPositive(s);
      StrParse(p);
      var m := ParseInt(s);
      assert m / 10 == ParseInt(p) && m % 10 == DigitValue(s[|s| - 1]);
      assert s == p + [s[|s| - 1]];
    }
  }

  /** Casting out nines: a digit string and its digit sum agree modulo 9. */
  lemma {:induction false} DigitSumMod9(s: string)
    requires AllDigits(s)
    ensures DigitSum(s) % 9 == ParseInt(s) % 9
  {
    if s != [] {
      var p := s[..|s| - 1];
      DigitSumMod9(p);
      var x, d := ParseInt(p), DigitValue(s[|s| - 1]);
      ModNineStep(DigitSum(p), x, d);
    }
  }

  lemma ModNineStep(t: int, x: int, d: int)
    requires t % 9 == x % 9
    ensures (t + d) % 9 == (x * 10 + d) % 9
  {
    assert x * 10 + d == (x + d) + 9 * x;
  }

  /** `sum_of_digits`: the digit sum of the numeral of `|n|`. It is congruent
      to `|n|` modulo 9 and is zero only for zero. */
  function SumOfDigits(n: int): (r: nat)
    ensures r % 9 == Abs(n) % 9
    ensures r == 0 <==> n == 0
    ensures r <= 9 * |Str(Abs(n))|
  {
    var s := Str(Abs(n));
    DigitSumMod9(s);
    ParseStr(Abs(n));
    DigitSumBounds(s);
    DigitSum(s)
  }

  /** A digit sum is at most 9 per digit, and zero only when every digit is. */
  lemma {:induction false} DigitSumBounds(s: string)
    requires AllDigits(s)
    ensures DigitSum(s) <= 9 * |s|
    ensures DigitSum(s) == 0 <==> ParseInt(s) == 0
  {
    if s != [] {
      DigitSumBounds(s[..|s| - 1]);
    }
  }

  lemma ReversedAllDigits(s: string)
    requires AllDigits(s)
    ensures AllDigits(Reversed(s))
  {
    forall k | 0 <= k < |s|
      ensures IsDigit(Reversed(s)[k])
    {
      ReversedAt(s, k);
    }
  }

  /** The digits of `|n|` written backwards, as a string. */
  function ReversedNumeral(n: int): (s: string)
    ensures AllDigits(s) && |s| >= 1
  {
    ReversedAllDigits(Str(Abs(n)));
    Reversed(Str(Abs(n)))
  }

  /** `reverse_number`: the sign of `n` times the number read from the
      numeral of `|n|` written backwards. */
  function ReverseNumber(n: int): (r: int)
    ensures n > 0 ==> r > 0
    ensures n < 0 ==> r < 0
    ensures n == 0 ==> r == 0
    ensures Abs(r) <= Pow(10, |Str(Abs(n))|) - 1
  {
    var s := Str(Abs(n));
    ReversedAt(s, |s| - 1);
    ParseIntAtLeastLast(ReversedNumeral(n));
    ParseIntBelow(ReversedNumeral(n));
    (if n < 0 then -1 else 1) * ParseInt(ReversedNumeral(n))
  }

  /** A string of k digits reads as less than 10^k. */
  lemma {:induction false} ParseIntBelow(s: string)
    requires AllDigits(s)
    ensures ParseInt(s) < Pow(10, |s|)
  {
    if s != [] {
      ParseIntBelow(s[..|s| - 1]);
    }
  }

  /** Reversing twice gives the number back when it does not end in zero. */
  lemma ReverseNumberTwice(n: int)
    requires Abs(n) % 10 != 0
    ensures Str(Abs(ReverseNumber(n))) == Reversed(Str(Abs(n)))
    ensures ReverseNumber(ReverseNumber(n)) == n
  {
    var s := Str(Abs(n));
    var t := Reversed(s);
    ReversedAt(s, 0);
    assert t[0] == s[|s| - 1];
    ReversedAllDigits(s);
    StrParse(t);
    assert Abs(ReverseNumber(n)) == ParseInt(t);
    ReversedReversed(s);
    ParseStr(Abs(n));
  }

  /** Trailing zeros are dropped: reversing 10*n is reversing n. */
  lemma ReverseNumberTrailingZero(n: int)
    ensures ReverseNumber(10 * n) == ReverseNumber(n)
  {
    if n != 0 {
      var m := Abs(n);
      assert Abs(10 * n) == 10 * m;
      var s := Str(m);
      assert Str(10 * m) == s + ['0'];
      assert Reversed(s + ['0']) == ['0'] + Reversed(s) by {
        assert (s + ['0'])[..|s|] == s;
      }
      ReversedAllDigits(s);
      ParseLeadingZero(Reversed(s));
    }
  }

  /** A leading zero does not change the number a string reads as. */
  lemma {:induction false} ParseLeadingZero(s: string)
    requires AllDigits(s)
    ensures ParseInt(['0'] + s) == ParseInt(s)
  {
    if s != [] {
      var p := s[..|s| - 1];
      ParseLeadingZero(p);
      assert (['0'] + s)[..|s|] == ['0'] + p;
    }
  }
}

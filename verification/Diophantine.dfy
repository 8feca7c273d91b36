/** Minimal solutions of a1*x1 + ... + am*xm == b1*y1 + ... + bn*yn under rigid-symbol
    constraints: definitions and the facts behind Huet's search (ladr/dioph.c). */
module Diophantine {
  import opened Vectors

  /** a and b are the coefficients of the two sides; constraint 0 marks a variable,
      any other number is the rigid symbol of that position. */
  datatype Problem = Problem(a: Vector, b: Vector, aCons: seq<int>, bCons: seq<int>) {
    ghost predicate Valid() {
      Positive(a) && Positive(b) && |aCons| == |a| && |bCons| == |b|
    }

    function Size(): nat { |a| + |b| }
    function Constraints(): seq<int> { aCons + bCons }

    function Left(v: Vector): Vector
      requires |v| == Size()
    {
      v[..|a|]
    }

    function Right(v: Vector): Vector
      requires |v| == Size()
    {
      v[|a|..]
    }
  }

  /** No rigid position exceeds 1. */
  ghost predicate AtMostOnce(cons: seq<int>, v: Vector) {
    |cons| == |v| && forall i | 0 <= i < |v| :: cons[i] != 0 ==> v[i] <= 1
  }

  /** No two different rigid symbols are used together. */
  ghost predicate OneSymbol(cons: seq<int>, v: Vector) {
    |cons| == |v| &&
    forall i, j | 0 <= i < j < |v| :: cons[i] != 0 && v[i] != 0 && cons[j] != 0 && v[j] != 0 ==> cons[i] == cons[j]
  }

  ghost predicate Allowed(cons: seq<int>, v: Vector) {
    AtMostOnce(cons, v) && OneSymbol(cons, v)
  }

  ghost predicate Balanced(p: Problem, v: Vector) {
    |v| == p.Size() && Dot(p.a, p.Left(v)) == Dot(p.b, p.Right(v))
  }

  /** Nonzero solutions in naturals that satisfy both constraint checks. */
  ghost predicate Solution(p: Problem, v: Vector) {
    Balanced(p, v) && NonNegative(v) && !ZeroFrom(v, 0) && Allowed(p.Constraints(), v)
  }

  ghost predicate Minimal(p: Problem, v: Vector) {
    Solution(p, v) && forall u | Solution(p, u) && Below(u, v) :: u == v
  }

  lemma {:induction false} AllowedBelow(cons: seq<int>, u: Vector, v: Vector)
    requires Allowed(cons, v) && NonNegative(u) && Below(u, v)
    ensures Allowed(cons, u)
  {
  }

  lemma {:induction false} AllowedLeft(p: Problem, v: Vector)
    requires p.Valid() && |v| == p.Size() && Allowed(p.Constraints(), v)
    ensures Allowed(p.aCons, p.Left(v))
  {
    var c := p.Constraints();
    assert forall i | 0 <= i < |p.a| :: c[i] == p.aCons[i] && v[i] == p.Left(v)[i];
  }

  /** Every solution has a minimal one below it. */
  lemma {:induction false} MinimalBelow(p: Problem, v: Vector) returns (u: Vector)
    requires Solution(p, v)
    ensures Minimal(p, u) && Below(u, v)
    decreases Sum(v)
  {
    if Minimal(p, v) {
      u := v;
    } else {
      var w :| Solution(p, w) && Below(w, v) && w != v;
      SumMonotone(w, v);
      SumNonNegative(w);
      u := MinimalBelow(p, w);
    }
  }

  // ---------- Small facts about products ----------

  lemma {:induction false} MulMonotone(x: int, y: int, k: int)
    requires x <= y && k >= 0
    ensures k * x <= k * y
  {
    assert k * (y - x) >= 0;
  }

  lemma {:induction false} PositiveFactor(k: int, x: int)
    requires k >= 0 && k * x > 0
    ensures x > 0
  {
    if x <= 0 { MulMonotone(x, 0, k); }
  }

  lemma {:induction false} MulCancel(u: int, v: int, g: int)
    requires g > 0 && u * g == v * g
    ensures u == v
  {
    assert (u - v) * g == 0;
  }

  lemma {:induction false} DivideProduct(u: int, g: int)
    requires g > 0
    ensures (u * g) / g == u
  {
    var n := u * g;
    var q := n / g;
    assert n == q * g + n % g;
    assert 0 <= (u - q) * g < g;
    if u - q > 0 { MulMonotone(1, u - q, g); }
    if u - q < 0 { MulMonotone(u - q, -1, g); }
  }

  /** Equal residues: the difference is a multiple of a, between 1 and bound times. */
  lemma {:induction false} EqualResidues(x: int, y: int, a: int, steps: int, bound: int) returns (k: int)
    requires 1 <= steps <= a && x % a == y % a && bound >= 1
    requires steps <= x - y <= bound * steps
    ensures x - y == k * a && 1 <= k <= bound
  {
    k := x / a - y / a;
    assert x == x / a * a + x % a && y == y / a * a + y % a;
    assert x - y == k * a;
    PositiveFactor(a, k);
    MulMonotone(steps, a, bound);
    assert a * (bound + 1 - k) > 0 by { assert k * a <= bound * a; }
    PositiveFactor(a, bound + 1 - k);
  }

  lemma {:induction false} WeightedStep(c: int, bound: int, h: int, k: int, low: int, high: int, n: int)
    requires 1 <= c <= bound && h <= k && n <= high - low <= bound * n
    ensures (k - h) + n <= (c * k + high) - (c * h + low) <= bound * ((k - h) + n)
  {
    MulMonotone(1, c, k - h);
    MulMonotone(c, bound, k - h);
    assert bound * (k - h) + bound * n == bound * ((k - h) + n);
  }

  // ---------- Greatest common divisor and least common multiple ----------

  ghost predicate IsMultiple(n: int, d: int) {
    exists k :: n == k * d
  }

  /** l is the least positive common multiple, with cofactors da and db. */
  ghost predicate IsLcm(a: int, b: int, l: int) {
    l > 0 && IsMultiple(l, a) && IsMultiple(l, b) &&
    forall i, j | i > 0 && i * a == j * b :: i * a >= l
  }

  /** y is a common divisor of x0 and y0 and the combination s*x0 + t*y0 of them. */
  ghost predicate Bezout(x0: int, y0: int, y: int, s: int, t: int) {
    y > 0 && IsMultiple(x0, y) && IsMultiple(y0, y) && y == s * x0 + t * y0
  }

  /** Loop invariant of Euclid's algorithm: x and y are combinations of x0 and y0, and every
      common divisor of x and y divides x0 and y0. */
  ghost predicate EuclidState(x0: int, y0: int, x: int, y: int, sx: int, tx: int, s: int, t: int) {
    && x > 0 && y > 0
    && x == sx * x0 + tx * y0 && y == s * x0 + t * y0
    && forall d | d > 0 && IsMultiple(x, d) && IsMultiple(y, d) :: IsMultiple(x0, d) && IsMultiple(y0, d)
  }

  /** Euclid's loop, with the coefficients of the combination as ghosts. */
  method Gcd(x0: int, y0: int) returns (y: int, ghost s: int, ghost t: int)
    requires x0 > 0 && y0 > 0
    ensures Bezout(x0, y0, y, s, t)
    ensures y > 0 && IsMultiple(x0, y) && IsMultiple(y0, y)
    ensures forall d: int | IsMultiple(x0, d) && IsMultiple(y0, d) :: IsMultiple(y, d)
  {
    var x: int;
    ghost var sx, tx;
    x, y := x0, y0;
    sx, tx, s, t := 1, 0, 0, 1;
    if x < y { x, y := y, x; sx, tx, s, t := 0, 1, 1, 0; }
    var r := x % y;
    while r != 0
      invariant EuclidState(x0, y0, x, y, sx, tx, s, t)
      invariant r == x % y
      decreases y
    {
      ghost var q := EuclidStep(x0, y0, x, y, sx, tx, s, t);
      sx, tx, s, t := s, t, sx - q * s, tx - q * t;
      x := y;
      y := r;
      r := x % y;
    }
    assert x == (x / y) * y && y == 1 * y;
    assert IsMultiple(x, y) && IsMultiple(y, y);
    forall d: int | IsMultiple(x0, d) && IsMultiple(y0, d) ensures IsMultiple(y, d) {
      CommonDivides(x0, y0, y, s, t, d);
    }
  }

  lemma {:induction false} CommonDivides(x0: int, y0: int, y: int, s: int, t: int, d: int)
    requires y == s * x0 + t * y0 && IsMultiple(x0, d) && IsMultiple(y0, d)
    ensures IsMultiple(y, d)
  {
    var a :| x0 == a * d;
    var b :| y0 == b * d;
    assert s * (a * d) == (s * a) * d && t * (b * d) == (t * b) * d;
    assert y == (s * a + t * b) * d;
  }

  lemma {:induction false} EuclidStep(x0: int, y0: int, x: int, y: int, sx: int, tx: int, s: int, t: int)
    returns (q: int)
    requires EuclidState(x0, y0, x, y, sx, tx, s, t) && x % y != 0
    ensures EuclidState(x0, y0, y, x % y, s, t, sx - q * s, tx - q * t)
  {
    q := x / y;
    var r := x % y;
    assert r == x - q * y;
    Combination(x, y, q, x0, y0, sx, tx, s, t);
    forall d | d > 0 && IsMultiple(y, d) && IsMultiple(r, d) ensures IsMultiple(x0, d) && IsMultiple(y0, d) {
      EuclidDivisor(x, y, q, r, d);
    }
  }

  lemma {:induction false} EuclidDivisor(x: int, y: int, q: int, r: int, d: int)
    requires r == x - q * y && IsMultiple(y, d) && IsMultiple(r, d)
    ensures IsMultiple(x, d)
  {
    var k :| y == k * d;
    var l :| r == l * d;
    assert x == q * (k * d) + l * d == (q * k + l) * d;
  }

  lemma {:induction false} Combination(x: int, y: int, q: int, x0: int, y0: int, sx: int, tx: int, s: int, t: int)
    requires x == sx * x0 + tx * y0 && y == s * x0 + t * y0
    ensures x - q * y == (sx - q * s) * x0 + (tx - q * t) * y0
  {
    assert q * y == q * (s * x0) + q * (t * y0);
    assert (q * s) * x0 == q * (s * x0) && (q * t) * y0 == q * (t * y0);
  }

  method Lcm(x: int, y: int) returns (l: int)
    requires x > 0 && y > 0
    ensures IsLcm(x, y, l)
  {
    ghost var s, t;
    var g;
    g, s, t := Gcd(x, y);
    l := (x * y) / g;
    ghost var k :| x == k * g;
    ghost var m :| y == m * g;
    PositiveFactor(g, k);
    PositiveFactor(g, m);
    assert l == k * m * g by {
      assert x * y == (k * g) * (m * g) == (k * m * g) * g;
      DivideProduct(k * m * g, g);
    }
    assert k * m > 0 && l > 0;
    assert l == m * x && l == k * y;
    forall i, j | i > 0 && i * x == j * y ensures i * x >= l {
      LcmIsLeast(x, y, g, s, t, k, m, i, j);
    }
  }

  lemma {:induction false} LcmIsLeast(x: int, y: int, g: int, s: int, t: int, k: int, m: int, i: int, j: int)
    requires x > 0 && y > 0 && g > 0 && g == s * x + t * y && x == k * g && y == m * g
    requires i > 0 && i * x == j * y
    ensures i * x >= k * m * g
  {
    // i*g == i*s*x + i*t*y == (s*j + i*t)*y == (s*j + i*t)*m*g, so m divides i
    var c := s * j + i * t;
    calc {
      i * g;
      i * (s * x) + i * (t * y);
      s * (i * x) + (i * t) * y;
      s * (j * y) + (i * t) * y;
      c * y;
      c * (m * g);
      (c * m) * g;
    }
    assert i == c * m by { MulCancel(i, c * m, g); }
    assert c > 0 && m > 0 by { assert m * g > 0; assert c * m > 0; }
    assert i >= m by { assert (c - 1) * m >= 0; }
    assert i * x >= m * x;
    assert m * x == k * m * g;
  }

  // ---------- Huet's bounds ----------

  /** Take t units from v, left to right. */
  ghost function Take(v: Vector, t: int): (w: Vector)
    requires NonNegative(v) && t >= 0
    ensures |w| == |v| && NonNegative(w)
  {
    if |v| == 0 then [] else
      var h := if v[0] <= t then v[0] else t;
      [h] + Take(v[1..], t - h)
  }

  ghost function TakeHead(v: Vector, t: int): int
    requires |v| > 0
  {
    if v[0] <= t then v[0] else t
  }

  lemma {:induction false} TakeUnfold(c: Vector, v: Vector, t: int)
    requires |c| == |v| > 0 && NonNegative(v) && t >= 0
    ensures var h := TakeHead(v, t);
            Dot(c, Take(v, t)) == c[0] * h + Dot(c[1..], Take(v[1..], t - h))
  {
    assert Take(v, t)[1..] == Take(v[1..], t - TakeHead(v, t));
  }

  lemma {:induction false} TakeGrows(v: Vector, t: int, u: int)
    requires NonNegative(v) && 0 <= t <= u
    ensures Below(Take(v, t), Take(v, u)) && Below(Take(v, u), v)
  {
    if |v| > 0 {
      var h, k := TakeHead(v, t), TakeHead(v, u);
      TakeGrows(v[1..], t - h, u - k);
      BelowCons(h, k, Take(v[1..], t - h), Take(v[1..], u - k));
      BelowCons(k, v[0], Take(v[1..], u - k), v[1..]);
      assert v == [v[0]] + v[1..];
    }
  }

  lemma {:induction false} BelowCons(h: int, k: int, u: Vector, v: Vector)
    requires h <= k && Below(u, v)
    ensures Below([h] + u, [k] + v)
  {
  }

  lemma {:induction false} TakeWeight(c: Vector, v: Vector, t: int, u: int, bound: int)
    requires |c| == |v| && NonNegative(v) && Positive(c) && 0 <= t <= u <= Sum(v)
    requires forall i | 0 <= i < |c| :: c[i] <= bound
    ensures u - t <= Dot(c, Take(v, u)) - Dot(c, Take(v, t)) <= bound * (u - t)
  {
    if |v| > 0 {
      var h, k := TakeHead(v, t), TakeHead(v, u);
      var c2, v2 := c[1..], v[1..];
      SumNonNegative(v2);
      TakeWeight(c2, v2, t - h, u - k, bound);
      WeightedStep(c[0], bound, h, k, Dot(c2, Take(v2, t - h)), Dot(c2, Take(v2, u - k)), (u - k) - (t - h));
      TakeUnfold(c, v, t);
      TakeUnfold(c, v, u);
    }
  }

  /** Among n+1 numbers below n two are equal. */
  lemma {:induction false} Pigeonhole(s: seq<nat>, n: nat) returns (i: nat, j: nat)
    requires |s| == n + 1 && forall k | 0 <= k < |s| :: s[k] < n
    ensures i < j <= n && s[i] == s[j]
    decreases n
  {
    var last := s[n];
    if k :| 0 <= k < n && s[k] == last {
      i, j := k, n;
    } else {
      // no other element equals last: renumber n-1 to last and recurse
      assert n > 0 by { assert s[0] < n; }
      var r := seq(n, k requires 0 <= k < n => if s[k] == n - 1 then last else s[k]);
      assert forall k | 0 <= k < n :: r[k] < n - 1;
      i, j := Pigeonhole(r, n - 1);
      assert s[i] == s[j];
    }
  }

  /** If v has at least a units, some nonzero w <= v has weight k*a with k <= bound. */
  lemma {:induction false} Block(c: Vector, v: Vector, a: int, bound: int) returns (w: Vector, k: int)
    requires |c| == |v| && NonNegative(v) && Positive(c) && 1 <= a <= Sum(v)
    requires forall i | 0 <= i < |c| :: c[i] <= bound
    ensures Below(w, v) && NonNegative(w) && Dot(c, w) == k * a && 1 <= k <= bound
  {
    var residues := seq(a + 1, t requires 0 <= t <= a => Dot(c, Take(v, t)) % a);
    var i, j := Pigeonhole(residues, a);
    var low, high := Take(v, i), Take(v, j);
    TakeGrows(v, i, j);
    TakeWeight(c, v, i, j, bound);
    w := Minus(high, low);
    DotMinus(c, high, low);
    var x, y := Dot(c, high), Dot(c, low);
    assert residues[i] == y % a && residues[j] == x % a;
    assert bound >= 1 by { assert |c| > 0; assert c[0] > 0; }
    k := EqualResidues(x, y, a, j - i, bound);
  }

  lemma {:induction false} DotBound(c: Vector, v: Vector, bound: int)
    requires |c| == |v| && NonNegative(v) && forall i | 0 <= i < |c| :: c[i] <= bound
    ensures Dot(c, v) <= bound * Sum(v)
  {
    if |v| > 0 {
      DotBound(c[1..], v[1..], bound);
      assert c[0] * v[0] <= bound * v[0];
      assert bound * v[0] + bound * Sum(v[1..]) == bound * Sum(v);
    }
  }

  /** The vector with k at position i and zeros elsewhere. */
  ghost function Single(n: nat, i: nat, k: int): (v: Vector)
    requires i < n
    ensures |v| == n && v[i] == k && forall j | 0 <= j < n && j != i :: v[j] == 0
  {
    Zeros(n)[i := k]
  }

  lemma {:induction false} DotSingle(c: Vector, i: nat, k: int)
    requires i < |c|
    ensures Dot(c, Single(|c|, i, k)) == c[i] * k
  {
    DotZeros(c, Zeros(|c|));
    DotUpdate(c, Zeros(|c|), i, k);
  }

  lemma {:induction false} DotAtLeast(c: Vector, v: Vector, i: nat)
    requires |c| == |v| && NonNegative(v) && Positive(c) && i < |v|
    ensures c[i] * v[i] <= Dot(c, v)
  {
    DotSingle(c, i, v[i]);
    DotMonotone(c, Single(|v|, i, v[i]), v);
  }

  /** One side's contribution to an oversized solution: if c[i]*x[i] is the weight of v, and x[i]
      exceeds every coefficient of v's side, then v contains a block worth k < x[i] units of c[i]. */
  lemma {:induction false} Oversized(d: Vector, v: Vector, a: int, xi: int, bound: int) returns (w: Vector, k: int)
    requires |d| == |v| && NonNegative(v) && Positive(d) && a >= 1
    requires forall i | 0 <= i < |d| :: d[i] <= bound
    requires xi > bound >= 0 && a * xi <= Dot(d, v)
    ensures Below(w, v) && NonNegative(w) && Dot(d, w) == k * a && 1 <= k < xi
  {
    DotBound(d, v, bound);
    assert Sum(v) > a by {
      MulMonotone(bound + 1, xi, a);
      assert bound * (Sum(v) - a) == bound * Sum(v) - a * bound >= a;
      PositiveFactor(bound, Sum(v) - a);
    }
    w, k := Block(d, v, a, bound);
  }

  /** Huet's bound: no x_i of a minimal solution exceeds the largest b. */
  lemma {:induction false} LeftBound(p: Problem, v: Vector, i: nat, maxB: int)
    requires p.Valid() && Minimal(p, v) && i < |p.a|
    requires forall j | 0 <= j < |p.b| :: p.b[j] <= maxB
    requires maxB >= 0
    ensures v[i] <= maxB
  {
    if v[i] > maxB {
      var x, y := p.Left(v), p.Right(v);
      DotAtLeast(p.a, x, i);
      var w, k := Oversized(p.b, y, p.a[i], x[i], maxB);
      var s := Single(|p.a|, i, k);
      DotSingle(p.a, i, k);
      assert (s + w)[i] == k;
      SmallerSolution(p, v, s, w);
    }
  }

  /** ... and no y_j exceeds the largest a. */
  lemma {:induction false} RightBound(p: Problem, v: Vector, j: nat, maxA: int)
    requires p.Valid() && Minimal(p, v) && j < |p.b|
    requires forall i | 0 <= i < |p.a| :: p.a[i] <= maxA
    requires maxA >= 0
    ensures v[|p.a| + j] <= maxA
  {
    if v[|p.a| + j] > maxA {
      var x, y := p.Left(v), p.Right(v);
      DotAtLeast(p.b, y, j);
      var w, k := Oversized(p.a, x, p.b[j], y[j], maxA);
      var s := Single(|p.b|, j, k);
      DotSingle(p.b, j, k);
      assert (w + s)[|p.a| + j] == k;
      SmallerSolution(p, v, w, s);
    }
  }

  lemma {:induction false} SmallerSolution(p: Problem, v: Vector, x: Vector, y: Vector)
    requires p.Valid() && Minimal(p, v)
    requires Below(x, p.Left(v)) && Below(y, p.Right(v)) && NonNegative(x) && NonNegative(y)
    requires Dot(p.a, x) == Dot(p.b, y) && !ZeroFrom(x + y, 0)
    ensures x + y == v
  {
    var u := x + y;
    assert p.Left(u) == x && p.Right(u) == y;
    assert Below(u, v) by {
      forall i | 0 <= i < |u| ensures u[i] <= v[i] {
        if i >= |x| { assert v[i] == p.Right(v)[i - |x|]; }
      }
    }
    AllowedBelow(p.Constraints(), u, v);
    assert Solution(p, u);
  }

  // ---------- The special solutions S(i,j) ----------

  /** d = lcm(a,b)/a and e = lcm(a,b)/b. */
  ghost predicate Cofactors(a: int, b: int, d: int, e: int) {
    d > 0 && e > 0 && a * d == b * e && IsLcm(a, b, a * d)
  }

  ghost predicate Tables(p: Problem, d: seq<Vector>, e: seq<Vector>) {
    && |d| == |e| == |p.a|
    && (forall i | 0 <= i < |p.a| :: |d[i]| == |e[i]| == |p.b|)
    && forall i, j | 0 <= i < |p.a| && 0 <= j < |p.b| :: Cofactors(p.a[i], p.b[j], d[i][j], e[i][j])
  }

  /** v dominates the special solution of the pair (i, j). */
  ghost predicate SpecialAt(p: Problem, d: seq<Vector>, e: seq<Vector>, v: Vector, i: int, j: int)
    requires Tables(p, d, e) && |v| == p.Size() && 0 <= i < |p.a| && 0 <= j < |p.b|
  {
    v[i] >= d[i][j] && v[|p.a| + j] >= e[i][j]
  }

  ghost predicate Special(p: Problem, d: seq<Vector>, e: seq<Vector>, v: Vector)
    requires Tables(p, d, e) && |v| == p.Size()
  {
    exists i, j :: 0 <= i < |p.a| && 0 <= j < |p.b| && SpecialAt(p, d, e, v, i, j)
  }

  function SpecialSolution(m: nat, n: nat, i: nat, j: nat, dij: int, eij: int): Vector
    requires i < m && j < n
  {
    Zeros(m + n)[i := dij][m + j := eij]
  }

  lemma {:induction false} SinglePair(p: Problem, u: Vector, i: nat, j: nat)
    requires |u| == p.Size() && i < |p.a| && j < |p.b|
    requires forall k | 0 <= k < |u| && k != i && k != |p.a| + j :: u[k] == 0
    ensures Dot(p.a, p.Left(u)) == p.a[i] * u[i] && Dot(p.b, p.Right(u)) == p.b[j] * u[|p.a| + j]
  {
    assert p.Left(u) == Single(|p.a|, i, u[i]) && p.Right(u) == Single(|p.b|, j, u[|p.a| + j]);
    DotSingle(p.a, i, u[i]);
    DotSingle(p.b, j, u[|p.a| + j]);
  }

  lemma {:induction false} SpecialIsMinimal(p: Problem, d: seq<Vector>, e: seq<Vector>, i: nat, j: nat)
    requires p.Valid() && Tables(p, d, e) && i < |p.a| && j < |p.b|
    requires Allowed(p.Constraints(), SpecialSolution(|p.a|, |p.b|, i, j, d[i][j], e[i][j]))
    ensures Minimal(p, SpecialSolution(|p.a|, |p.b|, i, j, d[i][j], e[i][j]))
  {
    var s := SpecialSolution(|p.a|, |p.b|, i, j, d[i][j], e[i][j]);
    var a, b := p.a[i], p.b[j];
    SinglePair(p, s, i, j);
    assert s[i] > 0;
    assert Solution(p, s);
    forall u | Solution(p, u) && Below(u, s) ensures u == s {
      SinglePair(p, u, i, j);
      PairAtLeastLcm(a, b, d[i][j], e[i][j], u[i], u[|p.a| + j]);
      assert forall k | 0 <= k < |u| :: u[k] == s[k];
    }
  }

  lemma {:induction false} PairAtLeastLcm(a: int, b: int, d: int, e: int, x: int, y: int)
    requires a > 0 && b > 0 && Cofactors(a, b, d, e)
    requires x >= 0 && y >= 0 && a * x == b * y && (x > 0 || y > 0)
    ensures x >= d && y >= e
  {
    if x == 0 { MulCancel(y, 0, b); }
    assert x * a == y * b && x > 0;
    assert x * a >= a * d;
    if x < d { MulMonotone(x + 1, d, a); }
    if y < e { MulMonotone(y + 1, e, b); }
  }

  lemma {:induction false} SpecialMinimal(p: Problem, d: seq<Vector>, e: seq<Vector>, v: Vector, i: nat, j: nat)
    requires p.Valid() && Tables(p, d, e) && Minimal(p, v) && i < |p.a| && j < |p.b| && SpecialAt(p, d, e, v, i, j)
    ensures v == SpecialSolution(|p.a|, |p.b|, i, j, d[i][j], e[i][j])
  {
    var s := SpecialSolution(|p.a|, |p.b|, i, j, d[i][j], e[i][j]);
    assert d[i][j] > 0 && e[i][j] > 0 by { assert Cofactors(p.a[i], p.b[j], d[i][j], e[i][j]); }
    forall k | 0 <= k < |s| ensures 0 <= s[k] <= v[k] { }
    AllowedBelow(p.Constraints(), s, v);
    SpecialIsMinimal(p, d, e, i, j);
  }
}

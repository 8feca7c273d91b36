/** Huet's search for the basis of a homogeneous linear Diophantine equation: dio and its
    helpers (ladr/dioph.c).

    The search keeps its place in the arrays xy and max_y.  Two nested odometers run over
    the x part and the y part of xy, skipping everything above a vector that is out of bounds;
    the special solutions S(i,j), which the bounds exclude, are added at the end. */
module Dioph {
  import opened Vectors
  import opened Diophantine

  const MAX_BASIS: nat := 100

  ghost predicate Distinct(s: seq<Vector>) {
    forall i, j | 0 <= i < j < |s| :: s[i] != s[j]
  }

  // ---------- Constraint checks and the basis ----------

  method VarCheck1(cons: seq<int>, xy: array<int>, stop: nat) returns (ok: bool)
    requires stop <= |cons| && stop <= xy.Length
    ensures ok <==> AtMostOnce(cons[..stop], xy[..stop])
  {
    for i := 0 to stop
      invariant AtMostOnce(cons[..i], xy[..i])
    {
      if cons[i] != 0 && xy[i] > 1 {
        assert xy[..stop][i] == xy[i] && cons[..stop][i] == cons[i];
        return false;
      }
    }
    return true;
  }

  method VarCheck2(cons: seq<int>, xy: array<int>, stop: nat) returns (ok: bool)
    requires stop <= |cons| && stop <= xy.Length
    ensures ok <==> OneSymbol(cons[..stop], xy[..stop])
  {
    ghost var c, v := cons[..stop], xy[..stop];
    for i := 0 to stop
      invariant forall k, l | 0 <= k < l < stop && k < i ::
                  c[k] != 0 && v[k] != 0 && c[l] != 0 && v[l] != 0 ==> c[k] == c[l]
    {
      if cons[i] != 0 && xy[i] != 0 {
        for j := i + 1 to stop
          invariant forall l | i < l < j :: c[l] != 0 && v[l] != 0 ==> c[i] == c[l]
        {
          if cons[j] != 0 && xy[j] != 0 {
            if cons[j] != cons[i] {
              assert c[i] != 0 && v[i] != 0 && c[j] != 0 && v[j] != 0 && c[i] != c[j];
              return false;
            }
          }
        }
      }
    }
    return true;
  }

  /** Both checks over the whole vector. */
  method ConstraintsOk(cons: seq<int>, xy: array<int>) returns (ok: bool)
    requires xy.Length == |cons|
    ensures ok <==> Allowed(cons, xy[..])
  {
    assert cons[..xy.Length] == cons && xy[..xy.Length] == xy[..];
    var ok1 := VarCheck1(cons, xy, xy.Length);
    if !ok1 { return false; }
    ok := VarCheck2(cons, xy, xy.Length);
  }

  method LessVec(u: Vector, xy: array<int>) returns (below: bool)
    requires |u| == xy.Length
    ensures below <==> Below(u, xy[..])
  {
    for i := 0 to |u|
      invariant forall k | 0 <= k < i :: u[k] <= xy[k]
    {
      if u[i] > xy[i] {
        assert xy[..][i] == xy[i];
        return false;
      }
    }
    return true;
  }

  ghost predicate Dominated(basis: seq<Vector>, v: Vector) {
    exists w :: w in basis && Below(w, v)
  }

  method AddSolution(basis: seq<Vector>, xy: array<int>) returns (ok: bool, newBasis: seq<Vector>)
    requires forall w | w in basis :: |w| == xy.Length
    ensures Dominated(basis, xy[..]) ==> ok && newBasis == basis
    ensures !Dominated(basis, xy[..]) && |basis| >= MAX_BASIS ==> !ok && newBasis == basis
    ensures !Dominated(basis, xy[..]) && |basis| < MAX_BASIS ==> ok && newBasis == basis + [xy[..]]
  {
    for i := 0 to |basis|
      invariant forall k | 0 <= k < i :: !Below(basis[k], xy[..])
    {
      var less := LessVec(basis[i], xy);
      if less { return true, basis; }
    }
    if |basis| >= MAX_BASIS { return false, basis; }
    return true, basis + [xy[..]];
  }

  // ---------- Bounds ----------

  /** k is allowed as the j-th y value together with x: no special pair, at most maxA. */
  ghost predicate YAllowed(d: seq<Vector>, e: seq<Vector>, maxA: int, x: Vector, j: nat, k: int)
    requires |x| == |d| == |e| && forall i | 0 <= i < |x| :: j < |d[i]| && j < |e[i]|
  {
    k <= maxA && forall i | 0 <= i < |x| :: x[i] >= d[i][j] ==> k < e[i][j]
  }

  ghost predicate LargestY(d: seq<Vector>, e: seq<Vector>, maxA: int, x: Vector, j: nat, k: int)
    requires |x| == |d| == |e| && forall i | 0 <= i < |x| :: j < |d[i]| && j < |e[i]|
  {
    YAllowed(d, e, maxA, x, j, k) && forall l | YAllowed(d, e, maxA, x, j, l) :: l <= k
  }

  /** my holds the largest allowed y values. */
  ghost predicate YLimits(p: Problem, d: seq<Vector>, e: seq<Vector>, maxA: int, x: Vector, my: Vector)
    requires Tables(p, d, e) && |x| == |p.a|
  {
    |my| == |p.b| && forall j | 0 <= j < |p.b| :: LargestY(d, e, maxA, x, j, my[j])
  }

  /** The conditions checked for the x part: Huet's (a), the constraints, Huet's (b). */
  ghost predicate XInBounds(p: Problem, x: Vector, pos: nat, maxB: int, my: Vector)
    requires |x| == |p.a| && |my| == |p.b| && pos < |x|
  {
    x[pos] <= maxB && Allowed(p.aCons, x) && Dot(p.a, x) <= Dot(p.b, my)
  }

  method BuildMaxY(p: Problem, d: seq<Vector>, e: seq<Vector>, xy: array<int>, maxY: array<int>,
                   m: nat, n: nat, maxA: int)
    requires p.Valid() && |p.a| == m && |p.b| == n && Tables(p, d, e)
    requires xy.Length == maxY.Length == m + n && xy != maxY
    modifies maxY
    ensures YLimits(p, d, e, maxA, xy[..m], maxY[m..])
  {
    ghost var x := xy[..m];
    for j := 0 to n
      invariant xy[..m] == x
      invariant forall l | m <= l < m + j :: LargestY(d, e, maxA, x, l - m, maxY[l])
    {
      var y := maxA;
      for i := 0 to m
        invariant y <= maxA && forall k | 0 <= k < i :: x[k] >= d[k][j] ==> y < e[k][j]
        invariant forall k | YAllowed(d, e, maxA, x, j, k) :: k <= y
      {
        if xy[i] >= d[i][j] {
          var f := e[i][j] - 1;
          if f < y { y := f; }
        }
      }
      maxY[m + j] := y;
      assert LargestY(d, e, maxA, x, j, y);
    }
  }

  method AInBounds(p: Problem, d: seq<Vector>, e: seq<Vector>,
                   xy: array<int>, maxY: array<int>, m: nat, n: nat,
                   pos: nat, maxA: int, maxB: int, suma: int)
    returns (ok: bool)
    requires |p.a| == m && |p.b| == n && p.Valid() && Tables(p, d, e)
    requires xy.Length == maxY.Length == m + n && xy != maxY && pos < m
    requires suma == Dot(p.a, xy[..m])
    modifies maxY
    ensures ok ==> YLimits(p, d, e, maxA, xy[..m], maxY[m..]) && XInBounds(p, xy[..m], pos, maxB, maxY[m..])
    ensures !ok ==> forall my | YLimits(p, d, e, maxA, xy[..m], my) :: !XInBounds(p, xy[..m], pos, maxB, my)
  {
    if xy[pos] > maxB { return false; }
    assert p.aCons[..m] == p.aCons;
    var ok1 := VarCheck1(p.aCons, xy, m);
    if !ok1 { return false; }
    var ok2 := VarCheck2(p.aCons, xy, m);
    if !ok2 { return false; }
    BuildMaxY(p, d, e, xy, maxY, m, n, maxA);
    var bsum := WeightedLimits(p.b, maxY, m, n);
    forall my | YLimits(p, d, e, maxA, xy[..m], my) ensures my == maxY[m..] {
      LimitsUnique(p, d, e, maxA, xy[..m], my, maxY[m..]);
    }
    return suma <= bsum;
  }

  method WeightedLimits(b: Vector, maxY: array<int>, m: nat, n: nat) returns (bsum: int)
    requires |b| == n && maxY.Length == m + n
    ensures bsum == Dot(b, maxY[m..])
  {
    ghost var my := maxY[m..];
    bsum := 0;
    for j := 0 to n
      invariant bsum == Dot(b[..j], my[..j])
    {
      DotAppend(b, my, j);
      bsum := bsum + b[j] * maxY[m + j];
    }
    assert b[..n] == b && my[..n] == my;
  }

  lemma {:induction false} LimitsUnique(p: Problem, d: seq<Vector>, e: seq<Vector>, maxA: int, x: Vector, my: Vector,
      my2: Vector)
    requires Tables(p, d, e) && |x| == |p.a| && YLimits(p, d, e, maxA, x, my) && YLimits(p, d, e, maxA, x, my2)
    ensures my == my2
  {
    forall j | 0 <= j < |p.b| ensures my[j] == my2[j] {
      assert LargestY(d, e, maxA, x, j, my[j]) && LargestY(d, e, maxA, x, j, my2[j]);
    }
  }

  lemma {:induction false} DotAppend(c: Vector, v: Vector, j: nat)
    requires |c| == |v| && j < |v|
    ensures Dot(c[..j + 1], v[..j + 1]) == Dot(c[..j], v[..j]) + c[j] * v[j]
  {
    if j > 0 {
      DotAppend(c[1..], v[1..], j - 1);
      assert c[..j + 1][1..] == c[1..][..j] && v[..j + 1][1..] == v[1..][..j];
      assert c[..j][1..] == c[1..][..j - 1] && v[..j][1..] == v[1..][..j - 1];
    }
  }

  /** An x part out of bounds rules out every larger minimal solution except special ones. */
  lemma {:induction false} XPruning(p: Problem, d: seq<Vector>, e: seq<Vector>, maxA: int, maxB: int, x: Vector,
      pos: nat, my: Vector, v: Vector)
    requires p.Valid() && Tables(p, d, e) && |x| == |p.a| && pos < |x|
    requires Maxima(p, maxA, maxB)
    requires YLimits(p, d, e, maxA, x, my) && !XInBounds(p, x, pos, maxB, my) && NonNegative(x)
    requires Minimal(p, v) && Below(x, p.Left(v))
    ensures Special(p, d, e, v)
  {
    if !Special(p, d, e, v) {
      LeftBound(p, v, pos, maxB);
      AllowedLeft(p, v);
      AllowedBelow(p.aCons, x, p.Left(v));
      YWithinLimits(p, d, e, maxA, maxB, x, my, v);
      DotMonotone(p.a, x, p.Left(v));
      DotMonotone(p.b, p.Right(v), my);
    }
  }

  ghost predicate Maxima(p: Problem, maxA: int, maxB: int) {
    maxA >= 0 && maxB >= 0 &&
    (forall i | 0 <= i < |p.a| :: p.a[i] <= maxA) && (forall j | 0 <= j < |p.b| :: p.b[j] <= maxB)
  }

  lemma {:induction false} YWithinLimits(p: Problem, d: seq<Vector>, e: seq<Vector>, maxA: int, maxB: int, x: Vector,
      my: Vector, v: Vector)
    requires p.Valid() && Tables(p, d, e) && |x| == |p.a| && Maxima(p, maxA, maxB)
    requires YLimits(p, d, e, maxA, x, my)
    requires Minimal(p, v) && Below(x, p.Left(v)) && !Special(p, d, e, v)
    ensures Below(p.Right(v), my)
  {
    forall j | 0 <= j < |p.b| ensures p.Right(v)[j] <= my[j] {
      RightBound(p, v, j, maxA);
      forall i | 0 <= i < |x| && x[i] >= d[i][j] ensures v[|p.a| + j] < e[i][j] {
        assert x[i] <= p.Left(v)[i] == v[i];
        assert !SpecialAt(p, d, e, v, i, j);
      }
      assert LargestY(d, e, maxA, x, j, my[j]);
      assert YAllowed(d, e, maxA, x, j, v[|p.a| + j]);
    }
  }

  /** Assign one position of xy; the contract says what becomes of its x and y parts. */
  method SetPosition(xy: array<int>, m: nat, pos: nat, value: int)
    requires m <= xy.Length && pos < xy.Length
    modifies xy
    ensures pos < m ==> xy[..m] == old(xy[..m])[pos := value] && xy[m..] == old(xy[m..])
    ensures pos >= m ==> xy[..m] == old(xy[..m]) && xy[m..] == old(xy[m..])[pos - m := value]
    ensures xy[..] == xy[..m] + xy[m..]
  {
    xy[pos] := value;
  }

  // ---------- The inner search: y parts for a fixed x part ----------

  ghost predicate Basis(p: Problem, basis: seq<Vector>) {
    Distinct(basis) && |basis| <= MAX_BASIS && forall w | w in basis :: Minimal(p, w)
  }

  ghost predicate TooMany(p: Problem) {
    exists s: seq<Vector> :: |s| == MAX_BASIS + 1 && Distinct(s) && forall w | w in s :: Minimal(p, w)
  }

  ghost predicate Wanted(p: Problem, d: seq<Vector>, e: seq<Vector>, v: Vector)
    requires Tables(p, d, e)
  {
    Minimal(p, v) && !Special(p, d, e, v)
  }

  /** Everything wanted is found already or has an x part still to come. */
  ghost predicate XDone(p: Problem, d: seq<Vector>, e: seq<Vector>, basis: seq<Vector>, x: Vector, pos: int)
    requires Tables(p, d, e)
  {
    forall v | Wanted(p, d, e, v) :: v in basis || Pending(x, pos, p.Left(v))
  }

  ghost predicate YDone(p: Problem, d: seq<Vector>, e: seq<Vector>, basis: seq<Vector>, x: Vector, y: Vector, pos: int)
    requires Tables(p, d, e)
  {
    forall v | Wanted(p, d, e, v) ::
      v in basis || Pending(x, |x| - 1, p.Left(v)) || (p.Left(v) == x && Pending(y, pos, p.Right(v)))
  }

  method BInBounds(xy: array<int>, maxY: array<int>, cons: seq<int>, pos: nat, suma: int, sumb: int)
    returns (ok: bool)
    requires xy.Length == maxY.Length == |cons| && pos < xy.Length
    ensures ok <==> sumb <= suma && xy[pos] <= maxY[pos] && Allowed(cons, xy[..])
  {
    if sumb <= suma && xy[pos] <= maxY[pos] {
      ok := ConstraintsOk(cons, xy);
    } else {
      ok := false;
    }
  }

  lemma {:induction false} JoinParts(p: Problem, v: Vector, x: Vector, y: Vector)
    requires |v| == p.Size() && |x| == |p.a| && p.Left(v) == x && p.Right(v) == y
    ensures v == x + y
  {
    assert v == v[..|p.a|] + v[|p.a|..];
  }

  lemma {:induction false} YAdvance(p: Problem, d: seq<Vector>, e: seq<Vector>, basis: seq<Vector>, x: Vector,
      y: Vector, pos: nat)
    requires p.Valid() && Tables(p, d, e) && |x| == |p.a| && |y| == |p.b| && pos < |y| && ZeroFrom(y, pos + 1)
    requires YDone(p, d, e, basis, x, y, pos)
    requires Dot(p.b, Bump(y, pos)) != Dot(p.a, x)
    ensures YDone(p, d, e, basis, x, Bump(y, pos), |y| - 1)
  {
    forall v | Wanted(p, d, e, v) && p.Left(v) == x && Pending(y, pos, p.Right(v))
      ensures Pending(Bump(y, pos), |y| - 1, p.Right(v))
    {
      PendingAdvance(y, pos, p.Right(v));
    }
  }

  lemma {:induction false} YBackUp(p: Problem, d: seq<Vector>, e: seq<Vector>, basis: seq<Vector>, x: Vector,
      y: Vector, pos: nat)
    requires p.Valid() && Tables(p, d, e) && |x| == |p.a| && |y| == |p.b| && pos < |y| && ZeroFrom(y, pos + 1)
    requires YDone(p, d, e, basis, x, y, pos)
    requires forall v | Wanted(p, d, e, v) && p.Left(v) == x && Below(Bump(y, pos), p.Right(v)) :: v in basis
    ensures YDone(p, d, e, basis, x, y[pos := 0], pos - 1)
  {
    forall v | Wanted(p, d, e, v) && p.Left(v) == x && Pending(y, pos, p.Right(v))
      ensures v in basis || Pending(y[pos := 0], pos - 1, p.Right(v))
    {
      PendingBackUp(y, pos, p.Right(v));
    }
  }

  /** A y part out of bounds rules out every larger wanted solution with this x part. */
  lemma {:induction false} YPruning(p: Problem, d: seq<Vector>, e: seq<Vector>, maxA: int, maxB: int,
                 x: Vector, y: Vector, pos: nat, my: Vector, v: Vector)
    requires p.Valid() && Tables(p, d, e) && Maxima(p, maxA, maxB)
    requires |x| == |p.a| && |y| == |p.b| && pos < |y| && NonNegative(x) && NonNegative(y)
    requires YLimits(p, d, e, maxA, x, my)
    requires Wanted(p, d, e, v) && p.Left(v) == x && Below(y, p.Right(v))
    ensures Dot(p.b, y) <= Dot(p.a, x) && y[pos] <= my[pos] && Allowed(p.Constraints(), x + y)
  {
    YWithinLimits(p, d, e, maxA, maxB, x, my, v);
    DotMonotone(p.b, y, p.Right(v));
    assert y[pos] <= p.Right(v)[pos] <= my[pos];
    JoinParts(p, v, x, p.Right(v));
    AllowedBelow(p.Constraints(), x + y, v);
  }

  /** A solution met by the search that nothing in the basis dominates is minimal, because
      smaller vectors come first. */
  lemma {:induction false} NewIsMinimal(p: Problem, d: seq<Vector>, e: seq<Vector>, maxA: int, basis: seq<Vector>,
                     x: Vector, y: Vector, pos: nat, my: Vector)
    requires p.Valid() && Tables(p, d, e)
    requires |x| == |p.a| && |y| == |p.b| && pos < |y| && ZeroFrom(y, pos + 1)
    requires YLimits(p, d, e, maxA, x, my) && Below(Bump(y, pos), my)
    requires YDone(p, d, e, basis, x, y, pos)
    requires Solution(p, x + Bump(y, pos)) && !Dominated(basis, x + Bump(y, pos))
    ensures Minimal(p, x + Bump(y, pos))
  {
    var b := Bump(y, pos);
    var v := x + b;
    var u := MinimalBelow(p, v);
    assert p.Left(v) == x && p.Right(v) == b;
    assert Below(p.Left(u), x) && Below(p.Right(u), b);
    NotSpecialBelow(p, d, e, maxA, x, my, u);
    assert u !in basis;
    NotPendingBelow(x, |x| - 1, p.Left(u));
    assert p.Left(u) == x && Pending(y, pos, p.Right(u));
    if p.Right(u) != b { BelowIsNotPending(y, pos, p.Right(u)); }
    JoinParts(p, u, x, b);
  }

  lemma {:induction false} NotSpecialBelow(p: Problem, d: seq<Vector>, e: seq<Vector>, maxA: int, x: Vector,
      my: Vector, u: Vector)
    requires Tables(p, d, e) && |x| == |p.a| && |u| == p.Size()
    requires YLimits(p, d, e, maxA, x, my) && Below(p.Left(u), x) && Below(p.Right(u), my)
    ensures !Special(p, d, e, u)
  {
    forall i, j | 0 <= i < |p.a| && 0 <= j < |p.b| ensures !SpecialAt(p, d, e, u, i, j) {
      assert u[i] == p.Left(u)[i] <= x[i] && u[|p.a| + j] == p.Right(u)[j] <= my[j];
      assert LargestY(d, e, maxA, x, j, my[j]);
    }
  }

  lemma {:induction false} OneTooMany(p: Problem, basis: seq<Vector>, v: Vector)
    requires Basis(p, basis) && |basis| == MAX_BASIS && Minimal(p, v) && v !in basis
    ensures TooMany(p)
  {
    var s := basis + [v];
    assert Distinct(s) && forall w | w in s :: Minimal(p, w);
  }

  /** The whole inner state: what the y odometer has established so far. */
  ghost predicate YState(p: Problem, d: seq<Vector>, e: seq<Vector>, basis: seq<Vector>,
                         x: Vector, y: Vector, pos: int, my: Vector, sumb: int)
    requires p.Valid() && Tables(p, d, e)
  {
    && |x| == |p.a| && |y| == |p.b| == |my| && -1 <= pos < |y|
    && ZeroFrom(y, pos + 1) && NonNegative(y) && Below(y, my)
    && sumb == Dot(p.b, y)
    && Basis(p, basis) && YDone(p, d, e, basis, x, y, pos)
  }

  lemma {:induction false} YBackUpState(p: Problem, d: seq<Vector>, e: seq<Vector>, basis: seq<Vector>,
                     x: Vector, y: Vector, pos: nat, my: Vector, maxA: int, sumb: int, digit: int, sumb2: int)
    requires p.Valid() && Tables(p, d, e) && pos < |p.b| && |x| == |p.a|
    requires YState(p, d, e, basis, x, y, pos, my, sumb)
    requires digit == y[pos] + 1 && sumb2 == sumb + p.b[pos] - digit * p.b[pos]
    requires YLimits(p, d, e, maxA, x, my) && maxA >= 0
    requires forall v | Wanted(p, d, e, v) && p.Left(v) == x && Below(Bump(y, pos), p.Right(v)) :: v in basis
    ensures YState(p, d, e, basis, x, y[pos := 0], pos - 1, my, sumb2)
  {
    LimitsNonNegative(p, d, e, maxA, x, my);
    YBackUp(p, d, e, basis, x, y, pos);
    DotClear(p.b, y, pos, digit);
  }

  lemma {:induction false} YAdvanceState(p: Problem, d: seq<Vector>, e: seq<Vector>, basis: seq<Vector>,
                      x: Vector, y: Vector, pos: nat, my: Vector, sumb: int)
    requires p.Valid() && Tables(p, d, e) && pos < |p.b| && |x| == |p.a|
    requires YState(p, d, e, basis, x, y, pos, my, sumb)
    requires Bump(y, pos)[pos] <= my[pos] && sumb + p.b[pos] != Dot(p.a, x)
    ensures YState(p, d, e, basis, x, Bump(y, pos), |y| - 1, my, sumb + p.b[pos])
  {
    DotUpdate(p.b, y, pos, y[pos] + 1);
    YAdvance(p, d, e, basis, x, y, pos);
  }

  lemma {:induction false} FoundSolution(p: Problem, d: seq<Vector>, e: seq<Vector>, basis: seq<Vector>,
                      x: Vector, y: Vector, pos: nat, v: Vector)
    requires p.Valid() && Tables(p, d, e) && |x| == |p.a| && |y| == |p.b| && pos < |y|
    requires Dot(p.a, x) == Dot(p.b, Bump(y, pos))
    requires Wanted(p, d, e, v) && p.Left(v) == x && Below(Bump(y, pos), p.Right(v))
    ensures v == x + Bump(y, pos)
  {
    DotMonotone(p.b, Bump(y, pos), p.Right(v));
    JoinParts(p, v, x, Bump(y, pos));
  }

  /** Clearing a digit that was just counted up takes digit * c[pos] off the counted sum. */
  lemma {:induction false} DotClear(c: Vector, v: Vector, pos: nat, digit: int)
    requires |c| == |v| && pos < |v| && digit == v[pos] + 1
    ensures Dot(c, v[pos := 0]) == Dot(c, v) + c[pos] - digit * c[pos]
  {
    DotUpdate(c, v, pos, 0);
  }

  /** One turn of the inner loop: count up at pos, test, then either start again at the last
      position or clear pos and move left. */
  method StepY(p: Problem, ghost d: seq<Vector>, ghost e: seq<Vector>,
               xy: array<int>, maxY: array<int>, m: nat, n: nat, suma: int,
               ghost maxA: int, ghost maxB: int, pos0: nat, sumb0: int, basis0: seq<Vector>)
    returns (ok: bool, pos: int, sumb: int, basis: seq<Vector>)
    requires |p.a| == m && |p.b| == n && p.Valid() && Tables(p, d, e) && m <= pos0 < m + n
    requires xy.Length == maxY.Length == m + n && xy != maxY && Maxima(p, maxA, maxB)
    requires NonNegative(xy[..m]) && !ZeroFrom(xy[..m], 0) && suma == Dot(p.a, xy[..m])
    requires YLimits(p, d, e, maxA, xy[..m], maxY[m..])
    requires YState(p, d, e, basis0, xy[..m], xy[m..], pos0 - m, maxY[m..], sumb0)
    modifies xy
    ensures ok ==> m - 1 <= pos < m + n && xy[..m] == old(xy[..m])
    ensures ok ==> YState(p, d, e, basis, xy[..m], xy[m..], pos - m, maxY[m..], sumb)
    ensures ok ==> Remaining(xy[m..], pos - m, maxA + 1) < Remaining(old(xy[m..]), pos0 - m, maxA + 1)
    ensures !ok ==> TooMany(p)
  {
    ghost var x, y, my, q := xy[..m], xy[m..], maxY[m..], pos0 - m;
    YProgress(p, d, e, maxA, x, y, q, my);
    var inBounds;
    inBounds, sumb := CountY(p, d, e, xy, maxY, m, suma, maxA, maxB, pos0, sumb0, x, y, my);
    ok, basis := true, basis0;
    if inBounds && suma != sumb {
      YAdvanceState(p, d, e, basis, x, y, q, my, sumb0);
      pos := m + n - 1;
    } else {
      if inBounds { ok, basis := RecordSolution(p, d, e, xy, x, y, q, my, maxA, basis); }
      if ok { sumb := ClearY(p, d, e, xy, m, maxA, pos0, sumb, basis, x, y, my); }
      pos := pos0 - 1;
    }
  }

  method CountY(p: Problem, ghost d: seq<Vector>, ghost e: seq<Vector>, xy: array<int>, maxY: array<int>, m: nat,
                suma: int, ghost maxA: int, ghost maxB: int, pos: nat, sumb: int,
                ghost x: Vector, ghost y: Vector, ghost my: Vector)
    returns (inBounds: bool, sum: int)
    requires |p.a| == m && p.Valid() && Tables(p, d, e) && m <= pos < m + |p.b| && Maxima(p, maxA, maxB)
    requires xy.Length == maxY.Length == p.Size() && xy != maxY
    requires xy[..m] == x && xy[m..] == y && maxY[m..] == my
    requires NonNegative(x) && NonNegative(y) && YLimits(p, d, e, maxA, x, my)
    requires suma == Dot(p.a, x) && sumb == Dot(p.b, y)
    modifies xy
    ensures sum == sumb + p.b[pos - m] == Dot(p.b, Bump(y, pos - m))
    ensures xy[..m] == x && xy[m..] == Bump(y, pos - m) && xy[..] == x + Bump(y, pos - m)
    ensures inBounds ==> sum <= suma && Bump(y, pos - m)[pos - m] <= my[pos - m]
    ensures inBounds ==> Allowed(p.Constraints(), x + Bump(y, pos - m))
    ensures !inBounds ==> forall v | Wanted(p, d, e, v) && p.Left(v) == x :: !Below(Bump(y, pos - m), p.Right(v))
  {
    ghost var q := pos - m;
    DotUpdate(p.b, y, q, y[q] + 1);
    SetPosition(xy, m, pos, xy[pos] + 1);
    sum := sumb + p.b[pos - m];
    assert xy[pos] == Bump(y, q)[q] && maxY[pos] == my[q];
    inBounds := BInBounds(xy, maxY, p.Constraints(), pos, suma, sum);
    if !inBounds { NothingAbove(p, d, e, maxA, maxB, x, y, q, my); }
  }

  method ClearY(p: Problem, ghost d: seq<Vector>, ghost e: seq<Vector>, xy: array<int>, m: nat, ghost maxA: int,
                pos: nat, sumb: int, ghost basis: seq<Vector>, ghost x: Vector, ghost y: Vector, ghost my: Vector)
    returns (sum: int)
    requires |p.a| == m && p.Valid() && Tables(p, d, e) && m <= pos < m + |p.b| && xy.Length == p.Size()
    requires |x| == m && YLimits(p, d, e, maxA, x, my) && maxA >= 0
    requires YState(p, d, e, basis, x, y, pos - m, my, sumb - p.b[pos - m])
    requires xy[..m] == x && xy[m..] == Bump(y, pos - m)
    requires forall v | Wanted(p, d, e, v) && p.Left(v) == x && Below(Bump(y, pos - m), p.Right(v)) :: v in basis
    modifies xy
    ensures xy[..m] == x && xy[m..] == y[pos - m := 0]
    ensures YState(p, d, e, basis, x, y[pos - m := 0], pos - m - 1, my, sum)
  {
    assert xy[pos] == Bump(y, pos - m)[pos - m];
    sum := sumb - xy[pos] * p.b[pos - m];
    YBackUpState(p, d, e, basis, x, y, pos - m, my, maxA, sumb - p.b[pos - m], xy[pos], sum);
    SetPosition(xy, m, pos, 0);
  }

  method EnumerateY(p: Problem, ghost d: seq<Vector>, ghost e: seq<Vector>,
                    xy: array<int>, maxY: array<int>, m: nat, n: nat, suma: int,
                    ghost maxA: int, ghost maxB: int, basis0: seq<Vector>)
    returns (ok: bool, basis: seq<Vector>)
    requires |p.a| == m && |p.b| == n > 0 && p.Valid() && Tables(p, d, e)
    requires xy.Length == maxY.Length == m + n && xy != maxY && Maxima(p, maxA, maxB)
    requires NonNegative(xy[..m]) && !ZeroFrom(xy[..m], 0) && suma == Dot(p.a, xy[..m])
    requires ZeroFrom(xy[m..], 0)
    requires YLimits(p, d, e, maxA, xy[..m], maxY[m..])
    requires Basis(p, basis0)
    requires forall v | Wanted(p, d, e, v) ::
               v in basis0 || p.Left(v) == xy[..m] || Pending(xy[..m], m - 1, p.Left(v))
    modifies xy
    ensures ok ==> xy[..m] == old(xy[..m]) && ZeroFrom(xy[m..], 0)
    ensures ok ==> Basis(p, basis) && XDone(p, d, e, basis, xy[..m], m - 1)
    ensures !ok ==> TooMany(p)
  {
    ghost var x, my := xy[..m], maxY[m..];
    basis := basis0;
    var pos := m + n - 1;
    var sumb := 0;
    InitialYState(p, d, e, basis, x, xy[m..], my, maxA);
    while pos >= m
      invariant m - 1 <= pos < m + n
      invariant xy[..m] == x && maxY[m..] == my
      invariant YState(p, d, e, basis, x, xy[m..], pos - m, my, sumb)
      decreases Remaining(xy[m..], pos - m, maxA + 1)
    {
      ok, pos, sumb, basis := StepY(p, d, e, xy, maxY, m, n, suma, maxA, maxB, pos, sumb, basis);
      if !ok { return; }
    }
    ok := true;
  }

  lemma {:induction false} YProgress(p: Problem, d: seq<Vector>, e: seq<Vector>, maxA: int, x: Vector, y: Vector,
      q: nat, my: Vector)
    requires Tables(p, d, e) && |x| == |p.a| && |y| == |p.b| && q < |y|
    requires YLimits(p, d, e, maxA, x, my) && Below(y, my) && NonNegative(y) && ZeroFrom(y, q + 1)
    ensures Remaining(Bump(y, q), |y| - 1, maxA + 1) < Remaining(y, q, maxA + 1)
    ensures Remaining(y[q := 0], q - 1, maxA + 1) < Remaining(y, q, maxA + 1)
  {
    LimitsBound(p, d, e, maxA, x, my, y);
    RemainingShrinks(y, q, maxA + 1);
  }

  lemma {:induction false} NothingAbove(p: Problem, d: seq<Vector>, e: seq<Vector>, maxA: int, maxB: int,
                     x: Vector, y: Vector, q: nat, my: Vector)
    requires p.Valid() && Tables(p, d, e) && Maxima(p, maxA, maxB)
    requires |x| == |p.a| && |y| == |p.b| && q < |y| && NonNegative(x) && NonNegative(y)
    requires YLimits(p, d, e, maxA, x, my)
    requires !(Dot(p.b, Bump(y, q)) <= Dot(p.a, x) && Bump(y, q)[q] <= my[q] &&
              Allowed(p.Constraints(), x + Bump(y, q)))
    ensures forall v | Wanted(p, d, e, v) && p.Left(v) == x :: !Below(Bump(y, q), p.Right(v))
  {
    forall v | Wanted(p, d, e, v) && p.Left(v) == x ensures !Below(Bump(y, q), p.Right(v)) {
      if Below(Bump(y, q), p.Right(v)) { YPruning(p, d, e, maxA, maxB, x, Bump(y, q), q, my, v); }
    }
  }

  method RecordSolution(ghost p: Problem, ghost d: seq<Vector>, ghost e: seq<Vector>, xy: array<int>,
                        ghost x: Vector, ghost y: Vector, ghost q: nat, ghost my: Vector, ghost maxA: int,
                        before: seq<Vector>)
    returns (ok: bool, basis: seq<Vector>)
    requires p.Valid() && Tables(p, d, e)
    requires |x| == |p.a| && |y| == |p.b| && q < |y| && ZeroFrom(y, q + 1) && NonNegative(x) && NonNegative(y)
    requires xy[..] == x + Bump(y, q) && !ZeroFrom(x, 0)
    requires YLimits(p, d, e, maxA, x, my) && Below(Bump(y, q), my)
    requires Basis(p, before) && YDone(p, d, e, before, x, y, q)
    requires Dot(p.a, x) == Dot(p.b, Bump(y, q)) && Allowed(p.Constraints(), x + Bump(y, q))
    ensures ok ==> Basis(p, basis) && YDone(p, d, e, basis, x, y, q)
    ensures ok ==> forall v | Wanted(p, d, e, v) && p.Left(v) == x && Below(Bump(y, q), p.Right(v)) :: v in basis
    ensures !ok ==> TooMany(p)
  {
    ghost var v0 := x + Bump(y, q);
    SearchSolution(p, x, Bump(y, q));
    if !Dominated(before, v0) { NewIsMinimal(p, d, e, maxA, before, x, y, q, my); }
    ok, basis := AddSolution(before, xy);
    if ok {
      KeptBasis(p, before, basis, v0);
      forall v | Wanted(p, d, e, v) && p.Left(v) == x && Below(Bump(y, q), p.Right(v)) ensures v in basis {
        FoundSolution(p, d, e, basis, x, y, q, v);
      }
    } else {
      assert v0 !in before by { assert Below(v0, v0); }
      OneTooMany(p, before, v0);
    }
  }

  lemma {:induction false} InitialYState(p: Problem, d: seq<Vector>, e: seq<Vector>, basis: seq<Vector>,
                      x: Vector, y: Vector, my: Vector, maxA: int)
    requires p.Valid() && Tables(p, d, e) && |x| == |p.a| && |y| == |p.b| > 0 && ZeroFrom(y, 0)
    requires YLimits(p, d, e, maxA, x, my) && maxA >= 0 && Basis(p, basis)
    requires forall v | Wanted(p, d, e, v) :: v in basis || p.Left(v) == x || Pending(x, |x| - 1, p.Left(v))
    ensures YState(p, d, e, basis, x, y, |y| - 1, my, 0)
  {
    DotZeros(p.b, y);
    LimitsNonNegative(p, d, e, maxA, x, my);
    forall v | Wanted(p, d, e, v) && p.Left(v) == x ensures Pending(y, |y| - 1, p.Right(v)) {
      var w := p.Right(v);
      SolutionHasBothParts(p, v);
      FirstNonZero(w, 0);
      var r :| 0 <= r < |w| && w[r] > 0 && forall i | 0 <= i < r :: w[i] == 0;
      assert w[..r] == y[..r];
      assert PendingAt(y, r, w);
    }
  }

  lemma {:induction false} SolutionHasBothParts(p: Problem, v: Vector)
    requires p.Valid() && Solution(p, v)
    ensures !ZeroFrom(p.Left(v), 0) && !ZeroFrom(p.Right(v), 0)
  {
    var x, y := p.Left(v), p.Right(v);
    var zx, zy := Zeros(|x|), Zeros(|y|);
    DotZeros(p.a, zx);
    DotZeros(p.b, zy);
    DotMonotone(p.a, zx, x);
    DotMonotone(p.b, zy, y);
    JoinParts(p, v, x, y);
    assert ZeroFrom(x, 0) ==> x == zx;
    assert ZeroFrom(y, 0) ==> y == zy;
    assert ZeroFrom(x, 0) && ZeroFrom(y, 0) ==> ZeroFrom(v, 0);
  }

  lemma {:induction false} LimitsNonNegative(p: Problem, d: seq<Vector>, e: seq<Vector>, maxA: int, x: Vector,
      my: Vector)
    requires Tables(p, d, e) && |x| == |p.a| && YLimits(p, d, e, maxA, x, my) && maxA >= 0
    ensures NonNegative(my)
  {
    forall j | 0 <= j < |my| ensures my[j] >= 0 {
      assert LargestY(d, e, maxA, x, j, my[j]);
      assert forall i | 0 <= i < |x| :: Cofactors(p.a[i], p.b[j], d[i][j], e[i][j]);
      assert YAllowed(d, e, maxA, x, j, 0);
    }
  }

  lemma {:induction false} LimitsBound(p: Problem, d: seq<Vector>, e: seq<Vector>, maxA: int, x: Vector, my: Vector,
      y: Vector)
    requires Tables(p, d, e) && |x| == |p.a| && YLimits(p, d, e, maxA, x, my) && Below(y, my)
    ensures forall j | 0 <= j < |y| :: y[j] < maxA + 1
  {
    forall j | 0 <= j < |y| ensures y[j] < maxA + 1 { assert LargestY(d, e, maxA, x, j, my[j]); }
  }

  lemma {:induction false} SearchSolution(p: Problem, x: Vector, y: Vector)
    requires |x| == |p.a| && |y| == |p.b| && NonNegative(x) && NonNegative(y) && !ZeroFrom(x, 0)
    requires Dot(p.a, x) == Dot(p.b, y) && Allowed(p.Constraints(), x + y)
    ensures Solution(p, x + y)
  {
    var v := x + y;
    assert p.Left(v) == x && p.Right(v) == y;
    var i :| 0 <= i < |x| && x[i] != 0;
    assert v[i] != 0;
  }

  lemma {:induction false} KeptBasis(p: Problem, before: seq<Vector>, after: seq<Vector>, v: Vector)
    requires Basis(p, before) && Solution(p, v)
    requires Dominated(before, v) ==> after == before
    requires !Dominated(before, v) ==> |before| < MAX_BASIS && after == before + [v] && Minimal(p, v)
    ensures Basis(p, after) && forall w | w in before :: w in after
    ensures Minimal(p, v) ==> v in after
  {
    if Dominated(before, v) {
      var w :| w in before && Below(w, v);
      assert Minimal(p, v) ==> w == v;
    } else {
      assert v !in before;
    }
  }

  // ---------- The whole search ----------

  method BuildTables(p: Problem) returns (d: seq<Vector>, e: seq<Vector>)
    requires p.Valid()
    ensures Tables(p, d, e)
  {
    d, e := [], [];
    for i := 0 to |p.a|
      invariant |d| == |e| == i
      invariant forall k | 0 <= k < i :: |d[k]| == |e[k]| == |p.b|
      invariant forall k, j | 0 <= k < i && 0 <= j < |p.b| :: Cofactors(p.a[k], p.b[j], d[k][j], e[k][j])
    {
      var di, ei: Vector := [], [];
      for j := 0 to |p.b|
        invariant |di| == |ei| == j
        invariant forall k | 0 <= k < j :: Cofactors(p.a[i], p.b[k], di[k], ei[k])
      {
        var a, b := p.a[i], p.b[j];
        var t := Lcm(a, b);
        CofactorsOfLcm(a, b, t);
        di := di + [t / a];
        ei := ei + [t / b];
      }
      d, e := d + [di], e + [ei];
    }
  }

  lemma {:induction false} CofactorsOfLcm(a: int, b: int, t: int)
    requires a > 0 && b > 0 && IsLcm(a, b, t)
    ensures Cofactors(a, b, t / a, t / b)
  {
    var k :| t == k * a;
    var l :| t == l * b;
    DivideProduct(k, a);
    DivideProduct(l, b);
    PositiveFactor(a, k);
    PositiveFactor(b, l);
  }

  method Maximum(v: Vector) returns (max: int)
    requires Positive(v)
    ensures max >= 0 && (forall i | 0 <= i < |v| :: v[i] <= max) && (|v| > 0 ==> max in v)
  {
    max := 0;
    for i := 0 to |v|
      invariant max >= 0 && (forall k | 0 <= k < i :: v[k] <= max) && (if i == 0 then max == 0 else max in v)
    {
      assert v[i] > 0;
      if v[i] > max { max := v[i]; }
    }
  }

  /** The outer state: x odometer at pos, y part clear. */
  ghost predicate XState(p: Problem, d: seq<Vector>, e: seq<Vector>, basis: seq<Vector>,
                         x: Vector, y: Vector, pos: int, maxB: int, suma: int)
    requires Tables(p, d, e)
  {
    && |x| == |p.a| && |y| == |p.b| && -1 <= pos < |x|
    && ZeroFrom(x, pos + 1) && NonNegative(x) && ZeroFrom(y, 0)
    && (forall i | 0 <= i < |x| :: x[i] <= maxB)
    && suma == Dot(p.a, x)
    && Basis(p, basis) && XDone(p, d, e, basis, x, pos)
  }

  lemma {:induction false} XAdvance(p: Problem, d: seq<Vector>, e: seq<Vector>, basis: seq<Vector>, x: Vector,
      pos: nat, v: Vector)
    requires p.Valid() && Tables(p, d, e) && |x| == |p.a| && pos < |x| && ZeroFrom(x, pos + 1)
    requires XDone(p, d, e, basis, x, pos) && Wanted(p, d, e, v)
    ensures v in basis || p.Left(v) == Bump(x, pos) || Pending(Bump(x, pos), |x| - 1, p.Left(v))
  {
    if v !in basis { PendingAdvance(x, pos, p.Left(v)); }
  }

  lemma {:induction false} XBackUpState(p: Problem, d: seq<Vector>, e: seq<Vector>, basis: seq<Vector>,
                     x: Vector, y: Vector, pos: nat, maxA: int, maxB: int, my: Vector,
                     suma: int, digit: int, suma2: int)
    requires p.Valid() && Tables(p, d, e) && Maxima(p, maxA, maxB) && pos < |p.a|
    requires XState(p, d, e, basis, x, y, pos, maxB, suma)
    requires digit == x[pos] + 1 && suma2 == suma + p.a[pos] - digit * p.a[pos]
    requires YLimits(p, d, e, maxA, Bump(x, pos), my) && !XInBounds(p, Bump(x, pos), pos, maxB, my)
    ensures XState(p, d, e, basis, x[pos := 0], y, pos - 1, maxB, suma2)
  {
    DotClear(p.a, x, pos, digit);
    XBackUp(p, d, e, basis, x, pos, maxA, maxB, my);
  }

  lemma {:induction false} XBackUp(p: Problem, d: seq<Vector>, e: seq<Vector>, basis: seq<Vector>,
                x: Vector, pos: nat, maxA: int, maxB: int, my: Vector)
    requires p.Valid() && Tables(p, d, e) && Maxima(p, maxA, maxB) && |x| == |p.a| && pos < |x|
    requires NonNegative(x) && ZeroFrom(x, pos + 1) && XDone(p, d, e, basis, x, pos)
    requires YLimits(p, d, e, maxA, Bump(x, pos), my) && !XInBounds(p, Bump(x, pos), pos, maxB, my)
    ensures XDone(p, d, e, basis, x[pos := 0], pos - 1)
  {
    forall v | Wanted(p, d, e, v) && v !in basis ensures Pending(x[pos := 0], pos - 1, p.Left(v)) {
      PendingBackUp(x, pos, p.Left(v));
      if Below(Bump(x, pos), p.Left(v)) { XPruning(p, d, e, maxA, maxB, Bump(x, pos), pos, my, v); }
    }
  }

  lemma {:induction false} LimitsExist(p: Problem, d: seq<Vector>, e: seq<Vector>, maxA: int, x: Vector)
    returns (my: Vector)
    requires p.Valid() && Tables(p, d, e) && |x| == |p.a|
    ensures YLimits(p, d, e, maxA, x, my)
  {
    my := [];
    for j := 0 to |p.b|
      invariant |my| == j && forall l | 0 <= l < j :: LargestY(d, e, maxA, x, l, my[l])
    {
      var y := maxA;
      for i := 0 to |p.a|
        invariant y <= maxA && forall k | 0 <= k < i :: x[k] >= d[k][j] ==> y < e[k][j]
        invariant forall k | YAllowed(d, e, maxA, x, j, k) :: k <= y
      {
        if x[i] >= d[i][j] && e[i][j] - 1 < y { y := e[i][j] - 1; }
      }
      assert LargestY(d, e, maxA, x, j, y);
      my := my + [y];
    }
  }

  method ClearX(p: Problem, ghost d: seq<Vector>, ghost e: seq<Vector>, xy: array<int>, m: nat,
                ghost maxA: int, ghost maxB: int, pos: nat, suma: int, ghost basis: seq<Vector>, ghost x: Vector,
                    ghost y: Vector)
    returns (sum: int)
    requires |p.a| == m && p.Valid() && Tables(p, d, e) && pos < m && xy.Length == p.Size() && Maxima(p, maxA, maxB)
    requires XState(p, d, e, basis, x, y, pos, maxB, suma - p.a[pos])
    requires xy[..m] == Bump(x, pos) && xy[m..] == y
    requires forall my | YLimits(p, d, e, maxA, Bump(x, pos), my) :: !XInBounds(p, Bump(x, pos), pos, maxB, my)
    modifies xy
    ensures xy[..m] == x[pos := 0] && xy[m..] == y
    ensures XState(p, d, e, basis, x[pos := 0], y, pos - 1, maxB, sum)
  {
    assert xy[pos] == Bump(x, pos)[pos];
    ghost var my := LimitsExist(p, d, e, maxA, Bump(x, pos));
    sum := suma - xy[pos] * p.a[pos];
    XBackUpState(p, d, e, basis, x, y, pos, maxA, maxB, my, suma - p.a[pos], xy[pos], sum);
    SetPosition(xy, m, pos, 0);
  }

  /** One turn of the outer loop. */
  method StepX(p: Problem, d: seq<Vector>, e: seq<Vector>, xy: array<int>, maxY: array<int>, m: nat, n: nat,
               maxA: int, maxB: int, pos0: nat, suma0: int, basis0: seq<Vector>)
    returns (ok: bool, pos: int, suma: int, basis: seq<Vector>)
    requires |p.a| == m && |p.b| == n > 0 && p.Valid() && Tables(p, d, e) && pos0 < m
    requires xy.Length == maxY.Length == m + n && xy != maxY && Maxima(p, maxA, maxB)
    requires XState(p, d, e, basis0, xy[..m], xy[m..], pos0, maxB, suma0)
    modifies xy, maxY
    ensures ok ==> -1 <= pos < m && XState(p, d, e, basis, xy[..m], xy[m..], pos, maxB, suma)
    ensures ok ==> Remaining(xy[..m], pos, maxB + 1) < Remaining(old(xy[..m]), pos0, maxB + 1)
    ensures !ok ==> TooMany(p)
  {
    ghost var x, y := xy[..m], xy[m..];
    ghost var x1 := Bump(x, pos0);
    RemainingShrinks(x, pos0, maxB + 1);
    DotUpdate(p.a, x, pos0, x[pos0] + 1);
    basis := basis0;
    SetPosition(xy, m, pos0, xy[pos0] + 1);
    suma := suma0 + p.a[pos0];
    assert xy[pos0] == x1[pos0] == x[pos0] + 1;
    var inBounds := AInBounds(p, d, e, xy, maxY, m, n, pos0, maxA, maxB, suma);
    if inBounds {
      forall v | Wanted(p, d, e, v) ensures v in basis || p.Left(v) == x1 || Pending(x1, m - 1, p.Left(v)) {
        XAdvance(p, d, e, basis, x, pos0, v);
      }
      ok, basis := EnumerateY(p, d, e, xy, maxY, m, n, suma, maxA, maxB, basis);
      pos := m - 1;
    } else {
      suma := ClearX(p, d, e, xy, m, maxA, maxB, pos0, suma, basis, x, y);
      pos := pos0 - 1;
      ok := true;
    }
  }

  ghost predicate SpecialsDone(p: Problem, d: seq<Vector>, e: seq<Vector>, basis: seq<Vector>, i: nat, j: nat)
    requires Tables(p, d, e)
  {
    forall v, k, l | Minimal(p, v) && 0 <= k < |p.a| && 0 <= l < |p.b| && (k < i || (k == i && l < j))
                     && SpecialAt(p, d, e, v, k, l) :: v in basis
  }

  lemma {:induction false} SpecialsCovered(p: Problem, d: seq<Vector>, e: seq<Vector>, i: nat, j: nat,
      basis: seq<Vector>)
    requires p.Valid() && Tables(p, d, e) && i < |p.a| && j < |p.b|
    requires var s := SpecialSolution(|p.a|, |p.b|, i, j, d[i][j], e[i][j]);
             Minimal(p, s) ==> s in basis
    ensures forall v | Minimal(p, v) && SpecialAt(p, d, e, v, i, j) :: v in basis
  {
    forall v | Minimal(p, v) && SpecialAt(p, d, e, v, i, j) ensures v in basis {
      SpecialMinimal(p, d, e, v, i, j);
    }
  }

  /** Try to add S(i,j). */
  method AddSpecial(p: Problem, d: seq<Vector>, e: seq<Vector>, xy: array<int>, i: nat, j: nat, before: seq<Vector>)
    returns (ok: bool, basis: seq<Vector>)
    requires p.Valid() && Tables(p, d, e) && i < |p.a| && j < |p.b|
    requires xy.Length == p.Size() && xy[..] == Zeros(p.Size())
    requires Basis(p, before)
    modifies xy
    ensures ok ==> xy[..] == Zeros(p.Size()) && Basis(p, basis) && (forall w | w in before :: w in basis)
    ensures ok ==> forall v | Minimal(p, v) && SpecialAt(p, d, e, v, i, j) :: v in basis
    ensures !ok ==> TooMany(p)
  {
    var m := |p.a|;
    ghost var s := SpecialSolution(|p.a|, |p.b|, i, j, d[i][j], e[i][j]);
    xy[i] := d[i][j];
    xy[m + j] := e[i][j];
    assert xy[..] == s;
    ok, basis := true, before;
    var allowed := ConstraintsOk(p.Constraints(), xy);
    if allowed {
      SpecialIsMinimal(p, d, e, i, j);
      ok, basis := AddSolution(before, xy);
      if !ok {
        assert s !in before by { assert Below(s, s); }
        OneTooMany(p, before, s);
        return;
      }
      KeptBasis(p, before, basis, s);
    }
    SpecialsCovered(p, d, e, i, j, basis);
    xy[i] := 0;
    xy[m + j] := 0;
    assert xy[..] == Zeros(p.Size());
  }

  lemma {:induction false} SpecialsStep(p: Problem, d: seq<Vector>, e: seq<Vector>, before: seq<Vector>,
      after: seq<Vector>, i: nat, j: nat)
    requires Tables(p, d, e) && i < |p.a| && j < |p.b| && SpecialsDone(p, d, e, before, i, j)
    requires forall w | w in before :: w in after
    requires forall v | Minimal(p, v) && SpecialAt(p, d, e, v, i, j) :: v in after
    ensures SpecialsDone(p, d, e, after, i, j + 1)
  {
  }

  method AddSpecials(p: Problem, d: seq<Vector>, e: seq<Vector>, xy: array<int>, basis0: seq<Vector>)
    returns (ok: bool, basis: seq<Vector>)
    requires p.Valid() && Tables(p, d, e)
    requires xy.Length == p.Size() && xy[..] == Zeros(p.Size())
    requires Basis(p, basis0)
    requires forall v | Wanted(p, d, e, v) :: v in basis0
    modifies xy
    ensures ok ==> Basis(p, basis) && forall v | Minimal(p, v) :: v in basis
    ensures !ok ==> TooMany(p)
  {
    basis := basis0;
    for i := 0 to |p.a|
      invariant xy[..] == Zeros(p.Size()) && Basis(p, basis) && forall w | w in basis0 :: w in basis
      invariant SpecialsDone(p, d, e, basis, i, 0)
    {
      for j := 0 to |p.b|
        invariant xy[..] == Zeros(p.Size()) && Basis(p, basis) && forall w | w in basis0 :: w in basis
        invariant SpecialsDone(p, d, e, basis, i, j)
      {
        ghost var before := basis;
        ok, basis := AddSpecial(p, d, e, xy, i, j, basis);
        if !ok { return; }
        SpecialsStep(p, d, e, before, basis, i, j);
      }
    }
    ok := true;
  }

  /** The basis of minimal solutions.  Result 1: the basis holds every minimal solution within
      the constraints exactly once, and nothing else.  Result -1: there are more than MAX_BASIS. */
  method Dio(p: Problem) returns (r: int, basis: seq<Vector>)
    requires p.Valid()
    ensures r == 1 || r == -1
    ensures r == 1 ==> Distinct(basis) && |basis| <= MAX_BASIS && forall v :: v in basis <==> Minimal(p, v)
    ensures r == -1 ==> TooMany(p)
  {
    var m, n := |p.a|, |p.b|;
    basis := [];
    if m == 0 || n == 0 {
      forall v ensures !Solution(p, v) {
        if Solution(p, v) { SolutionHasBothParts(p, v); }
      }
      return 1, basis;
    }
    var d, e := BuildTables(p);
    var maxA := Maximum(p.a);
    var maxB := Maximum(p.b);
    var xy := new int[m + n](_ => 0);
    var maxY := new int[m + n](_ => 0);
    var pos, suma, ok := m - 1, 0, true;
    InitialXState(p, d, e, xy[..m], xy[m..], maxB);
    while pos >= 0
      invariant -1 <= pos < m && XState(p, d, e, basis, xy[..m], xy[m..], pos, maxB, suma)
      decreases Remaining(xy[..m], pos, maxB + 1)
      modifies xy, maxY
    {
      ok, pos, suma, basis := StepX(p, d, e, xy, maxY, m, n, maxA, maxB, pos, suma, basis);
      if !ok { return -1, basis; }
    }
    assert xy[..] == xy[..m] + xy[m..] == Zeros(p.Size());
    ok, basis := AddSpecials(p, d, e, xy, basis);
    return if ok then 1 else -1, basis;
  }

  lemma {:induction false} InitialXState(p: Problem, d: seq<Vector>, e: seq<Vector>, x: Vector, y: Vector, maxB: int)
    requires p.Valid() && Tables(p, d, e) && |x| == |p.a| > 0 && |y| == |p.b| && maxB >= 0
    requires ZeroFrom(x, 0) && ZeroFrom(y, 0)
    ensures XState(p, d, e, [], x, y, |x| - 1, maxB, 0)
  {
    DotZeros(p.a, x);
    forall v | Wanted(p, d, e, v) ensures Pending(x, |x| - 1, p.Left(v)) {
      var w := p.Left(v);
      SolutionHasBothParts(p, v);
      FirstNonZero(w, 0);
      var r :| 0 <= r < |w| && w[r] > 0 && forall i | 0 <= i < r :: w[i] == 0;
      assert w[..r] == x[..r];
      assert PendingAt(x, r, w);
    }
  }
}

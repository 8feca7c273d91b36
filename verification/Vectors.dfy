/** Integer vectors and the odometer that enumerates them, used by the Diophantine
    solver (ladr/dioph.c). */
module Vectors {

  type Vector = seq<int>

  ghost predicate NonNegative(v: Vector) {
    forall i | 0 <= i < |v| :: v[i] >= 0
  }

  ghost predicate Positive(v: Vector) {
    forall i | 0 <= i < |v| :: v[i] > 0
  }

  /** Componentwise order; the solver's less_vec. */
  ghost predicate Below(u: Vector, v: Vector) {
    |u| == |v| && forall i | 0 <= i < |u| :: u[i] <= v[i]
  }

  ghost predicate ZeroFrom(v: Vector, p: int) {
    forall i | p <= i < |v| && 0 <= i :: v[i] == 0
  }

  function Zeros(n: nat): (v: Vector)
    ensures |v| == n && forall i | 0 <= i < n :: v[i] == 0
  {
    seq(n, i => 0)
  }

  function Dot(c: Vector, v: Vector): int
    requires |c| == |v|
  {
    if |v| == 0 then 0 else c[0] * v[0] + Dot(c[1..], v[1..])
  }

  function Sum(v: Vector): int {
    if |v| == 0 then 0 else v[0] + Sum(v[1..])
  }

  function Minus(u: Vector, v: Vector): (w: Vector)
    requires |u| == |v|
    ensures |w| == |u| && forall i | 0 <= i < |u| :: w[i] == u[i] - v[i]
  {
    seq(|u|, i requires 0 <= i < |u| => u[i] - v[i])
  }

  lemma {:induction false} DotUpdate(c: Vector, v: Vector, i: nat, x: int)
    requires |c| == |v| && i < |v|
    ensures Dot(c, v[i := x]) == Dot(c, v) + c[i] * (x - v[i])
  {
    var w := v[i := x];
    if i == 0 {
      assert w[1..] == v[1..];
    } else {
      assert w[1..] == v[1..][i - 1 := x];
      DotUpdate(c[1..], v[1..], i - 1, x);
    }
  }

  lemma {:induction false} DotZeros(c: Vector, v: Vector)
    requires |c| == |v| && ZeroFrom(v, 0)
    ensures Dot(c, v) == 0
  {
    if |v| > 0 { DotZeros(c[1..], v[1..]); }
  }

  lemma {:induction false} DotMinus(c: Vector, u: Vector, v: Vector)
    requires |c| == |u| == |v|
    ensures Dot(c, Minus(u, v)) == Dot(c, u) - Dot(c, v)
  {
    if |u| > 0 {
      assert Minus(u, v)[1..] == Minus(u[1..], v[1..]);
      DotMinus(c[1..], u[1..], v[1..]);
    }
  }

  /** With positive coefficients Dot is strictly monotone. */
  lemma {:induction false} DotMonotone(c: Vector, u: Vector, v: Vector)
    requires |c| == |u| && Positive(c) && Below(u, v)
    ensures Dot(c, u) <= Dot(c, v)
    ensures Dot(c, u) == Dot(c, v) ==> u == v
  {
    if |u| > 0 {
      DotMonotone(c[1..], u[1..], v[1..]);
      assert c[0] * u[0] <= c[0] * v[0] && (c[0] * u[0] == c[0] * v[0] ==> u[0] == v[0]) by {
        assert c[0] * (v[0] - u[0]) >= 0 && (c[0] * (v[0] - u[0]) == 0 ==> v[0] == u[0]);
      }
      assert u == [u[0]] + u[1..] && v == [v[0]] + v[1..];
    }
  }

  lemma {:induction false} SumMonotone(u: Vector, v: Vector)
    requires Below(u, v)
    ensures Sum(u) <= Sum(v)
    ensures Sum(u) == Sum(v) ==> u == v
  {
    if |u| > 0 {
      SumMonotone(u[1..], v[1..]);
      assert u == [u[0]] + u[1..] && v == [v[0]] + v[1..];
    }
  }

  lemma {:induction false} SumNonNegative(v: Vector)
    requires NonNegative(v)
    ensures Sum(v) >= 0
  {
    if |v| > 0 { SumNonNegative(v[1..]); }
  }

  // ---------- The odometer ----------

  /** The state (w, p) of an odometer whose digits right of p are zero has yet to visit w2:
      w2 agrees with w up to some q <= p and is larger there. */
  ghost predicate Pending(w: Vector, p: int, w2: Vector) {
    |w2| == |w| && exists q :: 0 <= q <= p < |w| && PendingAt(w, q, w2)
  }

  ghost predicate PendingAt(w: Vector, q: int, w2: Vector)
    requires 0 <= q < |w| == |w2|
  {
    w2[..q] == w[..q] && w2[q] > w[q]
  }

  function Bump(w: Vector, p: int): Vector
    requires 0 <= p < |w|
  {
    w[p := w[p] + 1]
  }

  lemma {:induction false} FirstNonZero(w: Vector, p: int)
    requires 0 <= p <= |w| && NonNegative(w)
    ensures ZeroFrom(w, p) || exists q :: p <= q < |w| && w[q] > 0 && forall i | p <= i < q :: w[i] == 0
    decreases |w| - p
  {
    if p < |w| && w[p] == 0 { FirstNonZero(w, p + 1); }
  }

  /** Moving on after visiting Bump(w, p): nothing pending is lost except that vector. */
  lemma {:induction false} PendingAdvance(w: Vector, p: int, w2: Vector)
    requires 0 <= p < |w| && ZeroFrom(w, p + 1) && NonNegative(w2)
    requires Pending(w, p, w2)
    ensures w2 == Bump(w, p) || Pending(Bump(w, p), |w| - 1, w2)
  {
    var b := Bump(w, p);
    var q :| 0 <= q <= p && PendingAt(w, q, w2);
    if q < p {
      assert b[..q] == w[..q];
      assert PendingAt(b, q, w2);
    } else if w2[p] > b[p] {
      assert b[..p] == w[..p];
      assert PendingAt(b, p, w2);
    } else {
      FirstNonZero(w2, p + 1);
      assert forall i | 0 <= i < p :: w2[i] == w2[..p][i] == w[..p][i] == b[i];
      if ZeroFrom(w2, p + 1) {
        assert w2 == b;
      } else {
        var r :| p + 1 <= r < |w| && w2[r] > 0 && forall i | p + 1 <= i < r :: w2[i] == 0;
        assert w2[..r] == b[..r];
        assert PendingAt(b, r, w2);
      }
    }
  }

  /** Backing up at p skips only vectors above Bump(w, p). */
  lemma {:induction false} PendingBackUp(w: Vector, p: int, w2: Vector)
    requires 0 <= p < |w| && ZeroFrom(w, p + 1) && NonNegative(w2)
    requires Pending(w, p, w2)
    ensures Below(Bump(w, p), w2) || Pending(w[p := 0], p - 1, w2)
  {
    var q :| 0 <= q <= p && PendingAt(w, q, w2);
    if q < p {
      assert w[p := 0][..q] == w[..q];
      assert PendingAt(w[p := 0], q, w2);
    } else {
      assert forall i | 0 <= i < p :: w2[i] == w2[..p][i] == w[..p][i] == w[i];
    }
  }

  /** Smaller vectors are visited first. */
  lemma {:induction false} BelowIsNotPending(w: Vector, p: int, u: Vector)
    requires 0 <= p < |w| && ZeroFrom(w, p + 1) && NonNegative(u)
    requires Below(u, Bump(w, p)) && u != Bump(w, p)
    ensures !Pending(w, p, u)
  {
    if Pending(w, p, u) {
      var q :| 0 <= q <= p && PendingAt(w, q, u);
      assert q == p;
      forall i | 0 <= i < |u| ensures u[i] == Bump(w, p)[i] {
        if i < p { assert u[i] == u[..p][i] == w[..p][i]; }
      }
    }
  }

  lemma {:induction false} NotPendingBelow(w: Vector, p: int, u: Vector)
    requires Below(u, w)
    ensures !Pending(w, p, u)
  {
  }

  ghost function Box(n: nat, bound: int): (s: set<Vector>) {
    if n == 0 then {[]} else set v, x | v in Box(n - 1, bound) && 0 <= x <= bound :: v + [x]
  }

  lemma {:induction false} InBox(v: Vector, bound: int)
    requires forall i | 0 <= i < |v| :: 0 <= v[i] <= bound
    ensures v in Box(|v|, bound)
  {
    if |v| > 0 {
      var init, x := v[..|v| - 1], v[|v| - 1];
      InBox(init, bound);
      assert v == init + [x];
    }
  }

  /** What is left to visit inside a box; it shrinks at every step of the odometer. */
  ghost function Remaining(w: Vector, p: int, bound: int): set<Vector> {
    set w2 | w2 in Box(|w|, bound) && Pending(w, p, w2)
  }

  lemma {:induction false} RemainingShrinks(w: Vector, p: int, bound: int)
    requires 0 <= p < |w| && ZeroFrom(w, p + 1)
    requires forall i | 0 <= i < |w| :: 0 <= w[i] < bound
    ensures Remaining(Bump(w, p), |w| - 1, bound) < Remaining(w, p, bound)
    ensures Remaining(w[p := 0], p - 1, bound) < Remaining(w, p, bound)
  {
    var b := Bump(w, p);
    InBox(b, bound);
    assert b[..p] == w[..p];
    assert PendingAt(w, p, b);
    NotPendingBelow(b, |w| - 1, b);
    assert b in Remaining(w, p, bound);
    forall w2 | w2 in Box(|w|, bound) && Pending(b, |w| - 1, w2) ensures Pending(w, p, w2) {
      BumpPending(w, p, w2);
    }
    forall w2 | w2 in Box(|w|, bound) && Pending(w[p := 0], p - 1, w2) ensures Pending(w, p, w2) && w2 != b {
      BackUpPending(w, p, w2);
      assert Pending(w, p - 1, w2);
    }
  }

  lemma {:induction false} BackUpPending(w: Vector, p: int, w2: Vector)
    requires 0 <= p < |w| && Pending(w[p := 0], p - 1, w2)
    ensures Pending(w, p, w2) && Pending(w, p - 1, w2)
  {
    var q :| 0 <= q <= p - 1 && PendingAt(w[p := 0], q, w2);
    assert w[p := 0][..q] == w[..q];
    assert PendingAt(w, q, w2);
  }

  lemma {:induction false} BumpPending(w: Vector, p: int, w2: Vector)
    requires 0 <= p < |w| && Pending(Bump(w, p), |w| - 1, w2)
    ensures Pending(w, p, w2)
  {
    var b := Bump(w, p);
    var q :| 0 <= q <= |w| - 1 && PendingAt(b, q, w2);
    if q <= p {
      assert b[..q] == w[..q];
      assert PendingAt(w, q, w2);
    } else {
      assert w2[p] == w2[..q][p] == b[..q][p] == b[p];
      assert w2[..p] == w2[..q][..p] == b[..q][..p] == w[..p];
      assert PendingAt(w, p, w2);
    }
  }
}

/** The backtracking test whether a clause subsumes another (ladr/di_tree.c). */
module Subsume {
  import opened Options
  import opened Terms

  /** One literal of c can become one of d by extending the substitution. */
  function Try(c: Literal, d: Literal, s: Subst): Option<Subst> {
    if c.sign == d.sign then Match(c.atom, d.atom, s) else None
  }

  /** Every literal of c becomes a literal of d under an extension of s. */
  predicate Sub(c: seq<Literal>, d: seq<Literal>, s: Subst)
    decreases |c|, |d| + 1
  {
    |c| == 0 || SubFrom(c, d, s, 0)
  }

  /** The same, with the first literal of c going to d[j] or later. */
  predicate SubFrom(c: seq<Literal>, d: seq<Literal>, s: Subst, j: nat)
    requires |c| > 0
    decreases |c|, if j > |d| then 0 else |d| - j
  {
    j < |d| && ((Try(c[0], d[j], s).Some? && Sub(c[1..], d, Try(c[0], d[j], s).value)) || SubFrom(c, d, s, j + 1))
  }

  // ---------- What it means ----------

  ghost predicate Maps(c: seq<Literal>, d: seq<Literal>, s: Subst) {
    forall i | 0 <= i < |c| :: Vars(c[i].atom) <= s.Keys && Literal(c[i].sign, Apply(c[i].atom, s)) in d
  }

  lemma {:induction false} SubSound(c: seq<Literal>, d: seq<Literal>, s: Subst) returns (s2: Subst)
    requires Sub(c, d, s)
    ensures SubMap(s, s2) && Maps(c, d, s2)
    decreases |c|, |d| + 1
  {
    s2 := s;
    if |c| > 0 { s2 := SubFromSound(c, d, s, 0); }
  }

  lemma {:induction false} SubFromSound(c: seq<Literal>, d: seq<Literal>, s: Subst, j: nat) returns (s2: Subst)
    requires |c| > 0 && SubFrom(c, d, s, j)
    ensures SubMap(s, s2) && Maps(c, d, s2)
    decreases |c|, if j > |d| then 0 else |d| - j
  {
    if Try(c[0], d[j], s).Some? && Sub(c[1..], d, Try(c[0], d[j], s).value) {
      var s1 := Try(c[0], d[j], s).value;
      MatchSound(c[0].atom, d[j].atom, s);
      s2 := SubSound(c[1..], d, s1);
      SubMapTransitive(s, s1, s2);
      ApplyAgree(c[0].atom, s1, s2);
      assert Literal(c[0].sign, Apply(c[0].atom, s2)) == d[j];
      forall i | 0 <= i < |c| ensures Vars(c[i].atom) <= s2.Keys && Literal(c[i].sign, Apply(c[i].atom, s2)) in d {
        if i > 0 { assert c[i] == c[1..][i - 1]; }
      }
    } else {
      s2 := SubFromSound(c, d, s, j + 1);
    }
  }

  lemma {:induction false} SubComplete(c: seq<Literal>, d: seq<Literal>, s: Subst, s3: Subst)
    requires SubMap(s, s3) && Maps(c, d, s3)
    ensures Sub(c, d, s)
    decreases |c|, |d| + 1
  {
    if |c| > 0 {
      var l := Literal(c[0].sign, Apply(c[0].atom, s3));
      var k :| 0 <= k < |d| && d[k] == l;
      SubFromComplete(c, d, s, 0, k, s3);
    }
  }

  lemma {:induction false} SubFromComplete(c: seq<Literal>, d: seq<Literal>, s: Subst, j: nat, k: nat, s3: Subst)
    requires |c| > 0 && j <= k < |d| && SubMap(s, s3) && Maps(c, d, s3)
    requires d[k] == Literal(c[0].sign, Apply(c[0].atom, s3))
    ensures SubFrom(c, d, s, j)
    decreases |c|, |d| - j
  {
    if j < k {
      SubFromComplete(c, d, s, j + 1, k, s3);
    } else {
      MatchComplete(c[0].atom, d[k].atom, s, s3);
      assert forall i | 0 <= i < |c| - 1 :: c[1..][i] == c[i + 1];
      SubComplete(c[1..], d, Match(c[0].atom, d[k].atom, s).value, s3);
    }
  }

  /** The test accepts exactly when some instance of c has all its literals in d. */
  lemma {:induction false} SubMeans(c: seq<Literal>, d: seq<Literal>)
    ensures Sub(c, d, map[]) <==> exists s :: Maps(c, d, s)
  {
    if Sub(c, d, map[]) { var s := SubSound(c, d, map[]); }
    if exists s :: Maps(c, d, s) {
      var s :| Maps(c, d, s);
      SubComplete(c, d, map[], s);
    }
  }

  // ---------- The search ----------

  /** A literal of c, where to go on in d, and the substitution before it was matched. */
  datatype Frames = Bottom | Frame(k: nat, j: nat, s: Subst, below: Frames)

  ghost predicate FramesOk(fr: Frames, n: nat) {
    fr.Frame? ==> fr.k < n && FramesOk(fr.below, n)
  }

  /** Whether backtracking finds a way. */
  ghost predicate Resume(c: seq<Literal>, d: seq<Literal>, fr: Frames)
    requires FramesOk(fr, |c|)
  {
    fr.Frame? && (SubFrom(c[fr.k..], d, fr.s, fr.j) || Resume(c, d, fr.below))
  }

  function Power(b: nat, m: nat): (p: nat)
    ensures p > 0
  {
    if m == 0 then 1 else Power(b, m - 1) + b * Power(b, m - 1)
  }

  /** Bound on the steps from literal k of n at d[j]. */
  function Steps(n: nat, w: nat, k: nat, j: nat): nat
    requires k < n
  {
    (if j > w then 0 else w - j) * Power(w + 1, n - k) + Power(w + 1, n - k)
  }

  ghost function StepsLeft(n: nat, w: nat, fr: Frames): nat
    requires FramesOk(fr, n)
  {
    match fr
    case Bottom => 0
    case Frame(k, j, s, below) => Steps(n, w, k, j) + StepsLeft(n, w, below)
  }

  lemma {:induction false} PushSteps(n: nat, w: nat, k: nat, j: nat, found: nat)
    requires k + 1 < n && j <= found < w
    ensures Steps(n, w, k, found + 1) + Steps(n, w, k + 1, 0) < Steps(n, w, k, j)
  {
    var p, q := Power(w + 1, n - k), Power(w + 1, n - k - 1);
    assert p == q + (w + 1) * q;
    assert (w - (found + 1)) * p + p == (w - found) * p;
    assert (w - found) * p <= (w - j) * p;
    assert w * q + q == (w + 1) * q;
  }

  method SubsumeDiLiterals(c: seq<Literal>, d: seq<Literal>) returns (b: bool)
    ensures b == Sub(c, d, map[])
  {
    if |c| == 0 { return true; }
    var k, j, s, stack := 0, 0, map[], Bottom;
    assert c[0..] == c;
    while true
      invariant 0 <= k < |c| && 0 <= j && FramesOk(stack, |c|)
      invariant Sub(c, d, map[]) == (SubFrom(c[k..], d, s, j) || Resume(c, d, stack))
      decreases Steps(|c|, |d|, k, j) + StepsLeft(|c|, |d|, stack)
    {
      var r, s2 := NextMatch(c[k], d, s, j);
      SkipTo(c[k..], d, s, j, r);
      if r < |d| {
        assert c[k..][1..] == c[k + 1..];
        if k + 1 == |c| { return true; }
        PushSteps(|c|, |d|, k, j, r);
        k, j, s, stack := k + 1, 0, s2, Frame(k, r + 1, s, stack);
      } else if stack.Frame? {
        k, j, s, stack := stack.k, stack.j, stack.s, stack.below;
      } else {
        return false;
      }
    }
  }

  /** The first literal of d from j on that l can become, |d| if none. */
  method NextMatch(l: Literal, d: seq<Literal>, s: Subst, j: nat) returns (r: nat, s2: Subst)
    ensures j <= r && (j <= |d| ==> r <= |d|)
    ensures forall i | j <= i < r && i < |d| :: Try(l, d[i], s).None?
    ensures r < |d| ==> Try(l, d[r], s) == Some(s2)
  {
    r, s2 := j, s;
    while r < |d|
      invariant j <= r && (j <= |d| ==> r <= |d|)
      invariant forall i | j <= i < r && i < |d| :: Try(l, d[i], s).None?
    {
      var m := Try(l, d[r], s);
      if m.Some? { return r, m.value; }
      r := r + 1;
    }
  }

  lemma {:induction false} SkipTo(c: seq<Literal>, d: seq<Literal>, s: Subst, j: nat, r: nat)
    requires |c| > 0 && j <= r && forall i | j <= i < r && i < |d| :: Try(c[0], d[i], s).None?
    ensures SubFrom(c, d, s, j) == SubFrom(c, d, s, r)
    decreases r - j
  {
    if j < r { SkipTo(c, d, s, j + 1, r); }
  }
}

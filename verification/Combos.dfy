/** The three iterators over subsets of a basis of solutions: next_combo_a, next_combo_b and
    next_combo_c (ladr/dioph.c).

    A subset is a 0/1 vector over the rows of the basis.  It is admissible when no column of
    its sum is zero and no rigid column exceeds 1.  Iterators a and c go through the admissible
    subsets in increasing lexicographic order, b in decreasing order; each call is specified
    as "the next admissible subset, or none". */
module Combos {
  import opened Vectors
  import opened Diophantine

  ghost predicate Rows(basis: seq<Vector>, length: nat) {
    forall i | 0 <= i < |basis| :: |basis[i]| == length && NonNegative(basis[i])
  }

  ghost predicate Bits(c: Vector) {
    forall i | 0 <= i < |c| :: c[i] == 0 || c[i] == 1
  }

  ghost function Column(basis: seq<Vector>, length: nat, j: nat): (col: Vector)
    requires Rows(basis, length) && j < length
    ensures |col| == |basis| && NonNegative(col)
  {
    seq(|basis|, i requires 0 <= i < |basis| => basis[i][j])
  }

  /** Sum of the chosen rows. */
  ghost function Total(basis: seq<Vector>, length: nat, c: Vector): (sum: Vector)
    requires Rows(basis, length) && |c| == |basis|
    ensures |sum| == length
  {
    seq(length, j requires 0 <= j < length => Dot(Column(basis, length, j), c))
  }

  ghost predicate NoZero(v: Vector) {
    forall j | 0 <= j < |v| :: v[j] != 0
  }

  /** A potential unifier. */
  ghost predicate Admissible(basis: seq<Vector>, length: nat, cons: seq<int>, c: Vector)
    requires Rows(basis, length)
  {
    |c| == |basis| && Bits(c) && AtMostOnce(cons, Total(basis, length, c)) && NoZero(Total(basis, length, c))
  }

  lemma {:induction false} DotWeaklyMonotone(c: Vector, u: Vector, v: Vector)
    requires |c| == |u| && NonNegative(c) && Below(u, v)
    ensures Dot(c, u) <= Dot(c, v)
  {
    if |u| > 0 {
      DotWeaklyMonotone(c[1..], u[1..], v[1..]);
      MulMonotone(u[0], v[0], c[0]);
    }
  }

  lemma {:induction false} TotalMonotone(basis: seq<Vector>, length: nat, c: Vector, c2: Vector)
    requires Rows(basis, length) && |c| == |basis| && Below(c, c2)
    ensures Below(Total(basis, length, c), Total(basis, length, c2))
  {
    forall j | 0 <= j < length ensures Total(basis, length, c)[j] <= Total(basis, length, c2)[j] {
      DotWeaklyMonotone(Column(basis, length, j), c, c2);
    }
  }

  lemma {:induction false} TotalNonNegative(basis: seq<Vector>, length: nat, c: Vector)
    requires Rows(basis, length) && |c| == |basis| && NonNegative(c)
    ensures NonNegative(Total(basis, length, c))
    ensures ZeroFrom(c, 0) ==> ZeroFrom(Total(basis, length, c), 0)
  {
    forall j | 0 <= j < length
      ensures Total(basis, length, c)[j] >= 0 && (ZeroFrom(c, 0) ==> Total(basis, length, c)[j] == 0)
    {
      DotZeros(Column(basis, length, j), Zeros(|c|));
      DotWeaklyMonotone(Column(basis, length, j), Zeros(|c|), c);
      if ZeroFrom(c, 0) { DotZeros(Column(basis, length, j), c); }
    }
  }

  /** The empty subset is admissible exactly for the empty problem. */
  lemma {:induction false} EmptyAdmissible(basis: seq<Vector>, length: nat, cons: seq<int>)
    requires Rows(basis, length) && |cons| == length
    ensures Admissible(basis, length, cons, Zeros(|basis|)) <==> length == 0
  {
    TotalNonNegative(basis, length, Zeros(|basis|));
    assert length > 0 ==> Total(basis, length, Zeros(|basis|))[0] == 0;
  }

  // ---------- Updating the running sum ----------

  method AddToSum(sum: array<int>, row: Vector, sign: int)
    requires |row| == sum.Length
    modifies sum
    ensures forall j | 0 <= j < sum.Length :: sum[j] == old(sum[j]) + sign * row[j]
  {
    for j := 0 to sum.Length
      invariant forall k | 0 <= k < j :: sum[k] == old(sum[k]) + sign * row[k]
      invariant forall k | j <= k < sum.Length :: sum[k] == old(sum[k])
    {
      sum[j] := sum[j] + sign * row[j];
    }
  }

  /** combo is a 0/1 vector and sum is the sum of the rows it chooses. */
  ghost predicate Consistent(basis: seq<Vector>, combo: array<int>, sum: array<int>)
    reads combo, sum
  {
    combo != sum && combo.Length == |basis| && Rows(basis, sum.Length) &&
    Bits(combo[..]) && sum[..] == Total(basis, sum.Length, combo[..])
  }

  /** Flip one bit of combo, keeping sum in step. */
  method SetBit(basis: seq<Vector>, combo: array<int>, sum: array<int>, pos: nat, bit: int)
    requires Consistent(basis, combo, sum) && pos < |basis|
    requires (bit == 0 || bit == 1) && combo[pos] != bit
    modifies combo, sum
    ensures combo[..] == old(combo[..])[pos := bit] && Consistent(basis, combo, sum)
  {
    ghost var c := combo[..];
    combo[pos] := bit;
    AddToSum(sum, basis[pos], if bit == 1 then 1 else -1);
    forall j | 0 <= j < sum.Length ensures sum[j] == Total(basis, sum.Length, combo[..])[j] {
      DotUpdate(Column(basis, sum.Length, j), c, pos, bit);
      assert old(sum[..])[j] == Total(basis, sum.Length, c)[j];
    }
  }

  method SmallEnough(cons: seq<int>, sum: array<int>) returns (ok: bool)
    requires |cons| == sum.Length
    ensures ok <==> AtMostOnce(cons, sum[..])
  {
    for i := 0 to sum.Length
      invariant forall k | 0 <= k < i :: cons[k] != 0 ==> sum[k] <= 1
    {
      if cons[i] != 0 && sum[i] > 1 {
        assert sum[..][i] == sum[i];
        return false;
      }
    }
    return true;
  }

  method BigEnough(sum: array<int>) returns (ok: bool)
    ensures ok <==> NoZero(sum[..])
  {
    for i := 0 to sum.Length
      invariant forall k | 0 <= k < i :: sum[k] != 0
    {
      if sum[i] == 0 {
        assert sum[..][i] == 0;
        return false;
      }
    }
    return true;
  }

  method Clear(basis: seq<Vector>, combo: array<int>, sum: array<int>)
    requires Rows(basis, sum.Length) && combo.Length == |basis| && combo != sum
    modifies combo, sum
    ensures combo[..] == Zeros(|basis|) && Consistent(basis, combo, sum)
  {
    for i := 0 to sum.Length
      invariant forall k | 0 <= k < i :: sum[k] == 0
    {
      sum[i] := 0;
    }
    for i := 0 to combo.Length
      invariant forall k | 0 <= k < i :: combo[k] == 0
      invariant forall k | 0 <= k < sum.Length :: sum[k] == 0
    {
      combo[i] := 0;
    }
    TotalNonNegative(basis, sum.Length, combo[..]);
  }

  // ---------- The lexicographic order ----------

  ghost predicate Precedes(c: Vector, c2: Vector) {
    Pending(c, |c| - 1, c2)
  }

  /** c2 comes after the place where a call starts; `first` means from the very beginning. */
  ghost predicate After(first: bool, c0: Vector, c2: Vector) {
    first || Precedes(c0, c2)
  }

  ghost predicate IsNext(basis: seq<Vector>, length: nat, cons: seq<int>, first: bool, c0: Vector, c: Vector)
    requires Rows(basis, length)
  {
    Admissible(basis, length, cons, c) && After(first, c0, c) &&
    forall c2 | Admissible(basis, length, cons, c2) && After(first, c0, c2) :: c2 == c || Precedes(c, c2)
  }

  ghost predicate IsLast(basis: seq<Vector>, length: nat, cons: seq<int>, first: bool, c0: Vector)
    requires Rows(basis, length)
  {
    forall c2 | Admissible(basis, length, cons, c2) :: !After(first, c0, c2)
  }

  lemma {:induction false} PrecedesTransitive(a: Vector, b: Vector, c: Vector)
    requires Precedes(a, b) && Precedes(b, c)
    ensures Precedes(a, c)
  {
    var q :| 0 <= q < |a| && PendingAt(a, q, b);
    var r :| 0 <= r < |b| && PendingAt(b, r, c);
    var k := if q < r then q else r;
    forall i | 0 <= i < k ensures a[i] == c[i] {
      assert a[i] == a[..q][i] == b[..q][i] && b[i] == b[..r][i] == c[..r][i];
    }
    assert c[..k] == a[..k];
    if q < r { assert c[q] == c[..r][q] == b[..r][q]; }
    if r < q { assert a[r] == a[..q][r] == b[..q][r]; }
    assert PendingAt(a, k, c);
  }

  lemma {:induction false} PrecedesIrreflexive(a: Vector)
    ensures !Precedes(a, a)
  {
  }

  // ---------- Iterator a ----------

  lemma {:induction false} FromZeros(c: Vector)
    requires NonNegative(c) && !ZeroFrom(c, 0)
    ensures Precedes(Zeros(|c|), c)
  {
    FirstNonZero(c, 0);
    var r :| 0 <= r < |c| && c[r] > 0 && forall i | 0 <= i < r :: c[i] == 0;
    assert c[..r] == Zeros(|c|)[..r];
    assert PendingAt(Zeros(|c|), r, c);
  }

  /** Setting bit pos makes a rigid column too large: nothing above is admissible. */
  lemma {:induction false} TooLarge(basis: seq<Vector>, length: nat, cons: seq<int>, c: Vector, c2: Vector)
    requires Rows(basis, length) && |c| == |basis| && Below(c, c2)
    requires |cons| == length && !AtMostOnce(cons, Total(basis, length, c))
    ensures !Admissible(basis, length, cons, c2)
  {
    TotalMonotone(basis, length, c, c2);
  }

  lemma {:induction false} TooSmall(basis: seq<Vector>, length: nat, cons: seq<int>, c: Vector, c2: Vector)
    requires Rows(basis, length) && |c| == |basis| && Below(c2, c)
    requires !NoZero(Total(basis, length, c))
    ensures !Admissible(basis, length, cons, c2)
  {
    if |c2| == |basis| && Bits(c2) {
      TotalMonotone(basis, length, c2, c);
      TotalNonNegative(basis, length, c2);
      var j :| 0 <= j < length && Total(basis, length, c)[j] == 0;
      assert Total(basis, length, c2)[j] == 0;
    }
  }

  /** Iterator a's odometer: what comes after c0 is what is pending at (c, pos). */
  ghost predicate StateA(basis: seq<Vector>, length: nat, cons: seq<int>, c0: Vector, c: Vector, pos: int)
    requires Rows(basis, length)
  {
    && |c| == |basis| && Bits(c) && -1 <= pos < |c| && ZeroFrom(c, pos + 1)
    && (forall c2 | Pending(c, pos, c2) :: Precedes(c0, c2))
    && forall c2 | Admissible(basis, length, cons, c2) && Precedes(c0, c2) :: Pending(c, pos, c2)
  }

  lemma {:induction false} AdvanceA(basis: seq<Vector>, length: nat, cons: seq<int>, c0: Vector, c: Vector, pos: nat)
    requires Rows(basis, length) && pos < |c| && StateA(basis, length, cons, c0, c, pos) && c[pos] == 0
    ensures Precedes(c0, Bump(c, pos))
    ensures Admissible(basis, length, cons, Bump(c, pos)) ==> IsNext(basis, length, cons, false, c0, Bump(c, pos))
    ensures !Admissible(basis, length, cons, Bump(c, pos)) ==> StateA(basis, length, cons, c0, Bump(c, pos), |c| - 1)
  {
    var b := Bump(c, pos);
    assert b[..pos] == c[..pos];
    assert PendingAt(c, pos, b);
    forall c2 | Pending(b, |c| - 1, c2) ensures Precedes(c0, c2) { BumpPending(c, pos, c2); }
    forall c2 | Admissible(basis, length, cons, c2) && Precedes(c0, c2) ensures c2 == b || Pending(b, |c| - 1, c2) {
      PendingAdvance(c, pos, c2);
    }
  }

  lemma {:induction false} BackUpA(basis: seq<Vector>, length: nat, cons: seq<int>, c0: Vector, c: Vector, pos: nat)
    requires Rows(basis, length) && pos < |c| && StateA(basis, length, cons, c0, c, pos) && |cons| == length
    requires c[pos] == 1 || !AtMostOnce(cons, Total(basis, length, Bump(c, pos)))
    ensures StateA(basis, length, cons, c0, c[pos := 0], pos - 1)
  {
    forall c2 | Pending(c[pos := 0], pos - 1, c2) ensures Precedes(c0, c2) { BackUpPending(c, pos, c2); }
    forall c2 | Admissible(basis, length, cons, c2) && Precedes(c0, c2) ensures Pending(c[pos := 0], pos - 1, c2) {
      PendingBackUp(c, pos, c2);
      if Below(Bump(c, pos), c2) {
        assert c2[pos] >= Bump(c, pos)[pos] == c[pos] + 1;
        if c[pos] != 1 { TooLarge(basis, length, cons, Bump(c, pos), c2); }
      }
    }
  }

  /** One turn of algorithm A's loop. */
  method StepA(basis: seq<Vector>, cons: seq<int>, combo: array<int>, sum: array<int>, pos0: nat, ghost c0: Vector)
    returns (success: bool, pos: int)
    requires Consistent(basis, combo, sum) && |cons| == sum.Length && pos0 < |basis|
    requires StateA(basis, sum.Length, cons, c0, combo[..], pos0)
    modifies combo, sum
    ensures Consistent(basis, combo, sum) && -1 <= pos < |basis|
    ensures success ==> IsNext(basis, sum.Length, cons, false, c0, combo[..])
    ensures !success ==> StateA(basis, sum.Length, cons, c0, combo[..], pos)
    ensures Remaining(combo[..], pos, 2) < Remaining(old(combo[..]), pos0, 2)
  {
    ghost var c := combo[..];
    RemainingShrinks(c, pos0, 2);
    success := false;
    var backup := true;
    if combo[pos0] == 0 {
      SetBit(basis, combo, sum, pos0, 1);
      var small := SmallEnough(cons, sum);
      backup := !small;
    }
    assert combo[..] == c[pos0 := 1];
    if backup {
      BackUpA(basis, sum.Length, cons, c0, c, pos0);
      assert combo[..][pos0 := 0] == c[pos0 := 0];
      SetBit(basis, combo, sum, pos0, 0);
      pos := pos0 - 1;
    } else {
      AdvanceA(basis, sum.Length, cons, c0, c, pos0);
      success := BigEnough(sum);
      pos := |basis| - 1;
    }
  }

  /** Algorithm A.  A first call starts from the empty subset, a later one from combo. */
  method NextComboA(basis: seq<Vector>, cons: seq<int>, combo: array<int>, sum: array<int>, start: bool)
    returns (success: bool)
    requires Rows(basis, sum.Length) && combo.Length == |basis| && |cons| == sum.Length && combo != sum
    requires !start ==> Consistent(basis, combo, sum)
    modifies combo, sum
    ensures Consistent(basis, combo, sum)
    ensures success ==>
              IsNext(basis, sum.Length, cons, false, if start then Zeros(|basis|) else old(combo[..]), combo[..])
    ensures !success ==> IsLast(basis, sum.Length, cons, false, if start then Zeros(|basis|) else old(combo[..]))
  {
    if start { Clear(basis, combo, sum); }
    ghost var c0 := combo[..];
    success := false;
    var pos := |basis| - 1;
    while pos >= 0 && !success
      invariant Consistent(basis, combo, sum) && -1 <= pos < |basis|
      invariant !success ==> StateA(basis, sum.Length, cons, c0, combo[..], pos)
      invariant success ==> IsNext(basis, sum.Length, cons, false, c0, combo[..])
      decreases !success, Remaining(combo[..], pos, 2)
    {
      success, pos := StepA(basis, cons, combo, sum, pos, c0);
    }
  }

  // ---------- Iterator c (Hullot) ----------

  /** c2 extends the first k bits of c. */
  ghost predicate Extends(c: Vector, k: nat, c2: Vector) {
    |c2| == |c| && k <= |c| && c2[..k] == c[..k]
  }

  ghost function Ones(n: nat): (v: Vector)
    ensures |v| == n && forall i | 0 <= i < n :: v[i] == 1
  {
    seq(n, i => 1)
  }

  /** The first k bits of c, then ones. */
  ghost function Most(c: Vector, k: nat): Vector
    requires k <= |c|
  {
    c[..k] + Ones(|c| - k)
  }

  ghost function Least(c: Vector, k: nat): Vector
    requires k <= |c|
  {
    c[..k] + Zeros(|c| - k)
  }

  lemma {:induction false} ExtensionBounds(c: Vector, k: nat, c2: Vector)
    requires k <= |c| && Extends(c, k, c2) && Bits(c2)
    ensures Below(Least(c, k), c2) && Below(c2, Most(c, k))
  {
    forall i | 0 <= i < |c| ensures Least(c, k)[i] <= c2[i] <= Most(c, k)[i] {
      if i < k { assert c2[i] == c2[..k][i] == c[..k][i]; }
    }
  }

  /** Everything later than c0, and only that, lies in the subtree of the first k bits of c
      (when inSubtree) or branches off upwards before. */
  ghost predicate StateC(basis: seq<Vector>, length: nat, cons: seq<int>, first: bool, c0: Vector,
                         c: Vector, pos: int, inSubtree: bool)
    requires Rows(basis, length)
  {
    && |c| == |basis| && Bits(c) && -1 <= pos < |c|
    && (forall c2 | Bits(c2) && (Pending(c, pos, c2) || (inSubtree && Extends(c, pos + 1, c2))) :: After(first, c0, c2))
    && forall c2 | Admissible(basis, length, cons, c2) && After(first, c0, c2) ::
         Pending(c, pos, c2) || (inSubtree && Extends(c, pos + 1, c2))
  }

  lemma {:induction false} PendingPrefix(c: Vector, c1: Vector, k: nat, c2: Vector)
    requires |c| == |c1| && k <= |c| && c1[..k] == c[..k]
    requires Pending(c, k - 1, c2)
    ensures Pending(c1, k - 1, c2)
  {
    var q :| 0 <= q <= k - 1 && PendingAt(c, q, c2);
    assert c1[..q] == c1[..k][..q] == c[..k][..q] == c[..q];
    assert c1[q] == c1[..k][q] == c[..k][q] == c[q];
    assert PendingAt(c1, q, c2);
  }

  lemma {:induction false} ExtendsOneMore(c: Vector, k: nat, c2: Vector)
    requires k < |c| && |c2| == |c|
    ensures Extends(c, k + 1, c2) <==> Extends(c, k, c2) && c2[k] == c[k]
  {
    assert c[..k + 1] == c[..k] + [c[k]] && c2[..k + 1] == c2[..k] + [c2[k]];
  }

  lemma {:induction false} PendingOneMore(c: Vector, k: nat, c2: Vector)
    requires k < |c| && |c2| == |c|
    ensures Pending(c, k, c2) <==> Pending(c, k - 1, c2) || PendingAt(c, k, c2)
  {
    if Pending(c, k, c2) {
      var q :| 0 <= q <= k && PendingAt(c, q, c2);
      if q < k { assert Pending(c, k - 1, c2); }
    }
    if Pending(c, k - 1, c2) {
      var q :| 0 <= q <= k - 1 && PendingAt(c, q, c2);
      assert Pending(c, k, c2);
    }
  }

  /** The left child: the same leaves lie in its subtree or branch off at or above it. */
  lemma {:induction false} LeftChild(c: Vector, c1: Vector, k: nat, c2: Vector)
    requires |c1| == |c| && k < |c| && c1[..k] == c[..k] && c1[k] == 0 && Bits(c2)
    ensures Pending(c1, k, c2) || Extends(c1, k + 1, c2) <==> Pending(c, k - 1, c2) || Extends(c, k, c2)
  {
    if |c2| == |c| {
      ExtendsOneMore(c1, k, c2);
      PendingOneMore(c1, k, c2);
      if Pending(c1, k - 1, c2) { PendingPrefix(c1, c, k, c2); }
      if Pending(c, k - 1, c2) { PendingPrefix(c, c1, k, c2); }
    }
  }

  /** The right child, entered when only what branches off at or above is left. */
  lemma {:induction false} RightChild(c: Vector, c1: Vector, k: nat, c2: Vector)
    requires |c1| == |c| && k < |c| && c1[..k] == c[..k] && c[k] == 0 && c1[k] == 1 && Bits(c2)
    ensures Pending(c1, k, c2) || Extends(c1, k + 1, c2) <==> Pending(c, k, c2)
  {
    if |c2| == |c| {
      ExtendsOneMore(c1, k, c2);
      PendingOneMore(c1, k, c2);
      PendingOneMore(c, k, c2);
      if Pending(c1, k - 1, c2) { PendingPrefix(c1, c, k, c2); }
      if Pending(c, k - 1, c2) { PendingPrefix(c, c1, k, c2); }
    }
  }

  lemma {:induction false} NoSibling(c: Vector, k: nat, c2: Vector)
    requires k < |c| && c[k] == 1 && Bits(c2)
    ensures Pending(c, k, c2) <==> Pending(c, k - 1, c2)
  {
    if |c2| == |c| { PendingOneMore(c, k, c2); }
  }

  // Leaves still to visit.
  ghost function Leaves(c: Vector, pos: int, inSubtree: bool): set<Vector>
    requires -1 <= pos < |c|
  {
    set c2 | c2 in Box(|c|, 1) && Bits(c2) && (Pending(c, pos, c2) || (inSubtree && Extends(c, pos + 1, c2)))
  }

  lemma {:induction false} PruneSubtree(basis: seq<Vector>, length: nat, cons: seq<int>, first: bool, c0: Vector,
      c: Vector, pos: int)
    requires Rows(basis, length) && StateC(basis, length, cons, first, c0, c, pos, true)
    requires forall c2 | Extends(c, pos + 1, c2) :: !Admissible(basis, length, cons, c2)
    ensures StateC(basis, length, cons, first, c0, c, pos, false)
    ensures Leaves(c, pos, false) < Leaves(c, pos, true)
  {
    InBox(c, 1);
    assert Extends(c, pos + 1, c) && c in Leaves(c, pos, true);
    assert !Pending(c, pos, c);
  }

  lemma {:induction false} FullLeaf(c: Vector, c2: Vector)
    requires Extends(c, |c|, c2)
    ensures c2 == c
  {
    assert c2[..|c|] == c2 && c[..|c|] == c;
  }

  lemma {:induction false} LeafIsNext(basis: seq<Vector>, length: nat, cons: seq<int>, first: bool, c0: Vector,
      c: Vector)
    requires Rows(basis, length) && StateC(basis, length, cons, first, c0, c, |c| - 1, true)
    requires Admissible(basis, length, cons, c)
    ensures IsNext(basis, length, cons, first, c0, c)
  {
    assert Extends(c, |c|, c);
    forall c2 | Extends(c, |c|, c2) ensures c2 == c { FullLeaf(c, c2); }
  }

  datatype Status = Down | Over | BackUp | Success | Failure

  ghost function Rank(s: Status): nat {
    match s case Down => 0 case Over => 1 case BackUp => 2 case Success => 0 case Failure => 0
  }

  ghost predicate BigSubtree(basis: seq<Vector>, length: nat, c: Vector, k: nat)
    requires Rows(basis, length) && |c| == |basis| && k <= |c|
  {
    NoZero(Total(basis, length, Most(c, k)))
  }

  ghost predicate SmallSubtree(basis: seq<Vector>, length: nat, cons: seq<int>, c: Vector, k: nat)
    requires Rows(basis, length) && |c| == |basis| && k <= |c|
  {
    AtMostOnce(cons, Total(basis, length, Least(c, k)))
  }

  /** What holds at each status of Hullot's search. */
  ghost predicate Hullot(basis: seq<Vector>, length: nat, cons: seq<int>, first: bool, c0: Vector,
                         c: Vector, pos: int, status: Status)
    requires Rows(basis, length) && |cons| == length
  {
    |c| == |basis| && -1 <= pos < |c| &&
    match status
    case Down =>
      && pos < |c| - 1
      && StateC(basis, length, cons, first, c0, c, pos, true)
      && BigSubtree(basis, length, c, pos + 1) && SmallSubtree(basis, length, cons, c, pos + 1)
      && c == (if pos == -1 || c[pos] == 0 then Most(c, pos + 1) else Least(c, pos + 1))
    case Over =>
      && pos >= 0 && c[pos] == 0
      && StateC(basis, length, cons, first, c0, c, pos, false)
      && BigSubtree(basis, length, c, pos)
    case BackUp =>
      && StateC(basis, length, cons, first, c0, c, pos, false)
      && BigSubtree(basis, length, c, pos + 1)
    case Success => IsNext(basis, length, cons, first, c0, c)
    case Failure => IsLast(basis, length, cons, first, c0)
  }

  lemma {:induction false} BigAbove(basis: seq<Vector>, length: nat, c: Vector, j: nat, k: nat)
    requires Rows(basis, length) && |c| == |basis| && Bits(c) && j <= k <= |c|
    requires BigSubtree(basis, length, c, k)
    ensures BigSubtree(basis, length, c, j)
  {
    TotalMonotone(basis, length, Most(c, k), Most(c, j));
    TotalNonNegative(basis, length, Most(c, k));
    forall i | 0 <= i < length ensures Total(basis, length, Most(c, j))[i] != 0 {
      assert Total(basis, length, Most(c, k))[i] <= Total(basis, length, Most(c, j))[i];
      assert Total(basis, length, Most(c, k))[i] != 0;
    }
  }

  lemma {:induction false} DownShapes(c: Vector, k: nat)
    requires k < |c|
    ensures var c1 := Most(c, k)[k := 0];
            |c1| == |c| && c1[..k] == c[..k] && Most(c1, k + 1) == c1 && Least(c1, k + 1) == Least(c, k) &&
            Most(c1, k) == Most(c, k)
            && (k == |c| - 1 ==> Least(c, k) == c1)
  {
  }

  lemma {:induction false} DownStep(basis: seq<Vector>, length: nat, cons: seq<int>, first: bool, c0: Vector,
                 c: Vector, pos: int, c1: Vector)
    requires Rows(basis, length) && |cons| == length
    requires Hullot(basis, length, cons, first, c0, c, pos, Down)
    requires c1 == Most(c, pos + 1)[pos + 1 := 0]
    ensures StateC(basis, length, cons, first, c0, c1, pos + 1, true)
    ensures Leaves(c1, pos + 1, true) == Leaves(c, pos, true)
    ensures Most(c1, pos + 2) == c1 && Least(c1, pos + 2) == Least(c, pos + 1) && Most(c1, pos + 1) == Most(c, pos + 1)
    ensures pos + 1 == |c| - 1 ==> Least(c, pos + 1) == c1
  {
    DownShapes(c, pos + 1);
    forall c2 | Bits(c2)
      ensures Pending(c1, pos + 1, c2) || Extends(c1, pos + 2, c2) <==> Pending(c, pos, c2) || Extends(c, pos + 1, c2)
    {
      LeftChild(c, c1, pos + 1, c2);
    }
  }

  method GoDown(basis: seq<Vector>, cons: seq<int>, combo: array<int>, sum: array<int>, pos0: int,
                ghost first: bool, ghost c0: Vector)
    returns (status: Status, pos: int)
    requires Consistent(basis, combo, sum) && |cons| == sum.Length
    requires Hullot(basis, sum.Length, cons, first, c0, combo[..], pos0, Down)
    modifies combo, sum
    ensures Consistent(basis, combo, sum) && pos == pos0 + 1 && status in {Success, Down, Over}
    ensures Hullot(basis, sum.Length, cons, first, c0, combo[..], pos, status)
    ensures status == Down ==> Leaves(combo[..], pos, true) == Leaves(old(combo[..]), pos0, true)
    ensures status == Over ==> Leaves(combo[..], pos, false) < Leaves(old(combo[..]), pos0, true)
  {
    ghost var c := combo[..];
    ghost var c1 := Most(c, pos0 + 1)[pos0 + 1 := 0];
    pos := pos0 + 1;
    if pos0 == -1 || combo[pos0] == 0 {
      SetBit(basis, combo, sum, pos, 0);
    } else {
      for i := pos + 1 to |basis|
        invariant Consistent(basis, combo, sum)
        invariant forall j | 0 <= j < |basis| :: combo[j] == if pos < j < i then 1 else c[j]
      {
        SetBit(basis, combo, sum, i, 1);
      }
    }
    assert combo[..] == c1;
    DownStep(basis, sum.Length, cons, first, c0, c, pos0, c1);
    var ok := BigEnough(sum);
    if !ok {
      forall c2 | Extends(c1, pos + 1, c2) ensures !Admissible(basis, sum.Length, cons, c2) {
        if Bits(c2) { ExtensionBounds(c1, pos + 1, c2); }
        if Below(c2, c1) { TooSmall(basis, sum.Length, cons, c1, c2); }
      }
      PruneSubtree(basis, sum.Length, cons, first, c0, c1, pos);
      status := Over;
    } else if pos == |basis| - 1 {
      LeafIsNext(basis, sum.Length, cons, first, c0, c1);
      status := Success;
    } else {
      status := Down;
    }
  }

  lemma {:induction false} OverStep(basis: seq<Vector>, length: nat, cons: seq<int>, first: bool, c0: Vector,
                 c: Vector, pos: nat, c1: Vector)
    requires Rows(basis, length) && |cons| == length && pos < |c|
    requires Hullot(basis, length, cons, first, c0, c, pos, Over)
    requires c1 == Least(c, pos)[pos := 1]
    ensures StateC(basis, length, cons, first, c0, c1, pos, true)
    ensures Leaves(c1, pos, true) == Leaves(c, pos, false)
    ensures Least(c1, pos + 1) == c1 && Most(c1, pos + 1) == Most(c, pos)
    ensures pos == |c| - 1 ==> Most(c1, pos + 1) == c1
  {
    assert c1[..pos] == c[..pos];
    forall c2 | Bits(c2) ensures Pending(c1, pos, c2) || Extends(c1, pos + 1, c2) <==> Pending(c, pos, c2) {
      RightChild(c, c1, pos, c2);
    }
  }

  method GoOver(basis: seq<Vector>, cons: seq<int>, combo: array<int>, sum: array<int>, pos: nat,
                ghost first: bool, ghost c0: Vector)
    returns (status: Status)
    requires Consistent(basis, combo, sum) && |cons| == sum.Length && pos < |basis|
    requires Hullot(basis, sum.Length, cons, first, c0, combo[..], pos, Over)
    modifies combo, sum
    ensures Consistent(basis, combo, sum) && status in {Success, Down, BackUp}
    ensures Hullot(basis, sum.Length, cons, first, c0, combo[..], pos, status)
    ensures status == Down ==> Leaves(combo[..], pos, true) == Leaves(old(combo[..]), pos, false)
    ensures status == BackUp ==> Leaves(combo[..], pos, false) < Leaves(old(combo[..]), pos, false)
  {
    ghost var c := combo[..];
    ghost var c1 := Least(c, pos)[pos := 1];
    SetBit(basis, combo, sum, pos, 1);
    for i := pos + 1 to |basis|
      invariant Consistent(basis, combo, sum)
      invariant forall j | 0 <= j < |basis| :: combo[j] == if j == pos then 1 else if pos < j < i then 0 else c[j]
    {
      if combo[i] != 0 { SetBit(basis, combo, sum, i, 0); }
    }
    assert combo[..] == c1;
    OverStep(basis, sum.Length, cons, first, c0, c, pos, c1);
    var small := SmallEnough(cons, sum);
    if !small {
      forall c2 | Extends(c1, pos + 1, c2) ensures !Admissible(basis, sum.Length, cons, c2) {
        if Bits(c2) { ExtensionBounds(c1, pos + 1, c2); }
        if Below(c1, c2) { TooLarge(basis, sum.Length, cons, c1, c2); }
      }
      PruneSubtree(basis, sum.Length, cons, first, c0, c1, pos);
      status := BackUp;
    } else if pos == |basis| - 1 {
      LeafIsNext(basis, sum.Length, cons, first, c0, c1);
      status := Success;
    } else {
      status := Down;
    }
  }

  lemma {:induction false} BackUpOnce(basis: seq<Vector>, length: nat, cons: seq<int>, first: bool, c0: Vector,
      c: Vector, pos: nat)
    requires Rows(basis, length) && |cons| == length && pos < |c|
    requires Hullot(basis, length, cons, first, c0, c, pos, BackUp)
    ensures BigSubtree(basis, length, c, pos)
    ensures c[pos] == 1 ==> Hullot(basis, length, cons, first, c0, c, pos - 1, BackUp)
    ensures c[pos] == 1 ==> Leaves(c, pos - 1, false) == Leaves(c, pos, false)
  {
    BigAbove(basis, length, c, pos, pos + 1);
    if c[pos] == 1 {
      forall c2 | Bits(c2) ensures Pending(c, pos, c2) <==> Pending(c, pos - 1, c2) { NoSibling(c, pos, c2); }
    }
  }

  method GoBackUp(basis: seq<Vector>, cons: seq<int>, combo: array<int>, sum: array<int>, pos0: int,
                  ghost first: bool, ghost c0: Vector)
    returns (status: Status, pos: int)
    requires Consistent(basis, combo, sum) && |cons| == sum.Length
    requires Hullot(basis, sum.Length, cons, first, c0, combo[..], pos0, BackUp)
    ensures -1 <= pos <= pos0 && status in {Over, Failure}
    ensures Hullot(basis, sum.Length, cons, first, c0, combo[..], pos, status)
    ensures Leaves(combo[..], pos, false) == Leaves(combo[..], pos0, false)
  {
    pos := pos0;
    while pos >= 0 && combo[pos] != 0
      invariant -1 <= pos <= pos0
      invariant Hullot(basis, sum.Length, cons, first, c0, combo[..], pos, BackUp)
      invariant Leaves(combo[..], pos, false) == Leaves(combo[..], pos0, false)
    {
      BackUpOnce(basis, sum.Length, cons, first, c0, combo[..], pos);
      pos := pos - 1;
    }
    if pos < 0 {
      status := Failure;
    } else {
      BackUpOnce(basis, sum.Length, cons, first, c0, combo[..], pos);
      status := Over;
    }
  }

  lemma {:induction false} StartC(basis: seq<Vector>, length: nat, cons: seq<int>, c0: Vector, c: Vector)
    requires Rows(basis, length) && |cons| == length && |c| == |basis| && c == Ones(|basis|)
    ensures NoZero(Total(basis, length, c)) && |basis| > 0 ==> Hullot(basis, length, cons, true, c0, c, -1, Down)
    ensures !NoZero(Total(basis, length, c)) ==> IsLast(basis, length, cons, true, c0)
  {
    assert Most(c, 0) == c && Least(c, 0) == Zeros(|c|);
    TotalNonNegative(basis, length, Zeros(|c|));
    forall c2 | Bits(c2) && |c2| == |c| ensures Extends(c, 0, c2) { }
    if !NoZero(Total(basis, length, c)) {
      forall c2 ensures !Admissible(basis, length, cons, c2) {
        if |c2| == |c| && Bits(c2) { TooSmall(basis, length, cons, c, c2); }
      }
    }
  }

  lemma {:induction false} ResumeC(basis: seq<Vector>, length: nat, cons: seq<int>, c: Vector)
    requires Rows(basis, length) && |cons| == length && Admissible(basis, length, cons, c)
    ensures Hullot(basis, length, cons, false, c, c, |c| - 1, BackUp)
  {
    assert Most(c, |c|) == c;
  }

  /** Algorithm C.  A first call searches from the root, a later one from the last answer. */
  method NextComboC(basis: seq<Vector>, cons: seq<int>, combo: array<int>, sum: array<int>, start: bool)
    returns (success: bool)
    requires Rows(basis, sum.Length) && combo.Length == |basis| && |cons| == sum.Length && combo != sum
    requires |basis| > 0 || sum.Length > 0
    requires !start ==> Consistent(basis, combo, sum) && Admissible(basis, sum.Length, cons, combo[..])
    modifies combo, sum
    ensures Consistent(basis, combo, sum)
    ensures success ==> IsNext(basis, sum.Length, cons, start, old(combo[..]), combo[..])
    ensures !success ==> IsLast(basis, sum.Length, cons, start, old(combo[..]))
  {
    ghost var c0 := combo[..];
    var pos, status;
    if start {
      Clear(basis, combo, sum);
      for i := 0 to |basis|
        invariant Consistent(basis, combo, sum)
        invariant forall j | 0 <= j < |basis| :: combo[j] == if j < i then 1 else 0
      {
        SetBit(basis, combo, sum, i, 1);
      }
      assert combo[..] == Ones(|basis|);
      StartC(basis, sum.Length, cons, c0, combo[..]);
      EmptyBasis(basis, sum.Length, combo[..]);
      var ok := BigEnough(sum);
      pos, status := -1, if ok then Down else Failure;
    } else {
      ResumeC(basis, sum.Length, cons, c0);
      pos, status := |basis| - 1, BackUp;
    }
    while status != Success && status != Failure
      invariant Consistent(basis, combo, sum) && -1 <= pos < |basis|
      invariant Hullot(basis, sum.Length, cons, start, c0, combo[..], pos, status)
      decreases !(status in {Success, Failure}), Leaves(combo[..], pos, status == Down), Rank(status), |basis| - pos
    {
      match status
      case Down => status, pos := GoDown(basis, cons, combo, sum, pos, start, c0);
      case Over => status := GoOver(basis, cons, combo, sum, pos, start, c0);
      case BackUp => status, pos := GoBackUp(basis, cons, combo, sum, pos, start, c0);
    }
    success := status == Success;
  }

  // With no rows every column of the sum is zero.
  lemma {:induction false} EmptyBasis(basis: seq<Vector>, length: nat, c: Vector)
    requires Rows(basis, length) && |c| == |basis|
    ensures |basis| == 0 && length > 0 ==> !NoZero(Total(basis, length, c))
  {
    if |basis| == 0 && length > 0 {
      TotalNonNegative(basis, length, c);
      assert Total(basis, length, c)[0] == 0;
    }
  }

  // ---------- Iterator b ----------

  ghost predicate Before(first: bool, c0: Vector, c2: Vector) {
    first || Precedes(c2, c0)
  }

  ghost predicate IsPrevious(basis: seq<Vector>, length: nat, cons: seq<int>, first: bool, c0: Vector, c: Vector)
    requires Rows(basis, length)
  {
    Admissible(basis, length, cons, c) && Before(first, c0, c) &&
    forall c2 | Admissible(basis, length, cons, c2) && Before(first, c0, c2) :: c2 == c || Precedes(c2, c)
  }

  ghost predicate IsFirst(basis: seq<Vector>, length: nat, cons: seq<int>, first: bool, c0: Vector)
    requires Rows(basis, length)
  {
    forall c2 | Admissible(basis, length, cons, c2) :: !Before(first, c0, c2)
  }

  /** c2 leaves c downwards at some q <= pos. */
  ghost predicate Ahead(c: Vector, pos: int, c2: Vector) {
    |c2| == |c| && exists q :: 0 <= q <= pos < |c| && PendingAt(c2, q, c)
  }

  ghost predicate OpenB(c: Vector, pos: int, c2: Vector)
    requires -1 <= pos < |c|
  {
    Extends(c, pos + 1, c2) || Ahead(c, pos, c2)
  }

  ghost predicate StateB(basis: seq<Vector>, length: nat, cons: seq<int>, first: bool, c0: Vector, c: Vector, pos: int)
    requires Rows(basis, length)
  {
    && |c| == |basis| && Bits(c) && -1 <= pos < |c| && ZeroFrom(c, pos + 1)
    && AtMostOnce(cons, Total(basis, length, c))
    && (forall c2 | Bits(c2) && OpenB(c, pos, c2) :: Before(first, c0, c2))
    && forall c2 | Admissible(basis, length, cons, c2) && Before(first, c0, c2) :: OpenB(c, pos, c2)
  }

  ghost function LeavesB(c: Vector, pos: int): set<Vector>
    requires -1 <= pos < |c|
  {
    set c2 | c2 in Box(|c|, 1) && Bits(c2) && OpenB(c, pos, c2)
  }

  lemma {:induction false} AheadOneMore(c: Vector, k: nat, c2: Vector)
    requires k < |c| && |c2| == |c|
    ensures Ahead(c, k, c2) <==> Ahead(c, k - 1, c2) || PendingAt(c2, k, c)
  {
    if Ahead(c, k, c2) {
      var q :| 0 <= q <= k && PendingAt(c2, q, c);
      if q < k { assert Ahead(c, k - 1, c2); }
    }
    if Ahead(c, k - 1, c2) {
      var q :| 0 <= q <= k - 1 && PendingAt(c2, q, c);
      assert Ahead(c, k, c2);
    }
  }

  lemma {:induction false} AheadPrefix(c: Vector, c1: Vector, k: nat, c2: Vector)
    requires |c| == |c1| && k <= |c| && c1[..k] == c[..k]
    requires Ahead(c, k - 1, c2)
    ensures Ahead(c1, k - 1, c2)
  {
    var q :| 0 <= q <= k - 1 && PendingAt(c2, q, c);
    assert c1[..q] == c1[..k][..q] == c[..k][..q] == c[..q];
    assert c1[q] == c1[..k][q] == c[..k][q] == c[q];
    assert PendingAt(c2, q, c1);
  }

  /** Choosing row k keeps everything open: without it is below. */
  lemma {:induction false} ChooseRow(c: Vector, k: nat, c2: Vector)
    requires k < |c| && Bits(c2)
    ensures OpenB(c[k := 1], k, c2) <==> OpenB(c, k - 1, c2)
  {
    var c1 := c[k := 1];
    assert c1[..k] == c[..k];
    if |c2| == |c| {
      ExtendsOneMore(c1, k, c2);
      AheadOneMore(c1, k, c2);
      if Ahead(c1, k - 1, c2) { AheadPrefix(c1, c, k, c2); }
      if Ahead(c, k - 1, c2) { AheadPrefix(c, c1, k, c2); }
    }
  }

  lemma {:induction false} SkipRow(c: Vector, k: nat, c2: Vector)
    requires k < |c| && c[k] == 0 && Bits(c2) && |c2| == |c|
    ensures OpenB(c, k, c2) ==> OpenB(c, k - 1, c2)
    ensures OpenB(c, k - 1, c2) ==> OpenB(c, k, c2) || (Extends(c, k, c2) && c2[k] == 1)
    ensures Ahead(c, k, c2) <==> Ahead(c, k - 1, c2)
  {
    ExtendsOneMore(c, k, c2);
    AheadOneMore(c, k, c2);
  }

  lemma {:induction false} DropRow(c: Vector, k: nat, c2: Vector)
    requires k < |c| && c[k] == 1 && Bits(c2)
    ensures OpenB(c[k := 0], k, c2) <==> Ahead(c, k, c2)
  {
    var c1 := c[k := 0];
    assert c1[..k] == c[..k];
    if |c2| == |c| {
      ExtendsOneMore(c1, k, c2);
      AheadOneMore(c, k, c2);
      AheadOneMore(c1, k, c2);
      if Ahead(c1, k - 1, c2) { AheadPrefix(c1, c, k, c2); }
      if Ahead(c, k - 1, c2) { AheadPrefix(c, c1, k, c2); }
    }
  }

  lemma {:induction false} ChooseSmall(basis: seq<Vector>, length: nat, cons: seq<int>, first: bool, c0: Vector,
      c: Vector, k: nat)
    requires Rows(basis, length) && |cons| == length && k < |c|
    requires StateB(basis, length, cons, first, c0, c, k - 1)
    requires AtMostOnce(cons, Total(basis, length, c[k := 1]))
    ensures StateB(basis, length, cons, first, c0, c[k := 1], k) && LeavesB(c[k := 1], k) == LeavesB(c, k - 1)
  {
    forall c2 | Bits(c2) ensures OpenB(c[k := 1], k, c2) <==> OpenB(c, k - 1, c2) { ChooseRow(c, k, c2); }
  }

  lemma {:induction false} ChooseLarge(basis: seq<Vector>, length: nat, cons: seq<int>, first: bool, c0: Vector,
      c: Vector, k: nat)
    requires Rows(basis, length) && |cons| == length && k < |c|
    requires StateB(basis, length, cons, first, c0, c, k - 1)
    requires !AtMostOnce(cons, Total(basis, length, c[k := 1]))
    ensures StateB(basis, length, cons, first, c0, c, k)
    ensures LeavesB(c, k) < LeavesB(c, k - 1)
  {
    forall c2 | Bits(c2) ensures OpenB(c, k, c2) ==> OpenB(c, k - 1, c2) {
      if |c2| == |c| { SkipRow(c, k, c2); }
    }
    forall c2 | Admissible(basis, length, cons, c2) && OpenB(c, k - 1, c2) ensures OpenB(c, k, c2) {
      SkipRow(c, k, c2);
      if Extends(c, k, c2) && c2[k] == 1 { LargeBelow(basis, length, cons, c, k, c2); }
    }
    var c1 := c[k := 1];
    InBox(c1, 1);
    assert Extends(c, k, c1);
    NotOpen(c, k, c1);
    assert c1 in LeavesB(c, k - 1) && c1 !in LeavesB(c, k);
  }

  lemma {:induction false} LargeBelow(basis: seq<Vector>, length: nat, cons: seq<int>, c: Vector, k: nat, c2: Vector)
    requires Rows(basis, length) && |cons| == length && k < |c| == |basis| && ZeroFrom(c, k)
    requires !AtMostOnce(cons, Total(basis, length, c[k := 1]))
    requires Bits(c2) && Extends(c, k, c2) && c2[k] == 1
    ensures !Admissible(basis, length, cons, c2)
  {
    ExtensionBounds(c, k, c2);
    assert Below(c[k := 1], c2) by {
      forall i | 0 <= i < |c| ensures c[k := 1][i] <= c2[i] { assert Least(c, k)[i] <= c2[i]; }
    }
    TooLarge(basis, length, cons, c[k := 1], c2);
  }

  lemma {:induction false} NotOpen(c: Vector, k: nat, c1: Vector)
    requires k < |c| && c[k] == 0 && c1 == c[k := 1]
    ensures !OpenB(c, k, c1)
  {
    assert c1[..k + 1][k] == 1;
  }

  /** One row further: choose it if the sum stays small. */
  method ExtendB(basis: seq<Vector>, cons: seq<int>, combo: array<int>, sum: array<int>, pos: nat,
                 ghost first: bool, ghost c0: Vector)
    requires Consistent(basis, combo, sum) && |cons| == sum.Length && pos < |basis|
    requires StateB(basis, sum.Length, cons, first, c0, combo[..], pos - 1)
    modifies combo, sum
    ensures Consistent(basis, combo, sum) && StateB(basis, sum.Length, cons, first, c0, combo[..], pos)
    ensures LeavesB(combo[..], pos) == LeavesB(old(combo[..]), pos - 1) ||
              LeavesB(combo[..], pos) < LeavesB(old(combo[..]), pos - 1)
  {
    ghost var c := combo[..];
    SetBit(basis, combo, sum, pos, 1);
    var small := SmallEnough(cons, sum);
    if small {
      ChooseSmall(basis, sum.Length, cons, first, c0, c, pos);
    } else {
      ChooseLarge(basis, sum.Length, cons, first, c0, c, pos);
      SetBit(basis, combo, sum, pos, 0);
      assert combo[..] == c[pos := 1][pos := 0] == c;
    }
  }

  /** Everything open lies ahead of c[..pos]. */
  ghost predicate RetreatB(basis: seq<Vector>, length: nat, cons: seq<int>, first: bool, c0: Vector, c: Vector,
      pos: int)
    requires Rows(basis, length)
  {
    && |c| == |basis| && Bits(c) && -1 <= pos < |c| && ZeroFrom(c, pos + 1)
    && AtMostOnce(cons, Total(basis, length, c))
    && (forall c2 | Bits(c2) && Ahead(c, pos, c2) :: Before(first, c0, c2))
    && forall c2 | Admissible(basis, length, cons, c2) && Before(first, c0, c2) :: Ahead(c, pos, c2)
  }

  lemma {:induction false} RetreatOnce(basis: seq<Vector>, length: nat, cons: seq<int>, first: bool, c0: Vector,
      c: Vector, pos: nat)
    requires Rows(basis, length) && |cons| == length && pos < |c|
    requires RetreatB(basis, length, cons, first, c0, c, pos)
    ensures c[pos] == 0 ==> RetreatB(basis, length, cons, first, c0, c, pos - 1)
    ensures c[pos] == 1 ==> StateB(basis, length, cons, first, c0, c[pos := 0], pos)
    ensures c[pos] == 1 ==> forall c2 | Bits(c2) :: OpenB(c[pos := 0], pos, c2) <==> Ahead(c, pos, c2)
    ensures c[pos] == 0 ==> forall c2 | Bits(c2) :: Ahead(c, pos, c2) <==> Ahead(c, pos - 1, c2)
  {
    if c[pos] == 0 {
      forall c2 | Bits(c2) ensures Ahead(c, pos, c2) <==> Ahead(c, pos - 1, c2) {
        if |c2| == |c| { SkipRow(c, pos, c2); }
      }
    } else {
      forall c2 | Bits(c2) ensures OpenB(c[pos := 0], pos, c2) <==> Ahead(c, pos, c2) { DropRow(c, pos, c2); }
      var c1 := c[pos := 0];
      TotalMonotone(basis, length, c1, c);
    }
  }

  /** Go back to the last chosen row and drop it. */
  method BackB(basis: seq<Vector>, cons: seq<int>, combo: array<int>, sum: array<int>, pos0: int,
               ghost first: bool, ghost c0: Vector)
    returns (pos: int)
    requires Consistent(basis, combo, sum) && |cons| == sum.Length && pos0 == |basis| - 1
    requires RetreatB(basis, sum.Length, cons, first, c0, combo[..], pos0)
    modifies combo, sum
    ensures Consistent(basis, combo, sum) && -1 <= pos < |basis|
    ensures pos < 0 ==>
              combo[..] == old(combo[..]) && ZeroFrom(combo[..], 0) &&
              IsFirst(basis, sum.Length, cons, first, c0)
    ensures pos >= 0 ==> StateB(basis, sum.Length, cons, first, c0, combo[..], pos)
    ensures pos >= 0 ==> forall c2 | Bits(c2) && OpenB(combo[..], pos, c2) :: Ahead(old(combo[..]), pos0, c2)
  {
    ghost var c := combo[..];
    pos := pos0;
    while pos >= 0 && combo[pos] == 0
      invariant -1 <= pos <= pos0 && combo[..] == c && Consistent(basis, combo, sum)
      invariant RetreatB(basis, sum.Length, cons, first, c0, c, pos)
      invariant forall c2 | Bits(c2) && Ahead(c, pos, c2) :: Ahead(c, pos0, c2)
    {
      RetreatOnce(basis, sum.Length, cons, first, c0, c, pos);
      pos := pos - 1;
    }
    if pos >= 0 {
      RetreatOnce(basis, sum.Length, cons, first, c0, c, pos);
      SetBit(basis, combo, sum, pos, 0);
    }
  }

  lemma {:induction false} LeafFails(basis: seq<Vector>, length: nat, cons: seq<int>, first: bool, c0: Vector,
      c: Vector)
    requires Rows(basis, length) && StateB(basis, length, cons, first, c0, c, |c| - 1)
    ensures NoZero(Total(basis, length, c)) ==> IsPrevious(basis, length, cons, first, c0, c)
    ensures !NoZero(Total(basis, length, c)) ==> RetreatB(basis, length, cons, first, c0, c, |c| - 1)
  {
    assert Extends(c, |c|, c);
    forall c2 | Extends(c, |c|, c2) ensures c2 == c { FullLeaf(c, c2); }
  }

  lemma {:induction false} StartB(basis: seq<Vector>, length: nat, cons: seq<int>, c0: Vector)
    requires Rows(basis, length) && |cons| == length
    ensures StateB(basis, length, cons, true, c0, Zeros(|basis|), -1)
  {
    TotalNonNegative(basis, length, Zeros(|basis|));
  }

  lemma {:induction false} ResumeB(basis: seq<Vector>, length: nat, cons: seq<int>, c: Vector)
    requires Rows(basis, length) && |cons| == length && Admissible(basis, length, cons, c)
    ensures RetreatB(basis, length, cons, false, c, c, |c| - 1)
  {
  }

  lemma {:induction false} LeavesDrop(c: Vector, c1: Vector, pos: int)
    requires |c1| == |c| && -1 <= pos < |c1| && Bits(c)
    requires forall c2 | Bits(c2) && OpenB(c1, pos, c2) :: Ahead(c, |c| - 1, c2)
    ensures LeavesB(c1, pos) < LeavesB(c, |c| - 1)
  {
    InBox(c, 1);
    assert Extends(c, |c|, c) && c in LeavesB(c, |c| - 1);
    assert !Ahead(c, |c| - 1, c);
  }

  /** All rows decided: accept, or go back and drop the last chosen row. */
  method LeafB(basis: seq<Vector>, cons: seq<int>, combo: array<int>, sum: array<int>, pos0: int,
               ghost first: bool, ghost c0: Vector)
    returns (success: bool, pos: int)
    requires Consistent(basis, combo, sum) && |cons| == sum.Length && pos0 == |basis| - 1
    requires StateB(basis, sum.Length, cons, first, c0, combo[..], pos0)
    modifies combo, sum
    ensures Consistent(basis, combo, sum) && -1 <= pos < |basis|
    ensures success ==>
              combo[..] == old(combo[..]) && pos == pos0 &&
              IsPrevious(basis, sum.Length, cons, first, c0, combo[..])
    ensures !success && pos < 0 ==> IsFirst(basis, sum.Length, cons, first, c0)
    ensures !success && pos >= 0 ==>
              StateB(basis, sum.Length, cons, first, c0, combo[..], pos) &&
              LeavesB(combo[..], pos) < LeavesB(old(combo[..]), pos0)
  {
    ghost var c := combo[..];
    LeafFails(basis, sum.Length, cons, first, c0, c);
    pos := pos0;
    success := BigEnough(sum);
    if !success {
      pos := BackB(basis, cons, combo, sum, pos, first, c0);
      if pos >= 0 { LeavesDrop(c, combo[..], pos); }
    }
  }

  /** Algorithm B.  A later call needs a chosen row to go back to. */
  method NextComboB(basis: seq<Vector>, cons: seq<int>, combo: array<int>, sum: array<int>, start: bool)
    returns (success: bool)
    requires Rows(basis, sum.Length) && combo.Length == |basis| && |cons| == sum.Length && combo != sum
    requires !start ==>
              Consistent(basis, combo, sum) && Admissible(basis, sum.Length, cons, combo[..]) &&
              !ZeroFrom(combo[..], 0)
    modifies combo, sum
    ensures Consistent(basis, combo, sum)
    ensures success ==> IsPrevious(basis, sum.Length, cons, start, old(combo[..]), combo[..])
    ensures !success ==> IsFirst(basis, sum.Length, cons, start, old(combo[..]))
  {
    ghost var c0 := combo[..];
    var pos, go := -1, true;
    if start {
      Clear(basis, combo, sum);
      StartB(basis, sum.Length, cons, c0);
    } else {
      ResumeB(basis, sum.Length, cons, c0);
      pos := BackB(basis, cons, combo, sum, |basis| - 1, start, c0);
    }
    success := false;
    while go && !success
      invariant Consistent(basis, combo, sum) && -1 <= pos < |basis|
      invariant go && !success ==> StateB(basis, sum.Length, cons, start, c0, combo[..], pos)
      invariant success ==> IsPrevious(basis, sum.Length, cons, start, c0, combo[..])
      invariant !go ==> !success && IsFirst(basis, sum.Length, cons, start, c0)
      decreases go && !success, LeavesB(combo[..], pos), |basis| - pos
    {
      if pos == |basis| - 1 {
        success, pos := LeafB(basis, cons, combo, sum, pos, start, c0);
        go := success || pos >= 0;
      } else {
        pos := pos + 1;
        ExtendB(basis, cons, combo, sum, pos, start, c0);
      }
    }
  }

  // ---------- Whole runs ----------

  ghost predicate Increasing(out: seq<Vector>) {
    forall i, j | 0 <= i < j < |out| :: Precedes(out[i], out[j])
  }

  ghost predicate Decreasing(out: seq<Vector>) {
    forall i, j | 0 <= i < j < |out| :: Precedes(out[j], out[i])
  }

  lemma {:induction false} PrecedesShrinks(c: Vector, c2: Vector)
    requires Bits(c2) && Precedes(c, c2)
    ensures Remaining(c2, |c2| - 1, 1) < Remaining(c, |c| - 1, 1)
  {
    InBox(c2, 1);
    PrecedesIrreflexive(c2);
    var last := |c| - 1;
    forall c3 | Pending(c2, last, c3) ensures Pending(c, last, c3) { PrecedesTransitive(c, c2, c3); }
    assert c2 in Remaining(c, |c| - 1, 1);
  }

  /** After seeing `out`, everything admissible is in it or after its last element. */
  ghost predicate SeenUpTo(basis: seq<Vector>, length: nat, cons: seq<int>, first: bool, c0: Vector, out: seq<Vector>)
    requires Rows(basis, length)
  {
    && Increasing(out)
    && (forall c | c in out :: Admissible(basis, length, cons, c) && After(first, c0, c))
    && forall c | Admissible(basis, length, cons, c) && After(first, c0, c) ::
         c in out || |out| == 0 || Precedes(out[|out| - 1], c)
  }

  ghost function Last(c0: Vector, out: seq<Vector>): Vector {
    if |out| == 0 then c0 else out[|out| - 1]
  }

  lemma {:induction false} SeenOneMore(basis: seq<Vector>, length: nat, cons: seq<int>, first: bool, c0: Vector,
      out: seq<Vector>, c: Vector)
    requires Rows(basis, length) && SeenUpTo(basis, length, cons, first, c0, out)
    requires IsNext(basis, length, cons, first && |out| == 0, Last(c0, out), c)
    ensures SeenUpTo(basis, length, cons, first, c0, out + [c])
  {
    var all := out + [c];
    if |out| > 0 {
      var last := out[|out| - 1];
      assert last in out;
      if !first { PrecedesTransitive(c0, last, c); }
      forall i | 0 <= i < |out| ensures Precedes(out[i], c) {
        if i < |out| - 1 { PrecedesTransitive(out[i], last, c); }
      }
    }
  }

  /** Running algorithm A from a start call to failure lists exactly the admissible nonempty
      subsets, in increasing order, so without repeats. */
  method AllCombosA(length: nat, basis: seq<Vector>, cons: seq<int>) returns (out: seq<Vector>)
    requires Rows(basis, length) && |cons| == length
    ensures Increasing(out)
    ensures forall c :: c in out <==> Admissible(basis, length, cons, c) && !ZeroFrom(c, 0)
  {
    var combo := new int[|basis|](_ => 0);
    var sum := new int[length](_ => 0);
    ghost var c0 := Zeros(|basis|);
    out := [];
    var ok := NextComboA(basis, cons, combo, sum, true);
    while ok
      invariant Consistent(basis, combo, sum)
      invariant SeenUpTo(basis, length, cons, false, c0, out)
      invariant ok ==> IsNext(basis, length, cons, false, Last(c0, out), combo[..])
      invariant !ok ==> IsLast(basis, length, cons, false, Last(c0, out))
      decreases ok, Remaining(combo[..], |basis| - 1, 1)
    {
      ghost var c := combo[..];
      SeenOneMore(basis, length, cons, false, c0, out, c);
      out := out + [combo[..]];
      ok := NextComboA(basis, cons, combo, sum, false);
      if ok { PrecedesShrinks(c, combo[..]); }
    }
    AllNonempty(basis, length, cons, out);
  }

  lemma {:induction false} AllNonempty(basis: seq<Vector>, length: nat, cons: seq<int>, out: seq<Vector>)
    requires Rows(basis, length)
    requires SeenUpTo(basis, length, cons, false, Zeros(|basis|), out)
    requires IsLast(basis, length, cons, false, Last(Zeros(|basis|), out))
    ensures forall c :: c in out <==> Admissible(basis, length, cons, c) && !ZeroFrom(c, 0)
  {
    forall c | Admissible(basis, length, cons, c) ensures c in out <==> !ZeroFrom(c, 0) {
      if !ZeroFrom(c, 0) { FromZeros(c); } else { assert !Precedes(Zeros(|basis|), c); }
    }
  }

  /** The same for algorithm C, empty subset included. */
  method AllCombosC(length: nat, basis: seq<Vector>, cons: seq<int>) returns (out: seq<Vector>)
    requires Rows(basis, length) && |cons| == length
    requires |basis| > 0 || length > 0
    ensures Increasing(out)
    ensures forall c :: c in out <==> Admissible(basis, length, cons, c)
  {
    var combo := new int[|basis|](_ => 0);
    var sum := new int[length](_ => 0);
    ghost var c0 := combo[..];
    out := [];
    var ok := NextComboC(basis, cons, combo, sum, true);
    while ok
      invariant Consistent(basis, combo, sum)
      invariant SeenUpTo(basis, length, cons, true, c0, out)
      invariant ok ==> IsNext(basis, length, cons, |out| == 0, Last(c0, out), combo[..])
      invariant !ok ==> IsLast(basis, length, cons, |out| == 0, Last(c0, out))
      decreases ok, Remaining(combo[..], |basis| - 1, 1)
    {
      ghost var c := combo[..];
      SeenOneMore(basis, length, cons, true, c0, out, c);
      out := out + [combo[..]];
      ok := NextComboC(basis, cons, combo, sum, false);
      if ok { PrecedesShrinks(c, combo[..]); }
    }
  }

  ghost predicate SeenDownTo(basis: seq<Vector>, length: nat, cons: seq<int>, out: seq<Vector>)
    requires Rows(basis, length)
  {
    && Decreasing(out)
    && (forall c | c in out :: Admissible(basis, length, cons, c))
    && forall c | Admissible(basis, length, cons, c) :: c in out || |out| == 0 || Precedes(c, out[|out| - 1])
  }

  lemma {:induction false} SeenOneLess(basis: seq<Vector>, length: nat, cons: seq<int>, c0: Vector, out: seq<Vector>,
      c: Vector)
    requires Rows(basis, length) && SeenDownTo(basis, length, cons, out)
    requires |out| == 0 ==> IsPrevious(basis, length, cons, true, c0, c)
    requires |out| > 0 ==> IsPrevious(basis, length, cons, false, out[|out| - 1], c)
    ensures SeenDownTo(basis, length, cons, out + [c])
  {
    if |out| > 0 {
      var last := out[|out| - 1];
      forall i | 0 <= i < |out| ensures Precedes(c, out[i]) {
        if i < |out| - 1 { PrecedesTransitive(c, last, out[i]); }
      }
    }
  }

  ghost function Earlier(c: Vector): set<Vector> {
    set c2 | c2 in Box(|c|, 1) && Precedes(c2, c)
  }

  lemma {:induction false} PrecedesShrinksDown(c: Vector, c2: Vector)
    requires Bits(c2) && Precedes(c2, c)
    ensures Earlier(c2) < Earlier(c)
  {
    InBox(c2, 1);
    PrecedesIrreflexive(c2);
    forall c3 | Precedes(c3, c2) ensures Precedes(c3, c) { PrecedesTransitive(c3, c2, c); }
    assert c2 in Earlier(c);
  }

  /** Algorithm B lists the same subsets in decreasing order.  With no columns the empty subset
      would be the last answer, from which no further call is possible. */
  method AllCombosB(length: nat, basis: seq<Vector>, cons: seq<int>) returns (out: seq<Vector>)
    requires Rows(basis, length) && |cons| == length && length > 0
    ensures Decreasing(out)
    ensures forall c :: c in out <==> Admissible(basis, length, cons, c)
  {
    var combo := new int[|basis|](_ => 0);
    var sum := new int[length](_ => 0);
    ghost var c0 := combo[..];
    out := [];
    var ok := NextComboB(basis, cons, combo, sum, true);
    while ok
      invariant Consistent(basis, combo, sum)
      invariant SeenDownTo(basis, length, cons, out)
      invariant ok && |out| == 0 ==> IsPrevious(basis, length, cons, true, c0, combo[..])
      invariant ok && |out| > 0 ==> IsPrevious(basis, length, cons, false, out[|out| - 1], combo[..])
      invariant !ok && |out| == 0 ==> IsFirst(basis, length, cons, true, c0)
      invariant !ok && |out| > 0 ==> IsFirst(basis, length, cons, false, out[|out| - 1])
      decreases ok, Earlier(combo[..])
    {
      ghost var c := combo[..];
      SeenOneLess(basis, length, cons, c0, out, c);
      NotEmptyAdmissible(basis, length, cons, c);
      out := out + [combo[..]];
      ok := NextComboB(basis, cons, combo, sum, false);
      if ok { PrecedesShrinksDown(c, combo[..]); }
    }
  }

  lemma {:induction false} NotEmptyAdmissible(basis: seq<Vector>, length: nat, cons: seq<int>, c: Vector)
    requires Rows(basis, length) && |cons| == length > 0 && Admissible(basis, length, cons, c)
    ensures !ZeroFrom(c, 0)
  {
    if ZeroFrom(c, 0) {
      assert c == Zeros(|basis|);
      EmptyAdmissible(basis, length, cons);
    }
  }
}

/** Equality modulo commutative and associative-commutative symbols, and the canonical form that
    decides it: AC arguments flattened, sorted and associated to the right (ladr/accanon.c,
    ladr/ac_redun.c). */
module AcTheory {
  import opened Terms
  import opened Structures

  type Less = (Term, Term) -> bool

  predicate Asymmetric(less: Less, x: Term, y: Term) { less(x, y) ==> !less(y, x) }
  predicate Connected(less: Less, x: Term, y: Term) { less(x, y) || less(y, x) || x == y }
  predicate Transitive(less: Less, x: Term, y: Term, z: Term) { less(x, y) && less(y, z) ==> less(x, z) }

  /** Any strict total order on terms. */
  ghost predicate Ordered(less: Less) {
    && (forall x, y :: Asymmetric(less, x, y))
    && (forall x, y :: Connected(less, x, y))
    && (forall x, y, z :: Transitive(less, x, y, z))
  }

  /** The order laws for particular terms. */
  lemma {:induction false} Pair(less: Less, x: Term, y: Term)
    requires Ordered(less)
    ensures less(x, y) ==> !less(y, x)
    ensures less(x, y) || less(y, x) || x == y
  {
    assert Asymmetric(less, x, y) && Connected(less, x, y);
  }

  lemma {:induction false} Chain(less: Less, x: Term, y: Term, z: Term)
    requires Ordered(less)
    ensures less(x, y) && less(y, z) ==> less(x, z)
    ensures !less(y, x) && !less(z, y) ==> !less(z, x)
  {
    assert Transitive(less, x, y, z) && Transitive(less, z, x, y) && Connected(less, x, y);
  }

  /** The symbols known to be associative-commutative, those known to be commutative only, and the
      order of arguments. */
  datatype Theory = Theory(ac: set<nat>, c: set<nat>, less: Less)

  predicate Top(f: nat, t: Term) {
    t.App? && t.sym == f && |t.args| == 2
  }

  /** The arguments of f at the top of t, left to right. */
  function Flat(f: nat, t: Term): (ts: seq<Term>)
    ensures |ts| > 0
  {
    if Top(f, t) then Flat(f, t.args[0]) + Flat(f, t.args[1]) else [t]
  }

  function Right(f: nat, ts: seq<Term>): Term
    requires |ts| > 0
  {
    if |ts| == 1 then ts[0] else App(f, [ts[0], Right(f, ts[1..])])
  }

  // ---------- Sorting ----------

  ghost predicate Sorted(less: Less, ts: seq<Term>) {
    forall i, j | 0 <= i < j < |ts| :: !less(ts[j], ts[i])
  }

  function Insert(less: Less, x: Term, ts: seq<Term>): (r: seq<Term>)
    ensures |r| == |ts| + 1
  {
    if |ts| == 0 then [x]
    else if less(ts[0], x) then [ts[0]] + Insert(less, x, ts[1..])
    else [x] + ts
  }

  function Sort(less: Less, ts: seq<Term>): (r: seq<Term>)
    ensures |r| == |ts|
  {
    if |ts| == 0 then [] else Insert(less, ts[0], Sort(less, ts[1..]))
  }

  lemma {:induction false} InsertMultiset(less: Less, x: Term, ts: seq<Term>)
    ensures multiset(Insert(less, x, ts)) == multiset(ts) + multiset{x}
  {
    if |ts| > 0 && less(ts[0], x) {
      InsertMultiset(less, x, ts[1..]);
      assert ts == [ts[0]] + ts[1..];
    }
  }

  lemma {:induction false} SortMultiset(less: Less, ts: seq<Term>)
    ensures multiset(Sort(less, ts)) == multiset(ts)
  {
    if |ts| > 0 {
      SortMultiset(less, ts[1..]);
      InsertMultiset(less, ts[0], Sort(less, ts[1..]));
      assert ts == [ts[0]] + ts[1..];
    }
  }

  /** Nothing in ts is below x. */
  ghost predicate Least(less: Less, x: Term, ts: seq<Term>) {
    forall j | 0 <= j < |ts| :: !less(ts[j], x)
  }

  lemma {:induction false} SortedCons(less: Less, x: Term, ts: seq<Term>)
    ensures Sorted(less, [x] + ts) <==> Sorted(less, ts) && Least(less, x, ts)
  {
    var r := [x] + ts;
    assert r[1..] == ts;
    if Sorted(less, r) {
      forall i, j | 0 <= i < j < |ts| ensures !less(ts[j], ts[i]) { assert !less(r[j + 1], r[i + 1]); }
      forall j | 0 <= j < |ts| ensures !less(ts[j], x) { assert !less(r[j + 1], r[0]); }
    }
    if Sorted(less, ts) && Least(less, x, ts) {
      forall i, j | 0 <= i < j < |r| ensures !less(r[j], r[i]) {
        assert r[j] == ts[j - 1] && (i > 0 ==> r[i] == ts[i - 1]);
      }
    }
  }

  lemma {:induction false} LeastIn(less: Less, x: Term, a: seq<Term>, b: multiset<Term>)
    requires multiset(a) == b
    ensures Least(less, x, a) <==> forall t :: t in b ==> !less(t, x)
  {
    if Least(less, x, a) {
      forall t | t in b ensures !less(t, x) {
        assert t in multiset(a);
        var j :| 0 <= j < |a| && a[j] == t;
      }
    }
    if forall t :: t in b ==> !less(t, x) {
      forall j | 0 <= j < |a| ensures !less(a[j], x) { assert a[j] in multiset(a); }
    }
  }

  lemma {:induction false} InsertSorted(less: Less, x: Term, ts: seq<Term>)
    requires Ordered(less) && Sorted(less, ts)
    ensures Sorted(less, Insert(less, x, ts))
  {
    if |ts| > 0 && less(ts[0], x) {
      var rest := Insert(less, x, ts[1..]);
      assert ts == [ts[0]] + ts[1..];
      SortedCons(less, ts[0], ts[1..]);
      InsertSorted(less, x, ts[1..]);
      Pair(less, ts[0], x);
      InsertMultiset(less, x, ts[1..]);
      LeastIn(less, ts[0], ts[1..], multiset(ts[1..]));
      LeastIn(less, ts[0], rest, multiset(ts[1..]) + multiset{x});
      SortedCons(less, ts[0], rest);
    } else if |ts| > 0 {
      forall j | 0 <= j < |ts| ensures !less(ts[j], x) {
        Chain(less, x, ts[0], ts[j]);
        Pair(less, ts[0], ts[0]);
      }
      SortedCons(less, x, ts);
    }
  }

  lemma {:induction false} SortSorted(less: Less, ts: seq<Term>)
    requires Ordered(less)
    ensures Sorted(less, Sort(less, ts))
  {
    if |ts| > 0 {
      SortSorted(less, ts[1..]);
      InsertSorted(less, ts[0], Sort(less, ts[1..]));
    }
  }

  /** There is one sorted arrangement. */
  lemma {:induction false} SortedUnique(less: Less, a: seq<Term>, b: seq<Term>)
    requires Ordered(less) && Sorted(less, a) && Sorted(less, b) && multiset(a) == multiset(b)
    ensures a == b
  {
    assert |b| == |multiset(b)| == |multiset(a)| == |a|;
    if |a| > 0 {
      assert a == [a[0]] + a[1..] && b == [b[0]] + b[1..];
      SortedHead(less, a, b[0]);
      SortedHead(less, b, a[0]);
      Pair(less, a[0], b[0]);
      assert multiset(a[1..]) == multiset(a) - multiset{a[0]};
      assert multiset(b[1..]) == multiset(b) - multiset{b[0]};
      SortedUnique(less, a[1..], b[1..]);
    }
  }

  lemma {:induction false} SortedHead(less: Less, a: seq<Term>, x: Term)
    requires Ordered(less) && Sorted(less, a) && x in multiset(a)
    ensures !less(x, a[0])
  {
    var i :| 0 <= i < |a| && a[i] == x;
    Pair(less, x, x);
  }

  lemma {:induction false} SortAgree(less: Less, a: seq<Term>, b: seq<Term>)
    requires Ordered(less) && multiset(a) == multiset(b)
    ensures Sort(less, a) == Sort(less, b)
  {
    SortSorted(less, a);
    SortSorted(less, b);
    SortMultiset(less, a);
    SortMultiset(less, b);
    SortedUnique(less, Sort(less, a), Sort(less, b));
  }

  lemma {:induction false} SortFixes(less: Less, a: seq<Term>)
    requires Ordered(less) && Sorted(less, a)
    ensures Sort(less, a) == a
  {
    SortSorted(less, a);
    SortMultiset(less, a);
    SortedUnique(less, Sort(less, a), a);
  }

  // ---------- The canonical form ----------

  /** The test for swapping: a comes after b when terms with f at the root come last
      (can_compare gives GREATER_THAN). */
  predicate Above(less: Less, f: nat, a: Term, b: Term) {
    if a.Var? || b.Var? then less(b, a)
    else if Top(f, a) && Top(f, b) then less(b, a)
    else if Top(f, a) then true
    else if Top(f, b) then false
    else less(b, a)
  }

  lemma {:induction false} AboveOnce(less: Less, f: nat, a: Term, b: Term)
    requires Ordered(less)
    ensures Above(less, f, a, b) ==> !Above(less, f, b, a)
    ensures Above(less, f, a, b) || Above(less, f, b, a) || a == b
  {
    Pair(less, a, b);
    Pair(less, b, a);
  }

  predicate IsAC(th: Theory, f: nat, n: nat) { f in th.ac && n == 2 }
  predicate IsC(th: Theory, f: nat, n: nat) { f in th.c && n == 2 }

  /** The canonical term for an AC symbol applied to canonical arguments. */
  function Merge(less: Less, f: nat, x: Term, y: Term): Term {
    Right(f, Sort(less, Flat(f, x) + Flat(f, y)))
  }

  /** The canonical term for f applied to canonical arguments. */
  function Mk(th: Theory, f: nat, args: seq<Term>): Term {
    if IsAC(th, f, |args|) then Merge(th.less, f, args[0], args[1])
    else if IsC(th, f, |args|) && Above(th.less, f, args[0], args[1]) then App(f, [args[1], args[0]])
    else App(f, args)
  }

  function Norm(th: Theory, t: Term): Term
    decreases t, 1
  {
    match t
    case Var(_) => t
    case App(f, args) => Mk(th, f, NormAll(th, args))
  }

  function NormAll(th: Theory, ts: seq<Term>): (r: seq<Term>)
    ensures |r| == |ts| && forall i | 0 <= i < |ts| :: r[i] == Norm(th, ts[i])
    decreases ts, 0
  {
    seq(|ts|, i requires 0 <= i < |ts| => Norm(th, ts[i]))
  }

  ghost predicate NoTop(f: nat, ts: seq<Term>) {
    forall i | 0 <= i < |ts| :: !Top(f, ts[i])
  }

  lemma {:induction false} FlatNoTop(f: nat, t: Term)
    ensures NoTop(f, Flat(f, t))
  {
    if Top(f, t) {
      FlatNoTop(f, t.args[0]);
      FlatNoTop(f, t.args[1]);
    }
  }

  lemma {:induction false} SortNoTop(less: Less, f: nat, ts: seq<Term>)
    requires NoTop(f, ts)
    ensures NoTop(f, Sort(less, ts))
  {
    var r := Sort(less, ts);
    SortMultiset(less, ts);
    forall i | 0 <= i < |r| ensures !Top(f, r[i]) {
      assert r[i] in multiset(r);
      assert r[i] in multiset(ts);
      var j :| 0 <= j < |ts| && ts[j] == r[i];
    }
  }

  lemma {:induction false} FlatRight(f: nat, ts: seq<Term>)
    requires |ts| > 0 && NoTop(f, ts)
    ensures Flat(f, Right(f, ts)) == ts
  {
    if |ts| > 1 {
      FlatRight(f, ts[1..]);
      assert ts == [ts[0]] + ts[1..];
    }
  }

  /** The arguments of a canonical AC term. */
  lemma {:induction false} FlatMerge(less: Less, f: nat, x: Term, y: Term)
    ensures Flat(f, Merge(less, f, x, y)) == Sort(less, Flat(f, x) + Flat(f, y))
  {
    var ts := Flat(f, x) + Flat(f, y);
    FlatNoTop(f, x);
    FlatNoTop(f, y);
    SortNoTop(less, f, ts);
    FlatRight(f, Sort(less, ts));
  }

  // ---------- Sizes ----------

  lemma {:induction false} SizeOfSlice(ts: seq<Term>, us: seq<Term>)
    requires |ts| == |us| && forall i | 0 <= i < |ts| :: Size(ts[i]) == Size(us[i])
    ensures SizeAll(ts) == SizeAll(us)
  {
    if |ts| > 0 { SizeOfSlice(ts[1..], us[1..]); }
  }

  lemma {:induction false} SizePair(f: nat, x: Term, y: Term)
    ensures Size(App(f, [x, y])) == 1 + Size(x) + Size(y)
  {
    assert [x, y][1..] == [y] && [y][1..] == [];
    assert SizeAll([y]) == Size(y) + SizeAll([]);
  }

  lemma {:induction false} SizeInsert(less: Less, x: Term, ts: seq<Term>)
    ensures SizeAll(Insert(less, x, ts)) == Size(x) + SizeAll(ts)
  {
    if |ts| > 0 && less(ts[0], x) {
      SizeInsert(less, x, ts[1..]);
      assert Insert(less, x, ts)[1..] == Insert(less, x, ts[1..]);
    } else {
      assert ([x] + ts)[1..] == ts;
    }
  }

  lemma {:induction false} SizeSort(less: Less, ts: seq<Term>)
    ensures SizeAll(Sort(less, ts)) == SizeAll(ts)
  {
    if |ts| > 0 {
      SizeSort(less, ts[1..]);
      SizeInsert(less, ts[0], Sort(less, ts[1..]));
    }
  }

  lemma {:induction false} SizeRight(f: nat, ts: seq<Term>)
    requires |ts| > 0
    ensures Size(Right(f, ts)) == SizeAll(ts) + |ts| - 1
  {
    if |ts| > 1 {
      SizeRight(f, ts[1..]);
      SizePair(f, ts[0], Right(f, ts[1..]));
    } else {
      assert ts[1..] == [];
    }
  }

  lemma {:induction false} SizeFlat(f: nat, t: Term)
    ensures Size(t) == SizeAll(Flat(f, t)) + |Flat(f, t)| - 1
  {
    if Top(f, t) {
      SizeFlat(f, t.args[0]);
      SizeFlat(f, t.args[1]);
      ConcatAll(Flat(f, t.args[0]), Flat(f, t.args[1]));
      assert t.args == [t.args[0], t.args[1]];
      SizePair(f, t.args[0], t.args[1]);
    } else {
      assert [t][1..] == [];
    }
  }

  lemma {:induction false} SizeMerge(less: Less, f: nat, x: Term, y: Term)
    ensures Size(Merge(less, f, x, y)) == 1 + Size(x) + Size(y)
  {
    var ts := Flat(f, x) + Flat(f, y);
    SizeRight(f, Sort(less, ts));
    SizeSort(less, ts);
    ConcatAll(Flat(f, x), Flat(f, y));
    SizeFlat(f, x);
    SizeFlat(f, y);
  }

  lemma {:induction false} SizeMk(th: Theory, f: nat, args: seq<Term>)
    ensures Size(Mk(th, f, args)) == 1 + SizeAll(args)
  {
    if |args| == 2 {
      assert args == [args[0], args[1]];
      SizePair(f, args[0], args[1]);
      SizePair(f, args[1], args[0]);
      SizeMerge(th.less, f, args[0], args[1]);
    }
  }

  /** Equal terms have the same number of symbols. */
  lemma {:induction false} NormSize(th: Theory, t: Term)
    ensures Size(Norm(th, t)) == Size(t)
    decreases t
  {
    if t.App? {
      forall i | 0 <= i < |t.args| ensures Size(NormAll(th, t.args)[i]) == Size(t.args[i]) {
        NormSize(th, t.args[i]);
      }
      SizeOfSlice(NormAll(th, t.args), t.args);
      SizeMk(th, t.sym, NormAll(th, t.args));
    }
  }

  // ---------- The theory ----------

  predicate Commutes<D(==)>(m: Structure<D>, f: nat, x: D, y: D) {
    m.fun(f, [x, y]) == m.fun(f, [y, x])
  }

  predicate Associates<D(==)>(m: Structure<D>, f: nat, x: D, y: D, z: D) {
    m.fun(f, [m.fun(f, [x, y]), z]) == m.fun(f, [x, m.fun(f, [y, z])])
  }

  /** Structures where the symbols of the theory have their properties. */
  ghost predicate Models<D(!new)>(m: Structure<D>, th: Theory) {
    && (forall f, x, y | f in th.ac || f in th.c :: Commutes(m, f, x, y))
    && (forall f, x, y, z | f in th.ac :: Associates(m, f, x, y, z))
  }

  ghost function Fold<D(!new)>(m: Structure<D>, f: nat, ds: seq<D>): D
    requires |ds| > 0
  {
    if |ds| == 1 then ds[0] else m.fun(f, [ds[0], Fold(m, f, ds[1..])])
  }

  lemma {:induction false} FoldConcat<D(!new)>(m: Structure<D>, th: Theory, f: nat, a: seq<D>, b: seq<D>)
    requires Models(m, th) && f in th.ac && |a| > 0 && |b| > 0
    ensures Fold(m, f, a + b) == m.fun(f, [Fold(m, f, a), Fold(m, f, b)])
  {
    assert (a + b)[0] == a[0];
    if |a| == 1 {
      assert (a + b)[1..] == b;
    } else {
      assert (a + b)[1..] == a[1..] + b;
      FoldConcat(m, th, f, a[1..], b);
      assert Associates(m, f, a[0], Fold(m, f, a[1..]), Fold(m, f, b));
    }
  }

  lemma {:induction false} FoldSwap<D(!new)>(m: Structure<D>, th: Theory, f: nat, x: D, y: D, rest: seq<D>)
    requires Models(m, th) && f in th.ac
    ensures Fold(m, f, [x, y] + rest) == Fold(m, f, [y, x] + rest)
  {
    FoldPair(m, f, x, y);
    FoldPair(m, f, y, x);
    assert Commutes(m, f, x, y);
    if |rest| == 0 {
      assert [x, y] + rest == [x, y] && [y, x] + rest == [y, x];
    } else {
      FoldConcat(m, th, f, [x, y], rest);
      FoldConcat(m, th, f, [y, x], rest);
    }
  }

  lemma {:induction false} FoldPair<D(!new)>(m: Structure<D>, f: nat, x: D, y: D)
    ensures Fold(m, f, [x, y]) == m.fun(f, [x, y])
  {
    assert [x, y][1..] == [y];
    assert Fold(m, f, [y]) == y;
  }

  lemma {:induction false} FoldPast<D(!new)>(m: Structure<D>, th: Theory, f: nat, x: D, y: D, rest: seq<D>, r: seq<D>)
    requires Models(m, th) && f in th.ac && |r| > 0 && Fold(m, f, r) == Fold(m, f, [x] + rest)
    ensures Fold(m, f, [y] + r) == Fold(m, f, [x, y] + rest)
  {
    FoldConcat(m, th, f, [y], r);
    FoldConcat(m, th, f, [y], [x] + rest);
    FoldSwap(m, th, f, x, y, rest);
    assert [y] + ([x] + rest) == [y, x] + rest;
  }

  lemma {:induction false} FoldInsert<D(!new)>(m: Structure<D>, th: Theory, f: nat, x: Term, ts: seq<Term>, e: Env<D>)
    requires Models(m, th) && f in th.ac
    ensures Fold(m, f, Values(Insert(th.less, x, ts), m, e)) == Fold(m, f, [Value(x, m, e)] + Values(ts, m, e))
  {
    var d := Value(x, m, e);
    if |ts| > 0 && th.less(ts[0], x) {
      var rest, r := ts[1..], Insert(th.less, x, ts[1..]);
      var y := Value(ts[0], m, e);
      FoldInsert(m, th, f, x, rest, e);
      FoldPast(m, th, f, d, y, Values(rest, m, e), Values(r, m, e));
      ValuesCons(m, ts[0], r, e);
      ValuesCons(m, ts[0], rest, e);
      assert ts == [ts[0]] + rest;
      assert [d] + ([y] + Values(rest, m, e)) == [d, y] + Values(rest, m, e);
    } else {
      ValuesCons(m, x, ts, e);
    }
  }

  lemma {:induction false} ValuesCons<D(!new)>(m: Structure<D>, t: Term, ts: seq<Term>, e: Env<D>)
    ensures Values([t] + ts, m, e) == [Value(t, m, e)] + Values(ts, m, e)
  {
  }

  /** The order of AC arguments does not matter to the value. */
  lemma {:induction false} FoldSort<D(!new)>(m: Structure<D>, th: Theory, f: nat, ts: seq<Term>, e: Env<D>)
    requires Models(m, th) && f in th.ac && |ts| > 0
    ensures Fold(m, f, Values(Sort(th.less, ts), m, e)) == Fold(m, f, Values(ts, m, e))
  {
    var s, ds := Sort(th.less, ts[1..]), Values(ts, m, e);
    FoldInsert(m, th, f, ts[0], s, e);
    if |ts| > 1 {
      FoldSort(m, th, f, ts[1..], e);
      FoldConcat(m, th, f, [ds[0]], Values(s, m, e));
      FoldConcat(m, th, f, [ds[0]], Values(ts[1..], m, e));
      assert Values(ts[1..], m, e) == ds[1..];
    } else {
      assert Values(s, m, e) == [];
    }
    assert [ds[0]] + ds[1..] == ds;
  }

  lemma {:induction false} FlatValue<D(!new)>(m: Structure<D>, th: Theory, f: nat, t: Term, e: Env<D>)
    requires Models(m, th) && f in th.ac
    ensures Fold(m, f, Values(Flat(f, t), m, e)) == Value(t, m, e)
  {
    if Top(f, t) {
      var a, b := Flat(f, t.args[0]), Flat(f, t.args[1]);
      FlatValue(m, th, f, t.args[0], e);
      FlatValue(m, th, f, t.args[1], e);
      assert Values(a + b, m, e) == Values(a, m, e) + Values(b, m, e);
      FoldConcat(m, th, f, Values(a, m, e), Values(b, m, e));
      assert Values(t.args, m, e) == [Value(t.args[0], m, e), Value(t.args[1], m, e)];
    } else {
      assert Values([t], m, e) == [Value(t, m, e)];
    }
  }

  lemma {:induction false} RightValue<D(!new)>(m: Structure<D>, f: nat, ts: seq<Term>, e: Env<D>)
    requires |ts| > 0
    ensures Value(Right(f, ts), m, e) == Fold(m, f, Values(ts, m, e))
  {
    if |ts| > 1 {
      RightValue(m, f, ts[1..], e);
      var pair := [ts[0], Right(f, ts[1..])];
      assert Values(pair, m, e) == [Value(ts[0], m, e), Value(Right(f, ts[1..]), m, e)];
      assert Values(ts, m, e)[1..] == Values(ts[1..], m, e);
    }
  }

  lemma {:induction false} MergeValue<D(!new)>(m: Structure<D>, th: Theory, f: nat, x: Term, y: Term, e: Env<D>)
    requires Models(m, th) && f in th.ac
    ensures Value(Merge(th.less, f, x, y), m, e) == m.fun(f, [Value(x, m, e), Value(y, m, e)])
  {
    var a, b := Flat(f, x), Flat(f, y);
    RightValue(m, f, Sort(th.less, a + b), e);
    FoldSort(m, th, f, a + b, e);
    assert Values(a + b, m, e) == Values(a, m, e) + Values(b, m, e);
    FoldConcat(m, th, f, Values(a, m, e), Values(b, m, e));
    FlatValue(m, th, f, x, e);
    FlatValue(m, th, f, y, e);
  }

  lemma {:induction false} MkValue<D(!new)>(m: Structure<D>, th: Theory, f: nat, args: seq<Term>, e: Env<D>)
    requires Models(m, th)
    ensures Value(Mk(th, f, args), m, e) == m.fun(f, Values(args, m, e))
  {
    if |args| == 2 {
      var x, y := Value(args[0], m, e), Value(args[1], m, e);
      assert Values(args, m, e) == [x, y];
      if IsAC(th, f, |args|) {
        MergeValue(m, th, f, args[0], args[1], e);
      } else if IsC(th, f, |args|) {
        assert Commutes(m, f, x, y);
        assert Values([args[1], args[0]], m, e) == [y, x];
      }
    }
  }

  /** The canonical form has the value of the term in every model of the theory. */
  lemma {:induction false} NormValue<D(!new)>(m: Structure<D>, th: Theory, t: Term, e: Env<D>)
    requires Models(m, th)
    ensures Value(Norm(th, t), m, e) == Value(t, m, e)
    decreases t
  {
    if t.App? {
      MkValue(m, th, t.sym, NormAll(th, t.args), e);
      forall i | 0 <= i < |t.args| ensures Value(NormAll(th, t.args)[i], m, e) == Value(t.args[i], m, e) {
        NormValue(m, th, t.args[i], e);
      }
      assert Values(NormAll(th, t.args), m, e) == Values(t.args, m, e);
    }
  }

  // ---------- The model made of canonical forms ----------

  ghost function Canonicals(th: Theory): Structure<Term> {
    Structure((f: nat, ts: seq<Term>) => Mk(th, f, ts), (p: nat, ts: seq<Term>) => false)
  }

  lemma {:induction false} MkCommutes(th: Theory, f: nat, x: Term, y: Term)
    requires Ordered(th.less) && (f in th.ac || f in th.c)
    ensures Mk(th, f, [x, y]) == Mk(th, f, [y, x])
  {
    if f in th.ac {
      SortAgree(th.less, Flat(f, x) + Flat(f, y), Flat(f, y) + Flat(f, x));
    } else {
      AboveOnce(th.less, f, x, y);
    }
  }

  lemma {:induction false} MergeAssociates(less: Less, f: nat, x: Term, y: Term, z: Term)
    requires Ordered(less)
    ensures Merge(less, f, Merge(less, f, x, y), z) == Merge(less, f, x, Merge(less, f, y, z))
  {
    var a, b, c := Flat(f, x), Flat(f, y), Flat(f, z);
    FlatMerge(less, f, x, y);
    FlatMerge(less, f, y, z);
    SortMultiset(less, a + b);
    SortMultiset(less, b + c);
    SortAgree(less, Sort(less, a + b) + c, a + Sort(less, b + c));
  }

  lemma {:induction false} MkAssociates(th: Theory, f: nat, x: Term, y: Term, z: Term)
    requires Ordered(th.less) && f in th.ac
    ensures Mk(th, f, [Mk(th, f, [x, y]), z]) == Mk(th, f, [x, Mk(th, f, [y, z])])
  {
    MergeAssociates(th.less, f, x, y, z);
  }

  lemma {:induction false} CanonicalsModel(th: Theory)
    requires Ordered(th.less)
    ensures Models(Canonicals(th), th)
  {
    var m := Canonicals(th);
    forall f, x, y | f in th.ac || f in th.c ensures Commutes(m, f, x, y) {
      MkCommutes(th, f, x, y);
    }
    forall f, x, y, z | f in th.ac ensures Associates(m, f, x, y, z) {
      MkAssociates(th, f, x, y, z);
    }
  }

  /** Variables standing for themselves. */
  ghost function Itself(vs: set<nat>): Env<Term> {
    map n | n in vs :: Var(n)
  }

  lemma {:induction false} ValueIsNorm(th: Theory, t: Term, vs: set<nat>)
    requires Vars(t) <= vs
    ensures Value(t, Canonicals(th), Itself(vs)) == Norm(th, t)
    decreases t
  {
    if t.App? {
      forall i | 0 <= i < |t.args| ensures Value(t.args[i], Canonicals(th), Itself(vs)) == Norm(th, t.args[i]) {
        VarsAllAt(t.args, i);
        ValueIsNorm(th, t.args[i], vs);
      }
      assert Values(t.args, Canonicals(th), Itself(vs)) == NormAll(th, t.args);
    }
  }

  /** Terms equal modulo the theory: with the same value in every model over D. */
  ghost predicate EqualIn<D(!new)>(th: Theory, s: Term, t: Term) {
    forall m: Structure<D>, e: Env<D> | Models(m, th) :: Value(s, m, e) == Value(t, m, e)
  }

  /** Equal canonical forms mean equality modulo the theory, in every model. */
  lemma {:induction false} NormSound<D(!new)>(th: Theory, s: Term, t: Term)
    requires Norm(th, s) == Norm(th, t)
    ensures EqualIn<D>(th, s, t)
  {
    forall m: Structure<D>, e: Env<D> | Models(m, th) ensures Value(s, m, e) == Value(t, m, e) {
      NormValue(m, th, s, e);
      NormValue(m, th, t, e);
    }
  }

  /** Terms equal in the models over terms already have the same canonical form. */
  lemma {:induction false} NormComplete(th: Theory, s: Term, t: Term)
    requires Ordered(th.less) && EqualIn<Term>(th, s, t)
    ensures Norm(th, s) == Norm(th, t)
  {
    var m, e := Canonicals(th), Itself(Vars(s) + Vars(t));
    CanonicalsModel(th);
    ValueIsNorm(th, s, Vars(s) + Vars(t));
    ValueIsNorm(th, t, Vars(s) + Vars(t));
    assert Value(s, m, e) == Value(t, m, e);
  }

  /** The canonical form decides equality modulo the theory. */
  lemma {:induction false} NormDecides(th: Theory, s: Term, t: Term)
    requires Ordered(th.less)
    ensures Norm(th, s) == Norm(th, t) <==> EqualIn<Term>(th, s, t)
  {
    if Norm(th, s) == Norm(th, t) { NormSound<Term>(th, s, t); }
    if EqualIn<Term>(th, s, t) { NormComplete(th, s, t); }
  }

  // ---------- Which terms are canonical ----------

  /** The first argument of f at the top of t. */
  function First(f: nat, t: Term): Term
    decreases t
  {
    if Top(f, t) then First(f, t.args[0]) else t
  }

  /** a may stand before b under the commutative symbol f: of two nonvariable terms only one of which has
      f at its root, that one comes last; otherwise the order decides. */
  ghost predicate Precedes(less: Less, f: nat, a: Term, b: Term) {
    if a.App? && b.App? && Top(f, a) != Top(f, b) then Top(f, b) else !less(b, a)
  }

  /** Under every AC symbol the terms hang to the right and ascend; the two arguments of every other commutative
      symbol are in order. */
  ghost predicate Canonical(th: Theory, t: Term) {
    t.App? ==>
      && (forall i | 0 <= i < |t.args| :: Canonical(th, t.args[i]))
      && (t.sym in th.ac && |t.args| == 2 ==>
        !Top(t.sym, t.args[0]) && !th.less(First(t.sym, t.args[1]), t.args[0]))
      && (t.sym !in th.ac && t.sym in th.c && |t.args| == 2 ==> Precedes(th.less, t.sym, t.args[0], t.args[1]))
  }

  /** The arguments of a canonical AC term, and the term again from them. */
  lemma {:induction false} CanonicalSpine(th: Theory, f: nat, t: Term)
    requires Ordered(th.less) && f in th.ac && Canonical(th, t)
    ensures Sorted(th.less, Flat(f, t)) && Flat(f, t)[0] == First(f, t) && Right(f, Flat(f, t)) == t
    decreases t
  {
    if Top(f, t) {
      var x, y := t.args[0], t.args[1];
      assert Canonical(th, y) && t.args == [x, y];
      CanonicalSpine(th, f, y);
      var ts := Flat(f, y);
      assert Flat(f, t) == [x] + ts && ([x] + ts)[1..] == ts;
      forall j | 0 <= j < |ts| ensures !th.less(ts[j], x) { Chain(th.less, x, ts[0], ts[j]); }
      SortedCons(th.less, x, ts);
    }
  }

  ghost predicate CanonicalAll(th: Theory, ts: seq<Term>) {
    forall i | 0 <= i < |ts| :: Canonical(th, ts[i])
  }

  lemma {:induction false} FlatCanonical(th: Theory, f: nat, t: Term)
    requires Canonical(th, t)
    ensures CanonicalAll(th, Flat(f, t))
    decreases t
  {
    if Top(f, t) {
      assert Canonical(th, t.args[0]) && Canonical(th, t.args[1]);
      FlatCanonical(th, f, t.args[0]);
      FlatCanonical(th, f, t.args[1]);
    }
  }

  lemma {:induction false} SortCanonical(th: Theory, ts: seq<Term>)
    requires CanonicalAll(th, ts)
    ensures CanonicalAll(th, Sort(th.less, ts))
  {
    var r := Sort(th.less, ts);
    SortMultiset(th.less, ts);
    forall i | 0 <= i < |r| ensures Canonical(th, r[i]) {
      assert r[i] in multiset(r) && r[i] in multiset(ts);
      var j :| 0 <= j < |ts| && ts[j] == r[i];
    }
  }

  lemma {:induction false} RightCanonical(th: Theory, f: nat, ts: seq<Term>)
    requires f in th.ac && |ts| > 0 && Sorted(th.less, ts) && NoTop(f, ts) && CanonicalAll(th, ts)
    ensures Canonical(th, Right(f, ts)) && First(f, Right(f, ts)) == ts[0]
  {
    if |ts| > 1 {
      RightCanonical(th, f, ts[1..]);
      var y := Right(f, ts[1..]);
      assert !th.less(ts[1], ts[0]) && !Top(f, ts[0]);
      var t := Right(f, ts);
      assert t == App(f, [ts[0], y]) && t.args[0] == ts[0] && t.args[1] == y;
    }
  }

  /** Normal forms are canonical. */
  lemma {:induction false} NormCanonical(th: Theory, t: Term)
    requires Ordered(th.less)
    ensures Canonical(th, Norm(th, t))
    decreases t
  {
    if t.App? {
      var f, args := t.sym, NormAll(th, t.args);
      forall i | 0 <= i < |args| ensures Canonical(th, args[i]) { NormCanonical(th, t.args[i]); }
      if IsAC(th, f, |args|) {
        var ts := Flat(f, args[0]) + Flat(f, args[1]);
        FlatCanonical(th, f, args[0]);
        FlatCanonical(th, f, args[1]);
        FlatNoTop(f, args[0]);
        FlatNoTop(f, args[1]);
        SortCanonical(th, ts);
        SortNoTop(th.less, f, ts);
        SortSorted(th.less, ts);
        RightCanonical(th, f, Sort(th.less, ts));
      } else if IsC(th, f, |args|) {
        Pair(th.less, args[0], args[1]);
        AboveOnce(th.less, f, args[0], args[1]);
      }
    }
  }

  /** Exactly the canonical terms are their own normal forms. */
  lemma {:induction false} CanonicalExact(th: Theory, t: Term)
    requires Ordered(th.less)
    ensures Norm(th, t) == t <==> Canonical(th, t)
    decreases t
  {
    NormCanonical(th, t);
    if Canonical(th, t) && t.App? {
      var f, args := t.sym, t.args;
      forall i | 0 <= i < |args| ensures Norm(th, args[i]) == args[i] { CanonicalExact(th, args[i]); }
      assert NormAll(th, args) == args;
      if IsAC(th, f, |args|) {
        CanonicalSpine(th, f, t);
        SortFixes(th.less, Flat(f, t));
      } else if IsC(th, f, |args|) {
        Pair(th.less, args[0], args[1]);
      }
    }
  }
}

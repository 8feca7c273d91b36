/** Feature vectors of clauses (ladr/features.c): counts of literals and symbols and depths of function
    symbols, kept small enough never to rule out a subsumer whose literals go to different literals. */
module Features {
  import opened Terms

  // ---------- Counting ----------

  /** Occurrences of symbol f. */
  function Occ(t: Term, f: nat): nat
    decreases t, 1
  {
    match t
    case Var(_) => 0
    case App(g, args) => (if g == f then 1 else 0) + OccAll(args, f)
  }

  function OccAll(ts: seq<Term>, f: nat): nat
    decreases ts, 0
  {
    if |ts| == 0 then 0 else Occ(ts[0], f) + OccAll(ts[1..], f)
  }

  function Max(a: nat, b: nat): nat { if a > b then a else b }

  /** The greatest depth of an occurrence of f, or b if that is more; t stands at depth d. */
  function Deep(t: Term, f: nat, d: nat, b: nat): (r: nat)
    ensures r >= b
    decreases t, 1
  {
    match t
    case Var(_) => b
    case App(g, args) => DeepAll(args, f, d + 1, if g == f then Max(d, b) else b)
  }

  function DeepAll(ts: seq<Term>, f: nat, d: nat, b: nat): (r: nat)
    ensures r >= b
    decreases ts, 0
  {
    if |ts| == 0 then b else DeepAll(ts[1..], f, d, Deep(ts[0], f, d, b))
  }

  // ---------- Clauses ----------

  function Literals(c: seq<Literal>, sign: bool): nat {
    if |c| == 0 then 0 else (if c[0].sign == sign then 1 else 0) + Literals(c[1..], sign)
  }

  function OccIn(c: seq<Literal>, sign: bool, f: nat): nat {
    if |c| == 0 then 0 else (if c[0].sign == sign then Occ(c[0].atom, f) else 0) + OccIn(c[1..], sign, f)
  }

  function DeepIn(c: seq<Literal>, sign: bool, f: nat, b: nat): (r: nat)
    ensures r >= b
  {
    if |c| == 0 then b else DeepIn(c[1..], sign, f, if c[0].sign == sign then Deep(c[0].atom, f, 0, b) else b)
  }

  /** The features of one symbol; a symbol that comes again in the list of symbols counts as 0. */
  function Row(c: seq<Literal>, f: nat, function_: bool, again: bool): seq<nat> {
    if again then (if function_ then [0, 0, 0, 0] else [0, 0])
    else [OccIn(c, true, f), OccIn(c, false, f)] +
         (if function_ then [DeepIn(c, true, f, 0), DeepIn(c, false, f, 0)] else [])
  }

  function Rows(c: seq<Literal>, symbols: seq<nat>, functions: set<nat>, n: nat): seq<nat>
    requires n <= |symbols|
  {
    if n == 0 then []
    else Rows(c, symbols, functions, n - 1) +
         Row(c, symbols[n - 1], symbols[n - 1] in functions, symbols[n - 1] in symbols[..n - 1])
  }

  /** The feature vector. */
  function Vector(c: seq<Literal>, symbols: seq<nat>, functions: set<nat>): seq<nat> {
    [Literals(c, true), Literals(c, false)] + Rows(c, symbols, functions, |symbols|)
  }

  // ---------- What stands in which place ----------

  /** The atoms of the literals with this sign. */
  function AtomsOf(c: seq<Literal>, sign: bool): seq<Term> {
    if |c| == 0 then [] else (if c[0].sign == sign then [c[0].atom] else []) + AtomsOf(c[1..], sign)
  }

  /** The symbols of a term at depth d with their depths, in prefix order. */
  function SymbolsAt(t: Term, d: nat): seq<(nat, nat)>
    decreases t, 1
  {
    match t
    case Var(_) => []
    case App(f, args) => [(f, d)] + SymbolsAtAll(args, d + 1)
  }

  function SymbolsAtAll(ts: seq<Term>, d: nat): seq<(nat, nat)>
    decreases ts, 0
  {
    if |ts| == 0 then [] else SymbolsAt(ts[0], d) + SymbolsAtAll(ts[1..], d)
  }

  function Times(xs: seq<(nat, nat)>, f: nat): nat {
    if |xs| == 0 then 0 else (if xs[0].0 == f then 1 else 0) + Times(xs[1..], f)
  }

  /** d is the greatest depth of f, or b if that is more. */
  ghost predicate Deepest(xs: seq<(nat, nat)>, f: nat, b: nat, d: nat) {
    d >= b && (forall x | x in xs && x.0 == f :: x.1 <= d) && (d == b || (f, d) in xs)
  }

  lemma {:induction false} TimesConcat(a: seq<(nat, nat)>, b: seq<(nat, nat)>, f: nat)
    ensures Times(a + b, f) == Times(a, f) + Times(b, f)
  {
    if |a| == 0 {
      assert a + b == b;
    } else {
      assert (a + b)[0] == a[0] && (a + b)[1..] == a[1..] + b;
      TimesConcat(a[1..], b, f);
    }
  }

  lemma {:induction false} DeepestConcat(a: seq<(nat, nat)>, b: seq<(nat, nat)>, f: nat, x: nat, y: nat, z: nat)
    requires Deepest(a, f, x, y) && Deepest(b, f, y, z)
    ensures Deepest(a + b, f, x, z)
  {
  }

  lemma {:induction false} TermCounts(t: Term, f: nat, d: nat, b: nat)
    ensures Occ(t, f) == Times(SymbolsAt(t, d), f) && Deepest(SymbolsAt(t, d), f, b, Deep(t, f, d, b))
    decreases t, 1
  {
    if t.App? {
      var one := [(t.sym, d)];
      var c := if t.sym == f then Max(d, b) else b;
      TermsCount(t.args, f, d + 1, c);
      TimesConcat(one, SymbolsAtAll(t.args, d + 1), f);
      assert one[1..] == [] && Times(one, f) == (if one[0].0 == f then 1 else 0) + Times(one[1..], f);
      assert Deepest(one, f, b, c) by { assert one[0] in one; }
      DeepestConcat(one, SymbolsAtAll(t.args, d + 1), f, b, c, Deep(t, f, d, b));
    }
  }

  lemma {:induction false} TermsCount(ts: seq<Term>, f: nat, d: nat, b: nat)
    ensures OccAll(ts, f) == Times(SymbolsAtAll(ts, d), f) && Deepest(SymbolsAtAll(ts, d), f, b, DeepAll(ts, f, d, b))
    decreases ts, 0
  {
    if |ts| > 0 {
      var c := Deep(ts[0], f, d, b);
      TermCounts(ts[0], f, d, b);
      TermsCount(ts[1..], f, d, c);
      TimesConcat(SymbolsAt(ts[0], d), SymbolsAtAll(ts[1..], d), f);
      DeepestConcat(SymbolsAt(ts[0], d), SymbolsAtAll(ts[1..], d), f, b, c, DeepAll(ts, f, d, b));
    }
  }

  lemma {:induction false} ClauseCounts(c: seq<Literal>, sign: bool, f: nat, b: nat)
    ensures Literals(c, sign) == |AtomsOf(c, sign)|
    ensures OccIn(c, sign, f) == Times(SymbolsAtAll(AtomsOf(c, sign), 0), f)
    ensures Deepest(SymbolsAtAll(AtomsOf(c, sign), 0), f, b, DeepIn(c, sign, f, b))
  {
    if |c| > 0 {
      var rest := AtomsOf(c[1..], sign);
      if c[0].sign == sign {
        var x := Deep(c[0].atom, f, 0, b);
        ClauseCounts(c[1..], sign, f, x);
        TermCounts(c[0].atom, f, 0, b);
        var atoms := [c[0].atom] + rest;
        assert atoms[0] == c[0].atom && atoms[1..] == rest;
        TimesConcat(SymbolsAt(c[0].atom, 0), SymbolsAtAll(rest, 0), f);
        DeepestConcat(SymbolsAt(c[0].atom, 0), SymbolsAtAll(rest, 0), f, b, x, DeepIn(c, sign, f, b));
      } else {
        ClauseCounts(c[1..], sign, f, b);
        assert [] + rest == rest;
      }
    }
  }

  /** Where the features of the n-th symbol stand among those of symbols: two for each symbol, two more for
      a function symbol. */
  function Place(symbols: seq<nat>, functions: set<nat>, n: nat): nat
    requires n <= |symbols|
  {
    if n == 0 then 0 else Place(symbols, functions, n - 1) + if symbols[n - 1] in functions then 4 else 2
  }

  lemma {:induction false} RowsAt(c: seq<Literal>, symbols: seq<nat>, functions: set<nat>, n: nat, k: nat, i: nat)
    requires n < k <= |symbols|
    requires i < |Row(c, symbols[n], symbols[n] in functions, symbols[n] in symbols[..n])|
    ensures |Rows(c, symbols, functions, k)| == Place(symbols, functions, k)
    ensures Place(symbols, functions, n) + i < Place(symbols, functions, k)
    ensures Rows(c, symbols, functions, k)[Place(symbols, functions, n) + i] ==
            Row(c, symbols[n], symbols[n] in functions, symbols[n] in symbols[..n])[i]
    decreases k
  {
    RowsSize(c, symbols, functions, k - 1);
    if n < k - 1 { RowsAt(c, symbols, functions, n, k - 1, i); }
  }

  lemma {:induction false} RowsSize(c: seq<Literal>, symbols: seq<nat>, functions: set<nat>, n: nat)
    requires n <= |symbols|
    ensures |Rows(c, symbols, functions, n)| == Place(symbols, functions, n)
  {
    if n > 0 { RowsSize(c, symbols, functions, n - 1); }
  }

  lemma {:induction false} VectorRow(c: seq<Literal>, symbols: seq<nat>, functions: set<nat>, n: nat, i: nat)
    requires n < |symbols|
    requires i < |Row(c, symbols[n], symbols[n] in functions, symbols[n] in symbols[..n])|
    ensures var v, p := Vector(c, symbols, functions), 2 + Place(symbols, functions, n);
            |v| == 2 + Place(symbols, functions, |symbols|) && p + i < |v| &&
            v[p + i] == Row(c, symbols[n], symbols[n] in functions, symbols[n] in symbols[..n])[i]
  {
    RowsAt(c, symbols, functions, n, |symbols|, i);
  }

  /** The vector starts with the numbers of positive and negative literals; for each symbol that is listed
      for the first time follow its occurrences in positive and negative literals, and for a function symbol
      its greatest depths in them. */
  lemma {:induction false} VectorPlaces(c: seq<Literal>, symbols: seq<nat>, functions: set<nat>, n: nat)
    requires n < |symbols| && symbols[n] !in symbols[..n]
    ensures var v, f, p := Vector(c, symbols, functions), symbols[n], 2 + Place(symbols, functions, n);
            var pos, neg := SymbolsAtAll(AtomsOf(c, true), 0), SymbolsAtAll(AtomsOf(c, false), 0);
            && |v| == 2 + Place(symbols, functions, |symbols|) && p + 1 < |v| && (f in functions ==> p + 3 < |v|)
            && v[0] == |AtomsOf(c, true)| && v[1] == |AtomsOf(c, false)|
            && v[p] == Times(pos, f) && v[p + 1] == Times(neg, f)
            && (f in functions ==> Deepest(pos, f, 0, v[p + 2]) && Deepest(neg, f, 0, v[p + 3]))
  {
    var v, f, p := Vector(c, symbols, functions), symbols[n], 2 + Place(symbols, functions, n);
    var row := Row(c, f, f in functions, false);
    VectorRow(c, symbols, functions, n, 0);
    VectorRow(c, symbols, functions, n, 1);
    if f in functions {
      VectorRow(c, symbols, functions, n, 2);
      VectorRow(c, symbols, functions, n, 3);
    }
    ClauseCounts(c, true, f, 0);
    ClauseCounts(c, false, f, 0);
    assert v[p + 0] == row[0];
  }

  predicate LessOrEqual(v: seq<nat>, w: seq<nat>) {
    |v| == |w| && forall i | 0 <= i < |v| :: v[i] <= w[i]
  }

  // ---------- Features only grow under instantiation and in larger clauses ----------

  lemma {:induction false} OccApply(t: Term, s: Subst, f: nat)
    ensures Occ(t, f) <= Occ(Apply(t, s), f)
    decreases t, 1
  {
    if t.App? { OccApplyAll(t.args, s, f); }
  }

  lemma {:induction false} OccApplyAll(ts: seq<Term>, s: Subst, f: nat)
    ensures OccAll(ts, f) <= OccAll(ApplyAll(ts, s), f)
    decreases ts, 0
  {
    if |ts| > 0 {
      OccApply(ts[0], s, f);
      OccApplyAll(ts[1..], s, f);
      assert ApplyAll(ts, s)[1..] == ApplyAll(ts[1..], s);
    }
  }

  lemma {:induction false} DeepApply(t: Term, s: Subst, f: nat, d: nat, a: nat, b: nat)
    requires a <= b
    ensures Deep(t, f, d, a) <= Deep(Apply(t, s), f, d, b)
    decreases t, 1
  {
    if t.App? {
      DeepApplyAll(t.args, s, f, d + 1, if t.sym == f then Max(d, a) else a, if t.sym == f then Max(d, b) else b);
    }
  }

  lemma {:induction false} DeepApplyAll(ts: seq<Term>, s: Subst, f: nat, d: nat, a: nat, b: nat)
    requires a <= b
    ensures DeepAll(ts, f, d, a) <= DeepAll(ApplyAll(ts, s), f, d, b)
    decreases ts, 0
  {
    if |ts| > 0 {
      DeepApply(ts[0], s, f, d, a, b);
      DeepApplyAll(ts[1..], s, f, d, Deep(ts[0], f, d, a), Deep(Apply(ts[0], s), f, d, b));
      assert ApplyAll(ts, s)[1..] == ApplyAll(ts[1..], s);
    }
  }

  /** A depth is the maximum of what each term gives. */
  lemma {:induction false} DeepMax(t: Term, f: nat, d: nat, b: nat)
    ensures Deep(t, f, d, b) == Max(b, Deep(t, f, d, 0))
    decreases t, 1
  {
    if t.App? {
      DeepMaxAll(t.args, f, d + 1, if t.sym == f then Max(d, b) else b);
      DeepMaxAll(t.args, f, d + 1, if t.sym == f then Max(d, 0) else 0);
    }
  }

  lemma {:induction false} DeepMaxAll(ts: seq<Term>, f: nat, d: nat, b: nat)
    ensures DeepAll(ts, f, d, b) == Max(b, DeepAll(ts, f, d, 0))
    decreases ts, 0
  {
    if |ts| > 0 {
      DeepMax(ts[0], f, d, b);
      DeepMaxAll(ts[1..], f, d, Deep(ts[0], f, d, b));
      DeepMaxAll(ts[1..], f, d, Deep(ts[0], f, d, 0));
    }
  }

  lemma {:induction false} DeepInMax(c: seq<Literal>, sign: bool, f: nat, b: nat)
    ensures DeepIn(c, sign, f, b) == Max(b, DeepIn(c, sign, f, 0))
  {
    if |c| > 0 {
      if c[0].sign == sign { DeepMax(c[0].atom, f, 0, b); }
      DeepInMax(c[1..], sign, f, if c[0].sign == sign then Deep(c[0].atom, f, 0, b) else b);
      DeepInMax(c[1..], sign, f, if c[0].sign == sign then Deep(c[0].atom, f, 0, 0) else 0);
    }
  }

  function Instances(c: seq<Literal>, s: Subst): (r: seq<Literal>)
    ensures |r| == |c| && forall i | 0 <= i < |c| :: r[i] == Literal(c[i].sign, Apply(c[i].atom, s))
  {
    seq(|c|, i requires 0 <= i < |c| => Literal(c[i].sign, Apply(c[i].atom, s)))
  }

  /** Every count and depth of c is at most that of e. */
  ghost predicate Dominated(c: seq<Literal>, e: seq<Literal>, sign: bool, f: nat) {
    && Literals(c, sign) <= Literals(e, sign)
    && OccIn(c, sign, f) <= OccIn(e, sign, f)
    && DeepIn(c, sign, f, 0) <= DeepIn(e, sign, f, 0)
  }

  lemma {:induction false} InstancesDominate(c: seq<Literal>, s: Subst, sign: bool, f: nat)
    ensures Dominated(c, Instances(c, s), sign, f)
  {
    var e := Instances(c, s);
    if |c| > 0 {
      InstancesDominate(c[1..], s, sign, f);
      assert e[1..] == Instances(c[1..], s);
      var a := if c[0].sign == sign then Deep(c[0].atom, f, 0, 0) else 0;
      var b := if c[0].sign == sign then Deep(e[0].atom, f, 0, 0) else 0;
      OccApply(c[0].atom, s, f);
      DeepApply(c[0].atom, s, f, 0, 0, 0);
      DeepInMax(c[1..], sign, f, a);
      DeepInMax(e[1..], sign, f, b);
    }
  }

  /** Taking a literal out of a clause. */
  lemma {:induction false} TakeOut(d: seq<Literal>, j: nat, sign: bool, f: nat)
    requires j < |d|
    ensures var e := [d[j]] + (d[..j] + d[j + 1..]);
            && Literals(e, sign) == Literals(d, sign) && OccIn(e, sign, f) == OccIn(d, sign, f)
            && DeepIn(e, sign, f, 0) == DeepIn(d, sign, f, 0)
    decreases j
  {
    var e := [d[j]] + (d[..j] + d[j + 1..]);
    if j == 0 {
      assert e == d;
    } else {
      TakeOut(d[1..], j - 1, sign, f);
      var rest := d[1..][..j - 1] + d[1..][j..];
      assert d[1..][j - 1] == d[j] && [d[j]] + rest == [d[1..][j - 1]] + rest;
      assert e == [d[j], d[0]] + rest by { assert d[..j] + d[j + 1..] == [d[0]] + rest; }
      Exchange(d[j], d[0], rest, sign, f);
      assert [d[0]] + ([d[j]] + rest) == [d[0], d[j]] + rest;
      SameHead(d[0], [d[j]] + rest, d[1..], sign, f);
      assert [d[0]] + d[1..] == d;
    }
  }

  lemma {:induction false} Cons(x: Literal, c: seq<Literal>, sign: bool, f: nat)
    ensures Literals([x] + c, sign) == (if x.sign == sign then 1 else 0) + Literals(c, sign)
    ensures OccIn([x] + c, sign, f) == (if x.sign == sign then Occ(x.atom, f) else 0) + OccIn(c, sign, f)
    ensures DeepIn([x] + c, sign, f, 0) ==
            Max(if x.sign == sign then Deep(x.atom, f, 0, 0) else 0, DeepIn(c, sign, f, 0))
  {
    assert ([x] + c)[1..] == c;
    DeepInMax(c, sign, f, if x.sign == sign then Deep(x.atom, f, 0, 0) else 0);
  }

  lemma {:induction false} Exchange(x: Literal, y: Literal, c: seq<Literal>, sign: bool, f: nat)
    ensures Literals([x, y] + c, sign) == Literals([y, x] + c, sign) &&
              OccIn([x, y] + c, sign, f) == OccIn([y, x] + c, sign, f)
    ensures DeepIn([x, y] + c, sign, f, 0) == DeepIn([y, x] + c, sign, f, 0)
  {
    assert [x, y] + c == [x] + ([y] + c) && [y, x] + c == [y] + ([x] + c);
    Cons(x, [y] + c, sign, f);
    Cons(y, c, sign, f);
    Cons(y, [x] + c, sign, f);
    Cons(x, c, sign, f);
  }

  lemma {:induction false} SameHead(x: Literal, c: seq<Literal>, e: seq<Literal>, sign: bool, f: nat)
    requires Literals(c, sign) == Literals(e, sign) && OccIn(c, sign, f) == OccIn(e, sign, f)
    requires DeepIn(c, sign, f, 0) == DeepIn(e, sign, f, 0)
    ensures Literals([x] + c, sign) == Literals([x] + e, sign) && OccIn([x] + c, sign, f) == OccIn([x] + e, sign, f)
    ensures DeepIn([x] + c, sign, f, 0) == DeepIn([x] + e, sign, f, 0)
  {
    Cons(x, c, sign, f);
    Cons(x, e, sign, f);
  }

  lemma {:induction false} HeadIn(a: seq<Literal>, d: seq<Literal>) returns (j: nat)
    requires |a| > 0 && multiset(a) <= multiset(d)
    ensures j < |d| && d[j] == a[0] && multiset(a[1..]) <= multiset(d[..j] + d[j + 1..])
  {
    assert a[0] in multiset(a) && a[0] in multiset(d);
    j :| 0 <= j < |d| && d[j] == a[0];
    assert a == [a[0]] + a[1..];
    assert d == d[..j] + [d[j]] + d[j + 1..];
    assert multiset(a) == multiset{a[0]} + multiset(a[1..]);
    assert multiset(d) == multiset(d[..j]) + multiset{a[0]} + multiset(d[j + 1..]);
    assert multiset(d[..j] + d[j + 1..]) == multiset(d[..j]) + multiset(d[j + 1..]);
    forall x ensures multiset(a[1..])[x] <= multiset(d[..j] + d[j + 1..])[x] {
      assert multiset(a)[x] <= multiset(d)[x];
    }
  }

  /** A clause whose literals, counted, are among those of d. */
  lemma {:induction false} PartDominated(a: seq<Literal>, d: seq<Literal>, sign: bool, f: nat)
    requires multiset(a) <= multiset(d)
    ensures Dominated(a, d, sign, f)
  {
    if |a| > 0 {
      var j := HeadIn(a, d);
      var rest := d[..j] + d[j + 1..];
      PartDominated(a[1..], rest, sign, f);
      assert a == [a[0]] + a[1..];
      TakeOut(d, j, sign, f);
      Cons(a[0], a[1..], sign, f);
      Cons(a[0], rest, sign, f);
    }
  }

  lemma {:induction false} RowsGrow(c: seq<Literal>, d: seq<Literal>, symbols: seq<nat>, functions: set<nat>, n: nat)
    requires n <= |symbols| && forall sign, f :: Dominated(c, d, sign, f)
    ensures LessOrEqual(Rows(c, symbols, functions, n), Rows(d, symbols, functions, n))
  {
    if n > 0 {
      var f := symbols[n - 1];
      RowsGrow(c, d, symbols, functions, n - 1);
      assert Dominated(c, d, true, f) && Dominated(c, d, false, f);
    }
  }

  /** If the instantiated literals of c map injectively into d, the features of c are at most those of d. */
  lemma {:induction false} FeaturesGrow(c: seq<Literal>, d: seq<Literal>, s: Subst, symbols: seq<nat>,
      functions: set<nat>)
    requires multiset(Instances(c, s)) <= multiset(d)
    ensures LessOrEqual(Vector(c, symbols, functions), Vector(d, symbols, functions))
  {
    forall sign, f ensures Dominated(c, d, sign, f) {
      InstancesDominate(c, s, sign, f);
      PartDominated(Instances(c, s), d, sign, f);
    }
    assert Dominated(c, d, true, 0) && Dominated(c, d, false, 0);
    RowsGrow(c, d, symbols, functions, |symbols|);
  }

  // ---------- The work arrays ----------

  /** Count the symbols of a term; symbols beyond the arrays, added later, are ignored. */
  method FillInArrays(t: Term, occ: array<nat>, deep: array<nat>, depth: nat)
    requires occ != deep && occ.Length == deep.Length
    modifies occ, deep
    ensures forall f | 0 <= f < occ.Length :: occ[f] == old(occ[f]) + Occ(t, f)
    ensures forall f | 0 <= f < occ.Length :: deep[f] == Deep(t, f, depth, old(deep[f]))
    decreases t
  {
    if t.App? {
      if t.sym < occ.Length {
        occ[t.sym] := occ[t.sym] + 1;
        deep[t.sym] := Max(depth, deep[t.sym]);
      }
      assert t.args[0..] == t.args;
      for i := 0 to |t.args|
        invariant forall f | 0 <= f < occ.Length :: occ[f] + OccAll(t.args[i..], f) == old(occ[f]) + Occ(t, f)
        invariant forall f | 0 <= f < occ.Length ::
                  DeepAll(t.args[i..], f, depth + 1, deep[f]) ==
                  Deep(t, f, depth, old(deep[f]))
      {
        assert t.args[i..][1..] == t.args[i + 1..];
        FillInArrays(t.args[i], occ, deep, depth + 1);
      }
    }
  }

  class Work {
    const symbols: seq<nat>
    const functions: set<nat>
    const posOcc: array<nat>
    const negOcc: array<nat>
    const posDeep: array<nat>
    const negDeep: array<nat>

    ghost predicate Apart() {
      && posOcc != negOcc && posOcc != posDeep && posOcc != negDeep && negOcc != posDeep && negOcc != negDeep &&
          posDeep != negDeep
      && posOcc.Length == negOcc.Length == posDeep.Length == negDeep.Length
      && forall f | f in symbols :: f < posOcc.Length
    }

    /** Between calls the arrays are 0 for the symbols with features. */
    ghost predicate Valid()
      reads posOcc, negOcc, posDeep, negDeep
    {
      Apart() && forall f | f in symbols :: posOcc[f] == 0 && negOcc[f] == 0 && posDeep[f] == 0 && negDeep[f] == 0
    }

    /** The arrays hold the counts of a clause, except for symbols that were reset. */
    ghost predicate Counted(c: seq<Literal>, done: seq<nat>)
      requires Apart()
      reads posOcc, negOcc, posDeep, negDeep
    {
      forall f | f in symbols ::
        && posOcc[f] == (if f in done then 0 else OccIn(c, true, f))
        && negOcc[f] == (if f in done then 0 else OccIn(c, false, f))
        && posDeep[f] == (if f in done then 0 else DeepIn(c, true, f, 0))
        && negDeep[f] == (if f in done then 0 else DeepIn(c, false, f, 0))
    }

    constructor (rsyms: seq<nat>, fsyms: seq<nat>, size: nat)
      requires forall f | f in rsyms + fsyms :: f < size
      ensures Valid() && symbols == rsyms + fsyms && functions == set f | f in fsyms
      ensures fresh(posOcc) && fresh(negOcc) && fresh(posDeep) && fresh(negDeep)
    {
      symbols := rsyms + fsyms;
      functions := set f | f in fsyms;
      posOcc, negOcc := new nat[size](_ => 0), new nat[size](_ => 0);
      posDeep, negDeep := new nat[size](_ => 0), new nat[size](_ => 0);
    }

    method Count(c: seq<Literal>)
      requires Valid()
      modifies posOcc, negOcc, posDeep, negDeep
      ensures Counted(c, [])
    {
      assert c[0..] == c;
      for i := 0 to |c|
        invariant forall f | f in symbols :: posOcc[f] + OccIn(c[i..], true, f) == OccIn(c, true, f)
        invariant forall f | f in symbols :: negOcc[f] + OccIn(c[i..], false, f) == OccIn(c, false, f)
        invariant forall f | f in symbols :: DeepIn(c[i..], true, f, posDeep[f]) == DeepIn(c, true, f, 0)
        invariant forall f | f in symbols :: DeepIn(c[i..], false, f, negDeep[f]) == DeepIn(c, false, f, 0)
      {
        assert c[i..][1..] == c[i + 1..];
        if c[i].sign {
          FillInArrays(c[i].atom, posOcc, posDeep, 0);
        } else {
          FillInArrays(c[i].atom, negOcc, negDeep, 0);
        }
      }
    }

    /** The feature vector of a clause. */
    method Compute(c: seq<Literal>) returns (vec: seq<nat>)
      requires Valid()
      modifies posOcc, negOcc, posDeep, negDeep
      ensures Valid() && vec == Vector(c, symbols, functions)
    {
      Count(c);
      vec := [];
      for n := 0 to |symbols|
        invariant vec == Rows(c, symbols, functions, n) && Counted(c, symbols[..n])
      {
        var p := symbols[n];
        assert p in symbols;
        vec := vec + ([posOcc[p], negOcc[p]] + (if p in functions then [posDeep[p], negDeep[p]] else []));
        posOcc[p], negOcc[p], posDeep[p], negDeep[p] := 0, 0, 0, 0;
        assert symbols[..n + 1] == symbols[..n] + [p];
      }
      assert symbols[..|symbols|] == symbols;
      vec := [Literals(c, true), Literals(c, false)] + vec;
    }
  }
}

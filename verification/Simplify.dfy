/** Subsumption, flattening and one step of distribution on formulas whose leaves are atomic
    (ladr/cnf.c:342-635, ladr/formula.c:1326-1362). */
module Simplify {
  import opened Options
  import opened Formulas

  // ---------- Subsumption ----------

  /** f makes g superfluous in a conjunction: both are disjunctions, leaves, TRUE or FALSE. */
  predicate PropSubsume(f: Formula, g: Formula) {
    if f == FALSE then true
    else if g == TRUE then true
    else if g.Or? then
      if f.Or? then forall k | k in f.kids :: k in g.kids else f in g.kids
    else f == g
  }

  lemma {:induction false} SubsumeSound(f: Formula, g: Formula, v: Valuation)
    requires PropSubsume(f, g) && Truth(f, v)
    ensures Truth(g, v)
  {
    if f.Or? { TruthOr(f.kids, v); }
    if g.Or? { TruthOr(g.kids, v); }
    if g.And? { TruthAnd(g.kids, v); }
  }

  type Slots = seq<Option<Formula>>

  function Present(s: Slots): seq<Formula> {
    if |s| == 0 then [] else (if s[0].Some? then [s[0].value] else []) + Present(s[1..])
  }

  lemma {:induction false} PresentMember(s: Slots, f: Formula)
    ensures f in Present(s) <==> Some(f) in s
  {
    if |s| > 0 {
      PresentMember(s[1..], f);
      assert s == [s[0]] + s[1..];
    }
  }

  /** What is left when some arguments are struck out. */
  ghost predicate StruckFrom(s: Slots, kids: seq<Formula>) {
    |s| == |kids| && forall i | 0 <= i < |kids| :: s[i] == None || s[i] == Some(kids[i])
  }

  ghost predicate Covers(s: Slots, kids: seq<Formula>) {
    forall v: Valuation :: AllTrue(Present(s), v) ==> AllTrue(kids, v)
  }

  ghost predicate Reduced(r: seq<Formula>) {
    forall i, j | 0 <= i < |r| && 0 <= j < |r| && i != j :: !PropSubsume(r[i], r[j])
  }

  lemma {:induction false} OnlyFalse(f: Formula)
    ensures PropSubsume(f, FALSE) ==> f == FALSE
  {
    if f.Or? && |f.kids| > 0 { assert f.kids[0] in f.kids && f.kids[0] !in FALSE.kids; }
  }

  /** Striking out what another argument subsumes loses nothing. */
  lemma {:induction false} StrikeOut(s: Slots, kids: seq<Formula>, i: nat, j: nat)
    requires StruckFrom(s, kids) && Covers(s, kids) && i < |s| && j < |s| && i != j
    requires s[i].Some? && s[j].Some? && PropSubsume(s[i].value, s[j].value)
    ensures StruckFrom(s[j := None], kids) && Covers(s[j := None], kids)
  {
    var t := s[j := None];
    assert t[i] == s[i] && Some(s[i].value) in t;
    forall v: Valuation | AllTrue(Present(t), v) ensures AllTrue(kids, v) {
      PresentMember(t, s[i].value);
      SubsumeSound(s[i].value, s[j].value, v);
      forall f | f in Present(s) ensures Truth(f, v) {
        PresentMember(s, f);
        PresentMember(t, f);
        var k :| 0 <= k < |s| && s[k] == Some(f);
        if k != j { assert t[k] == Some(f); }
      }
    }
  }

  /** One comparison of remove_subsumed_share. */
  function StrikeCell(s: Slots, i: nat, j: nat): (t: Slots)
    requires i < j < |s|
    ensures |t| == |s|
  {
    if s[i].Some? && s[j].Some? && PropSubsume(s[i].value, s[j].value) then s[j := None]
    else if s[i].Some? && s[j].Some? && PropSubsume(s[j].value, s[i].value) then s[i := None]
    else s
  }

  /** The i-th argument against those from the j-th on. */
  function StrikeFrom(s: Slots, i: nat, j: nat): (t: Slots)
    requires i < j <= |s|
    ensures |t| == |s|
    decreases |s| - j
  {
    if j == |s| then s else StrikeFrom(StrikeCell(s, i, j), i, j + 1)
  }

  function StrikeRows(s: Slots, i: nat): (t: Slots)
    requires i <= |s|
    ensures |t| == |s|
    decreases |s| - i
  {
    if i == |s| then s else StrikeRows(StrikeFrom(s, i, i + 1), i + 1)
  }

  function AllSlots(kids: seq<Formula>): (s: Slots)
    ensures |s| == |kids| && forall i | 0 <= i < |kids| :: s[i] == Some(kids[i])
  {
    seq(|kids|, i requires 0 <= i < |kids| => Some(kids[i]))
  }

  /** The arguments that remove_subsumed_share leaves. */
  function KeptSlots(kids: seq<Formula>): Slots {
    StrikeRows(AllSlots(kids), 0)
  }

  function Reduce(kids: seq<Formula>): seq<Formula> {
    Present(KeptSlots(kids))
  }

  /** Pairs of present arguments already compared: all (a, b) with a < i, and those with a == i and b < j. */
  ghost predicate Compared(s: Slots, i: nat, j: nat) {
    forall a, b | 0 <= a < b < |s| && s[a].Some? && s[b].Some? && (a < i || (a == i && b < j)) ::
      !PropSubsume(s[a].value, s[b].value) && !PropSubsume(s[b].value, s[a].value)
  }

  /** What striking out keeps true, before pair (i, j) is looked at. */
  ghost predicate Striking(s: Slots, kids: seq<Formula>, i: nat, j: nat) {
    && StruckFrom(s, kids) && Covers(s, kids) && Compared(s, i, j)
    && (|kids| > 0 ==> exists a :: 0 <= a < |s| && s[a].Some?)
  }

  lemma {:induction false} CellStrikes(s: Slots, kids: seq<Formula>, i: nat, j: nat)
    requires Striking(s, kids, i, j) && i < j < |kids|
    ensures Striking(StrikeCell(s, i, j), kids, i, j + 1)
  {
    if s[i].Some? && s[j].Some? && PropSubsume(s[i].value, s[j].value) {
      StrikeOut(s, kids, i, j);
      assert s[j := None][i].Some?;
    } else if s[i].Some? && s[j].Some? && PropSubsume(s[j].value, s[i].value) {
      StrikeOut(s, kids, j, i);
      assert s[i := None][j].Some?;
    }
  }

  lemma {:induction false} FromStrikes(s: Slots, kids: seq<Formula>, i: nat, j: nat)
    requires Striking(s, kids, i, j) && i < j <= |kids|
    ensures Striking(StrikeFrom(s, i, j), kids, i + 1, 0)
    decreases |kids| - j
  {
    if j < |kids| {
      CellStrikes(s, kids, i, j);
      FromStrikes(StrikeCell(s, i, j), kids, i, j + 1);
    }
  }

  lemma {:induction false} RowsStrike(s: Slots, kids: seq<Formula>, i: nat)
    requires Striking(s, kids, i, 0) && i <= |kids|
    ensures Striking(StrikeRows(s, i), kids, |kids|, 0)
    decreases |kids| - i
  {
    if i < |kids| {
      FromStrikes(s, kids, i, i + 1);
      RowsStrike(StrikeFrom(s, i, i + 1), kids, i + 1);
    }
  }

  /** remove_subsumed_share: what is left implies what was there, and no argument of it subsumes another. */
  lemma {:induction false} ReduceOk(kids: seq<Formula>)
    ensures StruckFrom(KeptSlots(kids), kids) && Covers(KeptSlots(kids), kids) && Reduced(Reduce(kids))
    ensures |kids| > 0 ==> |Reduce(kids)| > 0
    ensures |Reduce(kids)| <= |kids| && forall f | f in Reduce(kids) :: f in kids
    ensures forall v: Valuation :: AllTrue(Reduce(kids), v) <==> AllTrue(kids, v)
  {
    var s := AllSlots(kids);
    AllPresent(kids, s);
    RowsStrike(s, kids, 0);
    PresentReduced(KeptSlots(kids));
    PresentSub(KeptSlots(kids), kids);
    if |kids| > 0 {
      var a :| 0 <= a < |kids| && KeptSlots(kids)[a].Some?;
      PresentMember(KeptSlots(kids), KeptSlots(kids)[a].value);
    }
  }

  /** d is subsumed by nothing but itself. */
  ghost predicate Own(d: Formula, kids: seq<Formula>) {
    forall k | k in kids :: PropSubsume(k, d) ==> k == d
  }

  lemma {:induction false} CellKeeps(s: Slots, kids: seq<Formula>, i: nat, j: nat, d: Formula)
    requires StruckFrom(s, kids) && i < j < |kids| && Own(d, kids) && Some(d) in s
    ensures StruckFrom(StrikeCell(s, i, j), kids) && Some(d) in StrikeCell(s, i, j)
  {
    var t := StrikeCell(s, i, j);
    var k :| 0 <= k < |s| && s[k] == Some(d);
    assert kids[i] in kids && kids[j] in kids;
    if t[k] != s[k] { assert t[if k == i then j else i] == Some(d); } else { assert t[k] == Some(d); }
  }

  lemma {:induction false} FromKeeps(s: Slots, kids: seq<Formula>, i: nat, j: nat, d: Formula)
    requires StruckFrom(s, kids) && i < j <= |kids| && Own(d, kids) && Some(d) in s
    ensures StruckFrom(StrikeFrom(s, i, j), kids) && Some(d) in StrikeFrom(s, i, j)
    decreases |kids| - j
  {
    if j < |kids| {
      CellKeeps(s, kids, i, j, d);
      FromKeeps(StrikeCell(s, i, j), kids, i, j + 1, d);
    }
  }

  lemma {:induction false} RowsKeep(s: Slots, kids: seq<Formula>, i: nat, d: Formula)
    requires StruckFrom(s, kids) && i <= |kids| && Own(d, kids) && Some(d) in s
    ensures Some(d) in StrikeRows(s, i)
    decreases |kids| - i
  {
    if i < |kids| {
      FromKeeps(s, kids, i, i + 1, d);
      RowsKeep(StrikeFrom(s, i, i + 1), kids, i + 1, d);
    }
  }

  /** An argument that only itself subsumes is left, once. */
  lemma {:induction false} Survives(kids: seq<Formula>, d: Formula)
    requires d in kids && Own(d, kids)
    ensures d in Reduce(kids)
  {
    var k :| 0 <= k < |kids| && kids[k] == d;
    assert AllSlots(kids)[k] == Some(d);
    RowsKeep(AllSlots(kids), kids, 0, d);
    PresentMember(KeptSlots(kids), d);
  }

  lemma {:induction false} FalseSurvives(kids: seq<Formula>)
    ensures FALSE in kids ==> FALSE in Reduce(kids)
  {
    if FALSE in kids {
      forall k | k in kids ensures PropSubsume(k, FALSE) ==> k == FALSE { OnlyFalse(k); }
      Survives(kids, FALSE);
    }
  }

  lemma {:induction false} FromNothing(s: Slots, i: nat, j: nat)
    requires i < j <= |s| && forall b | i < b < |s| && s[i].Some? && s[b].Some? ::
               !PropSubsume(s[i].value, s[b].value) && !PropSubsume(s[b].value, s[i].value)
    ensures StrikeFrom(s, i, j) == s
    decreases |s| - j
  {
    if j < |s| { FromNothing(s, i, j + 1); }
  }

  lemma {:induction false} RowsNothing(s: Slots, i: nat)
    requires i <= |s| && Compared(s, |s|, 0)
    ensures StrikeRows(s, i) == s
    decreases |s| - i
  {
    if i < |s| {
      FromNothing(s, i, i + 1);
      RowsNothing(s, i + 1);
    }
  }

  /** Nothing is struck out where no argument subsumes another. */
  lemma {:induction false} ReducedAlready(kids: seq<Formula>)
    requires Reduced(kids)
    ensures Reduce(kids) == kids
  {
    AllPresent(kids, AllSlots(kids));
    RowsNothing(AllSlots(kids), 0);
  }

  lemma {:induction false} FromFirst(s: Slots, j: nat)
    requires 1 <= j <= |s| && s[0].Some? && forall b | 1 <= b < j :: s[b] == None
    requires forall b | j <= b < |s| && s[b].Some? :: PropSubsume(s[0].value, s[b].value)
    ensures var t := StrikeFrom(s, 0, j); t[0] == s[0] && forall b | 1 <= b < |s| :: t[b] == None
    decreases |s| - j
  {
    if j < |s| { FromFirst(StrikeCell(s, 0, j), j + 1); }
  }

  lemma {:induction false} NonePresent(s: Slots)
    requires forall b | 0 <= b < |s| :: s[b] == None
    ensures Present(s) == []
  {
    if |s| > 0 { NonePresent(s[1..]); }
  }

  /** A first argument that subsumes all others is left alone. */
  lemma {:induction false} FirstOnly(kids: seq<Formula>)
    requires |kids| > 0 && forall b | 1 <= b < |kids| :: PropSubsume(kids[0], kids[b])
    ensures Reduce(kids) == [kids[0]]
  {
    var s := AllSlots(kids);
    FromFirst(s, 1);
    var t := StrikeFrom(s, 0, 1);
    RowsNothing(t, 1);
    assert KeptSlots(kids) == t;
    NonePresent(t[1..]);
  }

  /** One row: the i-th argument against all later ones. */
  method StrikeRow(s: Slots, i: nat) returns (t: Slots)
    requires i < |s|
    ensures t == StrikeFrom(s, i, i + 1)
  {
    t := s;
    var j := i + 1;
    while j < |s|
      invariant i < j <= |s| == |t| && StrikeFrom(t, i, j) == StrikeFrom(s, i, i + 1)
    {
      if t[i].Some? && t[j].Some? && PropSubsume(t[i].value, t[j].value) {
        t := t[j := None];
      } else if t[i].Some? && t[j].Some? && PropSubsume(t[j].value, t[i].value) {
        t := t[i := None];
      }
      j := j + 1;
    }
  }

  /** remove_subsumed_share on the arguments of a conjunction. */
  method RemoveSubsumed(kids: seq<Formula>) returns (r: seq<Formula>)
    ensures r == Reduce(kids) && Reduced(r) && StruckFrom(KeptSlots(kids), kids)
    ensures forall v: Valuation :: AllTrue(r, v) <==> AllTrue(kids, v)
    ensures FALSE in kids ==> FALSE in r
    ensures |kids| > 0 ==> |r| > 0
  {
    var slots := AllSlots(kids);
    var i := 0;
    while i < |kids|
      invariant 0 <= i <= |kids| == |slots| && StrikeRows(slots, i) == KeptSlots(kids)
    {
      slots := StrikeRow(slots, i);
      i := i + 1;
    }
    r := Present(slots);
    ReduceOk(kids);
    FalseSurvives(kids);
  }

  lemma {:induction false} AllPresent(kids: seq<Formula>, s: Slots)
    requires |s| == |kids| && forall i | 0 <= i < |kids| :: s[i] == Some(kids[i])
    ensures Present(s) == kids && Striking(s, kids, 0, 0)
  {
    if |kids| > 0 {
      AllPresent(kids[1..], s[1..]);
      assert kids == [kids[0]] + kids[1..] && s[0].Some?;
    }
  }

  lemma {:induction false} PresentReduced(s: Slots)
    requires Compared(s, |s|, 0)
    ensures Reduced(Present(s))
  {
    if |s| > 0 {
      var t := s[1..];
      assert Compared(t, |t|, 0) by {
        forall a, b | 0 <= a < b < |t| && t[a].Some? && t[b].Some?
          ensures !PropSubsume(t[a].value, t[b].value) && !PropSubsume(t[b].value, t[a].value)
        {
          assert t[a] == s[a + 1] && t[b] == s[b + 1];
        }
      }
      PresentReduced(t);
      if s[0].Some? {
        forall i | 0 <= i < |Present(t)|
          ensures !PropSubsume(s[0].value, Present(t)[i]) && !PropSubsume(Present(t)[i], s[0].value)
        {
          PresentMember(t, Present(t)[i]);
          var b :| 0 <= b < |t| && t[b] == Some(Present(t)[i]);
          assert s[b + 1] == t[b];
        }
      }
    }
  }

  // ---------- Clauses ----------

  /** A flat disjunction; a leaf stands for itself. */
  ghost predicate Clause(f: Formula) {
    f.Leaf() || (f.Or? && forall k | k in f.kids :: k.Leaf())
  }

  ghost predicate IsCnf(f: Formula) {
    Clause(f) || (f.And? && forall k | k in f.kids :: Clause(k))
  }

  /** and_clause_count */
  function Count(f: Formula): nat {
    if f.And? then |f.kids| else 1
  }

  function Disjuncts(f: Formula): seq<Formula> {
    if f.Or? then f.kids else [f]
  }

  function Conjuncts(f: Formula): (r: seq<Formula>)
    ensures |r| == Count(f)
  {
    if f.And? then f.kids else [f]
  }

  lemma {:induction false} DisjunctsTruth(f: Formula, v: Valuation)
    ensures SomeTrue(Disjuncts(f), v) <==> Truth(f, v)
  {
    if f.Or? { TruthOr(f.kids, v); }
  }

  lemma {:induction false} ConjunctsTruth(f: Formula, v: Valuation)
    ensures AllTrue(Conjuncts(f), v) <==> Truth(f, v)
  {
    if f.And? { TruthAnd(f.kids, v); }
  }

  predicate Complementary(f: Formula, g: Formula) {
    (f.Not? && f.arg == g) || (g.Not? && f == g.arg)
  }

  function Without(bs: seq<Formula>, cs: seq<Formula>): seq<Formula> {
    if |bs| == 0 then [] else (if bs[0] in cs then [] else [bs[0]]) + Without(bs[1..], cs)
  }

  /** Complements that are met before the second one is struck out. */
  predicate Clash(xs: seq<Formula>, ys: seq<Formula>) {
    exists i, j :: 0 <= i < |xs| && 0 <= j < |ys| && ClashAt(xs, ys, i, j)
  }

  predicate ClashAt(xs: seq<Formula>, ys: seq<Formula>, i: nat, j: nat)
    requires i < |xs| && j < |ys|
  {
    Complementary(xs[i], ys[j]) && ys[j] !in xs[..i]
  }

  function Disjoin(a: Formula, b: Formula): Formula {
    if Clash(Disjuncts(a), Disjuncts(b)) then TRUE else Or(Disjuncts(a) + Without(Disjuncts(b), Disjuncts(a)))
  }

  lemma {:induction false} PresentWithout(s: Slots, bs: seq<Formula>, cs: seq<Formula>)
    requires StruckFrom(s, bs) && forall k | 0 <= k < |bs| :: s[k] == None <==> bs[k] in cs
    ensures Present(s) == Without(bs, cs)
  {
    if |bs| > 0 { PresentWithout(s[1..], bs[1..], cs); }
  }

  lemma {:induction false} WithoutMember(bs: seq<Formula>, cs: seq<Formula>)
    ensures forall f :: f in Without(bs, cs) <==> f in bs && f !in cs
  {
    if |bs| > 0 {
      WithoutMember(bs[1..], cs);
      assert forall f :: f in bs <==> f == bs[0] || f in bs[1..];
    }
  }

  lemma {:induction false} DisjunctLeaves(f: Formula, x: Formula)
    ensures HasLeaf(f, x) <==> SomeLeaf(Disjuncts(f), x)
  {
    if f.Or? { KidLeaves(f, x); } else { assert f in [f]; }
  }

  lemma {:induction false} DisjoinLeaves(a: Formula, b: Formula)
    ensures forall x :: HasLeaf(Disjoin(a, b), x) ==> HasLeaf(a, x) || HasLeaf(b, x)
  {
    var c := Disjoin(a, b);
    forall x | HasLeaf(c, x) ensures HasLeaf(a, x) || HasLeaf(b, x) {
      KidLeaves(c, x);
      DisjunctLeaves(a, x);
      DisjunctLeaves(b, x);
      WithoutMember(Disjuncts(b), Disjuncts(a));
    }
  }

  lemma {:induction false} NotItsOwnComplement(x: Formula)
    ensures !Complementary(x, x)
  {
    if x.Not? { NotItsOwnComplement(x.arg); }
  }

  /** A leaf disjoined with itself is left as a disjunction with one argument. */
  lemma {:induction false} DisjoinItself(x: Formula)
    requires x.Leaf()
    ensures Disjoin(x, x) == Or([x])
  {
    NotItsOwnComplement(x);
    assert [x][1..] == [] && Without([x], [x]) == [] + Without([], [x]);
  }

  lemma {:induction false} Tautology(a: Formula, b: Formula, x: Formula, y: Formula)
    requires x in Disjuncts(a) && y in Disjuncts(b) && Complementary(x, y)
    ensures forall v: Valuation :: Truth(a, v) || Truth(b, v)
  {
    forall v: Valuation ensures Truth(a, v) || Truth(b, v) {
      DisjunctsTruth(a, v);
      DisjunctsTruth(b, v);
    }
  }

  lemma {:induction false} DisjoinTruth(a: Formula, b: Formula, v: Valuation)
    ensures Truth(Disjoin(a, b), v) <==> Truth(a, v) || Truth(b, v)
  {
    var xs, ys := Disjuncts(a), Disjuncts(b);
    if Clash(xs, ys) {
      var i, j :| 0 <= i < |xs| && 0 <= j < |ys| && ClashAt(xs, ys, i, j);
      Tautology(a, b, xs[i], ys[j]);
    } else {
      WithoutMember(ys, xs);
      TruthOr(xs + Without(ys, xs), v);
      assert forall f :: f in xs + Without(ys, xs) <==> f in xs || f in ys;
      DisjunctsTruth(a, v);
      DisjunctsTruth(b, v);
    }
  }

  lemma {:induction false} DisjoinClause(a: Formula, b: Formula)
    requires Clause(a) && Clause(b)
    ensures var c := Disjoin(a, b); c == TRUE || (c.Or? && Clause(c))
  {
    WithoutMember(Disjuncts(b), Disjuncts(a));
  }

  lemma {:induction false} DisjoinOk(a: Formula, b: Formula)
    ensures forall v: Valuation :: Truth(Disjoin(a, b), v) <==> Truth(a, v) || Truth(b, v)
    ensures Clause(a) && Clause(b) ==> Disjoin(a, b) == TRUE || (Disjoin(a, b).Or? && Clause(Disjoin(a, b)))
    ensures forall x :: HasLeaf(Disjoin(a, b), x) ==> HasLeaf(a, x) || HasLeaf(b, x)
  {
    DisjoinLeaves(a, b);
    forall v: Valuation ensures Truth(Disjoin(a, b), v) <==> Truth(a, v) || Truth(b, v) { DisjoinTruth(a, b, v); }
    if Clause(a) && Clause(b) { DisjoinClause(a, b); }
  }

  /** disjoin_flatten_simplify: a or b as one disjunction without repetitions, TRUE when it has complements. */
  method DisjoinFlattenSimplify(a: Formula, b: Formula) returns (c: Formula)
    ensures c == Disjoin(a, b)
    ensures forall v: Valuation :: Truth(c, v) <==> Truth(a, v) || Truth(b, v)
    ensures Clause(a) && Clause(b) ==> c == TRUE || (c.Or? && Clause(c))
    ensures forall x :: HasLeaf(c, x) ==> HasLeaf(a, x) || HasLeaf(b, x)
  {
    DisjoinOk(a, b);
    var xs, ys := Disjuncts(a), Disjuncts(b);
    var s := AllSlots(ys);
    var i := 0;
    while i < |xs|
      invariant 0 <= i <= |xs| && StruckFrom(s, ys)
      invariant forall k | 0 <= k < |ys| :: s[k] == None <==> ys[k] in xs[..i]
      invariant forall m, n | 0 <= m < i && 0 <= n < |ys| :: !ClashAt(xs, ys, m, n)
    {
      var j := 0;
      while j < |ys|
        invariant 0 <= j <= |ys| && StruckFrom(s, ys)
        invariant forall k | 0 <= k < |ys| :: s[k] == None <==> ys[k] in xs[..i] || (k < j && ys[k] == xs[i])
        invariant forall m, n | 0 <= m < |xs| && 0 <= n < |ys| && (m < i || (m == i && n < j)) :: !ClashAt(xs, ys, m, n)
      {
        if s[j].Some? {
          if Complementary(xs[i], s[j].value) {
            assert ClashAt(xs, ys, i, j);
            return TRUE;
          } else if xs[i] == s[j].value {
            s := s[j := None];
          }
        }
        j := j + 1;
      }
      i := i + 1;
    }
    c := Or(xs + Present(s));
    assert xs[..i] == xs;
    PresentWithout(s, ys, xs);
  }

  // ---------- Nested connectives ----------

  /** A node of the given connective has two arguments, and so do those of its arguments that are
      nodes of that connective: what balanced_binary makes. */
  predicate Paired(f: Formula, isAnd: bool) {
    (if isAnd then f.And? else f.Or?) ==> |f.kids| == 2 && Paired(f.kids[0], isAnd) && Paired(f.kids[1], isAnd)
  }

  /** Wherever a connective stands directly below itself, it is paired. */
  ghost predicate Tame(f: Formula) {
    !f.Leaf() ==> forall i | 0 <= i < |f.kids| :: Paired(f.kids[i], f.And?) && Tame(f.kids[i])
  }

  ghost predicate TameKids(ks: seq<Formula>, isAnd: bool) {
    forall k | k in ks :: Tame(k) && Paired(k, isAnd)
  }

  lemma {:induction false} TameNode(f: Formula)
    requires !f.Leaf()
    ensures Tame(f) <==> TameKids(f.kids, f.And?)
  {
    if TameKids(f.kids, f.And?) {
      forall i | 0 <= i < |f.kids| ensures Paired(f.kids[i], f.And?) && Tame(f.kids[i]) { assert f.kids[i] in f.kids; }
    }
  }

  /** The disjunct lists of tame formulas make tame disjunctions, and so do the conjunct lists. */
  lemma {:induction false} TameParts(f: Formula)
    requires Tame(f)
    ensures TameKids(Disjuncts(f), false) && TameKids(Conjuncts(f), true)
  {
    if !f.Leaf() { TameNode(f); }
  }

  lemma {:induction false} DisjoinTame(a: Formula, b: Formula)
    requires Tame(a) && Tame(b)
    ensures var c := Disjoin(a, b); Tame(c) && (c.Or? || c == TRUE)
  {
    var c := Disjoin(a, b);
    TameParts(a);
    TameParts(b);
    WithoutMember(Disjuncts(b), Disjuncts(a));
    TameNode(c);
  }

  /** Simplifying a conjunction keeps it tame; TRUE is dropped unless it is alone. */
  ghost predicate TameOrTrue(ks: seq<Formula>) {
    forall k | k in ks :: Tame(k) && (Paired(k, true) || k == TRUE)
  }

  predicate ContainsComplements(fs: seq<Formula>) {
    exists i, j :: 0 <= i < j < |fs| && Complementary(fs[i], fs[j])
  }

  function Simplified(kids: seq<Formula>): Formula {
    var r := Reduce(kids);
    if |r| == 1 then r[0] else if ContainsComplements(r) then FALSE else And(r)
  }

  lemma {:induction false} SimplifiedTruth(kids: seq<Formula>, v: Valuation)
    ensures Truth(Simplified(kids), v) <==> AllTrue(kids, v)
  {
    ReduceOk(kids);
    var r, g := Reduce(kids), Simplified(kids);
    if |r| == 1 {
      assert r == [g] && g in r;
    } else if ContainsComplements(r) {
      var i, j :| 0 <= i < j < |r| && Complementary(r[i], r[j]);
      assert r[i] in r && r[j] in r;
    } else {
      TruthAnd(r, v);
    }
  }

  lemma {:induction false} SimplifiedOk(kids: seq<Formula>)
    ensures forall v: Valuation :: Truth(Simplified(kids), v) <==> AllTrue(kids, v)
    ensures (forall k | k in kids :: Clause(k) || k == TRUE) ==>
              IsCnf(Simplified(kids)) && Count(Simplified(kids)) <= |kids|
    ensures forall x :: HasLeaf(Simplified(kids), x) ==> SomeLeaf(kids, x)
    ensures TameOrTrue(kids) ==> Tame(Simplified(kids))
  {
    ReduceOk(kids);
    var r, g := Reduce(kids), Simplified(kids);
    forall v: Valuation ensures Truth(g, v) <==> AllTrue(kids, v) { SimplifiedTruth(kids, v); }
    if |r| != 1 && !ContainsComplements(r) {
      if TRUE in r { NotAlone(r, TRUE); }
      TameNode(g);
    }
    forall x | HasLeaf(g, x) ensures SomeLeaf(kids, x) {
      if |r| != 1 { KidLeaves(g, x); } else { assert g in kids; }
    }
  }

  /** simplify_and_share on a conjunction. */
  method SimplifyAnd(kids: seq<Formula>) returns (g: Formula)
    ensures g == Simplified(kids)
    ensures forall v: Valuation :: Truth(g, v) <==> AllTrue(kids, v)
    ensures (forall k | k in kids :: Clause(k) || k == TRUE) ==> IsCnf(g) && Count(g) <= |kids|
    ensures forall x :: HasLeaf(g, x) ==> SomeLeaf(kids, x)
    ensures TameOrTrue(kids) ==> Tame(g)
  {
    SimplifiedOk(kids);
    var r := RemoveSubsumed(kids);
    if |r| == 1 { return r[0]; }
    if ContainsComplements(r) { return FALSE; }
    return And(r);
  }

  lemma {:induction false} NotAlone(r: seq<Formula>, f: Formula)
    requires Reduced(r) && f == TRUE && f in r
    ensures |r| == 1
  {
    var i :| 0 <= i < |r| && r[i] == f;
    var j := if i == 0 then |r| - 1 else 0;
    assert PropSubsume(r[j], r[i]);
  }

  lemma {:induction false} PresentSub(s: Slots, kids: seq<Formula>)
    requires StruckFrom(s, kids)
    ensures (forall f | f in Present(s) :: f in kids) && |Present(s)| <= |kids|
  {
    forall f | f in Present(s) ensures f in kids {
      PresentMember(s, f);
      var k :| 0 <= k < |s| && s[k] == Some(f);
    }
    PresentShort(s);
  }

  lemma {:induction false} PresentShort(s: Slots)
    ensures |Present(s)| <= |s|
  {
    if |s| > 0 { PresentShort(s[1..]); }
  }

  // ---------- Distribution ----------

  /** One conjunct of f with each conjunct of g. */
  function RowOf(x: Formula, gs: seq<Formula>): seq<Formula> {
    seq(|gs|, j requires 0 <= j < |gs| => Disjoin(x, gs[j]))
  }

  /** The rows of the first i conjuncts of f. */
  function RowsOf(fs: seq<Formula>, gs: seq<Formula>, i: nat): seq<Formula>
    requires i <= |fs|
  {
    if i == 0 then [] else RowsOf(fs, gs, i - 1) + RowOf(fs[i - 1], gs)
  }

  /** A binary disjunction of two conjunctions, multiplied out. */
  function TopOf(f: Formula, g: Formula): Formula {
    Simplified(RowsOf(Conjuncts(f), Conjuncts(g), |Conjuncts(f)|))
  }

  lemma {:induction false} ConjunctLeaves(f: Formula, x: Formula)
    ensures HasLeaf(f, x) <==> SomeLeaf(Conjuncts(f), x)
  {
    if f.And? { KidLeaves(f, x); } else { assert f in [f]; }
  }

  lemma {:induction false} AllTrueTake(fs: seq<Formula>, i: nat, v: Valuation)
    requires i < |fs|
    ensures AllTrue(fs[..i + 1], v) <==> AllTrue(fs[..i], v) && Truth(fs[i], v)
  {
    assert fs[..i + 1] == fs[..i] + [fs[i]];
    AllTrueConcat(fs[..i], [fs[i]], v);
    assert fs[i] in [fs[i]];
  }

  lemma {:induction false} RowTruth(x: Formula, gs: seq<Formula>, v: Valuation)
    ensures AllTrue(RowOf(x, gs), v) <==> Truth(x, v) || AllTrue(gs, v)
  {
    var row := RowOf(x, gs);
    forall k | 0 <= k < |gs| ensures Truth(row[k], v) <==> Truth(x, v) || Truth(gs[k], v) { DisjoinTruth(x, gs[k], v); }
    TruthAnd(row, v);
    TruthAnd(gs, v);
  }

  lemma {:induction false} RowsTruth(fs: seq<Formula>, gs: seq<Formula>, i: nat, v: Valuation)
    requires i <= |fs|
    ensures AllTrue(RowsOf(fs, gs, i), v) <==> AllTrue(fs[..i], v) || AllTrue(gs, v)
  {
    if i > 0 {
      RowsTruth(fs, gs, i - 1, v);
      RowTruth(fs[i - 1], gs, v);
      AllTrueConcat(RowsOf(fs, gs, i - 1), RowOf(fs[i - 1], gs), v);
      AllTrueTake(fs, i - 1, v);
    }
  }

  ghost predicate Clauses(fs: seq<Formula>) {
    forall k | k in fs :: Clause(k)
  }

  ghost predicate ClausesOrTrue(fs: seq<Formula>) {
    forall k | k in fs :: Clause(k) || k == TRUE
  }

  lemma {:induction false} RowClauses(x: Formula, gs: seq<Formula>)
    requires Clause(x) && Clauses(gs)
    ensures ClausesOrTrue(RowOf(x, gs))
  {
    var row := RowOf(x, gs);
    forall c | c in row ensures Clause(c) || c == TRUE {
      var k :| 0 <= k < |row| && row[k] == c;
      assert gs[k] in gs;
      DisjoinClause(x, gs[k]);
    }
  }

  lemma {:induction false} RowsClauses(fs: seq<Formula>, gs: seq<Formula>, i: nat)
    requires i <= |fs|
    ensures |RowsOf(fs, gs, i)| == i * |gs|
    ensures Clauses(fs) && Clauses(gs) ==> ClausesOrTrue(RowsOf(fs, gs, i))
  {
    if i > 0 {
      RowsClauses(fs, gs, i - 1);
      assert fs[i - 1] in fs;
      if Clauses(fs) && Clauses(gs) { RowClauses(fs[i - 1], gs); }
    }
  }

  lemma {:induction false} RowLeaves(x: Formula, gs: seq<Formula>, y: Formula)
    requires SomeLeaf(RowOf(x, gs), y)
    ensures HasLeaf(x, y) || SomeLeaf(gs, y)
  {
    var row := RowOf(x, gs);
    var c :| c in row && HasLeaf(c, y);
    var k :| 0 <= k < |row| && row[k] == c;
    assert gs[k] in gs;
    DisjoinLeaves(x, gs[k]);
  }

  lemma {:induction false} RowsLeaves(fs: seq<Formula>, gs: seq<Formula>, i: nat, y: Formula)
    requires i <= |fs| && SomeLeaf(RowsOf(fs, gs, i), y)
    ensures SomeLeaf(fs, y) || SomeLeaf(gs, y)
  {
    var c :| c in RowsOf(fs, gs, i) && HasLeaf(c, y);
    if c in RowsOf(fs, gs, i - 1) {
      RowsLeaves(fs, gs, i - 1, y);
    } else {
      RowLeaves(fs[i - 1], gs, y);
      assert fs[i - 1] in fs;
    }
  }

  ghost predicate AllTame(fs: seq<Formula>) {
    forall k | k in fs :: Tame(k)
  }

  lemma {:induction false} RowTame(x: Formula, gs: seq<Formula>)
    requires Tame(x) && AllTame(gs)
    ensures TameOrTrue(RowOf(x, gs))
  {
    var row := RowOf(x, gs);
    forall c | c in row ensures Tame(c) && (Paired(c, true) || c == TRUE) {
      var k :| 0 <= k < |row| && row[k] == c;
      assert gs[k] in gs;
      DisjoinTame(x, gs[k]);
    }
  }

  lemma {:induction false} RowsTame(fs: seq<Formula>, gs: seq<Formula>, i: nat)
    requires i <= |fs| && AllTame(fs) && AllTame(gs)
    ensures TameOrTrue(RowsOf(fs, gs, i))
  {
    if i > 0 {
      RowsTame(fs, gs, i - 1);
      assert fs[i - 1] in fs;
      RowTame(fs[i - 1], gs);
    }
  }

  lemma {:induction false} TopTruth(f: Formula, g: Formula, v: Valuation)
    ensures Truth(TopOf(f, g), v) <==> Truth(f, v) || Truth(g, v)
  {
    var fs, gs := Conjuncts(f), Conjuncts(g);
    SimplifiedOk(RowsOf(fs, gs, |fs|));
    RowsTruth(fs, gs, |fs|, v);
    assert fs[..|fs|] == fs;
    ConjunctsTruth(f, v);
    ConjunctsTruth(g, v);
  }

  lemma {:induction false} TopLeaves(f: Formula, g: Formula, x: Formula)
    requires HasLeaf(TopOf(f, g), x)
    ensures HasLeaf(f, x) || HasLeaf(g, x)
  {
    var fs, gs := Conjuncts(f), Conjuncts(g);
    SimplifiedOk(RowsOf(fs, gs, |fs|));
    RowsLeaves(fs, gs, |fs|, x);
    ConjunctLeaves(f, x);
    ConjunctLeaves(g, x);
  }

  lemma {:induction false} TopCnf(f: Formula, g: Formula)
    requires IsCnf(f) && IsCnf(g)
    ensures IsCnf(TopOf(f, g)) && Count(TopOf(f, g)) <= Count(f) * Count(g)
  {
    var fs, gs := Conjuncts(f), Conjuncts(g);
    SimplifiedOk(RowsOf(fs, gs, |fs|));
    RowsClauses(fs, gs, |fs|);
  }

  lemma {:induction false} TopTame(f: Formula, g: Formula)
    requires Tame(f) && Tame(g)
    ensures Tame(TopOf(f, g))
  {
    var fs, gs := Conjuncts(f), Conjuncts(g);
    SimplifiedOk(RowsOf(fs, gs, |fs|));
    TameParts(f);
    TameParts(g);
    RowsTame(fs, gs, |fs|);
  }

  lemma {:induction false} TopOk(f: Formula, g: Formula)
    ensures forall v: Valuation :: Truth(TopOf(f, g), v) <==> Truth(f, v) || Truth(g, v)
    ensures IsCnf(f) && IsCnf(g) ==> IsCnf(TopOf(f, g)) && Count(TopOf(f, g)) <= Count(f) * Count(g)
    ensures forall x :: HasLeaf(TopOf(f, g), x) ==> HasLeaf(f, x) || HasLeaf(g, x)
    ensures Tame(f) && Tame(g) ==> Tame(TopOf(f, g))
  {
    forall v: Valuation ensures Truth(TopOf(f, g), v) <==> Truth(f, v) || Truth(g, v) { TopTruth(f, g, v); }
    forall x | HasLeaf(TopOf(f, g), x) ensures HasLeaf(f, x) || HasLeaf(g, x) { TopLeaves(f, g, x); }
    if IsCnf(f) && IsCnf(g) { TopCnf(f, g); }
    if Tame(f) && Tame(g) { TopTame(f, g); }
  }

  /** distribute_top: a binary disjunction of two conjunctions, multiplied out. */
  method DistributeTop(f: Formula, g: Formula) returns (h: Formula)
    ensures h == TopOf(f, g)
    ensures forall v: Valuation :: Truth(h, v) <==> Truth(f, v) || Truth(g, v)
    ensures IsCnf(f) && IsCnf(g) ==> IsCnf(h) && Count(h) <= Count(f) * Count(g)
    ensures forall x :: HasLeaf(h, x) ==> HasLeaf(f, x) || HasLeaf(g, x)
    ensures Tame(f) && Tame(g) ==> Tame(h)
  {
    TopOk(f, g);
    var fs, gs := Conjuncts(f), Conjuncts(g);
    var a: seq<Formula> := [];
    var i := 0;
    while i < |fs|
      invariant 0 <= i <= |fs| && a == RowsOf(fs, gs, i)
    {
      var row := DistributeRow(fs[i], gs);
      a := a + row;
      i := i + 1;
    }
    h := SimplifyAnd(a);
  }

  /** The inner loop: one conjunct of f with each conjunct of g. */
  method DistributeRow(x: Formula, gs: seq<Formula>) returns (row: seq<Formula>)
    ensures row == RowOf(x, gs)
  {
    row := [];
    var j := 0;
    while j < |gs|
      invariant 0 <= j <= |gs| && |row| == j && forall k | 0 <= k < j :: row[k] == Disjoin(x, gs[k])
    {
      var c := DisjoinFlattenSimplify(x, gs[j]);
      row := row + [c];
      j := j + 1;
    }
  }

  lemma {:induction false} AllTrueConcat(a: seq<Formula>, b: seq<Formula>, v: Valuation)
    ensures AllTrue(a + b, v) <==> AllTrue(a, v) && AllTrue(b, v)
  {
    forall f | f in a + b ensures f in a || f in b {}
    forall f | f in a || f in b ensures f in a + b {}
  }

  // ---------- Tidy normal forms ----------

  /** A flat disjunction without repetitions and complements. */
  ghost predicate TidyClause(f: Formula) {
    Clause(f) && (f.Or? ==> TidyKids(f.kids))
  }

  ghost predicate TidyKids(ks: seq<Formula>) {
    forall i, j | 0 <= i < j < |ks| :: ks[i] != ks[j] && !Complementary(ks[i], ks[j])
  }

  /** A clause, or a conjunction of several clauses none of which subsumes or complements another. */
  ghost predicate Tidy(f: Formula) {
    TidyClause(f) ||
    (f.And? && |f.kids| != 1 && TidyClauses(f.kids) && Reduced(f.kids) && !ContainsComplements(f.kids))
  }

  ghost predicate TidyClauses(fs: seq<Formula>) {
    forall k | k in fs :: TidyClause(k)
  }

  lemma {:induction false} WithoutTidy(bs: seq<Formula>, cs: seq<Formula>)
    requires TidyKids(bs)
    ensures TidyKids(Without(bs, cs))
  {
    if |bs| > 0 {
      WithoutTidy(bs[1..], cs);
      WithoutMember(bs[1..], cs);
      var rest := Without(bs[1..], cs);
      if bs[0] !in cs {
        forall j | 0 <= j < |rest| ensures bs[0] != rest[j] && !Complementary(bs[0], rest[j]) {
          assert rest[j] in bs[1..];
          var k :| 0 <= k < |bs[1..]| && bs[1..][k] == rest[j];
          assert bs[k + 1] == rest[j];
        }
      }
    }
  }

  lemma {:induction false} JoinTidy(xs: seq<Formula>, zs: seq<Formula>)
    requires TidyKids(xs) && TidyKids(zs)
    requires forall i, j | 0 <= i < |xs| && 0 <= j < |zs| :: xs[i] != zs[j] && !Complementary(xs[i], zs[j])
    ensures TidyKids(xs + zs)
  {
  }

  /** Complements that do not clash: the second one was struck out by a third formula. */
  lemma {:induction false} NoClash(xs: seq<Formula>, ys: seq<Formula>, i: nat, y: Formula)
    requires TidyKids(xs) && !Clash(xs, ys) && i < |xs| && y in ys && y !in xs
    ensures !Complementary(xs[i], y)
  {
    var j :| 0 <= j < |ys| && ys[j] == y;
    assert !ClashAt(xs, ys, i, j);
  }

  lemma {:induction false} DisjoinTidy(a: Formula, b: Formula)
    requires TidyClause(a) && TidyClause(b)
    ensures Disjoin(a, b) == TRUE || TidyClause(Disjoin(a, b))
  {
    var xs, ys := Disjuncts(a), Disjuncts(b);
    var zs := Without(ys, xs);
    DisjoinClause(a, b);
    WithoutMember(ys, xs);
    WithoutTidy(ys, xs);
    if !Clash(xs, ys) {
      forall i, j | 0 <= i < |xs| && 0 <= j < |zs| ensures xs[i] != zs[j] && !Complementary(xs[i], zs[j]) {
        assert zs[j] in zs;
        NoClash(xs, ys, i, zs[j]);
      }
      JoinTidy(xs, zs);
    }
  }

  lemma {:induction false} SimplifiedTidy(kids: seq<Formula>)
    requires forall k | k in kids :: TidyClause(k) || k == TRUE
    ensures Tidy(Simplified(kids))
  {
    ReduceOk(kids);
    var r := Reduce(kids);
    if |r| == 1 {
      assert r[0] in r;
    } else if !ContainsComplements(r) {
      if TRUE in r { NotAlone(r, TRUE); }
    }
  }

  lemma {:induction false} RowsTidy(fs: seq<Formula>, gs: seq<Formula>, i: nat)
    requires i <= |fs| && TidyClauses(fs) && TidyClauses(gs)
    ensures forall c | c in RowsOf(fs, gs, i) :: TidyClause(c) || c == TRUE
  {
    if i > 0 {
      RowsTidy(fs, gs, i - 1);
      assert fs[i - 1] in fs;
      var row := RowOf(fs[i - 1], gs);
      forall c | c in row ensures TidyClause(c) || c == TRUE {
        var j :| 0 <= j < |row| && row[j] == c;
        assert gs[j] in gs;
        DisjoinTidy(fs[i - 1], gs[j]);
      }
    }
  }

  lemma {:induction false} TopTidy(f: Formula, g: Formula)
    requires Tidy(f) && Tidy(g)
    ensures Tidy(TopOf(f, g))
  {
    var fs, gs := Conjuncts(f), Conjuncts(g);
    RowsTidy(fs, gs, |fs|);
    SimplifiedTidy(RowsOf(fs, gs, |fs|));
  }
}

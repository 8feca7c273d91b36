/** Conjunctive normal form by distribution (flatten_top, cnf, cnf_max_clauses: ladr/formula.c:1326-1362,
    ladr/cnf.c:744-809, 2057-2129). */
module Cnf {
  import opened Options
  import opened Formulas
  import opened Simplify
  import opened Distribute

  // ---------- flatten_top ----------

  /** Arguments of the same kind are replaced by their own arguments. */
  function Merge(fs: seq<Formula>, isAnd: bool): seq<Formula> {
    if |fs| == 0 then [] else (if isAnd then Conjuncts(fs[0]) else Disjuncts(fs[0])) + Merge(fs[1..], isAnd)
  }

  function FlattenTop(f: Formula): Formula {
    if f.Leaf() then f
    else if forall k | k in f.kids :: k.And? != f.And? || k.Or? != f.Or? then f
    else
      var g := Merge(f.kids, f.And?);
      if |g| == 1 then g[0] else if f.And? then And(g) else Or(g)
  }

  lemma {:induction false} MergeAndTruth(fs: seq<Formula>, v: Valuation)
    ensures AllTrue(Merge(fs, true), v) <==> AllTrue(fs, v)
  {
    if |fs| > 0 {
      MergeAndTruth(fs[1..], v);
      ConjunctsTruth(fs[0], v);
      AllTrueConcat(Conjuncts(fs[0]), Merge(fs[1..], true), v);
      assert fs == [fs[0]] + fs[1..];
      AllTrueConcat([fs[0]], fs[1..], v);
    }
  }

  lemma {:induction false} MergeOrTruth(fs: seq<Formula>, v: Valuation)
    ensures SomeTrue(Merge(fs, false), v) <==> SomeTrue(fs, v)
  {
    if |fs| > 0 {
      MergeOrTruth(fs[1..], v);
      DisjunctsTruth(fs[0], v);
      SomeTrueConcat(Disjuncts(fs[0]), Merge(fs[1..], false), v);
      assert fs == [fs[0]] + fs[1..];
      SomeTrueConcat([fs[0]], fs[1..], v);
    }
  }

  lemma {:induction false} SingleTruth(g: seq<Formula>, v: Valuation)
    requires |g| == 1
    ensures (AllTrue(g, v) <==> Truth(g[0], v)) && (SomeTrue(g, v) <==> Truth(g[0], v))
  {
    assert g[0] in g && forall k | k in g :: k == g[0];
  }

  lemma {:induction false} FlattenTruth(f: Formula, v: Valuation)
    ensures Truth(FlattenTop(f), v) <==> Truth(f, v)
  {
    if !f.Leaf() {
      var g := Merge(f.kids, f.And?);
      if |g| == 1 { SingleTruth(g, v); }
      if f.And? {
        MergeAndTruth(f.kids, v);
        TruthAnd(f.kids, v);
        TruthAnd(g, v);
      } else {
        MergeOrTruth(f.kids, v);
        TruthOr(f.kids, v);
        TruthOr(g, v);
      }
    }
  }

  lemma {:induction false} MergeLeaves(fs: seq<Formula>, isAnd: bool, x: Formula)
    ensures SomeLeaf(Merge(fs, isAnd), x) <==> SomeLeaf(fs, x)
  {
    if |fs| > 0 {
      MergeLeaves(fs[1..], isAnd, x);
      ConjunctLeaves(fs[0], x);
      DisjunctLeaves(fs[0], x);
      assert fs == [fs[0]] + fs[1..];
      assert forall f :: f in fs <==> f == fs[0] || f in fs[1..];
    }
  }

  lemma {:induction false} FlattenLeaves(f: Formula)
    ensures LeavesIn(FlattenTop(f), f)
  {
    if !f.Leaf() {
      var g := Merge(f.kids, f.And?);
      forall x | HasLeaf(FlattenTop(f), x) ensures HasLeaf(f, x) {
        KidLeaves(f, x);
        MergeLeaves(f.kids, f.And?, x);
        KidLeaves(And(g), x);
        KidLeaves(Or(g), x);
        if |g| == 1 { assert g[0] in g; }
      }
    }
  }

  lemma {:induction false} MergeClauses(fs: seq<Formula>)
    requires forall k | k in fs :: IsCnf(k)
    ensures forall k | k in Merge(fs, true) :: Clause(k)
    ensures |Merge(fs, true)| == CountAll(fs)
  {
    if |fs| > 0 {
      assert fs[0] in fs && forall k | k in fs[1..] :: k in fs;
      MergeClauses(fs[1..]);
    }
  }

  function CountAll(fs: seq<Formula>): nat {
    if |fs| == 0 then 0 else Count(fs[0]) + CountAll(fs[1..])
  }

  // ---------- cnf_max_clauses ----------

  function MaxClauses(f: Formula): nat
    decreases f, 1
  {
    match f
    case Atom(_, _) => 1
    case Not(_) => 1
    case And(kids) => MaxSum(kids)
    case Or(kids) => MaxProduct(kids)
    case All(_, b) => MaxClauses(b)
    case Exists(_, b) => MaxClauses(b)
  }

  function MaxSum(fs: seq<Formula>): nat
    decreases fs, 0
  {
    if |fs| == 0 then 0 else MaxClauses(fs[0]) + MaxSum(fs[1..])
  }

  function MaxProduct(fs: seq<Formula>): nat
    decreases fs, 0
  {
    if |fs| == 0 then 1 else MaxClauses(fs[0]) * MaxProduct(fs[1..])
  }

  /** cnf_max_clauses looks through quantifiers, cnf does not: each quantified leaf, which is one
      clause for cnf, must count for at least one. */
  ghost predicate Bounded(f: Formula) {
    if f.Leaf() then MaxClauses(f) >= 1 else forall i | 0 <= i < |f.kids| :: Bounded(f.kids[i])
  }

  lemma {:induction false} QuantifierFreeBounded(f: Formula)
    requires QuantifierFree(f)
    ensures Bounded(f)
  {
    if !f.Leaf() {
      forall i | 0 <= i < |f.kids| ensures Bounded(f.kids[i]) { QuantifierFreeBounded(f.kids[i]); }
    }
  }

  // ---------- One node ----------

  /** g is a conjunctive normal form of f, within the predicted number of clauses. */
  ghost predicate Clausified(g: Formula, f: Formula) {
    Equivalent(g, f) && LeavesIn(g, f) && IsCnf(g) && (Bounded(f) ==> Count(g) <= MaxClauses(f)) &&
        (f.Leaf() ==> g == f)
  }

  ghost predicate ClausifiedAll(gs: seq<Formula>, fs: seq<Formula>) {
    |gs| == |fs| && forall i | 0 <= i < |fs| :: Clausified(gs[i], fs[i])
  }

  lemma {:induction false} SumBound(gs: seq<Formula>, fs: seq<Formula>)
    requires ClausifiedAll(gs, fs) && forall i | 0 <= i < |fs| :: Bounded(fs[i])
    ensures CountAll(gs) <= MaxSum(fs)
  {
    if |fs| > 0 { SumBound(gs[1..], fs[1..]); }
  }

  lemma {:induction false} ProductBound(gs: seq<Formula>, fs: seq<Formula>)
    requires ClausifiedAll(gs, fs) && forall i | 0 <= i < |fs| :: Bounded(fs[i])
    ensures ProductAll(gs) <= MaxProduct(fs)
  {
    if |fs| > 0 {
      CnfProduct(gs[0]);
      ProductBound(gs[1..], fs[1..]);
      MulMono(Product(gs[0]), ProductAll(gs[1..]), MaxClauses(fs[0]), MaxProduct(fs[1..]));
    }
  }

  lemma {:induction false} AllEquivalent(gs: seq<Formula>, fs: seq<Formula>, v: Valuation)
    requires |gs| == |fs| && forall i | 0 <= i < |fs| :: Equivalent(gs[i], fs[i])
    ensures AllTrue(gs, v) <==> AllTrue(fs, v)
    ensures SomeTrue(gs, v) <==> SomeTrue(fs, v)
  {
    TruthAnd(gs, v);
    TruthAnd(fs, v);
    TruthOr(gs, v);
    TruthOr(fs, v);
    forall i | 0 <= i < |fs| ensures Truth(gs[i], v) <==> Truth(fs[i], v) { assert Equivalent(gs[i], fs[i]); }
  }

  /** simplify_and_share: only conjunctions are changed. */
  function SimplifiedTop(f: Formula): Formula {
    if f.And? then Simplified(f.kids) else f
  }

  lemma {:induction false} SimplifiedTopOk(f: Formula)
    ensures Equivalent(SimplifiedTop(f), f) && LeavesIn(SimplifiedTop(f), f) && (Tame(f) ==> Tame(SimplifiedTop(f)))
    ensures f.And? && Clauses(f.kids) ==> IsCnf(SimplifiedTop(f)) && Count(SimplifiedTop(f)) <= |f.kids|
  {
    if f.And? {
      SimplifiedOk(f.kids);
      if Tame(f) { TameNode(f); }
      forall x ensures HasLeaf(f, x) <==> SomeLeaf(f.kids, x) { KidLeaves(f, x); }
      forall v: Valuation ensures Truth(SimplifiedTop(f), v) <==> Truth(f, v) { TruthAnd(f.kids, v); }
    }
  }

  /** A conjunction of normal forms: flatten and simplify. */
  function AndOf(gs: seq<Formula>): Formula {
    SimplifiedTop(FlattenTop(And(gs)))
  }

  lemma {:induction false} AndSame(gs: seq<Formula>)
    ensures Equivalent(AndOf(gs), And(gs)) && LeavesIn(AndOf(gs), And(gs))
  {
    SimplifiedTopOk(FlattenTop(And(gs)));
    FlattenLeaves(And(gs));
    forall v: Valuation ensures Truth(AndOf(gs), v) <==> Truth(And(gs), v) { FlattenTruth(And(gs), v); }
  }

  lemma {:induction false} AndCnf(gs: seq<Formula>)
    requires forall k | k in gs :: IsCnf(k)
    ensures IsCnf(AndOf(gs)) && Count(AndOf(gs)) <= CountAll(gs)
  {
    SimplifiedTopOk(FlattenTop(And(gs)));
    MergeClauses(gs);
    FlatAnd(gs);
  }

  method SimplifyTop(f: Formula) returns (g: Formula)
    ensures g == SimplifiedTop(f)
  {
    if !f.And? { return f; }
    g := SimplifyAnd(f.kids);
  }

  lemma {:induction false} AllCnf(gs: seq<Formula>, fs: seq<Formula>)
    requires ClausifiedAll(gs, fs)
    ensures forall k | k in gs :: IsCnf(k)
  {
    forall k | k in gs ensures IsCnf(k) { var i :| 0 <= i < |gs| && gs[i] == k; }
  }

  /** What flattening makes of a conjunction of normal forms: a clause, or a conjunction of clauses. */
  lemma {:induction false} FlatAnd(gs: seq<Formula>)
    requires (forall k | k in gs :: IsCnf(k)) && (forall k | k in Merge(gs, true) :: Clause(k))
    ensures var f := FlattenTop(And(gs));
            if f.And? then f.kids == Merge(gs, true) else Clause(f) && |Merge(gs, true)| == 1
  {
    if forall k | k in gs :: !k.And? {
      NothingToMerge(gs);
    } else {
      assert |Merge(gs, true)| == 1 ==> Merge(gs, true)[0] in Merge(gs, true);
    }
  }

  lemma {:induction false} NothingToMerge(gs: seq<Formula>)
    requires forall k | k in gs :: !k.And?
    ensures Merge(gs, true) == gs
  {
    if |gs| > 0 {
      assert gs[0] in gs && forall k | k in gs[1..] :: k in gs;
      NothingToMerge(gs[1..]);
      assert gs == [gs[0]] + gs[1..];
    }
  }

  /** The disjunction without the arguments that others subsume: dual, remove_subsumed_share, dual. */
  function KeptOr(gs: seq<Formula>): seq<Formula> {
    DualAll(Reduce(DualAll(gs)))
  }

  lemma {:induction false} KeptNonempty(gs: seq<Formula>)
    requires |gs| > 0
    ensures |KeptOr(gs)| > 0
  {
    ReduceOk(DualAll(gs));
  }

  /** Striking out arguments of the dual conjunction is striking out arguments of the disjunction. */
  lemma {:induction false} KeptSame(gs: seq<Formula>)
    ensures forall h | h in KeptOr(gs) :: h in gs
    ensures forall v: Valuation :: SomeTrue(KeptOr(gs), v) <==> SomeTrue(gs, v)
  {
    var ds := DualAll(gs);
    ReduceOk(ds);
    var kept, hs := Reduce(ds), KeptOr(gs);
    forall h | h in hs ensures h in gs {
      var i :| 0 <= i < |hs| && hs[i] == h;
      assert kept[i] in ds;
      var k :| 0 <= k < |ds| && ds[k] == kept[i];
      DualTwice(gs[k]);
    }
    forall v: Valuation ensures SomeTrue(hs, v) <==> SomeTrue(gs, v) {
      DualAllTrue(kept, v);
      DualAllTrue(ds, v);
      DualAllTwice(gs);
    }
  }

  /** No argument that is left makes another one superfluous. */
  lemma {:induction false} KeptReduced(gs: seq<Formula>)
    ensures var hs := KeptOr(gs); forall i, j | 0 <= i < |hs| && 0 <= j < |hs| && i != j ::
              !PropSubsume(Dual(hs[i]), Dual(hs[j]))
  {
    ReduceOk(DualAll(gs));
    var kept, hs := Reduce(DualAll(gs)), KeptOr(gs);
    forall i | 0 <= i < |hs| ensures Dual(hs[i]) == kept[i] { DualTwice(kept[i]); }
  }

  predicate OneArgument(h: Formula) {
    h.Or? && |h.kids| == 1
  }

  /** What misleads distribution: a disjunction with one argument among the arguments, and no TRUE
      that would have struck it out. */
  predicate Lone(gs: seq<Formula>) {
    TRUE !in gs && exists h :: h in gs && OneArgument(h)
  }

  lemma {:induction false} KeptLone(gs: seq<Formula>)
    ensures Lone(gs) <==> exists h :: h in KeptOr(gs) && OneArgument(h)
  {
    KeptSame(gs);
    if h :| h in KeptOr(gs) && OneArgument(h) {
      if TRUE in gs { KeptTrue(gs, h); }
    }
    if Lone(gs) {
      var h :| h in gs && OneArgument(h);
      KeptIfLone(gs, h);
    }
  }

  lemma {:induction false} DualMember(gs: seq<Formula>, h: Formula)
    ensures h in gs <==> Dual(h) in DualAll(gs)
  {
    if h in gs {
      var i :| 0 <= i < |gs| && gs[i] == h;
      assert DualAll(gs)[i] == Dual(h);
    }
    if Dual(h) in DualAll(gs) {
      var i :| 0 <= i < |gs| && DualAll(gs)[i] == Dual(h);
      DualTwice(h);
      DualTwice(gs[i]);
    }
  }

  lemma {:induction false} TrueDual()
    ensures Dual(TRUE) == FALSE && Dual(FALSE) == TRUE
  {
    assert DualAll([]) == [];
  }

  /** TRUE strikes everything else out. */
  lemma {:induction false} KeptTrue(gs: seq<Formula>, h: Formula)
    requires TRUE in gs && h in KeptOr(gs)
    ensures h == TRUE
  {
    var ds := DualAll(gs);
    var kept := Reduce(ds);
    TrueDual();
    DualMember(gs, TRUE);
    ReduceOk(ds);
    FalseSurvives(ds);
    var i :| 0 <= i < |kept| && kept[i] == FALSE;
    var j :| 0 <= j < |kept| && KeptOr(gs)[j] == h;
    assert j != i ==> PropSubsume(kept[i], kept[j]);
  }

  lemma {:induction false} KeptTrueAlone(gs: seq<Formula>)
    requires TRUE in gs
    ensures KeptOr(gs) == [TRUE]
  {
    var kept, hs := Reduce(DualAll(gs)), KeptOr(gs);
    KeptNonempty(gs);
    ReduceOk(DualAll(gs));
    TrueDual();
    forall i | 0 <= i < |hs| ensures hs[i] == TRUE && kept[i] == FALSE {
      KeptTrue(gs, hs[i]);
      DualTwice(kept[i]);
    }
    assert |kept| > 1 ==> PropSubsume(kept[0], kept[1]);
  }

  lemma {:induction false} KeptIfLone(gs: seq<Formula>, h: Formula)
    requires TRUE !in gs && h in gs && OneArgument(h)
    ensures h in KeptOr(gs)
  {
    var ds := DualAll(gs);
    TrueDual();
    DualMember(gs, TRUE);
    DualMember(gs, h);
    assert Dual(h).And? && |Dual(h).kids| == 1;
    forall k | k in ds ensures PropSubsume(k, Dual(h)) ==> k == Dual(h) {}
    Survives(ds, Dual(h));
    DualMember(Reduce(ds), Dual(h));
    DualTwice(h);
  }

  /** dual, remove_subsumed_share, dual. */
  method ReduceOr(gs: seq<Formula>) returns (hs: seq<Formula>)
    ensures hs == KeptOr(gs)
  {
    var kept := RemoveSubsumed(DualAll(gs));
    hs := DualAll(kept);
  }

  /** Balance and distribute a disjunction. */
  function TreeOf(hs: seq<Formula>): Option<Formula>
    requires |hs| > 0
  {
    Distributed(Bbt(hs))
  }

  lemma {:induction false} TreeSame(hs: seq<Formula>)
    requires |hs| > 0 && TreeOf(hs).Some?
    ensures Equivalent(TreeOf(hs).value, Or(hs)) && LeavesIn(TreeOf(hs).value, Or(hs))
  {
    var tree, r := Bbt(hs), TreeOf(hs).value;
    DistributedOk(tree);
    forall v: Valuation ensures Truth(r, v) <==> Truth(Or(hs), v) {
      assert Truth(r, v) <==> Truth(tree, v);
      BbtTruth(hs, v);
      TruthOr(hs, v);
    }
    forall x | HasLeaf(r, x) ensures HasLeaf(Or(hs), x) {
      BbtLeaves(hs, x);
      KidLeaves(Or(hs), x);
    }
  }

  /** Distribution of normal forms fails exactly on an argument that is a disjunction with one argument. */
  lemma {:induction false} TreeCnf(hs: seq<Formula>)
    requires |hs| > 0 && forall h | h in hs :: IsCnf(h)
    ensures TreeOf(hs).None? <==> exists h :: h in hs && OneArgument(h)
    ensures TreeOf(hs).Some? ==> IsCnf(TreeOf(hs).value) && Count(TreeOf(hs).value) <= ProductAll(hs)
  {
    DistributedOk(Bbt(hs));
    KeptTree(hs);
  }

  /** Balance and distribute a disjunction of normal forms. */
  method DistributeOr(hs: seq<Formula>) returns (r: Option<Formula>)
    requires |hs| > 0
    ensures r == TreeOf(hs)
    ensures r.Some? ==> Equivalent(r.value, Or(hs)) && LeavesIn(r.value, Or(hs))
    ensures (forall h | h in hs :: IsCnf(h)) ==>
              && (r.None? <==> exists h :: h in hs && OneArgument(h))
              && (r.Some? ==> IsCnf(r.value) && Count(r.value) <= ProductAll(hs))
  {
    r := Distribute.Distribute(Bbt(hs));
    if r.Some? { TreeSame(hs); }
    if forall h | h in hs :: IsCnf(h) { TreeCnf(hs); }
  }

  lemma {:induction false} DualAllTrue(fs: seq<Formula>, v: Valuation)
    ensures SomeTrue(DualAll(fs), v) <==> !AllTrue(fs, Flip(v))
  {
    var gs := DualAll(fs);
    DualAllTwice(fs);
    DualTruths(gs, v);
    assert DualAll(gs) == fs;
    TruthOr(gs, v);
    TruthAnd(fs, Flip(v));
  }

  lemma {:induction false} KeptTree(hs: seq<Formula>)
    requires |hs| > 0 && forall h | h in hs :: IsCnf(h)
    ensures Distributable(Bbt(hs)) && Product(Bbt(hs)) == ProductAll(hs)
    ensures HasSingleton(Bbt(hs)) <==> exists h :: h in hs && OneArgument(h)
  {
    forall i | 0 <= i < |hs|
      ensures Distributable(hs[i]) && (HasSingleton(hs[i]) <==> OneArgument(hs[i]))
    {
      assert hs[i] in hs;
      CnfProduct(hs[i]);
    }
    BbtDistributable(hs);
    BbtSums(hs);
    BbtSingleton(hs);
    if h :| h in hs && OneArgument(h) {
      var i :| 0 <= i < |hs| && hs[i] == h;
      assert HasSingleton(hs[i]);
    }
  }

  /** Dropping arguments does not raise the product: a TRUE argument is never dropped. */
  lemma {:induction false} KeptProduct(gs: seq<Formula>)
    requires forall k | k in gs :: IsCnf(k)
    ensures ProductAll(KeptOr(gs)) <= ProductAll(gs)
  {
    var s := KeptSlots(DualAll(gs));
    ReduceOk(DualAll(gs));
    FalseSurvives(DualAll(gs));
    if TRUE in gs {
      var i :| 0 <= i < |gs| && gs[i] == TRUE;
      assert DualAll(gs)[i] == FALSE by { assert Dual(TRUE) == FALSE; }
      assert FALSE in DualAll(gs);
      var j :| 0 <= j < |Present(s)| && Present(s)[j] == FALSE;
      assert DualAll(Present(s))[j] == TRUE by { assert Dual(FALSE) == TRUE; }
      ZeroProduct(DualAll(Present(s)), j);
    } else {
      PositiveProduct(gs, s);
    }
  }

  lemma {:induction false} ZeroProduct(fs: seq<Formula>, j: nat)
    requires j < |fs| && fs[j] == TRUE
    ensures ProductAll(fs) == 0
  {
    if j > 0 { ZeroProduct(fs[1..], j - 1); }
  }

  lemma {:induction false} TimesAtLeast(p: nat, q: nat, x: nat)
    requires p >= 1 && x <= q
    ensures x <= p * q && p * x <= p * q && q <= p * q
  {
    MulMono(1, q, p, q);
    MulMono(p, x, p, q);
  }

  lemma {:induction false} PresentDual(gs: seq<Formula>, s: Slots)
    requires |gs| > 0 && StruckFrom(s, DualAll(gs))
    ensures DualAll(Present(s)) == (if s[0].Some? then [gs[0]] else []) + DualAll(Present(s[1..]))
  {
    var more := Present(s[1..]);
    if s[0].Some? {
      DualTwice(gs[0]);
      assert Present(s) == [s[0].value] + more;
      assert DualAll([s[0].value] + more) == [gs[0]] + DualAll(more);
    } else {
      assert Present(s) == more && [] + DualAll(more) == DualAll(more);
    }
  }

  lemma {:induction false} ProductCons(x: Formula, more: seq<Formula>)
    ensures ProductAll([x] + more) == Product(x) * ProductAll(more) && [] + more == more
  {
    assert ([x] + more)[1..] == more;
  }

  lemma {:induction false} PositiveProduct(gs: seq<Formula>, s: Slots)
    requires StruckFrom(s, DualAll(gs)) && (forall k | k in gs :: IsCnf(k)) && TRUE !in gs
    ensures ProductAll(DualAll(Present(s))) <= ProductAll(gs)
  {
    if |gs| > 0 {
      var t, rest := s[1..], gs[1..];
      assert gs[0] in gs && forall k | k in rest :: k in gs;
      assert DualAll(rest) == DualAll(gs)[1..];
      PositiveProduct(rest, t);
      CnfProduct(gs[0]);
      PresentDual(gs, s);
      ProductCons(gs[0], DualAll(Present(t)));
      TimesAtLeast(Product(gs[0]), ProductAll(rest), ProductAll(DualAll(Present(t))));
    }
  }

  /** The result for a node from the results for its arguments. */
  function NodeOf(node: Formula, gs: seq<Formula>): Option<Formula>
    requires !node.Leaf() && |gs| > 0
  {
    if node.And? then Some(AndOf(gs)) else
      KeptNonempty(gs);
      TreeOf(KeptOr(gs))
  }

  /** At a node whose arguments are done distribution fails exactly if a disjunction with one argument is
      among them and no TRUE is. */
  lemma {:induction false} NodeFails(node: Formula, gs: seq<Formula>)
    requires !node.Leaf() && |gs| > 0 && forall k | k in gs :: IsCnf(k)
    ensures NodeOf(node, gs).None? <==> node.Or? && Lone(gs)
  {
    if node.Or? {
      KeptNonempty(gs);
      KeptSame(gs);
      TreeCnf(KeptOr(gs));
      KeptLone(gs);
    }
  }

  lemma {:induction false} NodeOk(node: Formula, gs: seq<Formula>)
    requires !node.Leaf() && |gs| > 0 && ClausifiedAll(gs, node.kids) && NodeOf(node, gs).Some?
    ensures Clausified(NodeOf(node, gs).value, node)
  {
    AllCnf(gs, node.kids);
    if node.And? {
      AndSame(gs);
      AndCnf(gs);
      NodeSame(NodeOf(node, gs).value, node, gs, gs);
      if Bounded(node) { SumBound(gs, node.kids); }
    } else {
      var hs := KeptOr(gs);
      KeptNonempty(gs);
      KeptSame(gs);
      TreeSame(hs);
      TreeCnf(hs);
      NodeSame(NodeOf(node, gs).value, node, gs, hs);
      if Bounded(node) {
        KeptProduct(gs);
        ProductBound(gs, node.kids);
      }
    }
  }

  lemma {:induction false} NodeSame(g: Formula, node: Formula, gs: seq<Formula>, hs: seq<Formula>)
    requires !node.Leaf() && ClausifiedAll(gs, node.kids) && forall h | h in hs :: h in gs
    requires node.And? ==> Equivalent(g, And(gs)) && LeavesIn(g, And(hs))
    requires node.Or? ==> Equivalent(g, Or(hs)) && LeavesIn(g, Or(hs)) &&
                          forall v: Valuation :: SomeTrue(hs, v) <==> SomeTrue(gs, v)
    ensures Equivalent(g, node) && LeavesIn(g, node)
  {
    forall v: Valuation ensures Truth(g, v) <==> Truth(node, v) {
      TruthAnd(gs, v);
      TruthOr(hs, v);
      if node.And? { TruthAnd(node.kids, v); } else { TruthOr(node.kids, v); }
      AllEquivalent(gs, node.kids, v);
    }
    NodeLeaves(node, gs, hs);
  }

  /** The leaves of some of the results are leaves of the node. */
  lemma {:induction false} NodeLeaves(node: Formula, gs: seq<Formula>, hs: seq<Formula>)
    requires !node.Leaf() && ClausifiedAll(gs, node.kids) && forall h | h in hs :: h in gs
    ensures LeavesIn(And(hs), node) && LeavesIn(Or(hs), node)
  {
    forall x | SomeLeaf(hs, x) ensures HasLeaf(node, x) {
      var h :| h in hs && HasLeaf(h, x);
      var i :| 0 <= i < |gs| && gs[i] == h;
      assert LeavesIn(gs[i], node.kids[i]);
    }
    forall x ensures HasLeaf(And(hs), x) <==> SomeLeaf(hs, x) { KidLeaves(And(hs), x); }
    forall x ensures HasLeaf(Or(hs), x) <==> SomeLeaf(hs, x) { KidLeaves(Or(hs), x); }
  }

  /** All arguments of a node are done. */
  method NodeStep(node: Formula, gs: seq<Formula>) returns (r: Option<Formula>)
    requires !node.Leaf() && |gs| > 0
    ensures r == NodeOf(node, gs)
    ensures (forall k | k in gs :: IsCnf(k)) ==> (r.None? <==> node.Or? && Lone(gs))
    ensures ClausifiedAll(gs, node.kids) && r.Some? ==> Clausified(r.value, node)
  {
    if forall k | k in gs :: IsCnf(k) { NodeFails(node, gs); }
    if ClausifiedAll(gs, node.kids) && NodeOf(node, gs).Some? { NodeOk(node, gs); }
    if node.And? {
      var g := SimplifyTop(FlattenTop(And(gs)));
      return Some(g);
    }
    KeptNonempty(gs);
    var hs := ReduceOr(gs);
    r := DistributeOr(hs);
  }

  // ---------- cnf ----------

  /** The conjunctive normal form, or None where distribute reads an argument that is not there. */
  function CnfOf(f: Formula): Option<Formula>
    decreases f, 1
  {
    if f.Leaf() || |f.kids| == 0 then Some(f) else
      match CnfAll(f.kids)
      case None => None
      case Some(gs) => NodeOf(f, gs)
  }

  function CnfAll(fs: seq<Formula>): (r: Option<seq<Formula>>)
    ensures r.Some? ==> |r.value| == |fs|
    decreases fs, 0
  {
    if |fs| == 0 then Some([]) else Prefixed(CnfOf(fs[0]), CnfAll(fs[1..]))
  }

  function Prefixed(g: Option<Formula>, gs: Option<seq<Formula>>): Option<seq<Formula>> {
    if g.None? || gs.None? then None else Some([g.value] + gs.value)
  }

  lemma {:induction false} CnfAllAt(fs: seq<Formula>)
    ensures CnfAll(fs).None? <==> exists i :: 0 <= i < |fs| && CnfOf(fs[i]).None?
    ensures CnfAll(fs).Some? ==> forall i | 0 <= i < |fs| :: CnfOf(fs[i]) == Some(CnfAll(fs).value[i])
  {
    if |fs| > 0 {
      CnfAllAt(fs[1..]);
      if i :| 0 <= i < |fs| && CnfOf(fs[i]).None? {
        if i > 0 { assert CnfOf(fs[1..][i - 1]).None?; }
      }
      if CnfAll(fs).Some? {
        forall i | 0 <= i < |fs| ensures CnfOf(fs[i]) == Some(CnfAll(fs).value[i]) {
          if i > 0 { assert fs[1..][i - 1] == fs[i]; }
        }
      }
    }
  }

  lemma {:induction false} CnfOk(f: Formula)
    requires CnfOf(f).Some?
    ensures Clausified(CnfOf(f).value, f)
  {
    if !f.Leaf() && |f.kids| > 0 {
      CnfAllAt(f.kids);
      var gs := CnfAll(f.kids).value;
      forall i | 0 <= i < |gs| ensures Clausified(gs[i], f.kids[i]) { CnfOk(f.kids[i]); }
      NodeOk(f, gs);
    }
  }

  lemma {:induction false} MergeTidy(fs: seq<Formula>)
    requires forall k | k in fs :: Tidy(k)
    ensures TidyClauses(Merge(fs, true))
  {
    if |fs| > 0 {
      assert fs[0] in fs && forall k | k in fs[1..] :: k in fs;
      MergeTidy(fs[1..]);
    }
  }

  /** What a conjunction of arguments simplifies to. */
  lemma {:induction false} AndForm(gs: seq<Formula>)
    ensures (forall k | k in gs :: !k.And?) ==> AndOf(gs) == Simplified(gs)
    ensures !(forall k | k in gs :: !k.And?) ==>
              var m := Merge(gs, true); AndOf(gs) == if |m| == 1 then SimplifiedTop(m[0]) else Simplified(m)
  {
  }

  lemma {:induction false} AndTidy(gs: seq<Formula>)
    requires forall k | k in gs :: Tidy(k)
    ensures Tidy(AndOf(gs))
  {
    AndForm(gs);
    var m := Merge(gs, true);
    if forall k | k in gs :: !k.And? {
      SimplifiedTidy(gs);
    } else {
      MergeTidy(gs);
      if |m| == 1 {
        assert m[0] in m;
        assert SimplifiedTop(m[0]) == m[0];
      } else {
        SimplifiedTidy(m);
      }
    }
  }

  lemma {:induction false} TreeTidy(hs: seq<Formula>)
    requires |hs| > 0 && (forall h | h in hs :: Tidy(h)) && TreeOf(hs).Some?
    ensures Tidy(TreeOf(hs).value)
  {
    forall i | 0 <= i < |hs| ensures TidyTree(hs[i]) {
      assert hs[i] in hs;
      TidyIsTree(hs[i]);
    }
    BbtTidy(hs);
    DistributedTidy(Bbt(hs));
  }

  /** The normal form is tidy: no repeated or complementary literals in a clause, no clause that subsumes
      another, no complementary units. */
  lemma {:induction false} CnfTidy(f: Formula)
    requires CnfOf(f).Some?
    ensures Tidy(CnfOf(f).value)
  {
    if !f.Leaf() && |f.kids| > 0 {
      CnfAllAt(f.kids);
      var gs := CnfAll(f.kids).value;
      forall k | k in gs ensures Tidy(k) {
        var i :| 0 <= i < |gs| && gs[i] == k;
        CnfTidy(f.kids[i]);
      }
      if f.And? {
        AndTidy(gs);
      } else {
        KeptNonempty(gs);
        KeptSame(gs);
        TreeTidy(KeptOr(gs));
      }
    }
  }

  /** Some disjunction has an argument whose normal form is a disjunction with one argument, and no
      argument whose normal form is TRUE. */
  predicate Misread(f: Formula) {
    !f.Leaf() && ((exists i :: 0 <= i < |f.kids| && Misread(f.kids[i])) || (f.Or? && LoneKids(f.kids)))
  }

  predicate LoneKids(fs: seq<Formula>) {
    && (exists i :: 0 <= i < |fs| && CnfOf(fs[i]).Some? && OneArgument(CnfOf(fs[i]).value))
    && forall i | 0 <= i < |fs| :: CnfOf(fs[i]) != Some(TRUE)
  }

  lemma {:induction false} LoneForms(fs: seq<Formula>)
    requires CnfAll(fs).Some?
    ensures LoneKids(fs) <==> Lone(CnfAll(fs).value)
  {
    CnfAllAt(fs);
    var gs := CnfAll(fs).value;
    assert TRUE in gs <==> exists i :: 0 <= i < |fs| && CnfOf(fs[i]) == Some(TRUE);
    if i :| 0 <= i < |fs| && CnfOf(fs[i]).Some? && OneArgument(CnfOf(fs[i]).value) { assert gs[i] in gs; }
    if h :| h in gs && OneArgument(h) {
      var i :| 0 <= i < |gs| && gs[i] == h;
      assert OneArgument(CnfOf(fs[i]).value);
    }
  }

  /** cnf fails exactly on the formulas with such a disjunction. */
  lemma {:induction false} FailsIffMisread(f: Formula)
    ensures CnfOf(f).None? <==> Misread(f)
  {
    if !f.Leaf() && |f.kids| > 0 {
      CnfAllAt(f.kids);
      forall i | 0 <= i < |f.kids| ensures CnfOf(f.kids[i]).None? <==> Misread(f.kids[i]) {
        FailsIffMisread(f.kids[i]);
      }
      if CnfAll(f.kids).Some? {
        LoneForms(f.kids);
        var gs := CnfAll(f.kids).value;
        forall k | k in gs ensures IsCnf(k) {
          var i :| 0 <= i < |gs| && gs[i] == k;
          CnfOk(f.kids[i]);
        }
        NodeFails(f, gs);
      }
    }
  }

  /** A compound argument of a disjunction that says no more than a single leaf. */
  ghost predicate Degenerate(f: Formula) {
    !f.Leaf() && exists i :: 0 <= i < |f.kids| && (Degenerate(f.kids[i]) || (f.Or? && OneLeaf(f.kids[i])))
  }

  ghost predicate OneLeaf(f: Formula) {
    !f.Leaf() && exists x: Formula :: x.Leaf() && Equivalent(f, x)
  }

  /** So on formulas of no other kind: an argument misread says no more than a leaf. */
  lemma {:induction false} MisreadDegenerate(f: Formula)
    requires Misread(f)
    ensures Degenerate(f)
  {
    if i :| 0 <= i < |f.kids| && Misread(f.kids[i]) {
      MisreadDegenerate(f.kids[i]);
    } else {
      var i :| 0 <= i < |f.kids| && CnfOf(f.kids[i]).Some? && OneArgument(CnfOf(f.kids[i]).value);
      CnfOk(f.kids[i]);
      OneArgumentLeaf(CnfOf(f.kids[i]).value, f.kids[i]);
    }
  }

  lemma {:induction false} OneArgumentLeaf(g: Formula, f: Formula)
    requires Clausified(g, f) && OneArgument(g)
    ensures OneLeaf(f)
  {
    var x := g.kids[0];
    assert x in g.kids;
    forall v: Valuation ensures Truth(f, v) <==> Truth(x, v) { assert Truth(g, v) <==> Truth(f, v); }
  }

  /** The number of clauses is predicted for formulas without quantifiers. */
  lemma {:induction false} QuantifierFreeBound(f: Formula)
    requires QuantifierFree(f) && CnfOf(f).Some?
    ensures Count(CnfOf(f).value) <= MaxClauses(f)
  {
    QuantifierFreeBounded(f);
    CnfOk(f);
  }

  /** On a leaf, which is its own normal form, the prediction fails exactly where it is 0. */
  lemma {:induction false} LeafBound(f: Formula)
    requires f.Leaf()
    ensures CnfOf(f) == Some(f) && (Count(f) > MaxClauses(f) <==> MaxClauses(f) == 0)
  {
  }

  /** And a quantified TRUE is such a leaf. */
  lemma {:induction false} QuantifiedTruthUncounted(v: nat)
    ensures CnfOf(All(v, TRUE)) == Some(All(v, TRUE)) && Count(All(v, TRUE)) > MaxClauses(All(v, TRUE))
  {
    assert MaxClauses(TRUE) == 0;
  }

  // ---------- A misread formula ----------

  lemma {:induction false} KeptAtoms(a: Formula, b: Formula)
    requires a.Leaf() && b.Leaf() && a != b && !Complementary(a, b)
    ensures CnfOf(And([a, b])) == Some(And([a, b]))
  {
    var two := [a, b];
    assert two[0] == a && two[1] == b && two[1..] == [b] && [b][1..] == [];
    assert CnfAll([b]) == Prefixed(CnfOf(b), CnfAll([b][1..]));
    assert CnfAll(two) == Prefixed(CnfOf(a), CnfAll(two[1..]));
    assert CnfAll(two).value == two;
    assert FlattenTop(And(two)) == And(two);
    ReducedAlready(two);
    assert !ContainsComplements(two);
  }

  /** What (a & b) | (a & -b) becomes: a disjunction with the one argument a. */
  lemma {:induction false} SplitAtom(a: Formula, b: Formula)
    requires a.Atom? && b.Atom? && a != b
    ensures CnfOf(Or([And([a, b]), And([a, Not(b)])])) == Some(Or([a]))
  {
    var p, q := And([a, b]), And([a, Not(b)]);
    KeptAtoms(a, b);
    KeptAtoms(a, Not(b));
    TwoForms(p, q, p, q);
    SplitKept(a, b);
    SplitTop(a, b);
  }

  lemma {:induction false} TwoForms(f: Formula, g: Formula, p: Formula, q: Formula)
    requires CnfOf(f) == Some(p) && CnfOf(g) == Some(q)
    ensures CnfAll([f, g]) == Some([p, q])
  {
    var one, two := [g], [f, g];
    assert two[1..] == one && two[0] == f && one[1..] == [];
    assert CnfAll(one[1..]) == Some([]) && [q] + [] == [q];
    assert CnfAll(one) == Some([q]);
    assert CnfAll(two) == Prefixed(CnfOf(f), CnfAll(two[1..]));
    assert [p] + [q] == [p, q];
  }

  /** Neither conjunction subsumes the other. */
  lemma {:induction false} SplitKept(a: Formula, b: Formula)
    requires a.Atom? && b.Atom? && a != b
    ensures KeptOr([And([a, b]), And([a, Not(b)])]) == [And([a, b]), And([a, Not(b)])]
  {
    var p, q := And([a, b]), And([a, Not(b)]);
    var ds := DualAll([p, q]);
    assert ds == [Or([a, b]), Or([a, Not(b)])] by {
      assert Dual(a) == a && Dual(b) == b && Dual(Not(b)) == Not(b);
      assert Dual(p).kids == [a, b] && Dual(q).kids == [a, Not(b)];
    }
    var c, d := Or([a, b]), Or([a, Not(b)]);
    assert b in c.kids && b !in d.kids && Not(b) in d.kids && Not(b) !in c.kids;
    ReducedAlready(ds);
    DualAllTwice([p, q]);
  }

  lemma {:induction false} SplitTop(a: Formula, b: Formula)
    requires a.Atom? && b.Atom? && a != b
    ensures TreeOf([And([a, b]), And([a, Not(b)])]) == Some(Or([a]))
  {
    var p, q := And([a, b]), And([a, Not(b)]);
    assert [p, q][..1] == [p] && [p, q][1..] == [q];
    assert Bbt([p, q]) == Or([p, q]);
    assert Binary(Or([p, q])) == Or([p, q]);
    assert Distributed(p) == Some(p) && Distributed(q) == Some(q);
    assert TreeOf([p, q]) == Some(TopOf(p, q));
    SplitRows(a, b);
    FirstOnly([Or([a]), Or([a, Not(b)]), Or([b, a]), TRUE]);
  }

  lemma {:induction false} SplitRows(a: Formula, b: Formula)
    requires a.Atom? && b.Atom? && a != b
    ensures var fs := [a, b]; RowsOf(fs, [a, Not(b)], |fs|) == [Or([a]), Or([a, Not(b)]), Or([b, a]), TRUE]
  {
    var fs, gs := [a, b], [a, Not(b)];
    DisjoinItself(a);
    DisjoinOther(a, Not(b));
    DisjoinOther(b, a);
    assert Disjoin(b, Not(b)) == TRUE by {
      assert ClashAt([b], [Not(b)], 0, 0);
    }
    assert RowOf(a, [a, Not(b)]) == [Or([a]), Or([a, Not(b)])];
    assert RowOf(b, [a, Not(b)]) == [Or([b, a]), TRUE];
    var n := |fs|;
    assert RowsOf(fs, gs, n - 2) == [] && RowsOf(fs, gs, n - 1) == [] + RowOf(a, gs);
  }

  lemma {:induction false} DisjoinOther(a: Formula, b: Formula)
    requires a.Leaf() && b.Leaf() && a != b && !Complementary(a, b)
    ensures Disjoin(a, b) == Or([a, b])
  {
    assert [b][1..] == [] && Without([b], [a]) == [b] + Without([], [a]);
    assert !Clash([a], [b]);
  }

  /** The input ((a & b) | (a & -b)) & ((a & c) | (a & -c)) as an argument of a disjunction is misread. */
  lemma {:induction false} MisreadInput(a: Formula, b: Formula, c: Formula, w: Formula)
    requires a.Atom? && b.Atom? && c.Atom? && a != b && a != c && CnfOf(w).Some? && CnfOf(w).value != TRUE
    ensures CnfOf(Or([And([Or([And([a, b]), And([a, Not(b)])]), Or([And([a, c]), And([a, Not(c)])])]), w])).None?
  {
    var s, t, one := Or([And([a, b]), And([a, Not(b)])]), Or([And([a, c]), And([a, Not(c)])]), Or([a]);
    SplitAtom(a, b);
    SplitAtom(a, c);
    TwoForms(s, t, one, one);
    assert FlattenTop(And([one, one])) == And([one, one]);
    FirstOnly([one, one]);
    assert CnfOf(And([s, t])) == Some(one);
    var fs := [And([s, t]), w];
    assert fs[0] == And([s, t]) && fs[1] == w;
    assert LoneKids(fs);
    assert Misread(Or(fs));
    FailsIffMisread(Or(fs));
  }

  // ---------- The stack of cnf ----------

  /** Conjunctions and disjunctions under way, innermost first, with the results of the arguments so far. */
  datatype CnfStack = CnfBottom | CnfFrame(node: Formula, done: seq<Formula>, below: CnfStack)

  ghost predicate Open(s: CnfStack) {
    s.CnfFrame? ==> !s.node.Leaf() && |s.done| < |s.node.kids| && Open(s.below)
  }

  /** The result for a node whose argument under way has result r. */
  ghost function NodeFrom(node: Formula, done: seq<Formula>, r: Option<Formula>): Option<Formula>
    requires !node.Leaf() && |done| < |node.kids|
  {
    if r.None? then None else
      match CnfAll(node.kids[|done| + 1..])
      case None => None
      case Some(rest) => NodeOf(node, done + [r.value] + rest)
  }

  /** The result for the whole when the formula under way has result r. */
  ghost function WholeOf(s: CnfStack, r: Option<Formula>): Option<Formula>
    requires Open(s)
  {
    if s.CnfBottom? then r else WholeOf(s.below, NodeFrom(s.node, s.done, r))
  }

  lemma {:induction false} WholeNone(s: CnfStack)
    requires Open(s)
    ensures WholeOf(s, None) == None
  {
    if s.CnfFrame? { WholeNone(s.below); }
  }

  ghost function Nodes(f: Formula): (n: nat)
    ensures n > 0
    decreases f, 1
  {
    if f.Leaf() then 1 else 1 + NodesAll(f.kids)
  }

  ghost function NodesAll(fs: seq<Formula>): nat
    decreases fs, 0
  {
    if |fs| == 0 then 0 else Nodes(fs[0]) + NodesAll(fs[1..])
  }

  ghost function Ahead(s: CnfStack): nat {
    match s
    case CnfBottom => 0
    case CnfFrame(node, done, below) =>
      (if !node.Leaf() && |done| < |node.kids| then NodesAll(node.kids[|done| + 1..]) else 0) + Ahead(below)
  }

  lemma {:induction false} FirstKid(cur: Formula, s: CnfStack)
    requires !cur.Leaf() && |cur.kids| > 0
    ensures Nodes(cur) == 1 + Nodes(cur.kids[0]) + Ahead(CnfFrame(cur, [], s)) - Ahead(s)
    ensures NodeFrom(cur, [], CnfOf(cur.kids[0])) == CnfOf(cur)
  {
    var none: seq<Formula> := [];
    assert cur.kids[|none| + 1..] == cur.kids[1..];
    if CnfAll(cur.kids).Some? {
      assert none + [CnfOf(cur.kids[0]).value] + CnfAll(cur.kids[1..]).value == CnfAll(cur.kids).value;
    }
  }

  /** One argument more is done: the next one, or the node. */
  lemma {:induction false} NextKid(s: CnfStack, g: Formula)
    requires s.CnfFrame? && Open(s)
    ensures var n, done := |s.done| + 1, s.done + [g];
            if n == |s.node.kids| then
              NodeFrom(s.node, s.done, Some(g)) == NodeOf(s.node, done) && Ahead(s) == Ahead(s.below)
            else NodeFrom(s.node, s.done, Some(g)) == NodeFrom(s.node, done, CnfOf(s.node.kids[n])) &&
                 Nodes(s.node.kids[n]) + Ahead(CnfFrame(s.node, done, s.below)) == Ahead(s)
  {
    var kids, n, done := s.node.kids, |s.done| + 1, s.done + [g];
    if n == |kids| {
      assert kids[n..] == [] && done + [] == done;
    } else {
      assert kids[n..][0] == kids[n] && kids[n..][1..] == kids[n + 1..];
      if CnfAll(kids[n..]).Some? {
        var h, rest := CnfOf(kids[n]).value, CnfAll(kids[n + 1..]).value;
        assert done + ([h] + rest) == done + [h] + rest;
      }
    }
  }

  /** cnf computes the normal form.  It is equivalent, with no new leaves, and within the predicted
      number of clauses; None is returned exactly for a formula that distribute misreads. */
  method Cnf(f: Formula) returns (r: Option<Formula>)
    ensures r == CnfOf(f)
    ensures r.None? <==> Misread(f)
    ensures r.None? ==> Degenerate(f)
    ensures r.Some? ==> Equivalent(r.value, f) && IsCnf(r.value) && LeavesIn(r.value, f)
    ensures r.Some? && Bounded(f) ==> Count(r.value) <= MaxClauses(f)
    ensures f.Leaf() ==> r == Some(f)
    ensures r.Some? ==> Tidy(r.value)
  {
    FailsIffMisread(f);
    if CnfOf(f).Some? {
      CnfOk(f);
      CnfTidy(f);
    } else { MisreadDegenerate(f); }
    var stack, cur := CnfBottom, f;
    while true
      invariant Open(stack) && WholeOf(stack, CnfOf(cur)) == CnfOf(f)
      decreases Nodes(cur) + Ahead(stack)
    {
      if !cur.Leaf() && |cur.kids| > 0 {
        FirstKid(cur, stack);
        stack, cur := CnfFrame(cur, [], stack), cur.kids[0];
      } else {
        var result := cur;
        ghost var ahead := Ahead(stack);
        while stack.CnfFrame? && |stack.done| + 1 == |stack.node.kids|
          invariant Open(stack) && WholeOf(stack, Some(result)) == CnfOf(f) && Ahead(stack) == ahead
          decreases stack
        {
          NextKid(stack, result);
          var one := NodeStep(stack.node, stack.done + [result]);
          if one.None? {
            WholeNone(stack.below);
            return None;
          }
          stack, result := stack.below, one.value;
        }
        if stack.CnfBottom? { return Some(result); }
        NextKid(stack, result);
        stack := CnfFrame(stack.node, stack.done + [result], stack.below);
        cur := stack.node.kids[|stack.done|];
      }
    }
  }

  /** cnf_max_clauses */
  datatype MaxStack = MaxBottom | MaxFrame(node: Formula, child: nat, accum: nat, below: MaxStack)

  function Combine(node: Formula, accum: nat, x: nat): nat {
    if node.And? then accum + x else accum * x
  }

  /** The value of a node with this much accumulated before its argument `child`. */
  ghost function RestOf(node: Formula, child: nat, accum: nat): nat {
    if node.Leaf() || child > |node.kids| then 0
    else if node.And? then accum + MaxSum(node.kids[child..]) else accum * MaxProduct(node.kids[child..])
  }

  /** The value of the whole when the argument under way has value x. */
  ghost function Finish(s: MaxStack, x: nat): nat {
    match s
    case MaxBottom => x
    case MaxFrame(node, child, accum, below) => Finish(below, RestOf(node, child, Combine(node, accum, x)))
  }

  lemma {:induction false} RestStep(node: Formula, child: nat, accum: nat)
    requires !node.Leaf() && child < |node.kids|
    ensures RestOf(node, child, accum) == RestOf(node, child + 1, Combine(node, accum, MaxClauses(node.kids[child])))
    ensures DeepAll(node.kids[child..]) == Deep(node.kids[child]) + DeepAll(node.kids[child + 1..])
  {
    var kids := node.kids;
    assert kids[child..][0] == kids[child] && kids[child..][1..] == kids[child + 1..];
    MulAssoc(accum, MaxClauses(kids[child]), MaxProduct(kids[child + 1..]));
  }

  lemma {:induction false} RestEnds(node: Formula, accum: nat)
    requires !node.Leaf()
    ensures RestOf(node, |node.kids|, accum) == accum
    ensures RestOf(node, 0, if node.And? then 0 else 1) == MaxClauses(node)
    ensures Deep(node) == 1 + DeepAll(node.kids[0..])
  {
    assert node.kids[|node.kids|..] == [] && node.kids[0..] == node.kids;
  }

  ghost predicate Shaped(s: MaxStack) {
    s.MaxFrame? ==> !s.node.Leaf() && s.child <= |s.node.kids| && Shaped(s.below)
  }

  ghost function MaxAhead(s: MaxStack): nat {
    match s
    case MaxBottom => 0
    case MaxFrame(node, child, _, below) =>
      (if !node.Leaf() && child <= |node.kids| then DeepAll(node.kids[child..]) else 0) + MaxAhead(below)
  }

  ghost function Deep(f: Formula): (n: nat)
    ensures n > 0
    decreases f, 1
  {
    match f
    case Atom(_, _) => 1
    case Not(_) => 1
    case And(kids) => 1 + DeepAll(kids)
    case Or(kids) => 1 + DeepAll(kids)
    case All(_, b) => 1 + Deep(b)
    case Exists(_, b) => 1 + Deep(b)
  }

  ghost function DeepAll(fs: seq<Formula>): nat
    decreases fs, 0
  {
    if |fs| == 0 then 0 else Deep(fs[0]) + DeepAll(fs[1..])
  }

  method CnfMaxClauses(f: Formula) returns (n: nat)
    ensures n == MaxClauses(f)
  {
    var stack, cur := MaxBottom, f;
    while true
      invariant Finish(stack, MaxClauses(cur)) == MaxClauses(f) && Shaped(stack)
      decreases Deep(cur) + MaxAhead(stack)
    {
      if cur.All? || cur.Exists? {
        cur := cur.body;
      } else if !cur.Leaf() && |cur.kids| > 0 {
        RestEnds(cur, 0);
        RestStep(cur, 0, if cur.And? then 0 else 1);
        stack, cur := MaxFrame(cur, 1, if cur.And? then 0 else 1, stack), cur.kids[0];
      } else {
        n := if cur.And? then 0 else 1;
        ghost var ahead := MaxAhead(stack);
        while stack.MaxFrame? && stack.child == |stack.node.kids|
          invariant Finish(stack, n) == MaxClauses(f) && MaxAhead(stack) == ahead && Shaped(stack)
          decreases stack
        {
          n := Combine(stack.node, stack.accum, n);
          RestEnds(stack.node, n);
          stack := stack.below;
        }
        if stack.MaxBottom? { return; }
        var accum := Combine(stack.node, stack.accum, n);
        RestStep(stack.node, stack.child, accum);
        cur := stack.node.kids[stack.child];
        stack := MaxFrame(stack.node, stack.child + 1, accum, stack.below);
      }
    }
  }
}

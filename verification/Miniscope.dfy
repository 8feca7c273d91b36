/** Moving quantifiers inward (ms_free_vars, miniscope: ladr/cnf.c:1713-1914). */
module Miniscope {
  import opened Options
  import opened Formulas
  import opened Simplify
  import opened Distribute
  import opened Cnf
  import opened Structures
  import opened Substitution

  /** True in the same structures (over one domain). */
  ghost predicate SameTruth<D(!new)>(f: Formula, g: Formula) {
    forall m: Structure<D>, e: Env<D> :: Holds(f, m, e) <==> Holds(g, m, e)
  }

  lemma {:induction false} EquivalentSame<D(!new)>(f: Formula, g: Formula)
    requires Equivalent(f, g)
    ensures SameTruth<D>(f, g)
  {
    forall m: Structure<D>, e: Env<D> ensures Holds(f, m, e) <==> Holds(g, m, e) { EquivalentHolds(f, g, m, e); }
  }

  // ---------- What miniscoping is for ----------

  /** Every quantified variable occurs in the scope of its quantifier, and in every disjunct of
      the scope of a universal one (every conjunct for an existential one).  A universal quantifier
      stays on a conjunction only where that is one half of a balanced conjunction, and on a scope
      that does not mention the variable only where that is FALSE. */
  ghost predicate Scoped(f: Formula) {
    match f
    case Atom(_, _) => true
    case Not(_) => true
    case And(kids) => forall i | 0 <= i < |kids| :: Scoped(kids[i])
    case Or(kids) => forall i | 0 <= i < |kids| :: Scoped(kids[i])
    case All(v, b) => (Free(v, b) || b == FALSE) && (b.Or? ==> EachFree(v, b.kids)) && Paired(b, true) && Scoped(b)
    case Exists(v, b) => (Free(v, b) || b == TRUE) && (b.And? ==> EachFree(v, b.kids)) && Paired(b, false) && Scoped(b)
  }

  ghost predicate EachFree(v: nat, fs: seq<Formula>) {
    forall i | 0 <= i < |fs| :: Free(v, fs[i])
  }

  ghost predicate Narrowed(f: Formula) {
    Tame(f) && Scoped(f)
  }

  ghost predicate NarrowedAll(fs: seq<Formula>) {
    forall f | f in fs :: Narrowed(f)
  }

  /** Only the leaves matter. */
  lemma {:induction false} ScopedLeaf(f: Formula, x: Formula)
    requires Scoped(f) && HasLeaf(f, x)
    ensures Scoped(x)
  {
    if !f.Leaf() {
      var i :| 0 <= i < |f.kids| && HasLeaf(f.kids[i], x);
      ScopedLeaf(f.kids[i], x);
    }
  }

  lemma {:induction false} ScopedFrom(g: Formula, f: Formula)
    requires LeavesIn(g, f) && Scoped(f)
    ensures Scoped(g)
    decreases g
  {
    if g.Leaf() {
      assert HasLeaf(g, g);
      ScopedLeaf(f, g);
    } else {
      forall i | 0 <= i < |g.kids| ensures Scoped(g.kids[i]) {
        forall x | HasLeaf(g.kids[i], x) ensures HasLeaf(f, x) { assert HasLeaf(g, x); }
        ScopedFrom(g.kids[i], f);
      }
    }
  }

  lemma {:induction false} ScopedNode(f: Formula)
    requires !f.Leaf()
    ensures Scoped(f) <==> forall k | k in f.kids :: Scoped(k)
  {
    if forall k | k in f.kids :: Scoped(k) {
      forall i | 0 <= i < |f.kids| ensures Scoped(f.kids[i]) { assert f.kids[i] in f.kids; }
    }
  }

  /** Flattening leaves no connective directly below itself that was not there before. */
  lemma {:induction false} MergeTame(fs: seq<Formula>, isAnd: bool)
    requires forall k | k in fs :: Tame(k)
    ensures TameKids(Merge(fs, isAnd), isAnd)
  {
    if |fs| > 0 {
      assert fs[0] in fs && forall k | k in fs[1..] :: k in fs;
      TameParts(fs[0]);
      MergeTame(fs[1..], isAnd);
    }
  }

  lemma {:induction false} FlattenTame(f: Formula)
    requires !f.Leaf() && forall k | k in f.kids :: Tame(k)
    ensures Tame(FlattenTop(f))
  {
    if forall k | k in f.kids :: k.And? != f.And? || k.Or? != f.Or? {
      TameNode(f);
    } else {
      var g := Merge(f.kids, f.And?);
      MergeTame(f.kids, f.And?);
      if |g| == 1 { assert g[0] in g; } else { TameNode(if f.And? then And(g) else Or(g)); }
    }
  }

  // ---------- The dual ----------

  /** Every atom has the opposite value. */
  ghost predicate Opposite<D(!new)>(m: Structure<D>, m2: Structure<D>) {
    m.fun == m2.fun && forall p: nat, ds: seq<D> :: m.rel(p, ds) <==> !m2.rel(p, ds)
  }

  ghost function Negated<D(!new)>(m: Structure<D>): (m2: Structure<D>)
    ensures Opposite(m, m2) && Opposite(m2, m)
  {
    m.(rel := (p: nat, ds: seq<D>) => !m.rel(p, ds))
  }

  /** The dual holds exactly where the formula fails with every atom negated. */
  lemma {:induction false} DualHolds<D(!new)>(f: Formula, m: Structure<D>, m2: Structure<D>, e: Env<D>)
    requires Opposite(m, m2)
    ensures Holds(Dual(f), m, e) <==> !Holds(f, m2, e)
    decreases f, 0
  {
    match f
    case Atom(_, args) => ValuesSameFun(args, m, m2, e);
    case Not(g) => DualHolds(g, m, m2, e);
    case And(kids) =>
      forall i | 0 <= i < |kids| ensures Holds(DualAll(kids)[i], m, e) <==> !Holds(kids[i], m2, e) {
        DualHolds(kids[i], m, m2, e);
      }
    case Or(kids) =>
      forall i | 0 <= i < |kids| ensures Holds(DualAll(kids)[i], m, e) <==> !Holds(kids[i], m2, e) {
        DualHolds(kids[i], m, m2, e);
      }
    case All(v, b) => DualBody(b, v, m, m2, e);
    case Exists(v, b) => DualBody(b, v, m, m2, e);
  }

  lemma {:induction false} DualBody<D(!new)>(b: Formula, v: nat, m: Structure<D>, m2: Structure<D>, e: Env<D>)
    requires Opposite(m, m2)
    ensures Holds(Exists(v, Dual(b)), m, e) <==> !Holds(All(v, b), m2, e)
    ensures Holds(All(v, Dual(b)), m, e) <==> !Holds(Exists(v, b), m2, e)
    decreases b, 1
  {
    var c := Dual(b);
    forall d: D ensures HoldsAt(c, m, e, v, d) <==> !HoldsAt(b, m2, e, v, d) { DualHolds(b, m, m2, e[v := d]); }
    if Holds(All(v, b), m2, e) { forall d: D ensures !HoldsAt(c, m, e, v, d) { assert HoldsAt(b, m2, e, v, d); } }
    if !Holds(Exists(v, c), m, e) { forall d: D ensures HoldsAt(b, m2, e, v, d) { assert !HoldsAt(c, m, e, v, d); } }
    if Holds(All(v, c), m, e) { forall d: D ensures !HoldsAt(b, m2, e, v, d) { assert HoldsAt(c, m, e, v, d); } }
    if !Holds(Exists(v, b), m2, e) { forall d: D ensures HoldsAt(c, m, e, v, d) { assert !HoldsAt(b, m2, e, v, d); } }
  }

  lemma {:induction false} DualSame<D(!new)>(f: Formula, g: Formula)
    requires SameTruth<D>(f, g)
    ensures SameTruth<D>(Dual(f), Dual(g))
  {
    forall m: Structure<D>, e: Env<D> ensures Holds(Dual(f), m, e) <==> Holds(Dual(g), m, e) {
      DualHolds(f, m, Negated(m), e);
      DualHolds(g, m, Negated(m), e);
    }
  }

  lemma {:induction false} DualHeight(f: Formula)
    ensures Height(Dual(f)) == Height(f)
    decreases f, 1
  {
    match f
    case Atom(_, _) =>
    case Not(g) => DualHeight(g);
    case And(kids) => DualHeights(kids);
    case Or(kids) => DualHeights(kids);
    case All(_, b) => DualHeight(b);
    case Exists(_, b) => DualHeight(b);
  }

  lemma {:induction false} DualHeights(fs: seq<Formula>)
    ensures HeightAll(DualAll(fs)) == HeightAll(fs)
    decreases fs, 0
  {
    if |fs| > 0 {
      DualHeight(fs[0]);
      DualHeights(fs[1..]);
      assert DualAll(fs)[1..] == DualAll(fs[1..]);
    }
  }

  lemma {:induction false} DualFree(v: nat, f: Formula)
    ensures Free(v, Dual(f)) <==> Free(v, f)
  {
    match f
    case Atom(_, _) =>
    case Not(g) => DualFree(v, g);
    case And(kids) => DualFrees(v, kids);
    case Or(kids) => DualFrees(v, kids);
    case All(_, b) => DualFree(v, b);
    case Exists(_, b) => DualFree(v, b);
  }

  lemma {:induction false} DualFrees(v: nat, fs: seq<Formula>)
    ensures forall i | 0 <= i < |fs| :: Free(v, DualAll(fs)[i]) <==> Free(v, fs[i])
  {
    forall i | 0 <= i < |fs| ensures Free(v, DualAll(fs)[i]) <==> Free(v, fs[i]) { DualFree(v, fs[i]); }
  }

  lemma {:induction false} DualPaired(f: Formula, isAnd: bool)
    ensures Paired(Dual(f), !isAnd) <==> Paired(f, isAnd)
  {
    if (if isAnd then f.And? else f.Or?) && |f.kids| == 2 {
      DualPaired(f.kids[0], isAnd);
      DualPaired(f.kids[1], isAnd);
    }
  }

  lemma {:induction false} DualNarrowed(f: Formula)
    requires Narrowed(f)
    ensures Narrowed(Dual(f))
    decreases f, 1
  {
    match f
    case Atom(_, _) =>
    case Not(_) =>
    case And(kids) => DualNarrowedAll(kids, true); assert Dual(f) == Or(DualAll(kids));
    case Or(kids) => DualNarrowedAll(kids, false); assert Dual(f) == And(DualAll(kids));
    case All(v, b) => DualScope(v, b);
    case Exists(v, b) => DualScope(v, b);
  }

  lemma {:induction false} DualNarrowedAll(kids: seq<Formula>, isAnd: bool)
    requires forall i | 0 <= i < |kids| :: Narrowed(kids[i]) && Paired(kids[i], isAnd)
    ensures forall i | 0 <= i < |kids| :: Narrowed(DualAll(kids)[i]) && Paired(DualAll(kids)[i], !isAnd)
  {
    forall i | 0 <= i < |kids| ensures Narrowed(DualAll(kids)[i]) && Paired(DualAll(kids)[i], !isAnd) {
      DualNarrowed(kids[i]);
      DualPaired(kids[i], isAnd);
    }
  }

  lemma {:induction false} DualScope(v: nat, b: Formula)
    requires Scoped(b)
    ensures Scoped(All(v, b)) ==> Scoped(Exists(v, Dual(b)))
    ensures Scoped(Exists(v, b)) ==> Scoped(All(v, Dual(b)))
    decreases b, 1
  {
    DualFree(v, b);
    DualPaired(b, true);
    DualPaired(b, false);
    DualScoped(b);
    if !b.Leaf() { DualFrees(v, b.kids); }
  }

  lemma {:induction false} DualScoped(f: Formula)
    requires Scoped(f)
    ensures Scoped(Dual(f))
    decreases f, 0
  {
    match f
    case Atom(_, _) =>
    case Not(_) =>
    case And(kids) =>
      assert Dual(f) == Or(DualAll(kids));
      forall i | 0 <= i < |kids| ensures Scoped(DualAll(kids)[i]) { DualScoped(kids[i]); }
    case Or(kids) =>
      assert Dual(f) == And(DualAll(kids));
      forall i | 0 <= i < |kids| ensures Scoped(DualAll(kids)[i]) { DualScoped(kids[i]); }
    case All(v, b) => DualScope(v, b);
    case Exists(v, b) => DualScope(v, b);
  }

  // ---------- Quantifiers over connectives ----------

  lemma {:induction false} HoldsOr<D(!new)>(fs: seq<Formula>, m: Structure<D>, e: Env<D>)
    ensures Holds(Or(fs), m, e) <==> exists f :: f in fs && Holds(f, m, e)
  {
    if i :| 0 <= i < |fs| && Holds(fs[i], m, e) { assert fs[i] in fs; }
    if f :| f in fs && Holds(f, m, e) { var i :| 0 <= i < |fs| && fs[i] == f; }
  }

  /** A variable that is not free does not matter; the domain is not empty. */
  lemma {:induction false} NotFreeHolds<D(!new)>(f: Formula, v: nat, m: Structure<D>, e: Env<D>, d: D)
    requires !Free(v, f)
    ensures HoldsAt(f, m, e, v, d) <==> Holds(f, m, e)
  {
    HoldsAgree(f, m, e[v := d], e);
  }

  lemma {:induction false} VacuousQuantifier<D(!new)>(v: nat, f: Formula)
    requires !Free(v, f)
    ensures SameTruth<D>(All(v, f), f)
  {
    forall m: Structure<D>, e: Env<D> ensures Holds(All(v, f), m, e) <==> Holds(f, m, e) {
      NotFreeHolds(f, v, m, e, m.fun(0, []));
      if Holds(f, m, e) { forall d: D ensures HoldsAt(f, m, e, v, d) { NotFreeHolds(f, v, m, e, d); } }
      if Holds(All(v, f), m, e) { assert HoldsAt(f, m, e, v, m.fun(0, [])); }
    }
  }

  /** A universal quantifier need only cover the disjuncts that mention its variable. */
  lemma {:induction false} SplitUniversal<D(!new)>(v: nat, kids: seq<Formula>, free: seq<Formula>,
      notfree: seq<Formula>)
    requires (forall k | k in notfree :: !Free(v, k)) && forall k :: k in kids <==> k in free || k in notfree
    ensures SameTruth<D>(All(v, Or(kids)), Or(notfree + [All(v, Or(free))]))
  {
    var q := All(v, Or(free));
    forall m: Structure<D>, e: Env<D> ensures Holds(All(v, Or(kids)), m, e) <==> Holds(Or(notfree + [q]), m, e) {
      HoldsOr(notfree + [q], m, e);
      if k :| k in notfree && Holds(k, m, e) {
        forall d: D ensures HoldsAt(Or(kids), m, e, v, d) {
          NotFreeHolds(k, v, m, e, d);
          HoldsOr(kids, m, e[v := d]);
        }
        assert k in notfree + [q];
      } else {
        forall d: D ensures HoldsAt(Or(kids), m, e, v, d) <==> HoldsAt(Or(free), m, e, v, d) {
          HoldsOr(kids, m, e[v := d]);
          HoldsOr(free, m, e[v := d]);
          forall k | k in notfree ensures !Holds(k, m, e[v := d]) { NotFreeHolds(k, v, m, e, d); }
        }
        SameBodies(All(v, Or(kids)), Or(free), Or(kids), m, e, e);
        assert q in notfree + [q];
      }
    }
  }

  /** A universal quantifier over a conjunction. */
  lemma {:induction false} SplitConjunction<D(!new)>(v: nat, kids: seq<Formula>, gs: seq<Formula>)
    requires |gs| == |kids| && forall i | 0 <= i < |kids| :: SameTruth<D>(gs[i], All(v, kids[i]))
    ensures SameTruth<D>(And(gs), All(v, And(kids)))
  {
    forall m: Structure<D>, e: Env<D> ensures Holds(And(gs), m, e) <==> Holds(All(v, And(kids)), m, e) {
      if Holds(And(gs), m, e) {
        forall d: D ensures HoldsAt(And(kids), m, e, v, d) {
          forall i | 0 <= i < |kids| ensures Holds(kids[i], m, e[v := d]) {
            assert SameTruth<D>(gs[i], All(v, kids[i])) && Holds(gs[i], m, e);
            AllAt(v, kids[i], m, e, d);
          }
        }
      }
      if Holds(All(v, And(kids)), m, e) {
        forall i | 0 <= i < |kids| ensures Holds(gs[i], m, e) {
          forall d: D ensures HoldsAt(kids[i], m, e, v, d) {
            AllAt(v, And(kids), m, e, d);
            KidAt(kids, i, m, e[v := d]);
          }
          assert SameTruth<D>(gs[i], All(v, kids[i])) && Holds(All(v, kids[i]), m, e);
        }
      }
    }
  }

  lemma {:induction false} AllAt<D(!new)>(v: nat, b: Formula, m: Structure<D>, e: Env<D>, d: D)
    requires Holds(All(v, b), m, e)
    ensures Holds(b, m, e[v := d])
  {
    assert HoldsAt(b, m, e, v, d);
  }

  lemma {:induction false} KidAt<D(!new)>(kids: seq<Formula>, i: nat, m: Structure<D>, e: Env<D>)
    requires Holds(And(kids), m, e) && i < |kids|
    ensures Holds(kids[i], m, e)
  {
  }

  function Mentioning(v: nat, fs: seq<Formula>, yes: bool): seq<Formula> {
    if |fs| == 0 then [] else (if Free(v, fs[0]) == yes then [fs[0]] else []) + Mentioning(v, fs[1..], yes)
  }

  lemma {:induction false} MentioningMembers(v: nat, fs: seq<Formula>, yes: bool)
    ensures forall f :: f in Mentioning(v, fs, yes) <==> f in fs && Free(v, f) == yes
  {
    if |fs| > 0 {
      MentioningMembers(v, fs[1..], yes);
      assert forall f :: f in fs <==> f == fs[0] || f in fs[1..];
    }
  }

  /** A universal quantifier over what is left of its scope: the disjuncts that mention the variable. */
  function Narrow(v: nat, child: Formula): Formula {
    var free := if child.Or? then Mentioning(v, child.kids, true) else [child];
    var notfree := if child.Or? then Mentioning(v, child.kids, false) else [];
    if !child.Or? then (if Free(v, child) then All(v, child) else child)
    else if notfree == [] then All(v, child)
    else if free == [] then child
    else Or(notfree + [All(v, Or(free))])
  }

  lemma {:induction false} NarrowTruth<D(!new)>(v: nat, child: Formula)
    ensures SameTruth<D>(Narrow(v, child), All(v, child))
  {
    if child.Or? {
      MentioningMembers(v, child.kids, true);
      MentioningMembers(v, child.kids, false);
      var free, notfree := Mentioning(v, child.kids, true), Mentioning(v, child.kids, false);
      if free == [] {
        forall j | 0 <= j < |child.kids| ensures !Free(v, child.kids[j]) { assert child.kids[j] in child.kids; }
        VacuousQuantifier<D>(v, child);
      } else if notfree != [] {
        SplitUniversal<D>(v, child.kids, free, notfree);
      }
    } else if !Free(v, child) {
      VacuousQuantifier<D>(v, child);
    }
  }

  /** The scope of the quantifier is as narrow as disjunctions allow. */
  lemma {:induction false} NarrowScoped(v: nat, child: Formula)
    requires Narrowed(child) && Paired(child, true)
    ensures Narrowed(Narrow(v, child)) && Paired(Narrow(v, child), true)
  {
    if child.Or? {
      MentioningMembers(v, child.kids, true);
      MentioningMembers(v, child.kids, false);
      var free, notfree := Mentioning(v, child.kids, true), Mentioning(v, child.kids, false);
      TameNode(child);
      ScopedNode(child);
      if notfree == [] {
        forall j | 0 <= j < |child.kids| ensures Free(v, child.kids[j]) { assert child.kids[j] in child.kids; }
        if child.kids != [] { assert Free(v, child.kids[0]); }
      } else if free != [] {
        InnerScope(v, free);
        ScopedNode(Or(notfree + [All(v, Or(free))]));
        TameNode(Or(notfree + [All(v, Or(free))]));
      }
    }
  }

  lemma {:induction false} InnerScope(v: nat, free: seq<Formula>)
    requires |free| > 0 && forall f | f in free :: Free(v, f) && Scoped(f)
    ensures Scoped(All(v, Or(free)))
  {
    ScopedNode(Or(free));
    assert Free(v, free[0]);
  }

  /** ms_free_vars on All(v, child). */
  method MsFreeVars(v: nat, child: Formula) returns (g: Formula)
    ensures g == Narrow(v, child)
  {
    if !child.Or? { return if Free(v, child) then All(v, child) else child; }
    var kids := child.kids;
    var free, notfree: seq<Formula> := [], [];
    var i := |kids|;
    while i > 0
      invariant 0 <= i <= |kids|
      invariant free == Mentioning(v, kids[i..], true) && notfree == Mentioning(v, kids[i..], false)
    {
      i := i - 1;
      assert kids[i..][1..] == kids[i + 1..];
      if !Free(v, kids[i]) { notfree := [kids[i]] + notfree; } else { free := [kids[i]] + free; }
    }
    assert kids[0..] == kids;
    if notfree == [] { return All(v, child); }
    if free == [] { return child; }
    g := Or(notfree + [All(v, Or(free))]);
  }

  // ---------- One node ----------

  /** bbt on a conjunction. */
  function BbtAnd(kids: seq<Formula>): Formula
    requires |kids| > 0
  {
    if |kids| == 1 then kids[0] else
      var m := (|kids| - 1) / 2 + 1;
      And([BbtAnd(kids[..m]), BbtAnd(kids[m..])])
  }

  lemma {:induction false} BbtAndTruth(kids: seq<Formula>, v: Valuation)
    requires |kids| > 0
    ensures Truth(BbtAnd(kids), v) <==> AllTrue(kids, v)
    decreases |kids|
  {
    if |kids| == 1 {
      assert kids[0] in kids;
    } else {
      var m := (|kids| - 1) / 2 + 1;
      var a, b := kids[..m], kids[m..];
      assert kids == a + b;
      BbtAndTruth(a, v);
      BbtAndTruth(b, v);
      AllTrueConcat(a, b, v);
      var two := [BbtAnd(a), BbtAnd(b)];
      TruthAnd(two, v);
      assert two[0] in two && two[1] in two;
    }
  }

  lemma {:induction false} BbtAndNarrowed(kids: seq<Formula>)
    requires |kids| > 0 && TameKids(kids, true) && forall k | k in kids :: Scoped(k)
    ensures Narrowed(BbtAnd(kids)) && Paired(BbtAnd(kids), true)
    decreases |kids|
  {
    if |kids| > 1 {
      var m := (|kids| - 1) / 2 + 1;
      BbtAndNarrowed(kids[..m]);
      BbtAndNarrowed(kids[m..]);
    }
  }

  lemma {:induction false} FlattenNarrowed(f: Formula)
    requires !f.Leaf() && NarrowedAll(f.kids)
    ensures Narrowed(FlattenTop(f))
  {
    FlattenTame(f);
    ScopedNode(f);
    FlattenLeaves(f);
    ScopedFrom(FlattenTop(f), f);
  }

  lemma {:induction false} AndNarrowed(gs: seq<Formula>)
    requires NarrowedAll(gs)
    ensures Narrowed(AndOf(gs))
  {
    FlattenNarrowed(And(gs));
    SimplifiedTopOk(FlattenTop(And(gs)));
    ScopedFrom(AndOf(gs), FlattenTop(And(gs)));
  }

  /** A conjunction whose arguments are done: flatten and simplify. */
  method AndNode(gs: seq<Formula>) returns (g: Formula)
    requires NarrowedAll(gs)
    ensures g == AndOf(gs) && Equivalent(g, And(gs)) && Narrowed(g)
  {
    AndSame(gs);
    AndNarrowed(gs);
    g := SimplifyTop(FlattenTop(And(gs)));
  }

  lemma {:induction false} TreeNarrowed(hs: seq<Formula>, kids: seq<Formula>)
    requires |hs| > 0 && (forall h | h in hs :: h in kids) && Narrowed(Or(kids))
    ensures Narrowed(Bbt(hs)) && !HasSingleton(Bbt(hs))
  {
    TameNode(Or(kids));
    ScopedNode(Or(kids));
    BbtTame(hs);
    PairedNoSingleton(Bbt(hs));
    ScopedNode(Or(hs));
    forall x | HasLeaf(Bbt(hs), x) ensures HasLeaf(Or(hs), x) {
      BbtLeaves(hs, x);
      KidLeaves(Or(hs), x);
    }
    ScopedFrom(Bbt(hs), Or(hs));
  }

  /** After flattening, distribute meets no disjunction with one argument, which it would misread. */
  lemma {:induction false} OrTree(kids: seq<Formula>)
    requires |kids| > 0 && Narrowed(Or(kids))
    ensures |KeptOr(kids)| > 0 && TreeOf(KeptOr(kids)).Some?
    ensures var g := TreeOf(KeptOr(kids)).value; Narrowed(g) && Equivalent(g, Or(kids))
  {
    var hs := KeptOr(kids);
    KeptNonempty(kids);
    KeptSame(kids);
    TreeNarrowed(hs, kids);
    DistributedOk(Bbt(hs));
    var g := TreeOf(hs).value;
    ScopedFrom(g, Bbt(hs));
    TreeSame(hs);
    forall v: Valuation ensures Truth(g, v) <==> Truth(Or(kids), v) {
      assert Truth(g, v) <==> Truth(Or(hs), v);
      TruthOr(hs, v);
      TruthOr(kids, v);
    }
  }

  lemma {:induction false} BbtAndOk(kids: seq<Formula>)
    requires |kids| > 0 && Narrowed(And(kids))
    ensures Narrowed(BbtAnd(kids)) && Equivalent(BbtAnd(kids), And(kids))
  {
    TameNode(And(kids));
    ScopedNode(And(kids));
    BbtAndNarrowed(kids);
    forall v: Valuation ensures Truth(BbtAnd(kids), v) <==> Truth(And(kids), v) {
      BbtAndTruth(kids, v);
      TruthAnd(kids, v);
    }
  }

  /** A disjunction whose arguments are done: flatten, drop subsumed arguments, balance, distribute.
      Flattening may leave a conjunction, which is only balanced. */
  function OrDone(gs: seq<Formula>): (g: Formula)
    requires NarrowedAll(gs)
    ensures Narrowed(g)
  {
    FlattenNarrowed(Or(gs));
    var f := FlattenTop(Or(gs));
    if f.Or? && |f.kids| > 0 then
      OrTree(f.kids);
      TreeOf(KeptOr(f.kids)).value
    else if f.And? && |f.kids| > 0 then
      BbtAndOk(f.kids);
      BbtAnd(f.kids)
    else f
  }

  lemma {:induction false} OrSame(gs: seq<Formula>)
    requires NarrowedAll(gs)
    ensures Equivalent(OrDone(gs), Or(gs))
  {
    FlattenNarrowed(Or(gs));
    var f := FlattenTop(Or(gs));
    forall v: Valuation ensures Truth(f, v) <==> Truth(Or(gs), v) { FlattenTruth(Or(gs), v); }
    if f.Or? && |f.kids| > 0 {
      OrTree(f.kids);
    } else if f.And? && |f.kids| > 0 {
      BbtAndOk(f.kids);
    }
  }

  method OrNode(gs: seq<Formula>) returns (g: Formula)
    requires NarrowedAll(gs)
    ensures g == OrDone(gs) && Equivalent(g, Or(gs)) && Narrowed(g)
  {
    OrSame(gs);
    FlattenNarrowed(Or(gs));
    var f := FlattenTop(Or(gs));
    if f.Or? && |f.kids| > 0 {
      OrTree(f.kids);
      var hs := ReduceOr(f.kids);
      var r := DistributeOr(hs);
      g := r.value;
    } else if f.And? && |f.kids| > 0 {
      g := BbtAnd(f.kids);
    } else {
      g := f;
    }
  }

  function NarrowAll(v: nat, fs: seq<Formula>): (gs: seq<Formula>)
    ensures |gs| == |fs| && forall i | 0 <= i < |fs| :: gs[i] == Narrow(v, fs[i])
  {
    seq(|fs|, i requires 0 <= i < |fs| => Narrow(v, fs[i]))
  }

  /** A universal quantifier goes to each argument of a conjunction. */
  function PushAll(v: nat, body: Formula): Formula {
    if body.And? then And(NarrowAll(v, body.kids)) else Narrow(v, body)
  }

  lemma {:induction false} PushAllTruth<D(!new)>(v: nat, body: Formula)
    ensures SameTruth<D>(PushAll(v, body), All(v, body))
  {
    if body.And? {
      forall i | 0 <= i < |body.kids| ensures SameTruth<D>(NarrowAll(v, body.kids)[i], All(v, body.kids[i])) {
        NarrowTruth<D>(v, body.kids[i]);
      }
      SplitConjunction<D>(v, body.kids, NarrowAll(v, body.kids));
    } else {
      NarrowTruth<D>(v, body);
    }
  }

  lemma {:induction false} PushAllScoped(v: nat, body: Formula)
    requires Narrowed(body)
    ensures Narrowed(PushAll(v, body))
  {
    if body.And? {
      forall i | 0 <= i < |body.kids|
        ensures Narrowed(NarrowAll(v, body.kids)[i]) && Paired(NarrowAll(v, body.kids)[i], true)
      {
        NarrowScoped(v, body.kids[i]);
      }
    } else {
      NarrowScoped(v, body);
    }
  }

  /** Why Scoped makes the exceptions it makes.  A quantifier over FALSE stays; and a disjunction in
      which one conjunction is left over is balanced but not flat, so that a quantifier above it
      stays on the first two of three conjuncts. */
  lemma {:induction false} LeftOver(v: nat, a: Formula, b: Formula, c: Formula)
    requires Free(v, a) && a.Leaf()
    ensures Narrow(v, FALSE) == All(v, FALSE) && !Free(v, FALSE)
    ensures FlattenTop(Or([FALSE, And([a, b, c])])) == And([a, b, c])
    ensures PushAll(v, BbtAnd([a, b, c])) == And([All(v, And([a, b])), Narrow(v, c)])
  {
    var one, three := And([a, b, c]), [a, b, c];
    assert [FALSE, one][1..] == [one] && [one][1..] == [];
    assert Merge([one], false) == [one] + Merge([], false);
    assert Merge([FALSE, one], false) == [] + Merge([one], false) == [one];
    assert FALSE in [FALSE, one];
    assert three[..2] == [a, b] && three[2..] == [c] && [a, b][..1] == [a] && [a, b][1..] == [b];
    assert BbtAnd([a, b]) == And([a, b]);
    assert BbtAnd(three) == And([And([a, b]), c]);
    var two := And([a, b]);
    assert Free(v, two) by { assert two.kids[0] == a; }
    assert NarrowAll(v, [two, c]) == [All(v, two), Narrow(v, c)];
  }

  /** A universal quantifier whose body is done. */
  method AllNode(v: nat, body: Formula) returns (g: Formula)
    ensures g == PushAll(v, body)
  {
    if !body.And? {
      g := MsFreeVars(v, body);
      return;
    }
    var gs: seq<Formula> := [];
    var i := 0;
    while i < |body.kids|
      invariant 0 <= i <= |body.kids| && |gs| == i
      invariant forall j | 0 <= j < i :: gs[j] == Narrow(v, body.kids[j])
    {
      var h := MsFreeVars(v, body.kids[i]);
      gs := gs + [h];
      i := i + 1;
    }
    assert gs == NarrowAll(v, body.kids);
    g := And(gs);
  }

  lemma {:induction false} SameTrans<D(!new)>(f: Formula, g: Formula, h: Formula)
    requires SameTruth<D>(f, g) && SameTruth<D>(g, h)
    ensures SameTruth<D>(f, h)
  {
    forall m: Structure<D>, e: Env<D> ensures Holds(f, m, e) <==> Holds(h, m, e) {
      assert Holds(f, m, e) <==> Holds(g, m, e);
    }
  }

  /** Arguments that say the same make nodes that say the same. */
  lemma {:induction false} SameNodes<D(!new)>(gs: seq<Formula>, fs: seq<Formula>)
    requires |gs| == |fs| && forall i | 0 <= i < |fs| :: SameTruth<D>(gs[i], fs[i])
    ensures SameTruth<D>(And(gs), And(fs)) && SameTruth<D>(Or(gs), Or(fs))
  {
    forall m: Structure<D>, e: Env<D>
      ensures (Holds(And(gs), m, e) <==> Holds(And(fs), m, e)) && (Holds(Or(gs), m, e) <==> Holds(Or(fs), m, e))
    {
      forall i | 0 <= i < |fs| ensures Holds(gs[i], m, e) <==> Holds(fs[i], m, e) { assert SameTruth<D>(gs[i], fs[i]); }
    }
  }

  lemma {:induction false} SameUnderAll<D(!new)>(v: nat, g: Formula, f: Formula)
    requires SameTruth<D>(g, f)
    ensures SameTruth<D>(All(v, g), All(v, f))
  {
    forall m: Structure<D>, e: Env<D> ensures Holds(All(v, g), m, e) <==> Holds(All(v, f), m, e) {
      forall d: D ensures HoldsAt(g, m, e, v, d) <==> HoldsAt(f, m, e, v, d) {}
      SameBodies(All(v, f), g, f, m, e, e);
    }
  }

  // ---------- miniscope ----------

  function Arguments(node: Formula): seq<Formula> {
    if node.All? then [node.body] else if node.Leaf() then [] else node.kids
  }

  /** The result for a node from the results for its arguments. */
  function NodeDone(node: Formula, gs: seq<Formula>): (g: Formula)
    requires |gs| == |Arguments(node)| > 0 && NarrowedAll(gs)
    ensures Narrowed(g)
  {
    if node.All? then
      PushAllScoped(node.v, gs[0]);
      PushAll(node.v, gs[0])
    else if node.And? then
      AndNarrowed(gs);
      AndOf(gs)
    else OrDone(gs)
  }

  lemma {:induction false} ArgumentsHeight(f: Formula)
    requires |Arguments(f)| > 0
    ensures HeightAll(Arguments(f)) < Height(f)
  {
    if f.All? { assert [f.body][1..] == [] && HeightAll([f.body][1..]) == 0; }
  }

  /** Narrow scopes from the inside out; an existential quantifier through its dual. */
  function MsOf(f: Formula): (g: Formula)
    ensures Narrowed(g)
    decreases Height(f), if f.Exists? then 1 else 0
  {
    if f.Exists? then
      DualHeight(f);
      DualNarrowed(MsOf(Dual(f)));
      Dual(MsOf(Dual(f)))
    else if Arguments(f) == [] then f
    else
      ArgumentsHeight(f);
      NodeDone(f, MsAll(Arguments(f)))
  }

  function MsAll(fs: seq<Formula>): (gs: seq<Formula>)
    ensures |gs| == |fs| && NarrowedAll(gs)
    decreases HeightAll(fs), 2
  {
    if |fs| == 0 then [] else [MsOf(fs[0])] + MsAll(fs[1..])
  }

  lemma {:induction false} NodeSameTruth<D(!new)>(node: Formula, gs: seq<Formula>)
    requires |gs| == |Arguments(node)| > 0 && NarrowedAll(gs)
    requires forall i | 0 <= i < |gs| :: SameTruth<D>(gs[i], Arguments(node)[i])
    ensures SameTruth<D>(NodeDone(node, gs), node)
  {
    var g := NodeDone(node, gs);
    if node.All? {
      PushAllTruth<D>(node.v, gs[0]);
      SameUnderAll<D>(node.v, gs[0], node.body);
      SameTrans<D>(g, All(node.v, gs[0]), node);
      return;
    }
    SameNodes<D>(gs, node.kids);
    if node.And? {
      AndSame(gs);
      EquivalentSame<D>(g, And(gs));
      SameTrans<D>(g, And(gs), node);
    } else {
      OrSame(gs);
      EquivalentSame<D>(g, Or(gs));
      SameTrans<D>(g, Or(gs), node);
    }
  }

  /** Miniscoping preserves truth in every structure, over every domain. */
  lemma {:induction false} MiniscopeSame<D(!new)>(f: Formula)
    ensures SameTruth<D>(MsOf(f), f)
    decreases Height(f), if f.Exists? then 1 else 0
  {
    if f.Exists? {
      DualHeight(f);
      DualTwice(f);
      MiniscopeSame<D>(Dual(f));
      DualSame<D>(MsOf(Dual(f)), Dual(f));
    } else if Arguments(f) != [] {
      ArgumentsHeight(f);
      MiniscopeSameAll<D>(Arguments(f));
      NodeSameTruth<D>(f, MsAll(Arguments(f)));
    }
  }

  lemma {:induction false} MiniscopeSameAll<D(!new)>(fs: seq<Formula>)
    ensures forall i | 0 <= i < |fs| :: SameTruth<D>(MsAll(fs)[i], fs[i])
    decreases HeightAll(fs), 2
  {
    if |fs| > 0 {
      MiniscopeSame<D>(fs[0]);
      MiniscopeSameAll<D>(fs[1..]);
      forall i | 0 <= i < |fs| ensures SameTruth<D>(MsAll(fs)[i], fs[i]) {
        if i > 0 { assert fs[1..][i - 1] == fs[i]; }
      }
    }
  }

  /** A node all of whose arguments are done. */
  method FinishNode(node: Formula, gs: seq<Formula>) returns (g: Formula)
    requires |gs| == |Arguments(node)| > 0 && NarrowedAll(gs)
    ensures g == NodeDone(node, gs)
  {
    if node.All? {
      g := AllNode(node.v, gs[0]);
    } else if node.And? {
      g := AndNode(gs);
    } else {
      g := OrNode(gs);
    }
  }

  /** Nodes under way with the results of their arguments, and marks for results to be dualized. */
  datatype MsStack = MsBottom | MsDual(below: MsStack) | MsFrame(node: Formula, done: seq<Formula>, below: MsStack)

  ghost predicate Ready(s: MsStack) {
    match s
    case MsBottom => true
    case MsDual(below) => Ready(below)
    case MsFrame(node, done, below) => |done| < |Arguments(node)| && NarrowedAll(done) && Ready(below)
  }

  /** The result for a node whose argument under way has result g. */
  ghost function NodeFrom(node: Formula, done: seq<Formula>, g: Formula): (h: Formula)
    requires |done| < |Arguments(node)| && NarrowedAll(done) && Narrowed(g)
    ensures Narrowed(h)
  {
    NodeDone(node, done + [g] + MsAll(Arguments(node)[|done| + 1..]))
  }

  /** The result for the whole when the formula under way has result g. */
  ghost function WholeOf(s: MsStack, g: Formula): Formula
    requires Ready(s) && Narrowed(g)
    decreases s
  {
    match s
    case MsBottom => g
    case MsDual(below) =>
      DualNarrowed(g);
      WholeOf(below, Dual(g))
    case MsFrame(node, done, below) => WholeOf(below, NodeFrom(node, done, g))
  }

  ghost function MsAhead(s: MsStack): nat {
    match s
    case MsBottom => 0
    case MsDual(below) => MsAhead(below)
    case MsFrame(node, done, below) =>
      (if |done| < |Arguments(node)| then HeightAll(Arguments(node)[|done| + 1..]) else 0) + MsAhead(below)
  }

  lemma {:induction false} MsEnterDual(cur: Formula, s: MsStack)
    requires cur.Exists? && Ready(s)
    ensures WholeOf(MsDual(s), MsOf(Dual(cur))) == WholeOf(s, MsOf(cur))
    ensures Dual(cur).All? && Height(Dual(cur)) == Height(cur)
  {
    DualHeight(cur);
  }

  lemma {:induction false} MsEnter(cur: Formula, s: MsStack)
    requires |Arguments(cur)| > 0 && Ready(s)
    ensures Ready(MsFrame(cur, [], s)) && WholeOf(MsFrame(cur, [], s), MsOf(Arguments(cur)[0])) == WholeOf(s, MsOf(cur))
    ensures Height(Arguments(cur)[0]) + MsAhead(MsFrame(cur, [], s)) < Height(cur) + MsAhead(s)
  {
    var none: seq<Formula>, fs := [], Arguments(cur);
    ArgumentsHeight(cur);
    assert fs[|none| + 1..] == fs[1..];
    assert none + [MsOf(fs[0])] + MsAll(fs[1..]) == MsAll(fs);
  }

  lemma {:induction false} AllAhead(fs: seq<Formula>, n: nat, done: seq<Formula>)
    requires n < |fs|
    ensures done + MsAll(fs[n..]) == done + [MsOf(fs[n])] + MsAll(fs[n + 1..])
    ensures HeightAll(fs[n..]) == Height(fs[n]) + HeightAll(fs[n + 1..])
  {
    assert fs[n..][0] == fs[n] && fs[n..][1..] == fs[n + 1..];
    var h, rest := MsOf(fs[n]), MsAll(fs[n + 1..]);
    assert MsAll(fs[n..]) == [h] + rest;
    assert done + ([h] + rest) == done + [h] + rest;
  }

  /** One argument more is done: the next one, or the node. */
  lemma {:induction false} MsNext(s: MsStack, g: Formula)
    requires s.MsFrame? && Ready(s) && Narrowed(g)
    ensures var n, done, fs := |s.done| + 1, s.done + [g], Arguments(s.node);
            && NarrowedAll(done)
            && if n == |fs| then NodeFrom(s.node, s.done, g) == NodeDone(s.node, done) && MsAhead(s) == MsAhead(s.below)
               else NodeFrom(s.node, s.done, g) == NodeFrom(s.node, done, MsOf(fs[n])) &&
                    Height(fs[n]) + MsAhead(MsFrame(s.node, done, s.below)) == MsAhead(s)
  {
    var fs, n, done := Arguments(s.node), |s.done| + 1, s.done + [g];
    if n == |fs| {
      assert fs[n..] == [] && done + [] == done;
    } else {
      AllAhead(fs, n, done);
    }
  }

  lemma {:induction false} MsMore(s: MsStack, g: Formula)
    requires s.MsFrame? && Ready(s) && Narrowed(g) && |s.done| + 1 < |Arguments(s.node)|
    ensures var n, t := |s.done| + 1, MsFrame(s.node, s.done + [g], s.below);
            Ready(t) && WholeOf(t, MsOf(Arguments(s.node)[n])) == WholeOf(s, g) &&
            Height(Arguments(s.node)[n]) + MsAhead(t) == MsAhead(s)
  {
    MsNext(s, g);
  }

  /** Finish all nodes whose last argument has just been done, and dualize where that is due. */
  method Unwind(stack: MsStack, result: Formula) returns (s: MsStack, g: Formula)
    requires Ready(stack) && Narrowed(result)
    ensures Ready(s) && Narrowed(g) && WholeOf(s, g) == WholeOf(stack, result) && MsAhead(s) == MsAhead(stack)
    ensures !s.MsDual? && (s.MsFrame? ==> |s.done| + 1 < |Arguments(s.node)|)
  {
    s, g := stack, result;
    while s.MsDual? || (s.MsFrame? && |s.done| + 1 == |Arguments(s.node)|)
      invariant Ready(s) && Narrowed(g) && WholeOf(s, g) == WholeOf(stack, result) && MsAhead(s) == MsAhead(stack)
      decreases s
    {
      if s.MsDual? {
        DualNarrowed(g);
        s, g := s.below, Dual(g);
      } else {
        MsNext(s, g);
        g := FinishNode(s.node, s.done + [g]);
        s := s.below;
      }
    }
  }

  /** miniscope: the result has narrow scopes; by MiniscopeSame it is as true as the formula. */
  method Miniscope(f: Formula) returns (r: Formula)
    ensures r == MsOf(f) && Narrowed(r)
  {
    var stack, cur := MsBottom, f;
    while true
      invariant Ready(stack) && WholeOf(stack, MsOf(cur)) == MsOf(f)
      decreases Height(cur) + MsAhead(stack), cur.Exists?
    {
      if cur.Exists? {
        MsEnterDual(cur, stack);
        stack, cur := MsDual(stack), Dual(cur);
      } else if |Arguments(cur)| > 0 {
        MsEnter(cur, stack);
        stack, cur := MsFrame(cur, [], stack), Arguments(cur)[0];
      } else {
        var result;
        stack, result := Unwind(stack, cur);
        if stack.MsBottom? { return result; }
        MsMore(stack, result);
        stack := MsFrame(stack.node, stack.done + [result], stack.below);
        cur := Arguments(stack.node)[|stack.done|];
      }
    }
  }
}

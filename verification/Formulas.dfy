/** Formulas in negation normal form, their truth as propositional combinations of leaves, and the
    formula operations that clausification uses (ladr/formula.h, ladr/formula.c). */
module Formulas {
  import opened Terms

  /** Conjunctions and disjunctions have any number of arguments.  Variables bound by quantifiers
      are names, written Var(n) in terms. */
  datatype Formula =
    | Atom(sym: nat, args: seq<Term>)
    | Not(arg: Formula)
    | And(kids: seq<Formula>)
    | Or(kids: seq<Formula>)
    | All(v: nat, body: Formula)
    | Exists(v: nat, body: Formula)
  {
    /** What clausification treats as atomic. */
    predicate Leaf() {
      !And? && !Or?
    }
  }

  const TRUE := And([])
  const FALSE := Or([])

  type Valuation = Formula -> bool

  /** Truth when atoms and quantified formulas have the given values. */
  ghost predicate Truth(f: Formula, v: Valuation) {
    match f
    case Not(g) => !Truth(g, v)
    case And(kids) => forall i | 0 <= i < |kids| :: Truth(kids[i], v)
    case Or(kids) => exists i :: 0 <= i < |kids| && Truth(kids[i], v)
    case _ => v(f)
  }

  ghost predicate AllTrue(fs: seq<Formula>, v: Valuation) {
    forall f | f in fs :: Truth(f, v)
  }

  ghost predicate SomeTrue(fs: seq<Formula>, v: Valuation) {
    exists f :: f in fs && Truth(f, v)
  }

  lemma {:induction false} TruthAnd(fs: seq<Formula>, v: Valuation)
    ensures Truth(And(fs), v) <==> AllTrue(fs, v)
  {
    if Truth(And(fs), v) {
      forall f | f in fs ensures Truth(f, v) {
        var i :| 0 <= i < |fs| && fs[i] == f;
      }
    }
  }

  lemma {:induction false} TruthOr(fs: seq<Formula>, v: Valuation)
    ensures Truth(Or(fs), v) <==> SomeTrue(fs, v)
  {
    if Truth(Or(fs), v) {
      var i :| 0 <= i < |fs| && Truth(fs[i], v);
      assert fs[i] in fs;
    }
    if SomeTrue(fs, v) {
      var f :| f in fs && Truth(f, v);
      var i :| 0 <= i < |fs| && fs[i] == f;
    }
  }

  ghost predicate Equivalent(f: Formula, g: Formula) {
    forall v: Valuation :: Truth(f, v) <==> Truth(g, v)
  }

  // ---------- Leaves ----------

  /** x is a leaf of the tree of conjunctions and disjunctions at the top of f. */
  ghost predicate HasLeaf(f: Formula, x: Formula) {
    if f.Leaf() then f == x else exists i :: 0 <= i < |f.kids| && HasLeaf(f.kids[i], x)
  }

  ghost predicate SomeLeaf(fs: seq<Formula>, x: Formula) {
    exists f :: f in fs && HasLeaf(f, x)
  }

  lemma {:induction false} KidLeaves(f: Formula, x: Formula)
    requires !f.Leaf()
    ensures HasLeaf(f, x) <==> SomeLeaf(f.kids, x)
  {
    if HasLeaf(f, x) {
      var i :| 0 <= i < |f.kids| && HasLeaf(f.kids[i], x);
      assert f.kids[i] in f.kids;
    }
    if SomeLeaf(f.kids, x) {
      var k :| k in f.kids && HasLeaf(k, x);
      var i :| 0 <= i < |f.kids| && f.kids[i] == k;
    }
  }

  /** No leaves but those of f. */
  ghost predicate LeavesIn(g: Formula, f: Formula) {
    forall x :: HasLeaf(g, x) ==> HasLeaf(f, x)
  }

  ghost predicate QuantifierFree(f: Formula) {
    match f
    case Atom(_, _) => true
    case Not(g) => QuantifierFree(g)
    case And(kids) => forall i | 0 <= i < |kids| :: QuantifierFree(kids[i])
    case Or(kids) => forall i | 0 <= i < |kids| :: QuantifierFree(kids[i])
    case All(_, _) => false
    case Exists(_, _) => false
  }

  // ---------- dual ----------

  /** Exchange conjunction with disjunction and universal with existential quantifiers. */
  function Dual(f: Formula): (g: Formula)
    ensures f.Leaf() <==> g.Leaf()
  {
    match f
    case Atom(_, _) => f
    case Not(g) => Not(Dual(g))
    case And(kids) => Or(seq(|kids|, i requires 0 <= i < |kids| => Dual(kids[i])))
    case Or(kids) => And(seq(|kids|, i requires 0 <= i < |kids| => Dual(kids[i])))
    case All(v, b) => Exists(v, Dual(b))
    case Exists(v, b) => All(v, Dual(b))
  }

  function DualAll(fs: seq<Formula>): (gs: seq<Formula>)
    ensures |gs| == |fs| && forall i | 0 <= i < |fs| :: gs[i] == Dual(fs[i])
    ensures Dual(And(fs)) == Or(gs) && Dual(Or(fs)) == And(gs)
  {
    seq(|fs|, i requires 0 <= i < |fs| => Dual(fs[i]))
  }

  lemma {:induction false} DualTwice(f: Formula)
    ensures Dual(Dual(f)) == f
  {
    match f
    case Atom(_, _) =>
    case Not(g) => DualTwice(g);
    case And(kids) => DualAllTwice(kids);
    case Or(kids) => DualAllTwice(kids);
    case All(_, b) => DualTwice(b);
    case Exists(_, b) => DualTwice(b);
  }

  lemma {:induction false} DualAllTwice(fs: seq<Formula>)
    ensures DualAll(DualAll(fs)) == fs
  {
    forall i | 0 <= i < |fs| ensures Dual(Dual(fs[i])) == fs[i] { DualTwice(fs[i]); }
  }

  ghost function Flip(v: Valuation): Valuation {
    g => !v(Dual(g))
  }

  /** The dual is false exactly where the formula is true with every leaf flipped. */
  lemma {:induction false} DualTruth(f: Formula, v: Valuation)
    ensures Truth(Dual(f), Flip(v)) <==> !Truth(f, v)
  {
    match f
    case Atom(_, _) =>
    case Not(g) => DualTruth(g, v);
    case And(kids) => DualTruths(kids, v);
    case Or(kids) => DualTruths(kids, v);
    case All(_, b) => DualTwice(f);
    case Exists(_, b) => DualTwice(f);
  }

  lemma {:induction false} DualTruths(fs: seq<Formula>, v: Valuation)
    ensures forall i | 0 <= i < |fs| :: Truth(DualAll(fs)[i], Flip(v)) <==> !Truth(fs[i], v)
  {
    forall i | 0 <= i < |fs| ensures Truth(DualAll(fs)[i], Flip(v)) <==> !Truth(fs[i], v) { DualTruth(fs[i], v); }
  }
}

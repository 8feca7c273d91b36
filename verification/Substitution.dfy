/** Substitution for free names in formulas (subst_free_var, ladr/formula.c:1898-1925), and
    structures that differ in fresh function symbols. */
module Substitution {
  import opened Terms
  import opened Formulas
  import opened Structures

  function SubstAll(fs: seq<Formula>, n: nat, t: Term): (gs: seq<Formula>)
    ensures |gs| == |fs| && forall i | 0 <= i < |fs| :: gs[i] == SubstFree(fs[i], n, t)
    decreases fs, 0
  {
    seq(|fs|, i requires 0 <= i < |fs| => SubstFree(fs[i], n, t))
  }

  /** Replace free occurrences of the name n; a quantifier that binds n stops it. */
  function SubstFree(f: Formula, n: nat, t: Term): Formula
    decreases f, 1
  {
    match f
    case Atom(p, args) => Atom(p, ApplyAll(args, map[n := t]))
    case Not(g) => Not(SubstFree(g, n, t))
    case And(kids) => And(SubstAll(kids, n, t))
    case Or(kids) => Or(SubstAll(kids, n, t))
    case All(v, b) => if v == n then f else All(v, SubstFree(b, n, t))
    case Exists(v, b) => if v == n then f else Exists(v, SubstFree(b, n, t))
  }

  /** Number of nodes; substitution in atoms leaves it alone. */
  ghost function Height(f: Formula): (h: nat)
    ensures h > 0
    decreases f, 1
  {
    match f
    case Atom(_, _) => 1
    case Not(g) => 1 + Height(g)
    case And(kids) => 1 + HeightAll(kids)
    case Or(kids) => 1 + HeightAll(kids)
    case All(_, b) => 1 + Height(b)
    case Exists(_, b) => 1 + Height(b)
  }

  ghost function HeightAll(fs: seq<Formula>): nat
    decreases fs, 0
  {
    if |fs| == 0 then 0 else Height(fs[0]) + HeightAll(fs[1..])
  }

  lemma {:induction false} SubstHeight(f: Formula, n: nat, t: Term)
    ensures Height(SubstFree(f, n, t)) == Height(f)
    decreases f, 1
  {
    match f
    case Atom(_, _) =>
    case Not(g) => SubstHeight(g, n, t);
    case And(kids) => SubstHeights(kids, n, t);
    case Or(kids) => SubstHeights(kids, n, t);
    case All(v, b) => SubstHeight(b, n, t);
    case Exists(v, b) => SubstHeight(b, n, t);
  }

  lemma {:induction false} SubstHeights(fs: seq<Formula>, n: nat, t: Term)
    ensures HeightAll(SubstAll(fs, n, t)) == HeightAll(fs)
    decreases fs, 0
  {
    if |fs| > 0 {
      SubstHeight(fs[0], n, t);
      SubstHeights(fs[1..], n, t);
      assert SubstAll(fs, n, t)[1..] == SubstAll(fs[1..], n, t);
    }
  }

  /** Some quantifier in f binds n. */
  ghost predicate Binds(f: Formula, n: nat) {
    match f
    case Atom(_, _) => false
    case Not(g) => Binds(g, n)
    case And(kids) => exists i :: 0 <= i < |kids| && Binds(kids[i], n)
    case Or(kids) => exists i :: 0 <= i < |kids| && Binds(kids[i], n)
    case All(v, b) => v == n || Binds(b, n)
    case Exists(v, b) => v == n || Binds(b, n)
  }

  lemma {:induction false} SubstBinds(f: Formula, n: nat, t: Term, k: nat)
    ensures Binds(SubstFree(f, n, t), k) <==> Binds(f, k)
  {
    match f
    case Atom(_, _) =>
    case Not(g) => SubstBinds(g, n, t, k);
    case And(kids) =>
      forall i | 0 <= i < |kids| ensures Binds(SubstFree(kids[i], n, t), k) <==> Binds(kids[i], k) {
        SubstBinds(kids[i], n, t, k);
      }
    case Or(kids) =>
      forall i | 0 <= i < |kids| ensures Binds(SubstFree(kids[i], n, t), k) <==> Binds(kids[i], k) {
        SubstBinds(kids[i], n, t, k);
      }
    case All(v, b) => SubstBinds(b, n, t, k);
    case Exists(v, b) => SubstBinds(b, n, t, k);
  }

  /** No variable of t is bound in f. */
  ghost predicate NoCapture(f: Formula, t: Term) {
    forall k | k in Vars(t) :: !Binds(f, k)
  }

  lemma {:induction false} SubstValue<D>(s: Term, n: nat, t: Term, m: Structure<D>, e: Env<D>)
    ensures Value(Apply(s, map[n := t]), m, e) == Value(s, m, e[n := Value(t, m, e)])
    decreases s, 1
  {
    if s.App? { SubstValues(s.args, n, t, m, e); }
  }

  lemma {:induction false} SubstValues<D>(ts: seq<Term>, n: nat, t: Term, m: Structure<D>, e: Env<D>)
    ensures Values(ApplyAll(ts, map[n := t]), m, e) == Values(ts, m, e[n := Value(t, m, e)])
    decreases ts, 0
  {
    ApplyAllAt(ts, map[n := t]);
    forall i | 0 <= i < |ts| ensures Value(Apply(ts[i], map[n := t]), m, e) == Value(ts[i], m, e[n := Value(t, m, e)]) {
      SubstValue(ts[i], n, t, m, e);
    }
  }

  /** Substituting a term is assigning its value, when nothing is captured. */
  lemma {:induction false} SubstHolds<D(!new)>(f: Formula, n: nat, t: Term, m: Structure<D>, e: Env<D>)
    requires NoCapture(f, t)
    ensures Holds(SubstFree(f, n, t), m, e) <==> Holds(f, m, e[n := Value(t, m, e)])
    decreases f, 1
  {
    var d := Value(t, m, e);
    match f
    case Atom(_, args) => SubstValues(args, n, t, m, e);
    case Not(g) => SubstHolds(g, n, t, m, e);
    case And(kids) =>
      forall i | 0 <= i < |kids| ensures Holds(SubstFree(kids[i], n, t), m, e) <==> Holds(kids[i], m, e[n := d]) {
        SubstKid(f, i, t);
        SubstHolds(kids[i], n, t, m, e);
      }
    case Or(kids) =>
      forall i | 0 <= i < |kids| ensures Holds(SubstFree(kids[i], n, t), m, e) <==> Holds(kids[i], m, e[n := d]) {
        SubstKid(f, i, t);
        SubstHolds(kids[i], n, t, m, e);
      }
    case All(v, b) => SubstBody(f, n, t, m, e);
    case Exists(v, b) => SubstBody(f, n, t, m, e);
  }

  lemma {:induction false} SubstKid(f: Formula, i: nat, t: Term)
    requires NoCapture(f, t) && !f.Leaf() && i < |f.kids|
    ensures NoCapture(f.kids[i], t)
  {
  }

  lemma {:induction false} SubstBody<D(!new)>(f: Formula, n: nat, t: Term, m: Structure<D>, e: Env<D>)
    requires (f.All? || f.Exists?) && NoCapture(f, t)
    ensures Holds(SubstFree(f, n, t), m, e) <==> Holds(f, m, e[n := Value(t, m, e)])
    decreases f, 0
  {
    var d, v, b := Value(t, m, e), f.v, f.body;
    if v == n {
      HoldsAgree(f, m, e, e[n := d]);
    } else {
      var c := SubstFree(b, n, t);
      forall x: D ensures HoldsAt(c, m, e, v, x) <==> HoldsAt(b, m, e[n := d], v, x) {
        assert v !in Vars(t) by { assert Binds(f, v); }
        ValueAgree(t, m, e, e[v := x]);
        SubstHolds(b, n, t, m, e[v := x]);
        assert e[v := x][n := d] == e[n := d][v := x];
      }
      SameBodies(f, c, b, m, e, e[n := d]);
    }
  }

  /** Quantified formulas agree when their bodies do. */
  lemma {:induction false} SameBodies<D(!new)>(f: Formula, c: Formula, b: Formula, m: Structure<D>, e: Env<D>,
      e2: Env<D>)
    requires (f.All? || f.Exists?) && f.body == b
    requires forall x: D :: HoldsAt(c, m, e, f.v, x) <==> HoldsAt(b, m, e2, f.v, x)
    ensures Holds(if f.All? then All(f.v, c) else Exists(f.v, c), m, e) <==> Holds(f, m, e2)
  {
    match f
    case All(v, _) =>
      if Holds(f, m, e2) { forall x: D ensures HoldsAt(c, m, e, v, x) { assert HoldsAt(b, m, e2, v, x); } }
      if Holds(All(v, c), m, e) { forall x: D ensures HoldsAt(b, m, e2, v, x) { assert HoldsAt(c, m, e, v, x); } }
    case Exists(v, _) =>
      if !Holds(f, m, e2) { forall x: D ensures !HoldsAt(c, m, e, v, x) { assert !HoldsAt(b, m, e2, v, x); } }
      if !Holds(Exists(v, c), m, e) { forall x: D ensures !HoldsAt(b, m, e2, v, x) { assert !HoldsAt(c, m, e, v, x); } }
  }

  // ---------- Names ----------

  /** The names x0, x1, ... in order (gen_new_symbol, ladr/symbols.c:2834-2854). */
  type Generator = nat -> nat

  ghost predicate Injective(gen: Generator) {
    forall i: nat, j: nat | i != j :: gen(i) != gen(j)
  }

  /** gen_new_symbol: the first generated name that is not in the list. */
  function Fresh(i: nat, used: set<nat>, gen: Generator): nat
    decreases |used|
  {
    if gen(i) !in used then gen(i) else Fresh(i + 1, used - {gen(i)}, gen)
  }

  lemma {:induction false} FreshIsNew(i: nat, used: set<nat>, gen: Generator) returns (j: nat)
    requires Injective(gen)
    ensures i <= j <= i + |used| && Fresh(i, used, gen) == gen(j) && gen(j) !in used
    decreases |used|
  {
    if gen(i) !in used {
      j := i;
    } else {
      j := FreshIsNew(i + 1, used - {gen(i)}, gen);
    }
  }

  /** The name occurs in f, free or bound. */
  ghost predicate Mentions(f: Formula, n: nat) {
    match f
    case Atom(_, args) => n in VarsAll(args)
    case Not(g) => Mentions(g, n)
    case And(kids) => exists i :: 0 <= i < |kids| && Mentions(kids[i], n)
    case Or(kids) => exists i :: 0 <= i < |kids| && Mentions(kids[i], n)
    case All(v, b) => v == n || Mentions(b, n)
    case Exists(v, b) => v == n || Mentions(b, n)
  }

  lemma {:induction false} NotMentioned(f: Formula, n: nat)
    requires !Mentions(f, n)
    ensures !Free(n, f) && !Binds(f, n)
  {
    match f
    case Atom(_, _) =>
    case Not(g) => NotMentioned(g, n);
    case And(kids) =>
      forall i | 0 <= i < |kids| ensures !Free(n, kids[i]) && !Binds(kids[i], n) {
        NotMentioned(kids[i], n);
      }
    case Or(kids) =>
      forall i | 0 <= i < |kids| ensures !Free(n, kids[i]) && !Binds(kids[i], n) {
        NotMentioned(kids[i], n);
      }
    case All(v, b) => NotMentioned(b, n);
    case Exists(v, b) => NotMentioned(b, n);
  }

  lemma {:induction false} SubstVars(ts: seq<Term>, v: nat, t: Term, k: nat)
    requires k in VarsAll(ApplyAll(ts, map[v := t]))
    ensures k in Vars(t) || k in VarsAll(ts)
    decreases ts, 0
  {
    if k in VarsAll(ApplyAll(ts[1..], map[v := t])) { SubstVars(ts[1..], v, t, k); } else { SubstVar(ts[0], v, t, k); }
  }

  lemma {:induction false} SubstVar(s: Term, v: nat, t: Term, k: nat)
    requires k in Vars(Apply(s, map[v := t]))
    ensures k in Vars(t) || k in Vars(s)
    decreases s, 1
  {
    if s.App? { SubstVars(s.args, v, t, k); }
  }

  lemma {:induction false} SubstMentions(f: Formula, v: nat, t: Term, k: nat)
    requires Mentions(SubstFree(f, v, t), k)
    ensures k in Vars(t) || Mentions(f, k)
  {
    match f
    case Atom(_, args) => SubstVars(args, v, t, k);
    case Not(g) => SubstMentions(g, v, t, k);
    case And(kids) =>
      var i :| 0 <= i < |kids| && Mentions(SubstAll(kids, v, t)[i], k);
      SubstMentions(kids[i], v, t, k);
    case Or(kids) =>
      var i :| 0 <= i < |kids| && Mentions(SubstAll(kids, v, t)[i], k);
      SubstMentions(kids[i], v, t, k);
    case All(w, b) => if w != v && w != k { SubstMentions(b, v, t, k); }
    case Exists(w, b) => if w != v && w != k { SubstMentions(b, v, t, k); }
  }

  /** Renaming a bound variable to a name that does not occur. */
  lemma {:induction false} RenameHolds<D(!new)>(b: Formula, v: nat, n: nat, m: Structure<D>, e: Env<D>, d: D)
    requires !Mentions(b, n)
    ensures HoldsAt(SubstFree(b, v, Var(n)), m, e, n, d) <==> HoldsAt(b, m, e, v, d)
  {
    NotMentioned(b, n);
    SubstHolds(b, v, Var(n), m, e[n := d]);
    forall k: nat | Free(k, b) ensures Get(k, m, e[n := d][v := d]) == Get(k, m, e[v := d]) {}
    HoldsAgree(b, m, e[n := d][v := d], e[v := d]);
  }

  lemma {:induction false} Bodies<D(!new)>(b: Formula, v: nat, h: Formula, n: nat, m: Structure<D>, e: Env<D>)
    requires forall d: D :: HoldsAt(h, m, e, n, d) <==> HoldsAt(b, m, e, v, d)
    ensures Holds(All(n, h), m, e) <==> Holds(All(v, b), m, e)
    ensures Holds(Exists(n, h), m, e) <==> Holds(Exists(v, b), m, e)
  {
    if Holds(All(n, h), m, e) { forall d: D ensures HoldsAt(b, m, e, v, d) { assert HoldsAt(h, m, e, n, d); } }
    if Holds(All(v, b), m, e) { forall d: D ensures HoldsAt(h, m, e, n, d) { assert HoldsAt(b, m, e, v, d); } }
    if !Holds(Exists(n, h), m, e) { forall d: D ensures !HoldsAt(b, m, e, v, d) { assert !HoldsAt(h, m, e, n, d); } }
    if !Holds(Exists(v, b), m, e) { forall d: D ensures !HoldsAt(h, m, e, n, d) { assert !HoldsAt(b, m, e, v, d); } }
  }

  // ---------- Fresh function symbols ----------

  ghost predicate TermBelow(t: Term, k: nat)
    decreases t, 1
  {
    match t
    case Var(n) => n < k
    case App(g, args) => g < k && TermsBelow(args, k)
  }

  ghost predicate TermsBelow(ts: seq<Term>, k: nat)
    decreases ts, 0
  {
    forall i | 0 <= i < |ts| :: TermBelow(ts[i], k)
  }

  /** All names and function symbols of f are below k. */
  ghost predicate FunsBelow(f: Formula, k: nat) {
    match f
    case Atom(_, args) => TermsBelow(args, k)
    case Not(g) => FunsBelow(g, k)
    case And(kids) => forall i | 0 <= i < |kids| :: FunsBelow(kids[i], k)
    case Or(kids) => forall i | 0 <= i < |kids| :: FunsBelow(kids[i], k)
    case All(v, b) => v < k && FunsBelow(b, k)
    case Exists(v, b) => v < k && FunsBelow(b, k)
  }

  /** The same structure but for function symbols from k on. */
  ghost predicate SameFunsBelow<D(!new)>(m: Structure<D>, m2: Structure<D>, k: nat) {
    m.rel == m2.rel && forall g: nat, ds: seq<D> | g < k :: m.fun(g, ds) == m2.fun(g, ds)
  }

  lemma {:induction false} ValueSameBelow<D(!new)>(t: Term, k: nat, m: Structure<D>, m2: Structure<D>, e: Env<D>)
    requires TermBelow(t, k) && SameFunsBelow(m, m2, k)
    ensures Value(t, m, e) == Value(t, m2, e)
    decreases t, 1
  {
    if t.App? { ValuesSameBelow(t.args, k, m, m2, e); }
  }

  lemma {:induction false} ValuesSameBelow<D(!new)>(ts: seq<Term>, k: nat, m: Structure<D>, m2: Structure<D>, e: Env<D>)
    requires TermsBelow(ts, k) && SameFunsBelow(m, m2, k)
    ensures Values(ts, m, e) == Values(ts, m2, e)
    decreases ts, 0
  {
    forall i | 0 <= i < |ts| ensures Value(ts[i], m, e) == Value(ts[i], m2, e) { ValueSameBelow(ts[i], k, m, m2, e); }
  }

  /** Truth depends only on the function symbols and names that occur. */
  lemma {:induction false} HoldsSameFuns<D(!new)>(f: Formula, k: nat, m: Structure<D>, m2: Structure<D>, e: Env<D>)
    requires FunsBelow(f, k) && SameFunsBelow(m, m2, k)
    ensures Holds(f, m, e) <==> Holds(f, m2, e)
  {
    match f
    case Atom(_, args) => ValuesSameBelow(args, k, m, m2, e);
    case Not(g) => HoldsSameFuns(g, k, m, m2, e);
    case And(kids) =>
      forall i | 0 <= i < |kids| ensures Holds(kids[i], m, e) <==> Holds(kids[i], m2, e) {
        HoldsSameFuns(kids[i], k, m, m2, e);
      }
    case Or(kids) =>
      forall i | 0 <= i < |kids| ensures Holds(kids[i], m, e) <==> Holds(kids[i], m2, e) {
        HoldsSameFuns(kids[i], k, m, m2, e);
      }
    case All(v, b) =>
      forall d: D ensures HoldsAt(b, m, e, v, d) <==> HoldsAt(b, m2, e, v, d) {
        HoldsSameFuns(b, k, m, m2, e[v := d]);
      }
    case Exists(v, b) =>
      forall d: D ensures HoldsAt(b, m, e, v, d) <==> HoldsAt(b, m2, e, v, d) {
        HoldsSameFuns(b, k, m, m2, e[v := d]);
      }
  }

  lemma {:induction false} TermGrows(t: Term, k: nat, n: nat)
    requires TermBelow(t, k) && k <= n
    ensures TermBelow(t, n)
    decreases t
  {
    if t.App? { forall i | 0 <= i < |t.args| ensures TermBelow(t.args[i], n) { TermGrows(t.args[i], k, n); } }
  }

  lemma {:induction false} FunsGrow(f: Formula, k: nat, n: nat)
    requires FunsBelow(f, k) && k <= n
    ensures FunsBelow(f, n)
  {
    match f
    case Atom(_, args) => forall i | 0 <= i < |args| ensures TermBelow(args[i], n) { TermGrows(args[i], k, n); }
    case Not(g) => FunsGrow(g, k, n);
    case And(kids) => forall i | 0 <= i < |kids| ensures FunsBelow(kids[i], n) { FunsGrow(kids[i], k, n); }
    case Or(kids) => forall i | 0 <= i < |kids| ensures FunsBelow(kids[i], n) { FunsGrow(kids[i], k, n); }
    case All(_, b) => FunsGrow(b, k, n);
    case Exists(_, b) => FunsGrow(b, k, n);
  }

  lemma {:induction false} SubstTermBelow(s: Term, n: nat, t: Term, k: nat)
    requires TermBelow(s, k) && TermBelow(t, k)
    ensures TermBelow(Apply(s, map[n := t]), k)
    decreases s
  {
    if s.App? {
      ApplyAllAt(s.args, map[n := t]);
      forall i | 0 <= i < |s.args| ensures TermBelow(Apply(s.args[i], map[n := t]), k) {
        SubstTermBelow(s.args[i], n, t, k);
      }
    }
  }

  lemma {:induction false} SubstBelow(f: Formula, n: nat, t: Term, k: nat)
    requires FunsBelow(f, k) && TermBelow(t, k)
    ensures FunsBelow(SubstFree(f, n, t), k)
  {
    match f
    case Atom(_, args) =>
      ApplyAllAt(args, map[n := t]);
      forall i | 0 <= i < |args| ensures TermBelow(Apply(args[i], map[n := t]), k) { SubstTermBelow(args[i], n, t, k); }
    case Not(g) => SubstBelow(g, n, t, k);
    case And(kids) =>
      forall i | 0 <= i < |kids| ensures FunsBelow(SubstFree(kids[i], n, t), k) {
        SubstBelow(kids[i], n, t, k);
      }
    case Or(kids) =>
      forall i | 0 <= i < |kids| ensures FunsBelow(SubstFree(kids[i], n, t), k) {
        SubstBelow(kids[i], n, t, k);
      }
    case All(_, b) => SubstBelow(b, n, t, k);
    case Exists(_, b) => SubstBelow(b, n, t, k);
  }
}

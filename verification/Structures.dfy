/** First-order structures and truth of formulas in them. */
module Structures {
  import opened Terms
  import opened Formulas

  /** The domain is the type D, nonempty because constants have values in it. */
  datatype Structure<!D> = Structure(fun: (nat, seq<D>) -> D, rel: (nat, seq<D>) -> bool)

  type Env<D> = map<nat, D>

  /** A name that is not bound is a constant symbol. */
  ghost function Get<D>(n: nat, m: Structure<D>, e: Env<D>): D {
    if n in e then e[n] else m.fun(n, [])
  }

  ghost function Value<D>(t: Term, m: Structure<D>, e: Env<D>): D
    decreases t, 1
  {
    match t
    case Var(n) => Get(n, m, e)
    case App(f, args) => m.fun(f, Values(args, m, e))
  }

  ghost function Values<D>(ts: seq<Term>, m: Structure<D>, e: Env<D>): (ds: seq<D>)
    ensures |ds| == |ts| && forall i | 0 <= i < |ts| :: ds[i] == Value(ts[i], m, e)
    decreases ts, 0
  {
    seq(|ts|, i requires 0 <= i < |ts| => Value(ts[i], m, e))
  }

  ghost predicate Holds<D(!new)>(f: Formula, m: Structure<D>, e: Env<D>)
    decreases f, 0
  {
    match f
    case Atom(p, args) => m.rel(p, Values(args, m, e))
    case Not(g) => !Holds(g, m, e)
    case And(kids) => forall i | 0 <= i < |kids| :: Holds(kids[i], m, e)
    case Or(kids) => exists i :: 0 <= i < |kids| && Holds(kids[i], m, e)
    case All(v, b) => forall d: D :: HoldsAt(b, m, e, v, d)
    case Exists(v, b) => exists d: D :: HoldsAt(b, m, e, v, d)
  }

  /** Truth with d for the variable v. */
  ghost predicate HoldsAt<D(!new)>(f: Formula, m: Structure<D>, e: Env<D>, v: nat, d: D)
    decreases f, 1
  {
    Holds(f, m, e[v := d])
  }

  // ---------- Propositional truth is truth at one structure and environment ----------

  ghost function LeafTruth<D(!new)>(m: Structure<D>, e: Env<D>): Valuation {
    f => Holds(f, m, e)
  }

  lemma {:induction false} HoldsIsTruth<D(!new)>(f: Formula, m: Structure<D>, e: Env<D>)
    ensures Holds(f, m, e) <==> Truth(f, LeafTruth(m, e))
  {
    match f
    case Not(g) => HoldsIsTruth(g, m, e);
    case And(kids) =>
      forall i | 0 <= i < |kids| ensures Holds(kids[i], m, e) <==> Truth(kids[i], LeafTruth(m, e)) {
        HoldsIsTruth(kids[i], m, e);
      }
    case Or(kids) =>
      forall i | 0 <= i < |kids| ensures Holds(kids[i], m, e) <==> Truth(kids[i], LeafTruth(m, e)) {
        HoldsIsTruth(kids[i], m, e);
      }
    case _ =>
  }

  /** Propositionally equivalent formulas hold in the same structures. */
  lemma {:induction false} EquivalentHolds<D(!new)>(f: Formula, g: Formula, m: Structure<D>, e: Env<D>)
    requires Equivalent(f, g)
    ensures Holds(f, m, e) <==> Holds(g, m, e)
  {
    HoldsIsTruth(f, m, e);
    HoldsIsTruth(g, m, e);
    assert Truth(f, LeafTruth(m, e)) <==> Truth(g, LeafTruth(m, e));
  }

  // ---------- Free variables ----------

  /** free_variable */
  predicate Free(n: nat, f: Formula) {
    match f
    case Atom(_, args) => n in VarsAll(args)
    case Not(g) => Free(n, g)
    case And(kids) => exists i :: 0 <= i < |kids| && Free(n, kids[i])
    case Or(kids) => exists i :: 0 <= i < |kids| && Free(n, kids[i])
    case All(v, b) => n != v && Free(n, b)
    case Exists(v, b) => n != v && Free(n, b)
  }

  lemma {:induction false} ValueAgree<D>(t: Term, m: Structure<D>, e: Env<D>, e2: Env<D>)
    requires forall n | n in Vars(t) :: Get(n, m, e) == Get(n, m, e2)
    ensures Value(t, m, e) == Value(t, m, e2)
    decreases t, 1
  {
    if t.App? { ValuesAgree(t.args, m, e, e2); }
  }

  lemma {:induction false} ValuesAgree<D>(ts: seq<Term>, m: Structure<D>, e: Env<D>, e2: Env<D>)
    requires forall n | n in VarsAll(ts) :: Get(n, m, e) == Get(n, m, e2)
    ensures Values(ts, m, e) == Values(ts, m, e2)
    decreases ts, 0
  {
    forall i | 0 <= i < |ts| ensures Value(ts[i], m, e) == Value(ts[i], m, e2) {
      VarsAllAt(ts, i);
      ValueAgree(ts[i], m, e, e2);
    }
  }

  /** Truth depends only on the values of the free variables. */
  lemma {:induction false} HoldsAgree<D(!new)>(f: Formula, m: Structure<D>, e: Env<D>, e2: Env<D>)
    requires forall n | Free(n, f) :: Get(n, m, e) == Get(n, m, e2)
    ensures Holds(f, m, e) <==> Holds(f, m, e2)
    decreases f, 0
  {
    match f
    case Atom(_, args) => ValuesAgree(args, m, e, e2);
    case Not(g) => HoldsAgree(g, m, e, e2);
    case And(kids) =>
      forall i | 0 <= i < |kids| ensures Holds(kids[i], m, e) <==> Holds(kids[i], m, e2) {
        HoldsAgree(kids[i], m, e, e2);
      }
    case Or(kids) =>
      forall i | 0 <= i < |kids| ensures Holds(kids[i], m, e) <==> Holds(kids[i], m, e2) {
        HoldsAgree(kids[i], m, e, e2);
      }
    case All(v, b) => BodyAgrees(f, m, e, e2);
    case Exists(v, b) => BodyAgrees(f, m, e, e2);
  }

  lemma {:induction false} BodyAgrees<D(!new)>(f: Formula, m: Structure<D>, e: Env<D>, e2: Env<D>)
    requires f.All? || f.Exists?
    requires forall n | Free(n, f) :: Get(n, m, e) == Get(n, m, e2)
    ensures forall d: D :: HoldsAt(f.body, m, e, f.v, d) <==> HoldsAt(f.body, m, e2, f.v, d)
    decreases f.body, 1
  {
    forall d: D ensures HoldsAt(f.body, m, e, f.v, d) <==> HoldsAt(f.body, m, e2, f.v, d) {
      forall n | Free(n, f.body) ensures Get(n, m, e[f.v := d]) == Get(n, m, e2[f.v := d]) {
        assert n != f.v ==> Free(n, f);
      }
      HoldsAgree(f.body, m, e[f.v := d], e2[f.v := d]);
    }
  }

  // ---------- Symbols ----------

  /** All predicate symbols of f are below k. */
  ghost predicate RelsBelow(f: Formula, k: nat) {
    match f
    case Atom(p, _) => p < k
    case Not(g) => RelsBelow(g, k)
    case And(kids) => forall i | 0 <= i < |kids| :: RelsBelow(kids[i], k)
    case Or(kids) => forall i | 0 <= i < |kids| :: RelsBelow(kids[i], k)
    case All(_, b) => RelsBelow(b, k)
    case Exists(_, b) => RelsBelow(b, k)
  }

  ghost predicate SameRelsBelow<D(!new)>(m: Structure<D>, m2: Structure<D>, k: nat) {
    m.fun == m2.fun && forall p: nat, ds: seq<D> | p < k :: m.rel(p, ds) == m2.rel(p, ds)
  }

  lemma {:induction false} ValueSameFun<D>(t: Term, m: Structure<D>, m2: Structure<D>, e: Env<D>)
    requires m.fun == m2.fun
    ensures Value(t, m, e) == Value(t, m2, e)
    decreases t, 1
  {
    if t.App? { ValuesSameFun(t.args, m, m2, e); }
  }

  lemma {:induction false} ValuesSameFun<D>(ts: seq<Term>, m: Structure<D>, m2: Structure<D>, e: Env<D>)
    requires m.fun == m2.fun
    ensures Values(ts, m, e) == Values(ts, m2, e)
    decreases ts, 0
  {
    forall i | 0 <= i < |ts| ensures Value(ts[i], m, e) == Value(ts[i], m2, e) { ValueSameFun(ts[i], m, m2, e); }
  }

  /** Truth depends only on the predicate symbols that occur. */
  lemma {:induction false} HoldsSameRels<D(!new)>(f: Formula, k: nat, m: Structure<D>, m2: Structure<D>, e: Env<D>)
    requires RelsBelow(f, k) && SameRelsBelow(m, m2, k)
    ensures Holds(f, m, e) <==> Holds(f, m2, e)
  {
    match f
    case Atom(_, args) => ValuesSameFun(args, m, m2, e);
    case Not(g) => HoldsSameRels(g, k, m, m2, e);
    case And(kids) =>
      forall i | 0 <= i < |kids| ensures Holds(kids[i], m, e) <==> Holds(kids[i], m2, e) {
        HoldsSameRels(kids[i], k, m, m2, e);
      }
    case Or(kids) =>
      forall i | 0 <= i < |kids| ensures Holds(kids[i], m, e) <==> Holds(kids[i], m2, e) {
        HoldsSameRels(kids[i], k, m, m2, e);
      }
    case All(v, b) =>
      forall d: D ensures HoldsAt(b, m, e, v, d) <==> HoldsAt(b, m2, e, v, d) {
        HoldsSameRels(b, k, m, m2, e[v := d]);
      }
    case Exists(v, b) =>
      forall d: D ensures HoldsAt(b, m, e, v, d) <==> HoldsAt(b, m2, e, v, d) {
        HoldsSameRels(b, k, m, m2, e[v := d]);
      }
  }
}

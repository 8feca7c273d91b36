/** Skolemization (skolem, skolemize: ladr/cnf.c:839-1010). */
module Skolem {
  import opened Terms
  import opened Formulas
  import opened Structures
  import opened Substitution

  function Names(vs: seq<nat>): (ts: seq<Term>)
    ensures |ts| == |vs| && forall i | 0 <= i < |vs| :: ts[i] == Var(vs[i])
  {
    seq(|vs|, i requires 0 <= i < |vs| => Var(vs[i]))
  }

  function InUse(vs: seq<nat>): set<nat> {
    set v | v in vs
  }

  /** A universal variable that is bound again in its scope is renamed there. */
  function ScopeName(gen: Generator, v: nat, uvars: seq<nat>): nat {
    if v in uvars then Fresh(0, InUse(uvars), gen) else v
  }

  function ScopeBody(gen: Generator, v: nat, b: Formula, uvars: seq<nat>): Formula {
    if v in uvars then SubstFree(b, v, Var(ScopeName(gen, v, uvars))) else b
  }

  /** Replace existential variables by terms over the universal variables in whose scope they are
      (oldest first), with fresh function symbols from k on. */
  function Skolemize(gen: Generator, f: Formula, uvars: seq<nat>, k: nat): (r: (Formula, nat))
    ensures r.1 >= k
    decreases Height(f), 0
  {
    match f
    case Atom(_, _) => (f, k)
    case Not(_) => (f, k)
    case And(kids) => var (gs, k2) := SkolemizeAll(gen, kids, uvars, k); (And(gs), k2)
    case Or(kids) => var (gs, k2) := SkolemizeAll(gen, kids, uvars, k); (Or(gs), k2)
    case All(v, b) =>
      var n := ScopeName(gen, v, uvars);
      SubstHeight(b, v, Var(n));
      var (g, k2) := Skolemize(gen, ScopeBody(gen, v, b, uvars), uvars + [n], k);
      (All(n, g), k2)
    case Exists(v, b) =>
      SubstHeight(b, v, App(k, Names(uvars)));
      Skolemize(gen, SubstFree(b, v, App(k, Names(uvars))), uvars, k + 1)
  }

  function SkolemizeAll(gen: Generator, fs: seq<Formula>, uvars: seq<nat>, k: nat): (r: (seq<Formula>, nat))
    ensures r.1 >= k && |r.0| == |fs|
    decreases HeightAll(fs), 1
  {
    if |fs| == 0 then ([], k) else
      var (g, k2) := Skolemize(gen, fs[0], uvars, k);
      var (gs, k3) := SkolemizeAll(gen, fs[1..], uvars, k2);
      ([g] + gs, k3)
  }

  // ---------- What is left of the formula ----------

  /** Negation on atoms only. */
  predicate Nnf(f: Formula) {
    match f
    case Atom(_, _) => true
    case Not(g) => g.Atom?
    case And(kids) => forall i | 0 <= i < |kids| :: Nnf(kids[i])
    case Or(kids) => forall i | 0 <= i < |kids| :: Nnf(kids[i])
    case All(_, b) => Nnf(b)
    case Exists(_, b) => Nnf(b)
  }

  /** No node is an existential quantifier. */
  predicate NoExists(f: Formula) {
    match f
    case Atom(_, _) => true
    case Not(g) => NoExists(g)
    case And(kids) => forall i | 0 <= i < |kids| :: NoExists(kids[i])
    case Or(kids) => forall i | 0 <= i < |kids| :: NoExists(kids[i])
    case All(_, b) => NoExists(b)
    case Exists(_, _) => false
  }

  /** The number of existential quantifiers, outside negations. */
  function Existentials(f: Formula): nat
    decreases f, 1
  {
    match f
    case Atom(_, _) => 0
    case Not(_) => 0
    case And(kids) => ExistentialsAll(kids)
    case Or(kids) => ExistentialsAll(kids)
    case All(_, b) => Existentials(b)
    case Exists(_, b) => 1 + Existentials(b)
  }

  function ExistentialsAll(fs: seq<Formula>): nat
    decreases fs, 0
  {
    if |fs| == 0 then 0 else Existentials(fs[0]) + ExistentialsAll(fs[1..])
  }

  /** The formula without existential quantifiers, bound names and arguments of predicates. */
  function Bare(f: Formula): Formula
    decreases f, 1
  {
    match f
    case Atom(p, _) => Atom(p, [])
    case Not(g) => Not(Bare(g))
    case And(kids) => And(BareAll(kids))
    case Or(kids) => Or(BareAll(kids))
    case All(_, b) => All(0, Bare(b))
    case Exists(_, b) => Bare(b)
  }

  function BareAll(fs: seq<Formula>): seq<Formula>
    decreases fs, 0
  {
    if |fs| == 0 then [] else [Bare(fs[0])] + BareAll(fs[1..])
  }

  lemma {:induction false} SubstBare(f: Formula, n: nat, t: Term)
    ensures Bare(SubstFree(f, n, t)) == Bare(f) && Existentials(SubstFree(f, n, t)) == Existentials(f)
    ensures Nnf(f) ==> Nnf(SubstFree(f, n, t))
    decreases f, 1
  {
    match f
    case Atom(_, _) =>
    case Not(g) => SubstBare(g, n, t);
    case And(kids) => SubstBareAll(kids, n, t);
    case Or(kids) => SubstBareAll(kids, n, t);
    case All(_, b) => SubstBare(b, n, t);
    case Exists(_, b) => SubstBare(b, n, t);
  }

  lemma {:induction false} SubstBareAll(fs: seq<Formula>, n: nat, t: Term)
    ensures BareAll(SubstAll(fs, n, t)) == BareAll(fs) && ExistentialsAll(SubstAll(fs, n, t)) == ExistentialsAll(fs)
    ensures (forall i | 0 <= i < |fs| :: Nnf(fs[i])) ==> forall i | 0 <= i < |fs| :: Nnf(SubstAll(fs, n, t)[i])
    decreases fs, 0
  {
    if |fs| > 0 {
      SubstBare(fs[0], n, t);
      SubstBareAll(fs[1..], n, t);
      assert SubstAll(fs, n, t)[1..] == SubstAll(fs[1..], n, t);
      if forall i | 0 <= i < |fs| :: Nnf(fs[i]) {
        forall i | 0 <= i < |fs| ensures Nnf(SubstAll(fs, n, t)[i]) {
          if i > 0 { assert SubstAll(fs[1..], n, t)[i - 1] == SubstAll(fs, n, t)[i]; }
        }
      }
    }
  }

  /** Skolemization removes the existential quantifiers, one symbol for each, and nothing else. */
  lemma {:induction false} SkolemRemoves(gen: Generator, f: Formula, uvars: seq<nat>, k: nat)
    ensures var (g, k2) := Skolemize(gen, f, uvars, k);
            Bare(g) == Bare(f) && k2 == k + Existentials(f) && (Nnf(f) ==> NoExists(g))
    decreases Height(f), 0
  {
    match f
    case Atom(_, _) =>
    case Not(_) =>
    case And(kids) => SkolemRemovesAll(gen, kids, uvars, k);
    case Or(kids) => SkolemRemovesAll(gen, kids, uvars, k);
    case All(v, b) =>
      var n := ScopeName(gen, v, uvars);
      SubstHeight(b, v, Var(n));
      SubstBare(b, v, Var(n));
      SkolemRemoves(gen, ScopeBody(gen, v, b, uvars), uvars + [n], k);
    case Exists(v, b) =>
      var t := App(k, Names(uvars));
      SubstHeight(b, v, t);
      SubstBare(b, v, t);
      SkolemRemoves(gen, SubstFree(b, v, t), uvars, k + 1);
  }

  lemma {:induction false} SkolemRemovesAll(gen: Generator, fs: seq<Formula>, uvars: seq<nat>, k: nat)
    ensures var (gs, k2) := SkolemizeAll(gen, fs, uvars, k);
            BareAll(gs) == BareAll(fs) && k2 == k + ExistentialsAll(fs) &&
            forall i | 0 <= i < |fs| && Nnf(fs[i]) :: NoExists(gs[i])
    decreases HeightAll(fs), 1
  {
    if |fs| > 0 {
      var (g, k2) := Skolemize(gen, fs[0], uvars, k);
      var (gs, k3) := SkolemizeAll(gen, fs[1..], uvars, k2);
      SkolemRemoves(gen, fs[0], uvars, k);
      SkolemRemovesAll(gen, fs[1..], uvars, k2);
      assert ([g] + gs)[1..] == gs;
      forall i | 0 <= i < |fs| && Nnf(fs[i]) ensures NoExists(([g] + gs)[i]) {
        if i > 0 { assert fs[1..][i - 1] == fs[i]; }
      }
    }
  }

  // ---------- The Skolem terms ----------

  lemma {:induction false} QuantifierFreeKept(gen: Generator, f: Formula, uvars: seq<nat>, k: nat)
    requires QuantifierFree(f)
    ensures Skolemize(gen, f, uvars, k) == (f, k)
    decreases f, 1
  {
    match f
    case And(kids) => QuantifierFreeAllKept(gen, kids, uvars, k);
    case Or(kids) => QuantifierFreeAllKept(gen, kids, uvars, k);
    case _ =>
  }

  lemma {:induction false} QuantifierFreeAllKept(gen: Generator, fs: seq<Formula>, uvars: seq<nat>, k: nat)
    requires forall i | 0 <= i < |fs| :: QuantifierFree(fs[i])
    ensures SkolemizeAll(gen, fs, uvars, k) == (fs, k)
    decreases fs, 0
  {
    if |fs| > 0 {
      QuantifierFreeKept(gen, fs[0], uvars, k);
      QuantifierFreeAllKept(gen, fs[1..], uvars, k);
      assert [fs[0]] + fs[1..] == fs;
    }
  }

  lemma {:induction false} SubstQuantifierFree(f: Formula, n: nat, t: Term)
    requires QuantifierFree(f)
    ensures QuantifierFree(SubstFree(f, n, t))
  {
    match f
    case Atom(_, _) =>
    case Not(g) => SubstQuantifierFree(g, n, t);
    case And(kids) =>
      forall i | 0 <= i < |kids| ensures QuantifierFree(SubstFree(kids[i], n, t)) {
        SubstQuantifierFree(kids[i], n, t);
      }
    case Or(kids) =>
      forall i | 0 <= i < |kids| ensures QuantifierFree(SubstFree(kids[i], n, t)) {
        SubstQuantifierFree(kids[i], n, t);
      }
  }

  /** Universal quantifiers in front of a formula. */
  function ForAll(vs: seq<nat>, f: Formula): Formula {
    if |vs| == 0 then f else All(vs[0], ForAll(vs[1..], f))
  }

  /** For all us, some v: v becomes the first new symbol applied to us, from the outermost to the innermost. */
  lemma {:induction false} PrefixSkolem(
    gen: Generator, ws: seq<nat>, us: seq<nat>, v: nat, b: Formula, k: nat, args: seq<Term>)
    requires Distinct(ws + us) && QuantifierFree(b)
    requires |args| == |ws + us| && forall i | 0 <= i < |args| :: args[i] == Var((ws + us)[i])
    ensures Skolemize(gen, ForAll(us, Exists(v, b)), ws, k) == (ForAll(us, SubstFree(b, v, App(k, args))), k + 1)
    decreases |us|
  {
    if |us| == 0 {
      assert ws + us == ws && args == Names(ws);
      SubstQuantifierFree(b, v, App(k, args));
      QuantifierFreeKept(gen, SubstFree(b, v, App(k, args)), ws, k + 1);
    } else {
      assert (ws + us)[|ws|] == us[0];
      assert forall i | 0 <= i < |ws| :: (ws + us)[i] == ws[i] != us[0];
      assert ws + us == ws + [us[0]] + us[1..];
      PrefixSkolem(gen, ws + [us[0]], us[1..], v, b, k, args);
    }
  }

  ghost predicate BindsNone(f: Formula, vs: seq<nat>) {
    forall v | v in vs :: !Binds(f, v)
  }

  /** Skolem terms are not captured, and the names given to universal variables that are bound again
      do not occur in their scopes. */
  ghost predicate Clean(gen: Generator, f: Formula, uvars: seq<nat>) {
    match f
    case Atom(_, _) => true
    case Not(_) => true
    case And(kids) => forall i | 0 <= i < |kids| :: Clean(gen, kids[i], uvars)
    case Or(kids) => forall i | 0 <= i < |kids| :: Clean(gen, kids[i], uvars)
    case All(v, b) =>
      var n := ScopeName(gen, v, uvars);
      (v in uvars ==> !Mentions(b, n)) && Clean(gen, b, uvars + [n])
    case Exists(v, b) => BindsNone(b, uvars) && Clean(gen, b, uvars)
  }

  lemma {:induction false} SubstClean(gen: Generator, f: Formula, n: nat, t: Term, uvars: seq<nat>)
    requires Injective(gen) && Clean(gen, f, uvars) && forall u | u in Vars(t) :: u in uvars
    ensures Clean(gen, SubstFree(f, n, t), uvars)
  {
    match f
    case Atom(_, _) =>
    case Not(_) =>
    case And(kids) =>
      forall i | 0 <= i < |kids| ensures Clean(gen, SubstFree(kids[i], n, t), uvars) {
        SubstClean(gen, kids[i], n, t, uvars);
      }
    case Or(kids) =>
      forall i | 0 <= i < |kids| ensures Clean(gen, SubstFree(kids[i], n, t), uvars) {
        SubstClean(gen, kids[i], n, t, uvars);
      }
    case All(v, b) =>
      var w := ScopeName(gen, v, uvars);
      SubstClean(gen, b, n, t, uvars + [w]);
      if v in uvars {
        NewScopeName(gen, v, uvars);
        if Mentions(SubstFree(b, n, t), w) { SubstMentions(b, n, t, w); }
      }
    case Exists(v, b) =>
      SubstClean(gen, b, n, t, uvars);
      forall u | u in uvars ensures !Binds(SubstFree(b, n, t), u) { SubstBinds(b, n, t, u); }
  }

  lemma {:induction false} NewScopeName(gen: Generator, v: nat, uvars: seq<nat>)
    requires Injective(gen)
    ensures ScopeName(gen, v, uvars) !in uvars
    ensures v in uvars ==> exists j: nat :: j <= |uvars| && ScopeName(gen, v, uvars) == gen(j)
  {
    if v in uvars {
      var j := FreshIsNew(0, InUse(uvars), gen);
      InUseSize(uvars);
    }
  }

  lemma {:induction false} InUseSize(vs: seq<nat>)
    ensures |InUse(vs)| <= |vs|
  {
    if |vs| == 0 {
      assert InUse(vs) == {};
    } else {
      InUseSize(vs[1..]);
      assert InUse(vs) == {vs[0]} + InUse(vs[1..]);
    }
  }

  /** The body in its new name is as clean, and says for the new name what it said for the old. */
  lemma {:induction false} ScopeClean(gen: Generator, v: nat, b: Formula, uvars: seq<nat>)
    requires Injective(gen) && Clean(gen, All(v, b), uvars)
    ensures Clean(gen, ScopeBody(gen, v, b, uvars), uvars + [ScopeName(gen, v, uvars)])
    ensures Height(ScopeBody(gen, v, b, uvars)) == Height(b)
  {
    var n := ScopeName(gen, v, uvars);
    SubstHeight(b, v, Var(n));
    if v in uvars { SubstClean(gen, b, v, Var(n), uvars + [n]); }
  }

  lemma {:induction false} ScopeHolds<D(!new)>(gen: Generator, v: nat, b: Formula, uvars: seq<nat>, m: Structure<D>,
      e: Env<D>, d: D)
    requires Clean(gen, All(v, b), uvars)
    ensures HoldsAt(ScopeBody(gen, v, b, uvars), m, e, ScopeName(gen, v, uvars), d) <==> HoldsAt(b, m, e, v, d)
  {
    if v in uvars { RenameHolds(b, v, ScopeName(gen, v, uvars), m, e, d); }
  }

  lemma {:induction false} NamesVars(vs: seq<nat>)
    ensures forall n | n in VarsAll(Names(vs)) :: n in vs
  {
    if |vs| > 0 {
      NamesVars(vs[1..]);
      assert Names(vs)[1..] == Names(vs[1..]);
    }
  }

  // ---------- Soundness ----------

  /** Every model of the Skolemized formula is a model of the formula. */
  lemma {:induction false} SkolemSound<D(!new)>(gen: Generator, f: Formula, uvars: seq<nat>, k: nat, m: Structure<D>,
      e: Env<D>)
    requires Injective(gen) && Clean(gen, f, uvars) && Holds(Skolemize(gen, f, uvars, k).0, m, e)
    ensures Holds(f, m, e)
    decreases Height(f), 0
  {
    match f
    case Atom(_, _) =>
    case Not(_) =>
    case And(kids) => SkolemSoundAll(gen, kids, uvars, k, m, e);
    case Or(kids) => SkolemSoundAll(gen, kids, uvars, k, m, e);
    case All(v, b) =>
      var n, c := ScopeName(gen, v, uvars), ScopeBody(gen, v, b, uvars);
      ScopeClean(gen, v, b, uvars);
      var g := Skolemize(gen, c, uvars + [n], k).0;
      forall d: D ensures HoldsAt(b, m, e, v, d) {
        assert HoldsAt(g, m, e, n, d);
        SkolemSound(gen, c, uvars + [n], k, m, e[n := d]);
        ScopeHolds(gen, v, b, uvars, m, e, d);
      }
    case Exists(v, b) =>
      var t := App(k, Names(uvars));
      SubstHeight(b, v, t);
      NamesVars(uvars);
      SubstClean(gen, b, v, t, uvars);
      SkolemSound(gen, SubstFree(b, v, t), uvars, k + 1, m, e);
      SubstHolds(b, v, t, m, e);
      assert HoldsAt(b, m, e, v, Value(t, m, e));
  }

  lemma {:induction false} SkolemSoundAll<D(!new)>(gen: Generator, fs: seq<Formula>, uvars: seq<nat>, k: nat,
      m: Structure<D>, e: Env<D>)
    requires Injective(gen) && forall i | 0 <= i < |fs| :: Clean(gen, fs[i], uvars)
    ensures forall i | 0 <= i < |fs| :: Holds(SkolemizeAll(gen, fs, uvars, k).0[i], m, e) ==> Holds(fs[i], m, e)
    decreases HeightAll(fs), 1
  {
    if |fs| > 0 {
      var (g, k2) := Skolemize(gen, fs[0], uvars, k);
      if Holds(g, m, e) { SkolemSound(gen, fs[0], uvars, k, m, e); }
      SkolemSoundAll(gen, fs[1..], uvars, k2, m, e);
    }
  }

  // ---------- Reinterpreting the Skolem symbols ----------

  ghost function Assign<D>(e: Env<D>, vs: seq<nat>, ds: seq<D>): Env<D>
    requires |vs| == |ds|
  {
    if |vs| == 0 then e else Assign(e, vs[..|vs| - 1], ds[..|ds| - 1])[vs[|vs| - 1] := ds[|ds| - 1]]
  }

  /** A value for v that makes b true, if there is one. */
  ghost function Witness<D(!new)>(b: Formula, m: Structure<D>, e: Env<D>, v: nat): (d: D)
    ensures (exists x: D :: HoldsAt(b, m, e, v, x)) ==> HoldsAt(b, m, e, v, d)
  {
    if x: D :| HoldsAt(b, m, e, v, x) then x else m.fun(0, [])
  }

  /** Interpret symbol k as choosing witnesses for v from the values of the universal variables. */
  ghost function WithWitness<D(!new)>(m: Structure<D>, k: nat, uvars: seq<nat>, v: nat, b: Formula,
      e: Env<D>): Structure<D> {
    m.(fun := (g: nat, ds: seq<D>) => if g == k && |ds| == |uvars| then Witness(b, m, Assign(e, uvars, ds), v)
        else m.fun(g, ds))
  }

  /** The structure reinterpreted on the Skolem symbols of f only. */
  ghost function Reinterpret<D(!new)>(gen: Generator, f: Formula, uvars: seq<nat>, k: nat, m: Structure<D>,
      e: Env<D>): Structure<D>
    decreases Height(f), 0
  {
    match f
    case Atom(_, _) => m
    case Not(_) => m
    case And(kids) => ReinterpretAll(gen, kids, uvars, k, m, e)
    case Or(kids) => ReinterpretAll(gen, kids, uvars, k, m, e)
    case All(v, b) =>
      SubstHeight(b, v, Var(ScopeName(gen, v, uvars)));
      Reinterpret(gen, ScopeBody(gen, v, b, uvars), uvars + [ScopeName(gen, v, uvars)], k, m, e)
    case Exists(v, b) =>
      SubstHeight(b, v, App(k, Names(uvars)));
      Reinterpret(gen, SubstFree(b, v, App(k, Names(uvars))), uvars, k + 1, WithWitness(m, k, uvars, v, b, e), e)
  }

  ghost function ReinterpretAll<D(!new)>(gen: Generator, fs: seq<Formula>, uvars: seq<nat>, k: nat, m: Structure<D>,
      e: Env<D>): Structure<D>
    decreases HeightAll(fs), 1
  {
    if |fs| == 0 then m
    else ReinterpretAll(gen, fs[1..], uvars, Skolemize(gen, fs[0], uvars, k).1,
        Reinterpret(gen, fs[0], uvars, k, m, e), e)
  }

  ghost predicate Distinct(vs: seq<nat>) {
    forall i, j | 0 <= i < j < |vs| :: vs[i] != vs[j]
  }

  ghost predicate VarsBelow(vs: seq<nat>, k: nat) {
    forall i | 0 <= i < |vs| :: vs[i] < k
  }

  lemma {:induction false} AssignGives<D>(e: Env<D>, vs: seq<nat>, ds: seq<D>, i: nat)
    requires |vs| == |ds| && Distinct(vs) && i < |vs|
    ensures vs[i] in Assign(e, vs, ds) && Assign(e, vs, ds)[vs[i]] == ds[i]
  {
    if i < |vs| - 1 { AssignGives(e, vs[..|vs| - 1], ds[..|ds| - 1], i); }
  }

  lemma {:induction false} AssignMore<D>(e: Env<D>, vs: seq<nat>, ds: seq<D>, v: nat, d: D)
    requires |vs| == |ds|
    ensures Assign(e, vs + [v], ds + [d]) == Assign(e, vs, ds)[v := d]
  {
    assert (vs + [v])[..|vs|] == vs && (ds + [d])[..|ds|] == ds;
  }

  /** The value of the Skolem term is the witness. */
  lemma {:induction false} SkolemValue<D(!new)>(m: Structure<D>, k: nat, uvars: seq<nat>, v: nat, b: Formula,
      e: Env<D>, ds: seq<D>)
    requires |ds| == |uvars| && Distinct(uvars)
    ensures var e2 := Assign(e, uvars, ds);
            Value(App(k, Names(uvars)), WithWitness(m, k, uvars, v, b, e), e2) == Witness(b, m, e2, v)
  {
    var e2, m2 := Assign(e, uvars, ds), WithWitness(m, k, uvars, v, b, e);
    var values := Values(Names(uvars), m2, e2);
    forall i | 0 <= i < |ds| ensures values[i] == ds[i] {
      AssignGives(e, uvars, ds, i);
      assert Names(uvars)[i] == Var(uvars[i]);
    }
    assert values == ds;
  }

  lemma {:induction false} SkolemTermBelow(uvars: seq<nat>, k: nat)
    requires VarsBelow(uvars, k)
    ensures TermBelow(App(k, Names(uvars)), k + 1)
  {
    forall i | 0 <= i < |uvars| ensures TermBelow(Names(uvars)[i], k + 1) {}
  }

  /** Skolem symbols, from k on, are none of the first names generated. */
  ghost predicate NamesBelow(gen: Generator, most: nat, k: nat) {
    forall i: nat | i <= most :: gen(i) < k
  }

  lemma {:induction false} ScopeBelow(gen: Generator, v: nat, b: Formula, uvars: seq<nat>, k: nat)
    requires Injective(gen) && FunsBelow(All(v, b), k) && VarsBelow(uvars, k) && NamesBelow(gen, |uvars|, k)
    ensures var n := ScopeName(gen, v, uvars);
            n < k && FunsBelow(ScopeBody(gen, v, b, uvars), k) && VarsBelow(uvars + [n], k)
    ensures Height(ScopeBody(gen, v, b, uvars)) == Height(b)
  {
    NewScopeName(gen, v, uvars);
    SubstHeight(b, v, Var(ScopeName(gen, v, uvars)));
    SubstBelow(b, v, Var(ScopeName(gen, v, uvars)), k);
  }

  lemma {:induction false} SkolemBelow(gen: Generator, f: Formula, uvars: seq<nat>, k: nat)
    requires Injective(gen) && FunsBelow(f, k) && VarsBelow(uvars, k) && NamesBelow(gen, |uvars| + Height(f), k)
    ensures var (g, k2) := Skolemize(gen, f, uvars, k); FunsBelow(g, k2)
    decreases Height(f), 0
  {
    match f
    case Atom(_, _) =>
    case Not(_) =>
    case And(kids) =>
      SkolemBelowAll(gen, kids, uvars, k);
      assert |SkolemizeAll(gen, kids, uvars, k).0| == |kids|;
    case Or(kids) =>
      SkolemBelowAll(gen, kids, uvars, k);
      assert |SkolemizeAll(gen, kids, uvars, k).0| == |kids|;
    case All(v, b) =>
      ScopeBelow(gen, v, b, uvars, k);
      SkolemBelow(gen, ScopeBody(gen, v, b, uvars), uvars + [ScopeName(gen, v, uvars)], k);
    case Exists(v, b) =>
      var t := App(k, Names(uvars));
      SubstHeight(b, v, t);
      SkolemTermBelow(uvars, k);
      FunsGrow(b, k, k + 1);
      SubstBelow(b, v, t, k + 1);
      SkolemBelow(gen, SubstFree(b, v, t), uvars, k + 1);
  }

  ghost predicate AllBelow(fs: seq<Formula>, k: nat) {
    forall i | 0 <= i < |fs| :: FunsBelow(fs[i], k)
  }

  lemma {:induction false} AllGrow(fs: seq<Formula>, k: nat, n: nat)
    requires AllBelow(fs, k) && k <= n
    ensures AllBelow(fs, n)
  {
    forall i | 0 <= i < |fs| ensures FunsBelow(fs[i], n) { FunsGrow(fs[i], k, n); }
  }

  lemma {:induction false} SkolemBelowAll(gen: Generator, fs: seq<Formula>, uvars: seq<nat>, k: nat)
    requires Injective(gen) && AllBelow(fs, k) && VarsBelow(uvars, k) && NamesBelow(gen, |uvars| + HeightAll(fs), k)
    ensures AllBelow(SkolemizeAll(gen, fs, uvars, k).0, SkolemizeAll(gen, fs, uvars, k).1)
    decreases HeightAll(fs), 1
  {
    if |fs| > 0 {
      var (g, k2) := Skolemize(gen, fs[0], uvars, k);
      var (gs, k3) := SkolemizeAll(gen, fs[1..], uvars, k2);
      SkolemBelow(gen, fs[0], uvars, k);
      FunsGrow(g, k2, k3);
      AllGrow(fs[1..], k, k2);
      SkolemBelowAll(gen, fs[1..], uvars, k2);
    }
  }

  lemma {:induction false} ReinterpretKeeps<D(!new)>(gen: Generator, f: Formula, uvars: seq<nat>, k: nat,
      m: Structure<D>, e: Env<D>)
    ensures SameFunsBelow(m, Reinterpret(gen, f, uvars, k, m, e), k)
    decreases Height(f), 0
  {
    match f
    case Atom(_, _) =>
    case Not(_) =>
    case And(kids) => ReinterpretKeepsAll(gen, kids, uvars, k, m, e);
    case Or(kids) => ReinterpretKeepsAll(gen, kids, uvars, k, m, e);
    case All(v, b) =>
      SubstHeight(b, v, Var(ScopeName(gen, v, uvars)));
      ReinterpretKeeps(gen, ScopeBody(gen, v, b, uvars), uvars + [ScopeName(gen, v, uvars)], k, m, e);
    case Exists(v, b) =>
      var t := App(k, Names(uvars));
      SubstHeight(b, v, t);
      ReinterpretKeeps(gen, SubstFree(b, v, t), uvars, k + 1, WithWitness(m, k, uvars, v, b, e), e);
  }

  lemma {:induction false} ReinterpretKeepsAll<D(!new)>(gen: Generator, fs: seq<Formula>, uvars: seq<nat>, k: nat,
      m: Structure<D>, e: Env<D>)
    ensures SameFunsBelow(m, ReinterpretAll(gen, fs, uvars, k, m, e), k)
    decreases HeightAll(fs), 1
  {
    if |fs| > 0 {
      ReinterpretKeeps(gen, fs[0], uvars, k, m, e);
      ReinterpretKeepsAll(gen, fs[1..], uvars, Skolemize(gen, fs[0], uvars, k).1,
          Reinterpret(gen, fs[0], uvars, k, m, e), e);
    }
  }

  // ---------- Completeness ----------

  /** Every model becomes a model of the Skolemized formula by reinterpreting the Skolem symbols:
      for all values of the universal variables at once. */
  lemma {:induction false} SkolemComplete<D(!new)>(gen: Generator, f: Formula, uvars: seq<nat>, k: nat,
      m: Structure<D>, e: Env<D>)
    requires Injective(gen) && Clean(gen, f, uvars) && FunsBelow(f, k) && Distinct(uvars) && VarsBelow(uvars, k) &&
              NamesBelow(gen, |uvars| + Height(f), k)
    ensures forall ds: seq<D> | |ds| == |uvars| ::
              Holds(f, m, Assign(e, uvars, ds)) ==>
              Holds(Skolemize(gen, f, uvars, k).0, Reinterpret(gen, f, uvars, k, m, e), Assign(e, uvars, ds))
    decreases Height(f), 1
  {
    forall ds: seq<D> | |ds| == |uvars| && Holds(f, m, Assign(e, uvars, ds))
      ensures Holds(Skolemize(gen, f, uvars, k).0, Reinterpret(gen, f, uvars, k, m, e), Assign(e, uvars, ds))
    {
      SkolemCompleteAt(gen, f, uvars, k, m, e, ds);
    }
  }

  lemma {:induction false} SkolemCompleteAt<D(!new)>(gen: Generator, f: Formula, uvars: seq<nat>, k: nat,
      m: Structure<D>, e: Env<D>, ds: seq<D>)
    requires Injective(gen) && Clean(gen, f, uvars) && FunsBelow(f, k) && Distinct(uvars) && VarsBelow(uvars, k) &&
              NamesBelow(gen, |uvars| + Height(f), k)
    requires |ds| == |uvars| && Holds(f, m, Assign(e, uvars, ds))
    ensures Holds(Skolemize(gen, f, uvars, k).0, Reinterpret(gen, f, uvars, k, m, e), Assign(e, uvars, ds))
    decreases Height(f), 0
  {
    var e2 := Assign(e, uvars, ds);
    match f
    case Atom(_, _) =>
    case Not(_) =>
    case And(kids) => KidsComplete(gen, kids, uvars, k, m, e, ds);
    case Or(kids) => KidsComplete(gen, kids, uvars, k, m, e, ds);
    case All(v, b) =>
      var n, c := ScopeName(gen, v, uvars), ScopeBody(gen, v, b, uvars);
      var us := uvars + [n];
      ScopeClean(gen, v, b, uvars);
      ScopeBelow(gen, v, b, uvars, k);
      NewScopeName(gen, v, uvars);
      var g, m2 := Skolemize(gen, c, us, k).0, Reinterpret(gen, c, us, k, m, e);
      forall d: D ensures HoldsAt(g, m2, e2, n, d) {
        assert HoldsAt(b, m, e2, v, d);
        ScopeHolds(gen, v, b, uvars, m, e2, d);
        AssignMore(e, uvars, ds, n, d);
        SkolemCompleteAt(gen, c, us, k, m, e, ds + [d]);
      }
    case Exists(v, b) => ExistsComplete(gen, f, uvars, k, m, e, ds);
  }

  lemma {:induction false} ExistsComplete<D(!new)>(gen: Generator, f: Formula, uvars: seq<nat>, k: nat,
      m: Structure<D>, e: Env<D>, ds: seq<D>)
    requires f.Exists? && Injective(gen) && Clean(gen, f, uvars) && FunsBelow(f, k) && Distinct(uvars) &&
              VarsBelow(uvars, k) && NamesBelow(gen, |uvars| + Height(f), k)
    requires |ds| == |uvars| && Holds(f, m, Assign(e, uvars, ds))
    ensures Holds(Skolemize(gen, f, uvars, k).0, Reinterpret(gen, f, uvars, k, m, e), Assign(e, uvars, ds))
    decreases Height(f.body), 2
  {
    var v, b, t, e2 := f.v, f.body, App(k, Names(uvars)), Assign(e, uvars, ds);
    var m2 := WithWitness(m, k, uvars, v, b, e);
    var w := Witness(b, m, e2, v);
    assert HoldsAt(b, m, e2, v, w);
    HoldsSameFuns(b, k, m, m2, e2[v := w]);
    SkolemValue(m, k, uvars, v, b, e, ds);
    NamesVars(uvars);
    SubstHolds(b, v, t, m2, e2);
    SubstHeight(b, v, t);
    SubstClean(gen, b, v, t, uvars);
    SkolemTermBelow(uvars, k);
    FunsGrow(b, k, k + 1);
    SubstBelow(b, v, t, k + 1);
    SkolemCompleteAt(gen, SubstFree(b, v, t), uvars, k + 1, m2, e, ds);
  }

  lemma {:induction false} KidsComplete<D(!new)>(gen: Generator, fs: seq<Formula>, uvars: seq<nat>, k: nat,
      m: Structure<D>, e: Env<D>, ds: seq<D>)
    requires Injective(gen) && (forall i | 0 <= i < |fs| :: Clean(gen, fs[i], uvars) && FunsBelow(fs[i], k))
    requires Distinct(uvars) && VarsBelow(uvars, k) && NamesBelow(gen, |uvars| + HeightAll(fs), k)
    requires |ds| == |uvars|
    ensures forall i | 0 <= i < |fs| :: Holds(fs[i], m, Assign(e, uvars, ds)) ==>
              Holds(SkolemizeAll(gen, fs, uvars, k).0[i], ReinterpretAll(gen, fs, uvars, k, m, e), Assign(e, uvars, ds))
    decreases HeightAll(fs), 1
  {
    if |fs| > 0 {
      var e2 := Assign(e, uvars, ds);
      var (g, k2) := Skolemize(gen, fs[0], uvars, k);
      var m2, m3 := Reinterpret(gen, fs[0], uvars, k, m, e), ReinterpretAll(gen, fs, uvars, k, m, e);
      if Holds(fs[0], m, e2) { SkolemCompleteAt(gen, fs[0], uvars, k, m, e, ds); }
      SkolemBelow(gen, fs[0], uvars, k);
      ReinterpretKeepsAll(gen, fs[1..], uvars, k2, m2, e);
      HoldsSameFuns(g, k2, m2, m3, e2);
      ReinterpretKeeps(gen, fs[0], uvars, k, m, e);
      forall i | 0 <= i < |fs| - 1
        ensures FunsBelow(fs[1..][i], k2) && (Holds(fs[i + 1], m, e2) <==> Holds(fs[i + 1], m2, e2))
      {
        FunsGrow(fs[i + 1], k, k2);
        HoldsSameFuns(fs[i + 1], k, m, m2, e2);
      }
      KidsComplete(gen, fs[1..], uvars, k2, m2, e, ds);
    }
  }

  // ---------- skolem with its frames ----------

  /** Resume a node with the result for its last argument taken; Cleanup leaves a universal scope. */
  datatype Frames = Bottom | Cleanup(below: Frames) | Resume(node: Formula, child: nat, below: Frames)

  /** A node whose arguments up to `child` are done, r being the last of them, and the others gs. */
  function Rebuilt(node: Formula, child: nat, r: Formula, gs: seq<Formula>): Formula {
    if node.All? then All(node.v, r)
    else if node.Leaf() || child < 1 || child > |node.kids| then r
    else if node.And? then And(node.kids[..child - 1] + [r] + gs) else Or(node.kids[..child - 1] + [r] + gs)
  }

  /** Overwrite one argument. */
  function WithArgument(node: Formula, child: nat, r: Formula): Formula
    requires node.All? || (!node.Leaf() && 1 <= child <= |node.kids|)
  {
    if node.All? then All(node.v, r)
    else if node.And? then And(node.kids[child - 1 := r]) else Or(node.kids[child - 1 := r])
  }

  ghost function Pending(s: Frames): seq<Formula>
    requires s.Resume?
  {
    if s.node.Leaf() || s.child > |s.node.kids| then [] else s.node.kids[s.child..]
  }

  /** The outcome when the formula under way turns into r. */
  ghost function Outcome(gen: Generator, s: Frames, uvars: seq<nat>, r: Formula, k: nat): (Formula, nat) {
    match s
    case Bottom => (r, k)
    case Cleanup(below) => if |uvars| > 0 then Outcome(gen, below, uvars[..|uvars| - 1], r, k) else (r, k)
    case Resume(node, child, below) =>
      var (gs, k2) := SkolemizeAll(gen, Pending(s), uvars, k);
      Outcome(gen, below, uvars, Rebuilt(node, child, r, gs), k2)
  }

  ghost predicate WellFramed(s: Frames, uvars: seq<nat>) {
    match s
    case Bottom => true
    case Cleanup(below) => |uvars| > 0 && WellFramed(below, uvars[..|uvars| - 1])
    case Resume(node, child, below) =>
      (node.All? || (!node.Leaf() && 1 <= child <= |node.kids|)) && WellFramed(below, uvars)
  }

  ghost function Ahead(s: Frames): nat {
    match s
    case Bottom => 0
    case Cleanup(below) => Ahead(below)
    case Resume(_, _, below) => HeightAll(Pending(s)) + Ahead(below)
  }

  /** Entering a node. */
  lemma {:induction false} EnterNode(gen: Generator, s: Frames, uvars: seq<nat>, cur: Formula, k: nat)
    requires !cur.Leaf() && |cur.kids| > 0
    ensures var (g, k2) := Skolemize(gen, cur, uvars, k);
            var (h, k3) := Skolemize(gen, cur.kids[0], uvars, k);
            Outcome(gen, Resume(cur, 1, s), uvars, h, k3) == Outcome(gen, s, uvars, g, k2)
    ensures Height(cur.kids[0]) + Ahead(Resume(cur, 1, s)) < Height(cur) + Ahead(s)
  {
    var (h, k3) := Skolemize(gen, cur.kids[0], uvars, k);
    var (gs, k2) := SkolemizeAll(gen, cur.kids[1..], uvars, k3);
    assert cur.kids[..0] + [h] + gs == [h] + gs;
  }

  lemma {:induction false} EnterAll(gen: Generator, s: Frames, uvars: seq<nat>, cur: Formula, k: nat)
    requires cur.All?
    ensures var (g, k2) := Skolemize(gen, cur, uvars, k);
            var n, c := ScopeName(gen, cur.v, uvars), ScopeBody(gen, cur.v, cur.body, uvars);
            var (h, k3) := Skolemize(gen, c, uvars + [n], k);
            && Outcome(gen, Resume(All(n, c), 1, Cleanup(s)), uvars + [n], h, k3) == Outcome(gen, s, uvars, g, k2)
            && (WellFramed(s, uvars) ==> WellFramed(Resume(All(n, c), 1, Cleanup(s)), uvars + [n]))
            && Height(c) + Ahead(Resume(All(n, c), 1, Cleanup(s))) < Height(cur) + Ahead(s)
  {
    var n := ScopeName(gen, cur.v, uvars);
    SubstHeight(cur.body, cur.v, Var(n));
    assert (uvars + [n])[..|uvars|] == uvars;
  }

  lemma {:induction false} EnterExists(cur: Formula, t: Term)
    requires cur.Exists?
    ensures Height(SubstFree(cur.body, cur.v, t)) < Height(cur)
  {
    SubstHeight(cur.body, cur.v, t);
  }

  /** An argument is done: on to the next one, or up. */
  lemma {:induction false} NextArgument(gen: Generator, s: Frames, uvars: seq<nat>, r: Formula, k: nat)
    requires s.Resume? && !s.node.Leaf() && 1 <= s.child < |s.node.kids|
    ensures var node := WithArgument(s.node, s.child, r);
            var (h, k2) := Skolemize(gen, s.node.kids[s.child], uvars, k);
            Outcome(gen, Resume(node, s.child + 1, s.below), uvars, h, k2) == Outcome(gen, s, uvars, r, k) &&
            Height(s.node.kids[s.child]) + Ahead(Resume(node, s.child + 1, s.below)) == Ahead(s)
  {
    var kids, c := s.node.kids, s.child;
    var ks := kids[c - 1 := r];
    var (h, k2) := Skolemize(gen, kids[c], uvars, k);
    var (gs, k3) := SkolemizeAll(gen, kids[c + 1..], uvars, k2);
    assert kids[c..][0] == kids[c] && kids[c..][1..] == kids[c + 1..] == ks[c + 1..];
    assert kids[..c - 1] + [r] + ([h] + gs) == ks[..c] + [h] + gs;
  }

  lemma {:induction false} LastArgument(gen: Generator, s: Frames, uvars: seq<nat>, r: Formula, k: nat)
    requires s.Resume? && (s.node.All? || (!s.node.Leaf() && s.child == |s.node.kids| > 0))
    ensures Outcome(gen, s.below, uvars, WithArgument(s.node, s.child, r), k) == Outcome(gen, s, uvars, r, k) &&
              Ahead(s.below) == Ahead(s)
  {
    assert Pending(s) == [];
    if !s.node.All? { assert s.node.kids[..s.child - 1] + [r] + [] == s.node.kids[s.child - 1 := r]; }
  }

  /** skolem: the same result with an explicit stack and one list of universal variables. */
  method SkolemLoop(gen: Generator, f: Formula, k0: nat) returns (result: Formula, k: nat)
    ensures (result, k) == Skolemize(gen, f, [], k0)
    ensures Bare(result) == Bare(f) && k == k0 + Existentials(f) && (Nnf(f) ==> NoExists(result))
  {
    SkolemRemoves(gen, f, [], k0);
    var stack, cur, uvars: seq<nat> := Bottom, f, [];
    k := k0;
    while true
      invariant WellFramed(stack, uvars)
      invariant Outcome(gen, stack, uvars, Skolemize(gen, cur, uvars, k).0, Skolemize(gen, cur, uvars, k).1) ==
                Skolemize(gen, f, [], k0)
      decreases Height(cur) + Ahead(stack)
    {
      if cur.All? {
        EnterAll(gen, stack, uvars, cur, k);
        if cur.v in uvars {
          var n := Fresh(0, InUse(uvars), gen);
          cur := All(n, SubstFree(cur.body, cur.v, Var(n)));
        }
        stack, uvars, cur := Resume(cur, 1, Cleanup(stack)), uvars + [cur.v], cur.body;
      } else if cur.Exists? {
        var sk := App(k, Names(uvars));
        EnterExists(cur, sk);
        cur, k := SubstFree(cur.body, cur.v, sk), k + 1;
      } else if !cur.Leaf() && |cur.kids| > 0 {
        EnterNode(gen, stack, uvars, cur, k);
        stack, cur := Resume(cur, 1, stack), cur.kids[0];
      } else {
        result := cur;
        ghost var ahead := Ahead(stack);
        while stack.Cleanup? || (stack.Resume? && (stack.node.All? || stack.child == |stack.node.kids|))
          invariant WellFramed(stack, uvars) && Ahead(stack) == ahead
          invariant Outcome(gen, stack, uvars, result, k) == Skolemize(gen, f, [], k0)
          decreases stack
        {
          if stack.Cleanup? {
            uvars, stack := uvars[..|uvars| - 1], stack.below;
          } else {
            LastArgument(gen, stack, uvars, result, k);
            result := WithArgument(stack.node, stack.child, result);
            stack := stack.below;
          }
        }
        if stack.Bottom? { return; }
        NextArgument(gen, stack, uvars, result, k);
        cur := stack.node.kids[stack.child];
        stack := Resume(WithArgument(stack.node, stack.child, result), stack.child + 1, stack.below);
      }
    }
  }

  // ---------- Names ----------

  /** No two quantifiers of f bind the same name. */
  ghost predicate Unique(f: Formula) {
    match f
    case Atom(_, _) => true
    case Not(g) => Unique(g)
    case And(kids) => UniqueAll(kids)
    case Or(kids) => UniqueAll(kids)
    case All(v, b) => !Binds(b, v) && Unique(b)
    case Exists(v, b) => !Binds(b, v) && Unique(b)
  }

  ghost predicate UniqueAll(fs: seq<Formula>) {
    (forall i | 0 <= i < |fs| :: Unique(fs[i])) &&
    forall i, j, n: nat | 0 <= i < j < |fs| :: !(Binds(fs[i], n) && Binds(fs[j], n))
  }

  /** With unique names nothing is renamed and Skolem terms are never captured. */
  lemma {:induction false} UniqueIsClean(gen: Generator, f: Formula, uvars: seq<nat>)
    requires Unique(f) && BindsNone(f, uvars)
    ensures Clean(gen, f, uvars)
  {
    match f
    case Atom(_, _) =>
    case Not(_) =>
    case And(kids) =>
      forall i | 0 <= i < |kids| ensures Clean(gen, kids[i], uvars) { UniqueIsClean(gen, kids[i], uvars); }
    case Or(kids) =>
      forall i | 0 <= i < |kids| ensures Clean(gen, kids[i], uvars) { UniqueIsClean(gen, kids[i], uvars); }
    case All(v, b) => UniqueIsClean(gen, b, uvars + [v]);
    case Exists(v, b) => UniqueIsClean(gen, b, uvars);
  }

  /** No quantifier in the scope of an existential one binds a universal variable in whose scope
      that stands; vs are the universal variables around f. */
  ghost predicate NoCapturing(f: Formula, vs: set<nat>) {
    match f
    case Atom(_, _) => true
    case Not(_) => true
    case And(kids) => forall i | 0 <= i < |kids| :: NoCapturing(kids[i], vs)
    case Or(kids) => forall i | 0 <= i < |kids| :: NoCapturing(kids[i], vs)
    case All(v, b) => NoCapturing(b, vs + {v})
    case Exists(v, b) => (forall u | u in vs :: !Binds(b, u)) && NoCapturing(b, vs)
  }

  /** No name that can be generated occurs in f. */
  ghost predicate NotGenerated(gen: Generator, f: Formula) {
    forall i: nat :: !Mentions(f, gen(i))
  }

  /** Every universal variable in use has its own name or a generated one. */
  ghost predicate NamedFrom(gen: Generator, uvars: seq<nat>, vs: set<nat>) {
    forall u | u in uvars :: u in vs || exists i: nat :: u == gen(i)
  }

  /** Universal variables that are bound again are harmless: they are renamed. */
  lemma {:induction false} RebindingIsClean(gen: Generator, f: Formula, uvars: seq<nat>, vs: set<nat>)
    requires Injective(gen) && NotGenerated(gen, f) && NoCapturing(f, vs) && NamedFrom(gen, uvars, vs)
    ensures Clean(gen, f, uvars)
  {
    match f
    case Atom(_, _) =>
    case Not(_) =>
    case And(kids) =>
      forall i | 0 <= i < |kids| ensures Clean(gen, kids[i], uvars) { RebindingIsClean(gen, kids[i], uvars, vs); }
    case Or(kids) =>
      forall i | 0 <= i < |kids| ensures Clean(gen, kids[i], uvars) { RebindingIsClean(gen, kids[i], uvars, vs); }
    case All(v, b) =>
      var n := ScopeName(gen, v, uvars);
      NewScopeName(gen, v, uvars);
      assert NotGenerated(gen, b) by {
        forall i: nat ensures !Mentions(b, gen(i)) { assert Mentions(b, gen(i)) ==> Mentions(f, gen(i)); }
      }
      RebindingIsClean(gen, b, uvars + [n], vs + {v});
    case Exists(v, b) =>
      assert NotGenerated(gen, b) by {
        forall i: nat ensures !Mentions(b, gen(i)) { assert Mentions(b, gen(i)) ==> Mentions(f, gen(i)); }
      }
      RebindingIsClean(gen, b, uvars, vs);
      forall u | u in uvars ensures !Binds(b, u) {
        if u !in vs {
          var i: nat :| u == gen(i);
          NotMentioned(b, gen(i));
        }
      }
  }

  /** A structure satisfies a clean sentence, with some reading of its Skolem symbols, exactly when
      it satisfies the sentence. */
  lemma {:induction false} CleanTheorem<D(!new)>(gen: Generator, f: Formula, k: nat, m: Structure<D>, e: Env<D>)
    requires Injective(gen) && Clean(gen, f, []) && FunsBelow(f, k) && NamesBelow(gen, Height(f), k)
    ensures SameFunsBelow(m, Reinterpret(gen, f, [], k, m, e), k)
    ensures Holds(f, m, e) ==> Holds(Skolemize(gen, f, [], k).0, Reinterpret(gen, f, [], k, m, e), e)
    ensures forall m2: Structure<D> | SameFunsBelow(m, m2, k) ::
              Holds(Skolemize(gen, f, [], k).0, m2, e) ==> Holds(f, m, e)
  {
    ReinterpretKeeps(gen, f, [], k, m, e);
    if Holds(f, m, e) { SkolemCompleteAt(gen, f, [], k, m, e, []); }
    forall m2: Structure<D> | SameFunsBelow(m, m2, k) && Holds(Skolemize(gen, f, [], k).0, m2, e)
      ensures Holds(f, m, e)
    {
      SkolemSound(gen, f, [], k, m2, e);
      HoldsSameFuns(f, k, m, m2, e);
    }
  }

  /** So for uniquely named sentences, and for all in which no existential scope binds a universal
      variable around it and no generated name occurs. */
  lemma {:induction false} SkolemTheorem<D(!new)>(gen: Generator, f: Formula, k: nat, m: Structure<D>, e: Env<D>)
    requires Unique(f) || (NoCapturing(f, {}) && NotGenerated(gen, f))
    requires Injective(gen) && FunsBelow(f, k) && NamesBelow(gen, Height(f), k)
    ensures SameFunsBelow(m, Reinterpret(gen, f, [], k, m, e), k)
    ensures Holds(f, m, e) ==> Holds(Skolemize(gen, f, [], k).0, Reinterpret(gen, f, [], k, m, e), e)
    ensures forall m2: Structure<D> | SameFunsBelow(m, m2, k) ::
              Holds(Skolemize(gen, f, [], k).0, m2, e) ==> Holds(f, m, e)
    ensures Nnf(f) ==> NoExists(Skolemize(gen, f, [], k).0)
  {
    SkolemRemoves(gen, f, [], k);
    if Unique(f) { UniqueIsClean(gen, f, []); } else { RebindingIsClean(gen, f, [], {}); }
    CleanTheorem(gen, f, k, m, e);
  }
}

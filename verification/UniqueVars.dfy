/** Making bound names unique (unique_qvars, ladr/cnf.c:1038-1100; gen_new_symbol, ladr/symbols.c:2834-2854),
    and what goes wrong without it. */
module UniqueVars {
  import opened Terms
  import opened Formulas
  import opened Structures
  import opened Substitution
  import opened Skolem

  /** Rename quantified variables already in use; the arguments of a connective are visited last to
      first, and the list of names in use only grows. */
  function Uniquify(f: Formula, used: set<nat>, gen: Generator): (Formula, set<nat>)
    decreases Height(f), 0
  {
    match f
    case Atom(_, _) => (f, used)
    case Not(g) => var (h, u) := Uniquify(g, used, gen); (Not(h), u)
    case And(kids) => var (gs, u) := UniquifyAll(kids, used, gen); (And(gs), u)
    case Or(kids) => var (gs, u) := UniquifyAll(kids, used, gen); (Or(gs), u)
    case All(v, b) =>
      var n, c := NewName(v, used, gen), NewBody(v, b, used, gen);
      SubstHeight(b, v, Var(n));
      var (h, u) := Uniquify(c, used + {n}, gen);
      (All(n, h), u)
    case Exists(v, b) =>
      var n, c := NewName(v, used, gen), NewBody(v, b, used, gen);
      SubstHeight(b, v, Var(n));
      var (h, u) := Uniquify(c, used + {n}, gen);
      (Exists(n, h), u)
  }

  function NewName(v: nat, used: set<nat>, gen: Generator): nat {
    if v in used then Fresh(0, used, gen) else v
  }

  function NewBody(v: nat, b: Formula, used: set<nat>, gen: Generator): Formula {
    if v in used then SubstFree(b, v, Var(Fresh(0, used, gen))) else b
  }

  function UniquifyAll(fs: seq<Formula>, used: set<nat>, gen: Generator): (r: (seq<Formula>, set<nat>))
    ensures |r.0| == |fs|
    decreases HeightAll(fs), 1
  {
    if |fs| == 0 then ([], used) else
      LastHeight(fs);
      var (h, u) := Uniquify(fs[|fs| - 1], used, gen);
      var (gs, u2) := UniquifyAll(fs[..|fs| - 1], u, gen);
      (gs + [h], u2)
  }

  lemma {:induction false} LastHeight(fs: seq<Formula>)
    requires |fs| > 0
    ensures HeightAll(fs) == HeightAll(fs[..|fs| - 1]) + Height(fs[|fs| - 1])
  {
    var n := |fs| - 1;
    if n == 0 {
      assert fs[1..] == [] && fs[..0] == [];
    } else {
      LastHeight(fs[1..]);
      assert fs[1..][..n - 1] == fs[..n][1..];
    }
  }

  // ---------- The names become unique ----------

  ghost predicate NewNames(g: Formula, used: set<nat>, used2: set<nat>) {
    Unique(g) && forall n | Binds(g, n) :: n !in used && n in used2
  }

  lemma {:induction false} UniquifyUnique(f: Formula, used: set<nat>, gen: Generator)
    requires Injective(gen)
    ensures var (g, u) := Uniquify(f, used, gen); used <= u && NewNames(g, used, u)
    decreases Height(f), 0
  {
    match f
    case Atom(_, _) =>
    case Not(g) => UniquifyUnique(g, used, gen);
    case And(kids) => UniquifyUniqueAll(kids, used, gen);
    case Or(kids) => UniquifyUniqueAll(kids, used, gen);
    case All(v, b) => QuantifierUnique(f, used, gen);
    case Exists(v, b) => QuantifierUnique(f, used, gen);
  }

  lemma {:induction false} QuantifierUnique(f: Formula, used: set<nat>, gen: Generator)
    requires Injective(gen) && (f.All? || f.Exists?)
    ensures var (g, u) := Uniquify(f, used, gen); used <= u && NewNames(g, used, u)
    decreases Height(f.body), 2
  {
    var n, c := NewName(f.v, used, gen), NewBody(f.v, f.body, used, gen);
    var j := FreshIsNew(0, used, gen);
    SubstHeight(f.body, f.v, Var(n));
    UniquifyUnique(c, used + {n}, gen);
  }

  lemma {:induction false} UniquifyUniqueAll(fs: seq<Formula>, used: set<nat>, gen: Generator)
    requires Injective(gen)
    ensures var (gs, u) := UniquifyAll(fs, used, gen);
            used <= u && UniqueAll(gs) && forall i, n | 0 <= i < |gs| && Binds(gs[i], n) :: n !in used && n in u
    decreases HeightAll(fs), 1
  {
    if |fs| > 0 {
      LastHeight(fs);
      var k := |fs| - 1;
      var (h, u) := Uniquify(fs[k], used, gen);
      UniquifyUnique(fs[k], used, gen);
      UniquifyUniqueAll(fs[..k], u, gen);
      var (gs, u2) := UniquifyAll(fs[..k], u, gen);
      assert forall i | 0 <= i <= k :: (gs + [h])[i] == if i < k then gs[i] else h;
    }
  }

  // ---------- Nothing else is renamed ----------

  /** The list grows by exactly the names bound in the result. */
  lemma {:induction false} UsedExactly(f: Formula, used: set<nat>, gen: Generator)
    ensures var (g, u) := Uniquify(f, used, gen); forall n: nat :: n in u <==> n in used || Binds(g, n)
    decreases Height(f), 0
  {
    match f
    case Atom(_, _) =>
    case Not(g) => UsedExactly(g, used, gen);
    case And(kids) => UsedExactlyAll(kids, used, gen);
    case Or(kids) => UsedExactlyAll(kids, used, gen);
    case All(v, b) =>
      SubstHeight(b, v, Var(NewName(v, used, gen)));
      UsedExactly(NewBody(v, b, used, gen), used + {NewName(v, used, gen)}, gen);
    case Exists(v, b) =>
      SubstHeight(b, v, Var(NewName(v, used, gen)));
      UsedExactly(NewBody(v, b, used, gen), used + {NewName(v, used, gen)}, gen);
  }

  ghost predicate SomeBinds(fs: seq<Formula>, n: nat) {
    exists i :: 0 <= i < |fs| && Binds(fs[i], n)
  }

  lemma {:induction false} SomeBindsLast(fs: seq<Formula>, n: nat)
    requires |fs| > 0
    ensures SomeBinds(fs, n) <==> SomeBinds(fs[..|fs| - 1], n) || Binds(fs[|fs| - 1], n)
  {
    var k := |fs| - 1;
    if i :| 0 <= i < |fs| && Binds(fs[i], n) { assert i < k ==> fs[..k][i] == fs[i]; }
    if i :| 0 <= i < k && Binds(fs[..k][i], n) { assert fs[..k][i] == fs[i]; }
  }

  lemma {:induction false} UsedExactlyAll(fs: seq<Formula>, used: set<nat>, gen: Generator)
    ensures var (gs, u) := UniquifyAll(fs, used, gen); forall n: nat :: n in u <==> n in used || SomeBinds(gs, n)
    decreases HeightAll(fs), 1
  {
    if |fs| > 0 {
      LastHeight(fs);
      var k := |fs| - 1;
      var (h, u) := Uniquify(fs[k], used, gen);
      var (gs, u2) := UniquifyAll(fs[..k], u, gen);
      UsedExactly(fs[k], used, gen);
      UsedExactlyAll(fs[..k], u, gen);
      var all := gs + [h];
      assert |gs| == k && all[..k] == gs && all[k] == h;
      forall n: nat ensures n in u2 <==> n in used || SomeBinds(all, n) {
        SomeBindsLast(all, n);
        assert SomeBinds(all, n) <==> SomeBinds(gs, n) || Binds(h, n);
        assert n in u <==> n in used || Binds(h, n);
        assert n in u2 <==> n in u || SomeBinds(gs, n);
      }
      assert UniquifyAll(fs, used, gen) == (all, u2);
    }
  }

  /** A formula whose bound names are different from each other and from those in use stays as it is. */
  lemma {:induction false} UniquifyKeeps(f: Formula, used: set<nat>, gen: Generator)
    requires Unique(f) && forall n | n in used :: !Binds(f, n)
    ensures Uniquify(f, used, gen).0 == f
    decreases Height(f), 0
  {
    match f
    case Atom(_, _) =>
    case Not(g) => UniquifyKeeps(g, used, gen);
    case And(kids) => UniquifyKeepsAll(kids, used, gen);
    case Or(kids) => UniquifyKeepsAll(kids, used, gen);
    case All(v, b) => UniquifyKeeps(b, used + {v}, gen);
    case Exists(v, b) => UniquifyKeeps(b, used + {v}, gen);
  }

  lemma {:induction false} UniquifyKeepsAll(fs: seq<Formula>, used: set<nat>, gen: Generator)
    requires UniqueAll(fs) && forall n, i | n in used && 0 <= i < |fs| :: !Binds(fs[i], n)
    ensures UniquifyAll(fs, used, gen).0 == fs
    decreases HeightAll(fs), 1
  {
    if |fs| > 0 {
      LastHeight(fs);
      var k := |fs| - 1;
      var (h, u) := Uniquify(fs[k], used, gen);
      UniquifyKeeps(fs[k], used, gen);
      UsedExactly(fs[k], used, gen);
      forall n, i | n in u && 0 <= i < k ensures !Binds(fs[..k][i], n) { assert fs[..k][i] == fs[i]; }
      assert UniqueAll(fs[..k]);
      UniquifyKeepsAll(fs[..k], u, gen);
      assert fs[..k] + [fs[k]] == fs;
    }
  }

  // ---------- The meaning is kept when generated names are new ----------

  /** Generated names that occur are already in the list. */
  ghost predicate GeneratedKnown(f: Formula, used: set<nat>, gen: Generator) {
    forall i: nat | Mentions(f, gen(i)) :: gen(i) in used
  }

  /** Each name chosen does not occur in the scope where it is put. */
  ghost predicate Spared(f: Formula, used: set<nat>, gen: Generator)
    decreases Height(f), 0
  {
    match f
    case Atom(_, _) => true
    case Not(g) => Spared(g, used, gen)
    case And(kids) => SparedAll(kids, used, gen)
    case Or(kids) => SparedAll(kids, used, gen)
    case All(v, b) =>
      SubstHeight(b, v, Var(NewName(v, used, gen)));
      SparedScope(v, b, used, gen) && Spared(NewBody(v, b, used, gen), used + {NewName(v, used, gen)}, gen)
    case Exists(v, b) =>
      SubstHeight(b, v, Var(NewName(v, used, gen)));
      SparedScope(v, b, used, gen) && Spared(NewBody(v, b, used, gen), used + {NewName(v, used, gen)}, gen)
  }

  ghost predicate SparedScope(v: nat, b: Formula, used: set<nat>, gen: Generator) {
    v in used ==> !Mentions(b, NewName(v, used, gen))
  }

  ghost predicate SparedAll(fs: seq<Formula>, used: set<nat>, gen: Generator)
    decreases HeightAll(fs), 1
  {
    if |fs| == 0 then true else
      LastHeight(fs);
      var k := |fs| - 1;
      Spared(fs[k], used, gen) && SparedAll(fs[..k], Uniquify(fs[k], used, gen).1, gen)
  }

  /** So it is where all generated names that occur are in the list. */
  lemma {:induction false} KnownSpared(f: Formula, used: set<nat>, gen: Generator)
    requires Injective(gen) && GeneratedKnown(f, used, gen)
    ensures Spared(f, used, gen)
    decreases Height(f), 0
  {
    match f
    case Atom(_, _) =>
    case Not(g) => KnownSpared(g, used, gen);
    case And(kids) => KnownSparedAll(kids, used, gen);
    case Or(kids) => KnownSparedAll(kids, used, gen);
    case All(v, b) => KnownSparedScope(f, used, gen);
    case Exists(v, b) => KnownSparedScope(f, used, gen);
  }

  lemma {:induction false} KnownSparedScope(f: Formula, used: set<nat>, gen: Generator)
    requires Injective(gen) && (f.All? || f.Exists?) && GeneratedKnown(f, used, gen)
    ensures Spared(f, used, gen)
    decreases Height(f.body), 2
  {
    var n := NewName(f.v, used, gen);
    BodyKnown(f, used, gen);
    SubstHeight(f.body, f.v, Var(n));
    KnownSpared(NewBody(f.v, f.body, used, gen), used + {n}, gen);
  }

  lemma {:induction false} KnownSparedAll(fs: seq<Formula>, used: set<nat>, gen: Generator)
    requires Injective(gen) && forall i | 0 <= i < |fs| :: GeneratedKnown(fs[i], used, gen)
    ensures SparedAll(fs, used, gen)
    decreases HeightAll(fs), 1
  {
    if |fs| > 0 {
      LastHeight(fs);
      var k := |fs| - 1;
      KnownSpared(fs[k], used, gen);
      UniquifyUnique(fs[k], used, gen);
      KnownSparedAll(fs[..k], Uniquify(fs[k], used, gen).1, gen);
    }
  }

  lemma {:induction false} BodyKnown(f: Formula, used: set<nat>, gen: Generator)
    requires Injective(gen) && (f.All? || f.Exists?) && GeneratedKnown(f, used, gen)
    ensures var n := NewName(f.v, used, gen);
            (f.v in used ==> !Mentions(f.body, n)) && GeneratedKnown(NewBody(f.v, f.body, used, gen), used + {n}, gen)
  {
    var n := NewName(f.v, used, gen);
    var j := FreshIsNew(0, used, gen);
    forall i: nat | Mentions(NewBody(f.v, f.body, used, gen), gen(i)) ensures gen(i) in used + {n} {
      if f.v in used { SubstMentions(f.body, f.v, Var(n), gen(i)); }
      assert gen(i) == n || Mentions(f, gen(i));
    }
    assert Mentions(f.body, gen(j)) ==> Mentions(f, gen(j));
  }

  lemma {:induction false} UniquifyHolds<D(!new)>(
    f: Formula, used: set<nat>, gen: Generator, m: Structure<D>, e: Env<D>)
    requires Spared(f, used, gen)
    ensures Holds(Uniquify(f, used, gen).0, m, e) <==> Holds(f, m, e)
    decreases Height(f), 0
  {
    match f
    case Atom(_, _) =>
    case Not(g) => UniquifyHolds(g, used, gen, m, e);
    case And(kids) => UniquifyHoldsAll(kids, used, gen, m, e);
    case Or(kids) => UniquifyHoldsAll(kids, used, gen, m, e);
    case All(v, b) => QuantifierHolds(f, used, gen, m, e);
    case Exists(v, b) => QuantifierHolds(f, used, gen, m, e);
  }

  lemma {:induction false} QuantifierHolds<D(!new)>(
    f: Formula, used: set<nat>, gen: Generator, m: Structure<D>, e: Env<D>)
    requires (f.All? || f.Exists?) && Spared(f, used, gen)
    ensures Holds(Uniquify(f, used, gen).0, m, e) <==> Holds(f, m, e)
    decreases Height(f.body), 2
  {
    var n, c := NewName(f.v, used, gen), NewBody(f.v, f.body, used, gen);
    var h := Uniquify(c, used + {n}, gen).0;
    SubstHeight(f.body, f.v, Var(n));
    forall d: D ensures HoldsAt(h, m, e, n, d) <==> HoldsAt(f.body, m, e, f.v, d) {
      UniquifyHolds(c, used + {n}, gen, m, e[n := d]);
      if f.v in used { RenameHolds(f.body, f.v, n, m, e, d); }
    }
    match f
    case All(v, b) => Bodies(b, v, h, n, m, e);
    case Exists(v, b) => Bodies(b, v, h, n, m, e);
  }

  lemma {:induction false} UniquifyHoldsAll<D(!new)>(
    fs: seq<Formula>, used: set<nat>, gen: Generator, m: Structure<D>, e: Env<D>)
    requires SparedAll(fs, used, gen)
    ensures forall i | 0 <= i < |fs| :: Holds(UniquifyAll(fs, used, gen).0[i], m, e) <==> Holds(fs[i], m, e)
    decreases HeightAll(fs), 1
  {
    if |fs| > 0 {
      LastHeight(fs);
      var k := |fs| - 1;
      var (h, u) := Uniquify(fs[k], used, gen);
      UniquifyHolds(fs[k], used, gen, m, e);
      UniquifyHoldsAll(fs[..k], u, gen, m, e);
      var gs := UniquifyAll(fs[..k], u, gen).0;
      assert forall i | 0 <= i <= k :: (gs + [h])[i] == if i < k then gs[i] else h;
    }
  }

  // ---------- Where it fails ----------

  /** The booleans with equality as predicate 0, and functions that return their first argument. */
  ghost function Bits(): Structure<bool> {
    Structure((g: nat, ds: seq<bool>) => |ds| > 0 && ds[0], (p: nat, ds: seq<bool>) => |ds| == 2 ==> ds[0] == ds[1])
  }

  lemma {:induction false} Equality(s: Term, t: Term, e: Env<bool>)
    ensures Holds(Atom(0, [s, t]), Bits(), e) <==> Value(s, Bits(), e) == Value(t, Bits(), e)
  {
    var ds := Values([s, t], Bits(), e);
    assert ds[0] == Value([s, t][0], Bits(), e) && ds[1] == Value([s, t][1], Bits(), e);
  }

  lemma {:induction false} Pair(a: Term, b: Term, s: Subst)
    ensures VarsAll([a, b]) == Vars(a) + Vars(b)
    ensures ApplyAll([a, b], s) == [Apply(a, s), Apply(b, s)]
  {
    var one, none: seq<Term> := [b], [];
    assert [a, b][1..] == one && one[1..] == none;
    assert VarsAll(one) == Vars(b) + VarsAll(none) && VarsAll([a, b]) == Vars(a) + VarsAll(one);
    assert ApplyAll(one, s) == [Apply(b, s)] + ApplyAll(none, s) &&
        ApplyAll([a, b], s) == [Apply(a, s)] + ApplyAll(one, s);
  }

  ghost function TwoScopes(v: nat, c: nat): Formula {
    And([All(v, Atom(0, [Var(v), Var(c)])), All(v, Atom(1, [Var(v)]))])
  }

  lemma {:induction false} NotSpared<D(!new)>(f: Formula, used: set<nat>, gen: Generator, m: Structure<D>, e: Env<D>)
    requires Holds(Uniquify(f, used, gen).0, m, e) && !Holds(f, m, e)
    ensures !Spared(f, used, gen)
  {
    if Spared(f, used, gen) { UniquifyHolds(f, used, gen, m, e); }
  }

  /** A constant that looks like a generated name is captured: for all v, v = c becomes
      for all c, c = c when another quantifier uses v. */
  lemma {:induction false} GeneratedNameCaptured(v: nat, gen: Generator)
    requires Injective(gen) && v != gen(0)
    ensures var f := TwoScopes(v, gen(0));
            var g := Uniquify(f, {}, gen).0;
            !Spared(f, {}, gen) && Holds(g, Bits(), map[]) && !Holds(f, Bits(), map[])
  {
    var c := gen(0);
    var a, b := All(v, Atom(0, [Var(v), Var(c)])), All(v, Atom(1, [Var(v)]));
    var f := TwoScopes(v, c);
    LastIsB(a, b, gen);
    var a2 := All(c, Atom(0, [Var(c), Var(c)]));
    RenamedA(v, gen);
    assert Uniquify(f, {}, gen).0 == And([a2, b]);
    Equality(Var(v), Var(c), map[v := !Bits().fun(c, [])]);
    assert !HoldsAt(a.body, Bits(), map[], v, !Bits().fun(c, []));
    forall d: bool ensures HoldsAt(a2.body, Bits(), map[], c, d) { Equality(Var(c), Var(c), map[c := d]); }
    forall d: bool ensures HoldsAt(b.body, Bits(), map[], v, d) {}
    var two := [a2, b];
    assert two[0] == a2 && two[1] == b;
    NotSpared(f, {}, gen, Bits(), map[]);
  }

  lemma {:induction false} LastIsB(a: Formula, b: Formula, gen: Generator)
    requires b.All? && b.body.Atom?
    ensures UniquifyAll([a, b], {}, gen).0 == [Uniquify(a, {b.v}, gen).0, b]
  {
    var fs := [a, b];
    assert fs[..1] == [a] && [a][..0] == [];
    assert Uniquify(b, {}, gen) == (b, {b.v}) by { assert {} + {b.v} == {b.v}; }
    assert UniquifyAll([a], {b.v}, gen).0 == [] + [Uniquify(a, {b.v}, gen).0];
  }

  lemma {:induction false} RenamedA(v: nat, gen: Generator)
    requires v != gen(0)
    ensures Uniquify(All(v, Atom(0, [Var(v), Var(gen(0))])), {v}, gen).0 ==
              All(gen(0), Atom(0, [Var(gen(0)), Var(gen(0))]))
  {
    var c := gen(0);
    var s := map[v := Var(c)];
    Pair(Var(v), Var(c), s);
  }

  lemma {:induction false} NoneExists<D(!new)>(b: Formula, v: nat, m: Structure<D>, e: Env<D>)
    requires forall d: D :: !HoldsAt(b, m, e, v, d)
    ensures !Holds(Exists(v, b), m, e)
  {
  }

  ghost function Rebound(x: nat, y: nat): Formula {
    All(x, Exists(y, All(x, Atom(0, [Var(x), Var(y)]))))
  }

  /** Where an existential scope binds a universal variable around it, its Skolem term is captured:
      for all x some y equals every x is false of the booleans.  The inner x is renamed, but only
      after sk(x) has been put into its scope; for all x and n, n = sk(n) has a model there. */
  lemma {:induction false} RebindingUnsound(gen: Generator, x: nat, y: nat, k: nat)
    requires x != y && Injective(gen)
    ensures var f, n := Rebound(x, y), ScopeName(gen, x, [x]);
            && !NoCapturing(f, {}) && Skolemize(gen, f, [], k).0 == All(x, All(n, Atom(0, [Var(n), App(k, [Var(n)])])))
            && Holds(Skolemize(gen, f, [], k).0, Bits(), map[]) && !Holds(f, Bits(), map[])
  {
    var f, n := Rebound(x, y), ScopeName(gen, x, [x]);
    var inner, sk, sk2 := f.body.body, App(k, [Var(x)]), App(k, [Var(n)]);
    var captured, out := All(x, Atom(0, [Var(x), sk])), All(n, Atom(0, [Var(n), sk2]));
    assert [] + [x] == [x] && Names([x]) == [Var(x)];
    Pair(Var(x), Var(y), map[y := sk]);
    assert SubstFree(inner, y, sk) == captured;
    Pair(Var(x), sk, map[x := Var(n)]);
    assert ApplyAll([Var(x)], map[x := Var(n)]) == [Var(n)];
    assert ScopeBody(gen, x, captured.body, [x]) == out.body;
    assert Skolemize(gen, captured, [x], k + 1).0 == out;
    assert Skolemize(gen, f, [], k).0 == All(x, out);
    forall a: bool, b: bool ensures HoldsAt(out.body, Bits(), map[x := a], n, b) {
      var e := map[x := a][n := b];
      Equality(Var(n), sk2, e);
      assert Values([Var(n)], Bits(), e)[0] == Value([Var(n)][0], Bits(), e);
    }
    forall a: bool ensures HoldsAt(out, Bits(), map[], x, a) {
      assert map[][x := a] == map[x := a];
    }
    forall b: bool ensures !HoldsAt(inner, Bits(), map[x := true], y, b) {
      var e := map[x := true][y := b];
      Equality(Var(x), Var(y), e[x := !b]);
      assert !HoldsAt(inner.body, Bits(), e, x, !b);
    }
    var none: Env<bool> := map[];
    assert none[x := true] == map[x := true];
    NoneExists(inner, y, Bits(), map[x := true]);
    assert !HoldsAt(f.body, Bits(), none, x, true);
    assert Binds(inner, x) && x in {} + {x};
    assert !NoCapturing(f.body, {} + {x});
  }
}

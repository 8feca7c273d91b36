/** Models of a formula and of its definitional normal form: when definitions can be read off a
    structure, and that they can be dropped again (the claim made at ladr/cnf.c:1389-1394). */
module Definitions {
  import opened Options
  import opened Terms
  import opened Formulas
  import opened Simplify
  import opened Distribute
  import opened Cnf
  import opened Structures
  import opened CnfDef

  ghost function Bind<D>(vars: seq<nat>, ds: seq<D>): Env<D>
    requires |vars| == |ds|
  {
    if |vars| == 0 then map[] else Bind(vars[1..], ds[1..])[vars[0] := ds[0]]
  }

  /** Interpret a definition predicate as the subformula it replaced. */
  ghost function ExtendOne<D(!new)>(m: Structure<D>, r: Record): Structure<D> {
    m.(rel := (p: nat, ds: seq<D>) => if p == r.sym && |ds| == |r.vars| then Holds(r.sub, m, Bind(r.vars, ds))
        else m.rel(p, ds))
  }

  /** In the order of introduction: later definitions may use earlier ones. */
  ghost function ExtendAll<D(!new)>(m: Structure<D>, records: seq<Record>): Structure<D>
    decreases |records|
  {
    if |records| == 0 then m else ExtendAll(ExtendOne(m, records[0]), records[1..])
  }

  lemma {:induction false} ExtendAgrees<D(!new)>(m: Structure<D>, records: seq<Record>, start: nat)
    requires RecordsOk(records, start, false)
    ensures SameRelsBelow(m, ExtendAll(m, records), start)
    decreases |records|
  {
    if |records| > 0 {
      var m2 := ExtendOne(m, records[0]);
      assert RecordOk(records[0], start + 0, false);
      TailOk(records, start, false);
      ExtendAgrees(m2, records[1..], start + 1);
    }
  }

  lemma {:induction false} TailOk(records: seq<Record>, start: nat, collected: bool)
    requires RecordsOk(records, start, collected) && |records| > 0
    ensures RecordsOk(records[1..], start + 1, collected)
  {
    forall i | 0 <= i < |records| - 1 ensures RecordOk(records[1..][i], start + 1 + i, collected) {
      assert RecordOk(records[i + 1], start + (i + 1), collected);
    }
  }

  lemma {:induction false} BindNames<D>(vars: seq<nat>, ds: seq<D>, m: Structure<D>, e: Env<D>, n: nat)
    requires |vars| == |ds| && n in vars && forall i | 0 <= i < |vars| :: ds[i] == Get(vars[i], m, e)
    ensures Get(n, m, Bind(vars, ds)) == Get(n, m, e)
  {
    if n != vars[0] { BindNames(vars[1..], ds[1..], m, e, n); }
  }

  // ---------- When a definition can be read off ----------

  ghost predicate AgreeOn<D>(vars: seq<nat>, m: Structure<D>, e: Env<D>, e2: Env<D>) {
    forall n | n in vars :: Get(n, m, e) == Get(n, m, e2)
  }

  /** The named subformula has the same value under all values of the variables that are not arguments of
      its name. */
  ghost predicate Determined<D(!new)>(m: Structure<D>, r: Record) {
    forall e: Env<D>, e2: Env<D> | AgreeOn(r.vars, m, e, e2) :: Holds(r.sub, m, e) <==> Holds(r.sub, m, e2)
  }

  /** In m2 the name has the value that the subformula has in m. */
  ghost predicate Defines<D(!new)>(m2: Structure<D>, m: Structure<D>, r: Record) {
    forall e: Env<D> :: Holds(r.DefAtom(), m2, e) <==> Holds(r.sub, m, e)
  }

  /** The definition atom, with its own variables, says what the subformula says. */
  lemma {:induction false} AtomMeansSub<D(!new)>(m: Structure<D>, r: Record, e: Env<D>)
    requires Determined(m, r)
    ensures Holds(r.DefAtom(), ExtendOne(m, r), e) <==> Holds(r.sub, m, e)
  {
    var m2 := ExtendOne(m, r);
    var names := r.DefAtom().args;
    ValuesSameFun(names, m, m2, e);
    var ds := Values(names, m, e);
    forall i | 0 <= i < |r.vars| ensures ds[i] == Get(r.vars[i], m, e) { assert names[i] == Var(r.vars[i]); }
    forall n | n in r.vars ensures Get(n, m, Bind(r.vars, ds)) == Get(n, m, e) { BindNames(r.vars, ds, m, e, n); }
    assert AgreeOn(r.vars, m, Bind(r.vars, ds), e);
  }

  lemma {:induction false} AtomAgrees<D(!new)>(m: Structure<D>, r: Record, e: Env<D>, e2: Env<D>)
    requires AgreeOn(r.vars, m, e, e2)
    ensures Holds(r.DefAtom(), m, e) <==> Holds(r.DefAtom(), m, e2)
  {
    var a := r.DefAtom();
    forall n: nat | Free(n, a) ensures Get(n, m, e) == Get(n, m, e2) { NamesVars(r.vars, a.args, n); }
    HoldsAgree(a, m, e, e2);
  }

  lemma {:induction false} ExtendOneAgrees<D(!new)>(m: Structure<D>, r: Record, sym: nat)
    requires r.sym == sym
    ensures SameRelsBelow(m, ExtendOne(m, r), sym)
  {
  }

  /** A definition can be added to a structure exactly if the subformula does not depend on variables that
      are not arguments of its name. */
  lemma {:induction false} DefinitionExists<D(!new)>(m: Structure<D>, r: Record, sym: nat)
    requires RecordOk(r, sym, false)
    ensures (exists m2: Structure<D> :: SameRelsBelow(m, m2, sym) && Defines(m2, m, r)) <==> Determined(m, r)
  {
    if m2: Structure<D> :| SameRelsBelow(m, m2, sym) && Defines(m2, m, r) {
      forall e: Env<D>, e2: Env<D> | AgreeOn(r.vars, m, e, e2) ensures Holds(r.sub, m, e) <==> Holds(r.sub, m, e2) {
        assert AgreeOn(r.vars, m2, e, e2);
        AtomAgrees(m2, r, e, e2);
      }
    }
    if Determined(m, r) {
      ExtendOneAgrees(m, r, sym);
      forall e: Env<D> ensures Holds(r.DefAtom(), ExtendOne(m, r), e) <==> Holds(r.sub, m, e) { AtomMeansSub(m, r, e); }
      assert Defines(ExtendOne(m, r), m, r);
    }
  }

  /** Each definition in turn can be added. */
  ghost predicate AllDetermined<D(!new)>(m: Structure<D>, records: seq<Record>)
    decreases |records|
  {
    |records| > 0 ==> Determined(m, records[0]) && AllDetermined(ExtendOne(m, records[0]), records[1..])
  }

  /** So it is where all variables are collected. */
  lemma {:induction false} CollectedDetermined<D(!new)>(m: Structure<D>, records: seq<Record>, start: nat)
    requires RecordsOk(records, start, true)
    ensures AllDetermined(m, records)
    decreases |records|
  {
    if |records| > 0 {
      var r := records[0];
      assert RecordOk(r, start + 0, true);
      forall e: Env<D>, e2: Env<D> | AgreeOn(r.vars, m, e, e2) ensures Holds(r.sub, m, e) <==> Holds(r.sub, m, e2) {
        HoldsAgree(r.sub, m, e, e2);
      }
      TailOk(records, start, true);
      CollectedDetermined(ExtendOne(m, r), records[1..], start + 1);
    }
  }

  /** All definitions hold in the extended structure. */
  lemma {:induction false} ExtendConsistent<D(!new)>(m: Structure<D>, records: seq<Record>, start: nat, e: Env<D>)
    requires RecordsOk(records, start, false) && AllDetermined(m, records)
    ensures Consistent(LeafTruth(ExtendAll(m, records), e), records)
    decreases |records|
  {
    if |records| > 0 {
      var r, m2, all := records[0], ExtendOne(m, records[0]), ExtendAll(m, records);
      var v := LeafTruth(all, e);
      assert RecordOk(r, start + 0, false);
      TailOk(records, start, false);
      ExtendConsistent(m2, records[1..], start + 1, e);
      ExtendAgrees(m2, records[1..], start + 1);
      AtomMeansSub(m, r, e);
      HoldsSameRels(r.DefAtom(), start + 1, m2, all, e);
      RelsGrow(r.sub, start, start + 1);
      HoldsSameRels(r.sub, start + 1, m2, all, e);
      HoldsSameRels(r.sub, start, m, m2, e);
      HoldsIsTruth(r.sub, all, e);
      assert v(r.DefAtom()) <==> Truth(r.sub, v);
      assert records == [r] + records[1..];
    }
  }

  /** Every model of the normal form and its definitions is a model of the formula. */
  lemma {:induction false} ModelOfBoth<D(!new)>(f: Formula, g: Formula, d: Defs, m: Structure<D>, e: Env<D>)
    requires StandsFor(g, f, d)
    requires Holds(g, m, e) && forall c | c in d.clauses :: Holds(c, m, e)
    ensures Holds(f, m, e)
  {
    var v := LeafTruth(m, e);
    HoldsIsTruth(g, m, e);
    HoldsIsTruth(f, m, e);
    forall c | c in d.clauses ensures Truth(c, v) { HoldsIsTruth(c, m, e); }
  }

  /** Where each definition can be added, the structure extends, on the fresh predicates only, to one where
      the definitions hold and the normal form says, for all values of the variables, what the formula says. */
  lemma {:induction false} DeterminedExtends<D(!new)>(f: Formula, g: Formula, d: Defs, start: nat, m: Structure<D>,
      e: Env<D>)
    requires DefsOk(d, start, false) && StandsFor(g, f, d) && RelsBelow(f, start) && AllDetermined(m, d.records)
    ensures var m2 := ExtendAll(m, d.records);
            SameRelsBelow(m, m2, start) && (Holds(g, m2, e) <==> Holds(f, m, e)) &&
                forall c | c in d.clauses :: Holds(c, m2, e)
  {
    var m2 := ExtendAll(m, d.records);
    var v := LeafTruth(m2, e);
    ExtendAgrees(m, d.records, start);
    ExtendConsistent(m, d.records, start, e);
    HoldsIsTruth(g, m2, e);
    HoldsIsTruth(f, m2, e);
    HoldsSameRels(f, start, m, m2, e);
    forall c | c in d.clauses ensures Holds(c, m2, e) { HoldsIsTruth(c, m2, e); }
  }

  /** So every structure does where all variables are below MAX_VARS. */
  lemma {:induction false} ModelExtends<D(!new)>(f: Formula, g: Formula, d: Defs, start: nat, m: Structure<D>,
      e: Env<D>)
    requires DefsOk(d, start, true) && StandsFor(g, f, d) && RelsBelow(f, start)
    ensures var m2 := ExtendAll(m, d.records);
            SameRelsBelow(m, m2, start) && (Holds(g, m2, e) <==> Holds(f, m, e)) &&
                forall c | c in d.clauses :: Holds(c, m2, e)
  {
    CollectedDetermined(m, d.records, start);
    forall i | 0 <= i < |d.records| ensures RecordOk(d.records[i], start + i, false) {
      assert RecordOk(d.records[i], start + i, true);
    }
    DeterminedExtends(f, g, d, start, m, e);
  }

  // ---------- A variable that is not collected ----------

  /** What cnf_def does with (p & q) | s when one clause is allowed: p & q gets a name. */
  lemma {:induction false} NamedPair(p: Formula, q: Formula, s: Formula, start: nat)
    requires p.Atom? && q.Atom? && s.Atom? && p != q && p != s && q != s
    requires p.sym < start && q.sym < start && s.sym < start
    ensures var r := RecordFor(And([p, q]), NoDefs(start));
            DefOf(Or([And([p, q]), s]), 1, NoDefs(start)) ==
            (Some(Or([r.DefAtom(), s])),
             Defs([Or([Not(r.DefAtom()), q]), Or([Not(r.DefAtom()), p])], [r], start + 1))
  {
    var d, both := NoDefs(start), And([p, q]);
    PairForms(p, q, s, d);
    PairNode(both, p, q, s, d);
    PairTree(RecordFor(both, d).DefAtom(), s);
    PairIntroduced(p, q, start);
  }

  lemma {:induction false} PairNode(both: Formula, p: Formula, q: Formula, s: Formula, d: Defs)
    requires both == And([p, q]) && p.Atom? && q.Atom? && s.Atom? && p != s && q != s
    ensures DefNode(Or([both, s]), [both, s], 1, d) == (TreeOf([RecordFor(both, d).DefAtom(), s]), Introduce(both, d))
  {
    PairKept(p, q, s);
    PairRenamed(both, s, d);
  }

  lemma {:induction false} PairIntroduced(p: Formula, q: Formula, start: nat)
    requires p.Atom? && q.Atom? && p.sym < start && q.sym < start
    ensures var r := RecordFor(And([p, q]), NoDefs(start));
            Introduce(And([p, q]), NoDefs(start)) ==
            Defs([Or([Not(r.DefAtom()), q]), Or([Not(r.DefAtom()), p])], [r], start + 1)
  {
    var d, both, parts := NoDefs(start), And([p, q]), [p, q];
    var r := RecordFor(both, d);
    PairClauses(p, q, r.DefAtom());
    assert Conjuncts(both) == parts && d.records + [r] == [r];
  }

  lemma {:induction false} PairWithin(p: Formula, q: Formula)
    requires p.Atom? && q.Atom?
    ensures Bounded(And([p, q])) && Within(And([p, q]), 1)
  {
    var two := [p, q];
    assert two[0] == p && two[1] == q && MaxClauses(p) == MaxClauses(q) == 1;
  }

  lemma {:induction false} PairForms(p: Formula, q: Formula, s: Formula, d: Defs)
    requires p.Atom? && q.Atom? && s.Atom? && p != q
    ensures DefAll([And([p, q]), s], 1, d) == (Some([And([p, q]), s]), d)
  {
    var fs := [And([p, q]), s];
    KeptAtoms(p, q);
    TwoForms(fs[0], fs[1], fs[0], fs[1]);
    PairWithin(p, q);
    assert Bounded(s) && Within(s, 1);
    DefAllIsCnf(fs, 1, d);
  }

  lemma {:induction false} PairKept(p: Formula, q: Formula, s: Formula)
    requires p.Atom? && q.Atom? && s.Atom? && p != s && q != s
    ensures KeptOr([And([p, q]), s]) == [And([p, q]), s]
  {
    var fs := [And([p, q]), s];
    var ds := DualAll(fs);
    assert ds == [Or([p, q]), s] by {
      assert Dual(p) == p && Dual(q) == q && Dual(s) == s;
      assert Dual(And([p, q])).kids == [p, q];
    }
    ReducedAlready(ds);
    DualAllTwice(fs);
  }

  lemma {:induction false} PairRenamed(both: Formula, s: Formula, d: Defs)
    requires both.And? && |both.kids| == 2 && s.Atom?
    ensures Rename([both, s], 1, d) == ([RecordFor(both, d).DefAtom(), s], Introduce(both, d))
  {
    var name, gs := RecordFor(both, d).DefAtom(), [both, s];
    var hs := [name, s];
    assert gs[0 := name] == hs;
    assert Count(gs[0]) == 2 && Count(hs[0]) == Count(hs[1]) == 1;
    assert Scan(gs, 1, 1, 2, 2, 0) == (2, 2, 0);
    assert Scan(gs, 1, 0, 1, 0, 0) == Scan(gs, 1, 1, 2, 2, 0);
    assert Scan(hs, 1, 2, 1, 1, 0) == (1, 1, 0);
    assert Scan(hs, 1, 1, 1, 1, 0) == Scan(hs, 1, 2, 1, 1, 0);
    assert Scan(hs, 1, 0, 1, 0, 0) == Scan(hs, 1, 1, 1, 1, 0);
    assert Rename(hs, 1, Introduce(both, d)) == (hs, Introduce(both, d));
  }

  lemma {:induction false} PairTree(a: Formula, b: Formula)
    requires a.Atom? && b.Atom? && a != b
    ensures TreeOf([a, b]) == Some(Or([a, b]))
  {
    var two := [a, b];
    assert two[..1] == [a] && two[1..] == [b];
    assert Bbt(two) == Or(two) && Binary(Or(two)) == Or(two);
    assert Distributed(a) == Some(a) && Distributed(b) == Some(b);
    DisjoinOther(a, b);
    var xs, ys := [a], [b];
    assert RowOf(a, ys) == [Or([a, b])];
    assert RowsOf(xs, ys, |xs|) == RowsOf(xs, ys, |xs| - 1) + RowOf(a, ys);
    var top := [Or([a, b])];
    FirstOnly(top);
    assert RowsOf(xs, ys, |xs| - 1) == [] && [] + top == top;
    assert Conjuncts(a) == xs && Conjuncts(b) == ys;
    assert TopOf(a, b) == Simplified(top) == top[0];
  }

  lemma {:induction false} PairClauses(p: Formula, q: Formula, name: Formula)
    requires p.Atom? && q.Atom? && name.Atom? && name != p && name != q
    ensures var parts := [p, q]; DefClauses(name, parts, |parts|, []) == [Or([Not(name), q]), Or([Not(name), p])]
  {
    DisjoinOther(Not(name), p);
    DisjoinOther(Not(name), q);
    var parts, none: seq<Formula> := [p, q], [];
    var n := |parts|;
    assert DefClauses(name, parts, n - 2, none) == none;
    assert DefClauses(name, parts, n - 1, none) == [Or([Not(name), p])] + none;
  }

  ghost function P(k: nat): Formula {
    Atom(k, [Var(MAX_VARS)])
  }

  /** P(2) holds where P(0) and P(1) do not. */
  ghost function Halves(): Structure<bool> {
    Structure((f, ds) => true, (p, ds) => |ds| == 1 && (ds[0] <==> p != 2))
  }

  lemma {:induction false} PAt(k: nat, m: Structure<bool>, e: Env<bool>)
    requires k < 3 && SameRelsBelow(Halves(), m, 3)
    ensures Holds(P(k), m, e) <==> (Get(MAX_VARS, m, e) <==> k != 2)
  {
    var ds := Values([Var(MAX_VARS)], m, e);
    assert ds[0] == Value(Var(MAX_VARS), m, e);
    assert m.rel(k, ds) <==> Halves().rel(k, ds);
  }

  ghost predicate OutputHolds<D(!new)>(g: Formula, d: Defs, m: Structure<D>, e: Env<D>) {
    Holds(g, m, e) && forall c | c in d.clauses :: Holds(c, m, e)
  }

  /** A run where the variable number is MAX_VARS: the name of P(0)(x) & P(1)(x) has no arguments, and
      although the input holds for all values of x, the output does not, whatever the name stands for. */
  lemma {:induction false} UncollectedVariable(m: Structure<bool>)
    requires SameRelsBelow(Halves(), m, 3)
    ensures var f := Or([And([P(0), P(1)]), P(2)]);
            var (g, d) := DefOf(f, 1, NoDefs(3));
            && g.Some? && d.records == [Record(3, [], And([P(0), P(1)]))]
            && (forall e: Env<bool> :: Holds(f, Halves(), e))
            && exists e: Env<bool> :: !OutputHolds(g.value, d, m, e)
  {
    var both, f := And([P(0), P(1)]), Or([And([P(0), P(1)]), P(2)]);
    NamedPair(P(0), P(1), P(2), 3);
    NoneCollected();
    var name := Atom(3, []);
    var r := RecordFor(both, NoDefs(3));
    assert r.DefAtom() == name by { assert r.vars == [] && r.DefAtom().args == []; }
    forall e: Env<bool> ensures Holds(f, Halves(), e) { InputHolds(e); }
    var b := m.rel(3, []);
    var e: Env<bool> := map[MAX_VARS := !b];
    OutputFails(m, e);
    var (g, d) := DefOf(f, 1, NoDefs(3));
    assert d.clauses[1] in d.clauses && d.clauses[1] == Or([Not(name), P(0)]);
    assert !OutputHolds(g.value, d, m, e);
  }

  lemma {:induction false} NoneBelow(f: Formula, n: nat)
    requires forall k: nat | k < n :: !Free(k, f)
    ensures FreeBelow(f, n) == []
    decreases n
  {
    if n > 0 { NoneBelow(f, n - 1); }
  }

  lemma {:induction false} NoneCollected()
    ensures Collected(And([P(0), P(1)])) == []
  {
    var both := And([P(0), P(1)]);
    assert VarsAll([Var(MAX_VARS)]) == {MAX_VARS} by { assert [Var(MAX_VARS)][1..] == []; }
    forall n: nat | n < MAX_VARS ensures !Free(n, both) {
      assert !Free(n, P(0)) && !Free(n, P(1));
    }
    NoneBelow(both, MAX_VARS);
  }

  lemma {:induction false} InputHolds(e: Env<bool>)
    ensures Holds(Or([And([P(0), P(1)]), P(2)]), Halves(), e)
  {
    PAt(0, Halves(), e);
    PAt(1, Halves(), e);
    PAt(2, Halves(), e);
    var kids, both := [And([P(0), P(1)]), P(2)], [P(0), P(1)];
    assert kids[0] == And(both) && kids[1] == P(2) && both[0] == P(0) && both[1] == P(1);
    if Holds(P(0), Halves(), e) { assert Holds(kids[0], Halves(), e); } else { assert Holds(kids[1], Halves(), e); }
  }

  lemma {:induction false} OutputFails(m: Structure<bool>, e: Env<bool>)
    requires SameRelsBelow(Halves(), m, 3) && Get(MAX_VARS, m, e) == !m.rel(3, [])
    ensures !(Holds(Or([Atom(3, []), P(2)]), m, e) && Holds(Or([Not(Atom(3, [])), P(0)]), m, e))
  {
    PAt(0, m, e);
    PAt(2, m, e);
    assert Values([], m, e) == [];
    assert Holds(Atom(3, []), m, e) == m.rel(3, []);
    var k, l := [Atom(3, []), P(2)], [Not(Atom(3, [])), P(0)];
    assert k[0] == Atom(3, []) && k[1] == P(2) && l[0] == Not(Atom(3, [])) && l[1] == P(0);
  }
}

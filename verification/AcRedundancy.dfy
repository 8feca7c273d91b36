/** Detection of commutative and associative operations and the redundancy test modulo them
    (ladr/ac_redun.c). */
module AcRedundancy {
  import opened Options
  import opened Terms
  import opened Structures
  import opened AcTheory
  import opened AcCanon

  datatype Equation = Equation(left: Term, right: Term)

  // ---------- Recognizing the laws ----------

  /** f(x,y) = f(y,x) */
  function Commutativity(l: Equation): Option<nat> {
    var a, b := l.left, l.right;
    if a.App? && |a.args| == 2 && Top(a.sym, b) &&
       a.args[0].Var? && a.args[1].Var? && a.args[0] != a.args[1] &&
       a.args[0] == b.args[1] && a.args[1] == b.args[0]
    then Some(a.sym) else None
  }

  predicate ThreeVars(x: Term, y: Term, z: Term) {
    x.Var? && y.Var? && z.Var? && x != y && y != z && x != z
  }

  /** f(f(x,y),z) = f(x,f(y,z)) */
  function Associativity(l: Equation): Option<nat> {
    var a, b := l.left, l.right;
    if a.App? && |a.args| == 2 && Top(a.sym, b) && Top(a.sym, a.args[0]) && Top(a.sym, b.args[1]) then
      var x, y, z := a.args[0].args[0], a.args[0].args[1], a.args[1];
      if ThreeVars(x, y, z) && x == b.args[0] && y == b.args[1].args[0] && z == b.args[1].args[1]
      then Some(a.sym) else None
    else None
  }

  /** f(x,f(y,z)) = f(y,f(x,z)) */
  function CAssociativity(l: Equation): Option<nat> {
    var a, b := l.left, l.right;
    if a.App? && |a.args| == 2 && Top(a.sym, b) && Top(a.sym, a.args[1]) && Top(a.sym, b.args[1]) then
      var x, y, z := a.args[0], a.args[1].args[0], a.args[1].args[1];
      if ThreeVars(x, y, z) && x == b.args[1].args[0] && y == b.args[0] && z == b.args[1].args[1]
      then Some(a.sym) else None
    else None
  }

  predicate IsLaw(l: Equation) {
    Commutativity(l).Some? || Associativity(l).Some? || CAssociativity(l).Some?
  }

  // The three laws, over variables numbered x, y and z.

  function Comm(f: nat, x: nat, y: nat): Equation {
    Equation(App(f, [Var(x), Var(y)]), App(f, [Var(y), Var(x)]))
  }

  function Assoc(f: nat, x: nat, y: nat, z: nat): Equation {
    Equation(App(f, [App(f, [Var(x), Var(y)]), Var(z)]), App(f, [Var(x), App(f, [Var(y), Var(z)])]))
  }

  function CAssoc(f: nat, x: nat, y: nat, z: nat): Equation {
    Equation(App(f, [Var(x), App(f, [Var(y), Var(z)])]), App(f, [Var(y), App(f, [Var(x), Var(z)])]))
  }

  ghost predicate IsComm(l: Equation, f: nat) {
    exists x: nat, y: nat :: x != y && l == Comm(f, x, y)
  }

  ghost predicate IsAssoc(l: Equation, f: nat) {
    exists x: nat, y: nat, z: nat :: x != y && y != z && x != z && l == Assoc(f, x, y, z)
  }

  ghost predicate IsCAssoc(l: Equation, f: nat) {
    exists x: nat, y: nat, z: nat :: x != y && y != z && x != z && l == CAssoc(f, x, y, z)
  }

  /** A term with two arguments. */
  lemma {:induction false} TwoArgs(t: Term, f: nat)
    requires Top(f, t)
    ensures t == App(f, [t.args[0], t.args[1]])
  {
    assert t.args == [t.args[0], t.args[1]];
  }

  /** Commutativity is recognized exactly as f(x,y) = f(y,x) for different variables. */
  lemma {:induction false} CommutativityExact(l: Equation, f: nat)
    ensures Commutativity(l) == Some(f) <==> IsComm(l, f)
  {
    if Commutativity(l) == Some(f) {
      TwoArgs(l.left, f);
      TwoArgs(l.right, f);
      assert l == Comm(f, l.left.args[0].n, l.left.args[1].n);
    }
  }

  /** Associativity is recognized exactly as f(f(x,y),z) = f(x,f(y,z)) for different variables. */
  lemma {:induction false} AssociativityExact(l: Equation, f: nat)
    ensures Associativity(l) == Some(f) <==> IsAssoc(l, f)
  {
    var a, b := l.left, l.right;
    if Associativity(l) == Some(f) {
      TwoArgs(a, f);
      TwoArgs(a.args[0], f);
      TwoArgs(b, f);
      TwoArgs(b.args[1], f);
      assert l == Assoc(f, b.args[0].n, b.args[1].args[0].n, a.args[1].n);
    }
  }

  /** C-associativity is recognized exactly as f(x,f(y,z)) = f(y,f(x,z)) for different variables. */
  lemma {:induction false} CAssociativityExact(l: Equation, f: nat)
    ensures CAssociativity(l) == Some(f) <==> IsCAssoc(l, f)
  {
    var a, b := l.left, l.right;
    if CAssociativity(l) == Some(f) {
      TwoArgs(a, f);
      TwoArgs(a.args[1], f);
      TwoArgs(b, f);
      TwoArgs(b.args[1], f);
      assert l == CAssoc(f, a.args[0].n, a.args[1].args[0].n, a.args[1].args[1].n);
    }
  }

  ghost predicate Satisfies<D(!new)>(m: Structure<D>, l: Equation) {
    forall e: Env<D> :: Value(l.left, m, e) == Value(l.right, m, e)
  }

  lemma {:induction false} ValuePair<D(!new)>(m: Structure<D>, f: nat, t: Term, e: Env<D>)
    requires Top(f, t)
    ensures Value(t, m, e) == m.fun(f, [Value(t.args[0], m, e), Value(t.args[1], m, e)])
  {
    assert Values(t.args, m, e) == [Value(t.args[0], m, e), Value(t.args[1], m, e)];
  }

  /** The recognized equation says that the operation commutes. */
  lemma {:induction false} CommutativityMeans<D(!new)>(m: Structure<D>, l: Equation)
    requires Commutativity(l).Some?
    ensures Satisfies(m, l) <==> forall x, y :: Commutes(m, Commutativity(l).value, x, y)
  {
    var f := Commutativity(l).value;
    var i, j := l.left.args[0].n, l.left.args[1].n;
    forall e: Env<D>
      ensures Value(l.left, m, e) == m.fun(f, [Get(i, m, e), Get(j, m, e)])
      ensures Value(l.right, m, e) == m.fun(f, [Get(j, m, e), Get(i, m, e)])
    {
      ValuePair(m, f, l.left, e);
      ValuePair(m, f, l.right, e);
    }
    if Satisfies(m, l) {
      forall x, y ensures Commutes(m, f, x, y) {
        var e: Env<D> := map[i := x, j := y];
        assert Value(l.left, m, e) == Value(l.right, m, e);
      }
    }
    if forall x, y :: Commutes(m, f, x, y) {
      forall e: Env<D> ensures Value(l.left, m, e) == Value(l.right, m, e) {
        assert Commutes(m, f, Get(i, m, e), Get(j, m, e));
      }
    }
  }

  /** The recognized equation says that the operation is associative. */
  lemma {:induction false} AssociativityMeans<D(!new)>(m: Structure<D>, l: Equation)
    requires Associativity(l).Some?
    ensures Satisfies(m, l) <==> forall x, y, z :: Associates(m, Associativity(l).value, x, y, z)
  {
    var f := Associativity(l).value;
    var a, b := l.left, l.right;
    var i, j, k := b.args[0].n, b.args[1].args[0].n, a.args[1].n;
    forall e: Env<D>
      ensures Value(a, m, e) == m.fun(f, [m.fun(f, [Get(i, m, e), Get(j, m, e)]), Get(k, m, e)])
      ensures Value(b, m, e) == m.fun(f, [Get(i, m, e), m.fun(f, [Get(j, m, e), Get(k, m, e)])])
    {
      ValuePair(m, f, a, e);
      ValuePair(m, f, a.args[0], e);
      ValuePair(m, f, b, e);
      ValuePair(m, f, b.args[1], e);
    }
    if Satisfies(m, l) {
      forall x, y, z ensures Associates(m, f, x, y, z) {
        var e: Env<D> := map[i := x, j := y, k := z];
        assert Value(a, m, e) == Value(b, m, e);
      }
    }
    if forall x, y, z :: Associates(m, f, x, y, z) {
      forall e: Env<D> ensures Value(a, m, e) == Value(b, m, e) {
        assert Associates(m, f, Get(i, m, e), Get(j, m, e), Get(k, m, e));
      }
    }
  }

  /** f(x,f(y,z)) and f(y,f(x,z)) have the same value. */
  ghost predicate Exchanges<D>(m: Structure<D>, f: nat, x: D, y: D, z: D) {
    m.fun(f, [x, m.fun(f, [y, z])]) == m.fun(f, [y, m.fun(f, [x, z])])
  }

  /** The recognized equation says that the first two of three operands can be exchanged. */
  lemma {:induction false} CAssociativityMeans<D(!new)>(m: Structure<D>, l: Equation)
    requires CAssociativity(l).Some?
    ensures Satisfies(m, l) <==> forall x, y, z :: Exchanges(m, CAssociativity(l).value, x, y, z)
  {
    var f := CAssociativity(l).value;
    var a, b := l.left, l.right;
    var i, j, k := a.args[0].n, b.args[0].n, a.args[1].args[1].n;
    forall e: Env<D>
      ensures Value(a, m, e) == m.fun(f, [Get(i, m, e), m.fun(f, [Get(j, m, e), Get(k, m, e)])])
      ensures Value(b, m, e) == m.fun(f, [Get(j, m, e), m.fun(f, [Get(i, m, e), Get(k, m, e)])])
    {
      ValuePair(m, f, a, e);
      ValuePair(m, f, a.args[1], e);
      ValuePair(m, f, b, e);
      ValuePair(m, f, b.args[1], e);
    }
    if Satisfies(m, l) {
      forall x, y, z ensures Exchanges(m, f, x, y, z) {
        var e: Env<D> := map[i := x, j := y, k := z];
        assert Value(a, m, e) == Value(b, m, e);
      }
    }
    if forall x, y, z :: Exchanges(m, f, x, y, z) {
      forall e: Env<D> ensures Value(a, m, e) == Value(b, m, e) {
        assert Exchanges(m, f, Get(i, m, e), Get(j, m, e), Get(k, m, e));
      }
    }
  }

  // ---------- One atom ----------

  /** The sides of an equality atom. */
  function Sides(eq: nat, atom: Term): Option<Equation> {
    if Top(eq, atom) then Some(Equation(atom.args[0], atom.args[1])) else None
  }

  /** An equation between complex terms that holds modulo the theory and is not one of the laws. */
  ghost predicate Redundant(th: Theory, eq: nat, atom: Term) {
    match Sides(eq, atom)
    case None => false
    case Some(l) => l.left.App? && l.right.App? && !IsLaw(l) && EqualIn<Term>(th, l.left, l.right)
  }

  lemma {:induction false} NormRoot(th: Theory, t: Term)
    requires t.App?
    ensures Norm(th, t).App? && Norm(th, t).sym == t.sym
  {
    var args := NormAll(th, t.args);
    if IsAC(th, t.sym, |args|) {
      var ts := Flat(t.sym, args[0]) + Flat(t.sym, args[1]);
      assert |Sort(th.less, ts)| > 1;
    }
  }

  method CacRedundantAtom(th: Theory, eq: nat, atom: Term) returns (b: bool)
    requires VcpOrder(th.less)
    ensures b == Redundant(th, eq, atom)
  {
    if !Top(eq, atom) { return false; }
    var l := Equation(atom.args[0], atom.args[1]);
    if l.left.Var? || l.right.Var? { return false; }
    DifferentTerms(th, l.left, l.right);
    if l.left.sym != l.right.sym { return false; }
    if Size(l.left) != Size(l.right) { return false; }
    if Commutativity(l).Some? || Associativity(l).Some? || CAssociativity(l).Some? { return false; }
    UnmarkedSound(th, l.left);
    UnmarkedSound(th, l.right);
    var x := Canon(th, Unmarked(l.left));
    var y := Canon(th, Unmarked(l.right));
    return Strip(x) == Strip(y);
  }

  /** What the quick tests rely on. */
  lemma {:induction false} DifferentTerms(th: Theory, s: Term, t: Term)
    requires VcpOrder(th.less) && s.App? && t.App?
    ensures EqualIn<Term>(th, s, t) <==> Norm(th, s) == Norm(th, t)
    ensures s.sym != t.sym || Size(s) != Size(t) ==> !EqualIn<Term>(th, s, t)
  {
    if Norm(th, s) == Norm(th, t) {
      NormSound<Term>(th, s, t);
      NormRoot(th, s);
      NormRoot(th, t);
      NormSize(th, s);
      NormSize(th, t);
    }
    if EqualIn<Term>(th, s, t) { NormComplete(th, s, t); }
  }

  ghost predicate SomeLaw(l: Equation, f: nat) {
    IsComm(l, f) || IsAssoc(l, f) || IsCAssoc(l, f)
  }

  /** The laws themselves are never redundant; any other equation of complex terms is exactly if both
      sides have the same normal form. */
  lemma {:induction false} RedundantExact(th: Theory, eq: nat, s: Term, t: Term)
    requires VcpOrder(th.less)
    ensures (exists f: nat :: SomeLaw(Equation(s, t), f)) ==> !Redundant(th, eq, App(eq, [s, t]))
    ensures (forall f: nat :: !SomeLaw(Equation(s, t), f)) ==>
              (Redundant(th, eq, App(eq, [s, t])) <==> s.App? && t.App? && Norm(th, s) == Norm(th, t))
  {
    var l := Equation(s, t);
    assert Sides(eq, App(eq, [s, t])) == Some(l);
    forall f: nat
      ensures Commutativity(l) == Some(f) <==> IsComm(l, f)
      ensures Associativity(l) == Some(f) <==> IsAssoc(l, f)
      ensures CAssociativity(l) == Some(f) <==> IsCAssoc(l, f)
    {
      CommutativityExact(l, f);
      AssociativityExact(l, f);
      CAssociativityExact(l, f);
    }
    if s.App? && t.App? { DifferentTerms(th, s, t); }
    if IsLaw(l) {
      var f := if Commutativity(l).Some? then Commutativity(l).value
               else if Associativity(l).Some? then Associativity(l).value else CAssociativity(l).value;
      assert SomeLaw(l, f);
    }
  }

  // ---------- The lists of symbols ----------

  function Members(s: seq<nat>): set<nat> {
    set x | x in s
  }

  function Symbols(o: Option<nat>): set<nat> {
    match o
    case None => {}
    case Some(f) => {f}
  }

  function CommutativeIn(laws: seq<Equation>): set<nat> {
    if |laws| == 0 then {} else CommutativeIn(laws[..|laws| - 1]) + Symbols(Commutativity(laws[|laws| - 1]))
  }

  function AssociativeIn(laws: seq<Equation>): set<nat> {
    if |laws| == 0 then {} else AssociativeIn(laws[..|laws| - 1]) + Symbols(Associativity(laws[|laws| - 1]))
  }

  function CAssociativeIn(laws: seq<Equation>): set<nat> {
    if |laws| == 0 then {} else CAssociativeIn(laws[..|laws| - 1]) + Symbols(CAssociativity(laws[|laws| - 1]))
  }

  /** The theory of the laws met so far. */
  function TheoryOf(laws: seq<Equation>, less: Less): Theory {
    Theory(CommutativeIn(laws) * AssociativeIn(laws) * CAssociativeIn(laws), CommutativeIn(laws), less)
  }

  ghost predicate SaysComm(laws: seq<Equation>, f: nat) {
    exists l :: l in laws && IsComm(l, f)
  }

  ghost predicate SaysAssoc(laws: seq<Equation>, f: nat) {
    exists l :: l in laws && IsAssoc(l, f)
  }

  ghost predicate SaysCAssoc(laws: seq<Equation>, f: nat) {
    exists l :: l in laws && IsCAssoc(l, f)
  }

  /** The lists contain exactly the symbols whose law is there. */
  lemma {:induction false} ListsMean(laws: seq<Equation>, f: nat)
    ensures f in CommutativeIn(laws) <==> SaysComm(laws, f)
    ensures f in AssociativeIn(laws) <==> SaysAssoc(laws, f)
    ensures f in CAssociativeIn(laws) <==> SaysCAssoc(laws, f)
  {
    if |laws| > 0 {
      var rest, l := laws[..|laws| - 1], laws[|laws| - 1];
      ListsMean(rest, f);
      CommutativityExact(l, f);
      AssociativityExact(l, f);
      CAssociativityExact(l, f);
      assert forall k :: k in laws <==> k in rest || k == l;
    }
  }

  /** An operation is treated as commutative if commutativity was met, and as AC if all three laws were. */
  lemma {:induction false} TheoryMeans(laws: seq<Equation>, less: Less, f: nat)
    ensures TheoryOf(laws, less).less == less
    ensures f in TheoryOf(laws, less).c <==> SaysComm(laws, f)
    ensures f in TheoryOf(laws, less).ac <==> SaysComm(laws, f) && SaysAssoc(laws, f) && SaysCAssoc(laws, f)
  {
    ListsMean(laws, f);
  }

  /** The positive equality unit that a clause is. */
  function UnitLaw(eq: nat, lits: seq<Literal>): seq<Equation> {
    if |lits| == 1 && lits[0].sign && Sides(eq, lits[0].atom).Some? then [Sides(eq, lits[0].atom).value] else []
  }

  /** The clause says something about an operation that the laws do not say yet. */
  predicate News(laws: seq<Equation>, l: seq<Equation>) {
    || CommutativeIn(laws + l) != CommutativeIn(laws)
    || AssociativeIn(laws + l) != AssociativeIn(laws)
    || CAssociativeIn(laws + l) != CAssociativeIn(laws)
  }

  ghost predicate NewFor(laws: seq<Equation>, l: Equation, f: nat) {
    || (IsComm(l, f) && !SaysComm(laws, f)) || (IsAssoc(l, f) && !SaysAssoc(laws, f))
    || (IsCAssoc(l, f) && !SaysCAssoc(laws, f))
  }

  /** There is news exactly if the equation is a law for an operation that did not have it. */
  lemma {:induction false} NewsMeans(laws: seq<Equation>, l: Equation)
    ensures News(laws, [l]) <==> exists f: nat :: NewFor(laws, l, f)
  {
    LawsSnoc(laws, l);
    if News(laws, [l]) {
      var f: nat := if CommutativeIn(laws + [l]) != CommutativeIn(laws) then Commutativity(l).value
                    else if AssociativeIn(laws + [l]) != AssociativeIn(laws) then Associativity(l).value
                    else CAssociativity(l).value;
      NewForOne(laws, l, f);
      assert NewFor(laws, l, f);
    }
    if f: nat :| NewFor(laws, l, f) { NewForOne(laws, l, f); }
  }

  lemma {:induction false} NewForOne(laws: seq<Equation>, l: Equation, f: nat)
    ensures NewFor(laws, l, f) <==>
            || (Commutativity(l) == Some(f) && f !in CommutativeIn(laws))
            || (Associativity(l) == Some(f) && f !in AssociativeIn(laws))
            || (CAssociativity(l) == Some(f) && f !in CAssociativeIn(laws))
  {
    CommutativityExact(l, f);
    AssociativityExact(l, f);
    CAssociativityExact(l, f);
    ListsMean(laws, f);
  }

  ghost predicate TautologyAt(laws: seq<Equation>, less: Less, eq: nat, lits: seq<Literal>, i: nat) {
    i < |lits| && lits[i].sign && Redundant(TheoryOf(laws, less), eq, lits[i].atom)
  }

  /** A positive literal holds by the laws. */
  ghost predicate Tautology(laws: seq<Equation>, less: Less, eq: nat, lits: seq<Literal>) {
    exists i: nat :: TautologyAt(laws, less, eq, lits, i)
  }

  lemma {:induction false} LawsSnoc(laws: seq<Equation>, l: Equation)
    ensures CommutativeIn(laws + [l]) == CommutativeIn(laws) + Symbols(Commutativity(l))
    ensures AssociativeIn(laws + [l]) == AssociativeIn(laws) + Symbols(Associativity(l))
    ensures CAssociativeIn(laws + [l]) == CAssociativeIn(laws) + Symbols(CAssociativity(l))
  {
    assert (laws + [l])[..|laws + [l]| - 1] == laws;
  }

  lemma {:induction false} OneLaw(l: Equation)
    ensures Associativity(l).Some? ==> Commutativity(l).None? && CAssociativity(l).None?
    ensures CAssociativity(l).Some? ==> Commutativity(l).None?
  {
  }

  /** The symbol lists say exactly what the laws say. */
  predicate Agrees(c: set<nat>, a1: set<nat>, a2: set<nat>, ac: set<nat>, laws: seq<Equation>) {
    && c == CommutativeIn(laws) && a1 == AssociativeIn(laws) && a2 == CAssociativeIn(laws)
    && ac == c * a1 * a2
  }

  lemma {:induction false} Joined(s: seq<nat>, f: nat)
    ensures Members(s + [f]) == Members(s) + {f}
    ensures f in s <==> f in Members(s)
  {
  }

  /** The module's lists of symbols; laws collects the equality units met. */
  class CacState {
    const eq: nat
    const less: Less
    const verum: Term
    var c: seq<nat>
    var a1: seq<nat>
    var a2: seq<nat>
    var ac: seq<nat>
    ghost var laws: seq<Equation>

    ghost predicate Valid()
      reads this
    {
      && VcpOrder(less)
      && Agrees(Members(c), Members(a1), Members(a2), Members(ac), laws)
    }

    /** What the lists contain. */
    lemma {:induction false} ListsSay(f: nat)
      requires Valid()
      ensures f in c <==> SaysComm(laws, f)
      ensures f in a1 <==> SaysAssoc(laws, f)
      ensures f in a2 <==> SaysCAssoc(laws, f)
      ensures f in ac <==> SaysComm(laws, f) && SaysAssoc(laws, f) && SaysCAssoc(laws, f)
    {
      ListsMean(laws, f);
      assert f in c <==> f in Members(c);
      assert f in a1 <==> f in Members(a1);
      assert f in a2 <==> f in Members(a2);
      assert f in ac <==> f in Members(ac);
    }

    constructor (eq: nat, verum: Term, less: Less)
      requires VcpOrder(less)
      ensures Valid() && laws == [] && this.eq == eq && this.less == less && this.verum == verum
    {
      this.eq, this.verum, this.less := eq, verum, less;
      c, a1, a2, ac, laws := [], [], [], [], [];
    }

    method Tautological(lits: seq<Literal>) returns (b: bool)
      requires Valid()
      ensures b == (CommutativeIn(laws) != {} && Tautology(laws, less, eq, lits))
    {
      var th := Theory(Members(ac), Members(c), less);
      assert th == TheoryOf(laws, less);
      if |c| == 0 {
        assert Members(c) == {};
        return false;
      }
      assert c[0] in Members(c);
      var i: nat := 0;
      while i < |lits|
        invariant i <= |lits| && forall j: nat | j < i :: !TautologyAt(laws, less, eq, lits, j)
      {
        if lits[i].sign {
          var r := CacRedundantAtom(th, eq, lits[i].atom);
          if r {
            assert TautologyAt(laws, less, eq, lits, i);
            return true;
          }
        }
        i := i + 1;
      }
      return false;
    }

    /** Record a law, or replace a clause that the laws make true. */
    method CacRedundancy(lits: seq<Literal>) returns (redundant: bool, kept: seq<Literal>)
      requires Valid()
      modifies this
      ensures Valid() && laws == old(laws) + UnitLaw(eq, lits)
      ensures redundant == (Members(c) != Members(old(c)) || Members(ac) != Members(old(ac)))
      ensures kept == (if !News(old(laws), UnitLaw(eq, lits)) && CommutativeIn(old(laws)) != {} &&
                          Tautology(old(laws), less, eq, lits) then [Literal(true, verum)] else lits)
    {
      redundant, kept := false, lits;
      var news := false;
      if |lits| == 1 && lits[0].sign && Top(eq, lits[0].atom) {
        var l := Equation(lits[0].atom.args[0], lits[0].atom.args[1]);
        news, redundant := Detect(l);
      }
      if !news {
        var b := Tautological(lits);
        SameTautology(old(laws), laws, less, eq, lits);
        if b { kept := [Literal(true, verum)]; }
      }
    }

    /** The part of the redundancy test for a positive equality unit. */
    method Detect(l: Equation) returns (news: bool, complete: bool)
      requires Valid()
      modifies this
      ensures Valid() && laws == old(laws) + [l]
      ensures news == News(old(laws), [l])
      ensures complete == (Members(c) != Members(old(c)) || Members(ac) != Members(old(ac)))
    {
      LearnFrom(l);
      laws := laws + [l];
      if Commutativity(l).Some? && Commutativity(l).value !in c {
        var f := Commutativity(l).value;
        Joined(c, f);
        Joined(ac, f);
        c := c + [f];
        if f in a1 && f in a2 { ac := ac + [f]; }
        return true, true;
      }
      news := false;
      if Associativity(l).Some? && Associativity(l).value !in a1 {
        Joined(a1, Associativity(l).value);
        a1 := a1 + [Associativity(l).value];
        news := true;
      } else if CAssociativity(l).Some? && CAssociativity(l).value !in a2 {
        Joined(a2, CAssociativity(l).value);
        a2 := a2 + [CAssociativity(l).value];
        news := true;
      }
      complete := false;
      if news {
        var f := l.left.sym;
        if f in c && f in a1 && f in a2 {
          Joined(ac, f);
          ac := ac + [f];
          complete := true;
        }
      }
    }

    /** What the lists must become. */
    lemma {:induction false} LearnFrom(l: Equation)
      requires Valid()
      ensures var c' := Members(c) + Symbols(Commutativity(l));
              var a1' := Members(a1) + Symbols(Associativity(l));
              var a2' := Members(a2) + Symbols(CAssociativity(l));
              && Agrees(c', a1', a2', c' * a1' * a2', laws + [l])
              && (News(laws, [l]) <==> c' != Members(c) || a1' != Members(a1) || a2' != Members(a2))
              && (forall f | f in c' * a1' * a2' - Members(ac) :: l.left.App? && f == l.left.sym)
    {
      LawsSnoc(laws, l);
      OneLaw(l);
    }

    /** Record a law only. */
    method SeedCacProperties(lits: seq<Literal>) returns (changed: bool)
      requires Valid()
      modifies this
      ensures Valid() && laws == old(laws) + UnitLaw(eq, lits)
      ensures changed == News(old(laws), UnitLaw(eq, lits))
    {
      changed := false;
      if |lits| == 1 && lits[0].sign && Top(eq, lits[0].atom) {
        var l := Equation(lits[0].atom.args[0], lits[0].atom.args[1]);
        LearnFrom(l);
        ghost var known := laws;
        laws := laws + [l];
        var newC, newA1, newA2;
        c, newC := Append(c, Commutativity(l));
        a1, newA1 := Append(a1, Associativity(l));
        a2, newA2 := Append(a2, CAssociativity(l));
        changed := newC || newA1 || newA2;
        if changed {
          var f := l.left.sym;
          Joined(c, f);
          Joined(a1, f);
          Joined(a2, f);
          Joined(ac, f);
          if f in c && f in a1 && f in a2 && f !in ac { ac := ac + [f]; }
        }
        assert Members(ac) == Members(c) * Members(a1) * Members(a2);
      }
    }
  }

  /** Append the symbol of a law unless the list has it. */
  method Append(s: seq<nat>, o: Option<nat>) returns (r: seq<nat>, added: bool)
    ensures Members(r) == Members(s) + Symbols(o) && added == (Members(r) != Members(s))
    ensures added ==> o.Some?
  {
    r, added := s, false;
    if o.Some? && o.value !in s {
      Joined(s, o.value);
      r, added := s + [o.value], true;
    }
  }

  lemma {:induction false} SameTautology(laws: seq<Equation>, more: seq<Equation>, less: Less, eq: nat,
      lits: seq<Literal>)
    requires CommutativeIn(laws) == CommutativeIn(more) && AssociativeIn(laws) == AssociativeIn(more)
    requires CAssociativeIn(laws) == CAssociativeIn(more)
    ensures Tautology(more, less, eq, lits) == Tautology(laws, less, eq, lits)
  {
    assert forall i: nat :: TautologyAt(more, less, eq, lits, i) == TautologyAt(laws, less, eq, lits, i);
  }

  // ---------- What a replaced clause means ----------

  ghost predicate AllTrue<D(!new)>(m: Structure<D>, laws: seq<Equation>) {
    forall l | l in laws :: Satisfies(m, l)
  }

  lemma {:induction false} LawsGive<D(!new)>(m: Structure<D>, laws: seq<Equation>, f: nat)
    requires AllTrue(m, laws)
    ensures f in CommutativeIn(laws) ==> forall x, y :: Commutes(m, f, x, y)
    ensures f in AssociativeIn(laws) ==> forall x, y, z :: Associates(m, f, x, y, z)
  {
    if |laws| > 0 {
      var l := laws[|laws| - 1];
      LawsGive(m, laws[..|laws| - 1], f);
      assert l in laws;
      if Commutativity(l).Some? { CommutativityMeans(m, l); }
      if Associativity(l).Some? { AssociativityMeans(m, l); }
    }
  }

  /** Every structure where the laws hold is a model of the theory in use. */
  lemma {:induction false} LawsModel<D(!new)>(m: Structure<D>, laws: seq<Equation>, less: Less)
    requires AllTrue(m, laws)
    ensures Models(m, TheoryOf(laws, less))
  {
    var th := TheoryOf(laws, less);
    forall f, x, y | f in th.ac || f in th.c ensures Commutes(m, f, x, y) { LawsGive(m, laws, f); }
    forall f, x, y, z | f in th.ac ensures Associates(m, f, x, y, z) { LawsGive(m, laws, f); }
  }

  /** A clause replaced by the true clause follows from the laws: one of its positive equalities holds
      in every structure where the laws hold. */
  lemma {:induction false} ReplacedFollows<D(!new)>(m: Structure<D>, laws: seq<Equation>, less: Less, eq: nat,
      lits: seq<Literal>)
    requires VcpOrder(less) && AllTrue(m, laws) && Tautology(laws, less, eq, lits)
    ensures exists i :: 0 <= i < |lits| && lits[i].sign && Sides(eq, lits[i].atom).Some? &&
              Satisfies(m, Sides(eq, lits[i].atom).value)
  {
    var i: nat :| TautologyAt(laws, less, eq, lits, i);
    var l := Sides(eq, lits[i].atom).value;
    LawsModel(m, laws, less);
    NormComplete(TheoryOf(laws, less), l.left, l.right);
    NormSound<D>(TheoryOf(laws, less), l.left, l.right);
    assert Satisfies(m, l);
  }

  /** Identical complex sides are not replaced while no operation is known to be commutative. */
  lemma {:induction false} IdentityKept(eq: nat, less: Less, t: Term)
    requires t.App? && !IsLaw(Equation(t, t))
    ensures CommutativeIn([]) == {} && Tautology([], less, eq, [Literal(true, App(eq, [t, t]))])
  {
    assert TautologyAt([], less, eq, [Literal(true, App(eq, [t, t]))], 0);
  }
}

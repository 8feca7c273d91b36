/** Whitman's decision procedure for the word problem of free lattices
    (apps.src/latfilter.c).

    The procedure is compared with an independent definition of "s <= t holds in
    every lattice under every assignment".  Soundness is proved for lattices over any
    type; completeness exhibits one lattice, the principal ideals of the relation the
    procedure itself computes, in which a rejected inequality fails. */
module LatticeFilter {
  import opened Terms

  // Cached symbol numbers: "^", "v", and the fastparse spellings "m", "j"; all binary.
  const MEET_SYM: nat := 1
  const JOIN_SYM: nat := 2
  const M_SYM: nat := 3
  const J_SYM: nat := 4
  const EQ_SYM: nat := 5

  // A symbol number fixes an arity, so these tests include the arity.
  predicate MeetTerm(t: Term) {
    t.App? && (t.sym == MEET_SYM || t.sym == M_SYM) && |t.args| == 2
  }

  predicate JoinTerm(t: Term) {
    t.App? && (t.sym == JOIN_SYM || t.sym == J_SYM) && |t.args| == 2
  }

  predicate Generator(t: Term) {
    t.Var? || t.Constant()
  }

  /** Terms built from variables, constants, and the two spellings of meet and join. */
  predicate LatticeTerm(t: Term) {
    match t
    case Var(_) => true
    case App(f, args) =>
      if |args| == 0 then true
      else |args| == 2 && f in {MEET_SYM, M_SYM, JOIN_SYM, J_SYM} && LatticeTerm(args[0]) && LatticeTerm(args[1])
  }

  predicate LatticeLeq(s: Term, t: Term)
    decreases s, t
  {
    if s.Var? && t.Var? then
      s.n == t.n
    else if s.Constant() && t.Constant() then
      s.sym == t.sym
    else if JoinTerm(s) then
      LatticeLeq(s.args[0], t) && LatticeLeq(s.args[1], t)
    else if MeetTerm(t) then
      LatticeLeq(s, t.args[0]) && LatticeLeq(s, t.args[1])
    else if Generator(s) && JoinTerm(t) then
      LatticeLeq(s, t.args[0]) || LatticeLeq(s, t.args[1])
    else if MeetTerm(s) && Generator(t) then
      LatticeLeq(s.args[0], t) || LatticeLeq(s.args[1], t)
    else if MeetTerm(s) && JoinTerm(t) then
      LatticeLeq(s, t.args[0]) || LatticeLeq(s, t.args[1]) ||
      LatticeLeq(s.args[0], t) || LatticeLeq(s.args[1], t)
    else
      false
  }

  predicate LatticeIdentity(atom: Term) {
    atom.App? && atom.sym == EQ_SYM && |atom.args| == 2 &&
    LatticeLeq(atom.args[0], atom.args[1]) && LatticeLeq(atom.args[1], atom.args[0])
  }

  // ---------- Lattices ----------

  /** A lattice on the members of `carrier`. */
  datatype Lattice<!A> = Lattice(carrier: A -> bool, leq: (A, A) -> bool, meet: (A, A) -> A, join: (A, A) -> A)

  ghost predicate PartialOrder<A(!new)>(l: Lattice<A>) {
    && (forall x | l.carrier(x) :: l.leq(x, x))
    && (forall x, y | l.carrier(x) && l.carrier(y) && l.leq(x, y) && l.leq(y, x) :: x == y)
    && (forall x, y, z | l.carrier(x) && l.carrier(y) && l.carrier(z) && l.leq(x, y) && l.leq(y, z) :: l.leq(x, z))
  }

  ghost predicate GreatestLowerBound<A(!new)>(l: Lattice<A>, x: A, y: A, m: A) {
    && l.carrier(m) && l.leq(m, x) && l.leq(m, y)
    && (forall z | l.carrier(z) && l.leq(z, x) && l.leq(z, y) :: l.leq(z, m))
  }

  ghost predicate LeastUpperBound<A(!new)>(l: Lattice<A>, x: A, y: A, j: A) {
    && l.carrier(j) && l.leq(x, j) && l.leq(y, j)
    && (forall z | l.carrier(z) && l.leq(x, z) && l.leq(y, z) :: l.leq(j, z))
  }

  ghost predicate IsLattice<A(!new)>(l: Lattice<A>) {
    && PartialOrder(l)
    && (forall x, y | l.carrier(x) && l.carrier(y) :: GreatestLowerBound(l, x, y, l.meet(x, y)))
    && (forall x, y | l.carrier(x) && l.carrier(y) :: LeastUpperBound(l, x, y, l.join(x, y)))
  }

  ghost predicate Assignment<A(!new)>(l: Lattice<A>, v: Term -> A) {
    forall x: Term :: l.carrier(v(x))
  }

  /** The symbols ^ and m stand for the meet, v and j for the join. */
  function Eval<A>(t: Term, l: Lattice<A>, v: Term -> A): A {
    match t
    case Var(_) => v(t)
    case App(f, args) =>
      if |args| != 2 then v(t)
      else if f == MEET_SYM || f == M_SYM then l.meet(Eval(args[0], l, v), Eval(args[1], l, v))
      else if f == JOIN_SYM || f == J_SYM then l.join(Eval(args[0], l, v), Eval(args[1], l, v))
      else v(t)
  }

  /** What each of the four symbols means, and that it makes terms of terms. */
  lemma {:induction false} SymbolsMean<A>(s: Term, t: Term, l: Lattice<A>, v: Term -> A)
    ensures Eval(App(MEET_SYM, [s, t]), l, v) == Eval(App(M_SYM, [s, t]), l, v) == l.meet(Eval(s, l, v), Eval(t, l, v))
    ensures Eval(App(JOIN_SYM, [s, t]), l, v) == Eval(App(J_SYM, [s, t]), l, v) == l.join(Eval(s, l, v), Eval(t, l, v))
    ensures forall f | f in {MEET_SYM, M_SYM, JOIN_SYM, J_SYM} ::
              LatticeTerm(App(f, [s, t])) <==> LatticeTerm(s) && LatticeTerm(t)
  {
    var two := [s, t];
    assert two[0] == s && two[1] == t;
  }

  lemma {:induction false} EvalInCarrier<A(!new)>(t: Term, l: Lattice<A>, v: Term -> A)
    requires IsLattice(l) && Assignment(l, v)
    ensures l.carrier(Eval(t, l, v))
  {
    if MeetTerm(t) || JoinTerm(t) {
      EvalInCarrier(t.args[0], l, v);
      EvalInCarrier(t.args[1], l, v);
    }
  }

  // ---------- Soundness ----------

  /** Whatever the procedure accepts holds in every lattice, over any type. */
  lemma {:induction false} LeqSound<A(!new)>(s: Term, t: Term, l: Lattice<A>, v: Term -> A)
    requires IsLattice(l) && Assignment(l, v)
    requires LatticeLeq(s, t)
    ensures l.leq(Eval(s, l, v), Eval(t, l, v))
    decreases s, t
  {
    EvalInCarrier(s, l, v);
    EvalInCarrier(t, l, v);
    if s.Constant() && t.Constant() {
      assert s.args == t.args;
    } else if JoinTerm(s) {
      SoundArgs(s, l, v);
      LeqSound(s.args[0], t, l, v);
      LeqSound(s.args[1], t, l, v);
    } else if MeetTerm(t) {
      SoundArgs(t, l, v);
      LeqSound(s, t.args[0], l, v);
      LeqSound(s, t.args[1], l, v);
    } else if JoinTerm(t) && LatticeLeq(s, t.args[0]) {
      SoundArgs(t, l, v);
      LeqSound(s, t.args[0], l, v);
    } else if JoinTerm(t) && LatticeLeq(s, t.args[1]) {
      SoundArgs(t, l, v);
      LeqSound(s, t.args[1], l, v);
    } else if MeetTerm(s) {
      SoundArgs(s, l, v);
      var k := if LatticeLeq(s.args[0], t) then 0 else 1;
      LeqSound(s.args[k], t, l, v);
    }
  }

  // Bounds of a compound term's value, relative to its arguments' values.
  lemma {:induction false} SoundArgs<A(!new)>(t: Term, l: Lattice<A>, v: Term -> A)
    requires IsLattice(l) && Assignment(l, v)
    requires MeetTerm(t) || JoinTerm(t)
    ensures l.carrier(Eval(t.args[0], l, v)) && l.carrier(Eval(t.args[1], l, v))
    ensures MeetTerm(t) ==> GreatestLowerBound(l, Eval(t.args[0], l, v), Eval(t.args[1], l, v), Eval(t, l, v))
    ensures JoinTerm(t) ==> LeastUpperBound(l, Eval(t.args[0], l, v), Eval(t.args[1], l, v), Eval(t, l, v))
  {
    EvalInCarrier(t.args[0], l, v);
    EvalInCarrier(t.args[1], l, v);
  }

  // ---------- The relation is a preorder with meets and joins ----------

  lemma {:induction false} LeqJoinRight(s: Term, t: Term, k: nat)
    requires LatticeTerm(s) && JoinTerm(t) && k < 2 && LatticeLeq(s, t.args[k])
    ensures LatticeLeq(s, t)
    decreases s
  {
    if JoinTerm(s) {
      LeqJoinLeftInv(s, t.args[k]);
      LeqJoinRight(s.args[0], t, k);
      LeqJoinRight(s.args[1], t, k);
    }
  }

  lemma {:induction false} LeqJoinLeftInv(s: Term, t: Term)
    requires JoinTerm(s)
    ensures LatticeLeq(s, t) <==> LatticeLeq(s.args[0], t) && LatticeLeq(s.args[1], t)
  {
  }

  lemma {:induction false} LeqMeetLeft(s: Term, t: Term, k: nat)
    requires LatticeTerm(t) && MeetTerm(s) && k < 2 && LatticeLeq(s.args[k], t)
    ensures LatticeLeq(s, t)
    decreases t
  {
    if MeetTerm(t) {
      LeqMeetRightInv(s.args[k], t);
      LeqMeetLeft(s, t.args[0], k);
      LeqMeetLeft(s, t.args[1], k);
    }
  }

  lemma {:induction false} LeqMeetRightInv(s: Term, t: Term)
    requires MeetTerm(t)
    ensures LatticeLeq(s, t) <==> LatticeLeq(s, t.args[0]) && LatticeLeq(s, t.args[1])
    decreases s
  {
    if JoinTerm(s) {
      LeqMeetRightInv(s.args[0], t);
      LeqMeetRightInv(s.args[1], t);
    }
  }

  lemma {:induction false} LeqReflexive(t: Term)
    requires LatticeTerm(t)
    ensures LatticeLeq(t, t)
  {
    if JoinTerm(t) {
      LeqReflexive(t.args[0]);
      LeqReflexive(t.args[1]);
      LeqJoinRight(t.args[0], t, 0);
      LeqJoinRight(t.args[1], t, 1);
    } else if MeetTerm(t) {
      LeqReflexive(t.args[0]);
      LeqReflexive(t.args[1]);
      LeqMeetLeft(t, t.args[0], 0);
      LeqMeetLeft(t, t.args[1], 1);
    }
  }

  /** Cut elimination: the recursion is transitive although no rule says so. */
  lemma {:induction false} LeqTransitive(r: Term, s: Term, t: Term)
    requires LatticeTerm(r) && LatticeTerm(s) && LatticeTerm(t)
    requires LatticeLeq(r, s) && LatticeLeq(s, t)
    ensures LatticeLeq(r, t)
    decreases r, s, t
  {
    if JoinTerm(r) {
      LeqTransitive(r.args[0], s, t);
      LeqTransitive(r.args[1], s, t);
    } else if MeetTerm(t) {
      LeqMeetRightInv(s, t);
      LeqTransitive(r, s, t.args[0]);
      LeqTransitive(r, s, t.args[1]);
    } else if MeetTerm(r) && (LatticeLeq(r.args[0], s) || LatticeLeq(r.args[1], s)) {
      var k := if LatticeLeq(r.args[0], s) then 0 else 1;
      LeqTransitive(r.args[k], s, t);
      LeqMeetLeft(r, t, k);
    } else if JoinTerm(t) && (LatticeLeq(s, t.args[0]) || LatticeLeq(s, t.args[1])) {
      var k := if LatticeLeq(s, t.args[0]) then 0 else 1;
      LeqTransitive(r, s, t.args[k]);
      LeqJoinRight(r, t, k);
    } else if JoinTerm(s) {
      LeqJoinLeftInv(s, t);
      var k := if LatticeLeq(r, s.args[0]) then 0 else 1;
      LeqTransitive(r, s.args[k], t);
    } else if MeetTerm(s) {
      LeqMeetRightInv(r, s);
      var k := if LatticeLeq(s.args[0], t) then 0 else 1;
      LeqTransitive(r, s.args[k], t);
    }
  }

  // ---------- Completeness: the lattice of principal ideals ----------

  ghost function Down(t: Term): iset<Term> {
    iset x: Term | LatticeTerm(x) && LatticeLeq(x, t)
  }

  ghost function Meet(s: Term, t: Term): Term { App(MEET_SYM, [s, t]) }
  ghost function Join(s: Term, t: Term): Term { App(JOIN_SYM, [s, t]) }

  ghost predicate Principal(i: iset<Term>) {
    exists t :: LatticeTerm(t) && i == Down(t)
  }

  ghost predicate BelowSomeJoin(z: Term, i: iset<Term>, j: iset<Term>) {
    LatticeTerm(z) && exists a, b :: a in i && b in j && LatticeLeq(z, Join(a, b))
  }

  ghost predicate Included(i: iset<Term>, j: iset<Term>) { i <= j }
  ghost function MeetIdeal(i: iset<Term>, j: iset<Term>): iset<Term> { i * j }
  ghost function JoinIdeal(i: iset<Term>, j: iset<Term>): iset<Term> { iset z: Term | BelowSomeJoin(z, i, j) }

  ghost function Ideals(): Lattice<iset<Term>> {
    Lattice(Principal, Included, MeetIdeal, JoinIdeal)
  }

  lemma {:induction false} DownOrder(s: Term, t: Term)
    requires LatticeTerm(s) && LatticeTerm(t)
    ensures Down(s) <= Down(t) <==> LatticeLeq(s, t)
  {
    LeqReflexive(s);
    assert s in Down(s);
    if LatticeLeq(s, t) {
      forall x | x in Down(s) ensures x in Down(t) { LeqTransitive(x, s, t); }
    }
  }

  lemma {:induction false} DownMeet(t: Term)
    requires LatticeTerm(t) && MeetTerm(t)
    ensures MeetIdeal(Down(t.args[0]), Down(t.args[1])) == Down(t)
  {
    forall x ensures x in Down(t) <==> x in Down(t.args[0]) && x in Down(t.args[1]) { LeqMeetRightInv(x, t); }
  }

  lemma {:induction false} DownJoin(t: Term)
    requires LatticeTerm(t) && JoinTerm(t)
    ensures JoinIdeal(Down(t.args[0]), Down(t.args[1])) == Down(t)
  {
    var a, b := t.args[0], t.args[1];
    var i, j := Down(a), Down(b);
    LeqReflexive(a);
    LeqReflexive(b);
    LeqReflexive(t);
    var ab := Join(a, b);
    LeqReflexive(ab);
    assert a in i && b in j;
    forall z ensures z in Down(t) <==> BelowSomeJoin(z, i, j) {
      if z in Down(t) {
        assert LatticeLeq(a, ab) && LatticeLeq(b, ab);
        assert LatticeLeq(t, ab);
        LeqTransitive(z, t, ab);
      }
      if BelowSomeJoin(z, i, j) {
        var c, d :| c in i && d in j && LatticeLeq(z, Join(c, d));
        LeqJoinRight(c, t, 0);
        LeqJoinRight(d, t, 1);
        LeqTransitive(z, Join(c, d), t);
      }
    }
  }

  lemma {:induction false} MeetIdealIsGlb(i: iset<Term>, j: iset<Term>)
    requires Principal(i) && Principal(j)
    ensures GreatestLowerBound(Ideals(), i, j, MeetIdeal(i, j))
  {
    var a :| LatticeTerm(a) && i == Down(a);
    var b :| LatticeTerm(b) && j == Down(b);
    DownMeet(Meet(a, b));
    assert LatticeTerm(Meet(a, b));
  }

  lemma {:induction false} JoinIdealIsLub(i: iset<Term>, j: iset<Term>)
    requires Principal(i) && Principal(j)
    ensures LeastUpperBound(Ideals(), i, j, JoinIdeal(i, j))
  {
    var a :| LatticeTerm(a) && i == Down(a);
    var b :| LatticeTerm(b) && j == Down(b);
    var u := Join(a, b);
    DownJoin(u);
    assert LatticeTerm(u);
    LeqReflexive(u);
    DownOrder(a, u);
    DownOrder(b, u);
    forall z | Principal(z) && Included(i, z) && Included(j, z) ensures Included(Down(u), z) {
      var c :| LatticeTerm(c) && z == Down(c);
      DownOrder(a, c);
      DownOrder(b, c);
      DownOrder(u, c);
    }
  }

  lemma {:induction false} IdealsOrdered()
    ensures PartialOrder(Ideals())
  {
    forall i, j | Included(i, j) && Included(j, i) ensures i == j { }
  }

  lemma {:induction false} IdealsFormLattice()
    ensures IsLattice(Ideals())
  {
    var l := Ideals();
    IdealsOrdered();
    forall i, j | l.carrier(i) && l.carrier(j) ensures GreatestLowerBound(l, i, j, l.meet(i, j)) {
      MeetIdealIsGlb(i, j);
    }
    forall i, j | l.carrier(i) && l.carrier(j) ensures LeastUpperBound(l, i, j, l.join(i, j)) {
      JoinIdealIsLub(i, j);
    }
  }

  ghost function Canonical(): Term -> iset<Term> {
    (t: Term) => if LatticeTerm(t) then Down(t) else Down(Var(0))
  }

  lemma {:induction false} EvalCanonical(t: Term)
    requires LatticeTerm(t)
    ensures Eval(t, Ideals(), Canonical()) == Down(t)
  {
    if MeetTerm(t) || JoinTerm(t) {
      EvalCanonical(t.args[0]);
      EvalCanonical(t.args[1]);
      if MeetTerm(t) { DownMeet(t); } else { DownJoin(t); }
    }
  }

  /** Whitman's theorem: the procedure decides s <= t in all lattices.  One carrier type
      already suffices on the right; LeqSound covers all the others. */
  lemma {:induction false} WhitmanDecides(s: Term, t: Term)
    requires LatticeTerm(s) && LatticeTerm(t)
    ensures LatticeLeq(s, t) <==>
            forall l: Lattice<iset<Term>>, v: Term -> iset<Term> | IsLattice(l) && Assignment(l, v) ::
              l.leq(Eval(s, l, v), Eval(t, l, v))
  {
    if LatticeLeq(s, t) {
      forall l: Lattice<iset<Term>>, v: Term -> iset<Term> | IsLattice(l) && Assignment(l, v)
        ensures l.leq(Eval(s, l, v), Eval(t, l, v))
      {
        LeqSound(s, t, l, v);
      }
    } else {
      IdealsFormLattice();
      var l, v := Ideals(), Canonical();
      assert Assignment(l, v) by { assert LatticeTerm(Var(0)); }
      EvalCanonical(s);
      EvalCanonical(t);
      DownOrder(s, t);
      assert !l.leq(Eval(s, l, v), Eval(t, l, v));
    }
  }

  /** An accepted equation is exactly an identity of all lattices. */
  lemma {:induction false} IdentityDecides(s: Term, t: Term)
    requires LatticeTerm(s) && LatticeTerm(t)
    ensures LatticeIdentity(App(EQ_SYM, [s, t])) <==>
            forall l: Lattice<iset<Term>>, v: Term -> iset<Term> | IsLattice(l) && Assignment(l, v) ::
              Eval(s, l, v) == Eval(t, l, v)
    ensures forall f | f != EQ_SYM :: !LatticeIdentity(App(f, [s, t]))
  {
    WhitmanDecides(s, t);
    WhitmanDecides(t, s);
    forall l: Lattice<iset<Term>>, v: Term -> iset<Term> | IsLattice(l) && Assignment(l, v)
      ensures l.carrier(Eval(s, l, v)) && l.carrier(Eval(t, l, v))
    {
      EvalInCarrier(s, l, v);
      EvalInCarrier(t, l, v);
    }
  }
}

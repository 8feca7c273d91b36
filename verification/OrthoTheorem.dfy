/** The ortholattice procedure accepts exactly the identities of ortholattices. */
module OrthoTheorem {
  import opened OrthoFilter

  // ---------- The reductions keep values ----------

  /** The invariant of the recursion: what `simplify` makes of a result of `beta` is reduced. */
  lemma {:induction false} BetaReduced(t: Ol)
    requires Nnf(t)
    ensures var k := Simplify01(Beta(t)); InR(k) && Simplify01(k) == k
  {
    SimplifyNnf(Beta(t));
    if t.Join? || t.Meet? {
      BetaReduced(t.left);
      BetaReduced(t.right);
      var a, b := Simplify01(Beta(t.left)), Simplify01(Beta(t.right));
      var c := if t.Join? then Join(a, b) else Meet(a, b);
      ReducedTests(a, c);
      ReducedTests(b, c);
    }
  }

  /** A join that is not reduced is 1: the complement of an argument lies below it. */
  lemma {:induction false} UnreducedJoin<A(!new)>(a: Ol, b: Ol, l: Ortholattice<A>, v: Base -> A)
    requires InR(a) && InR(b) && !Reduced(Join(a, b)) && IsOrtholattice(l) && Assignment(l, v)
    ensures Eval(Join(a, b), l, v) == l.one
  {
    var t := Join(a, b);
    Parts(t, l, v);
    ReducedTests(a, t);
    ReducedTests(b, t);
    var x := if OlLeq(Not(a), t) then a else b;
    LeqSound(Not(x), t, l, v);
    NotValue(x, l, v);
    var e, j := Eval(x, l, v), Eval(t, l, v);
    assert Complements(l, e) && Bounds(l, j);
    assert Lub(l, e, l.comp(e), l.join(e, l.comp(e)));
  }

  lemma {:induction false} UnreducedMeet<A(!new)>(a: Ol, b: Ol, l: Ortholattice<A>, v: Base -> A)
    requires InR(a) && InR(b) && !Reduced(Meet(a, b)) && IsOrtholattice(l) && Assignment(l, v)
    ensures Eval(Meet(a, b), l, v) == l.zero
  {
    var t := Meet(a, b);
    Parts(t, l, v);
    ReducedTests(a, t);
    ReducedTests(b, t);
    var x := if OlLeq(t, Not(a)) then a else b;
    LeqSound(t, Not(x), l, v);
    NotValue(x, l, v);
    var e, m := Eval(x, l, v), Eval(t, l, v);
    assert Complements(l, e) && Bounds(l, m);
    assert Glb(l, e, l.comp(e), l.meet(e, l.comp(e)));
  }

  lemma {:induction false} BetaValue<A(!new)>(t: Ol, l: Ortholattice<A>, v: Base -> A)
    requires Nnf(t) && IsOrtholattice(l) && Assignment(l, v)
    ensures Eval(Beta(t), l, v) == Eval(t, l, v)
  {
    if t.Join? || t.Meet? {
      BetaValue(t.left, l, v);
      BetaValue(t.right, l, v);
      SimplifyValue(Beta(t.left), l, v);
      SimplifyValue(Beta(t.right), l, v);
      BetaReduced(t.left);
      BetaReduced(t.right);
      var a, b := Simplify01(Beta(t.left)), Simplify01(Beta(t.right));
      if t.Join? && !Reduced(Join(a, b)) { UnreducedJoin(a, b, l, v); }
      if t.Meet? && !Reduced(Meet(a, b)) { UnreducedMeet(a, b, l, v); }
    }
  }

  lemma {:induction false} PrepareValue<A(!new)>(t: Ol, l: Ortholattice<A>, v: Base -> A)
    requires Core(t) && IsOrtholattice(l) && Assignment(l, v)
    ensures Eval(Prepare(t), l, v) == Eval(t, l, v)
  {
    var n := NegNormForm(t);
    SimplifyNnf(n);
    NnfValue(t, l, v);
    SimplifyValue(n, l, v);
    BetaValue(Simplify01(n), l, v);
  }

  /** An accepted equation holds in every ortholattice, over any carrier. */
  lemma {:induction false} IdentitySound<A(!new)>(s: Ol, t: Ol, l: Ortholattice<A>, v: Base -> A)
    requires OlIdentity(ExpandDefs(s), ExpandDefs(t)) && IsOrtholattice(l) && Assignment(l, v)
    ensures Eval(s, l, v) == Eval(t, l, v)
  {
    var x, y := ExpandDefs(s), ExpandDefs(t);
    PrepareValue(x, l, v);
    PrepareValue(y, l, v);
    LeqSound(Prepare(x), Prepare(y), l, v);
    LeqSound(Prepare(y), Prepare(x), l, v);
    EvalIn(x, l, v);
    EvalIn(y, l, v);
    ExpandValue(s, l, v);
    ExpandValue(t, l, v);
  }

  // ---------- Simplification and the comparison ----------

  ghost predicate Same(s: Ol, t: Ol) {
    OlLeq(s, t) && OlLeq(t, s)
  }

  lemma {:induction false} MeetMonotone(a: Ol, b: Ol, c: Ol, d: Ol)
    requires OlLeq(a, c) && OlLeq(b, d)
    ensures OlLeq(Meet(a, b), Meet(c, d))
  {
    LeqMeetLeft(Meet(a, b), c);
    LeqMeetLeft(Meet(a, b), d);
    LeqMeetRightInv(Meet(a, b), Meet(c, d));
  }

  lemma {:induction false} JoinMonotone(a: Ol, b: Ol, c: Ol, d: Ol)
    requires OlLeq(a, c) && OlLeq(b, d)
    ensures OlLeq(Join(a, b), Join(c, d))
  {
    LeqJoinRight(a, Join(c, d));
    LeqJoinRight(b, Join(c, d));
    LeqJoinLeftInv(Join(a, b), Join(c, d));
  }

  /** The rules for 0 and 1 at the root. */
  lemma {:induction false} RootRules(x: Ol)
    requires Nnf(x)
    ensures Same(Meet(Zero, x), Zero) && Same(Meet(x, Zero), Zero) && Same(Meet(One, x), x) && Same(Meet(x, One), x)
    ensures Same(Join(One, x), One) && Same(Join(x, One), One) && Same(Join(Zero, x), x) && Same(Join(x, Zero), x)
  {
    LeqReflexive(x);
    LeqMeetLeft(Meet(Zero, x), Zero);
    LeqMeetLeft(Meet(x, Zero), Zero);
    LeqMeetLeft(Meet(One, x), x);
    LeqMeetLeft(Meet(x, One), x);
    LeqMeetRightInv(x, Meet(One, x));
    LeqMeetRightInv(x, Meet(x, One));
    LeqJoinRight(One, Join(One, x));
    LeqJoinRight(One, Join(x, One));
    LeqJoinRight(x, Join(Zero, x));
    LeqJoinRight(x, Join(x, Zero));
    LeqJoinLeftInv(Join(Zero, x), x);
    LeqJoinLeftInv(Join(x, Zero), x);
  }

  lemma {:induction false} SimplifySame(t: Ol)
    requires Nnf(t)
    ensures Nnf(Simplify01(t)) && Same(t, Simplify01(t))
  {
    SimplifyNnf(t);
    LeqReflexive(t);
    if t.Meet? || t.Join? {
      var a, b := Simplify01(t.left), Simplify01(t.right);
      SimplifySame(t.left);
      SimplifySame(t.right);
      RootRules(a);
      RootRules(b);
      var u := if t.Meet? then Meet(a, b) else Join(a, b);
      if t.Meet? {
        MeetMonotone(t.left, t.right, a, b);
        MeetMonotone(a, b, t.left, t.right);
      } else {
        JoinMonotone(t.left, t.right, a, b);
        JoinMonotone(a, b, t.left, t.right);
      }
      LeqReflexive(u);
      LeqTransitive(t, u, Simplify01(t));
      LeqTransitive(Simplify01(t), u, t);
    }
  }

  // ---------- The ortholattice of reduced terms ----------

  ghost function Down(t: Ol): iset<Ol> {
    iset x: Ol | InR(x) && OlLeq(x, t)
  }

  ghost predicate IsIdeal(i: iset<Ol>) {
    exists t :: InR(t) && i == Down(t)
  }

  ghost predicate Included(i: iset<Ol>, j: iset<Ol>) { i <= j }
  ghost function MeetOf(i: iset<Ol>, j: iset<Ol>): iset<Ol> { i * j }

  ghost predicate BelowAllComplements(z: Ol, i: iset<Ol>) {
    forall a | a in i && InR(a) :: OlLeq(z, Not(a))
  }

  ghost function CompOf(i: iset<Ol>): iset<Ol> {
    iset z: Ol | InR(z) && BelowAllComplements(z, i)
  }

  ghost function JoinOf(i: iset<Ol>, j: iset<Ol>): iset<Ol> {
    CompOf(CompOf(i) * CompOf(j))
  }

  ghost function Ideals(): Ortholattice<iset<Ol>> {
    Ortholattice(IsIdeal, Included, MeetOf, JoinOf, CompOf, Down(Zero), Down(One))
  }

  lemma {:induction false} DownOrder(s: Ol, t: Ol)
    requires InR(s) && Nnf(t)
    ensures Down(s) <= Down(t) <==> OlLeq(s, t)
  {
    LeqReflexive(s);
    assert s in Down(s);
    if OlLeq(s, t) {
      forall x | x in Down(s) ensures x in Down(t) { LeqTransitive(x, s, t); }
    }
  }

  lemma {:induction false} DownMeet(a: Ol, b: Ol)
    requires InR(a) && InR(b)
    ensures MeetOf(Down(a), Down(b)) == Down(Glue(a, b))
  {
    forall c | InR(c) ensures c in Down(Glue(a, b)) <==> c in Down(a) && c in Down(b) { GlueIsGlb(a, b, c); }
  }

  lemma {:induction false} DownComp(t: Ol)
    requires InR(t)
    ensures InR(Not(t)) && CompOf(Down(t)) == Down(Not(t))
  {
    NotReduced(t);
    LeqReflexive(t);
    assert t in Down(t);
    forall z | InR(z) ensures z in Down(Not(t)) <==> BelowAllComplements(z, Down(t)) {
      if OlLeq(z, Not(t)) {
        forall a | a in Down(t) && InR(a) ensures OlLeq(z, Not(a)) {
          NotReverses(a, t);
          LeqTransitive(z, Not(t), Not(a));
        }
      }
    }
  }

  /** The join of two reduced terms. */
  ghost function Span(a: Ol, b: Ol): (r: Ol)
    requires InR(a) && InR(b)
    ensures InR(r)
  {
    NotReduced(a);
    NotReduced(b);
    NotReduced(Glue(Not(a), Not(b)));
    Not(Glue(Not(a), Not(b)))
  }

  lemma {:induction false} DownJoin(a: Ol, b: Ol)
    requires InR(a) && InR(b)
    ensures JoinOf(Down(a), Down(b)) == Down(Span(a, b))
  {
    DownComp(a);
    DownComp(b);
    DownMeet(Not(a), Not(b));
    DownComp(Glue(Not(a), Not(b)));
  }

  lemma {:induction false} SpanIsLub(a: Ol, b: Ol, c: Ol)
    requires InR(a) && InR(b) && InR(c)
    ensures OlLeq(Span(a, b), c) <==> OlLeq(a, c) && OlLeq(b, c)
  {
    NotReduced(a);
    NotReduced(b);
    NotReduced(c);
    NotNot(c);
    NotFlips(Glue(Not(a), Not(b)), c);
    GlueIsGlb(Not(a), Not(b), Not(c));
    NotFlips(c, Not(a));
    NotFlips(c, Not(b));
    NotNot(a);
    NotNot(b);
  }

  lemma {:induction false} MeetIsGlb(i: iset<Ol>, j: iset<Ol>)
    requires IsIdeal(i) && IsIdeal(j)
    ensures Glb(Ideals(), i, j, MeetOf(i, j))
  {
    var a :| InR(a) && i == Down(a);
    var b :| InR(b) && j == Down(b);
    DownMeet(a, b);
  }

  lemma {:induction false} JoinIsLub(i: iset<Ol>, j: iset<Ol>)
    requires IsIdeal(i) && IsIdeal(j)
    ensures Lub(Ideals(), i, j, JoinOf(i, j))
  {
    var a :| InR(a) && i == Down(a);
    var b :| InR(b) && j == Down(b);
    var u := Span(a, b);
    DownJoin(a, b);
    LeqReflexive(u);
    SpanIsLub(a, b, u);
    DownOrder(a, u);
    DownOrder(b, u);
    forall z | IsIdeal(z) && Included(i, z) && Included(j, z) ensures Included(Down(u), z) {
      var c :| InR(c) && z == Down(c);
      DownOrder(a, c);
      DownOrder(b, c);
      SpanIsLub(a, b, c);
      DownOrder(u, c);
    }
  }

  lemma {:induction false} IdealBounds(i: iset<Ol>)
    requires IsIdeal(i)
    ensures Bounds(Ideals(), i)
  {
    var t :| InR(t) && i == Down(t);
    DownOrder(Zero, t);
    DownOrder(t, One);
    assert InR(Zero) && InR(One);
  }

  lemma {:induction false} ZeroBelow(t: Ol)
    requires InR(t) && OlLeq(t, Zero)
    ensures Down(t) == Down(Zero)
  {
    DownOrder(t, Zero);
    DownOrder(Zero, t);
  }

  lemma {:induction false} IdealComplements(i: iset<Ol>)
    requires IsIdeal(i)
    ensures Complements(Ideals(), i)
  {
    var t :| InR(t) && i == Down(t);
    DownComp(t);
    DownComp(Not(t));
    NotNot(t);
    GlueComplement(t);
    DownMeet(t, Not(t));
    ZeroBelow(Glue(t, Not(t)));
    DownMeet(Not(t), t);
    ZeroBelow(Glue(Not(t), t));
    DownComp(Zero);
  }

  lemma {:induction false} CompAntitone(i: iset<Ol>, j: iset<Ol>)
    requires IsIdeal(i) && IsIdeal(j) && i <= j
    ensures CompOf(j) <= CompOf(i)
  {
  }

  lemma {:induction false} IdealsOrtholattice()
    ensures IsOrtholattice(Ideals())
  {
    var l := Ideals();
    forall i, j | Included(i, j) && Included(j, i) ensures i == j { }
    forall i, j | l.carrier(i) && l.carrier(j) ensures Glb(l, i, j, l.meet(i, j)) { MeetIsGlb(i, j); }
    forall i, j | l.carrier(i) && l.carrier(j) ensures Lub(l, i, j, l.join(i, j)) { JoinIsLub(i, j); }
    forall i | l.carrier(i) ensures Bounds(l, i) { IdealBounds(i); }
    forall i | l.carrier(i) ensures Complements(l, i) { IdealComplements(i); }
    forall i, j | l.carrier(i) && l.carrier(j) && l.leq(i, j) ensures l.leq(l.comp(j), l.comp(i)) {
      CompAntitone(i, j);
    }
  }

  ghost function Generic(): Base -> iset<Ol> {
    (g: Base) => Down(Gen(g))
  }

  lemma {:induction false} GenericAssigns()
    ensures Assignment(Ideals(), Generic())
  {
    assert InR(Zero) && InR(One);
    forall g: Base ensures IsIdeal(Generic()(g)) { assert InR(Gen(g)); }
  }

  /** A reduced term is its own value. */
  lemma {:induction false} EvalReduced(t: Ol)
    requires InR(t)
    ensures Eval(t, Ideals(), Generic()) == Down(t)
  {
    match t
    case Meet(a, b) =>
      EvalReduced(a);
      EvalReduced(b);
      DownMeet(a, b);
    case Join(a, b) =>
      EvalReduced(a);
      EvalReduced(b);
      DownJoin(a, b);
      NotReduced(t);
      NotReduced(a);
      NotReduced(b);
      NotNot(t);
    case Comp(a) =>
      EvalReduced(a);
      DownComp(a);
    case _ =>
  }

  /** Prepared terms compare like their values. */
  lemma {:induction false} PreparedOrder(s: Ol, t: Ol)
    requires Core(s) && Core(t)
    requires Eval(s, Ideals(), Generic()) <= Eval(t, Ideals(), Generic())
    ensures OlLeq(Prepare(s), Prepare(t))
  {
    var x, y := Prepare(s), Prepare(t);
    var k, m := Simplify01(x), Simplify01(y);
    IdealsOrtholattice();
    GenericAssigns();
    PrepareValue(s, Ideals(), Generic());
    PrepareValue(t, Ideals(), Generic());
    SimplifyValue(x, Ideals(), Generic());
    SimplifyValue(y, Ideals(), Generic());
    SimplifyNnf(NegNormForm(s));
    SimplifyNnf(NegNormForm(t));
    BetaReduced(Simplify01(NegNormForm(s)));
    BetaReduced(Simplify01(NegNormForm(t)));
    EvalReduced(k);
    EvalReduced(m);
    DownOrder(k, m);
    SimplifySame(x);
    SimplifySame(y);
    LeqTransitive(x, k, m);
    LeqTransitive(x, m, y);
  }

  /** The procedure decides the identities of ortholattices. One carrier type already suffices on the
      right; IdentitySound covers all the others. */
  lemma {:induction false} BrunsDecides(s: Ol, t: Ol)
    ensures OlIdentity(ExpandDefs(s), ExpandDefs(t)) <==>
            forall l: Ortholattice<iset<Ol>>, v: Base -> iset<Ol> | IsOrtholattice(l) && Assignment(l, v) ::
              Eval(s, l, v) == Eval(t, l, v)
  {
    if OlIdentity(ExpandDefs(s), ExpandDefs(t)) {
      forall l: Ortholattice<iset<Ol>>, v: Base -> iset<Ol> | IsOrtholattice(l) && Assignment(l, v)
        ensures Eval(s, l, v) == Eval(t, l, v)
      {
        IdentitySound(s, t, l, v);
      }
    } else {
      var l, v := Ideals(), Generic();
      IdealsOrtholattice();
      GenericAssigns();
      ExpandValue(s, l, v);
      ExpandValue(t, l, v);
      if Eval(s, l, v) == Eval(t, l, v) {
        PreparedOrder(ExpandDefs(s), ExpandDefs(t));
        PreparedOrder(ExpandDefs(t), ExpandDefs(s));
      }
    }
  }
}

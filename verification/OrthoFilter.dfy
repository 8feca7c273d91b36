/** Bruns's procedure for identities of ortholattices (apps.src/olfilter.c).

    The procedure is shown to accept exactly the identities of all ortholattices: soundness holds over
    any carrier, and completeness exhibits one ortholattice, made of the reduced terms. */
module OrthoFilter {

  /** The base terms can be variables, constants, or mixed. */
  datatype Base = Variable(n: nat) | Constant(sym: nat)

  datatype Ol =
    | Zero
    | One
    | Gen(base: Base)
    | Comp(arg: Ol)
    | Meet(left: Ol, right: Ol)
    | Join(left: Ol, right: Ol)
    | Sheffer(left: Ol, right: Ol)

  /** Terms over meet, join, complement, 0 and 1. */
  predicate Core(t: Ol) {
    match t
    case Comp(a) => Core(a)
    case Meet(a, b) => Core(a) && Core(b)
    case Join(a, b) => Core(a) && Core(b)
    case Sheffer(_, _) => false
    case _ => true
  }

  function ExpandDefs(t: Ol): (r: Ol)
    ensures Core(r)
  {
    match t
    case Sheffer(a, b) => Join(Comp(ExpandDefs(a)), Comp(ExpandDefs(b)))
    case Comp(a) => Comp(ExpandDefs(a))
    case Meet(a, b) => Meet(ExpandDefs(a), ExpandDefs(b))
    case Join(a, b) => Join(ExpandDefs(a), ExpandDefs(b))
    case _ => t
  }

  function Weight(t: Ol): nat {
    match t
    case Comp(a) => 1 + Weight(a)
    case Meet(a, b) => 2 + Weight(a) + Weight(b)
    case Join(a, b) => 2 + Weight(a) + Weight(b)
    case _ => 0
  }

  /** Complements only on base terms. */
  predicate Nnf(t: Ol) {
    match t
    case Comp(a) => a.Gen?
    case Meet(a, b) => Nnf(a) && Nnf(b)
    case Join(a, b) => Nnf(a) && Nnf(b)
    case Sheffer(_, _) => false
    case _ => true
  }

  function NegNormForm(t: Ol): (r: Ol)
    requires Core(t)
    ensures Nnf(r)
    decreases Weight(t)
  {
    match t
    case Join(a, b) => Join(NegNormForm(a), NegNormForm(b))
    case Meet(a, b) => Meet(NegNormForm(a), NegNormForm(b))
    case Comp(s) =>
      assert Core(s) && Weight(t) == 1 + Weight(s);
      (match s
      case Zero => One
      case One => Zero
      case Gen(_) => t
      case Comp(a) => assert Weight(s) == 1 + Weight(a); NegNormForm(a)
      case Meet(a, b) =>
        assert Weight(s) == 2 + Weight(a) + Weight(b);
        Join(NegNormForm(Comp(a)), NegNormForm(Comp(b)))
      case Join(a, b) =>
        assert Weight(s) == 2 + Weight(a) + Weight(b);
        Meet(NegNormForm(Comp(a)), NegNormForm(Comp(b))))
    case _ => t
  }

  function Simplify01(t: Ol): Ol {
    match t
    case Comp(a) =>
      var s := Simplify01(a);
      if s.One? then Zero else if s.Zero? then One else Comp(s)
    case Meet(a, b) =>
      var s, u := Simplify01(a), Simplify01(b);
      if s.Zero? || u.Zero? then Zero else if s.One? then u else if u.One? then s else Meet(s, u)
    case Join(a, b) =>
      var s, u := Simplify01(a), Simplify01(b);
      if s.One? || u.One? then One else if s.Zero? then u else if u.Zero? then s else Join(s, u)
    case _ => t
  }

  predicate IsVariable(t: Ol) { t.Gen? && t.base.Variable? }
  predicate IsConstant(t: Ol) { t.Zero? || t.One? || (t.Gen? && t.base.Constant?) }

  predicate OlLeq(s: Ol, t: Ol)
    decreases s, t
  {
    if IsVariable(s) && IsVariable(t) then s == t
    else if s.Zero? then true
    else if t.One? then true
    else if IsConstant(s) && IsConstant(t) then s == t
    else if s.Join? then OlLeq(s.left, t) && OlLeq(s.right, t)
    else if t.Meet? then OlLeq(s, t.left) && OlLeq(s, t.right)
    else if s.Meet? && t.Join? then
      OlLeq(s, t.left) || OlLeq(s, t.right) || OlLeq(s.left, t) || OlLeq(s.right, t)
    else if t.Join? then OlLeq(s, t.left) || OlLeq(s, t.right)
    else if s.Meet? then OlLeq(s.left, t) || OlLeq(s.right, t)
    else if s.Comp? && t.Comp? then s.arg == t.arg
    else false
  }

  predicate ReducedJoin(a: Ol, t: Ol)
    requires Nnf(a)
  {
    NnfCore(a);
    !OlLeq(NegNormForm(Comp(a)), t)
  }

  predicate ReducedMeet(a: Ol, t: Ol)
    requires Nnf(a)
  {
    NnfCore(a);
    !OlLeq(t, NegNormForm(Comp(a)))
  }

  lemma {:induction false} NnfCore(t: Ol)
    requires Nnf(t)
    ensures Core(t)
  {
    match t
    case Meet(a, b) => NnfCore(a); NnfCore(b);
    case Join(a, b) => NnfCore(a); NnfCore(b);
    case _ =>
  }

  predicate Reduced(t: Ol)
    requires Nnf(t)
  {
    match t
    case Join(a, b) => Reduced(a) && Reduced(b) && ReducedJoin(a, t) && ReducedJoin(b, t)
    case Meet(a, b) => Reduced(a) && Reduced(b) && ReducedMeet(a, t) && ReducedMeet(b, t)
    case _ => true
  }

  function Beta(t: Ol): (r: Ol)
    requires Nnf(t)
    ensures Nnf(r)
  {
    match t
    case Join(x, y) =>
      SimplifyNnf(Beta(x));
      SimplifyNnf(Beta(y));
      var a, b := Simplify01(Beta(x)), Simplify01(Beta(y));
      if Reduced(Join(a, b)) || a.Zero? || b.Zero? then Join(a, b) else One
    case Meet(x, y) =>
      SimplifyNnf(Beta(x));
      SimplifyNnf(Beta(y));
      var a, b := Simplify01(Beta(x)), Simplify01(Beta(y));
      if Reduced(Meet(a, b)) || a.One? || b.One? then Meet(a, b) else Zero
    case _ => t
  }

  lemma {:induction false} SimplifyNnf(t: Ol)
    requires Nnf(t)
    ensures Nnf(Simplify01(t))
  {
    match t
    case Meet(a, b) => SimplifyNnf(a); SimplifyNnf(b);
    case Join(a, b) => SimplifyNnf(a); SimplifyNnf(b);
    case _ =>
  }

  function Prepare(t: Ol): (r: Ol)
    requires Core(t)
    ensures Nnf(r)
  {
    SimplifyNnf(NegNormForm(t));
    Beta(Simplify01(NegNormForm(t)))
  }

  predicate OlIdentity(s: Ol, t: Ol)
    requires Core(s) && Core(t)
  {
    OlLeq(Prepare(s), Prepare(t)) && OlLeq(Prepare(t), Prepare(s))
  }

  // ---------- Ortholattices ----------

  /** An ortholattice on the members of `carrier`. */
  datatype Ortholattice<!A> = Ortholattice(
    carrier: A -> bool, leq: (A, A) -> bool, meet: (A, A) -> A, join: (A, A) -> A, comp: A -> A, zero: A, one: A)

  ghost predicate PartialOrder<A(!new)>(l: Ortholattice<A>) {
    && (forall x | l.carrier(x) :: l.leq(x, x))
    && (forall x, y | l.carrier(x) && l.carrier(y) && l.leq(x, y) && l.leq(y, x) :: x == y)
    && (forall x, y, z | l.carrier(x) && l.carrier(y) && l.carrier(z) && l.leq(x, y) && l.leq(y, z) :: l.leq(x, z))
  }

  ghost predicate Glb<A(!new)>(l: Ortholattice<A>, x: A, y: A, m: A) {
    && l.carrier(m) && l.leq(m, x) && l.leq(m, y)
    && (forall z | l.carrier(z) && l.leq(z, x) && l.leq(z, y) :: l.leq(z, m))
  }

  ghost predicate Lub<A(!new)>(l: Ortholattice<A>, x: A, y: A, j: A) {
    && l.carrier(j) && l.leq(x, j) && l.leq(y, j)
    && (forall z | l.carrier(z) && l.leq(x, z) && l.leq(y, z) :: l.leq(j, z))
  }

  ghost predicate Bounds<A>(l: Ortholattice<A>, x: A) {
    l.carrier(l.zero) && l.carrier(l.one) && l.leq(l.zero, x) && l.leq(x, l.one)
  }

  ghost predicate Complements<A>(l: Ortholattice<A>, x: A) {
    && l.carrier(l.comp(x)) && l.comp(l.comp(x)) == x
    && l.meet(x, l.comp(x)) == l.zero && l.join(x, l.comp(x)) == l.one
  }

  ghost predicate IsOrtholattice<A(!new)>(l: Ortholattice<A>) {
    && PartialOrder(l)
    && (forall x, y | l.carrier(x) && l.carrier(y) :: Glb(l, x, y, l.meet(x, y)))
    && (forall x, y | l.carrier(x) && l.carrier(y) :: Lub(l, x, y, l.join(x, y)))
    && (forall x | l.carrier(x) :: Bounds(l, x))
    && (forall x | l.carrier(x) :: Complements(l, x))
    && (forall x, y | l.carrier(x) && l.carrier(y) && l.leq(x, y) :: l.leq(l.comp(y), l.comp(x)))
  }

  ghost predicate Assignment<A(!new)>(l: Ortholattice<A>, v: Base -> A) {
    (forall x: Base :: l.carrier(v(x))) && l.carrier(l.zero) && l.carrier(l.one)
  }

  /** The Sheffer stroke is the join of the complements. */
  function Eval<A>(t: Ol, l: Ortholattice<A>, v: Base -> A): A {
    match t
    case Zero => l.zero
    case One => l.one
    case Gen(g) => v(g)
    case Comp(a) => l.comp(Eval(a, l, v))
    case Meet(a, b) => l.meet(Eval(a, l, v), Eval(b, l, v))
    case Join(a, b) => l.join(Eval(a, l, v), Eval(b, l, v))
    case Sheffer(a, b) => l.join(l.comp(Eval(a, l, v)), l.comp(Eval(b, l, v)))
  }

  lemma {:induction false} ExpandValue<A>(t: Ol, l: Ortholattice<A>, v: Base -> A)
    ensures Eval(ExpandDefs(t), l, v) == Eval(t, l, v)
  {
    match t
    case Comp(a) => ExpandValue(a, l, v);
    case Meet(a, b) => ExpandValue(a, l, v); ExpandValue(b, l, v);
    case Join(a, b) => ExpandValue(a, l, v); ExpandValue(b, l, v);
    case Sheffer(a, b) => ExpandValue(a, l, v); ExpandValue(b, l, v);
    case _ =>
  }

  lemma {:induction false} EvalIn<A(!new)>(t: Ol, l: Ortholattice<A>, v: Base -> A)
    requires IsOrtholattice(l) && Assignment(l, v)
    ensures l.carrier(Eval(t, l, v))
  {
    match t
    case Comp(a) => EvalIn(a, l, v); assert Complements(l, Eval(a, l, v));
    case Meet(a, b) => EvalIn(a, l, v); EvalIn(b, l, v);
    case Join(a, b) => EvalIn(a, l, v); EvalIn(b, l, v);
    case Sheffer(a, b) =>
      EvalIn(a, l, v);
      EvalIn(b, l, v);
      assert Complements(l, Eval(a, l, v)) && Complements(l, Eval(b, l, v));
    case _ =>
  }

  // ---------- Soundness ----------

  lemma {:induction false} DeMorgan<A(!new)>(l: Ortholattice<A>, x: A, y: A)
    requires IsOrtholattice(l) && l.carrier(x) && l.carrier(y)
    ensures l.comp(l.meet(x, y)) == l.join(l.comp(x), l.comp(y))
    ensures l.comp(l.join(x, y)) == l.meet(l.comp(x), l.comp(y))
  {
    var m, j, x', y' := l.meet(x, y), l.join(x, y), l.comp(x), l.comp(y);
    assert Glb(l, x, y, m) && Lub(l, x, y, j);
    assert Complements(l, x) && Complements(l, y) && Complements(l, m) && Complements(l, j);
    var k, n := l.join(x', y'), l.meet(x', y');
    assert Lub(l, x', y', k) && Glb(l, x', y', n);
    assert Complements(l, k) && Complements(l, n);
    assert l.leq(l.comp(k), x) && l.leq(l.comp(k), y);
    assert l.leq(l.comp(k), m) && l.leq(l.comp(m), k) && l.leq(k, l.comp(m));
    assert l.leq(x, l.comp(n)) && l.leq(y, l.comp(n));
    assert l.leq(j, l.comp(n)) && l.leq(n, l.comp(j)) && l.leq(l.comp(j), n);
  }

  lemma {:induction false} ZeroOne<A(!new)>(l: Ortholattice<A>, x: A)
    requires IsOrtholattice(l) && l.carrier(x)
    ensures l.comp(l.zero) == l.one && l.comp(l.one) == l.zero
    ensures l.meet(l.zero, x) == l.zero == l.meet(x, l.zero) && l.meet(l.one, x) == x == l.meet(x, l.one)
    ensures l.join(l.zero, x) == x == l.join(x, l.zero) && l.join(l.one, x) == l.one == l.join(x, l.one)
  {
    var z, o := l.zero, l.one;
    assert Bounds(l, x);
    assert Bounds(l, z) && Bounds(l, o) && Complements(l, z) && Complements(l, o);
    assert Glb(l, z, x, l.meet(z, x)) && Glb(l, x, z, l.meet(x, z)) && Glb(l, o, x, l.meet(o, x)) &&
        Glb(l, x, o, l.meet(x, o));
    assert Lub(l, z, x, l.join(z, x)) && Lub(l, x, z, l.join(x, z)) && Lub(l, o, x, l.join(o, x)) &&
        Lub(l, x, o, l.join(x, o));
    assert Bounds(l, l.comp(z)) && Bounds(l, l.comp(o));
    assert Bounds(l, l.meet(z, x)) && Bounds(l, l.meet(x, z)) && Bounds(l, l.join(o, x)) && Bounds(l, l.join(x, o));
    assert l.leq(z, l.comp(o)) && l.leq(l.comp(l.comp(o)), l.comp(z));
    assert l.leq(o, l.comp(z)) && l.comp(z) == o;
  }

  /** Negation normal form keeps the value. */
  lemma {:induction false} NnfValue<A(!new)>(t: Ol, l: Ortholattice<A>, v: Base -> A)
    requires Core(t) && IsOrtholattice(l) && Assignment(l, v)
    ensures Eval(NegNormForm(t), l, v) == Eval(t, l, v)
    decreases Weight(t)
  {
    match t
    case Join(a, b) => NnfValue(a, l, v); NnfValue(b, l, v);
    case Meet(a, b) => NnfValue(a, l, v); NnfValue(b, l, v);
    case Comp(s) =>
      assert Core(s) && Weight(t) == 1 + Weight(s);
      match s {
      case Comp(a) =>
        NnfValue(a, l, v);
        EvalIn(a, l, v);
        assert Complements(l, Eval(a, l, v));
      case Meet(a, b) =>
        assert Weight(s) == 2 + Weight(a) + Weight(b);
        NnfValue(Comp(a), l, v);
        NnfValue(Comp(b), l, v);
        EvalIn(a, l, v);
        EvalIn(b, l, v);
        DeMorgan(l, Eval(a, l, v), Eval(b, l, v));
      case Join(a, b) =>
        assert Weight(s) == 2 + Weight(a) + Weight(b);
        NnfValue(Comp(a), l, v);
        NnfValue(Comp(b), l, v);
        EvalIn(a, l, v);
        EvalIn(b, l, v);
        DeMorgan(l, Eval(a, l, v), Eval(b, l, v));
      case _ => ZeroOne(l, l.zero);
      }
    case _ =>
  }

  /** Removing 0 and 1 keeps the value. */
  lemma {:induction false} SimplifyValue<A(!new)>(t: Ol, l: Ortholattice<A>, v: Base -> A)
    requires IsOrtholattice(l) && Assignment(l, v)
    ensures Eval(Simplify01(t), l, v) == Eval(t, l, v)
  {
    match t
    case Comp(a) => SimplifyValue(a, l, v); ZeroOne(l, l.zero);
    case Meet(a, b) =>
      SimplifyValue(a, l, v);
      SimplifyValue(b, l, v);
      EvalIn(a, l, v);
      EvalIn(b, l, v);
      ZeroOne(l, Eval(a, l, v));
      ZeroOne(l, Eval(b, l, v));
    case Join(a, b) =>
      SimplifyValue(a, l, v);
      SimplifyValue(b, l, v);
      EvalIn(a, l, v);
      EvalIn(b, l, v);
      ZeroOne(l, Eval(a, l, v));
      ZeroOne(l, Eval(b, l, v));
    case _ =>
  }

  // Bounds of a compound term's value, relative to its arguments' values.
  lemma {:induction false} Parts<A(!new)>(t: Ol, l: Ortholattice<A>, v: Base -> A)
    requires IsOrtholattice(l) && Assignment(l, v) && (t.Meet? || t.Join?)
    ensures l.carrier(Eval(t.left, l, v)) && l.carrier(Eval(t.right, l, v))
    ensures t.Meet? ==> Glb(l, Eval(t.left, l, v), Eval(t.right, l, v), Eval(t, l, v))
    ensures t.Join? ==> Lub(l, Eval(t.left, l, v), Eval(t.right, l, v), Eval(t, l, v))
  {
    EvalIn(t.left, l, v);
    EvalIn(t.right, l, v);
  }

  /** Whatever the comparison accepts holds in every ortholattice. */
  lemma {:induction false} LeqSound<A(!new)>(s: Ol, t: Ol, l: Ortholattice<A>, v: Base -> A)
    requires IsOrtholattice(l) && Assignment(l, v) && OlLeq(s, t)
    ensures l.leq(Eval(s, l, v), Eval(t, l, v))
    decreases s, t
  {
    EvalIn(s, l, v);
    EvalIn(t, l, v);
    assert Bounds(l, Eval(s, l, v)) && Bounds(l, Eval(t, l, v));
    if s.Zero? || t.One? || s == t {
    } else if s.Join? {
      Parts(s, l, v);
      LeqSound(s.left, t, l, v);
      LeqSound(s.right, t, l, v);
    } else if t.Meet? {
      Parts(t, l, v);
      LeqSound(s, t.left, l, v);
      LeqSound(s, t.right, l, v);
    } else if t.Join? && OlLeq(s, t.left) {
      Parts(t, l, v);
      LeqSound(s, t.left, l, v);
    } else if t.Join? && OlLeq(s, t.right) {
      Parts(t, l, v);
      LeqSound(s, t.right, l, v);
    } else if s.Meet? {
      Parts(s, l, v);
      if OlLeq(s.left, t) { LeqSound(s.left, t, l, v); } else { LeqSound(s.right, t, l, v); }
    }
  }

  // ---------- Complements of normal forms ----------

  function Not(t: Ol): (r: Ol)
    requires Nnf(t)
    ensures Nnf(r)
  {
    match t
    case Zero => One
    case One => Zero
    case Gen(_) => Comp(t)
    case Comp(a) => a
    case Meet(a, b) => Join(Not(a), Not(b))
    case Join(a, b) => Meet(Not(a), Not(b))
  }

  lemma {:induction false} NotNot(t: Ol)
    requires Nnf(t)
    ensures Not(Not(t)) == t
  {
    match t
    case Meet(a, b) => NotNot(a); NotNot(b);
    case Join(a, b) => NotNot(a); NotNot(b);
    case _ =>
  }

  /** On a normal form, negation normal form of the complement is the dual. */
  lemma {:induction false} NnfOfComp(t: Ol)
    requires Nnf(t)
    ensures Core(t) && NegNormForm(Comp(t)) == Not(t)
  {
    NnfCore(t);
    match t
    case Meet(a, b) => NnfOfComp(a); NnfOfComp(b);
    case Join(a, b) => NnfOfComp(a); NnfOfComp(b);
    case _ =>
  }

  /** What the tests for reduced terms compare. */
  lemma {:induction false} ReducedTests(a: Ol, t: Ol)
    requires Nnf(a)
    ensures ReducedJoin(a, t) <==> !OlLeq(Not(a), t)
    ensures ReducedMeet(a, t) <==> !OlLeq(t, Not(a))
  {
    NnfOfComp(a);
  }

  lemma {:induction false} NotValue<A(!new)>(t: Ol, l: Ortholattice<A>, v: Base -> A)
    requires Nnf(t) && IsOrtholattice(l) && Assignment(l, v)
    ensures Eval(Not(t), l, v) == l.comp(Eval(t, l, v))
  {
    NnfOfComp(t);
    NnfValue(Comp(t), l, v);
  }

  // ---------- The comparison is a preorder with meets, joins and complements ----------

  lemma {:induction false} LeqJoinLeftInv(s: Ol, t: Ol)
    requires s.Join?
    ensures OlLeq(s, t) <==> OlLeq(s.left, t) && OlLeq(s.right, t)
  {
  }

  lemma {:induction false} LeqMeetRightInv(s: Ol, t: Ol)
    requires t.Meet?
    ensures OlLeq(s, t) <==> OlLeq(s, t.left) && OlLeq(s, t.right)
    decreases s
  {
    if s.Join? {
      LeqMeetRightInv(s.left, t);
      LeqMeetRightInv(s.right, t);
    }
  }

  lemma {:induction false} LeqJoinRight(s: Ol, t: Ol)
    requires t.Join? && (OlLeq(s, t.left) || OlLeq(s, t.right))
    ensures OlLeq(s, t)
    decreases s
  {
    if s.Join? {
      LeqJoinLeftInv(s, t.left);
      LeqJoinLeftInv(s, t.right);
      LeqJoinRight(s.left, t);
      LeqJoinRight(s.right, t);
    }
  }

  lemma {:induction false} LeqMeetLeft(s: Ol, t: Ol)
    requires s.Meet? && (OlLeq(s.left, t) || OlLeq(s.right, t))
    ensures OlLeq(s, t)
    decreases t
  {
    if t.Meet? {
      LeqMeetRightInv(s.left, t);
      LeqMeetRightInv(s.right, t);
      LeqMeetLeft(s, t.left);
      LeqMeetLeft(s, t.right);
    }
  }

  lemma {:induction false} LeqReflexive(t: Ol)
    requires Nnf(t)
    ensures OlLeq(t, t)
  {
    match t
    case Join(a, b) =>
      LeqReflexive(a);
      LeqReflexive(b);
      LeqJoinRight(a, t);
      LeqJoinRight(b, t);
    case Meet(a, b) =>
      LeqReflexive(a);
      LeqReflexive(b);
      LeqMeetLeft(t, a);
      LeqMeetLeft(t, b);
    case _ =>
  }

  lemma {:induction false} LeqTransitive(r: Ol, s: Ol, t: Ol)
    requires Nnf(r) && Nnf(s) && Nnf(t) && OlLeq(r, s) && OlLeq(s, t)
    ensures OlLeq(r, t)
    decreases r, s, t
  {
    if r.Zero? || t.One? {
    } else if r.Join? {
      LeqJoinLeftInv(r, s);
      LeqTransitive(r.left, s, t);
      LeqTransitive(r.right, s, t);
    } else if t.Meet? {
      LeqMeetRightInv(s, t);
      LeqTransitive(r, s, t.left);
      LeqTransitive(r, s, t.right);
    } else if r.Meet? && OlLeq(r.left, s) {
      LeqTransitive(r.left, s, t);
      LeqMeetLeft(r, t);
    } else if r.Meet? && OlLeq(r.right, s) {
      LeqTransitive(r.right, s, t);
      LeqMeetLeft(r, t);
    } else if t.Join? && OlLeq(s, t.left) {
      LeqTransitive(r, s, t.left);
      LeqJoinRight(r, t);
    } else if t.Join? && OlLeq(s, t.right) {
      LeqTransitive(r, s, t.right);
      LeqJoinRight(r, t);
    } else if s.Join? {
      LeqJoinLeftInv(s, t);
      if OlLeq(r, s.left) { LeqTransitive(r, s.left, t); } else { LeqTransitive(r, s.right, t); }
    } else if s.Meet? {
      LeqMeetRightInv(r, s);
      if OlLeq(s.left, t) { LeqTransitive(r, s.left, t); } else { LeqTransitive(r, s.right, t); }
    }
  }

  /** The comparison is reversed by complements. */
  lemma {:induction false} NotReverses(s: Ol, t: Ol)
    requires Nnf(s) && Nnf(t) && OlLeq(s, t)
    ensures OlLeq(Not(t), Not(s))
    decreases s, t
  {
    if s.Zero? || t.One? {
    } else if s == t {
      LeqReflexive(Not(s));
    } else if s.Join? {
      LeqJoinLeftInv(s, t);
      NotReverses(s.left, t);
      NotReverses(s.right, t);
      LeqMeetRightInv(Not(t), Not(s));
    } else if t.Meet? {
      LeqMeetRightInv(s, t);
      NotReverses(s, t.left);
      NotReverses(s, t.right);
      LeqJoinLeftInv(Not(t), Not(s));
    } else if t.Join? && OlLeq(s, t.left) {
      NotReverses(s, t.left);
      LeqMeetLeft(Not(t), Not(s));
    } else if t.Join? && OlLeq(s, t.right) {
      NotReverses(s, t.right);
      LeqMeetLeft(Not(t), Not(s));
    } else if s.Meet? {
      if OlLeq(s.left, t) { NotReverses(s.left, t); } else { NotReverses(s.right, t); }
      LeqJoinRight(Not(t), Not(s));
    }
  }

  // ---------- Reduced terms ----------

  predicate InR(t: Ol) {
    Nnf(t) && Reduced(t)
  }

  lemma {:induction false} NotFlips(s: Ol, t: Ol)
    requires Nnf(s) && Nnf(t)
    ensures OlLeq(Not(s), t) <==> OlLeq(Not(t), s)
    ensures OlLeq(s, Not(t)) <==> OlLeq(t, Not(s))
  {
    NotNot(s);
    NotNot(t);
    if OlLeq(Not(s), t) { NotReverses(Not(s), t); }
    if OlLeq(Not(t), s) { NotReverses(Not(t), s); }
    if OlLeq(s, Not(t)) { NotReverses(s, Not(t)); }
    if OlLeq(t, Not(s)) { NotReverses(t, Not(s)); }
  }

  lemma {:induction false} NotReduced(t: Ol)
    requires InR(t)
    ensures InR(Not(t))
  {
    if t.Meet? || t.Join? {
      var a, b := t.left, t.right;
      NotReduced(a);
      NotReduced(b);
      ReducedTests(a, t);
      ReducedTests(b, t);
      ReducedTests(Not(a), Not(t));
      ReducedTests(Not(b), Not(t));
      NotNot(a);
      NotNot(b);
      NotFlips(a, t);
      NotFlips(b, t);
    }
  }

  /** The heart of the matter: no reduced term but 0 lies below its complement. */
  lemma {:induction false} BelowComplement(t: Ol)
    requires InR(t) && OlLeq(t, Not(t))
    ensures OlLeq(t, Zero)
  {
    if t.Meet? {
      var a, b := t.left, t.right;
      ReducedTests(a, t);
      ReducedTests(b, t);
      if OlLeq(a, Not(t)) { NotReverses(a, Not(t)); NotNot(t); }
      if OlLeq(b, Not(t)) { NotReverses(b, Not(t)); NotNot(t); }
    } else if t.Join? {
      var a, b := t.left, t.right;
      LeqJoinLeftInv(t, Not(t));
      LeqMeetRightInv(a, Not(t));
      LeqMeetRightInv(b, Not(t));
      BelowComplement(a);
      BelowComplement(b);
    }
  }

  /** The meet of two reduced terms. */
  function Glue(a: Ol, b: Ol): (r: Ol)
    requires InR(a) && InR(b)
    ensures InR(r)
  {
    if Reduced(Meet(a, b)) then Meet(a, b) else Zero
  }

  lemma {:induction false} GlueIsGlb(a: Ol, b: Ol, c: Ol)
    requires InR(a) && InR(b) && InR(c)
    ensures OlLeq(c, Glue(a, b)) <==> OlLeq(c, a) && OlLeq(c, b)
  {
    LeqMeetRightInv(c, Meet(a, b));
    if !Reduced(Meet(a, b)) {
      if OlLeq(c, Meet(a, b)) { BelowUnreduced(a, b, c); }
      if OlLeq(c, Zero) {
        LeqTransitive(c, Zero, a);
        LeqTransitive(c, Zero, b);
      }
    }
  }

  /** A meet that is not reduced has only 0 below it. */
  lemma {:induction false} BelowUnreduced(a: Ol, b: Ol, c: Ol)
    requires InR(a) && InR(b) && InR(c) && !Reduced(Meet(a, b)) && OlLeq(c, Meet(a, b))
    ensures OlLeq(c, Zero)
  {
    var m := Meet(a, b);
    LeqMeetRightInv(c, m);
    ReducedTests(a, m);
    ReducedTests(b, m);
    if OlLeq(m, Not(a)) { BelowApart(a, m, c); } else { BelowApart(b, m, c); }
  }

  lemma {:induction false} BelowApart(x: Ol, m: Ol, c: Ol)
    requires InR(x) && Nnf(m) && InR(c) && OlLeq(c, m) && OlLeq(m, Not(x)) && OlLeq(c, x)
    ensures OlLeq(c, Zero)
  {
    LeqTransitive(c, m, Not(x));
    NotReverses(c, x);
    LeqTransitive(c, Not(x), Not(c));
    BelowComplement(c);
  }

  /** A reduced term and its complement have only 0 below them. */
  lemma {:induction false} GlueComplement(t: Ol)
    requires InR(t)
    ensures InR(Not(t)) && OlLeq(Glue(t, Not(t)), Zero) && OlLeq(Glue(Not(t), t), Zero)
  {
    NotReduced(t);
    BelowBoth(t, Glue(t, Not(t)));
    BelowBoth(t, Glue(Not(t), t));
  }

  lemma {:induction false} BelowBoth(t: Ol, c: Ol)
    requires InR(t) && InR(Not(t)) && InR(c) && (c == Glue(t, Not(t)) || c == Glue(Not(t), t))
    ensures OlLeq(c, Zero)
  {
    LeqReflexive(c);
    GlueIsGlb(t, Not(t), c);
    GlueIsGlb(Not(t), t, c);
    NotReverses(c, t);
    LeqTransitive(c, Not(t), Not(c));
    BelowComplement(c);
  }
}

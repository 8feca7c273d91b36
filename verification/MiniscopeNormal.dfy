/** How far miniscope multiplies disjunctions out (ladr/cnf.c:1713-1914). */
module MiniscopeNormal {
  import opened Formulas
  import opened Simplify
  import opened Distribute
  import opened Cnf
  import opened Miniscope

  /** No existential quantifier, except inside negations. */
  predicate Universal(f: Formula)
    decreases f
  {
    match f
    case Atom(_, _) => true
    case Not(_) => true
    case And(kids) => forall i | 0 <= i < |kids| :: Universal(kids[i])
    case Or(kids) => forall i | 0 <= i < |kids| :: Universal(kids[i])
    case All(_, b) => Universal(b)
    case Exists(_, _) => false
  }

  /** Somewhere a disjunction is flattened to a single conjunction, of more than two arguments, which is
      then only balanced. */
  predicate Collapses(f: Formula)
    decreases f
  {
    match f
    case And(kids) => exists i :: 0 <= i < |kids| && Collapses(kids[i])
    case Or(kids) => (exists i :: 0 <= i < |kids| && Collapses(kids[i])) || SingleConjunction(MsAll(kids))
    case All(_, b) => Collapses(b)
    case _ => false
  }

  predicate SingleConjunction(gs: seq<Formula>) {
    var f := FlattenTop(Or(gs)); f.And? && |f.kids| > 2
  }

  lemma {:induction false} MergeOrCnf(fs: seq<Formula>)
    requires forall k | k in fs :: IsCnf(k)
    ensures forall k | k in Merge(fs, false) :: IsCnf(k)
  {
    if |fs| > 0 {
      assert fs[0] in fs && forall k | k in fs[1..] :: k in fs;
      MergeOrCnf(fs[1..]);
    }
  }

  lemma {:induction false} FlattenOrCnf(gs: seq<Formula>)
    requires forall k | k in gs :: IsCnf(k)
    ensures var f := FlattenTop(Or(gs)); if f.Or? then forall k | k in f.kids :: IsCnf(k) else IsCnf(f)
  {
    MergeOrCnf(gs);
    var m := Merge(gs, false);
    if |m| == 1 { assert m[0] in m; }
  }

  lemma {:induction false} OrDoneCnf(gs: seq<Formula>)
    requires NarrowedAll(gs) && (forall k | k in gs :: IsCnf(k)) && !SingleConjunction(gs)
    ensures IsCnf(OrDone(gs))
  {
    FlattenNarrowed(Or(gs));
    FlattenOrCnf(gs);
    var f := FlattenTop(Or(gs));
    if f.Or? && |f.kids| > 0 {
      OrTree(f.kids);
      KeptSame(f.kids);
      TreeCnf(KeptOr(f.kids));
    } else if f.And? && |f.kids| > 0 {
      var kids := f.kids;
      if |kids| == 1 {
        assert kids[0] in kids;
      } else {
        assert kids[..1] == [kids[0]] && kids[1..] == [kids[1]];
        assert BbtAnd(kids) == And([kids[0], kids[1]]);
      }
    }
  }

  lemma {:induction false} NarrowClause(v: nat, child: Formula)
    requires Clause(child)
    ensures Clause(Narrow(v, child))
  {
    if child.Or? {
      MentioningMembers(v, child.kids, true);
      MentioningMembers(v, child.kids, false);
    }
  }

  lemma {:induction false} PushAllCnf(v: nat, body: Formula)
    requires IsCnf(body)
    ensures IsCnf(PushAll(v, body))
  {
    if body.And? {
      forall k | k in NarrowAll(v, body.kids) ensures Clause(k) {
        var i :| 0 <= i < |body.kids| && NarrowAll(v, body.kids)[i] == k;
        assert body.kids[i] in body.kids;
        NarrowClause(v, body.kids[i]);
      }
    } else {
      NarrowClause(v, body);
    }
  }

  /** Without existential quantifiers the result is a conjunction of clauses of atoms and quantified
      formulas, unless a disjunction collapses. */
  lemma {:induction false} UniversalNormal(f: Formula)
    requires Universal(f) && !Collapses(f)
    ensures IsCnf(MsOf(f))
    decreases f
  {
    if f.All? {
      UniversalNormal(f.body);
      assert MsAll([f.body]) == [MsOf(f.body)] by { assert [f.body][1..] == []; }
      PushAllCnf(f.v, MsOf(f.body));
    } else if !f.Leaf() && |f.kids| > 0 {
      MsAllAt(f.kids);
      var gs := MsAll(f.kids);
      forall k | k in gs ensures IsCnf(k) {
        var i :| 0 <= i < |gs| && gs[i] == k;
        UniversalNormal(f.kids[i]);
      }
      if f.And? { AndCnf(gs); } else { OrDoneCnf(gs); }
    }
  }

  lemma {:induction false} MsAllAt(fs: seq<Formula>)
    ensures forall i | 0 <= i < |fs| :: MsAll(fs)[i] == MsOf(fs[i])
  {
    if |fs| > 0 {
      MsAllAt(fs[1..]);
      forall i | 0 <= i < |fs| ensures MsAll(fs)[i] == MsOf(fs[i]) { if i > 0 { assert fs[1..][i - 1] == fs[i]; } }
    }
  }

  /** And under an existential quantifier it is the dual of one. */
  lemma {:induction false} ExistentialNormal(f: Formula)
    requires f.Exists? && Universal(Dual(f)) && !Collapses(Dual(f))
    ensures IsCnf(Dual(MsOf(f)))
  {
    UniversalNormal(Dual(f));
    DualTwice(MsOf(Dual(f)));
  }
}

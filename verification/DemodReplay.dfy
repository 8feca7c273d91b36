/** What demodulation records is enough to redo it: fdemod_clause against particular_demod
    (ladr/flatdemod.c:454-493, ladr/demod.c:537-655), and which sides of an equation may be indexed
    (ladr/demod.c:40-104). */
module DemodReplay {
  import opened Options
  import opened Terms
  import opened DiscrimTree
  import opened Replay
  import opened FlatDemod
  import FlatRetrieval
  import Flatterm
  import GeneralizationIndex
  import PD = ParticularDemod

  /** No indexed side has the top symbol of an atom. */
  ghost predicate BelowAtoms(sys: System, atoms: seq<Term>) {
    forall e | e in EntriesAll(sys.kids) :: PD.NoAtomLike(atoms, e.1.Lhs())
  }

  /** The steps of fdemod_clause, applied one by one with particular_demod, give its result. */
  lemma {:induction false} StepsExpand(sys: System, atoms: seq<Term>, steps: seq<Step>)
    requires Indexed(sys, steps) && BelowAtoms(sys, atoms)
    ensures PD.ExpandSteps(atoms, sys.rules, steps) == ReplayIn(atoms, sys.rules, steps, 0)
  {
    forall j | 0 <= j < |steps| ensures PD.NoAtomLike(atoms, From(sys.rules[steps[j].id], steps[j].dir)) {
      var e :| e in EntriesAll(sys.kids) && e.1.rule == sys.rules[steps[j].id] && e.1.Dir() == steps[j].dir;
      assert e.1.Lhs() == From(sys.rules[steps[j].id], steps[j].dir);
    }
    PD.ExpandReplays(atoms, sys.rules, steps);
  }

  /** Demodulate a clause, then expand its justification step by step. */
  method DemodulateAndExpand(d: Demodulation, atoms: seq<Term>, increaseLimit: Option<int>)
    returns (result: seq<Term>, expanded: Option<seq<Term>>)
    requires WellIndexed(d.sys) && BelowAtoms(d.sys, atoms)
    modifies d
    ensures expanded == Some(result)
  {
    var increase, steps;
    result, increase, steps := d.FdemodClause(atoms, increaseLimit);
    StepsExpand(d.sys, atoms, steps);
    expanded := PD.Expand(atoms, d.sys.rules, steps);
  }

  // ---------- The candidates, by retrieval ----------

  lemma {:induction false} RigidRoot(sys: System)
    requires WellIndexed(sys) && FormedAll(sys.kids, 1)
    ensures FlatRetrieval.RootBinding(sys.kids) == None
  {
    if |sys.kids| > 0 {
      var e := GeneralizationIndex.FormedHasEntry(sys.kids[0], After(1, sys.kids[0].mark));
      assert e in EntriesAll(sys.kids);
      assert PathOf(e.1.Lhs())[0] == TopLabel(e.1.Lhs());
    }
  }

  /** The candidates for a term are what retrieval with its flatterm finds in the index, in that
      order. */
  method RetrieveCandidates(sys: System, t: Term) returns (sides: seq<Side>, ghost cands: seq<Candidate>)
    requires WellIndexed(sys) && FormedAll(sys.kids, 1)
    ensures cands == Candidates(sys, t)
    ensures |sides| == |Candidates(sys, t)| && forall i | 0 <= i < |sides| :: sides[i] == Candidates(sys, t)[i].0
  {
    RigidRoot(sys);
    var cells := Flatterm.TermToFlatterm(t);
    var q := new FlatRetrieval.Query(t, cells);
    sides, cands := q.RetrieveAll(sys.kids);
    assert q.q == t;
  }

  // ---------- demodulator_type ----------

  datatype DemodType = NotDemodulator | Oriented | LexDepLR | LexDepRL | LexDepBoth

  /** `renamable` is renamable_flip_eq: the equation is its own flip up to renaming. */
  function DemodulatorType(r: Rule, lexDepLimit: int, sane: bool, renamable: bool): DemodType {
    var a, b := Size(r.alpha), Size(r.beta);
    if r.oriented then Oriented
    else if sane && a != b then NotDemodulator
    else if lexDepLimit != -1 && a + b + 1 > lexDepLimit then NotDemodulator
    else
      var lr := Vars(r.beta) <= Vars(r.alpha) && !r.alpha.Var?;
      var rl := !renamable && Vars(r.alpha) <= Vars(r.beta) && !r.beta.Var?;
      if lr && rl then LexDepBoth else if lr then LexDepLR else if rl then LexDepRL else NotDemodulator
  }

  /** idx_demodulator: the sides that go into the index. */
  function IndexedSides(r: Rule, t: DemodType): seq<Side> {
    (if t.Oriented? || t.LexDepLR? || t.LexDepBoth? then [Side(r, true)] else []) +
    (if t.LexDepRL? || t.LexDepBoth? then [Side(r, false)] else [])
  }

  /** An equation that is not oriented may be used: within the limit, and with sides of one size when sane. */
  predicate Usable(r: Rule, lexDepLimit: int, sane: bool) {
    (sane ==> Size(r.alpha) == Size(r.beta)) && (lexDepLimit == -1 || Size(r.alpha) + Size(r.beta) + 1 <= lexDepLimit)
  }

  /** The left side is indexed for oriented equations, and for usable ones with all variables on the left;
      the right side for usable ones with all variables on the right that are not their own flip. */
  lemma {:induction false} IndexedExactly(r: Rule, lexDepLimit: int, sane: bool, renamable: bool)
    ensures var left := r.oriented || (Usable(r, lexDepLimit, sane) && r.alpha.App? &&
                                       forall n | n in Vars(r.beta) :: n in Vars(r.alpha));
            var right := !r.oriented && Usable(r, lexDepLimit, sane) && !renamable && r.beta.App? &&
                         forall n | n in Vars(r.alpha) :: n in Vars(r.beta);
            IndexedSides(r, DemodulatorType(r, lexDepLimit, sane, renamable)) ==
            (if left then [Side(r, true)] else []) + (if right then [Side(r, false)] else [])
    ensures var l, r2 := Side(r, true), Side(r, false);
            (l.Dir(), l.Lhs(), l.Rhs()) == (1, r.alpha, r.beta) &&
            (r2.Dir(), r2.Lhs(), r2.Rhs()) == (2, r.beta, r.alpha)
  {
    assert Vars(r.beta) <= Vars(r.alpha) <==> forall n | n in Vars(r.beta) :: n in Vars(r.alpha);
    assert Vars(r.alpha) <= Vars(r.beta) <==> forall n | n in Vars(r.alpha) :: n in Vars(r.beta);
  }

  /** Every indexed side is a nonvariable term with all the variables of the other side, given that
      oriented equations are so (their left side is greater in a term order). */
  lemma {:induction false} SidesAreSafe(r: Rule, lexDepLimit: int, sane: bool, renamable: bool, c: Side)
    requires r.oriented ==> r.alpha.App? && Vars(r.beta) <= Vars(r.alpha)
    requires c in IndexedSides(r, DemodulatorType(r, lexDepLimit, sane, renamable))
    ensures c.rule == r && c.Lhs().App? && Vars(c.Rhs()) <= Vars(c.Lhs())
  {
    var t := DemodulatorType(r, lexDepLimit, sane, renamable);
    assert c == Side(r, true) || c == Side(r, false);
  }
}

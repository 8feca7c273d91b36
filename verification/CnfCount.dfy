/** What cnf_max_clauses counts: the clauses of a formula that is multiplied out with no
    simplification at all (ladr/cnf.c:2055-2129). */
module CnfCount {
  import opened Formulas
  import opened Cnf

  type Leaves = seq<Formula>

  /** The clauses, as lists of leaves; quantifiers are left aside. */
  function Multiplied(f: Formula): seq<Leaves>
    decreases f, 1
  {
    match f
    case Atom(_, _) => [[f]]
    case Not(_) => [[f]]
    case And(kids) => Conjoined(kids)
    case Or(kids) => Disjoined(kids)
    case All(_, b) => Multiplied(b)
    case Exists(_, b) => Multiplied(b)
  }

  /** All clauses of all conjuncts. */
  function Conjoined(fs: seq<Formula>): seq<Leaves>
    decreases fs, 0
  {
    if |fs| == 0 then [] else Multiplied(fs[0]) + Conjoined(fs[1..])
  }

  /** One clause of each disjunct, in all ways. */
  function Disjoined(fs: seq<Formula>): seq<Leaves>
    decreases fs, 0
  {
    if |fs| == 0 then [[]] else Cross(Multiplied(fs[0]), Disjoined(fs[1..]))
  }

  function Cross(cs: seq<Leaves>, ds: seq<Leaves>): seq<Leaves> {
    if |cs| == 0 then [] else Joined(cs[0], ds) + Cross(cs[1..], ds)
  }

  function Joined(c: Leaves, ds: seq<Leaves>): (r: seq<Leaves>)
    ensures |r| == |ds|
  {
    seq(|ds|, i requires 0 <= i < |ds| => c + ds[i])
  }

  // ---------- The number of clauses ----------

  lemma {:induction false} CrossLength(cs: seq<Leaves>, ds: seq<Leaves>)
    ensures |Cross(cs, ds)| == |cs| * |ds|
  {
    if |cs| > 0 { CrossLength(cs[1..], ds); }
  }

  /** cnf_max_clauses is the number of clauses of the formula multiplied out. */
  lemma {:induction false} MaxClausesExact(f: Formula)
    ensures MaxClauses(f) == |Multiplied(f)|
    decreases f, 1
  {
    match f
    case And(kids) => MaxSumExact(kids);
    case Or(kids) => MaxProductExact(kids);
    case All(_, b) => MaxClausesExact(b);
    case Exists(_, b) => MaxClausesExact(b);
    case _ =>
  }

  lemma {:induction false} MaxSumExact(fs: seq<Formula>)
    ensures MaxSum(fs) == |Conjoined(fs)|
    decreases fs, 0
  {
    if |fs| > 0 {
      MaxClausesExact(fs[0]);
      MaxSumExact(fs[1..]);
    }
  }

  lemma {:induction false} MaxProductExact(fs: seq<Formula>)
    ensures MaxProduct(fs) == |Disjoined(fs)|
    decreases fs, 0
  {
    if |fs| > 0 {
      MaxClausesExact(fs[0]);
      MaxProductExact(fs[1..]);
      CrossLength(Multiplied(fs[0]), Disjoined(fs[1..]));
    }
  }

  // ---------- Their meaning ----------

  ghost predicate ClausesTrue(cs: seq<Leaves>, v: Valuation) {
    forall c | c in cs :: SomeTrue(c, v)
  }

  lemma {:induction false} JoinedTrue(c: Leaves, ds: seq<Leaves>, v: Valuation)
    ensures ClausesTrue(Joined(c, ds), v) <==> SomeTrue(c, v) || ClausesTrue(ds, v)
  {
    var r := Joined(c, ds);
    forall i | 0 <= i < |ds| ensures SomeTrue(r[i], v) <==> SomeTrue(c, v) || SomeTrue(ds[i], v) {
      assert forall x :: x in r[i] <==> x in c || x in ds[i];
    }
    assert forall d | d in ds :: exists i :: 0 <= i < |ds| && ds[i] == d;
    if ClausesTrue(r, v) && !SomeTrue(c, v) {
      forall d | d in ds ensures SomeTrue(d, v) {
        var i :| 0 <= i < |ds| && ds[i] == d;
        assert r[i] in r;
      }
    }
  }

  lemma {:induction false} CrossTrue(cs: seq<Leaves>, ds: seq<Leaves>, v: Valuation)
    ensures ClausesTrue(Cross(cs, ds), v) <==> ClausesTrue(cs, v) || ClausesTrue(ds, v)
  {
    if |cs| > 0 {
      JoinedTrue(cs[0], ds, v);
      CrossTrue(cs[1..], ds, v);
      assert forall c :: c in cs <==> c == cs[0] || c in cs[1..];
      var x, y := Joined(cs[0], ds), Cross(cs[1..], ds);
      assert forall c :: c in x + y <==> c in x || c in y;
    }
  }

  lemma {:induction false} AloneTruth(f: Formula, v: Valuation)
    ensures ClausesTrue([[f]], v) <==> Truth(f, v)
  {
    assert f in [f] && [f] in [[f]];
    assert SomeTrue([f], v) <==> Truth(f, v);
  }

  /** The clauses together mean the formula, when it has no quantifiers. */
  lemma {:induction false} MultipliedTruth(f: Formula, v: Valuation)
    requires QuantifierFree(f)
    ensures ClausesTrue(Multiplied(f), v) <==> Truth(f, v)
    decreases f, 1
  {
    match f
    case And(kids) => ConjoinedTruth(kids, v);
    case Or(kids) => DisjoinedTruth(kids, v);
    case Atom(_, _) => AloneTruth(f, v);
    case Not(_) => AloneTruth(f, v);
    case All(_, _) =>
    case Exists(_, _) =>
  }

  lemma {:induction false} ConjoinedTruth(fs: seq<Formula>, v: Valuation)
    requires forall i | 0 <= i < |fs| :: QuantifierFree(fs[i])
    ensures ClausesTrue(Conjoined(fs), v) <==> forall i | 0 <= i < |fs| :: Truth(fs[i], v)
    decreases fs, 0
  {
    if |fs| > 0 {
      MultipliedTruth(fs[0], v);
      ConjoinedTruth(fs[1..], v);
      var x, y := Multiplied(fs[0]), Conjoined(fs[1..]);
      assert forall c :: c in x + y <==> c in x || c in y;
      assert forall i | 0 < i < |fs| :: fs[i] == fs[1..][i - 1];
    }
  }

  lemma {:induction false} DisjoinedTruth(fs: seq<Formula>, v: Valuation)
    requires forall i | 0 <= i < |fs| :: QuantifierFree(fs[i])
    ensures ClausesTrue(Disjoined(fs), v) <==> exists i :: 0 <= i < |fs| && Truth(fs[i], v)
    decreases fs, 0
  {
    if |fs| == 0 {
      assert [] in Disjoined(fs) && !SomeTrue([], v);
    } else {
      MultipliedTruth(fs[0], v);
      DisjoinedTruth(fs[1..], v);
      CrossTrue(Multiplied(fs[0]), Disjoined(fs[1..]), v);
      assert forall i | 0 < i < |fs| :: fs[i] == fs[1..][i - 1];
      assert forall i | 0 <= i < |fs[1..]| :: fs[1..][i] == fs[i + 1];
    }
  }
}

/** Definitional conjunctive normal form: large arguments of a disjunction are named by fresh
    predicates before distribution (introduce_definition, cnf_def: ladr/cnf.c:1244-1307, 1358-1496, 1509-1606). */
module CnfDef {
  import opened Options
  import opened Terms
  import opened Formulas
  import opened Simplify
  import opened Distribute
  import opened Cnf
  import opened Structures

  /** Variables with larger numbers are not collected. */
  const MAX_VARS := 100

  /** Exactly the free variables that are collected. */
  ghost predicate Collects(vars: seq<nat>, f: Formula) {
    forall n: nat :: n in vars <==> n < MAX_VARS && Free(n, f)
  }

  /** The free variables below n, in increasing order. */
  function FreeBelow(f: Formula, n: nat): seq<nat>
    decreases f, n
  {
    if n == 0 then [] else FreeBelow(f, n - 1) + (if Free(n - 1, f) then [n - 1] else [])
  }

  function Collected(f: Formula): seq<nat> {
    FreeBelow(f, MAX_VARS)
  }

  lemma {:induction false} FreeBelowOk(f: Formula, n: nat)
    ensures forall k: nat :: k in FreeBelow(f, n) <==> k < n && Free(k, f)
    ensures forall i, j | 0 <= i < j < |FreeBelow(f, n)| :: FreeBelow(f, n)[i] < FreeBelow(f, n)[j]
  {
    if n > 0 {
      FreeBelowOk(f, n - 1);
      var vs := FreeBelow(f, n - 1);
      forall i | 0 <= i < |vs| ensures vs[i] < n - 1 { assert vs[i] in vs; }
    }
  }

  /** The variables of a quantifier-free formula below MAX_VARS, in increasing order. */
  method CollectVars(f: Formula) returns (vars: seq<nat>)
    ensures vars == Collected(f) && Collects(vars, f)
    ensures forall i, j | 0 <= i < j < |vars| :: vars[i] < vars[j]
  {
    vars := [];
    for v := 0 to MAX_VARS
      invariant vars == FreeBelow(f, v)
    {
      if Free(v, f) { vars := vars + [v]; }
    }
    FreeBelowOk(f, MAX_VARS);
  }

  /** defn_sym(vars) stands for sub. */
  datatype Record = Record(sym: nat, vars: seq<nat>, sub: Formula) {
    function DefAtom(): Formula {
      Atom(sym, seq(|vars|, i requires 0 <= i < |vars| => Var(vars[i])))
    }
  }

  /** Definition clauses so far, newest first, what they define, and the next fresh symbol. */
  datatype Defs = Defs(clauses: seq<Formula>, records: seq<Record>, next: nat)

  /** Every definition atom has the value of what it stands for. */
  ghost predicate Consistent(v: Valuation, records: seq<Record>) {
    forall r | r in records :: v(r.DefAtom()) <==> Truth(r.sub, v)
  }

  // ---------- Formulas that definitions can be made for ----------

  /** Quantifier-free, with predicates below k, and where it is asked for only variables that are collected. */
  ghost predicate PlainLeaf(x: Formula, k: nat, collected: bool) {
    QuantifierFree(x) && RelsBelow(x, k) && (collected ==> forall n: nat | Free(n, x) :: n < MAX_VARS)
  }

  ghost predicate Plain(f: Formula, k: nat, collected: bool) {
    forall x | HasLeaf(f, x) :: PlainLeaf(x, k, collected)
  }

  lemma {:induction false} RelsGrow(f: Formula, k: nat, n: nat)
    requires RelsBelow(f, k) && k <= n
    ensures RelsBelow(f, n)
  {
    match f
    case Atom(_, _) =>
    case Not(g) => RelsGrow(g, k, n);
    case And(kids) => forall i | 0 <= i < |kids| ensures RelsBelow(kids[i], n) { RelsGrow(kids[i], k, n); }
    case Or(kids) => forall i | 0 <= i < |kids| ensures RelsBelow(kids[i], n) { RelsGrow(kids[i], k, n); }
    case All(_, b) => RelsGrow(b, k, n);
    case Exists(_, b) => RelsGrow(b, k, n);
  }

  lemma {:induction false} PlainGrows(f: Formula, k: nat, n: nat, collected: bool)
    requires Plain(f, k, collected) && k <= n
    ensures Plain(f, n, collected)
  {
    forall x | HasLeaf(f, x) ensures PlainLeaf(x, n, collected) { RelsGrow(x, k, n); }
  }

  lemma {:induction false} PlainWhole(f: Formula, k: nat, collected: bool)
    requires Plain(f, k, collected)
    ensures RelsBelow(f, k) && (collected ==> forall n: nat | Free(n, f) :: n < MAX_VARS)
  {
    if f.Leaf() {
      assert PlainLeaf(f, k, collected);
    } else {
      forall i | 0 <= i < |f.kids|
        ensures RelsBelow(f.kids[i], k) && (collected ==> forall n: nat | Free(n, f.kids[i]) :: n < MAX_VARS)
      {
        forall x | HasLeaf(f.kids[i], x) ensures PlainLeaf(x, k, collected) { assert HasLeaf(f, x); }
        PlainWhole(f.kids[i], k, collected);
      }
    }
  }

  // ---------- What holds of the definitions ----------

  ghost predicate RecordOk(r: Record, sym: nat, collected: bool) {
    && r.sym == sym && Collects(r.vars, r.sub) && RelsBelow(r.sub, sym)
    && (collected ==> forall n: nat | Free(n, r.sub) :: n < MAX_VARS)
  }

  ghost predicate RecordsOk(records: seq<Record>, start: nat, collected: bool) {
    forall i | 0 <= i < |records| :: RecordOk(records[i], start + i, collected)
  }

  ghost predicate DefsOk(d: Defs, start: nat, collected: bool) {
    && d.next == start + |d.records| && RecordsOk(d.records, start, collected)
    && forall v: Valuation :: Consistent(v, d.records) ==> AllTrue(d.clauses, v)
  }

  ghost predicate Extends(d: Defs, d2: Defs) {
    && d.next <= d2.next && d.records <= d2.records
    && forall v: Valuation :: AllTrue(d2.clauses, v) ==> AllTrue(d.clauses, v)
  }

  lemma {:induction false} ConsistentPrefix(v: Valuation, a: seq<Record>, b: seq<Record>)
    requires Consistent(v, b) && a <= b
    ensures Consistent(v, a)
  {
    forall r | r in a ensures r in b {
      var i :| 0 <= i < |a| && a[i] == r;
      assert b[i] == r;
    }
  }

  /** g stands for f: it implies f given the definitions, and is equivalent where they are consistent. */
  ghost predicate StandsFor(g: Formula, f: Formula, d: Defs) {
    && (forall v: Valuation :: Truth(g, v) && AllTrue(d.clauses, v) ==> Truth(f, v))
    && (forall v: Valuation :: Consistent(v, d.records) ==> (Truth(g, v) <==> Truth(f, v)))
  }

  lemma {:induction false} StillStandsFor(g: Formula, f: Formula, d: Defs, d2: Defs)
    requires StandsFor(g, f, d) && Extends(d, d2)
    ensures StandsFor(g, f, d2)
  {
    forall v: Valuation | Consistent(v, d2.records) ensures Truth(g, v) <==> Truth(f, v) {
      ConsistentPrefix(v, d.records, d2.records);
    }
  }

  // ---------- introduce_definition ----------

  /** Not defn | c for each of the first i clauses c, newest first. */
  function DefClauses(atom: Formula, parts: seq<Formula>, i: nat, clauses: seq<Formula>): seq<Formula>
    requires i <= |parts|
  {
    if i == 0 then clauses else [Disjoin(Not(atom), parts[i - 1])] + DefClauses(atom, parts, i - 1, clauses)
  }

  function RecordFor(sub: Formula, d: Defs): Record {
    Record(d.next, Collected(sub), sub)
  }

  function Introduce(sub: Formula, d: Defs): Defs {
    var r := RecordFor(sub, d);
    Defs(DefClauses(r.DefAtom(), Conjuncts(sub), |Conjuncts(sub)|, d.clauses), d.records + [r], d.next + 1)
  }

  ghost predicate Introduced(sub: Formula, d: Defs, r: Record, d2: Defs) {
    && r.sym == d.next && r.sub == sub && Collects(r.vars, sub)
    && d2.records == d.records + [r] && d2.next == d.next + 1
    && forall v: Valuation :: AllTrue(d2.clauses, v) <==> AllTrue(d.clauses, v) && (v(r.DefAtom()) ==> Truth(sub, v))
  }

  lemma {:induction false} DefClausesTruth(atom: Formula, parts: seq<Formula>, i: nat, clauses: seq<Formula>,
      v: Valuation)
    requires i <= |parts| && atom.Atom?
    ensures AllTrue(DefClauses(atom, parts, i, clauses), v) <==>
            AllTrue(clauses, v) && (v(atom) ==> AllTrue(parts[..i], v))
  {
    if i > 0 {
      DefClausesTruth(atom, parts, i - 1, clauses, v);
      DisjoinTruth(Not(atom), parts[i - 1], v);
      NotAtom(atom, v);
      AllTrueCons(Disjoin(Not(atom), parts[i - 1]), DefClauses(atom, parts, i - 1, clauses), v);
      AllTrueTake(parts, i - 1, v);
    }
  }

  lemma {:induction false} IntroduceOk(sub: Formula, d: Defs)
    ensures Introduced(sub, d, RecordFor(sub, d), Introduce(sub, d))
  {
    var r, d2, parts := RecordFor(sub, d), Introduce(sub, d), Conjuncts(sub);
    FreeBelowOk(sub, MAX_VARS);
    forall v: Valuation
      ensures AllTrue(d2.clauses, v) <==> AllTrue(d.clauses, v) && (v(r.DefAtom()) ==> Truth(sub, v))
    {
      DefClausesTruth(r.DefAtom(), parts, |parts|, d.clauses, v);
      assert parts[..|parts|] == parts;
      ConjunctsTruth(sub, v);
    }
  }

  /** Name a subformula: not defn | c for each of its clauses c. */
  method IntroduceDefinition(sub: Formula, d: Defs) returns (r: Record, d2: Defs)
    ensures r == RecordFor(sub, d) && d2 == Introduce(sub, d)
    ensures Introduced(sub, d, r, d2)
  {
    IntroduceOk(sub, d);
    var vars := CollectVars(sub);
    r := Record(d.next, vars, sub);
    var clauses, parts := d.clauses, Conjuncts(sub);
    var i := 0;
    while i < |parts|
      invariant 0 <= i <= |parts| && clauses == DefClauses(r.DefAtom(), parts, i, d.clauses)
    {
      var c := DisjoinFlattenSimplify(Not(r.DefAtom()), parts[i]);
      clauses := [c] + clauses;
      i := i + 1;
    }
    d2 := Defs(clauses, d.records + [r], d.next + 1);
  }

  lemma {:induction false} NotAtom(atom: Formula, v: Valuation)
    requires atom.Atom?
    ensures Truth(Not(atom), v) <==> !v(atom)
  {
  }

  lemma {:induction false} AllTrueCons(f: Formula, fs: seq<Formula>, v: Valuation)
    ensures AllTrue([f] + fs, v) <==> Truth(f, v) && AllTrue(fs, v)
  {
    AllTrueConcat([f], fs, v);
    assert f in [f];
  }

  lemma {:induction false} DefinitionOk(sub: Formula, d: Defs, r: Record, d2: Defs, start: nat, collected: bool)
    requires DefsOk(d, start, collected) && Plain(sub, d.next, collected) && Introduced(sub, d, r, d2)
    ensures DefsOk(d2, start, collected) && Extends(d, d2)
    ensures Plain(r.DefAtom(), d2.next, collected) && StandsFor(r.DefAtom(), sub, d2)
  {
    PlainWhole(sub, d.next, collected);
    forall v: Valuation | Consistent(v, d2.records)
      ensures AllTrue(d2.clauses, v) && (v(r.DefAtom()) <==> Truth(sub, v))
    {
      ConsistentPrefix(v, d.records, d2.records);
      assert r in d2.records;
    }
    AtomPlain(r, collected);
  }

  lemma {:induction false} AtomPlain(r: Record, collected: bool)
    requires Collects(r.vars, r.sub)
    ensures Plain(r.DefAtom(), r.sym + 1, collected)
  {
    var a := r.DefAtom();
    forall n: nat | Free(n, a) ensures n < MAX_VARS { NamesVars(r.vars, a.args, n); }
    assert PlainLeaf(a, r.sym + 1, collected);
    forall x | HasLeaf(a, x) ensures x == a {}
  }

  lemma {:induction false} NamesVars(vs: seq<nat>, names: seq<Term>, n: nat)
    requires |names| == |vs| && (forall i | 0 <= i < |vs| :: names[i] == Var(vs[i])) && n in VarsAll(names)
    ensures n in vs
  {
    if n != vs[0] { NamesVars(vs[1..], names[1..], n); }
  }

  // ---------- The renaming loop ----------

  /** The product of the clause counts, cut off above the threshold, the largest count and its argument:
      what the scan gives from argument j on. */
  function Scan(hs: seq<Formula>, t: nat, j: nat, product: nat, c: nat, k: nat): (r: (nat, nat, nat))
    requires j <= |hs| && (c > 0 ==> k < |hs| && Count(hs[k]) == c)
    ensures r.1 > 0 ==> r.2 < |hs| && Count(hs[r.2]) == r.1
    decreases |hs| - j
  {
    if j == |hs| then (product, c, k)
    else if product > t then (t + 1, c, k)
    else if Count(hs[j]) > c then Scan(hs, t, j + 1, product * Count(hs[j]), Count(hs[j]), j)
    else Scan(hs, t, j + 1, product * Count(hs[j]), c, k)
  }

  lemma {:induction false} ScanOk(hs: seq<Formula>, t: nat, j: nat, product: nat, c: nat, k: nat)
    requires j <= |hs| && (c > 0 ==> k < |hs| && Count(hs[k]) == c) && t >= 1 && forall h | h in hs :: IsCnf(h)
    requires product == ProductAll(hs[..j]) && (c <= 1 ==> product <= 1)
    ensures var (p, m, i) := Scan(hs, t, j, product, c, k);
            (p <= t ==> p == ProductAll(hs)) && (p > t ==> m > 1)
    decreases |hs| - j
  {
    if j == |hs| {
      assert hs[..j] == hs;
    } else if product <= t {
      var cc := Count(hs[j]);
      assert hs[..j + 1] == hs[..j] + [hs[j]];
      ConcatProduct(hs[..j], [hs[j]]);
      One(hs[j]);
      assert hs[j] in hs;
      CnfProduct(hs[j]);
      if cc > c { ScanOk(hs, t, j + 1, product * cc, cc, j); } else { ScanOk(hs, t, j + 1, product * cc, c, k); }
    }
  }

  /** i is the first argument of hs with the greatest count m; 0 and 0 if all counts are 0. */
  ghost predicate Largest(hs: seq<Formula>, m: nat, i: nat) {
    && (forall j | 0 <= j < |hs| :: Count(hs[j]) <= m)
    && (m > 0 ==> i < |hs| && Count(hs[i]) == m && forall j | 0 <= j < i :: Count(hs[j]) < m)
  }

  /** The scan goes up to the first argument behind which the product exceeds t, or to the end, and finds
      the first of the largest arguments up to there. */
  lemma {:induction false} ScanLargest(hs: seq<Formula>, t: nat, j: nat, product: nat, c: nat, k: nat)
    requires j <= |hs| && Largest(hs[..j], c, k) && product == ProductAll(hs[..j])
    requires (c > 0 ==> k < |hs| && Count(hs[k]) == c) && forall h | h in hs :: IsCnf(h)
    requires forall i | 0 <= i < j :: ProductAll(hs[..i]) <= t
    ensures var (p, m, i) := Scan(hs, t, j, product, c, k);
            exists n: nat :: ScanEnds(hs, t, p, n) && Largest(hs[..n], m, i)
    decreases |hs| - j
  {
    if j == |hs| || product > t {
      assert ScanEnds(hs, t, if j == |hs| then product else t + 1, j);
    } else {
      var cc := Count(hs[j]);
      var us := hs[..j + 1];
      assert us == hs[..j] + [hs[j]];
      ConcatProduct(hs[..j], [hs[j]]);
      One(hs[j]);
      assert hs[j] in hs;
      CnfProduct(hs[j]);
      assert forall i | 0 <= i < j :: us[i] == hs[..j][i];
      if cc > c {
        ScanLargest(hs, t, j + 1, product * cc, cc, j);
      } else {
        ScanLargest(hs, t, j + 1, product * cc, c, k);
      }
    }
  }

  ghost predicate ScanEnds(hs: seq<Formula>, t: nat, p: nat, n: nat) {
    && n <= |hs| && (forall i | 0 <= i < n :: ProductAll(hs[..i]) <= t)
    && if n == |hs| then p == ProductAll(hs[..n]) else ProductAll(hs[..n]) > t && p == t + 1
  }

  method ScanCounts(hs: seq<Formula>, threshold: nat) returns (product: nat, maxCount: nat, maxIdx: nat)
    ensures (product, maxCount, maxIdx) == Scan(hs, threshold, 0, 1, 0, 0)
    ensures threshold >= 1 && (forall h | h in hs :: IsCnf(h)) ==>
              && (product <= threshold ==> product == ProductAll(hs))
              && (product > threshold ==> maxIdx < |hs| && Count(hs[maxIdx]) == maxCount > 1)
              && exists n: nat :: ScanEnds(hs, threshold, product, n) && Largest(hs[..n], maxCount, maxIdx)
  {
    if threshold >= 1 && forall h | h in hs :: IsCnf(h) {
      assert hs[..0] == [];
      ScanLargest(hs, threshold, 0, 1, 0, 0);
      ScanOk(hs, threshold, 0, 1, 0, 0);
    }
    product, maxCount, maxIdx := 1, 0, 0;
    var j := 0;
    while j < |hs|
      invariant 0 <= j <= |hs| && (maxCount > 0 ==> maxIdx < |hs| && Count(hs[maxIdx]) == maxCount)
      invariant Scan(hs, threshold, j, product, maxCount, maxIdx) == Scan(hs, threshold, 0, 1, 0, 0)
    {
      if product > threshold { return threshold + 1, maxCount, maxIdx; }
      var cc := Count(hs[j]);
      product := product * cc;
      if cc > maxCount { maxCount, maxIdx := cc, j; }
      j := j + 1;
    }
  }

  ghost function Large(hs: seq<Formula>): nat {
    if |hs| == 0 then 0 else (if Count(hs[0]) > 1 then 1 else 0) + Large(hs[1..])
  }

  lemma {:induction false} FewerLarge(hs: seq<Formula>, k: nat, atom: Formula)
    requires k < |hs| && Count(hs[k]) > 1 && Count(atom) == 1
    ensures Large(hs[k := atom]) < Large(hs)
  {
    if k == 0 {
      assert hs[k := atom][1..] == hs[1..];
    } else {
      assert hs[k := atom][1..] == hs[1..][k - 1 := atom];
      FewerLarge(hs[1..], k - 1, atom);
    }
  }

  /** Name the largest arguments until at most t clauses can come out. */
  function Rename(gs: seq<Formula>, t: nat, d: Defs): (r: (seq<Formula>, Defs))
    ensures |r.0| == |gs|
    decreases Large(gs)
  {
    var (p, m, i) := Scan(gs, t, 0, 1, 0, 0);
    if p > t && m > 1 then
      FewerLarge(gs, i, RecordFor(gs[i], d).DefAtom());
      Rename(gs[i := RecordFor(gs[i], d).DefAtom()], t, Introduce(gs[i], d))
    else (gs, d)
  }

  ghost predicate DisjunctionStands(gs: seq<Formula>, hs: seq<Formula>, d: Defs) {
    StandsFor(Or(gs), Or(hs), d)
  }

  lemma {:induction false} ReplaceOne(gs: seq<Formula>, k: nat, atom: Formula, d2: Defs)
    requires k < |gs| && StandsFor(atom, gs[k], d2)
    ensures DisjunctionStands(gs[k := atom], gs, d2)
  {
    var ns := gs[k := atom];
    forall v: Valuation ensures Truth(Or(ns), v) && AllTrue(d2.clauses, v) ==> Truth(Or(gs), v) {
      if Truth(Or(ns), v) && AllTrue(d2.clauses, v) {
        var i :| 0 <= i < |ns| && Truth(ns[i], v);
        assert Truth(gs[i], v);
      }
    }
    forall v: Valuation | Consistent(v, d2.records) ensures Truth(Or(ns), v) <==> Truth(Or(gs), v) {
      forall i | 0 <= i < |gs| ensures Truth(ns[i], v) <==> Truth(gs[i], v) {}
    }
  }

  ghost predicate Ready(gs: seq<Formula>, d: Defs, collected: bool) {
    forall g | g in gs :: IsCnf(g) && Plain(g, d.next, collected)
  }

  lemma {:induction false} ReadyAfter(gs: seq<Formula>, k: nat, atom: Formula, d: Defs, d2: Defs, collected: bool)
    requires Ready(gs, d, collected) && k < |gs| && Extends(d, d2) && atom.Leaf() && Plain(atom, d2.next, collected)
    ensures Ready(gs[k := atom], d2, collected)
    ensures forall g | g in gs[k := atom] :: g == atom || g in gs
    ensures forall g | g in gs && g != gs[k] :: g in gs[k := atom]
  {
    var ns := gs[k := atom];
    forall g | g in ns ensures IsCnf(g) && Plain(g, d2.next, collected) && (g == atom || g in gs) {
      if g != atom {
        var i :| 0 <= i < |gs| && ns[i] == g;
        assert gs[i] in gs;
        PlainGrows(g, d.next, d2.next, collected);
      }
    }
    forall g | g in gs && g != gs[k] ensures g in ns {
      var i :| 0 <= i < |gs| && gs[i] == g;
      assert ns[i] == g;
    }
  }

  /** What the renamed arguments have to do with the arguments. */
  ghost predicate RenamedTo(ns: seq<Formula>, gs: seq<Formula>) {
    (forall g | g in ns :: g.Leaf() || g in gs) && forall g | g in gs && Count(g) <= 1 :: g in ns
  }

  lemma {:induction false} RenameOk(gs: seq<Formula>, t: nat, d: Defs, start: nat, collected: bool)
    requires t >= 1 && DefsOk(d, start, collected) && Ready(gs, d, collected)
    ensures var (ns, d2) := Rename(gs, t, d);
            && DefsOk(d2, start, collected) && Extends(d, d2) && Ready(ns, d2, collected)
            && DisjunctionStands(ns, gs, d2) && ProductAll(ns) <= t && RenamedTo(ns, gs)
    decreases Large(gs)
  {
    var (p, m, i) := Scan(gs, t, 0, 1, 0, 0);
    assert gs[..0] == [];
    ScanOk(gs, t, 0, 1, 0, 0);
    if p > t {
      var r, d3 := RecordFor(gs[i], d), Introduce(gs[i], d);
      var atom := r.DefAtom();
      var hs := gs[i := atom];
      FewerLarge(gs, i, atom);
      IntroduceOk(gs[i], d);
      assert gs[i] in gs;
      DefinitionOk(gs[i], d, r, d3, start, collected);
      ReadyAfter(gs, i, atom, d, d3, collected);
      RenameOk(hs, t, d3, start, collected);
      RenameTrans(gs, i, atom, d, d3, Rename(hs, t, d3).0, Rename(hs, t, d3).1);
    }
  }

  lemma {:induction false} RenameTrans(gs: seq<Formula>, i: nat, atom: Formula, d: Defs, d3: Defs, ns: seq<Formula>,
      d2: Defs)
    requires i < |gs| && atom.Leaf() && Extends(d, d3) && Extends(d3, d2) && StandsFor(atom, gs[i], d3)
    requires Count(gs[i]) > 1 && DisjunctionStands(ns, gs[i := atom], d2) && RenamedTo(ns, gs[i := atom])
    requires forall g | g in gs[i := atom] :: g == atom || g in gs
    requires forall g | g in gs && g != gs[i] :: g in gs[i := atom]
    ensures Extends(d, d2) && DisjunctionStands(ns, gs, d2) && RenamedTo(ns, gs)
  {
    ReplaceOne(gs, i, atom, d3);
    StillStandsFor(Or(gs[i := atom]), Or(gs), d3, d2);
    StandsTrans(Or(ns), Or(gs[i := atom]), Or(gs), d2);
  }

  method RenameLoop(hs: seq<Formula>, threshold: nat, d: Defs) returns (gs: seq<Formula>, d2: Defs)
    ensures (gs, d2) == Rename(hs, threshold, d)
  {
    gs, d2 := hs, d;
    var needRename := true;
    while needRename
      invariant needRename ==> Rename(gs, threshold, d2) == Rename(hs, threshold, d)
      invariant !needRename ==> (gs, d2) == Rename(hs, threshold, d)
      decreases Large(gs) + if needRename then 1 else 0
    {
      needRename := false;
      var product, maxCount, maxIdx := ScanCounts(gs, threshold);
      if product > threshold && maxCount > 1 {
        var r, d3 := IntroduceDefinition(gs[maxIdx], d2);
        FewerLarge(gs, maxIdx, r.DefAtom());
        gs, d2, needRename := gs[maxIdx := r.DefAtom()], d3, true;
      }
    }
  }

  // ---------- One node ----------

  /** The most clauses that can come out when every disjunction is held to the threshold. */
  ghost function DefMax(f: Formula, threshold: nat): nat
    decreases f, 1
  {
    if f.And? then DefMaxAll(f.kids, threshold) else if f.Or? && |f.kids| > 0 then threshold else 1
  }

  ghost function DefMaxAll(fs: seq<Formula>, threshold: nat): nat
    decreases fs, 0
  {
    if |fs| == 0 then 0 else DefMax(fs[0], threshold) + DefMaxAll(fs[1..], threshold)
  }

  ghost predicate Renamed(g: Formula, f: Formula, d: Defs, threshold: nat, collected: bool) {
    StandsFor(g, f, d) && IsCnf(g) && Plain(g, d.next, collected) && Count(g) <= DefMax(f, threshold)
  }

  ghost predicate RenamedAll(gs: seq<Formula>, fs: seq<Formula>, d: Defs, threshold: nat, collected: bool) {
    |gs| == |fs| && forall i | 0 <= i < |fs| :: Renamed(gs[i], fs[i], d, threshold, collected)
  }

  lemma {:induction false} RenamedExtends(g: Formula, f: Formula, d: Defs, d2: Defs, threshold: nat, collected: bool)
    requires Renamed(g, f, d, threshold, collected) && Extends(d, d2)
    ensures Renamed(g, f, d2, threshold, collected)
  {
    StillStandsFor(g, f, d, d2);
    PlainGrows(g, d.next, d2.next, collected);
  }

  lemma {:induction false} DefSum(gs: seq<Formula>, fs: seq<Formula>, d: Defs, threshold: nat, collected: bool)
    requires RenamedAll(gs, fs, d, threshold, collected)
    ensures CountAll(gs) <= DefMaxAll(fs, threshold)
  {
    if |fs| > 0 { DefSum(gs[1..], fs[1..], d, threshold, collected); }
  }

  /** Arguments that stand for arguments make nodes that stand for nodes. */
  lemma {:induction false} NodeStands(gs: seq<Formula>, fs: seq<Formula>, d: Defs)
    requires |gs| == |fs| && forall i | 0 <= i < |fs| :: StandsFor(gs[i], fs[i], d)
    ensures StandsFor(And(gs), And(fs), d) && StandsFor(Or(gs), Or(fs), d)
  {
    forall v: Valuation | AllTrue(d.clauses, v)
      ensures (Truth(And(gs), v) ==> Truth(And(fs), v)) && (Truth(Or(gs), v) ==> Truth(Or(fs), v))
    {
      forall i | 0 <= i < |fs| ensures Truth(gs[i], v) ==> Truth(fs[i], v) { assert StandsFor(gs[i], fs[i], d); }
    }
    forall v: Valuation | Consistent(v, d.records)
      ensures (Truth(And(gs), v) <==> Truth(And(fs), v)) && (Truth(Or(gs), v) <==> Truth(Or(fs), v))
    {
      forall i | 0 <= i < |fs| ensures Truth(gs[i], v) <==> Truth(fs[i], v) { assert StandsFor(gs[i], fs[i], d); }
    }
  }

  lemma {:induction false} StandsTrans(f: Formula, g: Formula, h: Formula, d: Defs)
    requires StandsFor(f, g, d) && StandsFor(g, h, d)
    ensures StandsFor(f, h, d)
  {
  }

  lemma {:induction false} EquivalentStands(f: Formula, g: Formula, d: Defs)
    requires Equivalent(f, g)
    ensures StandsFor(f, g, d)
  {
  }

  lemma {:induction false} PlainNode(g: Formula, node: Formula, k: nat, collected: bool)
    requires !node.Leaf() && LeavesIn(g, node) && forall h | h in node.kids :: Plain(h, k, collected)
    ensures Plain(g, k, collected)
  {
    forall x | HasLeaf(g, x) ensures PlainLeaf(x, k, collected) { KidLeaves(node, x); }
  }

  lemma {:induction false} AllRenamed(gs: seq<Formula>, fs: seq<Formula>, d: Defs, threshold: nat, collected: bool)
    requires RenamedAll(gs, fs, d, threshold, collected)
    ensures Ready(gs, d, collected)
  {
    forall g | g in gs ensures IsCnf(g) && Plain(g, d.next, collected) { var i :| 0 <= i < |gs| && gs[i] == g; }
  }

  /** The result for a node from the results for its arguments: as in cnf, but disjunctions are renamed first. */
  function DefNode(node: Formula, gs: seq<Formula>, t: nat, d: Defs): (Option<Formula>, Defs)
    requires !node.Leaf() && |gs| > 0
  {
    if node.And? then (Some(AndOf(gs)), d) else
      KeptNonempty(gs);
      var (ns, d2) := Rename(KeptOr(gs), t, d);
      (TreeOf(ns), d2)
  }

  lemma {:induction false} AndNodeOk(node: Formula, gs: seq<Formula>, t: nat, d: Defs, collected: bool)
    requires node.And? && |gs| > 0 && RenamedAll(gs, node.kids, d, t, collected)
    ensures Renamed(AndOf(gs), node, d, t, collected)
  {
    var g := AndOf(gs);
    AllRenamed(gs, node.kids, d, t, collected);
    NodeStands(gs, node.kids, d);
    AndSame(gs);
    AndCnf(gs);
    EquivalentStands(g, And(gs), d);
    StandsTrans(g, And(gs), node, d);
    PlainNode(g, And(gs), d.next, collected);
    DefSum(gs, node.kids, d, t, collected);
  }

  /** The renamed disjunction stands for the node. */
  lemma {:induction false} OrNodeStands(node: Formula, gs: seq<Formula>, ns: seq<Formula>, d: Defs, d2: Defs)
    requires node.Or? && |gs| == |node.kids| && forall i | 0 <= i < |gs| :: StandsFor(gs[i], node.kids[i], d)
    requires Extends(d, d2) && DisjunctionStands(ns, KeptOr(gs), d2)
    ensures StandsFor(Or(ns), node, d2)
  {
    NodeStands(gs, node.kids, d);
    KeptSame(gs);
    SameDisjunction(KeptOr(gs), gs);
    EquivalentStands(Or(KeptOr(gs)), Or(gs), d2);
    StandsTrans(Or(ns), Or(KeptOr(gs)), Or(gs), d2);
    StillStandsFor(Or(gs), node, d, d2);
    StandsTrans(Or(ns), Or(gs), node, d2);
  }

  lemma {:induction false} OrNodeOk(node: Formula, gs: seq<Formula>, t: nat, d: Defs, start: nat, collected: bool)
    requires t >= 1 && node.Or? && |gs| > 0 && DefsOk(d, start, collected) && RenamedAll(gs, node.kids, d, t, collected)
    ensures var (r, d2) := DefNode(node, gs, t, d);
            && DefsOk(d2, start, collected) && Extends(d, d2) && (r.Some? ==> Renamed(r.value, node, d2, t, collected))
            && (r.None? <==> Lone(gs))
  {
    AllRenamed(gs, node.kids, d, t, collected);
    KeptNonempty(gs);
    KeptSame(gs);
    var hs := KeptOr(gs);
    RenameOk(hs, t, d, start, collected);
    var (ns, d2) := Rename(hs, t, d);
    KeptLone(gs);
    SameLone(ns, hs);
    TreeCnf(ns);
    if TreeOf(ns).Some? {
      var r := TreeOf(ns).value;
      TreeSame(ns);
      PlainNode(r, Or(ns), d2.next, collected);
      EquivalentStands(r, Or(ns), d2);
      OrNodeStands(node, gs, ns, d, d2);
      StandsTrans(r, Or(ns), node, d2);
    }
  }

  /** Renaming leaves disjunctions alone. */
  lemma {:induction false} SameLone(ns: seq<Formula>, hs: seq<Formula>)
    requires RenamedTo(ns, hs)
    ensures (exists h :: h in ns && OneArgument(h)) <==> exists h :: h in hs && OneArgument(h)
  {
  }

  lemma {:induction false} DefNodeOk(node: Formula, gs: seq<Formula>, t: nat, d: Defs, start: nat, collected: bool)
    requires t >= 1 && !node.Leaf() && |gs| > 0 && DefsOk(d, start, collected) &&
              RenamedAll(gs, node.kids, d, t, collected)
    ensures var (r, d2) := DefNode(node, gs, t, d);
            && DefsOk(d2, start, collected) && Extends(d, d2) && (r.Some? ==> Renamed(r.value, node, d2, t, collected))
            && (r.None? <==> node.Or? && Lone(gs))
  {
    if node.And? { AndNodeOk(node, gs, t, d, collected); } else { OrNodeOk(node, gs, t, d, start, collected); }
  }

  lemma {:induction false} SameDisjunction(hs: seq<Formula>, gs: seq<Formula>)
    requires forall v: Valuation :: SomeTrue(hs, v) <==> SomeTrue(gs, v)
    ensures Equivalent(Or(hs), Or(gs))
  {
    forall v: Valuation ensures Truth(Or(hs), v) <==> Truth(Or(gs), v) {
      TruthOr(hs, v);
      TruthOr(gs, v);
    }
  }

  /** All arguments of a node are done. */
  method DefStep(node: Formula, gs: seq<Formula>, threshold: nat, d: Defs) returns (r: Option<Formula>, d2: Defs)
    requires !node.Leaf() && |gs| > 0
    ensures (r, d2) == DefNode(node, gs, threshold, d)
  {
    if node.And? {
      var g := SimplifyTop(FlattenTop(And(gs)));
      return Some(g), d;
    }
    KeptNonempty(gs);
    var hs := ReduceOr(gs);
    var ns;
    ns, d2 := RenameLoop(hs, threshold, d);
    r := DistributeOr(ns);
  }

  // ---------- cnf_def ----------

  /** The normal form and the definitions after it; None where distribute reads an argument that is not there. */
  function DefOf(f: Formula, t: nat, d: Defs): (Option<Formula>, Defs)
    decreases f, 1
  {
    if f.Leaf() || |f.kids| == 0 then (Some(f), d) else
      var (gs, d1) := DefAll(f.kids, t, d);
      if gs.None? then (None, d1) else DefNode(f, gs.value, t, d1)
  }

  function DefAll(fs: seq<Formula>, t: nat, d: Defs): (r: (Option<seq<Formula>>, Defs))
    ensures r.0.Some? ==> |r.0.value| == |fs|
    decreases fs, 0
  {
    if |fs| == 0 then (Some([]), d) else
      var (g, d1) := DefOf(fs[0], t, d);
      if g.None? then (None, d1) else
        var (gs, d2) := DefAll(fs[1..], t, d1);
        (Prefixed(g, gs), d2)
  }

  lemma {:induction false} ExtendsTrans(d: Defs, d1: Defs, d2: Defs)
    requires Extends(d, d1) && Extends(d1, d2)
    ensures Extends(d, d2)
  {
  }

  lemma {:induction false} DefOk(f: Formula, t: nat, d: Defs, start: nat, collected: bool)
    requires t >= 1 && DefsOk(d, start, collected) && Plain(f, start, collected)
    ensures var (r, d2) := DefOf(f, t, d);
            DefsOk(d2, start, collected) && Extends(d, d2) && (r.Some? ==> Renamed(r.value, f, d2, t, collected))
    decreases f, 1
  {
    PlainGrows(f, start, d.next, collected);
    if !f.Leaf() && |f.kids| > 0 {
      KidsPlain(f, start, collected);
      DefAllOk(f.kids, t, d, start, collected);
      var (gs, d1) := DefAll(f.kids, t, d);
      if gs.Some? {
        DefNodeOk(f, gs.value, t, d1, start, collected);
        ExtendsTrans(d, d1, DefNode(f, gs.value, t, d1).1);
      }
    }
  }

  lemma {:induction false} DefAllOk(fs: seq<Formula>, t: nat, d: Defs, start: nat, collected: bool)
    requires t >= 1 && DefsOk(d, start, collected) && forall i | 0 <= i < |fs| :: Plain(fs[i], start, collected)
    ensures var (gs, d2) := DefAll(fs, t, d);
            DefsOk(d2, start, collected) && Extends(d, d2) && (gs.Some? ==> RenamedAll(gs.value, fs, d2, t, collected))
    decreases fs, 0
  {
    if |fs| > 0 {
      DefOk(fs[0], t, d, start, collected);
      var (g, d1) := DefOf(fs[0], t, d);
      if g.Some? {
        DefAllOk(fs[1..], t, d1, start, collected);
        var (gs, d2) := DefAll(fs[1..], t, d1);
        ExtendsTrans(d, d1, d2);
        RenamedExtends(g.value, fs[0], d1, d2, t, collected);
      }
    }
  }

  lemma {:induction false} KidsPlain(f: Formula, k: nat, collected: bool)
    requires !f.Leaf() && Plain(f, k, collected)
    ensures forall i | 0 <= i < |f.kids| :: Plain(f.kids[i], k, collected)
  {
    forall i | 0 <= i < |f.kids| ensures Plain(f.kids[i], k, collected) {
      forall x | HasLeaf(f.kids[i], x) ensures PlainLeaf(x, k, collected) { assert HasLeaf(f, x); }
    }
  }

  lemma {:induction false} RenameTidy(gs: seq<Formula>, t: nat, d: Defs)
    requires forall g | g in gs :: Tidy(g)
    ensures forall g | g in Rename(gs, t, d).0 :: Tidy(g)
    decreases Large(gs)
  {
    var (p, m, i) := Scan(gs, t, 0, 1, 0, 0);
    if p > t && m > 1 {
      var atom := RecordFor(gs[i], d).DefAtom();
      FewerLarge(gs, i, atom);
      forall g | g in gs[i := atom] ensures Tidy(g) {
        var j :| 0 <= j < |gs| && gs[i := atom][j] == g;
        assert gs[j] in gs;
      }
      RenameTidy(gs[i := atom], t, Introduce(gs[i], d));
    }
  }

  /** The normal form is as tidy as that of cnf. */
  lemma {:induction false} DefTidy(f: Formula, t: nat, d: Defs)
    requires DefOf(f, t, d).0.Some?
    ensures Tidy(DefOf(f, t, d).0.value)
    decreases f, 1
  {
    if !f.Leaf() && |f.kids| > 0 {
      DefAllTidy(f.kids, t, d);
      var (gs, d1) := DefAll(f.kids, t, d);
      if f.And? {
        AndTidy(gs.value);
      } else {
        KeptNonempty(gs.value);
        KeptSame(gs.value);
        RenameTidy(KeptOr(gs.value), t, d1);
        TreeTidy(Rename(KeptOr(gs.value), t, d1).0);
      }
    }
  }

  lemma {:induction false} DefAllTidy(fs: seq<Formula>, t: nat, d: Defs)
    requires DefAll(fs, t, d).0.Some?
    ensures forall g | g in DefAll(fs, t, d).0.value :: Tidy(g)
    decreases fs, 0
  {
    if |fs| > 0 {
      DefTidy(fs[0], t, d);
      DefAllTidy(fs[1..], t, DefOf(fs[0], t, d).1);
    }
  }

  /** Some disjunction, when it is its turn, has an argument whose normal form is a disjunction with one
      argument, and no argument whose normal form is TRUE. */
  predicate DefMisread(f: Formula, t: nat, d: Defs)
    decreases f, 1
  {
    && !f.Leaf()
    && (DefMisreadAny(f.kids, t, d) ||
        (f.Or? && DefAll(f.kids, t, d).0.Some? && Lone(DefAll(f.kids, t, d).0.value)))
  }

  predicate DefMisreadAny(fs: seq<Formula>, t: nat, d: Defs)
    decreases fs, 0
  {
    |fs| > 0 && (DefMisread(fs[0], t, d) || DefMisreadAny(fs[1..], t, DefOf(fs[0], t, d).1))
  }

  /** cnf_def fails exactly on the formulas with such a disjunction. */
  lemma {:induction false} DefFailsIffMisread(f: Formula, t: nat, d: Defs, start: nat)
    requires t >= 1 && DefsOk(d, start, false) && Plain(f, start, false)
    ensures DefOf(f, t, d).0.None? <==> DefMisread(f, t, d)
    decreases f, 1
  {
    if !f.Leaf() && |f.kids| > 0 {
      KidsPlain(f, start, false);
      DefAllFails(f.kids, t, d, start);
      DefAllOk(f.kids, t, d, start, false);
      var (gs, d1) := DefAll(f.kids, t, d);
      if gs.Some? { DefNodeOk(f, gs.value, t, d1, start, false); }
    }
  }

  lemma {:induction false} DefAllFails(fs: seq<Formula>, t: nat, d: Defs, start: nat)
    requires t >= 1 && DefsOk(d, start, false) && forall i | 0 <= i < |fs| :: Plain(fs[i], start, false)
    ensures DefAll(fs, t, d).0.None? <==> DefMisreadAny(fs, t, d)
    decreases fs, 0
  {
    if |fs| > 0 {
      DefFailsIffMisread(fs[0], t, d, start);
      DefOk(fs[0], t, d, start, false);
      if DefOf(fs[0], t, d).0.Some? { DefAllFails(fs[1..], t, DefOf(fs[0], t, d).1, start); }
    }
  }

  // ---------- Below the threshold ----------

  lemma {:induction false} PositiveAll(hs: seq<Formula>)
    requires forall i | 0 <= i < |hs| :: IsCnf(hs[i]) && Count(hs[i]) >= 1
    ensures ProductAll(hs) >= 1
  {
    if |hs| > 0 {
      PositiveAll(hs[1..]);
      CnfProduct(hs[0]);
      MulMono(1, 1, Count(hs[0]), ProductAll(hs[1..]));
    }
  }

  lemma {:induction false} ScanWithin(hs: seq<Formula>, t: nat, j: nat, product: nat, c: nat, k: nat)
    requires j <= |hs| && (c > 0 ==> k < |hs| && Count(hs[k]) == c)
    requires product * ProductAll(hs[j..]) <= t && forall i | 0 <= i < |hs| :: IsCnf(hs[i]) && Count(hs[i]) >= 1
    ensures Scan(hs, t, j, product, c, k).0 <= t
    decreases |hs| - j
  {
    var rest := hs[j..];
    if j == |hs| {
      assert ProductAll(rest) == 1;
    } else {
      PositiveAll(rest);
      MulMono(product, 1, product, ProductAll(rest));
      CnfProduct(hs[j]);
      assert rest[0] == hs[j] && rest[1..] == hs[j + 1..];
      MulAssoc(product, Count(hs[j]), ProductAll(hs[j + 1..]));
      if Count(hs[j]) > c {
        ScanWithin(hs, t, j + 1, product * Count(hs[j]), Count(hs[j]), j);
      } else {
        ScanWithin(hs, t, j + 1, product * Count(hs[j]), c, k);
      }
    }
  }

  lemma {:induction false} NoRenaming(gs: seq<Formula>, t: nat, d: Defs)
    requires t >= 1 && (forall g | g in gs :: IsCnf(g)) && ProductAll(gs) <= t
    ensures Rename(KeptOr(gs), t, d) == (KeptOr(gs), d)
  {
    var hs := KeptOr(gs);
    KeptSame(gs);
    KeptProduct(gs);
    if TRUE in gs {
      KeptTrueAlone(gs);
      assert Scan(hs, t, 1, 0, 0, 0) == (0, 0, 0);
    } else {
      assert hs[0..] == hs;
      forall i | 0 <= i < |hs| ensures IsCnf(hs[i]) && Count(hs[i]) >= 1 { assert hs[i] in hs; }
      ScanWithin(hs, t, 0, 1, 0, 0);
    }
  }

  /** No disjunction can come to more clauses than the threshold. */
  predicate Within(f: Formula, t: nat) {
    !f.Leaf() ==> (f.Or? ==> MaxClauses(f) <= t) && forall i | 0 <= i < |f.kids| :: Within(f.kids[i], t)
  }

  /** Then nothing is named, and cnf_def gives what cnf gives. */
  lemma {:induction false} DefIsCnf(f: Formula, t: nat, d: Defs)
    requires t >= 1 && Bounded(f) && Within(f, t)
    ensures DefOf(f, t, d) == (CnfOf(f), d)
    decreases f, 1
  {
    if !f.Leaf() && |f.kids| > 0 {
      DefAllIsCnf(f.kids, t, d);
      if CnfAll(f.kids).Some? && f.Or? {
        var gs := CnfAll(f.kids).value;
        CnfAllAt(f.kids);
        forall i | 0 <= i < |gs| ensures Clausified(gs[i], f.kids[i]) { CnfOk(f.kids[i]); }
        AllCnf(gs, f.kids);
        ProductBound(gs, f.kids);
        NoRenaming(gs, t, d);
      }
    }
  }

  lemma {:induction false} DefAllIsCnf(fs: seq<Formula>, t: nat, d: Defs)
    requires t >= 1 && forall i | 0 <= i < |fs| :: Bounded(fs[i]) && Within(fs[i], t)
    ensures DefAll(fs, t, d).1 == d && DefAll(fs, t, d).0 == CnfAll(fs)
    decreases fs, 0
  {
    if |fs| > 0 {
      DefIsCnf(fs[0], t, d);
      DefAllIsCnf(fs[1..], t, d);
    }
  }

  lemma {:induction false} PairCounts(f: Formula, g: Formula)
    ensures MaxClauses(And([f, g])) == MaxClauses(f) + MaxClauses(g)
    ensures MaxClauses(Or([f, g])) == MaxClauses(f) * MaxClauses(g)
  {
    var two, one := [f, g], [g];
    assert two[1..] == one && one[1..] == [];
    assert MaxSum(one[1..]) == 0 && MaxProduct(one[1..]) == 1;
    assert MaxSum(one) == MaxClauses(g) && MaxProduct(one) == MaxClauses(g);
    assert MaxSum(two) == MaxClauses(f) + MaxSum(two[1..]) && MaxProduct(two) == MaxClauses(f) * MaxProduct(two[1..]);
  }

  lemma {:induction false} SplitWithin(a: Formula, b: Formula, t: nat)
    requires a.Atom? && b.Atom? && t >= 4
    ensures var f := Or([And([a, b]), And([a, Not(b)])]); Within(f, t) && Bounded(f) && MaxClauses(f) == 4
  {
    PairCounts(a, b);
    PairCounts(a, Not(b));
    PairCounts(And([a, b]), And([a, Not(b)]));
    assert MaxClauses(a) == MaxClauses(b) == MaxClauses(Not(b)) == 1;
  }

  /** So what cnf misreads cnf_def misreads too. */
  lemma {:induction false} DefMisreadInput(a: Formula, b: Formula, c: Formula, w: Formula, t: nat, d: Defs)
    requires a.Atom? && b.Atom? && c.Atom? && w.Atom? && a != b && a != c && t >= 8
    ensures var f, g := Or([And([a, b]), And([a, Not(b)])]), Or([And([a, c]), And([a, Not(c)])]);
            DefOf(Or([And([f, g]), w]), t, d).0.None?
  {
    var f, g := Or([And([a, b]), And([a, Not(b)])]), Or([And([a, c]), And([a, Not(c)])]);
    SplitWithin(a, b, t);
    SplitWithin(a, c, t);
    PairCounts(f, g);
    PairCounts(And([f, g]), w);
    assert MaxClauses(w) == 1;
    assert Within(And([f, g]), t) && Bounded(And([f, g]));
    MisreadInput(a, b, c, w);
    DefIsCnf(Or([And([f, g]), w]), t, d);
  }

  // ---------- The stack of cnf_def ----------

  /** The result for a node whose argument under way has result r. */
  ghost function DefFrom(node: Formula, done: seq<Formula>, t: nat, r: (Option<Formula>, Defs)): (Option<Formula>, Defs)
    requires !node.Leaf() && |done| < |node.kids|
  {
    if r.0.None? then r else
      var (rest, d2) := DefAll(node.kids[|done| + 1..], t, r.1);
      if rest.None? then (None, d2) else DefNode(node, done + [r.0.value] + rest.value, t, d2)
  }

  /** The result for the whole when the formula under way has result r. */
  ghost function DefWhole(s: CnfStack, t: nat, r: (Option<Formula>, Defs)): (Option<Formula>, Defs)
    requires Open(s)
  {
    if s.CnfBottom? then r else DefWhole(s.below, t, DefFrom(s.node, s.done, t, r))
  }

  lemma {:induction false} DefWholeNone(s: CnfStack, t: nat, d: Defs)
    requires Open(s)
    ensures DefWhole(s, t, (None, d)) == (None, d)
  {
    if s.CnfFrame? { DefWholeNone(s.below, t, d); }
  }

  lemma {:induction false} DefFirstKid(cur: Formula, t: nat, d: Defs)
    requires !cur.Leaf() && |cur.kids| > 0
    ensures DefFrom(cur, [], t, DefOf(cur.kids[0], t, d)) == DefOf(cur, t, d)
  {
    var none: seq<Formula> := [];
    assert cur.kids[|none| + 1..] == cur.kids[1..];
    var (g, d1) := DefOf(cur.kids[0], t, d);
    if g.Some? {
      var (gs, d2) := DefAll(cur.kids[1..], t, d1);
      if gs.Some? { assert none + [g.value] + gs.value == [g.value] + gs.value; }
    }
  }

  /** One argument more is done: the next one, or the node. */
  lemma {:induction false} DefNextKid(s: CnfStack, t: nat, g: Formula, d: Defs)
    requires s.CnfFrame? && Open(s)
    ensures var n, done := |s.done| + 1, s.done + [g];
            if n == |s.node.kids| then DefFrom(s.node, s.done, t, (Some(g), d)) == DefNode(s.node, done, t, d)
            else DefFrom(s.node, s.done, t, (Some(g), d)) == DefFrom(s.node, done, t, DefOf(s.node.kids[n], t, d))
  {
    var kids, n, done := s.node.kids, |s.done| + 1, s.done + [g];
    if n == |kids| {
      assert kids[n..] == [] && done + [] == done;
    } else {
      assert kids[n..][0] == kids[n] && kids[n..][1..] == kids[n + 1..];
      var (h, d1) := DefOf(kids[n], t, d);
      if h.Some? {
        var (rest, d2) := DefAll(kids[n + 1..], t, d1);
        if rest.Some? { assert done + ([h.value] + rest.value) == done + [h.value] + rest.value; }
      }
    }
  }

  ghost function NoDefs(start: nat): Defs {
    Defs([], [], start)
  }

  /** What the normal form and the definitions guarantee, for any variables or for those that are collected. */
  lemma {:induction false} DefFromStart(f: Formula, t: nat, start: nat, collected: bool)
    requires t >= 1 && Plain(f, start, collected)
    ensures var (r, d) := DefOf(f, t, NoDefs(start));
            DefsOk(d, start, collected) && (r.Some? ==> Renamed(r.value, f, d, t, collected))
  {
    DefOk(f, t, NoDefs(start), start, collected);
  }

  /** Finish all nodes whose last argument has just been done; None when one is misread. */
  method DefUnwind(stack: CnfStack, result: Formula, t: nat, d: Defs)
    returns (s: CnfStack, r: Option<Formula>, d2: Defs)
    requires Open(stack)
    ensures Open(s) && Ahead(s) == Ahead(stack)
    ensures DefWhole(stack, t, (Some(result), d)) == if r.None? then (None, d2) else DefWhole(s, t, (r, d2))
    ensures r.Some? && s.CnfFrame? ==> |s.done| + 1 < |s.node.kids|
  {
    s, r, d2 := stack, Some(result), d;
    while s.CnfFrame? && |s.done| + 1 == |s.node.kids|
      invariant Open(s) && Ahead(s) == Ahead(stack) && r.Some?
      invariant DefWhole(s, t, (r, d2)) == DefWhole(stack, t, (Some(result), d))
      decreases s
    {
      NextKid(s, r.value);
      DefNextKid(s, t, r.value, d2);
      r, d2 := DefStep(s.node, s.done + [r.value], t, d2);
      s := s.below;
      if r.None? {
        DefWholeNone(s, t, d2);
        return;
      }
    }
  }

  lemma {:induction false} DefMore(s: CnfStack, t: nat, g: Formula, d: Defs)
    requires s.CnfFrame? && Open(s) && |s.done| + 1 < |s.node.kids|
    ensures var n, u := |s.done| + 1, CnfFrame(s.node, s.done + [g], s.below);
            Open(u) && DefWhole(u, t, DefOf(s.node.kids[n], t, d)) == DefWhole(s, t, (Some(g), d)) &&
            Nodes(s.node.kids[n]) + Ahead(u) == Ahead(s)
  {
    NextKid(s, g);
    DefNextKid(s, t, g, d);
  }

  lemma {:induction false} DefEnter(cur: Formula, s: CnfStack, t: nat, d: Defs)
    requires !cur.Leaf() && |cur.kids| > 0 && Open(s)
    ensures var u := CnfFrame(cur, [], s);
            Open(u) && DefWhole(u, t, DefOf(cur.kids[0], t, d)) == DefWhole(s, t, DefOf(cur, t, d)) &&
            Nodes(cur.kids[0]) + Ahead(u) < Nodes(cur) + Ahead(s)
  {
    FirstKid(cur, s);
    DefFirstKid(cur, t, d);
  }

  lemma {:induction false} DefLeaf(cur: Formula, t: nat, d: Defs)
    requires cur.Leaf() || |cur.kids| == 0
    ensures DefOf(cur, t, d) == (Some(cur), d)
  {
  }

  /** The loop of cnf_def. */
  method DefLoop(f: Formula, threshold: nat, d0: Defs, ghost goal: (Option<Formula>, Defs))
    returns (r: Option<Formula>, d: Defs)
    requires goal == DefOf(f, threshold, d0)
    ensures (r, d) == goal
  {
    d := d0;
    var stack, cur := CnfBottom, f;
    while true
      invariant Open(stack) && DefWhole(stack, threshold, DefOf(cur, threshold, d)) == goal
      decreases Nodes(cur) + Ahead(stack)
    {
      if !cur.Leaf() && |cur.kids| > 0 {
        DefEnter(cur, stack, threshold, d);
        stack, cur := CnfFrame(cur, [], stack), cur.kids[0];
      } else {
        DefLeaf(cur, threshold, d);
        stack, r, d := DefUnwind(stack, cur, threshold, d);
        if r.None? || stack.CnfBottom? { return; }
        DefMore(stack, threshold, r.value, d);
        stack := CnfFrame(stack.node, stack.done + [r.value], stack.below);
        cur := stack.node.kids[|stack.done|];
      }
    }
  }

  /** The formula is quantifier-free, and its predicates are below the first fresh one.  The normal form
      stands for it, given the definitions; None is returned exactly for a formula that distribute
      misreads.  If its variables are below MAX_VARS, so are those of everything that is named. */
  method CnfDef(f: Formula, threshold: nat, start: nat) returns (r: Option<Formula>, d: Defs)
    requires threshold >= 1 && Plain(f, start, false)
    ensures (r, d) == DefOf(f, threshold, NoDefs(start))
    ensures r.None? <==> DefMisread(f, threshold, NoDefs(start))
    ensures DefsOk(d, start, false)
    ensures r.Some? ==> StandsFor(r.value, f, d) && IsCnf(r.value) && Plain(r.value, d.next, false)
    ensures r.Some? ==> Count(r.value) <= DefMax(f, threshold) && Tidy(r.value)
    ensures Plain(f, start, true) ==> DefsOk(d, start, true) && (r.Some? ==> Plain(r.value, d.next, true))
  {
    r, d := DefLoop(f, threshold, Defs([], [], start), DefOf(f, threshold, NoDefs(start)));
    DefFailsIffMisread(f, threshold, NoDefs(start), start);
    DefFromStart(f, threshold, start, false);
    if r.Some? { DefTidy(f, threshold, NoDefs(start)); }
    if Plain(f, start, true) { DefFromStart(f, threshold, start, true); }
  }
}

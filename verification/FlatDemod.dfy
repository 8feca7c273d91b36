/** Demodulation of flatterms: innermost rewriting with a discrimination tree of demodulators,
    recording a replayable list of steps (fapply_demod, fdemod, fdemodulate, fdemod_clause:
    ladr/flatdemod.c). */
module FlatDemod {
  import opened Options
  import opened Terms
  import opened DiscrimTree
  import opened Replay

  /** A flatterm as a tree; `reduced` is its reduced_flag. */
  datatype FTerm = FVar(n: nat) | FApp(sym: nat, args: seq<FTerm>, reduced: bool)

  function Erase(f: FTerm): (t: Term)
    ensures t.App? <==> f.FApp?
    ensures f.FApp? ==> t == App(f.sym, EraseAll(f.args))
    decreases f, 1
  {
    match f
    case FVar(n) => Var(n)
    case FApp(g, args, _) => App(g, EraseAll(args))
  }

  function EraseAll(fs: seq<FTerm>): (ts: seq<Term>)
    ensures |ts| == |fs| && forall i | 0 <= i < |fs| :: ts[i] == Erase(fs[i])
    decreases fs, 0
  {
    seq(|fs|, i requires 0 <= i < |fs| => Erase(fs[i]))
  }

  function Plain(t: Term): (f: FTerm)
    ensures Erase(f) == t
    decreases t, 1
  {
    match t
    case Var(n) => FVar(n)
    case App(g, args) =>
      var fs := PlainAll(args);
      assert EraseAll(fs) == args;
      FApp(g, fs, false)
  }

  function PlainAll(ts: seq<Term>): (fs: seq<FTerm>)
    ensures |fs| == |ts| && forall i | 0 <= i < |ts| :: fs[i] == Plain(ts[i]) && Erase(fs[i]) == ts[i]
    decreases ts, 0
  {
    seq(|ts|, i requires 0 <= i < |ts| => Plain(ts[i]))
  }

  function Mark(f: FTerm): (g: FTerm)
    ensures Erase(g) == Erase(f)
  {
    match f case FVar(_) => f case FApp(sym, args, _) => FApp(sym, args, true)
  }

  /** Apply a substitution, marking what is copied from it as reduced. */
  function FapplyDemod(t: Term, s: Subst): (f: FTerm)
    requires Vars(t) <= s.Keys
    ensures Erase(f) == Apply(t, s)
    decreases t, 1
  {
    match t
    case Var(n) => Mark(Plain(s[n]))
    case App(g, args) =>
      var fs := FapplyAll(args, s);
      assert EraseAll(fs) == ApplyAll(args, s);
      FApp(g, fs, false)
  }

  function FapplyAll(ts: seq<Term>, s: Subst): (fs: seq<FTerm>)
    requires VarsAll(ts) <= s.Keys
    ensures |fs| == |ts| && EraseAll(fs) == ApplyAll(ts, s)
    decreases ts, 0
  {
    if |ts| == 0 then [] else
      EraseCons(FapplyDemod(ts[0], s), FapplyAll(ts[1..], s));
      [FapplyDemod(ts[0], s)] + FapplyAll(ts[1..], s)
  }

  lemma {:induction false} EraseCons(f: FTerm, fs: seq<FTerm>)
    ensures EraseAll([f] + fs) == [Erase(f)] + EraseAll(fs)
  {
  }

  // ---------- Demodulators and their index ----------

  /** A demodulator indexed from one of its sides. */
  datatype Side = Side(rule: Rule, left: bool) {
    function Dir(): nat { if left then 1 else 2 }
    function Lhs(): Term { From(rule, Dir()) }
    function Rhs(): Term { To(rule, Dir()) }
  }

  /** The index, the term order used on unoriented demodulators, and the clauses by ID. */
  datatype System = System(kids: seq<Discrim<Side>>, greater: (Term, Term) -> bool, rules: Rules)

  type Candidate = (Side, Subst)

  function Candidates(sys: System, t: Term): seq<Candidate> {
    Answers(Enum(sys.kids, [t], map[]))
  }

  ghost predicate SideOk(sys: System, e: Entry<Side>) {
    var c := e.1;
    e.0 == PathOf(c.Lhs()) && c.Lhs().App? && Vars(c.Rhs()) <= Vars(c.Lhs()) &&
    c.rule.id in sys.rules && sys.rules[c.rule.id] == c.rule
  }

  ghost predicate WellIndexed(sys: System) {
    forall e | e in EntriesAll(sys.kids) :: SideOk(sys, e)
  }

  predicate Accepts(sys: System, c: Candidate, t: Term) {
    c.0.rule.oriented || sys.greater(t, Apply(c.0.Rhs(), c.1))
  }

  lemma {:induction false} ScanMember(es: seq<Entry<Side>>, t: Term, c: Candidate) returns (e: Entry<Side>)
    requires c in Scan(es, [t], map[])
    ensures e in es && e.1 == c.0 && MatchPath(e.0, [t], map[]) == Some(c.1)
  {
    if c in TryEntry(es[0], [t], map[]) {
      e := es[0];
    } else {
      e := ScanMember(es[1..], t, c);
    }
  }

  /** Every candidate matches, binds all the variables it needs, and can be found by its ID. */
  lemma {:induction false} CandidateMatches(sys: System, t: Term, c: Candidate)
    requires WellIndexed(sys) && c in Candidates(sys, t)
    ensures c.0.Lhs().App? && t.App? && Match(c.0.Lhs(), t, map[]) == Some(c.1)
    ensures Vars(c.0.Rhs()) <= Vars(c.0.Lhs()) == c.1.Keys
    ensures c.0.rule.id in sys.rules && sys.rules[c.0.rule.id] == c.0.rule
  {
    EnumIsScan(sys.kids, [t], map[]);
    var e := ScanMember(EntriesAll(sys.kids), t, c);
    assert SideOk(sys, e);
    KeyMatches(c.0.Lhs(), t);
    MatchSound(c.0.Lhs(), t, map[]);
  }

  // ---------- Normal forms ----------

  ghost predicate Irreducible(sys: System, t: Term) {
    forall c | c in Candidates(sys, t) :: !Accepts(sys, c, t)
  }

  ghost predicate Normal(sys: System, t: Term)
    decreases t, 1
  {
    t.App? ==> NormalAll(sys, t.args) && Irreducible(sys, t)
  }

  ghost predicate NormalAll(sys: System, ts: seq<Term>)
    decreases ts, 0
  {
    forall i | 0 <= i < |ts| :: Normal(sys, ts[i])
  }

  /** Whatever is marked reduced is in normal form. */
  ghost predicate FlagsTrue(sys: System, f: FTerm)
    decreases f, 1
  {
    f.FApp? ==> (f.reduced ==> Normal(sys, Erase(f))) && AllFlagsTrue(sys, f.args)
  }

  ghost predicate AllFlagsTrue(sys: System, fs: seq<FTerm>)
    decreases fs, 0
  {
    forall i | 0 <= i < |fs| :: FlagsTrue(sys, fs[i])
  }

  lemma {:induction false} PlainFlags(sys: System, t: Term)
    ensures FlagsTrue(sys, Plain(t))
    decreases t
  {
    if t.App? {
      forall i | 0 <= i < |t.args| ensures FlagsTrue(sys, PlainAll(t.args)[i]) { PlainFlags(sys, t.args[i]); }
    }
  }

  ghost predicate NormalSubst(sys: System, s: Subst) {
    forall n | n in s :: Normal(sys, s[n])
  }

  lemma {:induction false} MatchNormal(sys: System, p: Term, t: Term, s: Subst)
    requires Normal(sys, t) && NormalSubst(sys, s) && Match(p, t, s).Some?
    ensures NormalSubst(sys, Match(p, t, s).value)
    decreases p, 1
  {
    if p.App? { MatchAllNormal(sys, p.args, t.args, s); }
  }

  lemma {:induction false} MatchAllNormal(sys: System, ps: seq<Term>, ts: seq<Term>, s: Subst)
    requires |ps| == |ts| && NormalAll(sys, ts) && NormalSubst(sys, s) && MatchAll(ps, ts, s).Some?
    ensures NormalSubst(sys, MatchAll(ps, ts, s).value)
    decreases ps, 0
  {
    if |ps| > 0 {
      MatchNormal(sys, ps[0], ts[0], s);
      MatchAllNormal(sys, ps[1..], ts[1..], Match(ps[0], ts[0], s).value);
    }
  }

  /** The marks of a contractum are right when what was substituted is in normal form. */
  lemma {:induction false} ContractumFlags(sys: System, t: Term, s: Subst)
    requires Vars(t) <= s.Keys && NormalSubst(sys, s)
    ensures FlagsTrue(sys, FapplyDemod(t, s))
    decreases t, 1
  {
    match t
    case Var(n) => PlainFlags(sys, s[n]);
    case App(_, args) => ContractaFlags(sys, args, s);
  }

  lemma {:induction false} ContractaFlags(sys: System, ts: seq<Term>, s: Subst)
    requires VarsAll(ts) <= s.Keys && NormalSubst(sys, s)
    ensures AllFlagsTrue(sys, FapplyAll(ts, s))
    decreases ts, 0
  {
    if |ts| > 0 {
      ContractumFlags(sys, ts[0], s);
      ContractaFlags(sys, ts[1..], s);
    }
  }

  /** No candidate is oriented or decreases the term. */
  ghost predicate NoneUsable(sys: System, t: Term, cands: seq<Candidate>) {
    forall d | d in cands :: !d.0.rule.oriented && !sys.greater(t, Apply(d.0.Rhs(), d.1))
  }

  /** A candidate with none usable before it. */
  ghost predicate First(sys: System, t: Term, c: Candidate) {
    var cands := Candidates(sys, t);
    exists i :: 0 <= i < |cands| && cands[i] == c && NoneUsable(sys, t, cands[..i])
  }

  // ---------- The order of the steps ----------

  /** The step uses the first candidate that is oriented or decreases the term. */
  ghost predicate Chosen(sys: System, t: Term, st: Step) {
    exists c: Candidate :: Picked(sys, t, c) && st.id == c.0.rule.id && st.dir == c.0.Dir()
  }

  ghost predicate Picked(sys: System, t: Term, c: Candidate) {
    First(sys, t, c) && Accepts(sys, c, t)
  }

  /** The k-th nonvariable node is the first that can be rewritten. */
  ghost predicate Leftmost(sys: System, t: Term, k: int, st: Step)
    decreases t, 1
  {
    t.App? && 1 <= k <= NonVars(t) &&
    if k == NonVars(t) then NormalAll(sys, t.args) && Chosen(sys, t, st) else LeftmostIn(sys, t.args, k, st)
  }

  ghost predicate LeftmostIn(sys: System, ts: seq<Term>, k: int, st: Step)
    decreases ts, 0
  {
    |ts| > 0 &&
    if k <= NonVars(ts[0]) then Leftmost(sys, ts[0], k, st)
    else Normal(sys, ts[0]) && LeftmostIn(sys, ts[1..], k - NonVars(ts[0]), st)
  }

  predicate InLimit(limit: Option<int>, size: int) {
    limit.Some? ==> size <= limit.value
  }

  /** Every step rewrites the first node that can be rewritten, while the size is within the limit. */
  ghost predicate RunTerm(sys: System, limit: Option<int>, t: Term, steps: seq<Step>, off: int, size: int)
    decreases |steps|
  {
    |steps| == 0 ||
    (InLimit(limit, size) && Leftmost(sys, t, steps[0].at - off, steps[0]) &&
     match RewriteAt(t, steps[0].at - off, sys.rules, steps[0])
     case None => false
     case Some(u) => RunTerm(sys, limit, u, steps[1..], off, size + Size(u) - Size(t)))
  }

  ghost predicate RunIn(sys: System, limit: Option<int>, ts: seq<Term>, steps: seq<Step>, off: int, size: int)
    decreases |steps|
  {
    |steps| == 0 ||
    (InLimit(limit, size) && LeftmostIn(sys, ts, steps[0].at - off, steps[0]) &&
     match RewriteIn(ts, steps[0].at - off, sys.rules, steps[0])
     case None => false
     case Some(us) => RunIn(sys, limit, us, steps[1..], off, size + SizeAll(us) - SizeAll(ts)))
  }

  lemma {:induction false} RunTermConcat(sys: System, limit: Option<int>, t: Term, x: seq<Step>, y: seq<Step>, off: int,
      size: int)
    requires RunTerm(sys, limit, t, x, off, size) && ReplayTerm(t, sys.rules, x, off).Some?
    requires var u := ReplayTerm(t, sys.rules, x, off).value;
             RunTerm(sys, limit, u, y, off, size + Size(u) - Size(t))
    ensures RunTerm(sys, limit, t, x + y, off, size)
    decreases |x|
  {
    if |x| == 0 {
      assert x + y == y;
    } else {
      assert (x + y)[0] == x[0] && (x + y)[1..] == x[1..] + y;
      var v := RewriteAt(t, x[0].at - off, sys.rules, x[0]).value;
      RunTermConcat(sys, limit, v, x[1..], y, off, size + Size(v) - Size(t));
    }
  }

  lemma {:induction false} RunInConcat(sys: System, limit: Option<int>, ts: seq<Term>, x: seq<Step>, y: seq<Step>,
      off: int, size: int)
    requires RunIn(sys, limit, ts, x, off, size) && ReplayIn(ts, sys.rules, x, off).Some?
    requires var us := ReplayIn(ts, sys.rules, x, off).value;
             RunIn(sys, limit, us, y, off, size + SizeAll(us) - SizeAll(ts))
    ensures RunIn(sys, limit, ts, x + y, off, size)
    decreases |x|
  {
    if |x| == 0 {
      assert x + y == y;
    } else {
      assert (x + y)[0] == x[0] && (x + y)[1..] == x[1..] + y;
      var vs := RewriteIn(ts, x[0].at - off, sys.rules, x[0]).value;
      RunInConcat(sys, limit, vs, x[1..], y, off, size + SizeAll(vs) - SizeAll(ts));
    }
  }

  lemma {:induction false} LeftmostInContext(sys: System, pre: seq<Term>, t: Term, post: seq<Term>, k: int, st: Step)
    requires NormalAll(sys, pre) && Leftmost(sys, t, k - NonVarsAll(pre), st)
    ensures LeftmostIn(sys, pre + ([t] + post), k, st)
  {
    var ts := pre + ([t] + post);
    if |pre| == 0 {
      assert ts[0] == t;
    } else {
      assert ts[0] == pre[0] && ts[1..] == pre[1..] + ([t] + post);
      LeftmostInContext(sys, pre[1..], t, post, k - NonVars(pre[0]), st);
    }
  }

  lemma {:induction false} RunInContext(sys: System, limit: Option<int>, pre: seq<Term>, t: Term, post: seq<Term>,
      steps: seq<Step>, off: int, size: int)
    requires NormalAll(sys, pre) && RunTerm(sys, limit, t, steps, off + NonVarsAll(pre), size)
    ensures RunIn(sys, limit, pre + ([t] + post), steps, off, size)
    decreases |steps|
  {
    if |steps| > 0 {
      var k := steps[0].at - off;
      LeftmostInContext(sys, pre, t, post, k, steps[0]);
      RewriteInContext(pre, t, post, k, sys.rules, steps[0]);
      var u := RewriteAt(t, k - NonVarsAll(pre), sys.rules, steps[0]).value;
      ListGrowth(pre, t, u, post);
      RunInContext(sys, limit, pre, u, post, steps[1..], off, size + Size(u) - Size(t));
    }
  }

  lemma {:induction false} RunUnder(sys: System, limit: Option<int>, f: nat, ts: seq<Term>, steps: seq<Step>, off: int,
      size: int)
    requires RunIn(sys, limit, ts, steps, off, size)
    ensures RunTerm(sys, limit, App(f, ts), steps, off, size)
    decreases |steps|
  {
    if |steps| > 0 {
      var us := RewriteIn(ts, steps[0].at - off, sys.rules, steps[0]).value;
      RunUnder(sys, limit, f, us, steps[1..], off, size + SizeAll(us) - SizeAll(ts));
    }
  }

  /** A run within a limit is a run without. */
  lemma {:induction false} RunFree(sys: System, limit: Option<int>, t: Term, steps: seq<Step>, off: int, size: int,
      size2: int)
    requires RunTerm(sys, limit, t, steps, off, size)
    ensures RunTerm(sys, None, t, steps, off, size2)
    decreases |steps|
  {
    if |steps| > 0 {
      var u := RewriteAt(t, steps[0].at - off, sys.rules, steps[0]).value;
      RunFree(sys, limit, u, steps[1..], off, size + Size(u) - Size(t), size2 + Size(u) - Size(t));
    }
  }

  /** Going on with the i-th of a list of terms of which the first i are done. */
  lemma {:induction false} RunMore(sys: System, limit: Option<int>, ts: seq<Term>, us: seq<Term>, i: nat,
      done: seq<Step>, more: seq<Step>, off: int, sequence: nat, size: int)
    requires i < |us| && RunIn(sys, limit, ts, done, off, size) && ReplayIn(ts, sys.rules, done, off) == Some(us)
    requires more == [] || (sequence == off + NonVarsAll(us[..i]) && NormalAll(sys, us[..i]))
    requires RunTerm(sys, limit, us[i], more, sequence, size + SizeAll(us) - SizeAll(ts))
    ensures RunIn(sys, limit, ts, done + more, off, size)
  {
    if more == [] {
      assert done + more == done;
    } else {
      assert us == us[..i] + ([us[i]] + us[i + 1..]);
      RunInContext(sys, limit, us[..i], us[i], us[i + 1..], more, off, size + SizeAll(us) - SizeAll(ts));
      RunInConcat(sys, limit, ts, done, more, off, size);
    }
  }

  lemma {:induction false} NormalHasNone(sys: System, t: Term, k: int, st: Step)
    requires Normal(sys, t)
    ensures !Leftmost(sys, t, k, st)
    decreases t, 1
  {
    if Leftmost(sys, t, k, st) {
      if k != NonVars(t) { NormalListHasNone(sys, t.args, k, st); }
    }
  }

  lemma {:induction false} NormalListHasNone(sys: System, ts: seq<Term>, k: int, st: Step)
    requires NormalAll(sys, ts)
    ensures !LeftmostIn(sys, ts, k, st)
    decreases ts, 0
  {
    if |ts| > 0 {
      NormalHasNone(sys, ts[0], k, st);
      NormalListHasNone(sys, ts[1..], k - NonVars(ts[0]), st);
    }
  }

  lemma {:induction false} PickedOnce(sys: System, t: Term, c: Candidate, d: Candidate)
    requires Picked(sys, t, c) && Picked(sys, t, d)
    ensures c == d
  {
    var cands := Candidates(sys, t);
    var i :| 0 <= i < |cands| && cands[i] == c && NoneUsable(sys, t, cands[..i]);
    var j :| 0 <= j < |cands| && cands[j] == d && NoneUsable(sys, t, cands[..j]);
    assert forall m | 0 <= m < j :: cands[m] in cands[..j];
    assert forall m | 0 <= m < i :: cands[m] in cands[..i];
  }

  lemma {:induction false} LeftmostOnce(sys: System, t: Term, k: int, st: Step, k2: int, st2: Step)
    requires Leftmost(sys, t, k, st) && Leftmost(sys, t, k2, st2)
    ensures k == k2 && st.id == st2.id && st.dir == st2.dir
    decreases t, 1
  {
    if k == NonVars(t) && k2 == NonVars(t) {
      var c: Candidate :| Picked(sys, t, c) && st.id == c.0.rule.id && st.dir == c.0.Dir();
      var d: Candidate :| Picked(sys, t, d) && st2.id == d.0.rule.id && st2.dir == d.0.Dir();
      PickedOnce(sys, t, c, d);
    } else if k == NonVars(t) {
      NormalListHasNone(sys, t.args, k2, st2);
    } else if k2 == NonVars(t) {
      NormalListHasNone(sys, t.args, k, st);
    } else {
      LeftmostInOnce(sys, t.args, k, st, k2, st2);
    }
  }

  lemma {:induction false} LeftmostInOnce(sys: System, ts: seq<Term>, k: int, st: Step, k2: int, st2: Step)
    requires LeftmostIn(sys, ts, k, st) && LeftmostIn(sys, ts, k2, st2)
    ensures k == k2 && st.id == st2.id && st.dir == st2.dir
    decreases ts, 0
  {
    var n := NonVars(ts[0]);
    if k <= n && k2 <= n {
      LeftmostOnce(sys, ts[0], k, st, k2, st2);
    } else if k <= n {
      NormalHasNone(sys, ts[0], k, st);
    } else if k2 <= n {
      NormalHasNone(sys, ts[0], k2, st2);
    } else {
      LeftmostInOnce(sys, ts[1..], k - n, st, k2 - n, st2);
    }
  }

  /** So demodulators and atoms determine the steps: of two runs one begins with the other, and they are the
      same if both end in normal form. */
  lemma {:induction false} RunsAgree(sys: System, ts: seq<Term>, x: seq<Step>, y: seq<Step>, off: int, size: int)
    requires RunIn(sys, None, ts, x, off, size) && RunIn(sys, None, ts, y, off, size)
    requires |x| <= |y| && ReplayIn(ts, sys.rules, x, off).Some?
    ensures x <= y
    ensures NormalAll(sys, ReplayIn(ts, sys.rules, x, off).value) ==> x == y
    decreases |x|
  {
    if |x| == 0 {
      if |y| > 0 && NormalAll(sys, ts) { NormalListHasNone(sys, ts, y[0].at - off, y[0]); }
    } else {
      LeftmostInOnce(sys, ts, x[0].at - off, x[0], y[0].at - off, y[0]);
      assert x[0] == y[0];
      var us := RewriteIn(ts, x[0].at - off, sys.rules, x[0]).value;
      RunsAgree(sys, us, x[1..], y[1..], off, size + SizeAll(us) - SizeAll(ts));
      assert x == [x[0]] + x[1..] && y == [y[0]] + y[1..];
    }
  }

  // ---------- What a run of fdemod has done ----------

  /** The counters and the list that fdemod updates through pointers; the list is newest first. */
  datatype State = State(stepLimit: nat, size: int, sequence: nat, just: seq<Step>)

  /** A limit has been reached; no size limit is given as None. */
  predicate Stopped(a: State, limit: Option<int>) {
    a.stepLimit == 0 || (limit.Some? && a.size > limit.value)
  }

  function Newest(steps: seq<Step>): seq<Step> {
    if |steps| == 0 then [] else Newest(steps[1..]) + [steps[0]]
  }

  /** Each step was made with an indexed side of its demodulator. */
  ghost predicate Indexed(sys: System, steps: seq<Step>) {
    forall j | 0 <= j < |steps| :: steps[j].id in sys.rules && From(sys.rules[steps[j].id], steps[j].dir).App? &&
      exists e :: e in EntriesAll(sys.kids) && e.1.rule == sys.rules[steps[j].id] && e.1.Dir() == steps[j].dir
  }

  /** The bookkeeping common to a term and a list of terms. */
  ghost predicate Counted(sys: System, a: State, b: State, done: seq<Step>, growth: int) {
    b.stepLimit + |done| == a.stepLimit && b.size == a.size + growth && b.just == Newest(done) + a.just &&
        Indexed(sys, done)
  }

  ghost predicate Rewritten(sys: System, limit: Option<int>, f: FTerm, g: FTerm, done: seq<Step>, a: State, b: State) {
    && Counted(sys, a, b, done, Size(Erase(g)) - Size(Erase(f)))
    && ReplayTerm(Erase(f), sys.rules, done, a.sequence) == Some(Erase(g))
    && RunTerm(sys, limit, Erase(f), done, a.sequence, a.size)
    && (Stopped(a, limit) ==> done == [] && Erase(g) == Erase(f) && b == a)
    && (!Stopped(b, limit) ==>
        b.sequence == a.sequence + NonVars(Erase(g)) && Normal(sys, Erase(g)) &&
        FlagsTrue(sys, g) && (g.FApp? ==> g.reduced))
  }

  /** After the first i terms of a list. */
  ghost predicate RewrittenUpTo(sys: System, limit: Option<int>, fs: seq<FTerm>, gs: seq<FTerm>, i: nat,
      done: seq<Step>, a: State, b: State) {
    && i <= |fs| == |gs| && gs[i..] == fs[i..]
    && Counted(sys, a, b, done, SizeAll(EraseAll(gs)) - SizeAll(EraseAll(fs)))
    && ReplayIn(EraseAll(fs), sys.rules, done, a.sequence) == Some(EraseAll(gs))
    && RunIn(sys, limit, EraseAll(fs), done, a.sequence, a.size)
    && (Stopped(a, limit) ==> done == [] && EraseAll(gs) == EraseAll(fs) && b == a)
    && (!Stopped(b, limit) ==> b.sequence == a.sequence + NonVarsAll(EraseAll(gs)[..i]))
    && (!Stopped(b, limit) ==> forall j | 0 <= j < i :: Normal(sys, Erase(gs[j])) && FlagsTrue(sys, gs[j]))
  }

  lemma {:induction false} NewestConcat(x: seq<Step>, y: seq<Step>)
    ensures Newest(x + y) == Newest(y) + Newest(x)
  {
    if |x| == 0 {
      assert x + y == y;
    } else {
      assert (x + y)[0] == x[0] && (x + y)[1..] == x[1..] + y;
      NewestConcat(x[1..], y);
      assert (Newest(y) + Newest(x[1..])) + [x[0]] == Newest(y) + (Newest(x[1..]) + [x[0]]);
    }
  }

  lemma {:induction false} CountedTrans(sys: System, a: State, b: State, c: State, x: seq<Step>, y: seq<Step>, g: int,
      h: int)
    requires Counted(sys, a, b, x, g) && Counted(sys, b, c, y, h)
    ensures Counted(sys, a, c, x + y, g + h)
  {
    NewestConcat(x, y);
    assert Newest(y) + (Newest(x) + a.just) == Newest(x + y) + a.just;
    IndexedConcat(sys, x, y);
  }

  lemma {:induction false} EraseUpdate(gs: seq<FTerm>, i: nat, g: FTerm)
    requires i < |gs|
    ensures EraseAll(gs[i := g]) == EraseAll(gs)[i := Erase(g)]
  {
  }

  /** Replaying steps inside the i-th term of a list. */
  lemma {:induction false} ReplayAtIndex(ts: seq<Term>, i: nat, rules: Rules, steps: seq<Step>, off: int)
    requires i < |ts| && ReplayTerm(ts[i], rules, steps, off + NonVarsAll(ts[..i])).Some?
    ensures ReplayIn(ts, rules, steps, off) ==
            Some(ts[i := ReplayTerm(ts[i], rules, steps, off + NonVarsAll(ts[..i])).value])
  {
    var pre, t, post := ts[..i], ts[i], ts[i + 1..];
    var u := ReplayTerm(t, rules, steps, off + NonVarsAll(pre)).value;
    assert ts == pre + ([t] + post) && ts[i := u] == pre + ([u] + post);
    ReplayInContext(pre, t, post, rules, steps, off);
  }

  lemma {:induction false} SumAtIndex(ts: seq<Term>, i: nat, u: Term)
    requires i < |ts|
    ensures SizeAll(ts[i := u]) - SizeAll(ts) == Size(u) - Size(ts[i])
    ensures NonVarsAll(ts[i := u][..i + 1]) == NonVarsAll(ts[..i]) + NonVars(u)
  {
    var pre, t, post := ts[..i], ts[i], ts[i + 1..];
    assert ts == pre + ([t] + post) && ts[i := u] == pre + ([u] + post) && ts[i := u][..i + 1] == pre + [u];
    ListGrowth(pre, t, u, post);
    ConcatAll(pre, [u]);
  }

  /** Going on with the i-th of a list of terms of which the first i are done. */
  lemma {:induction false} ReplayMore(rules: Rules, ts: seq<Term>, us: seq<Term>, i: nat, done: seq<Step>,
      more: seq<Step>, u: Term, off: int, sequence: nat)
    requires i < |us| && ReplayIn(ts, rules, done, off) == Some(us)
    requires more == [] || sequence == off + NonVarsAll(us[..i])
    requires ReplayTerm(us[i], rules, more, sequence) == Some(u)
    ensures ReplayIn(ts, rules, done + more, off) == Some(us[i := u])
  {
    ReplayInConcat(ts, rules, done, more, off);
    if more == [] {
      assert us[i := u] == us;
    } else {
      ReplayAtIndex(us, i, rules, more, off);
    }
  }

  lemma {:induction false} ArgRun(sys: System, limit: Option<int>, fs: seq<FTerm>, gs: seq<FTerm>, i: nat,
      done: seq<Step>, a: State, b: State, g: FTerm, more: seq<Step>, c: State)
    requires RewrittenUpTo(sys, limit, fs, gs, i, done, a, b) && i < |fs|
    requires Rewritten(sys, limit, gs[i], g, more, b, c)
    ensures ReplayIn(EraseAll(fs), sys.rules, done + more, a.sequence) == Some(EraseAll(gs[i := g]))
    ensures RunIn(sys, limit, EraseAll(fs), done + more, a.sequence, a.size)
  {
    var ts, us := EraseAll(fs), EraseAll(gs);
    EraseUpdate(gs, i, g);
    ReplayMore(sys.rules, ts, us, i, done, more, Erase(g), a.sequence, b.sequence);
    assert EraseAll(gs[..i]) == us[..i];
    RunMore(sys, limit, ts, us, i, done, more, a.sequence, b.sequence, a.size);
  }

  /** One argument more. */
  lemma {:induction false} ArgDone(sys: System, limit: Option<int>, fs: seq<FTerm>, gs: seq<FTerm>, i: nat,
      done: seq<Step>,
                                   a: State, b: State, g: FTerm, more: seq<Step>, c: State)
    requires RewrittenUpTo(sys, limit, fs, gs, i, done, a, b) && i < |fs|
    requires Rewritten(sys, limit, gs[i], g, more, b, c)
    ensures RewrittenUpTo(sys, limit, fs, gs[i := g], i + 1, done + more, a, c)
  {
    var ts, us := EraseAll(fs), EraseAll(gs);
    EraseUpdate(gs, i, g);
    SumAtIndex(us, i, Erase(g));
    CountedTrans(sys, a, b, c, done, more, SizeAll(us) - SizeAll(ts), Size(Erase(g)) - Size(us[i]));
    ArgRun(sys, limit, fs, gs, i, done, a, b, g, more, c);
    if Stopped(b, limit) { assert done + more == done && us[i := Erase(g)] == us; }
  }

  lemma {:induction false} ListGrowth(pre: seq<Term>, t: Term, u: Term, post: seq<Term>)
    ensures SizeAll(pre + ([u] + post)) - SizeAll(pre + ([t] + post)) == Size(u) - Size(t)
  {
    ConcatAll(pre, [t] + post);
    ConcatAll(pre, [u] + post);
    assert ([t] + post)[1..] == post && ([u] + post)[1..] == post;
  }

  lemma {:induction false} AtOnce(sys: System, limit: Option<int>, f: FTerm, a: State)
    requires FlagsTrue(sys, f)
    ensures Stopped(a, limit) || f.FVar? ==> Rewritten(sys, limit, f, f, [], a, a)
    ensures !Stopped(a, limit) && f.FApp? && f.reduced ==>
              Rewritten(sys, limit, f, f, [], a, a.(sequence := a.sequence + NonVars(Erase(f))))
  {
    assert Newest([]) + a.just == a.just;
  }

  /** All arguments are done, and then a limit stops the run or the term is irreducible. */
  lemma {:induction false} ArgsDone(sys: System, limit: Option<int>, f: FTerm, gs: seq<FTerm>, done: seq<Step>,
      a: State, b: State)
    requires f.FApp? && RewrittenUpTo(sys, limit, f.args, gs, |gs|, done, a, b)
    ensures ReplayTerm(Erase(f), sys.rules, done, a.sequence) == Some(App(f.sym, EraseAll(gs)))
    ensures RunTerm(sys, limit, Erase(f), done, a.sequence, a.size)
    ensures Counted(sys, a, b, done, Size(App(f.sym, EraseAll(gs))) - Size(Erase(f)))
    ensures Stopped(b, limit) ==> Rewritten(sys, limit, f, FApp(f.sym, gs, false), done, a, b)
    ensures !Stopped(b, limit) ==>
              !Stopped(a, limit) &&
              b.sequence + 1 == a.sequence + NonVars(App(f.sym, EraseAll(gs)))
    ensures !Stopped(b, limit) ==> NormalAll(sys, EraseAll(gs)) && AllFlagsTrue(sys, gs)
  {
    ReplayUnder(f.sym, EraseAll(f.args), sys.rules, done, a.sequence);
    RunUnder(sys, limit, f.sym, EraseAll(f.args), done, a.sequence, a.size);
    assert EraseAll(gs)[..|gs|] == EraseAll(gs);
  }

  lemma {:induction false} NotRewritten(sys: System, limit: Option<int>, f: FTerm, gs: seq<FTerm>, done: seq<Step>,
      a: State, b: State)
    requires f.FApp? && RewrittenUpTo(sys, limit, f.args, gs, |gs|, done, a, b) && !Stopped(b, limit)
    requires Irreducible(sys, App(f.sym, EraseAll(gs)))
    ensures Rewritten(sys, limit, f, FApp(f.sym, gs, true), done, a, b.(sequence := b.sequence + 1))
  {
    ArgsDone(sys, limit, f, gs, done, a, b);
  }

  function StepFor(c: Candidate, at: nat): Step {
    Step(c.0.rule.id, at, c.0.Dir())
  }

  /** Going on with the contractum. */
  function GoOnWith(b: State, t: Term, u: Term, st: Step, sequence: nat): State
    requires b.stepLimit > 0
  {
    State(b.stepLimit - 1, b.size + Size(u) - Size(t), sequence, [st] + b.just)
  }

  lemma {:induction false} StepCounted(sys: System, b: State, t: Term, c: Candidate, at: nat, sequence: nat)
    requires WellIndexed(sys) && c in Candidates(sys, t) && b.stepLimit > 0
    ensures var u := Apply(c.0.Rhs(), c.1);
            Counted(sys, b, GoOnWith(b, t, u, StepFor(c, at), sequence), [StepFor(c, at)], Size(u) - Size(t))
    ensures RewriteTop(t, sys.rules, StepFor(c, at)) == Some(Apply(c.0.Rhs(), c.1))
  {
    CandidateMatches(sys, t, c);
    var st := StepFor(c, at);
    assert Newest([st]) == Newest([]) + [st];
    EnumIsScan(sys.kids, [t], map[]);
    var e := ScanMember(EntriesAll(sys.kids), t, c);
    assert e.1.rule == sys.rules[st.id] && e.1.Dir() == st.dir;
  }

  /** One more step, at the top of a term whose arguments are done. */
  lemma {:induction false} RunOneMore(sys: System, limit: Option<int>, t0: Term, done: seq<Step>, t: Term, c: Candidate,
      st: Step, off: int, size: int)
    requires RunTerm(sys, limit, t0, done, off, size) && ReplayTerm(t0, sys.rules, done, off) == Some(t)
    requires t.App? && NormalAll(sys, t.args) && Picked(sys, t, c) && st == StepFor(c, st.at)
    requires st.at - off == NonVars(t) && InLimit(limit, size + Size(t) - Size(t0))
    requires RewriteTop(t, sys.rules, st).Some?
    ensures RunTerm(sys, limit, t0, done + [st], off, size)
  {
    assert Chosen(sys, t, st);
    assert Leftmost(sys, t, st.at - off, st);
    var one := [st];
    assert one[0] == st && |one[1..]| == 0;
    assert RunTerm(sys, limit, t, one, off, size + Size(t) - Size(t0));
    RunTermConcat(sys, limit, t0, done, one, off, size);
  }

  lemma {:induction false} TopRun(sys: System, limit: Option<int>, t0: Term, done: seq<Step>, t: Term, c: Candidate,
      st: Step, u: Term, v: Term, more: seq<Step>, off: int, size: int)
    requires RunTerm(sys, limit, t0, done, off, size) && ReplayTerm(t0, sys.rules, done, off) == Some(t)
    requires t.App? && NormalAll(sys, t.args) && Picked(sys, t, c) && st == StepFor(c, st.at)
    requires st.at - off == NonVars(t) && InLimit(limit, size + Size(t) - Size(t0))
    requires RewriteTop(t, sys.rules, st) == Some(u)
    requires ReplayTerm(u, sys.rules, more, off) == Some(v)
    requires RunTerm(sys, limit, u, more, off, size + Size(u) - Size(t0))
    ensures ReplayTerm(t0, sys.rules, done + [st] + more, off) == Some(v)
    ensures RunTerm(sys, limit, t0, done + [st] + more, off, size)
  {
    ReplayAtTop(t0, sys.rules, done, st, off);
    ReplayTermConcat(t0, sys.rules, done + [st], more, off);
    RunOneMore(sys, limit, t0, done, t, c, st, off, size);
    RunTermConcat(sys, limit, t0, done + [st], more, off, size);
  }

  /** The top is rewritten, and the contractum demodulated in turn. */
  lemma {:induction false} TopRewritten(sys: System, limit: Option<int>, f: FTerm, gs: seq<FTerm>, done: seq<Step>,
      a: State, b: State,
                                        c: Candidate, u: FTerm, g: FTerm, more: seq<Step>, e: State)
    requires WellIndexed(sys) && f.FApp? && RewrittenUpTo(sys, limit, f.args, gs, |gs|, done, a, b) &&
              !Stopped(b, limit)
    requires var t, st := App(f.sym, EraseAll(gs)), StepFor(c, b.sequence + 1);
             Picked(sys, t, c) && Erase(u) == Apply(c.0.Rhs(), c.1) &&
             Rewritten(sys, limit, u, g, more, GoOnWith(b, t, Erase(u), st, a.sequence), e)
    ensures Rewritten(sys, limit, f, Mark(g), done + [StepFor(c, b.sequence + 1)] + more, a, e)
  {
    var t, st := App(f.sym, EraseAll(gs)), StepFor(c, b.sequence + 1);
    var mid := GoOnWith(b, t, Erase(u), st, a.sequence);
    ArgsDone(sys, limit, f, gs, done, a, b);
    StepCounted(sys, b, t, c, b.sequence + 1, a.sequence);
    CountedTrans(sys, a, b, mid, done, [st], Size(t) - Size(Erase(f)), Size(Erase(u)) - Size(t));
    CountedTrans(sys, a, mid, e, done + [st], more, Size(Erase(u)) - Size(Erase(f)), Size(Erase(g)) - Size(Erase(u)));
    TopRun(sys, limit, Erase(f), done, t, c, st, Erase(u), Erase(g), more, a.sequence, a.size);
  }

  // ---------- What a run on a clause has done ----------

  /** The atom has grown by more than the limit, if there is one. */
  predicate Outgrown(t: Term, u: Term, limit: Option<int>) {
    limit.Some? && Size(u) > Size(t) + limit.value
  }

  /** Atom j has outgrown the limit; those before it are in normal form, those after it untouched. */
  ghost predicate StoppedAt(sys: System, atoms: seq<Term>, result: seq<Term>, i: nat, b: State, limit: Option<int>,
      j: nat)
    requires i <= |atoms| == |result|
  {
    && j < i && Outgrown(atoms[j], result[j], limit) && result[j + 1..] == atoms[j + 1..]
    && (b.stepLimit > 0 ==> NormalAll(sys, result[..j]))
  }

  /** The increase limit is kept while no atom outgrows it, and -1 from then on. */
  ghost predicate Limited(sys: System, atoms: seq<Term>, result: seq<Term>, i: nat, b: State, limit: Option<int>,
      increase: Option<int>)
    requires i <= |atoms| == |result|
  {
    || limit == increase == Some(-1)
    || (increase == limit && forall j | 0 <= j < i :: !Outgrown(atoms[j], result[j], limit))
    || (increase == Some(-1) && exists j: nat :: StoppedAt(sys, atoms, result, i, b, limit, j))
  }

  /** The first i atoms are done; once a limit is reached nothing more happens. */
  ghost predicate ClauseUpTo(sys: System, atoms: seq<Term>, result: seq<Term>, i: nat, done: seq<Step>, b: State,
      limit: Option<int>, increase: Option<int>) {
    && i <= |atoms| == |result| && result[i..] == atoms[i..]
    && ReplayIn(atoms, sys.rules, done, 0) == Some(result)
    && RunIn(sys, None, atoms, done, 0, SizeAll(atoms))
    && b.just == Newest(done) && Indexed(sys, done)
    && (b.stepLimit > 0 && increase != Some(-1) ==>
        b.sequence == NonVarsAll(result[..i]) &&
        NormalAll(sys, result[..i]))
    && (increase.Some? && increase.value >= 0 ==> Grown(atoms, result, increase.value))
    && Limited(sys, atoms, result, i, b, limit, increase)
  }

  ghost predicate Grown(atoms: seq<Term>, result: seq<Term>, n: int)
    requires |atoms| == |result|
  {
    forall j | 0 <= j < |atoms| :: Size(result[j]) <= Size(atoms[j]) + n
  }

  lemma {:induction false} IndexedConcat(sys: System, x: seq<Step>, y: seq<Step>)
    requires Indexed(sys, x) && Indexed(sys, y)
    ensures Indexed(sys, x + y)
  {
    assert forall j | 0 <= j < |x + y| :: (x + y)[j] == if j < |x| then x[j] else y[j - |x|];
  }

  lemma {:induction false} LimitedMore(sys: System, atoms: seq<Term>, result: seq<Term>, i: nat, a: State,
      limit: Option<int>, before: Option<int>, u: Term, b: State, after: Option<int>)
    requires i < |atoms| == |result| && result[i..] == atoms[i..] && Limited(sys, atoms, result, i, a, limit, before)
    requires b.stepLimit <= a.stepLimit && (before == Some(-1) ==> u == result[i])
    requires after == if Outgrown(result[i], u, before) then Some(-1) else before
    requires a.stepLimit > 0 && before != Some(-1) ==> NormalAll(sys, result[..i])
    ensures Limited(sys, atoms, result[i := u], i + 1, b, limit, after)
  {
    var us := result[i := u];
    assert result[i] == result[i..][0] == atoms[i..][0] == atoms[i];
    if limit == before == Some(-1) {
    } else if before == limit {
      if Outgrown(atoms[i], u, limit) {
        assert us[i + 1..] == result[i..][1..] == atoms[i + 1..];
        assert us[..i] == result[..i];
        assert StoppedAt(sys, atoms, us, i + 1, b, limit, i);
      }
    } else {
      var j: nat :| StoppedAt(sys, atoms, result, i, a, limit, j);
      assert us == result;
      assert StoppedAt(sys, atoms, us, i + 1, b, limit, j);
    }
  }

  lemma {:induction false} AtomRun(sys: System, atoms: seq<Term>, result: seq<Term>, i: nat, done: seq<Step>,
      a: State, limit: Option<int>, before: Option<int>, u: Term, more: seq<Step>)
    requires ClauseUpTo(sys, atoms, result, i, done, a, limit, before) && i < |atoms|
    requires ReplayTerm(result[i], sys.rules, more, a.sequence) == Some(u)
    requires a.stepLimit == 0 || before == Some(-1) ==> more == []
    requires RunTerm(sys, None, result[i], more, a.sequence, SizeAll(result))
    ensures ReplayIn(atoms, sys.rules, done + more, 0) == Some(result[i := u])
    ensures RunIn(sys, None, atoms, done + more, 0, SizeAll(atoms))
  {
    ReplayMore(sys.rules, atoms, result, i, done, more, u, 0, a.sequence);
    RunMore(sys, None, atoms, result, i, done, more, 0, a.sequence, SizeAll(atoms));
  }

  /** One atom more. */
  lemma {:induction false} AtomDone(sys: System, atoms: seq<Term>, result: seq<Term>, i: nat, done: seq<Step>,
      a: State, limit: Option<int>, before: Option<int>, u: Term, more: seq<Step>, b: State, after: Option<int>)
    requires ClauseUpTo(sys, atoms, result, i, done, a, limit, before) && i < |atoms|
    requires b.just == Newest(more) + a.just && b.stepLimit + |more| == a.stepLimit && Indexed(sys, more)
    requires ReplayTerm(result[i], sys.rules, more, a.sequence) == Some(u)
    requires a.stepLimit == 0 || before == Some(-1) ==> more == []
    requires after == if Outgrown(result[i], u, before) then Some(-1) else before
    requires b.stepLimit > 0 && after != Some(-1) ==> b.sequence == a.sequence + NonVars(u) && Normal(sys, u)
    requires RunTerm(sys, None, result[i], more, a.sequence, SizeAll(result))
    ensures ClauseUpTo(sys, atoms, result[i := u], i + 1, done + more, b, limit, after)
  {
    assert result[i] == result[i..][0] == atoms[i..][0] == atoms[i];
    AtomRun(sys, atoms, result, i, done, a, limit, before, u, more);
    NewestConcat(done, more);
    IndexedConcat(sys, done, more);
    SumAtIndex(result, i, u);
    assert result[i := u][i + 1..] == result[i..][1..] == atoms[i + 1..];
    assert result[i := u][..i + 1] == result[..i] + [u];
    LimitedMore(sys, atoms, result, i, a, limit, before, u, b, after);
  }

  // ---------- The program ----------

  /** The size that an atom may grow to. */
  function SizeLimit(t: Term, increaseLimit: Option<int>): Option<int> {
    if increaseLimit.None? then None else Some(Size(t) + increaseLimit.value)
  }

  class Demodulation {
    const sys: System
    var stepLimit: nat
    var currentSize: int
    var sequence: nat
    var justHead: seq<Step>

    ghost function St(): State
      reads this
    {
      State(stepLimit, currentSize, sequence, justHead)
    }

    constructor (sys: System, stepLimit: nat)
      ensures this.sys == sys && this.stepLimit == stepLimit && sequence == 0 && justHead == []
    {
      this.sys, this.stepLimit := sys, stepLimit;
      currentSize, sequence, justHead := 0, 0, [];
    }

    /** The first candidate, in the order of retrieval, that is oriented or decreases the term. */
    method FindRewrite(t: Term) returns (c: Option<Candidate>, contractum: FTerm)
      requires WellIndexed(sys)
      ensures c.None? ==> Irreducible(sys, t)
      ensures c.None? ==> NoneUsable(sys, t, Candidates(sys, t))
      ensures c.Some? ==> c.value.0.rule.oriented || sys.greater(t, Erase(contractum))
      ensures c.Some? ==> c.value in Candidates(sys, t) && Accepts(sys, c.value, t) && First(sys, t, c.value)
      ensures c.Some? ==>
                Vars(c.value.0.Rhs()) <= c.value.1.Keys &&
                contractum == FapplyDemod(c.value.0.Rhs(), c.value.1)
    {
      var cands, i := Candidates(sys, t), 0;
      contractum := Plain(t);
      while i < |cands|
        invariant 0 <= i <= |cands|
        invariant forall j | 0 <= j < i :: !Accepts(sys, cands[j], t)
      {
        CandidateMatches(sys, t, cands[i]);
        contractum := FapplyDemod(cands[i].0.Rhs(), cands[i].1);
        if cands[i].0.rule.oriented || sys.greater(t, Erase(contractum)) { return Some(cands[i]), contractum; }
        i := i + 1;
      }
      return None, contractum;
    }

    /** fdemod: demodulate the arguments left to right, then the top, then what it became. */
    method Fdemod(f: FTerm, limit: Option<int>) returns (g: FTerm, ghost done: seq<Step>)
      requires WellIndexed(sys) && FlagsTrue(sys, f)
      modifies this
      ensures Rewritten(sys, limit, f, g, done, old(St()), St())
      decreases stepLimit, f, 1
    {
      AtOnce(sys, limit, f, St());
      if stepLimit == 0 || (limit.Some? && currentSize > limit.value) { return f, []; }
      if f.FVar? { return f, []; }
      if f.reduced {
        sequence := sequence + NonVars(Erase(f));
        return f, [];
      }
      var save := sequence;
      var args;
      args, done := FdemodArgs(f.args, limit);
      ArgsDone(sys, limit, f, args, done, old(St()), St());
      if stepLimit == 0 || (limit.Some? && currentSize > limit.value) { return FApp(f.sym, args, false), done; }
      g, done := FdemodTop(f, args, save, limit, old(St()), done);
    }

    /** The arguments are done, from state a with the given steps. */
    method FdemodTop(f: FTerm, args: seq<FTerm>, save: nat, limit: Option<int>, ghost a: State, ghost before: seq<Step>)
      returns (g: FTerm, ghost done: seq<Step>)
      requires WellIndexed(sys) && f.FApp? && save == a.sequence
      requires RewrittenUpTo(sys, limit, f.args, args, |args|, before, a, St()) && !Stopped(St(), limit)
      modifies this
      ensures Rewritten(sys, limit, f, g, done, a, St())
      decreases stepLimit, f, 0
    {
      ghost var b := St();
      ArgsDone(sys, limit, f, args, before, a, b);
      sequence := sequence + 1;
      var t := App(f.sym, EraseAll(args));
      var c, contractum := FindRewrite(t);
      match c
      case None =>
        NotRewritten(sys, limit, f, args, before, a, b);
        return FApp(f.sym, args, true), before;
      case Some(cand) =>
        ContractumOk(t, cand);
        currentSize := currentSize + Size(Erase(contractum)) - Size(t);
        stepLimit := stepLimit - 1;
        justHead := [Step(cand.0.rule.id, sequence, cand.0.Dir())] + justHead;
        sequence := save;
        assert St() == GoOnWith(b, t, Erase(contractum), StepFor(cand, b.sequence + 1), a.sequence);
        ghost var more;
        g, more := Fdemod(contractum, limit);
        TopRewritten(sys, limit, f, args, before, a, b, cand, contractum, g, more, St());
        return Mark(g), before + [StepFor(cand, b.sequence + 1)] + more;
    }

    lemma {:induction false} ContractumOk(t: Term, c: Candidate)
      requires WellIndexed(sys) && c in Candidates(sys, t) && t.App? && NormalAll(sys, t.args)
      ensures Vars(c.0.Rhs()) <= c.1.Keys && FlagsTrue(sys, FapplyDemod(c.0.Rhs(), c.1))
    {
      CandidateMatches(sys, t, c);
      MatchAllNormal(sys, c.0.Lhs().args, t.args, map[]);
      ContractumFlags(sys, c.0.Rhs(), c.1);
    }

    /** The loop over the arguments. */
    method FdemodArgs(fs: seq<FTerm>, limit: Option<int>) returns (gs: seq<FTerm>, ghost done: seq<Step>)
      requires WellIndexed(sys) && AllFlagsTrue(sys, fs)
      modifies this
      ensures RewrittenUpTo(sys, limit, fs, gs, |fs|, done, old(St()), St())
      decreases stepLimit, fs
    {
      gs, done := fs, [];
      var i := 0;
      assert RewrittenUpTo(sys, limit, fs, gs, 0, done, old(St()), St()) by {
        assert Newest([]) + justHead == justHead;
      }
      while i < |fs|
        invariant 0 <= i <= |fs| && stepLimit <= old(stepLimit)
        invariant RewrittenUpTo(sys, limit, fs, gs, i, done, old(St()), St())
      {
        assert gs[i] == gs[i..][0] == fs[i..][0] == fs[i];
        ghost var b := St();
        var g; ghost var more;
        g, more := Fdemod(fs[i], limit);
        ArgDone(sys, limit, fs, gs, i, done, old(St()), b, g, more, St());
        gs, done, i := gs[i := g], done + more, i + 1;
      }
    }

    /** fdemodulate: one atom; an increase limit of None is "no limit", and -1 on return says that
        the limit was exceeded. */
    method Fdemodulate(t: Term, increaseLimit: Option<int>)
      returns (u: Term, increase: Option<int>, ghost done: seq<Step>)
      requires WellIndexed(sys)
      modifies this
      ensures justHead == Newest(done) + old(justHead) && stepLimit + |done| == old(stepLimit) && Indexed(sys, done)
      ensures ReplayTerm(t, sys.rules, done, old(sequence)) == Some(u)
      ensures RunTerm(sys, SizeLimit(t, increaseLimit), t, done, old(sequence), Size(t))
      ensures old(stepLimit) == 0 || increaseLimit == Some(-1) ==> done == []
      ensures increase ==
                if increaseLimit.Some? && Size(u) > Size(t) + increaseLimit.value then Some(-1) else increaseLimit
      ensures stepLimit > 0 && increase != Some(-1) ==> sequence == old(sequence) + NonVars(u) && Normal(sys, u)
      ensures increase.Some? && increase.value >= 0 ==> Size(u) <= Size(t) + increase.value
    {
      var f := Plain(t);
      PlainFlags(sys, t);
      currentSize := Size(t);
      var limit := SizeLimit(t, increaseLimit);
      var g;
      g, done := Fdemod(f, limit);
      increase := if limit.Some? && currentSize > limit.value then Some(-1) else increaseLimit;
      NewestEmpty(done);
      u := if justHead == [] then t else Erase(g);
    }

    method NextAtom(ghost atoms: seq<Term>, result: seq<Term>, i: nat, ghost done: seq<Step>,
        ghost limit: Option<int>, increaseLimit: Option<int>)
      returns (u: Term, increase: Option<int>, ghost done2: seq<Step>)
      requires WellIndexed(sys) && ClauseUpTo(sys, atoms, result, i, done, St(), limit, increaseLimit) && i < |atoms|
      modifies this
      ensures ClauseUpTo(sys, atoms, result[i := u], i + 1, done2, St(), limit, increase)
      ensures stepLimit + |done2| == old(stepLimit) + |done|
    {
      ghost var more;
      u, increase, more := Fdemodulate(result[i], increaseLimit);
      RunFree(sys, SizeLimit(result[i], increaseLimit), result[i], more, old(sequence), Size(result[i]),
              SizeAll(result));
      AtomDone(sys, atoms, result, i, done, old(St()), limit, increaseLimit, u, more, St(), increase);
      done2 := done + more;
    }

    /** fdemod_clause: all atoms in turn; the steps come out oldest first. */
    method FdemodClause(atoms: seq<Term>, increaseLimit: Option<int>)
      returns (result: seq<Term>, increase: Option<int>, steps: seq<Step>)
      requires WellIndexed(sys)
      modifies this
      ensures ReplayIn(atoms, sys.rules, steps, 0) == Some(result) && |result| == |atoms|
      ensures RunIn(sys, None, atoms, steps, 0, SizeAll(atoms))
      ensures stepLimit + |steps| == old(stepLimit) && Indexed(sys, steps)
      ensures increaseLimit.None? ==> increase.None?
      ensures increase != increaseLimit ==>
                increase == Some(-1) && exists j: nat :: StoppedAt(sys, atoms, result, |atoms|, St(), increaseLimit, j)
      ensures sys.kids != [] && increase != Some(-1) ==>
                forall j | 0 <= j < |atoms| :: !Outgrown(atoms[j], result[j], increaseLimit)
      ensures stepLimit > 0 && increase != Some(-1) ==> NormalAll(sys, result)
      ensures increase.Some? && increase.value >= 0 ==>
                forall i | 0 <= i < |atoms| :: Size(result[i]) <= Size(atoms[i]) + increase.value
    {
      result, increase, steps := atoms, increaseLimit, [];
      if sys.kids == [] {
        EmptyIndex(sys, atoms);
        return;
      }
      sequence, justHead := 0, [];
      ghost var done := [];
      var i := 0;
      while i < |atoms|
        invariant 0 <= i <= |atoms| && stepLimit + |done| == old(stepLimit)
        invariant ClauseUpTo(sys, atoms, result, i, done, St(), increaseLimit, increase)
      {
        var u;
        u, increase, done := NextAtom(atoms, result, i, done, increaseLimit, increase);
        result, i := result[i := u], i + 1;
      }
      NewestTwice(done);
      steps := Newest(justHead);
    }
  }

  lemma {:induction false} NewestEmpty(steps: seq<Step>)
    ensures |Newest(steps)| == |steps|
  {
    if |steps| > 0 { NewestEmpty(steps[1..]); }
  }

  lemma {:induction false} NewestTwice(steps: seq<Step>)
    ensures Newest(Newest(steps)) == steps
  {
    if |steps| > 0 {
      NewestTwice(steps[1..]);
      NewestConcat(Newest(steps[1..]), [steps[0]]);
      assert Newest([steps[0]]) == [steps[0]];
    }
  }

  lemma {:induction false} EmptyIndex(sys: System, ts: seq<Term>)
    requires sys.kids == []
    ensures NormalAll(sys, ts) && ReplayIn(ts, sys.rules, [], 0) == Some(ts)
    decreases ts
  {
    forall i | 0 <= i < |ts| ensures Normal(sys, ts[i]) {
      if ts[i].App? { EmptyIndex(sys, ts[i].args); }
    }
  }
}

/** First-order terms, substitutions and one-way matching, shared by the term-level
    components (ladr/term.h, ladr/unify.c).

    A term is a variable with an index, or a rigid symbol applied to arguments;
    a constant is a rigid symbol with no arguments. */
module Terms {
  import opened Options

  datatype Term = Var(n: nat) | App(sym: nat, args: seq<Term>) {
    predicate Constant() {
      App? && |args| == 0
    }
  }

  datatype Literal = Literal(sign: bool, atom: Term)

  type Subst = map<nat, Term>

  function Size(t: Term): (n: nat)
    ensures n >= 1
    decreases t, 1
  {
    match t
    case Var(_) => 1
    case App(_, args) => 1 + SizeAll(args)
  }

  function SizeAll(ts: seq<Term>): nat
    decreases ts, 0
  {
    if |ts| == 0 then 0 else Size(ts[0]) + SizeAll(ts[1..])
  }

  /** Number of nonvariable positions. */
  function NonVars(t: Term): nat
    decreases t, 1
  {
    match t
    case Var(_) => 0
    case App(_, args) => 1 + NonVarsAll(args)
  }

  function NonVarsAll(ts: seq<Term>): nat
    decreases ts, 0
  {
    if |ts| == 0 then 0 else NonVars(ts[0]) + NonVarsAll(ts[1..])
  }

  function Vars(t: Term): set<nat>
    decreases t, 1
  {
    match t
    case Var(n) => {n}
    case App(_, args) => VarsAll(args)
  }

  function VarsAll(ts: seq<Term>): set<nat>
    decreases ts, 0
  {
    if |ts| == 0 then {} else Vars(ts[0]) + VarsAll(ts[1..])
  }

  function Apply(t: Term, s: Subst): Term
    decreases t, 1
  {
    match t
    case Var(n) => if n in s then s[n] else t
    case App(f, args) => App(f, ApplyAll(args, s))
  }

  function ApplyAll(ts: seq<Term>, s: Subst): (us: seq<Term>)
    ensures |us| == |ts|
    decreases ts, 0
  {
    if |ts| == 0 then [] else [Apply(ts[0], s)] + ApplyAll(ts[1..], s)
  }

  /** Extend s so that pattern p becomes t, if possible. */
  function Match(p: Term, t: Term, s: Subst): Option<Subst>
    decreases p, 1
  {
    match p
    case Var(n) => if n !in s then Some(s[n := t]) else if s[n] == t then Some(s) else None
    case App(f, args) =>
      if t.App? && t.sym == f && |t.args| == |args| then MatchAll(args, t.args, s) else None
  }

  function MatchAll(ps: seq<Term>, ts: seq<Term>, s: Subst): Option<Subst>
    requires |ps| == |ts|
    decreases ps, 0
  {
    if |ps| == 0 then Some(s) else
      match Match(ps[0], ts[0], s)
      case None => None
      case Some(s1) => MatchAll(ps[1..], ts[1..], s1)
  }

  ghost predicate SubMap(s: Subst, s2: Subst) {
    s.Keys <= s2.Keys && forall n | n in s :: s[n] == s2[n]
  }

  // ---------- Lists of terms ----------

  lemma {:induction false} ConcatAll(ts: seq<Term>, us: seq<Term>)
    ensures SizeAll(ts + us) == SizeAll(ts) + SizeAll(us)
    ensures NonVarsAll(ts + us) == NonVarsAll(ts) + NonVarsAll(us)
    ensures VarsAll(ts + us) == VarsAll(ts) + VarsAll(us)
  {
    if |ts| == 0 {
      assert ts + us == us;
    } else {
      assert (ts + us)[1..] == ts[1..] + us;
      ConcatAll(ts[1..], us);
    }
  }

  lemma {:induction false} ApplyAllAt(ts: seq<Term>, s: Subst)
    ensures forall i | 0 <= i < |ts| :: ApplyAll(ts, s)[i] == Apply(ts[i], s)
  {
    if |ts| > 0 { ApplyAllAt(ts[1..], s); }
  }

  lemma {:induction false} VarsAllAt(ts: seq<Term>, i: nat)
    requires i < |ts|
    ensures Vars(ts[i]) <= VarsAll(ts)
  {
    if i > 0 { VarsAllAt(ts[1..], i - 1); }
  }

  // ---------- Matching ----------

  lemma {:induction false} SubMapTransitive(a: Subst, b: Subst, c: Subst)
    requires SubMap(a, b) && SubMap(b, c)
    ensures SubMap(a, c)
  {
  }

  /** Substitutions that agree on the variables of t agree on t. */
  lemma {:induction false} ApplyAgree(t: Term, s: Subst, s2: Subst)
    requires forall n | n in Vars(t) :: n in s && n in s2 && s[n] == s2[n]
    ensures Apply(t, s) == Apply(t, s2)
    decreases t, 1
  {
    if t.App? { ApplyAllAgree(t.args, s, s2); }
  }

  lemma {:induction false} ApplyAllAgree(ts: seq<Term>, s: Subst, s2: Subst)
    requires forall n | n in VarsAll(ts) :: n in s && n in s2 && s[n] == s2[n]
    ensures ApplyAll(ts, s) == ApplyAll(ts, s2)
    decreases ts, 0
  {
    if |ts| > 0 {
      ApplyAgree(ts[0], s, s2);
      ApplyAllAgree(ts[1..], s, s2);
    }
  }

  lemma {:induction false} MatchSound(p: Term, t: Term, s: Subst)
    requires Match(p, t, s).Some?
    ensures var s2 := Match(p, t, s).value;
            SubMap(s, s2) && s2.Keys == s.Keys + Vars(p) && Apply(p, s2) == t
    decreases p, 1
  {
    if p.App? { MatchAllSound(p.args, t.args, s); }
  }

  lemma {:induction false} MatchAllSound(ps: seq<Term>, ts: seq<Term>, s: Subst)
    requires |ps| == |ts| && MatchAll(ps, ts, s).Some?
    ensures var s2 := MatchAll(ps, ts, s).value;
            SubMap(s, s2) && s2.Keys == s.Keys + VarsAll(ps) && ApplyAll(ps, s2) == ts
    decreases ps, 0
  {
    if |ps| > 0 {
      var s1 := Match(ps[0], ts[0], s).value;
      var s2 := MatchAll(ps, ts, s).value;
      MatchSound(ps[0], ts[0], s);
      MatchAllSound(ps[1..], ts[1..], s1);
      ApplyAgree(ps[0], s1, s2);
      assert ts == [ts[0]] + ts[1..];
    }
  }

  /** Matching finds the least substitution that extends s and works. */
  lemma {:induction false} MatchComplete(p: Term, t: Term, s: Subst, s3: Subst)
    requires SubMap(s, s3) && Vars(p) <= s3.Keys && Apply(p, s3) == t
    ensures Match(p, t, s).Some? && SubMap(Match(p, t, s).value, s3)
    decreases p, 1
  {
    if p.App? { MatchAllComplete(p.args, t.args, s, s3); }
  }

  lemma {:induction false} MatchAllComplete(ps: seq<Term>, ts: seq<Term>, s: Subst, s3: Subst)
    requires |ps| == |ts| && SubMap(s, s3) && VarsAll(ps) <= s3.Keys && ApplyAll(ps, s3) == ts
    ensures MatchAll(ps, ts, s).Some? && SubMap(MatchAll(ps, ts, s).value, s3)
    decreases ps, 0
  {
    if |ps| > 0 {
      MatchComplete(ps[0], ts[0], s, s3);
      MatchAllComplete(ps[1..], ts[1..], Match(ps[0], ts[0], s).value, s3);
    }
  }
}

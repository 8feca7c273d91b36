/** What one demodulation step does to a term, and that a run of steps keeps the value of every
    term wherever the equations used hold (ladr/demod.c:537-655, ladr/flatdemod.c:454-493). */
module RewriteSoundness {
  import opened Options
  import opened Terms
  import opened Structures
  import opened Replay

  /** A rewrite at the top by a rule that binds all its variables: term and result are instances of its two
      sides under one substitution, direction 1 going from left to right. */
  ghost predicate Instances(r: Rule, dir: nat, t: Term, u: Term) {
    exists s: Subst ::
      && Vars(r.alpha) + Vars(r.beta) <= s.Keys
      && t == Apply(if dir == 1 then r.alpha else r.beta, s)
      && u == Apply(if dir == 1 then r.beta else r.alpha, s)
  }

  lemma {:induction false} StepMeans(t: Term, rules: Rules, st: Step, u: Term)
    requires st.id in rules
    requires st.dir == 1 ==> Vars(rules[st.id].beta) <= Vars(rules[st.id].alpha)
    requires st.dir != 1 ==> Vars(rules[st.id].alpha) <= Vars(rules[st.id].beta)
    ensures RewriteTop(t, rules, st) == Some(u) <==> Instances(rules[st.id], st.dir, t, u)
  {
    var r := rules[st.id];
    var from, to := if st.dir == 1 then r.alpha else r.beta, if st.dir == 1 then r.beta else r.alpha;
    if RewriteTop(t, rules, st) == Some(u) {
      MatchSound(from, t, map[]);
      var s := Match(from, t, map[]).value;
      assert Vars(r.alpha) + Vars(r.beta) <= s.Keys;
    }
    if Instances(r, st.dir, t, u) {
      var s: Subst :| Vars(r.alpha) + Vars(r.beta) <= s.Keys && t == Apply(from, s) && u == Apply(to, s);
      MatchComplete(from, t, map[], s);
      MatchSound(from, t, map[]);
      ApplyAgree(to, Match(from, t, map[]).value, s);
    }
  }

  // ---------- Values are kept ----------

  /** The environment in which a term has the value of its instance. */
  ghost function Under<D>(s: Subst, m: Structure<D>, e: Env<D>): Env<D> {
    e + map n | n in s :: Value(s[n], m, e)
  }

  lemma {:induction false} ApplyValue<D>(t: Term, s: Subst, m: Structure<D>, e: Env<D>)
    ensures Value(Apply(t, s), m, e) == Value(t, m, Under(s, m, e))
    decreases t, 1
  {
    if t.App? { ApplyValues(t.args, s, m, e); }
  }

  lemma {:induction false} ApplyValues<D>(ts: seq<Term>, s: Subst, m: Structure<D>, e: Env<D>)
    ensures Values(ApplyAll(ts, s), m, e) == Values(ts, m, Under(s, m, e))
    decreases ts, 0
  {
    if |ts| > 0 {
      ApplyAllAt(ts, s);
      forall i | 0 <= i < |ts| ensures Value(Apply(ts[i], s), m, e) == Value(ts[i], m, Under(s, m, e)) {
        ApplyValue(ts[i], s, m, e);
      }
    }
  }

  /** The equation of a rule holds in m, whatever its variables stand for. */
  ghost predicate Valid<D(!new)>(r: Rule, m: Structure<D>) {
    forall e: Env<D> :: Value(r.alpha, m, e) == Value(r.beta, m, e)
  }

  ghost predicate RulesHold<D(!new)>(rules: Rules, m: Structure<D>) {
    forall id | id in rules :: Valid(rules[id], m)
  }

  lemma {:induction false} TopValue<D(!new)>(t: Term, rules: Rules, st: Step, m: Structure<D>, e: Env<D>)
    requires RulesHold(rules, m) && RewriteTop(t, rules, st).Some?
    ensures Value(RewriteTop(t, rules, st).value, m, e) == Value(t, m, e)
  {
    var r := rules[st.id];
    var s := Match(From(r, st.dir), t, map[]).value;
    assert Valid(r, m);
    MatchSound(From(r, st.dir), t, map[]);
    ApplyValue(From(r, st.dir), s, m, e);
    ApplyValue(To(r, st.dir), s, m, e);
  }

  lemma {:induction false} AtValue<D(!new)>(t: Term, k: int, rules: Rules, st: Step, m: Structure<D>, e: Env<D>)
    requires RulesHold(rules, m) && RewriteAt(t, k, rules, st).Some?
    ensures Value(RewriteAt(t, k, rules, st).value, m, e) == Value(t, m, e)
    decreases t, 1
  {
    if k == NonVars(t) { TopValue(t, rules, st, m, e); } else { InValue(t.args, k, rules, st, m, e); }
  }

  lemma {:induction false} InValue<D(!new)>(ts: seq<Term>, k: int, rules: Rules, st: Step, m: Structure<D>, e: Env<D>)
    requires RulesHold(rules, m) && RewriteIn(ts, k, rules, st).Some?
    ensures Values(RewriteIn(ts, k, rules, st).value, m, e) == Values(ts, m, e)
    decreases ts, 0
  {
    var us := RewriteIn(ts, k, rules, st).value;
    var vs, ws := Values(ts[1..], m, e), Values(us[1..], m, e);
    if k <= NonVars(ts[0]) {
      AtValue(ts[0], k, rules, st, m, e);
      assert us[0] == RewriteAt(ts[0], k, rules, st).value && us[1..] == ts[1..];
    } else {
      InValue(ts[1..], k - NonVars(ts[0]), rules, st, m, e);
      assert us[1..] == RewriteIn(ts[1..], k - NonVars(ts[0]), rules, st).value;
    }
    forall i | 0 <= i < |ts| ensures Value(us[i], m, e) == Value(ts[i], m, e) {
      if i > 0 { assert ws[i - 1] == vs[i - 1] && us[1..][i - 1] == us[i] && ts[1..][i - 1] == ts[i]; }
    }
  }

  /** A run of demodulation steps on the atoms of a clause changes no value in any structure where the
      rules hold. */
  lemma {:induction false} ReplayValue<D(!new)>(atoms: seq<Term>, rules: Rules, steps: seq<Step>, off: int,
      m: Structure<D>, e: Env<D>)
    requires RulesHold(rules, m) && ReplayIn(atoms, rules, steps, off).Some?
    ensures Values(ReplayIn(atoms, rules, steps, off).value, m, e) == Values(atoms, m, e)
    decreases |steps|
  {
    if |steps| > 0 {
      InValue(atoms, steps[0].at - off, rules, steps[0], m, e);
      ReplayValue(RewriteIn(atoms, steps[0].at - off, rules, steps[0]).value, rules, steps[1..], off, m, e);
    }
  }
}

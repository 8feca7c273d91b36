/** Demodulation steps <id, sequence, direction> and what replaying them means: the sequence
    number counts the nonvariable nodes of the clause, arguments before their parent and left
    to right (ladr/demod.c, ladr/flatdemod.c:476-493). */
module Replay {
  import opened Options
  import opened Terms

  datatype Rule = Rule(id: nat, alpha: Term, beta: Term, oriented: bool)

  /** One direction of a rule: 1 is left to right. */
  datatype Step = Step(id: nat, at: nat, dir: nat)

  type Rules = map<nat, Rule>

  function From(r: Rule, dir: nat): Term { if dir == 1 then r.alpha else r.beta }
  function To(r: Rule, dir: nat): Term { if dir == 1 then r.beta else r.alpha }

  function RewriteTop(t: Term, rules: Rules, st: Step): Option<Term> {
    if st.id !in rules then None else
      match Match(From(rules[st.id], st.dir), t, map[])
      case None => None
      case Some(s) => Some(Apply(To(rules[st.id], st.dir), s))
  }

  /** Rewrite the k-th nonvariable node of t. */
  function RewriteAt(t: Term, k: int, rules: Rules, st: Step): (r: Option<Term>)
    ensures r.Some? ==> 1 <= k <= NonVars(t)
    decreases t, 1
  {
    if t.Var? || k < 1 || k > NonVars(t) then None
    else if k == NonVars(t) then RewriteTop(t, rules, st)
    else match RewriteIn(t.args, k, rules, st) case None => None case Some(us) => Some(App(t.sym, us))
  }

  /** Rewrite the k-th nonvariable node of a list of terms. */
  function RewriteIn(ts: seq<Term>, k: int, rules: Rules, st: Step): (r: Option<seq<Term>>)
    ensures r.Some? ==> 1 <= k <= NonVarsAll(ts) && |r.value| == |ts|
    decreases ts, 0
  {
    if |ts| == 0 then None
    else if k <= NonVars(ts[0]) then
      match RewriteAt(ts[0], k, rules, st) case None => None case Some(u) => Some([u] + ts[1..])
    else
      match RewriteIn(ts[1..], k - NonVars(ts[0]), rules, st) case None => None case Some(us) => Some([ts[0]] + us)
  }

  /** Replay steps in order on a term before which `off` nonvariable nodes are counted. */
  function ReplayTerm(t: Term, rules: Rules, steps: seq<Step>, off: int): Option<Term>
    decreases |steps|
  {
    if |steps| == 0 then Some(t) else
      match RewriteAt(t, steps[0].at - off, rules, steps[0])
      case None => None
      case Some(u) => ReplayTerm(u, rules, steps[1..], off)
  }

  function ReplayIn(ts: seq<Term>, rules: Rules, steps: seq<Step>, off: int): Option<seq<Term>>
    decreases |steps|
  {
    if |steps| == 0 then Some(ts) else
      match RewriteIn(ts, steps[0].at - off, rules, steps[0])
      case None => None
      case Some(us) => ReplayIn(us, rules, steps[1..], off)
  }

  lemma {:induction false} RewriteInHead(t: Term, post: seq<Term>, k: int, rules: Rules, st: Step)
    requires 1 <= k <= NonVars(t)
    ensures RewriteIn([t] + post, k, rules, st) ==
            match RewriteAt(t, k, rules, st) case None => None case Some(u) => Some([u] + post)
  {
    assert ([t] + post)[0] == t && ([t] + post)[1..] == post;
  }

  lemma {:induction false} RewriteInTail(t: Term, post: seq<Term>, k: int, rules: Rules, st: Step)
    requires k >= 1
    ensures RewriteIn([t] + post, NonVars(t) + k, rules, st) ==
            match RewriteIn(post, k, rules, st) case None => None case Some(us) => Some([t] + us)
  {
    assert ([t] + post)[0] == t && ([t] + post)[1..] == post;
  }

  /** Rewriting a node of one term in a list of terms. */
  lemma {:induction false} RewriteInContext(pre: seq<Term>, t: Term, post: seq<Term>, k: int, rules: Rules, st: Step)
    requires 1 <= k - NonVarsAll(pre) <= NonVars(t)
    ensures RewriteIn(pre + ([t] + post), k, rules, st) ==
            match RewriteAt(t, k - NonVarsAll(pre), rules, st)
            case None => None
            case Some(u) => Some(pre + ([u] + post))
  {
    var r := RewriteAt(t, k - NonVarsAll(pre), rules, st);
    if |pre| == 0 {
      RewriteInHead(t, post, k, rules, st);
      assert pre + ([t] + post) == [t] + post;
      if r.Some? { assert pre + ([r.value] + post) == [r.value] + post; }
    } else {
      var p, more := pre[0], pre[1..];
      RewriteInContext(more, t, post, k - NonVars(p), rules, st);
      RewriteInTail(p, more + ([t] + post), k - NonVars(p), rules, st);
      assert pre == [p] + more;
      assert pre + ([t] + post) == [p] + (more + ([t] + post));
      if r.Some? { assert pre + ([r.value] + post) == [p] + (more + ([r.value] + post)); }
    }
  }

  /** Steps inside one term of a list, counted from what is before it, replay in the list. */
  lemma {:induction false} ReplayInContext(pre: seq<Term>, t: Term, post: seq<Term>, rules: Rules, steps: seq<Step>,
      off: int)
    requires ReplayTerm(t, rules, steps, off + NonVarsAll(pre)).Some?
    ensures ReplayIn(pre + ([t] + post), rules, steps, off) ==
            Some(pre + ([ReplayTerm(t, rules, steps, off + NonVarsAll(pre)).value] + post))
    decreases |steps|
  {
    if |steps| > 0 {
      RewriteInContext(pre, t, post, steps[0].at - off, rules, steps[0]);
      var u := RewriteAt(t, steps[0].at - (off + NonVarsAll(pre)), rules, steps[0]).value;
      ReplayInContext(pre, u, post, rules, steps[1..], off);
    }
  }

  /** Steps inside the arguments replay in the whole term. */
  lemma {:induction false} ReplayUnder(f: nat, ts: seq<Term>, rules: Rules, steps: seq<Step>, off: int)
    requires ReplayIn(ts, rules, steps, off).Some?
    ensures ReplayTerm(App(f, ts), rules, steps, off) == Some(App(f, ReplayIn(ts, rules, steps, off).value))
    decreases |steps|
  {
    if |steps| > 0 {
      var us := RewriteIn(ts, steps[0].at - off, rules, steps[0]).value;
      ReplayUnder(f, us, rules, steps[1..], off);
    }
  }

  lemma {:induction false} ReplayTermConcat(t: Term, rules: Rules, a: seq<Step>, b: seq<Step>, off: int)
    requires ReplayTerm(t, rules, a, off).Some?
    ensures ReplayTerm(t, rules, a + b, off) == ReplayTerm(ReplayTerm(t, rules, a, off).value, rules, b, off)
    decreases |a|
  {
    if |a| == 0 {
      assert a + b == b;
    } else {
      assert (a + b)[0] == a[0] && (a + b)[1..] == a[1..] + b;
      ReplayTermConcat(RewriteAt(t, a[0].at - off, rules, a[0]).value, rules, a[1..], b, off);
    }
  }

  lemma {:induction false} ReplayInConcat(ts: seq<Term>, rules: Rules, a: seq<Step>, b: seq<Step>, off: int)
    requires ReplayIn(ts, rules, a, off).Some?
    ensures ReplayIn(ts, rules, a + b, off) == ReplayIn(ReplayIn(ts, rules, a, off).value, rules, b, off)
    decreases |a|
  {
    if |a| == 0 {
      assert a + b == b;
    } else {
      assert (a + b)[0] == a[0] && (a + b)[1..] == a[1..] + b;
      ReplayInConcat(RewriteIn(ts, a[0].at - off, rules, a[0]).value, rules, a[1..], b, off);
    }
  }

  /** One more step at the top of a term. */
  lemma {:induction false} ReplayAtTop(t: Term, rules: Rules, a: seq<Step>, st: Step, off: int)
    requires ReplayTerm(t, rules, a, off).Some?
    requires var u := ReplayTerm(t, rules, a, off).value;
             u.App? && st.at == off + NonVars(u) && RewriteTop(u, rules, st).Some?
    ensures ReplayTerm(t, rules, a + [st], off) == RewriteTop(ReplayTerm(t, rules, a, off).value, rules, st)
  {
    var u := ReplayTerm(t, rules, a, off).value;
    ReplayTermConcat(t, rules, a, [st], off);
    assert RewriteAt(u, st.at - off, rules, st) == RewriteTop(u, rules, st);
    assert [st][1..] == [];
  }
}

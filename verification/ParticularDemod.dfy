/** Replaying one demodulation step on a clause (part_recurse, particular_demod: ladr/demod.c), and
    a list of them (ladr/xproofs.c). */
module ParticularDemod {
  import opened Options
  import opened Terms
  import opened Replay

  /** The nodes from the one at hand up to the top of the atom, each with the number of its
      children already taken.  A node with a finished or rewritten child holds it. */
  datatype Stack = Bottom | Frame(node: Term, child: nat, below: Stack)

  /** Put t in place of the child last taken, all the way up. */
  function Plug(s: Stack, t: Term): Term {
    match s
    case Bottom => t
    case Frame(node, child, below) =>
      if node.App? && 0 < child <= |node.args| then Plug(below, App(node.sym, node.args[child - 1 := t])) else t
  }

  /** Nonvariable nodes finished before the node that is plugged into s. */
  ghost function Before(s: Stack): nat {
    match s
    case Bottom => 0
    case Frame(node, child, below) =>
      (if node.App? && 0 < child <= |node.args| then NonVarsAll(node.args[..child - 1]) else 0) + Before(below)
  }

  /** Each frame below is at the child that the frame above holds. */
  ghost predicate Linked(s: Stack, t: Term) {
    s.Frame? ==> s.node.App? && 0 < s.child <= |s.node.args| && s.node.args[s.child - 1] == t && Linked(s.below, s.node)
  }

  lemma {:induction false} ArgsAround(node: Term, child: nat)
    requires node.App? && 0 < child <= |node.args|
    ensures var t, pre, post := node.args[child - 1], node.args[..child - 1], node.args[child..];
            node.args == pre + ([t] + post) &&
            NonVarsAll(node.args[..child]) == NonVarsAll(pre) + NonVars(t) &&
            NonVarsAll(node.args) >= NonVarsAll(pre) + NonVars(t)
  {
    var t, pre, post := node.args[child - 1], node.args[..child - 1], node.args[child..];
    assert node.args == pre + ([t] + post);
    assert node.args[..child] == pre + [t];
    ConcatAll(pre, [t] + post);
    ConcatAll(pre, [t]);
    assert ([t] + post)[1..] == post;
  }

  lemma {:induction false} PlugBack(node: Term, child: nat)
    requires node.App? && 0 < child <= |node.args|
    ensures App(node.sym, node.args[child - 1 := node.args[child - 1]]) == node
  {
    assert node.args[child - 1 := node.args[child - 1]] == node.args;
  }

  lemma {:induction false} ArgsReplaced(node: Term, child: nat, u: Term)
    requires node.App? && 0 < child <= |node.args|
    ensures node.args[child - 1 := u] == node.args[..child - 1] + ([u] + node.args[child..])
  {
  }

  lemma {:induction false} RewriteInNode(node: Term, child: nat, k: int, rules: Rules, st: Step)
    requires node.App? && 0 < child <= |node.args| && 1 <= k <= NonVars(node.args[child - 1])
    ensures NonVarsAll(node.args[..child - 1]) + k < NonVars(node)
    ensures RewriteAt(node, NonVarsAll(node.args[..child - 1]) + k, rules, st) ==
            match RewriteAt(node.args[child - 1], k, rules, st)
            case None => None
            case Some(u) => Some(App(node.sym, node.args[child - 1 := u]))
  {
    var t, pre, post := node.args[child - 1], node.args[..child - 1], node.args[child..];
    ArgsAround(node, child);
    RewriteInContext(pre, t, post, NonVarsAll(pre) + k, rules, st);
    if RewriteAt(t, k, rules, st).Some? {
      ArgsReplaced(node, child, RewriteAt(t, k, rules, st).value);
    }
  }

  /** Rewriting the k-th node of the term plugged in is rewriting a node of the whole. */
  lemma {:induction false} RewritePlugged(s: Stack, t: Term, k: int, rules: Rules, st: Step)
    requires Linked(s, t) && 1 <= k <= NonVars(t)
    ensures RewriteAt(Plug(s, t), Before(s) + k, rules, st) ==
            match RewriteAt(t, k, rules, st) case None => None case Some(u) => Some(Plug(s, u))
    ensures Before(s) + k <= NonVars(Plug(s, t)) && (s.Frame? ==> Before(s) + k < NonVars(Plug(s, t)))
  {
    if s.Frame? {
      RewriteInNode(s.node, s.child, k, rules, st);
      PlugBack(s.node, s.child);
      RewritePlugged(s.below, s.node, NonVarsAll(s.node.args[..s.child - 1]) + k, rules, st);
    }
  }

  // ---------- part_recurse ----------

  /** NotReached leaves the atom alone; RootLost is a rewrite of the whole atom, whose result the
      caller ignores; Fatal is "not rewritable". */
  datatype Outcome = NotReached | Rewritten(atom: Term) | RootLost | Fatal

  function Outcomes(t: Term, k: int, rules: Rules, st: Step): Outcome {
    if k < 1 || k > NonVars(t) then NotReached
    else match RewriteAt(t, k, rules, st)
      case None => Fatal
      case Some(u) => if k == NonVars(t) then RootLost else Rewritten(u)
  }

  ghost function Work(s: Stack): nat {
    match s
    case Bottom => 0
    case Frame(node, child, below) =>
      1 + (if node.App? && child <= |node.args| then 2 * SizeAll(node.args[child..]) else 0) + Work(below)
  }

  /** At the top frame of the stack, with `count` nonvariable nodes of the atom t finished. */
  ghost predicate Reached(s: Stack, t: Term, count: int) {
    if s.Bottom? then count == NonVars(t) else
      s.node.App? && s.child <= |s.node.args| && Linked(s.below, s.node) &&
      Plug(s.below, s.node) == t && count == Before(s.below) + NonVarsAll(s.node.args[..s.child])
  }

  lemma {:induction false} WorkShrinks(s: Stack)
    requires s.Frame? && s.node.App? && s.child < |s.node.args|
    ensures var ch, s2 := s.node.args[s.child], s.(child := s.child + 1);
            Work(s2) < Work(s) && (ch.App? ==> Work(Frame(ch, 0, s2)) < Work(s))
  {
    var ch := s.node.args[s.child];
    var rest := s.node.args[s.child..];
    assert rest[0] == ch && rest[1..] == s.node.args[s.child + 1..];
    if ch.App? {
      var s2 := s.(child := s.child + 1);
      assert ch.args[0..] == ch.args && Size(ch) == 1 + SizeAll(ch.args);
      assert Work(Frame(ch, 0, s2)) == 1 + 2 * SizeAll(ch.args[0..]) + Work(s2);
    }
  }

  lemma {:induction false} Descend(s: Stack, t: Term, count: int)
    requires Reached(s, t, count) && s.Frame? && s.child < |s.node.args|
    ensures var ch, s2 := s.node.args[s.child], s.(child := s.child + 1);
            if ch.App? then Reached(Frame(ch, 0, s2), t, count) else Reached(s2, t, count)
  {
    var ch, s2 := s.node.args[s.child], s.(child := s.child + 1);
    ArgsAround(s.node, s.child + 1);
    PlugBack(s.node, s.child + 1);
    assert Plug(s2, ch) == Plug(s.below, s.node) && Before(s2) == count;
    if ch.App? { assert ch.args[..0] == []; }
  }

  lemma {:induction false} Ascend(s: Stack, t: Term, count: int)
    requires Reached(s, t, count) && s.Frame? && s.child == |s.node.args|
    ensures count + 1 == Before(s.below) + NonVars(s.node)
    ensures Reached(s.below, t, count + 1) && Work(s.below) < Work(s)
  {
    assert s.node.args[..s.child] == s.node.args;
    if s.below.Frame? {
      ArgsAround(s.below.node, s.below.child);
      PlugBack(s.below.node, s.below.child);
    }
  }

  /** The node at hand is the one to rewrite. */
  lemma {:induction false} TargetHere(s: Stack, t: Term, k: int, rules: Rules, st: Step)
    requires Reached(s, t, k - 1) && s.Frame? && s.child == |s.node.args|
    ensures k <= NonVars(t)
    ensures Outcomes(t, k, rules, st) ==
            match RewriteAt(s.node, NonVars(s.node), rules, st)
            case None => Fatal
            case Some(u) => if s.below.Frame? then Rewritten(Plug(s.below, u)) else RootLost
  {
    assert s.node.args[..s.child] == s.node.args;
    RewritePlugged(s.below, s.node, NonVars(s.node), rules, st);
  }

  /** Rewrite the node of t that brings the running count to the target. */
  method PartRecurse(t: Term, rules: Rules, st: Step, sequence: nat) returns (out: Outcome, count: nat)
    requires st.id in rules
    ensures out == Outcomes(t, st.at - sequence, rules, st)
    ensures count == if sequence >= st.at then sequence
                     else if sequence + NonVars(t) < st.at then sequence + NonVars(t) else st.at
  {
    out, count := NotReached, sequence;
    if t.Var? { return; }
    var stack := Frame(t, 0, Bottom);
    ghost var done := 0;
    while stack.Frame? && out.NotReached?
      invariant out.NotReached? && Reached(stack, t, done)
      invariant if sequence < st.at then done == count - sequence && count < st.at else count == sequence
      decreases Work(stack)
    {
      if stack.child < |stack.node.args| {
        Descend(stack, t, done);
        WorkShrinks(stack);
        var ch := stack.node.args[stack.child];
        stack := stack.(child := stack.child + 1);
        if ch.App? { stack := Frame(ch, 0, stack); }
      } else if count >= st.at {
        Ascend(stack, t, done);
        stack, done := stack.below, done + 1;
      } else {
        Ascend(stack, t, done);
        count, done := count + 1, done + 1;
        if count == st.at {
          TargetHere(stack, t, done, rules, st);
          match Match(From(rules[st.id], st.dir), stack.node, map[])
          case None => return Fatal, count;
          case Some(subst) =>
            var result := Apply(To(rules[st.id], st.dir), subst);
            out := if stack.below.Frame? then Rewritten(Plug(stack.below, result)) else RootLost;
            return;
        }
        stack := stack.below;
      }
    }
  }

  // ---------- particular_demod ----------

  datatype Result = Done(atoms: seq<Term>) | NotRewritable | FatalError

  /** The k-th nonvariable node of the atoms is a whole atom. */
  ghost predicate AtRoot(ts: seq<Term>, k: int) {
    |ts| > 0 && k >= 1 &&
    if k <= NonVars(ts[0]) then k == NonVars(ts[0]) else AtRoot(ts[1..], k - NonVars(ts[0]))
  }

  lemma {:induction false} AtRootInContext(pre: seq<Term>, t: Term, post: seq<Term>, k: int)
    requires 1 <= k - NonVarsAll(pre) <= NonVars(t)
    ensures AtRoot(pre + ([t] + post), k) <==> k - NonVarsAll(pre) == NonVars(t)
    ensures 1 <= k <= NonVarsAll(pre + ([t] + post))
  {
    var all := pre + ([t] + post);
    if |pre| == 0 {
      assert all[0] == t && all[1..] == post;
    } else {
      assert all[0] == pre[0] && all[1..] == pre[1..] + ([t] + post);
      AtRootInContext(pre[1..], t, post, k - NonVars(pre[0]));
    }
  }

  lemma {:induction false} OutcomeInClause(atoms: seq<Term>, i: nat, k: int, rules: Rules, st: Step)
    requires i < |atoms| && 1 <= k <= NonVars(atoms[i])
    ensures var at := NonVarsAll(atoms[..i]) + k;
            1 <= at <= NonVarsAll(atoms) &&
            match Outcomes(atoms[i], k, rules, st)
            case NotReached => false
            case Rewritten(u) => !AtRoot(atoms, at) && RewriteIn(atoms, at, rules, st) == Some(atoms[i := u])
            case RootLost => AtRoot(atoms, at) && RewriteIn(atoms, at, rules, st).Some?
            case Fatal => RewriteIn(atoms, at, rules, st).None?
  {
    var pre, t, post := atoms[..i], atoms[i], atoms[i + 1..];
    assert atoms == pre + ([t] + post);
    AtRootInContext(pre, t, post, NonVarsAll(pre) + k);
    RewriteInContext(pre, t, post, NonVarsAll(pre) + k, rules, st);
    if RewriteAt(t, k, rules, st).Some? {
      var u := RewriteAt(t, k, rules, st).value;
      assert atoms[i := u] == pre + ([u] + post);
    }
  }

  lemma {:induction false} OneMore(atoms: seq<Term>, i: nat)
    requires i < |atoms|
    ensures NonVarsAll(atoms[..i + 1]) == NonVarsAll(atoms[..i]) + NonVars(atoms[i])
  {
    assert atoms[..i + 1] == atoms[..i] + [atoms[i]];
    ConcatAll(atoms[..i], [atoms[i]]);
  }

  /** One step on a clause succeeds exactly when it rewrites a proper subterm of an atom. */
  method ParticularDemod(atoms: seq<Term>, rules: Rules, st: Step) returns (r: Result)
    requires st.id in rules
    ensures r.Done? <==> RewriteIn(atoms, st.at, rules, st).Some? && !AtRoot(atoms, st.at)
    ensures r.Done? ==> RewriteIn(atoms, st.at, rules, st) == Some(r.atoms)
    ensures r.FatalError? <==> 1 <= st.at <= NonVarsAll(atoms) && RewriteIn(atoms, st.at, rules, st).None?
  {
    var sequence, i := 0, 0;
    while i < |atoms|
      invariant 0 <= i <= |atoms|
      invariant sequence < st.at ==> sequence == NonVarsAll(atoms[..i])
      invariant 0 < st.at <= sequence ==> AtRoot(atoms, st.at) && RewriteIn(atoms, st.at, rules, st).Some?
    {
      OneMore(atoms, i);
      if sequence < st.at <= sequence + NonVars(atoms[i]) { OutcomeInClause(atoms, i, st.at - sequence, rules, st); }
      var out, count := PartRecurse(atoms[i], rules, st, sequence);
      match out {
        case Rewritten(u) => return Done(atoms[i := u]);
        case Fatal => return FatalError;
        case NotReached =>
        case RootLost =>
      }
      sequence, i := count, i + 1;
    }
    assert atoms[..i] == atoms;
    return NotRewritable;
  }

  // ---------- A list of steps ----------

  /** The replay, failing also where a step falls on a whole atom. */
  ghost function ExpandSteps(ts: seq<Term>, rules: Rules, steps: seq<Step>): Option<seq<Term>>
    decreases |steps|
  {
    if |steps| == 0 then Some(ts)
    else if AtRoot(ts, steps[0].at) then None
    else match RewriteIn(ts, steps[0].at, rules, steps[0])
      case None => None
      case Some(us) => ExpandSteps(us, rules, steps[1..])
  }

  /** The demodulation part of expanding a clause (ladr/xproofs.c:462-481). */
  method Expand(atoms: seq<Term>, rules: Rules, steps: seq<Step>) returns (r: Option<seq<Term>>)
    requires forall i | 0 <= i < |steps| :: steps[i].id in rules
    ensures r == ExpandSteps(atoms, rules, steps)
  {
    var work, i := atoms, 0;
    while i < |steps|
      invariant 0 <= i <= |steps|
      invariant ExpandSteps(work, rules, steps[i..]) == ExpandSteps(atoms, rules, steps)
    {
      assert steps[i..][0] == steps[i] && steps[i..][1..] == steps[i + 1..];
      var one := ParticularDemod(work, rules, steps[i]);
      match one {
        case Done(next) => work := next;
        case NotRewritable => return None;
        case FatalError => return None;
      }
      i := i + 1;
    }
    return Some(work);
  }

  /** No step's left side has the top symbol of an atom. */
  ghost predicate BelowAtoms(ts: seq<Term>, rules: Rules, steps: seq<Step>) {
    forall j | 0 <= j < |steps| :: steps[j].id in rules ==> NoAtomLike(ts, From(rules[steps[j].id], steps[j].dir))
  }

  ghost predicate NoAtomLike(ts: seq<Term>, t: Term) {
    t.App? && forall i | 0 <= i < |ts| :: ts[i].App? ==> ts[i].sym != t.sym || |ts[i].args| != |t.args|
  }

  ghost predicate SameRoots(ts: seq<Term>, us: seq<Term>) {
    |ts| == |us| && forall i | 0 <= i < |ts| ::
      ts[i] == us[i] || (ts[i].App? && us[i].App? && ts[i].sym == us[i].sym && |ts[i].args| == |us[i].args|)
  }

  lemma {:induction false} RootStays(ts: seq<Term>, k: int, rules: Rules, st: Step)
    requires st.id in rules && NoAtomLike(ts, From(rules[st.id], st.dir)) && RewriteIn(ts, k, rules, st).Some?
    ensures !AtRoot(ts, k) && SameRoots(ts, RewriteIn(ts, k, rules, st).value)
  {
    if k <= NonVars(ts[0]) {
      assert RewriteTop(ts[0], rules, st).None?;
    } else {
      RootStays(ts[1..], k - NonVars(ts[0]), rules, st);
    }
  }

  /** Steps with rules that cannot rewrite a whole atom are all replayed. */
  lemma {:induction false} ExpandReplays(ts: seq<Term>, rules: Rules, steps: seq<Step>)
    requires BelowAtoms(ts, rules, steps) && forall j | 0 <= j < |steps| :: steps[j].id in rules
    ensures ExpandSteps(ts, rules, steps) == ReplayIn(ts, rules, steps, 0)
    decreases |steps|
  {
    if |steps| > 0 {
      if RewriteIn(ts, steps[0].at, rules, steps[0]).Some? {
        RootStays(ts, steps[0].at, rules, steps[0]);
        ExpandReplays(RewriteIn(ts, steps[0].at, rules, steps[0]).value, rules, steps[1..]);
      }
    }
  }
}

/** In-place canonicalization modulo commutative and associative-commutative symbols by local swaps
    and restarts (ladr/ac_redun.c), and the redundancy test built on it. */
module AcCanon {
  import opened Terms
  import opened AcTheory

  /** A term whose nodes carry the mark for already canonical subterms. */
  datatype Tree = Leaf(n: nat) | Node(sym: nat, args: seq<Tree>, done: bool)

  function Strip(t: Tree): Term
    decreases t, 1
  {
    match t
    case Leaf(n) => Var(n)
    case Node(f, args, _) => App(f, StripAll(args))
  }

  function StripAll(ts: seq<Tree>): (r: seq<Term>)
    ensures |r| == |ts| && forall i | 0 <= i < |ts| :: r[i] == Strip(ts[i])
    decreases ts, 0
  {
    seq(|ts|, i requires 0 <= i < |ts| => Strip(ts[i]))
  }

  /** A copy without marks. */
  function Unmarked(t: Term): (r: Tree)
    ensures Strip(r) == t
    decreases t, 1
  {
    match t
    case Var(n) => Leaf(n)
    case App(f, args) =>
      var r := Node(f, UnmarkedAll(args), false);
      assert StripAll(r.args) == args;
      r
  }

  function UnmarkedAll(ts: seq<Term>): (r: seq<Tree>)
    ensures |r| == |ts| && forall i | 0 <= i < |ts| :: r[i] == Unmarked(ts[i]) && Strip(r[i]) == ts[i]
    decreases ts, 0
  {
    seq(|ts|, i requires 0 <= i < |ts| => Unmarked(ts[i]))
  }

  predicate Ready(t: Tree) {
    t.Leaf? || t.done
  }

  ghost predicate AllReady(ts: seq<Tree>, k: nat) {
    forall i | 0 <= i < k && i < |ts| :: Ready(ts[i])
  }

  function NormOf(th: Theory, t: Tree): Term {
    Norm(th, Strip(t))
  }

  /** Marked subterms are canonical. */
  ghost predicate Sound(th: Theory, t: Tree)
    decreases t, 1
  {
    match t
    case Leaf(_) => true
    case Node(_, args, done) =>
      && SoundAll(th, args)
      && (done ==> AllReady(args, |args|) && NormOf(th, t) == Strip(t))
  }

  ghost predicate SoundAll(th: Theory, ts: seq<Tree>)
    decreases ts, 0
  {
    forall i | 0 <= i < |ts| :: Sound(th, ts[i])
  }

  lemma {:induction false} KidSound(th: Theory, t: Tree, i: nat)
    requires t.Node? && Sound(th, t) && i < |t.args|
    ensures Sound(th, t.args[i])
  {
    var ts := t.args;
    assert SoundAll(th, ts);
  }

  lemma {:induction false} UnmarkedSound(th: Theory, t: Term)
    ensures Sound(th, Unmarked(t))
    decreases t
  {
    if t.App? {
      forall i | 0 <= i < |t.args| ensures Sound(th, UnmarkedAll(t.args)[i]) { UnmarkedSound(th, t.args[i]); }
    }
  }

  predicate VariablesFirst(less: Less, x: Term, y: Term) {
    x.Var? && y.App? ==> less(x, y)
  }

  /** The order on terms in the canonicalizer: total, with variables first. */
  ghost predicate VcpOrder(less: Less) {
    Ordered(less) && forall x, y :: VariablesFirst(less, x, y)
  }

  // ---------- Swaps on canonical arguments ----------

  function Head(f: nat, t: Term): Term {
    if Top(f, t) then t.args[0] else t
  }

  /** A canonical term with the AC symbol f at the root. */
  predicate Spine(less: Less, f: nat, b: Term) {
    Top(f, b) && b == Merge(less, f, b.args[0], b.args[1])
  }

  lemma {:induction false} SpineParts(less: Less, f: nat, b: Term)
    requires Ordered(less) && Spine(less, f, b)
    ensures !Top(f, b.args[0]) && Flat(f, b) == [b.args[0]] + Flat(f, b.args[1])
    ensures Sorted(less, Flat(f, b)) && Right(f, Flat(f, b)) == b
  {
    var b0, b1 := b.args[0], b.args[1];
    var s := Flat(f, b0) + Flat(f, b1);
    FlatMerge(less, f, b0, b1);
    SortSorted(less, s);
    assert Flat(f, b) == Sort(less, s);
    FlatNoTop(f, b);
    assert |s| > 1;
    assert Right(f, Sort(less, s)).args[0] == Sort(less, s)[0];
    assert !Top(f, Flat(f, b)[0]);
  }

  /** No swap is possible: the term is canonical. */
  lemma {:induction false} InOrder(less: Less, f: nat, a: Term, b: Term)
    requires VcpOrder(less) && (Top(f, b) ==> Spine(less, f, b))
    requires !Top(f, a) && !less(Head(f, b), a)
    ensures Merge(less, f, a, b) == App(f, [a, b])
  {
    var ts := [a] + Flat(f, b);
    assert Flat(f, a) == [a];
    if Top(f, b) {
      SpineParts(less, f, b);
      forall j | 0 <= j < |Flat(f, b)| ensures !less(Flat(f, b)[j], a) {
        Pair(less, b.args[0], b.args[0]);
        Chain(less, a, b.args[0], Flat(f, b)[j]);
      }
    } else {
      assert Flat(f, b) == [b];
    }
    SortedCons(less, a, Flat(f, b));
    SortFixes(less, ts);
    assert ts[1..] == Flat(f, b);
    assert Right(f, Flat(f, b)) == b;
    assert |ts| > 1;
  }

  /** f(a, f(b0, b1)) and f(b0, f(a, b1)) have the same canonical form. */
  lemma {:induction false} Rotate(less: Less, f: nat, a: Term, b: Term)
    requires Ordered(less) && Spine(less, f, b)
    ensures Merge(less, f, a, b) == Merge(less, f, b.args[0], Merge(less, f, a, b.args[1]))
  {
    var b0, b1 := b.args[0], b.args[1];
    MergeAssociates(less, f, a, b0, b1);
    MergeAssociates(less, f, b0, a, b1);
    SortAgree(less, Flat(f, a) + Flat(f, b0), Flat(f, b0) + Flat(f, a));
  }

  lemma {:induction false} Swap(less: Less, f: nat, a: Term, b: Term)
    requires Ordered(less)
    ensures Merge(less, f, a, b) == Merge(less, f, b, a)
  {
    SortAgree(less, Flat(f, a) + Flat(f, b), Flat(f, b) + Flat(f, a));
  }

  /** Restarts still to come at a node with AC symbol f and canonical arguments. */
  function Turns(less: Less, f: nat, a: Term, b: Term): (n: nat)
    ensures n <= 2
  {
    if Top(f, a) then 2 else if Above(less, f, a, Head(f, b)) then 1 else 0
  }

  lemma {:induction false} RotateTurns(less: Less, f: nat, a: Term, b: Term)
    requires VcpOrder(less) && Spine(less, f, b) && Above(less, f, a, b.args[0])
    ensures Turns(less, f, b.args[0], Merge(less, f, a, b.args[1])) < Turns(less, f, a, b)
  {
    var b0, b1 := b.args[0], b.args[1];
    SpineParts(less, f, b);
    if !Top(f, a) {
      var r := Merge(less, f, a, b1);
      var s := [a] + Flat(f, b1);
      FlatMerge(less, f, a, b1);
      assert Flat(f, a) == [a];
      var sorted := Sort(less, s);
      SortSorted(less, s);
      SortMultiset(less, s);
      assert |sorted| > 1;
      assert Head(f, r) == sorted[0];
      assert sorted[0] in multiset(sorted);
      var j :| 0 <= j < |s| && s[j] == sorted[0];
      Pair(less, b0, a);
      assert !less(s[j], b0) by {
        if j > 0 { assert Flat(f, b)[j] == s[j]; }
      }
      FlatNoTop(f, r);
      assert !Top(f, Flat(f, r)[0]);
    }
  }

  lemma {:induction false} SwapTurns(less: Less, f: nat, a: Term, b: Term)
    requires VcpOrder(less) && Above(less, f, a, b) && !Top(f, b)
    ensures Turns(less, f, b, a) < Turns(less, f, a, b)
  {
    AboveOnce(less, f, a, b);
  }

  /** What the tests say when neither asks for a swap. */
  lemma {:induction false} NoSwap(less: Less, f: nat, a: Term, b: Term)
    requires VcpOrder(less) && (Top(f, b) ==> Spine(less, f, b))
    requires Top(f, b) ==> !Above(less, f, a, b.args[0])
    ensures Top(f, b) ==> !Above(less, f, a, b)
    ensures !Above(less, f, a, b) ==> !Top(f, a) && !less(Head(f, b), a)
  {
    assert VariablesFirst(less, b, a);
    Pair(less, a, b);
    if Top(f, b) {
      SpineParts(less, f, b);
      var b0 := b.args[0];
      assert VariablesFirst(less, b0, a) && VariablesFirst(less, a, b);
      Pair(less, a, b0);
    }
  }

  // ---------- The explicit stack ----------

  /** The node of a lower frame still holds, in the slot left of its counter, the subterm as it was
      before the frames above started to work on it. */
  datatype Stack = Empty | Push(node: Tree, child: nat, below: Stack)

  predicate SameTerm(th: Theory, a: Tree, b: Tree) {
    NormOf(th, a) == NormOf(th, b)
  }

  /** The frames under a node lead to the canonical form of the goal. */
  ghost predicate Linked(th: Theory, goal: Term, node: Tree, st: Stack)
    decreases st
  {
    match st
    case Empty => NormOf(th, node) == Norm(th, goal)
    case Push(p, c, rest) =>
      && p.Node? && !p.done && 0 < c <= |p.args|
      && Sound(th, p) && AllReady(p.args, c - 1)
      && SameTerm(th, p.args[c - 1], node)
      && Linked(th, goal, p, rest)
  }

  ghost predicate Inv(th: Theory, goal: Term, node: Tree, child: nat, st: Stack) {
    && Sound(th, node)
    && (node.Node? && !node.done ==> child <= |node.args| && AllReady(node.args, child))
    && Linked(th, goal, node, st)
  }

  // ---------- Progress ----------

  function Price(n: nat): nat {
    if n == 0 then 0 else 2 * Price(n - 1) + 8
  }

  lemma {:induction false} PriceGrows(m: nat, n: nat)
    requires m < n
    ensures 2 * Price(m) + 8 <= Price(n)
    decreases n
  {
    if m < n - 1 { PriceGrows(m, n - 1); }
  }

  function Restarts(th: Theory, t: Tree): (n: nat)
    ensures n <= 2
  {
    if t.Node? && IsAC(th, t.sym, |t.args|) then
      Turns(th.less, t.sym, NormOf(th, t.args[0]), NormOf(th, t.args[1]))
    else 0
  }

  /** The charge for the restarts to come at a node. */
  function Charge(th: Theory, t: Tree): nat {
    var price := Price(Size(Strip(t)));
    if Restarts(th, t) == 0 then 0 else if Restarts(th, t) == 1 then price else 2 * price
  }

  type Charges = Tree -> nat

  ghost function ChargesOf(th: Theory): Charges {
    (t: Tree) => Charge(th, t)
  }

  /** Bound on the iterations left for a frame. */
  function FrameCost(ch: Charges, t: Tree, child: nat): (c: nat)
    ensures c > 0
    decreases t, 0
  {
    if Ready(t) then 1 else 2 + Rest(ch, t.args, child) + ch(t)
  }

  function Rest(ch: Charges, ts: seq<Tree>, child: nat): nat
    decreases ts, |ts| - child
  {
    if child >= |ts| then 0
    else 1 + (if Ready(ts[child]) then 0 else FrameCost(ch, ts[child], 0)) + Rest(ch, ts, child + 1)
  }

  function Cost(ch: Charges, st: Stack): nat {
    match st
    case Empty => 0
    case Push(node, child, below) => FrameCost(ch, node, child) + Cost(ch, below)
  }

  /** Bound on the iterations left. */
  ghost function Left(th: Theory, node: Tree, child: nat, st: Stack): nat {
    Cost(ChargesOf(th), Push(node, child, st))
  }

  lemma {:induction false} RestUpdate(ch: Charges, ts: seq<Tree>, i: nat, t: Tree, child: nat)
    requires i < child && i < |ts|
    ensures Rest(ch, ts[i := t], child) == Rest(ch, ts, child)
    decreases |ts| - child
  {
    if child < |ts| { RestUpdate(ch, ts, i, t, child + 1); }
  }

  lemma {:induction false} RestReady(ch: Charges, ts: seq<Tree>, child: nat)
    requires AllReady(ts, |ts|) && child <= |ts|
    ensures Rest(ch, ts, child) == |ts| - child
    decreases |ts| - child
  {
    if child < |ts| { RestReady(ch, ts, child + 1); }
  }

  lemma {:induction false} PopCost(ch: Charges, node: Tree, child: nat, p: Tree, c: nat, rest: Stack)
    requires Ready(node) && p.Node? && !p.done && 0 < c <= |p.args|
    requires ch(p) == ch(p.(args := p.args[c - 1 := node]))
    ensures Cost(ch, Push(p.(args := p.args[c - 1 := node]), c, rest)) < Cost(ch, Push(node, child, Push(p, c, rest)))
  {
    RestUpdate(ch, p.args, c - 1, node, c);
    assert Cost(ch, Push(node, child, Push(p, c, rest))) == FrameCost(ch, node, child) + Cost(ch, Push(p, c, rest));
  }

  lemma {:induction false} DescendCost(ch: Charges, node: Tree, child: nat, st: Stack)
    requires !Ready(node) && child < |node.args|
    ensures Ready(node.args[child]) ==> Cost(ch, Push(node, child + 1, st)) < Cost(ch, Push(node, child, st))
    ensures !Ready(node.args[child]) ==>
              Cost(ch, Push(node.args[child], 0, Push(node, child + 1, st))) < Cost(ch, Push(node, child, st))
  {
    var kid := node.args[child];
    assert Rest(ch, node.args, child) ==
           1 + (if Ready(kid) then 0 else FrameCost(ch, kid, 0)) + Rest(ch, node.args, child + 1);
    assert Cost(ch, Push(kid, 0, Push(node, child + 1, st))) ==
           FrameCost(ch, kid, 0) + Cost(ch, Push(node, child + 1, st));
  }

  lemma {:induction false} ReadyCanonical(th: Theory, t: Tree)
    requires Sound(th, t) && Ready(t)
    ensures NormOf(th, t) == Strip(t)
  {
  }

  lemma {:induction false} AllCanonical(th: Theory, ts: seq<Tree>)
    requires SoundAll(th, ts) && AllReady(ts, |ts|)
    ensures NormAll(th, StripAll(ts)) == StripAll(ts)
  {
    forall i | 0 <= i < |ts| ensures Norm(th, StripAll(ts)[i]) == StripAll(ts)[i] { ReadyCanonical(th, ts[i]); }
  }

  // ---------- Steps ----------

  lemma {:induction false} SameSize(th: Theory, a: Tree, b: Tree)
    requires SameTerm(th, a, b)
    ensures Size(Strip(a)) == Size(Strip(b))
  {
    NormSize(th, Strip(a));
    NormSize(th, Strip(b));
  }

  /** Writing a subterm with the same canonical form into a slot. */
  lemma {:induction false} SlotSame(th: Theory, p: Tree, i: nat, t: Tree)
    requires p.Node? && i < |p.args| && SameTerm(th, p.args[i], t)
    ensures SameTerm(th, p, p.(args := p.args[i := t]))
  {
    var q := p.(args := p.args[i := t]);
    assert NormAll(th, StripAll(q.args)) == NormAll(th, StripAll(p.args));
  }

  lemma {:induction false} Relink(th: Theory, goal: Term, a: Tree, b: Tree, st: Stack)
    requires SameTerm(th, a, b) && Linked(th, goal, a, st)
    ensures Linked(th, goal, b, st)
  {
  }

  /** The charge depends on the canonical form of the arguments only. */
  lemma {:induction false} SlotCharge(th: Theory, p: Tree, i: nat, t: Tree)
    requires p.Node? && i < |p.args| && SameTerm(th, p.args[i], t)
    ensures Charge(th, p) == Charge(th, p.(args := p.args[i := t]))
  {
    SlotSame(th, p, i, t);
    SameSize(th, p, p.(args := p.args[i := t]));
  }

  lemma {:induction false} SlotSound(th: Theory, p: Tree, i: nat, t: Tree)
    requires p.Node? && !p.done && i < |p.args| && Sound(th, p) && Sound(th, t)
    ensures Sound(th, p.(args := p.args[i := t]))
  {
    assert SoundAll(th, p.args[i := t]);
  }

  lemma {:induction false} PopStep(th: Theory, goal: Term, node: Tree, child: nat, p: Tree, c: nat, rest: Stack)
    requires Inv(th, goal, node, child, Push(p, c, rest)) && Ready(node)
    ensures 0 < c && p.Node? && c <= |p.args|
    ensures var q := p.(args := p.args[c - 1 := node]);
            Inv(th, goal, q, c, rest) && Left(th, q, c, rest) < Left(th, node, child, Push(p, c, rest))
  {
    var q := p.(args := p.args[c - 1 := node]);
    SlotSame(th, p, c - 1, node);
    SlotCharge(th, p, c - 1, node);
    SlotSound(th, p, c - 1, node);
    Relink(th, goal, p, q, rest);
    PopCost(ChargesOf(th), node, child, p, c, rest);
  }

  lemma {:induction false} FinishStep(th: Theory, goal: Term, node: Tree, st: Stack)
    requires node.Node? && !node.done && Inv(th, goal, node, |node.args|, st)
    requires Mk(th, node.sym, StripAll(node.args)) == Strip(node)
    ensures Inv(th, goal, node.(done := true), |node.args|, st)
  {
    AllCanonical(th, node.args);
    Relink(th, goal, node, node.(done := true), st);
  }

  lemma {:induction false} RestPair(ch: Charges, x: Tree, y: Tree)
    requires Ready(x)
    ensures Rest(ch, [x, y], 0) == 2 + (if Ready(y) then 0 else FrameCost(ch, y, 0))
  {
    var ts := [x, y];
    assert Rest(ch, ts, 2) == 0;
    assert Rest(ch, ts, 1) == 1 + (if Ready(y) then 0 else FrameCost(ch, y, 0));
  }

  /** What is left after a restart costs less than what the restart paid. */
  lemma {:induction false} RestartCost(th: Theory, f: nat, x: Tree, y: Tree, was: Tree)
    requires Ready(x) && was.Node? && !was.done
    requires !Ready(y) ==> |y.args| == 2 && AllReady(y.args, 2)
    requires Size(Strip(y)) < Size(Strip(was)) && SameTerm(th, was, Pair2(f, x, y))
    requires Restarts(th, Pair2(f, x, y)) < Restarts(th, was)
    ensures FrameCost(ChargesOf(th), Pair2(f, x, y), 0) < FrameCost(ChargesOf(th), was, |was.args|)
  {
    var ch, next := ChargesOf(th), Pair2(f, x, y);
    var m, n := Size(Strip(y)), Size(Strip(was));
    SameSize(th, was, next);
    PriceGrows(m, n);
    assert ch(next) + Price(n) <= ch(was) && ch(y) <= 2 * Price(m);
    PairCost(ch, f, x, y);
    assert FrameCost(ch, was, |was.args|) == 2 + ch(was);
  }

  lemma {:induction false} PairCost(ch: Charges, f: nat, x: Tree, y: Tree)
    requires Ready(x) && (!Ready(y) ==> |y.args| == 2 && AllReady(y.args, 2))
    ensures FrameCost(ch, Pair2(f, x, y), 0) <= 8 + ch(y) + ch(Pair2(f, x, y))
  {
    RestPair(ch, x, y);
    if !Ready(y) { RestReady(ch, y.args, 0); }
  }

  /** A node with both arguments, not marked. */
  function Pair2(f: nat, x: Tree, y: Tree): Tree {
    Node(f, [x, y], false)
  }

  lemma {:induction false} PairSound(th: Theory, f: nat, x: Tree, y: Tree)
    requires Sound(th, x) && Sound(th, y)
    ensures Sound(th, Pair2(f, x, y))
  {
    assert SoundAll(th, [x, y]);
  }

  lemma {:induction false} PairStrip(f: nat, x: Tree, y: Tree)
    ensures Strip(Pair2(f, x, y)) == App(f, [Strip(x), Strip(y)])
    ensures Size(Strip(Pair2(f, x, y))) == 1 + Size(Strip(x)) + Size(Strip(y))
  {
    assert StripAll([x, y]) == [Strip(x), Strip(y)];
    SizePair(f, Strip(x), Strip(y));
  }

  lemma {:induction false} PairNorm(th: Theory, f: nat, x: Tree, y: Tree)
    requires f in th.ac
    ensures NormOf(th, Pair2(f, x, y)) == Merge(th.less, f, NormOf(th, x), NormOf(th, y))
    ensures Restarts(th, Pair2(f, x, y)) == Turns(th.less, f, NormOf(th, x), NormOf(th, y))
  {
    PairStrip(f, x, y);
    assert NormAll(th, [Strip(x), Strip(y)]) == [NormOf(th, x), NormOf(th, y)];
  }

  /** The top frame when both arguments are settled. */
  ghost predicate Both(th: Theory, goal: Term, f: nat, a: Tree, b: Tree, st: Stack) {
    && Sound(th, a) && Sound(th, b) && Ready(a) && Ready(b)
    && NormOf(th, a) == Strip(a) && NormOf(th, b) == Strip(b)
    && Linked(th, goal, Pair2(f, a, b), st)
  }

  lemma {:induction false} BothReady(th: Theory, goal: Term, f: nat, a: Tree, b: Tree, st: Stack)
    requires Inv(th, goal, Pair2(f, a, b), 2, st)
    ensures Both(th, goal, f, a, b, st)
  {
    var node := Pair2(f, a, b);
    assert node.args[0] == a && node.args[1] == b;
    KidSound(th, node, 0);
    KidSound(th, node, 1);
    assert Ready(node.args[0]) && Ready(node.args[1]);
    ReadyCanonical(th, a);
    ReadyCanonical(th, b);
  }

  /** The parts of a settled subterm with AC symbol f at its root. */
  ghost predicate Parts(th: Theory, f: nat, b: Tree) {
    && b.Node? && b.sym == f && |b.args| == 2 && Spine(th.less, f, Strip(b))
    && Strip(b).args == [Strip(b.args[0]), Strip(b.args[1])]
    && Sound(th, b.args[0]) && Sound(th, b.args[1]) && Ready(b.args[0]) && Ready(b.args[1])
    && NormOf(th, b.args[0]) == Strip(b.args[0]) && NormOf(th, b.args[1]) == Strip(b.args[1])
  }

  lemma {:induction false} SpineOf(th: Theory, f: nat, b: Tree)
    requires Sound(th, b) && Ready(b) && Top(f, Strip(b)) && f in th.ac
    ensures Parts(th, f, b)
  {
    AllCanonical(th, b.args);
    ReadyCanonical(th, b.args[0]);
    ReadyCanonical(th, b.args[1]);
    assert Strip(b) == Mk(th, f, StripAll(b.args));
  }

  lemma {:induction false} RotateSame(th: Theory, f: nat, a: Tree, b: Tree)
    requires VcpOrder(th.less) && f in th.ac && Parts(th, f, b)
    requires NormOf(th, a) == Strip(a) && NormOf(th, b) == Strip(b)
    requires Above(th.less, f, Strip(a), Strip(b.args[0]))
    ensures var was, inner := Pair2(f, a, b), Pair2(f, a, b.args[1]);
            var next := Pair2(f, b.args[0], inner);
            && SameTerm(th, was, next) && Size(Strip(inner)) < Size(Strip(was))
            && Restarts(th, next) < Restarts(th, was)
  {
    var inner := Pair2(f, a, b.args[1]);
    PairNorm(th, f, a, b);
    PairNorm(th, f, a, b.args[1]);
    PairNorm(th, f, b.args[0], inner);
    Rotate(th.less, f, Strip(a), Strip(b));
    RotateTurns(th.less, f, Strip(a), Strip(b));
    PairStrip(f, a, b);
    PairStrip(f, a, b.args[1]);
    SizePair(f, Strip(b.args[0]), Strip(b.args[1]));
  }

  /** Starting again at a node rebuilt from settled parts with the same canonical form. */
  lemma {:induction false} RestartInv(th: Theory, goal: Term, was: Tree, next: Tree, st: Stack)
    requires Sound(th, next) && next.Node? && SameTerm(th, was, next) && Linked(th, goal, was, st)
    ensures Inv(th, goal, next, 0, st)
  {
    Relink(th, goal, was, next, st);
  }

  /** The arguments of f(a, f(b0, b1)) become f(b0, f(a, b1)). */
  lemma {:induction false} RotateStep(th: Theory, goal: Term, f: nat, a: Tree, b: Tree, st: Stack)
    requires VcpOrder(th.less) && f in th.ac && Both(th, goal, f, a, b, st) && Parts(th, f, b)
    requires Above(th.less, f, Strip(a), Strip(b.args[0]))
    ensures Inv(th, goal, Pair2(f, b.args[0], Pair2(f, a, b.args[1])), 0, st)
  {
    RotateSame(th, f, a, b);
    PairSound(th, f, a, b.args[1]);
    PairSound(th, f, b.args[0], Pair2(f, a, b.args[1]));
    RestartInv(th, goal, Pair2(f, a, b), Pair2(f, b.args[0], Pair2(f, a, b.args[1])), st);
  }

  lemma {:induction false} RotateCost(th: Theory, f: nat, a: Tree, b: Tree)
    requires VcpOrder(th.less) && f in th.ac && Parts(th, f, b) && Ready(a)
    requires NormOf(th, a) == Strip(a) && NormOf(th, b) == Strip(b)
    requires Above(th.less, f, Strip(a), Strip(b.args[0]))
    ensures FrameCost(ChargesOf(th), Pair2(f, b.args[0], Pair2(f, a, b.args[1])), 0)
          < FrameCost(ChargesOf(th), Pair2(f, a, b), 2)
  {
    RotateSame(th, f, a, b);
    RestartCost(th, f, b.args[0], Pair2(f, a, b.args[1]), Pair2(f, a, b));
  }

  /** The arguments of f(a, b) are exchanged. */
  lemma {:induction false} SwapStep(th: Theory, goal: Term, f: nat, a: Tree, b: Tree, st: Stack)
    requires VcpOrder(th.less) && f in th.ac && Both(th, goal, f, a, b, st)
    requires Top(f, Strip(b)) ==> Parts(th, f, b) && !Above(th.less, f, Strip(a), Strip(b.args[0]))
    requires Above(th.less, f, Strip(a), Strip(b))
    ensures var next := Pair2(f, b, a);
            Inv(th, goal, next, 0, st) &&
            FrameCost(ChargesOf(th), next, 0) < FrameCost(ChargesOf(th), Pair2(f, a, b), 2)
  {
    var was, next := Pair2(f, a, b), Pair2(f, b, a);
    NoSwap(th.less, f, Strip(a), Strip(b));
    PairSound(th, f, b, a);
    PairNorm(th, f, a, b);
    PairNorm(th, f, b, a);
    Swap(th.less, f, Strip(a), Strip(b));
    SwapTurns(th.less, f, Strip(a), Strip(b));
    Relink(th, goal, was, next, st);
    PairStrip(f, a, b);
    RestartCost(th, f, b, a, was);
  }

  /** The node is marked when no swap applies. */
  lemma {:induction false} SettledStep(th: Theory, goal: Term, f: nat, a: Tree, b: Tree, st: Stack)
    requires VcpOrder(th.less) && f in th.ac && Both(th, goal, f, a, b, st)
    requires Top(f, Strip(b)) ==> Parts(th, f, b) && !Above(th.less, f, Strip(a), Strip(b.args[0]))
    requires !Above(th.less, f, Strip(a), Strip(b))
    ensures Inv(th, goal, Node(f, [a, b], true), 2, st)
  {
    NoSwap(th.less, f, Strip(a), Strip(b));
    InOrder(th.less, f, Strip(a), Strip(b));
    PairNorm(th, f, a, b);
    PairStrip(f, a, b);
    MarkPair(th, goal, f, a, b, st);
  }

  lemma {:induction false} MarkPair(th: Theory, goal: Term, f: nat, a: Tree, b: Tree, st: Stack)
    requires Both(th, goal, f, a, b, st) && NormOf(th, Pair2(f, a, b)) == Strip(Pair2(f, a, b))
    ensures Inv(th, goal, Node(f, [a, b], true), 2, st)
  {
    var node := Node(f, [a, b], true);
    assert Strip(node) == Strip(Pair2(f, a, b));
    PairSound(th, f, a, b);
    Relink(th, goal, Pair2(f, a, b), node, st);
  }

  /** The arguments of a commutative node, exchanged if need be. */
  lemma {:induction false} CommuteStep(th: Theory, goal: Term, f: nat, a: Tree, b: Tree, st: Stack)
    requires VcpOrder(th.less) && f in th.c && f !in th.ac && Both(th, goal, f, a, b, st)
    ensures Above(th.less, f, Strip(a), Strip(b)) ==> Inv(th, goal, Node(f, [b, a], true), 2, st)
    ensures !Above(th.less, f, Strip(a), Strip(b)) ==> Inv(th, goal, Node(f, [a, b], true), 2, st)
  {
    PairStrip(f, a, b);
    PairStrip(f, b, a);
    assert NormAll(th, [Strip(a), Strip(b)]) == [Strip(a), Strip(b)];
    assert NormAll(th, [Strip(b), Strip(a)]) == [Strip(b), Strip(a)];
    AboveOnce(th.less, f, Strip(a), Strip(b));
    if Above(th.less, f, Strip(a), Strip(b)) {
      Relink(th, goal, Pair2(f, a, b), Pair2(f, b, a), st);
      MarkPair(th, goal, f, b, a, st);
    } else {
      MarkPair(th, goal, f, a, b, st);
    }
  }

  lemma {:induction false} LastStep(th: Theory, goal: Term, node: Tree, child: nat)
    requires Inv(th, goal, node, child, Empty) && Ready(node)
    ensures Strip(node) == Norm(th, goal) && Sound(th, node)
  {
    ReadyCanonical(th, node);
  }

  /** Canonicalization by swaps: it ends in spite of the restarts, with the canonical form. */
  method Canon(th: Theory, t: Tree) returns (r: Tree)
    requires VcpOrder(th.less) && Sound(th, t)
    ensures Strip(r) == Norm(th, Strip(t)) && Sound(th, r) && Ready(r)
  {
    ghost var goal := Strip(t);
    var node, child: nat, below := t, 0, Empty;
    while true
      invariant Inv(th, goal, node, child, below)
      decreases Left(th, node, child, below)
    {
      if Ready(node) {
        match below {
          case Empty =>
            LastStep(th, goal, node, child);
            return node;
          case Push(p, c, rest) =>
            PopStep(th, goal, node, child, p, c, rest);
            node, child, below := p.(args := p.args[c - 1 := node]), c, rest;
        }
      } else if child < |node.args| {
        var c := child;
        DescendStep(th, goal, node, c, below);
        child := child + 1;
        if !Ready(node.args[c]) {
          node, child, below := node.args[c], 0, Push(node, child, below);
        }
      } else if node.sym in th.ac && |node.args| == 2 {
        node, child := Rearrange(th, node, goal, below);
      } else {
        node := Mark(th, node, goal, below);
      }
    }
  }

  lemma {:induction false} DescendStep(th: Theory, goal: Term, node: Tree, child: nat, st: Stack)
    requires Inv(th, goal, node, child, st) && !Ready(node) && child < |node.args|
    ensures Ready(node.args[child]) ==> Inv(th, goal, node, child + 1, st)
    ensures Ready(node.args[child]) ==> Left(th, node, child + 1, st) < Left(th, node, child, st)
    ensures !Ready(node.args[child]) ==> Inv(th, goal, node.args[child], 0, Push(node, child + 1, st))
    ensures !Ready(node.args[child]) ==>
              Left(th, node.args[child], 0, Push(node, child + 1, st)) < Left(th, node, child, st)
  {
    KidSound(th, node, child);
    DescendCost(ChargesOf(th), node, child, st);
  }

  /** At a node without an AC symbol: exchange the arguments of a commutative symbol, then mark. */
  method Mark(th: Theory, node: Tree, ghost goal: Term, ghost st: Stack) returns (next: Tree)
    requires VcpOrder(th.less) && !Ready(node) && !(node.sym in th.ac && |node.args| == 2)
    requires Inv(th, goal, node, |node.args|, st)
    ensures Inv(th, goal, next, |node.args|, st) && Left(th, next, |node.args|, st) < Left(th, node, |node.args|, st)
  {
    next := node;
    if node.sym in th.c && |node.args| == 2 {
      var f, a, b := node.sym, node.args[0], node.args[1];
      assert node == Pair2(f, a, b);
      BothReady(th, goal, f, a, b, st);
      CommuteStep(th, goal, f, a, b, st);
      if Above(th.less, f, Strip(a), Strip(b)) {
        next := next.(args := [b, a]);
      }
    } else {
      AllCanonical(th, node.args);
      FinishStep(th, goal, node, st);
    }
    next := next.(done := true);
  }

  /** The test at an AC node with settled arguments: rotate, swap or mark it. */
  method Rearrange(th: Theory, node: Tree, ghost goal: Term, ghost st: Stack) returns (next: Tree, child: nat)
    requires VcpOrder(th.less) && !Ready(node) && node.sym in th.ac && |node.args| == 2
    requires Inv(th, goal, node, 2, st)
    ensures Inv(th, goal, next, child, st)
    ensures Left(th, next, child, st) < Left(th, node, 2, st)
  {
    var f, a, b := node.sym, node.args[0], node.args[1];
    assert node == Pair2(f, a, b);
    BothReady(th, goal, f, a, b, st);
    if Top(f, Strip(b)) { SpineOf(th, f, b); }
    if Top(f, Strip(b)) && Above(th.less, f, Strip(a), Strip(b.args[0])) {
      RotateStep(th, goal, f, a, b, st);
      RotateCost(th, f, a, b);
      next, child := node.(args := [b.args[0], b.(args := [a, b.args[1]], done := false)]), 0;
    } else if Above(th.less, f, Strip(a), Strip(b)) {
      SwapStep(th, goal, f, a, b, st);
      next, child := node.(args := [b, a]), 0;
    } else {
      SettledStep(th, goal, f, a, b, st);
      next, child := node.(done := true), 2;
      assert next == Node(f, [a, b], true);
    }
  }
}

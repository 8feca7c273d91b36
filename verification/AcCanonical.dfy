/** Canonicalization modulo associative-commutative symbols by flattening, sorting and reassociating
    in place (ladr/accanon.c). */
module AcCanonical {
  import opened Terms
  import opened AcTheory
  import opened AcCanon

  /** A node with the binary symbol f. */
  predicate TopNode(f: nat, t: Tree) {
    t.Node? && t.sym == f && |t.args| == 2
  }

  /** The arguments of f at the top of t. */
  function Leaves(f: nat, t: Tree): (r: seq<Tree>)
    ensures |r| > 0
  {
    if TopNode(f, t) then Leaves(f, t.args[0]) + Leaves(f, t.args[1]) else [t]
  }

  lemma {:induction false} LeavesFlat(f: nat, t: Tree)
    ensures StripAll(Leaves(f, t)) == Flat(f, Strip(t))
  {
    if TopNode(f, t) {
      LeavesFlat(f, t.args[0]);
      LeavesFlat(f, t.args[1]);
      assert StripAll(Leaves(f, t.args[0]) + Leaves(f, t.args[1]))
          == StripAll(Leaves(f, t.args[0])) + StripAll(Leaves(f, t.args[1]));
    }
  }

  ghost predicate Smaller(ts: seq<Tree>, n: nat) {
    forall i | 0 <= i < |ts| :: Size(Strip(ts[i])) < n
  }

  lemma {:induction false} KidSmaller(t: Tree, i: nat)
    requires t.Node? && i < |t.args|
    ensures Size(Strip(t.args[i])) < Size(Strip(t))
  {
    var ts := StripAll(t.args);
    assert ts == ts[..i] + ([ts[i]] + ts[i + 1..]);
    ConcatAll(ts[..i], [ts[i]] + ts[i + 1..]);
    assert ([ts[i]] + ts[i + 1..])[1..] == ts[i + 1..];
  }

  lemma {:induction false} LeavesSmaller(f: nat, t: Tree)
    ensures Smaller(Leaves(f, t), Size(Strip(t)) + 1)
    ensures TopNode(f, t) ==> Smaller(Leaves(f, t), Size(Strip(t)))
  {
    if TopNode(f, t) {
      KidSmaller(t, 0);
      KidSmaller(t, 1);
      LeavesSmaller(f, t.args[0]);
      LeavesSmaller(f, t.args[1]);
    }
  }

  method Flatten(f: nat, t: Tree, a: seq<Tree>) returns (r: seq<Tree>)
    requires TopNode(f, t)
    ensures r == a + Leaves(f, t)
  {
    r := a;
    for i := 0 to 2
      invariant i == 0 ==> r == a
      invariant i == 1 ==> r == a + Leaves(f, t.args[0])
      invariant i == 2 ==> r == a + Leaves(f, t)
    {
      if TopNode(f, t.args[i]) {
        r := Flatten(f, t.args[i], r);
      } else {
        r := r + [t.args[i]];
      }
    }
  }

  // ---------- Reassociation ----------

  /** A tree of f nested to the right, with n arguments. */
  predicate RightSpine(f: nat, t: Tree, n: nat)
    decreases n
  {
    if n < 2 then !TopNode(f, t) && n == 1
    else TopNode(f, t) && !TopNode(f, t.args[0]) && RightSpine(f, t.args[1], n - 1)
  }

  /** Hang f(last argument, c) under the end of the spine b; fab is the node reused for it. */
  function Append(f: nat, b: Tree, fab: Tree, c: Tree): Tree
    requires TopNode(f, b) && fab.Node?
  {
    if TopNode(f, b.args[1]) then b.(args := [b.args[0], Append(f, b.args[1], fab, c)])
    else b.(args := [b.args[0], fab.(args := [b.args[1], c])])
  }

  lemma {:induction false} AppendLeaves(f: nat, b: Tree, n: nat, fab: Tree, c: Tree, m: nat)
    requires n >= 2 && RightSpine(f, b, n) && RightSpine(f, c, m) && TopNode(f, fab)
    ensures RightSpine(f, Append(f, b, fab, c), n + m)
    ensures Leaves(f, Append(f, b, fab, c)) == Leaves(f, b) + Leaves(f, c)
  {
    var r := Append(f, b, fab, c);
    if TopNode(f, b.args[1]) {
      AppendLeaves(f, b.args[1], n - 1, fab, c, m);
      assert r.args[1] == Append(f, b.args[1], fab, c);
      assert Leaves(f, r) == [b.args[0]] + Leaves(f, r.args[1]);
    } else {
      var g := fab.(args := [b.args[1], c]);
      assert r.args[1] == g && RightSpine(f, g, m + 1);
      assert Leaves(f, g) == [b.args[1]] + Leaves(f, c);
      assert Leaves(f, r) == [b.args[0]] + Leaves(f, g);
    }
  }

  /** The spine f(f(a,b),c) with its nodes relinked: t stays on top. */
  function Relinked(f: nat, t: Tree, fab: Tree, c: Tree): Tree
    requires TopNode(f, fab) && t.Node?
  {
    var a, b := fab.args[0], fab.args[1];
    if !TopNode(f, b) then t.(args := [a, fab.(args := [b, c])]) else t.(args := [a, Append(f, b, fab, c)])
  }

  lemma {:induction false} RelinkedSpine(f: nat, t: Tree, fab: Tree, n: nat, c: Tree, m: nat)
    requires TopNode(f, t) && TopNode(f, fab) && RightSpine(f, fab, n) && RightSpine(f, c, m)
    ensures RightSpine(f, Relinked(f, t, fab, c), n + m)
    ensures Leaves(f, Relinked(f, t, fab, c)) == Leaves(f, fab) + Leaves(f, c)
  {
    var r := Relinked(f, t, fab, c);
    var a, b, g := fab.args[0], fab.args[1], r.args[1];
    assert r.args[0] == a;
    assert Leaves(f, fab) == [a] + Leaves(f, b);
    assert Leaves(f, r) == [a] + Leaves(f, g);
    if !TopNode(f, b) {
      assert g.args[0] == b && g.args[1] == c;
      assert Leaves(f, g) == [b] + Leaves(f, c);
    } else {
      AppendLeaves(f, b, n - 1, fab, c, m);
    }
  }

  method RightAssociate(f: nat, t: Tree) returns (r: Tree)
    requires TopNode(f, t)
    ensures TopNode(f, r) && RightSpine(f, r, |Leaves(f, t)|) && Leaves(f, r) == Leaves(f, t)
    ensures r.done == t.done
    decreases t
  {
    var c := t.args[1];
    SpineLeaf(f, c);
    if TopNode(f, c) {
      c := RightAssociate(f, c);
    }
    if TopNode(f, t.args[0]) {
      var fab := RightAssociate(f, t.args[0]);
      RelinkedSpine(f, t, fab, |Leaves(f, t.args[0])|, c, |Leaves(f, t.args[1])|);
      r := Relinked(f, t, fab, c);
    } else {
      r := t.(args := [t.args[0], c]);
      assert r.args[0] == t.args[0] && r.args[1] == c;
    }
  }

  lemma {:induction false} SpineLeaf(f: nat, t: Tree)
    ensures !TopNode(f, t) ==> RightSpine(f, t, 1) && |Leaves(f, t)| == 1
  {
  }

  // ---------- Writing the sorted arguments back ----------

  function InsertTree(less: Less, x: Tree, ts: seq<Tree>): (r: seq<Tree>)
    ensures |r| == |ts| + 1
  {
    if |ts| == 0 then [x]
    else if less(Strip(ts[0]), Strip(x)) then [ts[0]] + InsertTree(less, x, ts[1..])
    else [x] + ts
  }

  /** Sorted by the terms. */
  function SortTrees(less: Less, ts: seq<Tree>): (r: seq<Tree>)
    ensures |r| == |ts|
  {
    if |ts| == 0 then [] else InsertTree(less, ts[0], SortTrees(less, ts[1..]))
  }

  lemma {:induction false} InsertTreeStrip(less: Less, x: Tree, ts: seq<Tree>)
    ensures StripAll(InsertTree(less, x, ts)) == Insert(less, Strip(x), StripAll(ts))
  {
    if |ts| > 0 && less(Strip(ts[0]), Strip(x)) {
      InsertTreeStrip(less, x, ts[1..]);
      assert StripAll(ts[1..]) == StripAll(ts)[1..];
      StripCons(ts[0], InsertTree(less, x, ts[1..]));
    } else {
      StripCons(x, ts);
    }
  }

  lemma {:induction false} StripCons(t: Tree, ts: seq<Tree>)
    ensures StripAll([t] + ts) == [Strip(t)] + StripAll(ts)
  {
  }

  lemma {:induction false} SortTreesStrip(less: Less, ts: seq<Tree>)
    ensures StripAll(SortTrees(less, ts)) == Sort(less, StripAll(ts))
  {
    if |ts| > 0 {
      SortTreesStrip(less, ts[1..]);
      assert StripAll(ts[1..]) == StripAll(ts)[1..];
      InsertTreeStrip(less, ts[0], SortTrees(less, ts[1..]));
    }
  }

  /** Overwrite the arguments of a spine; all its nodes but the last lose their mark. */
  function WriteSpine(f: nat, marks: bool, t: Tree, args: seq<Tree>): (r: Tree)
    requires |args| >= 2 && RightSpine(f, t, |args|)
    ensures r.Node?
    decreases |args|
  {
    if |args| == 2 then t.(args := args)
    else t.(args := [args[0], WriteSpine(f, marks, t.args[1], args[1..])], done := t.done && !marks)
  }

  lemma {:induction false} WriteSpineStrip(f: nat, marks: bool, t: Tree, args: seq<Tree>)
    requires |args| >= 2 && RightSpine(f, t, |args|)
    ensures Strip(WriteSpine(f, marks, t, args)) == Right(f, StripAll(args))
    decreases |args|
  {
    var ts := StripAll(args);
    assert ts[1..] == StripAll(args[1..]);
    if |args| == 2 {
      assert ts == [ts[0], ts[1]];
      assert Right(f, ts[1..]) == ts[1];
    } else {
      var rest := WriteSpine(f, marks, t.args[1], args[1..]);
      WriteSpineStrip(f, marks, t.args[1], args[1..]);
      assert StripAll([args[0], rest]) == [Strip(args[0]), Strip(rest)];
    }
  }

  // ---------- The canonicalizer ----------

  /** Marked subterms are already canonical. */
  ghost predicate Honest(th: Theory, t: Tree)
    decreases t, 1
  {
    match t
    case Leaf(_) => true
    case Node(_, args, done) => HonestAll(th, args) && (done ==> NormOf(th, t) == Strip(t))
  }

  ghost predicate HonestAll(th: Theory, ts: seq<Tree>)
    decreases ts, 0
  {
    forall i | 0 <= i < |ts| :: Honest(th, ts[i])
  }

  lemma {:induction false} HonestKid(th: Theory, t: Tree, i: nat)
    requires t.Node? && Honest(th, t) && i < |t.args|
    ensures Honest(th, t.args[i])
  {
    var ts := t.args;
    assert HonestAll(th, ts);
  }

  lemma {:induction false} HonestLeaves(th: Theory, f: nat, t: Tree)
    requires Honest(th, t)
    ensures HonestAll(th, Leaves(f, t))
  {
    if TopNode(f, t) {
      HonestKid(th, t, 0);
      HonestKid(th, t, 1);
      HonestLeaves(th, f, t.args[0]);
      HonestLeaves(th, f, t.args[1]);
    }
  }

  /** The arguments of the canonical form of t. */
  function CanonArgs(th: Theory, f: nat, t: Term): seq<Term> {
    if Top(f, t) then Sort(th.less, NormAll(th, Flat(f, t))) else [Norm(th, t)]
  }

  lemma {:induction false} CanonArgsMultiset(th: Theory, f: nat, t: Term)
    ensures multiset(CanonArgs(th, f, t)) == multiset(NormAll(th, Flat(f, t)))
  {
    if Top(f, t) {
      SortMultiset(th.less, NormAll(th, Flat(f, t)));
    } else {
      assert NormAll(th, [t]) == [Norm(th, t)];
    }
  }

  lemma {:induction false} NormTwo(th: Theory, f: nat, t: Term)
    requires f in th.ac && Top(f, t)
    ensures Norm(th, t) == Merge(th.less, f, Norm(th, t.args[0]), Norm(th, t.args[1]))
  {
    assert NormAll(th, t.args) == [Norm(th, t.args[0]), Norm(th, t.args[1])];
  }

  lemma {:induction false} CanonArgsJoin(th: Theory, f: nat, t: Term)
    requires Ordered(th.less) && Top(f, t)
    ensures CanonArgs(th, f, t) == Sort(th.less, CanonArgs(th, f, t.args[0]) + CanonArgs(th, f, t.args[1]))
  {
    var x, y := t.args[0], t.args[1];
    CanonArgsMultiset(th, f, x);
    CanonArgsMultiset(th, f, y);
    NormAllConcat(th, Flat(f, x), Flat(f, y));
    SortAgree(th.less, CanonArgs(th, f, x) + CanonArgs(th, f, y), NormAll(th, Flat(f, x)) + NormAll(th, Flat(f, y)));
  }

  lemma {:induction false} NormAllConcat(th: Theory, a: seq<Term>, b: seq<Term>)
    ensures NormAll(th, a + b) == NormAll(th, a) + NormAll(th, b)
  {
  }

  /** Canonical arguments stay arguments: flattening, then canonicalizing and sorting, is the normal form. */
  lemma {:induction false} NormFlat(th: Theory, f: nat, t: Term)
    requires Ordered(th.less) && f in th.ac
    ensures Flat(f, Norm(th, t)) == CanonArgs(th, f, t)
    decreases t
  {
    if Top(f, t) {
      NormTwo(th, f, t);
      NormFlat(th, f, t.args[0]);
      NormFlat(th, f, t.args[1]);
      FlatMerge(th.less, f, Norm(th, t.args[0]), Norm(th, t.args[1]));
      CanonArgsJoin(th, f, t);
    } else if t.App? {
      NormTop(th, f, t);
    }
  }

  lemma {:induction false} NormTop(th: Theory, f: nat, t: Term)
    requires t.App? && !Top(f, t)
    ensures !Top(f, Norm(th, t))
  {
    var args := NormAll(th, t.args);
    if IsAC(th, t.sym, |args|) {
      assert |Sort(th.less, Flat(t.sym, args[0]) + Flat(t.sym, args[1]))| > 1;
    }
  }

  /** The normal form, computed from the arguments at the top. */
  lemma {:induction false} NormByFlat(th: Theory, f: nat, t: Term)
    requires Ordered(th.less) && f in th.ac && Top(f, t)
    ensures |Flat(f, t)| >= 2
    ensures Norm(th, t) == Right(f, Sort(th.less, NormAll(th, Flat(f, t))))
  {
    NormTwo(th, f, t);
    FlatMerge(th.less, f, Norm(th, t.args[0]), Norm(th, t.args[1]));
    NormFlat(th, f, t);
  }

  /** With marks, subterms marked as reduced are skipped among the arguments of an AC symbol. */
  method AcCanonical2(th: Theory, marks: bool, t: Tree) returns (r: Tree)
    requires Ordered(th.less) && th.c == {} && (marks ==> Honest(th, t))
    ensures Strip(r) == Norm(th, Strip(t))
    decreases Size(Strip(t)), 2
  {
    if t.Leaf? { return t; }
    if t.sym in th.ac && |t.args| == 2 {
      r := SortTop(th, marks, t);
    } else {
      forall i | 0 <= i < |t.args| ensures Size(Strip(t.args[i])) < Size(Strip(t)) { KidSmaller(t, i); }
      var args := Arguments(th, marks, t.args, false, Size(Strip(t)));
      r := t.(args := args);
    }
  }

  /** The branch for an AC symbol. The reassociated node keeps its spine, and all its arguments are
      overwritten, so the order in which they were canonicalized leaves no trace. */
  method SortTop(th: Theory, marks: bool, t: Tree) returns (r: Tree)
    requires Ordered(th.less) && th.c == {} && (marks ==> Honest(th, t))
    requires t.Node? && t.sym in th.ac && |t.args| == 2
    ensures Strip(r) == Norm(th, Strip(t))
    decreases Size(Strip(t)), 1
  {
    var f := t.sym;
    var args := Flatten(f, t, []);
    LeavesSmaller(f, t);
    if marks { HonestLeaves(th, f, t); }
    args := Arguments(th, marks, args, true, Size(Strip(t)));
    SortedResult(th, t, args);
    args := SortTrees(th.less, args);
    r := RightAssociate(f, t);
    WriteSpineStrip(f, marks, r, args);
    r := WriteSpine(f, marks, r, args);
  }

  lemma {:induction false} SortedResult(th: Theory, t: Tree, args: seq<Tree>)
    requires Ordered(th.less) && t.Node? && t.sym in th.ac && |t.args| == 2
    requires |args| == |Leaves(t.sym, t)| && StripAll(args) == NormAll(th, StripAll(Leaves(t.sym, t)))
    ensures |args| >= 2 && Right(t.sym, StripAll(SortTrees(th.less, args))) == Norm(th, Strip(t))
  {
    LeavesFlat(t.sym, t);
    NormByFlat(th, t.sym, Strip(t));
    SortTreesStrip(th.less, args);
  }

  /** The loop over the arguments. */
  method Arguments(th: Theory, marks: bool, ts: seq<Tree>, skip: bool, ghost n: nat) returns (r: seq<Tree>)
    requires Ordered(th.less) && th.c == {} && (marks ==> HonestAll(th, ts)) && Smaller(ts, n)
    ensures |r| == |ts| && StripAll(r) == NormAll(th, StripAll(ts))
    decreases n, 0
  {
    r := [];
    for i := 0 to |ts|
      invariant |r| == i && forall j | 0 <= j < i :: Strip(r[j]) == Norm(th, Strip(ts[j]))
    {
      if skip && marks && ts[i].Node? && ts[i].done {
        r := r + [ts[i]];
      } else {
        var x := AcCanonical2(th, marks, ts[i]);
        r := r + [x];
      }
    }
  }

  // ---------- The marks ----------

  /** Whether the node of the spine after k others is marked. */
  predicate MarkAt(f: nat, t: Tree, k: nat) {
    TopNode(f, t) && (if k == 0 then t.done else MarkAt(f, t.args[1], k - 1))
  }

  /** Nodes that got new arguments are not marked, except the last one of the spine. */
  lemma {:induction false} MarksCleared(f: nat, t: Tree, args: seq<Tree>, k: nat)
    requires |args| >= 2 && RightSpine(f, t, |args|)
    ensures k < |args| - 2 ==> !MarkAt(f, WriteSpine(f, true, t, args), k)
    ensures k == |args| - 2 ==> MarkAt(f, WriteSpine(f, true, t, args), k) == MarkAt(f, t, k)
    decreases k
  {
    if |args| > 2 && k > 0 { MarksCleared(f, t.args[1], args[1..], k - 1); }
  }
}

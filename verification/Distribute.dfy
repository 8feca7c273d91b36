/** Distribution of a disjunction of conjunctive normal forms (balanced_binary, distribute:
    ladr/cnf.c:489-519, 692-735). */
module Distribute {
  import opened Options
  import opened Formulas
  import opened Simplify

  /** bbt on a disjunction: a balanced binary tree over its arguments. */
  function Bbt(kids: seq<Formula>): Formula
    requires |kids| > 0
  {
    if |kids| == 1 then kids[0] else
      var m := (|kids| - 1) / 2 + 1;
      Or([Bbt(kids[..m]), Bbt(kids[m..])])
  }

  /** The number of clauses that multiplying out the tree of disjunctions can give. */
  function Product(f: Formula): nat
    decreases f, 1
  {
    if f.Or? && |f.kids| > 0 then ProductAll(f.kids) else Count(f)
  }

  function ProductAll(fs: seq<Formula>): nat
    decreases fs, 0
  {
    if |fs| == 0 then 1 else Product(fs[0]) * ProductAll(fs[1..])
  }

  /** A disjunction with exactly one argument, somewhere in the tree of disjunctions. */
  predicate HasSingleton(f: Formula) {
    f.Or? && (|f.kids| == 1 || exists i :: 0 <= i < |f.kids| && HasSingleton(f.kids[i]))
  }

  /** A tree of disjunctions over conjunctive normal forms. */
  ghost predicate Distributable(f: Formula) {
    IsCnf(f) || (f.Or? && |f.kids| >= 2 && forall i | 0 <= i < |f.kids| :: Distributable(f.kids[i]))
  }

  ghost predicate Same(f: Formula, g: Formula) {
    && Equivalent(f, g) && LeavesIn(f, g) && Product(f) == Product(g) && (HasSingleton(f) <==> HasSingleton(g))
    && (Distributable(g) ==> Distributable(f)) && (Tame(g) ==> Tame(f))
  }

  ghost predicate Multiplied(g: Formula, f: Formula) {
    && Equivalent(g, f) && LeavesIn(g, f) && !HasSingleton(f)
    && (Distributable(f) ==> IsCnf(g) && Count(g) <= Product(f)) && (Tame(f) ==> Tame(g))
  }

  /** Work left: twice the binary disjunctions still to be entered, and the leaves. */
  ghost function Weight(f: Formula): (w: nat)
    ensures w > 0
    decreases f, 1
  {
    if f.Or? && |f.kids| > 0 then 2 * (|f.kids| - 1) + WeightAll(f.kids) else 1
  }

  ghost function WeightAll(fs: seq<Formula>): (w: nat)
    ensures w >= |fs|
    decreases fs, 0
  {
    if |fs| == 0 then 0 else Weight(fs[0]) + WeightAll(fs[1..])
  }

  lemma {:induction false} MulAssoc(x: nat, y: nat, z: nat)
    ensures x * (y * z) == (x * y) * z
  {
  }

  lemma {:induction false} ConcatProduct(a: seq<Formula>, b: seq<Formula>)
    ensures ProductAll(a + b) == ProductAll(a) * ProductAll(b)
  {
    if |a| == 0 {
      assert a + b == b;
    } else {
      assert (a + b)[0] == a[0] && (a + b)[1..] == a[1..] + b;
      ConcatProduct(a[1..], b);
      MulAssoc(Product(a[0]), ProductAll(a[1..]), ProductAll(b));
    }
  }

  lemma {:induction false} ConcatWeight(a: seq<Formula>, b: seq<Formula>)
    ensures WeightAll(a + b) == WeightAll(a) + WeightAll(b)
  {
    if |a| == 0 {
      assert a + b == b;
    } else {
      assert (a + b)[0] == a[0] && (a + b)[1..] == a[1..] + b;
      ConcatWeight(a[1..], b);
    }
  }

  lemma {:induction false} One(x: Formula)
    ensures ProductAll([x]) == Product(x) && WeightAll([x]) == Weight(x)
  {
    assert [x][1..] == [];
    assert ProductAll([x][1..]) == 1 && WeightAll([x][1..]) == 0;
  }

  lemma {:induction false} Two(x: Formula, y: Formula)
    ensures Product(Or([x, y])) == Product(x) * Product(y)
    ensures Weight(Or([x, y])) == 2 + Weight(x) + Weight(y)
    ensures HasSingleton(Or([x, y])) <==> HasSingleton(x) || HasSingleton(y)
    ensures forall v: Valuation :: Truth(Or([x, y]), v) <==> Truth(x, v) || Truth(y, v)
    ensures forall z :: HasLeaf(Or([x, y]), z) <==> HasLeaf(x, z) || HasLeaf(y, z)
  {
    var two := [x, y];
    assert two == [x] + [y];
    ConcatProduct([x], [y]);
    ConcatWeight([x], [y]);
    One(x);
    One(y);
    assert two[0] == x && two[1] == y;
  }

  lemma {:induction false} Halves(kids: seq<Formula>)
    requires |kids| > 1
    ensures var m := (|kids| - 1) / 2 + 1;
            0 < m < |kids| && kids == kids[..m] + kids[m..] && Bbt(kids) == Or([Bbt(kids[..m]), Bbt(kids[m..])])
  {
  }

  /** Balancing changes nothing that matters. */
  lemma {:induction false} BbtSums(kids: seq<Formula>)
    requires |kids| > 0
    ensures Product(Bbt(kids)) == ProductAll(kids) && Weight(Bbt(kids)) == 2 * (|kids| - 1) + WeightAll(kids)
    decreases |kids|
  {
    if |kids| == 1 {
      assert kids[1..] == [];
    } else {
      Halves(kids);
      var m := (|kids| - 1) / 2 + 1;
      var a, b := kids[..m], kids[m..];
      BbtSums(a);
      BbtSums(b);
      ConcatProduct(a, b);
      ConcatWeight(a, b);
      Two(Bbt(a), Bbt(b));
    }
  }

  lemma {:induction false} BbtTruth(kids: seq<Formula>, v: Valuation)
    requires |kids| > 0
    ensures Truth(Bbt(kids), v) <==> SomeTrue(kids, v)
    decreases |kids|
  {
    if |kids| == 1 {
      assert kids[0] in kids;
    } else {
      Halves(kids);
      var m := (|kids| - 1) / 2 + 1;
      var a, b := kids[..m], kids[m..];
      BbtTruth(a, v);
      BbtTruth(b, v);
      Two(Bbt(a), Bbt(b));
      SomeTrueConcat(a, b, v);
    }
  }

  lemma {:induction false} BbtSingleton(kids: seq<Formula>)
    requires |kids| > 0
    ensures HasSingleton(Bbt(kids)) <==> exists i :: 0 <= i < |kids| && HasSingleton(kids[i])
    decreases |kids|
  {
    if |kids| > 1 {
      Halves(kids);
      var m := (|kids| - 1) / 2 + 1;
      var a, b := kids[..m], kids[m..];
      BbtSingleton(a);
      BbtSingleton(b);
      Two(Bbt(a), Bbt(b));
      SomeSingleton(a, b);
    }
  }

  lemma {:induction false} BbtDistributable(kids: seq<Formula>)
    requires |kids| > 0 && forall i | 0 <= i < |kids| :: Distributable(kids[i])
    ensures Distributable(Bbt(kids))
    decreases |kids|
  {
    if |kids| > 1 {
      Halves(kids);
      var m := (|kids| - 1) / 2 + 1;
      BbtDistributable(kids[..m]);
      BbtDistributable(kids[m..]);
    }
  }

  lemma {:induction false} BbtTame(kids: seq<Formula>)
    requires |kids| > 0 && TameKids(kids, false)
    ensures Tame(Bbt(kids)) && Paired(Bbt(kids), false)
    decreases |kids|
  {
    if |kids| > 1 {
      Halves(kids);
      var m := (|kids| - 1) / 2 + 1;
      BbtTame(kids[..m]);
      BbtTame(kids[m..]);
    }
  }

  /** Paired disjunctions are never misread. */
  lemma {:induction false} PairedNoSingleton(f: Formula)
    requires Paired(f, false)
    ensures !HasSingleton(f)
  {
    if f.Or? {
      PairedNoSingleton(f.kids[0]);
      PairedNoSingleton(f.kids[1]);
    }
  }

  lemma {:induction false} BbtLeaves(kids: seq<Formula>, x: Formula)
    requires |kids| > 0
    ensures HasLeaf(Bbt(kids), x) <==> SomeLeaf(kids, x)
    decreases |kids|
  {
    if |kids| == 1 {
      assert kids[0] in kids;
    } else {
      Halves(kids);
      var m := (|kids| - 1) / 2 + 1;
      var a, b := kids[..m], kids[m..];
      BbtLeaves(a, x);
      BbtLeaves(b, x);
      Two(Bbt(a), Bbt(b));
      assert forall f :: f in kids <==> f in a || f in b;
    }
  }

  /** A disjunction and its balanced form. */
  lemma {:induction false} BbtSame(kids: seq<Formula>)
    requires |kids| > 1
    ensures Same(Bbt(kids), Or(kids)) && Weight(Bbt(kids)) == Weight(Or(kids))
  {
    BbtSums(kids);
    BbtSingleton(kids);
    forall v: Valuation ensures Truth(Bbt(kids), v) <==> Truth(Or(kids), v) {
      BbtTruth(kids, v);
      TruthOr(kids, v);
    }
    forall x ensures HasLeaf(Bbt(kids), x) <==> HasLeaf(Or(kids), x) {
      BbtLeaves(kids, x);
      KidLeaves(Or(kids), x);
    }
    if Distributable(Or(kids)) {
      KidsDistributable(Or(kids));
      BbtDistributable(kids);
    }
    if Tame(Or(kids)) {
      TameNode(Or(kids));
      BbtTame(kids);
    }
  }

  lemma {:induction false} KidsDistributable(f: Formula)
    requires f.Or? && Distributable(f)
    ensures forall i | 0 <= i < |f.kids| :: Distributable(f.kids[i])
  {
    forall i | 0 <= i < |f.kids| ensures Distributable(f.kids[i]) {
      if IsCnf(f) { assert f.kids[i] in f.kids; }
    }
  }

  lemma {:induction false} SomeSingleton(a: seq<Formula>, b: seq<Formula>)
    ensures (exists i :: 0 <= i < |a + b| && HasSingleton((a + b)[i])) <==>
            (exists i :: 0 <= i < |a| && HasSingleton(a[i])) || (exists i :: 0 <= i < |b| && HasSingleton(b[i]))
  {
    if i :| 0 <= i < |a| && HasSingleton(a[i]) { assert (a + b)[i] == a[i]; }
    if i :| 0 <= i < |b| && HasSingleton(b[i]) { assert (a + b)[|a| + i] == b[i]; }
    if i :| 0 <= i < |a + b| && HasSingleton((a + b)[i]) {
      assert if i < |a| then (a + b)[i] == a[i] else (a + b)[i] == b[i - |a|];
    }
  }

  lemma {:induction false} SomeTrueConcat(a: seq<Formula>, b: seq<Formula>, v: Valuation)
    ensures SomeTrue(a + b, v) <==> SomeTrue(a, v) || SomeTrue(b, v)
  {
    forall f | f in a || f in b ensures f in a + b {}
    forall f | f in a + b ensures f in a || f in b {}
  }

  /** A conjunctive normal form multiplies out to itself. */
  lemma {:induction false} CnfProduct(f: Formula)
    requires IsCnf(f)
    ensures Product(f) == Count(f)
    ensures HasSingleton(f) <==> f.Or? && |f.kids| == 1
  {
    if f.Or? {
      forall i | 0 <= i < |f.kids| ensures f.kids[i].Leaf() { assert f.kids[i] in f.kids; }
      LeavesProduct(f.kids);
    }
  }

  lemma {:induction false} LeavesProduct(fs: seq<Formula>)
    requires forall i | 0 <= i < |fs| :: fs[i].Leaf()
    ensures ProductAll(fs) == 1
  {
    if |fs| > 0 { LeavesProduct(fs[1..]); }
  }

  lemma {:induction false} MulMono(a: nat, b: nat, c: nat, d: nat)
    requires a <= c && b <= d
    ensures a * b <= c * d
  {
    assert a * b <= c * b <= c * d;
  }

  // ---------- distribute ----------

  /** A disjunction with two arguments, balanced first if need be. */
  function Binary(f: Formula): (g: Formula)
    requires f.Or? && |f.kids| > 1
    ensures g.Or? && |g.kids| == 2
  {
    if |f.kids| == 2 then f else Bbt(f.kids)
  }

  lemma {:induction false} BinarySame(f: Formula)
    requires f.Or? && |f.kids| > 1
    ensures var g := Binary(f); Same(g, f) && g == Or([g.kids[0], g.kids[1]]) &&
                                Weight(g.kids[0]) + 1 + Weight(g.kids[1]) < Weight(f)
  {
    BbtSame(f.kids);
    Halves(f.kids);
    var g := Binary(f);
    assert g.kids == [g.kids[0], g.kids[1]];
    Two(g.kids[0], g.kids[1]);
  }

  /** The two halves of a disjunction distributed. */
  function Joined(a: Option<Formula>, b: Option<Formula>): Option<Formula> {
    if a.None? || b.None? then None else Some(TopOf(a.value, b.value))
  }

  /** None stands for misreading a disjunction with one argument: the source puts that argument in
      its place and takes the argument's own arguments, if any, for the two halves. */
  function Distributed(f: Formula): Option<Formula>
    decreases Weight(f)
  {
    if !f.Or? || |f.kids| == 0 then Some(f)
    else if |f.kids| == 1 then None
    else
      BinarySame(f);
      Joined(Distributed(Binary(f).kids[0]), Distributed(Binary(f).kids[1]))
  }

  /** The parts of a binary disjunction multiplied out. */
  lemma {:induction false} TwoMultiplied(x: Formula, y: Formula, a: Formula, b: Formula)
    requires Multiplied(a, x) && Multiplied(b, y)
    ensures Multiplied(TopOf(a, b), Or([x, y]))
  {
    var f, h := Or([x, y]), TopOf(a, b);
    Two(x, y);
    TopOk(a, b);
    if Distributable(f) {
      KidsDistributable(f);
      assert f.kids[0] == x && f.kids[1] == y;
      MulMono(Count(a), Count(b), Product(x), Product(y));
    }
    if Tame(f) { TameNode(f); }
  }

  lemma {:induction false} MultipliedSame(h: Formula, g: Formula, f: Formula)
    requires Multiplied(h, g) && Same(g, f)
    ensures Multiplied(h, f)
  {
    forall v: Valuation ensures Truth(h, v) <==> Truth(f, v) { assert Truth(h, v) <==> Truth(g, v); }
    forall x | HasLeaf(h, x) ensures HasLeaf(f, x) {}
  }

  /** Distribution fails exactly on a disjunction with one argument; otherwise the result is an
      equivalent normal form within the predicted number of clauses. */
  lemma {:induction false} DistributedOk(f: Formula)
    ensures Distributed(f).None? <==> HasSingleton(f)
    ensures Distributed(f).Some? ==> Multiplied(Distributed(f).value, f)
    decreases Weight(f)
  {
    if f.Or? && |f.kids| > 1 {
      BinarySame(f);
      var g := Binary(f);
      var x, y := g.kids[0], g.kids[1];
      DistributedOk(x);
      DistributedOk(y);
      Two(x, y);
      if Distributed(f).Some? {
        TwoMultiplied(x, y, Distributed(x).value, Distributed(y).value);
        MultipliedSame(Distributed(f).value, g, f);
      }
    }
  }

  /** A tree of disjunctions over tidy normal forms. */
  ghost predicate TidyTree(f: Formula) {
    if f.Or? then forall i | 0 <= i < |f.kids| :: TidyTree(f.kids[i]) else Tidy(f)
  }

  lemma {:induction false} TidyIsTree(f: Formula)
    requires Tidy(f)
    ensures TidyTree(f)
  {
    if f.Or? {
      forall i | 0 <= i < |f.kids| ensures TidyTree(f.kids[i]) { assert f.kids[i] in f.kids; }
    }
  }

  lemma {:induction false} BbtTidy(kids: seq<Formula>)
    requires |kids| > 0 && forall i | 0 <= i < |kids| :: TidyTree(kids[i])
    ensures TidyTree(Bbt(kids))
    decreases |kids|
  {
    if |kids| > 1 {
      Halves(kids);
      var m := (|kids| - 1) / 2 + 1;
      BbtTidy(kids[..m]);
      BbtTidy(kids[m..]);
    }
  }

  /** Distribution leaves no repetitions, complements or subsumed clauses. */
  lemma {:induction false} DistributedTidy(f: Formula)
    requires TidyTree(f) && Distributed(f).Some?
    ensures Tidy(Distributed(f).value)
    decreases Weight(f)
  {
    if f.Or? && |f.kids| > 1 {
      BinarySame(f);
      BbtTidy(f.kids);
      var g := Binary(f);
      DistributedTidy(g.kids[0]);
      DistributedTidy(g.kids[1]);
      TopTidy(Distributed(g.kids[0]).value, Distributed(g.kids[1]).value);
    }
  }

  /** The tree is balanced: 2^d formulas that are not disjunctions are at depth d at most. */
  function Power2(d: nat): nat {
    if d == 0 then 1 else 2 * Power2(d - 1)
  }

  predicate Shallow(f: Formula, d: nat) {
    f.Or? ==> d > 0 && forall i | 0 <= i < |f.kids| :: Shallow(f.kids[i], d - 1)
  }

  lemma {:induction false} BbtBalanced(kids: seq<Formula>, d: nat)
    requires 0 < |kids| <= Power2(d) && forall i | 0 <= i < |kids| :: !kids[i].Or?
    ensures Shallow(Bbt(kids), d)
    decreases |kids|
  {
    if |kids| > 1 {
      Halves(kids);
      var m := (|kids| - 1) / 2 + 1;
      assert d > 0 && Power2(d) == 2 * Power2(d - 1);
      BbtBalanced(kids[..m], d - 1);
      BbtBalanced(kids[m..], d - 1);
    }
  }

  /** Binary disjunctions being distributed, innermost first; `left` is the result for the first
      argument once the second is under way. */
  datatype Stack = Bottom | Frame(node: Formula, left: Option<Formula>, below: Stack)

  ghost predicate Paths(s: Stack) {
    s.Frame? ==> s.node.Or? && |s.node.kids| == 2 && Paths(s.below)
  }

  /** The result of the whole when the argument under way has result r. */
  ghost function Total(s: Stack, r: Option<Formula>): Option<Formula>
    requires Paths(s)
  {
    match s
    case Bottom => r
    case Frame(node, left, below) =>
      Total(below, if left.None? then Joined(r, Distributed(node.kids[1])) else Joined(left, r))
  }

  ghost function Waiting(s: Stack): nat {
    match s
    case Bottom => 0
    case Frame(node, left, below) =>
      (if left.None? && node.Or? && |node.kids| == 2 then 1 + Weight(node.kids[1]) else 0) + Waiting(below)
  }

  lemma {:induction false} TotalNone(s: Stack)
    requires Paths(s)
    ensures Total(s, None) == None
  {
    if s.Frame? { TotalNone(s.below); }
  }

  method Distribute(f: Formula) returns (r: Option<Formula>)
    ensures r == Distributed(f)
    ensures r.None? <==> HasSingleton(f)
    ensures r.Some? ==> Equivalent(r.value, f) && LeavesIn(r.value, f)
    ensures r.Some? && Distributable(f) ==> IsCnf(r.value) && Count(r.value) <= Product(f)
    ensures r.Some? && Tame(f) ==> Tame(r.value)
  {
    DistributedOk(f);
    var stack, cur := Bottom, f;
    while true
      invariant Paths(stack) && Total(stack, Distributed(cur)) == Distributed(f)
      decreases Weight(cur) + Waiting(stack)
    {
      if cur.Or? && |cur.kids| > 0 {
        if |cur.kids| == 1 {
          TotalNone(stack);
          return None;
        }
        BinarySame(cur);
        if |cur.kids| != 2 { cur := Bbt(cur.kids); }
        stack, cur := Frame(cur, None, stack), cur.kids[0];
      } else {
        var result := cur;
        ghost var waiting := Waiting(stack);
        while stack.Frame? && stack.left.Some?
          invariant Paths(stack) && Total(stack, Some(result)) == Distributed(f)
          invariant Waiting(stack) == waiting
          decreases stack
        {
          result := DistributeTop(stack.left.value, result);
          stack := stack.below;
        }
        if stack.Bottom? { return Some(result); }
        stack, cur := Frame(stack.node, Some(result), stack.below), stack.node.kids[1];
      }
    }
  }
}

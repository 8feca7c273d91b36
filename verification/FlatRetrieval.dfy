/** Retrieval of generalizations by walking a flatterm query through a discrimination tree:
    discrim_flat_retrieve_leaf, _first, _next and discrim_flat_cancel (ladr/flatdemod.c).

    A flatterm is the query in prefix order, one cell per symbol (ladr/flatterm.h).  The walk
    keeps its backtracking state in the cells: the siblings still to be tried there and the
    tree variable bound there.  `Back` reads off from those fields which leaves are still to
    come; every step of the walk is checked against it. */
module FlatRetrieval {
  import opened Options
  import opened Terms
  import opened DiscrimTree

  // ---------- Positions of a flatterm ----------

  /** For each position of the prefix order, the terms that start there: the next subterm first. */
  type Positions = seq<seq<Term>>


  ghost function Pends(pending: seq<Term>): (p: Positions)
    ensures |p| == SizeAll(pending)
    ensures |pending| > 0 ==> |p| > 0 && p[0] == pending
    decreases SizeAll(pending)
  {
    if |pending| == 0 then [] else
      PendingShrinks(pending);
      [pending] + Pends(Args(pending[0]) + pending[1..])
  }

  /** us is pending at position i; nothing is pending at the end. */
  ghost predicate At(p: Positions, i: nat, us: seq<Term>) {
    i <= |p| && if i < |p| then p[i] == us else us == []
  }

  lemma {:induction false} PendNext(pending: seq<Term>, i: nat)
    requires i < SizeAll(pending)
    ensures |Pends(pending)[i]| > 0
    ensures var us := Pends(pending)[i]; At(Pends(pending), i + 1, Args(us[0]) + us[1..])
    decreases SizeAll(pending)
  {
    PendingShrinks(pending);
    var next := Args(pending[0]) + pending[1..];
    if i > 0 {
      PendNext(next, i - 1);
    } else if |next| == 0 {
      assert SizeAll(next) == 0;
    } else {
      assert SizeAll(next) > 0 by { assert Size(next[0]) >= 1; }
    }
  }

  /** The arguments of the term at position i come next. */
  ghost predicate Follows(p: Positions, i: nat)
    requires i < |p| && |p[i]| > 0
  {
    At(p, i + 1, Args(p[i][0]) + p[i][1..])
  }

  ghost predicate Chained(p: Positions) {
    (forall i | 0 <= i < |p| :: |p[i]| > 0) && (forall i {:trigger Follows(p, i)} | 0 <= i < |p| :: Follows(p, i))
  }

  lemma {:induction false} PendChained(pending: seq<Term>)
    ensures Chained(Pends(pending))
  {
    var p := Pends(pending);
    forall i | 0 <= i < |p| ensures |p[i]| > 0 { PendNext(pending, i); }
    forall i | 0 <= i < |p| ensures Follows(p, i) { PendNext(pending, i); }
  }

  /** One cell further in a walk over the terms ts. */
  lemma {:induction false} StepOver(p: Positions, k: nat, ts: seq<Term>, v: seq<Term>)
    requires Chained(p) && At(p, k, ts + v) && |ts| > 0
    ensures k < |p| && |p[k]| > 0 && p[k][0] == ts[0]
    ensures At(p, k + 1, Args(ts[0]) + ts[1..] + v)
  {
    assert p[k] == ts + v && Follows(p, k);
    assert Args(ts[0]) + (ts + v)[1..] == Args(ts[0]) + ts[1..] + v;
  }

  /** Skipping whole terms. */
  lemma {:induction false} PendSkip(p: Positions, us: seq<Term>, i: nat, rest: seq<Term>)
    requires Chained(p) && At(p, i, us + rest)
    ensures At(p, i + SizeAll(us), rest)
    decreases SizeAll(us)
  {
    if |us| == 0 {
      assert us + rest == rest;
    } else {
      StepOver(p, i, us, rest);
      PendingShrinks(us);
      PendSkip(p, Args(us[0]) + us[1..], i + 1, rest);
    }
  }

  lemma {:induction false} SubtermEnd(p: Positions, i: nat)
    requires Chained(p) && i < |p|
    ensures At(p, i + Size(p[i][0]), p[i][1..])
  {
    var one, rest := [p[i][0]], p[i][1..];
    assert p[i] == one + rest;
    assert SizeAll(one) == Size(p[i][0]);
    PendSkip(p, one, i, rest);
  }

  // ---------- The state in the cells ----------

  /** A cell: its symbol, and the position of the last cell of its subterm. */
  datatype Cell = Cell(top: Label, end: nat)

  ghost predicate CellsOf(p: Positions, cells: seq<Cell>) {
    |cells| == |p| && forall i | 0 <= i < |p| ::
      |p[i]| > 0 && cells[i] == Cell(TopLabel(p[i][0]), i + Size(p[i][0]) - 1)
  }

  ghost predicate IsFlatterm(q: Term, cells: seq<Cell>) {
    CellsOf(Pends([q]), cells)
  }

  ghost function TermAt(p: Positions, i: nat): Term
    requires i < |p| && |p[i]| > 0
  {
    p[i][0]
  }

  type Alternatives<O> = seq<seq<Discrim<O>>>
  type Bound = seq<Option<nat>>
  type Context = map<nat, nat>   // tree variable -> position of the cell it is bound to

  ghost predicate Bounded(p: Positions, s: Context) {
    forall n | n in s :: s[n] < |p| && |p[s[n]]| > 0
  }

  ghost function Decode(p: Positions, s: Context): Subst
    requires Bounded(p, s)
  {
    map n | n in s :: TermAt(p, s[n])
  }

  function Unbind(s: Context, b: Option<nat>): Context {
    match b case None => s case Some(n) => s - {n}
  }

  /** Undo the bindings made at positions 1..f. */
  ghost function Unwind(s: Context, bound: Bound, f: int): Context
    requires f < |bound|
    decreases f
  {
    if f <= 0 then s else Unwind(Unbind(s, bound[f]), bound, f - 1)
  }

  /** Leaves still to come when the walk backtracks from position f. */
  ghost function Back<O>(p: Positions, alt: Alternatives<O>, bound: Bound, s: Context, f: int): seq<Hit<O>>
    requires f < |alt| == |bound| == |p| && Bounded(p, s)
    requires forall i | 0 <= i < |alt| :: |p[i]| > 0
    decreases f
  {
    if f <= 0 then [] else
      var s2 := Unbind(s, bound[f]);
      Enum(alt[f], p[f], Decode(p, s2)) + Back(p, alt, bound, s2, f - 1)
  }

  ghost predicate CleanAfter<O>(alt: Alternatives<O>, bound: Bound, f: int) {
    |alt| == |bound| && forall i | 0 <= i < |alt| && i > f :: alt[i] == [] && bound[i] == None
  }

  /** The context when only the first cell may have bound a variable. */
  function Base(b: Option<nat>): Context {
    match b case None => map[] case Some(n) => map[n := 0]
  }

  /** Well-formed state at position f: nothing right of f, alternatives that are lists of
      siblings for their position, and exactly the recorded bindings in the context. */
  ghost predicate Walk<O>(p: Positions, alt: Alternatives<O>, bound: Bound, s: Context, f: int) {
    && |alt| == |bound| == |p| && 0 <= f < |alt|
    && (forall i | 0 <= i < |alt| :: |p[i]| > 0 && FormedAll(alt[i], |p[i]|))
    && CleanAfter(alt, bound, f) && (bound[0] == None ==> alt[0] == [])
    && Bounded(p, s) && Unwind(s, bound, f) == Base(bound[0])
  }

  lemma {:induction false} UnwindFrame(s: Context, bound: Bound, bound2: Bound, f: int)
    requires f < |bound| == |bound2| && forall i | 0 <= i <= f :: bound[i] == bound2[i]
    ensures Unwind(s, bound, f) == Unwind(s, bound2, f)
    decreases f
  {
    if f > 0 { UnwindFrame(Unbind(s, bound[f]), bound, bound2, f - 1); }
  }

  lemma {:induction false} BackFrame<O>(p: Positions, alt: Alternatives<O>, bound: Bound, alt2: Alternatives<O>,
      bound2: Bound, s: Context, f: int)
    requires f < |alt| == |bound| == |p| && |alt2| == |bound2| == |alt| && Bounded(p, s)
    requires forall i | 0 <= i < |alt| :: |p[i]| > 0
    requires forall i | 0 <= i <= f :: bound[i] == bound2[i] && alt[i] == alt2[i]
    ensures Back(p, alt, bound, s, f) == Back(p, alt2, bound2, s, f)
    decreases f
  {
    if f > 0 { BackFrame(p, alt, bound, alt2, bound2, Unbind(s, bound[f]), f - 1); }
  }

  /** Cells without alternatives or bindings contribute nothing. */
  lemma {:induction false} SkipClean<O>(p: Positions, alt: Alternatives<O>, bound: Bound, s: Context, f: int, g: int)
    requires f <= g < |alt| == |bound| == |p| && Bounded(p, s)
    requires forall i | 0 <= i < |alt| :: |p[i]| > 0
    requires CleanAfter(alt, bound, f) && 0 <= f
    ensures Back(p, alt, bound, s, g) == Back(p, alt, bound, s, f)
    ensures Unwind(s, bound, g) == Unwind(s, bound, f)
    decreases g
  {
    if f < g { SkipClean(p, alt, bound, s, f, g - 1); }
  }

  lemma {:induction false} SkipLast<O>(p: Positions, alt: Alternatives<O>, bound: Bound, s: Context, f: int)
    requires 0 < f < |alt| == |bound| == |p| && Bounded(p, s)
    requires forall i | 0 <= i < |alt| :: |p[i]| > 0
    requires alt[f] == [] && bound[f] == None
    ensures Back(p, alt, bound, s, f) == Back(p, alt, bound, s, f - 1)
  {
    assert [] + Back(p, alt, bound, s, f - 1) == Back(p, alt, bound, s, f - 1);
  }

  // ---------- Sibling lists ----------

  lemma {:induction false} RestFormed<O>(kids: seq<Discrim<O>>, k: nat, need: nat)
    requires need > 0 && FormedAll(kids, need) && k <= |kids|
    ensures FormedAll(kids[k..], need)
  {
  }

  /** Among rigid siblings only the one with the right symbol matters. */
  lemma {:induction false} EnumRigid<O>(kids: seq<Discrim<O>>, pending: seq<Term>, s: Subst)
    requires |pending| > 0 && SortedKids(kids)
    requires |kids| > 0 ==> kids[0].mark.DRigid?
    ensures pending[0].Var? ==> Enum(kids, pending, s) == []
    ensures pending[0].App? ==>
              var k := Place(kids, TopLabel(pending[0]));
              Enum(kids, pending, s) ==
              if k < |kids| && kids[k].mark == TopLabel(pending[0]) then
                  Below(kids[k], pending[0].args + pending[1..], s) else []
  {
    if |kids| > 0 {
      if |kids| > 1 { assert LabelLess(kids[0].mark, kids[1].mark); }
      assert SortedKids(kids[1..]);
      EnumRigid(kids[1..], pending, s);
      if pending[0].App? && kids[0].mark == TopLabel(pending[0]) && |kids| > 1 {
        assert LabelLess(kids[0].mark, kids[1].mark);
        assert Place(kids[1..], TopLabel(pending[0])) == 0;
      }
    }
  }

  lemma {:induction false} DecodeBind(p: Positions, s: Context, n: nat, f: nat)
    requires Bounded(p, s) && f < |p| && |p[f]| > 0
    ensures Bounded(p, s[n := f]) && Decode(p, s[n := f]) == Decode(p, s)[n := TermAt(p, f)]
  {
  }

  // ---------- Weights, for termination ----------

  ghost function Weight<O>(kids: seq<Discrim<O>>): nat
    decreases kids, 0
  {
    if |kids| == 0 then 0 else NodeWeight(kids[0]) + Weight(kids[1..])
  }

  ghost function NodeWeight<O>(d: Discrim<O>): (w: nat)
    ensures w > 0
    decreases d, 1
  {
    1 + Weight(d.kids)
  }

  lemma {:induction false} WeightFrom<O>(kids: seq<Discrim<O>>, k: nat)
    requires k < |kids|
    ensures NodeWeight(kids[k]) + Weight(kids[k + 1..]) <= Weight(kids)
  {
    if k > 0 {
      WeightFrom(kids[1..], k - 1);
      assert kids[1..][k..] == kids[k + 1..];
    }
  }

  ghost function AltWeight<O>(alt: Alternatives<O>): nat {
    if |alt| == 0 then 0 else Weight(alt[0]) + AltWeight(alt[1..])
  }

  lemma {:induction false} AltWeightUpdate<O>(alt: Alternatives<O>, i: nat, kids: seq<Discrim<O>>)
    requires i < |alt|
    ensures AltWeight(alt[i := kids]) + Weight(alt[i]) == AltWeight(alt) + Weight(kids)
  {
    var a := alt[i := kids];
    if i == 0 {
      assert a[1..] == alt[1..];
    } else {
      assert a[1..] == alt[1..][i - 1 := kids];
      AltWeightUpdate(alt[1..], i - 1, kids);
    }
  }

  // ---------- One turn of the walk ----------

  /** Trying the siblings d at position f. */
  ghost predicate Going<O>(p: Positions, alt: Alternatives<O>, bound: Bound, s: Context, f: int, d: seq<Discrim<O>>) {
    && Walk(p, alt, bound, s, f) && alt[f] == [] && bound[f] == None
    && |d| > 0 && FormedAll(d, |p[f]|)
  }

  /** The siblings that the walk gets to at the first cell.  After a variable there it never comes
      back to the others, because backtracking stops at that cell. */
  function Tried<O>(d: seq<Discrim<O>>): (r: seq<Discrim<O>>)
    ensures |d| > 0 ==> |r| > 0 && r[0] == d[0]
  {
    if |d| > 0 && d[0].mark.DVar? then d[..1] else d
  }

  function RootBinding<O>(d: seq<Discrim<O>>): Option<nat> {
    if |d| > 0 && d[0].mark.DVar? then Some(d[0].mark.n) else None
  }

  ghost function GoTodo<O>(p: Positions, alt: Alternatives<O>, bound: Bound, s: Context, f: int,
      d: seq<Discrim<O>>): seq<Hit<O>>
    requires Going(p, alt, bound, s, f, d)
  {
    Enum(if f == 0 then Tried(d) else d, p[f], Decode(p, s)) + Back(p, alt, bound, s, f)
  }

  lemma {:induction false} SkipWalk<O>(p: Positions, alt: Alternatives<O>, bound: Bound, s: Context, f: int, g: int)
    requires Walk(p, alt, bound, s, f) && f <= g < |alt|
    ensures Walk(p, alt, bound, s, g) && Back(p, alt, bound, s, g) == Back(p, alt, bound, s, f)
  {
    SkipClean(p, alt, bound, s, f, g);
  }

  /** After tree node d matched the terms up to the last position: a leaf. */
  lemma {:induction false} AtLeaf<O>(p: Positions, alt: Alternatives<O>, bound: Bound, s: Context, f: int,
      d: Discrim<O>, rest: seq<Term>)
    requires Walk(p, alt, bound, s, f)
    requires At(p, |alt|, rest) && Formed(d, |rest|)
    ensures Walk(p, alt, bound, s, |alt| - 1) && |d.data| > 0
    ensures Below(d, rest, Decode(p, s)) + Back(p, alt, bound, s, f) ==
              [(d.data, Decode(p, s))] + Back(p, alt, bound, s, |alt| - 1)
  {
    SkipWalk(p, alt, bound, s, f, |alt| - 1);
    assert rest == [];
  }

  /** After tree node d matched the terms up to position g: go on with its kids. */
  lemma {:induction false} GoOn<O>(p: Positions, alt: Alternatives<O>, bound: Bound, s: Context, f: int, g: int,
      d: Discrim<O>, rest: seq<Term>)
    requires Walk(p, alt, bound, s, f) && f <= g && g + 1 < |alt|
    requires At(p, g + 1, rest) && Formed(d, |rest|)
    ensures Going(p, alt, bound, s, g + 1, d.kids)
    ensures Below(d, rest, Decode(p, s)) + Back(p, alt, bound, s, f) == GoTodo(p, alt, bound, s, g + 1, d.kids)
  {
    SkipWalk(p, alt, bound, s, f, g + 1);
    assert rest == p[g + 1];
  }

  /** Below a kid that matches the first pending term, the rest and its arguments are spelled. */
  lemma {:induction false} KidFormed<O>(pending: seq<Term>, d: seq<Discrim<O>>, k: nat)
    requires |pending| > 0 && FormedAll(d, |pending|) && k < |d|
    ensures d[k].mark.DVar? ==> Formed(d[k], |pending[1..]|)
    ensures d[k].mark == TopLabel(pending[0]) ==> Formed(d[k], |Args(pending[0]) + pending[1..]|)
  {
    var need := After(|pending|, d[k].mark);
    assert Formed(d[k], need);
    if d[k].mark == TopLabel(pending[0]) { assert need == |Args(pending[0]) + pending[1..]|; }
  }

  lemma {:induction false} AlternativesFormed<O>(p: Positions, alt: Alternatives<O>, bound: Bound, s: Context, f: int,
      d: seq<Discrim<O>>)
    requires Going(p, alt, bound, s, f, d)
    ensures FormedAll(d[1..], |p[f]|)
    ensures Formed(d[0], After(|p[f]|, d[0].mark))
  {
    RestFormed(d, 1, |p[f]|);
  }

  /** A variable that is already bound: remember the siblings. */
  lemma {:induction false} TryBound<O>(p: Positions, alt: Alternatives<O>, bound: Bound, s: Context, f: int,
      d: seq<Discrim<O>>)
    requires Going(p, alt, bound, s, f, d) && d[0].mark.DVar? && d[0].mark.n in s
    ensures f > 0
    ensures var alt2 := alt[f := d[1..]];
            Walk(p, alt2, bound, s, f) &&
            GoTodo(p, alt, bound, s, f, d) ==
            (if TermAt(p, s[d[0].mark.n]) == TermAt(p, f) then Below(d[0], p[f][1..], Decode(p, s)) else [])
            + Back(p, alt2, bound, s, f)
  {
    var alt2 := alt[f := d[1..]];
    AlternativesFormed(p, alt, bound, s, f, d);
    BackFrame(p, alt, bound, alt2, bound, s, f - 1);
    TrySiblings(p, alt, bound, s, f, d, alt2, bound, s);
  }

  /** Moving the siblings from d into the state. */
  lemma {:induction false} TrySiblings<O>(p: Positions, alt: Alternatives<O>, bound: Bound, s: Context, f: int,
      d: seq<Discrim<O>>,
                       alt2: Alternatives<O>, bound2: Bound, s2: Context)
    requires Going(p, alt, bound, s, f, d) && (f == 0 ==> d[0].mark.DVar?)
    requires |alt2| == |bound2| == |alt| && Bounded(p, s2) && Unbind(s2, bound2[f]) == s
    requires alt2[f] == d[1..] && (f > 0 ==> Back(p, alt2, bound2, s, f - 1) == Back(p, alt, bound, s, f - 1))
    ensures GoTodo(p, alt, bound, s, f, d) ==
            EnumNode(d[0], p[f], Decode(p, s)) + Back(p, alt2, bound2, s2, f)
  {
    var m := Decode(p, s);
    if f == 0 {
      assert d[..1][1..] == [];
      assert Enum(d[..1], p[f], m) == EnumNode(d[0], p[f], m) + [];
      return;
    }
    var x, y, z := EnumNode(d[0], p[f], m), Enum(d[1..], p[f], m), Back(p, alt, bound, s, f - 1);
    assert Back(p, alt, bound, s, f) == z by { SkipLast(p, alt, bound, s, f); }
    assert Back(p, alt2, bound2, s2, f) == y + z;
    assert (x + y) + z == x + (y + z);
  }

  lemma {:induction false} NodeBinds<O>(d: Discrim<O>, p: Positions, s: Context, f: int)
    requires Bounded(p, s) && 0 <= f < |p| && |p[f]| > 0 && d.mark.DVar? && d.mark.n !in s
    ensures Bounded(p, s[d.mark.n := f])
    ensures EnumNode(d, p[f], Decode(p, s)) == Below(d, p[f][1..], Decode(p, s[d.mark.n := f]))
  {
    DecodeBind(p, s, d.mark.n, f);
  }

  lemma {:induction false} UnbindNew(s: Context, n: nat, f: nat)
    requires n !in s
    ensures Unbind(s[n := f], Some(n)) == s
  {
  }

  lemma {:induction false} BindWalk<O>(p: Positions, alt: Alternatives<O>, bound: Bound, s: Context, f: int,
      d: seq<Discrim<O>>, n: nat)
    requires Walk(p, alt, bound, s, f) && bound[f] == None && n !in s
    requires FormedAll(d, |p[f]|)
    ensures Walk(p, alt[f := d], bound[f := Some(n)], s[n := f], f)
  {
    var bound2, s2 := bound[f := Some(n)], s[n := f];
    UnbindNew(s, n, f);
    if f > 0 { UnwindFrame(s, bound, bound2, f - 1); }
  }

  /** A free variable: bind it to the current position and remember the siblings. */
  lemma {:induction false} TryFree<O>(p: Positions, alt: Alternatives<O>, bound: Bound, s: Context, f: int,
      d: seq<Discrim<O>>)
    requires Going(p, alt, bound, s, f, d) && d[0].mark.DVar? && d[0].mark.n !in s
    ensures var n := d[0].mark.n;
            var alt2, bound2, s2 := alt[f := d[1..]], bound[f := Some(n)], s[n := f];
            Walk(p, alt2, bound2, s2, f) &&
            GoTodo(p, alt, bound, s, f, d) ==
            Below(d[0], p[f][1..], Decode(p, s2)) + Back(p, alt2, bound2, s2, f)
  {
    var n := d[0].mark.n;
    var alt2, bound2, s2 := alt[f := d[1..]], bound[f := Some(n)], s[n := f];
    assert Walk(p, alt2, bound2, s2, f) by {
      AlternativesFormed(p, alt, bound, s, f, d);
      BindWalk(p, alt, bound, s, f, d[1..], n);
    }
    NodeBinds(d[0], p, s, f);
    UnbindNew(s, n, f);
    assert bound2[f] == Some(n) && alt2[f] == d[1..];
    assert Unbind(s2, bound2[f]) == s;
    if f > 0 { BackFrame(p, alt, bound, alt2, bound2, s, f - 1); }
    TrySiblings(p, alt, bound, s, f, d, alt2, bound2, s2);
  }

  /** Rigid siblings: only the one with the symbol of the cell can match. */
  lemma {:induction false} TryRigid<O>(p: Positions, alt: Alternatives<O>, bound: Bound, s: Context, f: int,
      d: seq<Discrim<O>>)
    requires Going(p, alt, bound, s, f, d) && d[0].mark.DRigid?
    ensures var t := TermAt(p, f);
            var k := Place(d, TopLabel(t));
            GoTodo(p, alt, bound, s, f, d) ==
            (if t.App? && k < |d| && d[k].mark == TopLabel(t) then Below(d[k], t.args + p[f][1..], Decode(p, s))
                else [])
            + Back(p, alt, bound, s, f)
  {
    EnumRigid(d, p[f], Decode(p, s));
  }

  lemma {:induction false} UnbindWalk<O>(p: Positions, alt: Alternatives<O>, bound: Bound, s: Context, f: int)
    requires Walk(p, alt, bound, s, f) && f > 0
    ensures Walk(p, alt[f := []], bound[f := None], Unbind(s, bound[f]), f)
  {
    var bound2, s2 := bound[f := None], Unbind(s, bound[f]);
    UnwindFrame(s2, bound, bound2, f - 1);
  }

  /** Backtracking to a cell: undo its binding and take its siblings. */
  lemma {:induction false} TakeUp<O>(p: Positions, alt: Alternatives<O>, bound: Bound, s: Context, f: int)
    requires Walk(p, alt, bound, s, f) && f > 0 && alt[f] != []
    ensures var alt2, bound2, s2 := alt[f := []], bound[f := None], Unbind(s, bound[f]);
            Going(p, alt2, bound2, s2, f, alt[f]) &&
            Back(p, alt, bound, s, f) == GoTodo(p, alt2, bound2, s2, f, alt[f])
  {
    var alt2, bound2, s2 := alt[f := []], bound[f := None], Unbind(s, bound[f]);
    UnbindWalk(p, alt, bound, s, f);
    BackFrame(p, alt, bound, alt2, bound2, s2, f - 1);
    SkipLast(p, alt2, bound2, s2, f);
  }

  /** Backtracking over a cell with no siblings left. */
  lemma {:induction false} PassOver<O>(p: Positions, alt: Alternatives<O>, bound: Bound, s: Context, f: int)
    requires Walk(p, alt, bound, s, f) && f > 0 && alt[f] == []
    ensures var bound2, s2 := bound[f := None], Unbind(s, bound[f]);
            Walk(p, alt, bound2, s2, f - 1) && Back(p, alt, bound, s, f) == Back(p, alt, bound2, s2, f - 1)
  {
    var bound2, s2 := bound[f := None], Unbind(s, bound[f]);
    UnwindFrame(s2, bound, bound2, f - 1);
    BackFrame(p, alt, bound, alt, bound2, s2, f - 1);
  }

  // ---------- The walk itself ----------

  /** Comparing labels in lock step compares two lists of terms that start at a and b. */
  lemma {:induction false} SameLabels(ts: seq<Term>, us: seq<Term>)
    requires |ts| == |us| > 0
    ensures TopLabel(ts[0]) != TopLabel(us[0]) ==> ts != us
    ensures TopLabel(ts[0]) == TopLabel(us[0]) ==>
              |Args(ts[0])| == |Args(us[0])| &&
              (ts == us <==> Args(ts[0]) + ts[1..] == Args(us[0]) + us[1..])
  {
    if TopLabel(ts[0]) == TopLabel(us[0]) {
      var x, y, v, w := Args(ts[0]), Args(us[0]), ts[1..], us[1..];
      assert ts == [ts[0]] + v && us == [us[0]] + w;
      if x + v == y + w {
        assert x == (x + v)[..|x|] == y && v == (x + v)[|x|..] == w;
      }
    }
  }

  lemma {:induction false} NoTerms(ts: seq<Term>)
    ensures SizeAll(ts) == 0 <==> |ts| == 0
  {
    if |ts| > 0 { assert Size(ts[0]) >= 1; }
  }

  /** After i cells in lock step from positions a and b: what is left of both terms. */
  ghost predicate Abreast(p: Positions, a: nat, b: nat, i: nat, ts: seq<Term>, us: seq<Term>, v: seq<Term>,
      w: seq<Term>)
    requires a < |p| && b < |p| && |p[a]| > 0 && |p[b]| > 0
  {
    && |ts| == |us| && i + SizeAll(ts) == Size(p[a][0])
    && At(p, a + i, ts + v) && At(p, b + i, us + w)
    && (ts == us <==> p[a][0] == p[b][0])
  }

  lemma {:induction false} AbreastStep(p: Positions, a: nat, b: nat, i: nat, ts: seq<Term>, us: seq<Term>,
      v: seq<Term>, w: seq<Term>)
    requires Chained(p) && a < |p| && b < |p| && Abreast(p, a, b, i, ts, us, v, w) && |ts| > 0
    ensures a + i < |p| && p[a + i][0] == ts[0] && b + i < |p| && p[b + i][0] == us[0]
    ensures TopLabel(ts[0]) != TopLabel(us[0]) ==> p[a][0] != p[b][0]
    ensures TopLabel(ts[0]) == TopLabel(us[0]) ==>
              Abreast(p, a, b, i + 1, Args(ts[0]) + ts[1..], Args(us[0]) + us[1..], v, w)
  {
    SameLabels(ts, us);
    StepOver(p, a + i, ts, v);
    StepOver(p, b + i, us, w);
    PendingShrinks(ts);
  }

  /** flatterm_ident: are the subterms at positions a and b the same? */
  method FlatIdent(ghost p: Positions, cells: seq<Cell>, a: nat, b: nat) returns (same: bool)
    requires Chained(p) && CellsOf(p, cells) && a < |cells| && b < |cells|
    ensures same <==> p[a][0] == p[b][0]
  {
    ghost var ts, us, v, w := [p[a][0]], [p[b][0]], p[a][1..], p[b][1..];
    assert p[a] == ts + v && p[b] == us + w && SizeAll(ts) == Size(p[a][0]);
    var i := 0;
    while a + i <= cells[a].end
      invariant Abreast(p, a, b, i, ts, us, v, w)
    {
      NoTerms(ts);
      AbreastStep(p, a, b, i, ts, us, v, w);
      if cells[a + i].top != cells[b + i].top { return false; }
      ts, us, i := Args(ts[0]) + ts[1..], Args(us[0]) + us[1..], i + 1;
    }
    NoTerms(ts);
    return true;
  }

  /** A query with the fields of its cells and the context of the retrieval. */
  class Query<O> {
    ghost const q: Term
    ghost const p: Positions
    const cells: seq<Cell>
    var alternative: Alternatives<O>
    var boundTo: Bound
    var subst: Context
    var data: seq<O>   // the current object and the rest of its leaf

    ghost predicate Valid() {
      Chained(p) && CellsOf(p, cells) && |p| > 0 && p[0] == [q]
    }

    /** Nothing tried, nothing bound. */
    ghost predicate Clean()
      reads this
    {
      Valid() && subst == map[] && |alternative| == |boundTo| == |cells| &&
      forall i | 0 <= i < |cells| :: alternative[i] == [] && boundTo[i] == None
    }

    ghost predicate Walking(f: int)
      reads this
    {
      Valid() && Walk(p, alternative, boundTo, subst, f)
    }

    /** The leaves still to come, with the substitution each is found under. */
    ghost function ToCome(f: int): seq<Hit<O>>
      requires Walking(f)
      reads this
    {
      Back(p, alternative, boundTo, subst, f)
    }

    ghost function Found(): Subst
      requires Valid() && Bounded(p, subst)
      reads this
    {
      Decode(p, subst)
    }

    constructor (t: Term, cells: seq<Cell>)
      requires IsFlatterm(t, cells)
      ensures q == t && this.cells == cells && Clean()
    {
      q, p, this.cells := t, Pends([t]), cells;
      alternative := seq(|cells|, i => []);
      boundTo := seq(|cells|, i => None);
      subst, data := map[], [];
      PendChained([t]);
      NoTerms([t]);
    }

    /** The tree variable bound to the first cell. */
    ghost function Root(): Option<nat>
      reads this
    {
      if |boundTo| > 0 then boundTo[0] else None
    }

    lemma {:induction false} CleanIsStart()
      requires Clean()
      ensures Walking(0) && Found() == map[] && ToCome(0) == [] && p[0] == [q]
    {
    }

    /** Back at the first cell: clean, unless that cell has bound a variable. */
    lemma {:induction false} StartIsClean()
      requires Walking(0)
      ensures (Clean() <==> Root() == None) && ToCome(0) == []
    {
    }

    method MaybeUnbind(f: nat)
      requires f < |boundTo|
      modifies this`boundTo, this`subst
      ensures boundTo == old(boundTo)[f := None] && subst == Unbind(old(subst), old(boundTo[f]))
    {
      match boundTo[f]
      case None =>
      case Some(n) => subst := subst - {n}; boundTo := boundTo[f := None];
    }

    /** Back to the nearest cell at or left of f0 with siblings to try, undoing bindings. */
    method Backtrack(f0: nat) returns (f: nat, d: seq<Discrim<O>>)
      requires Walking(f0)
      modifies this
      ensures Root() == old(Root())
      ensures f == 0 ==> Walking(0) && old(ToCome(f0)) == []
      ensures f > 0 ==> Valid() && Going(p, alternative, boundTo, subst, f, d) &&
                        old(ToCome(f0)) == GoTodo(p, alternative, boundTo, subst, f, d)
      ensures f > 0 ==> old(AltWeight(alternative)) == AltWeight(alternative) + Weight(d)
    {
      f, d := f0, [];
      while f != 0 && alternative[f] == []
        invariant Walking(f) && ToCome(f) == old(ToCome(f0)) && alternative == old(alternative) && Root() == old(Root())
        decreases f
      {
        PassOver(p, alternative, boundTo, subst, f);
        MaybeUnbind(f);
        f := f - 1;
      }
      if f == 0 {
        StartIsClean();
      } else {
        TakeUp(p, alternative, boundTo, subst, f);
        AltWeightUpdate(alternative, f, []);
        MaybeUnbind(f);
        d := alternative[f];
        alternative := alternative[f := []];
      }
    }

    lemma {:induction false} EndOf(f: nat)
      requires Valid() && f < |p|
      ensures f <= cells[f].end < |p| && At(p, cells[f].end + 1, p[f][1..])
    {
      SubtermEnd(p, f);
    }

    /** A tree variable matches a free cell, or one with the term it is bound to. */
    method TryVariable(f: nat, d: seq<Discrim<O>>) returns (ok: bool)
      requires Valid() && Going(p, alternative, boundTo, subst, f, d) && d[0].mark.DVar?
      modifies this
      ensures Walking(f) && alternative == old(alternative)[f := d[1..]]
      ensures Root() == if f == 0 then RootBinding(d) else old(Root())
      ensures old(GoTodo(p, alternative, boundTo, subst, f, d)) ==
              (if ok then Below(d[0], p[f][1..], Found()) else []) + ToCome(f)
    {
      var n := d[0].mark.n;
      if n in subst {
        TryBound(p, alternative, boundTo, subst, f, d);
        ok := FlatIdent(p, cells, f, subst[n]);
        alternative := alternative[f := d[1..]];
      } else {
        TryFree(p, alternative, boundTo, subst, f, d);
        subst := subst[n := f];
        boundTo := boundTo[f := Some(n)];
        alternative := alternative[f := d[1..]];
        ok := true;
      }
    }

    /** Among rigid siblings, the one with the symbol of the cell. */
    method TryRigidKids(f: nat, d: seq<Discrim<O>>) returns (ok: bool, e: Discrim<O>, ghost rest: seq<Term>)
      requires Valid() && Going(p, alternative, boundTo, subst, f, d) && d[0].mark.DRigid?
      ensures ok ==> At(p, f + 1, rest) && Formed(e, |rest|) && NodeWeight(e) <= Weight(d)
      ensures GoTodo(p, alternative, boundTo, subst, f, d) == (if ok then Below(e, rest, Found()) else []) + ToCome(f)
    {
      ok, e, rest := false, d[0], [];
      TryRigid(p, alternative, boundTo, subst, f, d);
      var top := cells[f].top;
      if top.DRigid? {
        var k := Place(d, top);
        if k < |d| && d[k].mark == top {
          ok, e, rest := true, d[k], Args(p[f][0]) + p[f][1..];
          WeightFrom(d, k);
          KidFormed(p[f], d, k);
          assert Follows(p, f);
        }
      }
    }

    /** Try the siblings d at position f: does one of them match, up to position g? */
    method Try(f: nat, d: seq<Discrim<O>>, ghost todo: seq<Hit<O>>)
      returns (ok: bool, g: nat, e: Discrim<O>, ghost rest: seq<Term>)
      requires Valid() && Going(p, alternative, boundTo, subst, f, d) &&
                todo == GoTodo(p, alternative, boundTo, subst, f, d)
      modifies this
      ensures Walking(f) && Root() == if f == 0 then RootBinding(d) else old(Root())
      ensures !ok ==> ToCome(f) == todo
      ensures ok ==>
                f <= g < |p| && At(p, g + 1, rest) && Formed(e, |rest|) &&
                todo == Below(e, rest, Found()) + ToCome(f)
      ensures AltWeight(alternative) + (if ok then NodeWeight(e) - 1 else 0) < old(AltWeight(alternative)) + Weight(d)
    {
      g, e, rest := f, d[0], p[f][1..];
      AlternativesFormed(p, alternative, boundTo, subst, f, d);
      if d[0].mark.DVar? {
        WeightFrom(d, 0);
        KidFormed(p[f], d, 0);
        AltWeightUpdate(alternative, f, d[1..]);
        EndOf(f);
        g := cells[f].end;
        ok := TryVariable(f, d);
      } else {
        ok, e, rest := TryRigidKids(f, d);
      }
    }
 
    /** About to try the siblings d at position f, or about to backtrack from there. */
    ghost predicate State(go: bool, f: int, d: seq<Discrim<O>>)
      reads this
    {
      if go then Valid() && Going(p, alternative, boundTo, subst, f, d) else Walking(f)
    }

    ghost function Todo(go: bool, f: int, d: seq<Discrim<O>>): seq<Hit<O>>
      requires State(go, f, d)
      reads this
    {
      if go then GoTodo(p, alternative, boundTo, subst, f, d) else ToCome(f)
    }

    ghost function Work(go: bool, d: seq<Discrim<O>>): nat
      reads this
    {
      AltWeight(alternative) + if go then Weight(d) else 0
    }

    lemma {:induction false} LeafReached(f: nat, e: Discrim<O>, rest: seq<Term>)
      requires Walking(f) && At(p, |cells|, rest) && Formed(e, |rest|)
      ensures Walking(|cells| - 1) && |e.data| > 0
      ensures Below(e, rest, Found()) + ToCome(f) == [(e.data, Found())] + ToCome(|cells| - 1)
    {
      AtLeaf(p, alternative, boundTo, subst, f, e, rest);
    }

    lemma {:induction false} KidsNext(f: nat, g: nat, e: Discrim<O>, rest: seq<Term>)
      requires Walking(f) && f <= g && g + 1 < |cells| && At(p, g + 1, rest) && Formed(e, |rest|)
      ensures State(true, g + 1, e.kids) && Weight(e.kids) == NodeWeight(e) - 1
      ensures Below(e, rest, Found()) + ToCome(f) == Todo(true, g + 1, e.kids)
    {
      GoOn(p, alternative, boundTo, subst, f, g, e, rest);
    }

    /** Try the siblings d at position f, and go on to the next position or stop at a leaf. */
    method Forward(f0: nat, d0: seq<Discrim<O>>, ghost todo: seq<Hit<O>>)
      returns (leaf: Option<seq<O>>, go: bool, f: nat, d: seq<Discrim<O>>)
      requires State(true, f0, d0) && todo == Todo(true, f0, d0)
      modifies this
      ensures Root() == if f0 == 0 then RootBinding(d0) else old(Root())
      ensures leaf.None? ==> State(go, f, d) && Todo(go, f, d) == todo && Work(go, d) < old(Work(true, d0))
      ensures leaf.None? && go ==> f > 0
      ensures leaf.Some? ==>
                Walking(|cells| - 1) && |leaf.value| > 0 &&
                todo == [(leaf.value, Found())] + ToCome(|cells| - 1)
    {
      var e, g; ghost var rest;
      leaf, f, d := None, f0, d0;
      go, g, e, rest := Try(f0, d0, todo);
      if go {
        if g + 1 == |cells| {
          LeafReached(f0, e, rest);
          leaf := Some(e.data);
        } else {
          KidsNext(f0, g, e, rest);
          f, d := g + 1, e.kids;
        }
      } else {
        assert Todo(false, f, d) == ToCome(f0);
      }
    }

    /** What a retrieval from the root gets to. */
    ghost function Reached(root: seq<Discrim<O>>): seq<Hit<O>> {
      Enum(Tried(root), [q], map[])
    }

    /** discrim_flat_retrieve_leaf: the first leaf of the tree (root given), or the next one after
        the last leaf found (root absent).  On failure nothing is left bound but the first cell. */
    method RetrieveLeaf(root: Option<seq<Discrim<O>>>) returns (leaf: Option<seq<O>>)
      requires root.Some? ==> Clean() && FormedAll(root.value, 1)
      requires root.None? ==> Walking(|cells| - 1)
      modifies this
      ensures Root() == if root.Some? then RootBinding(root.value) else old(Root())
      ensures leaf.None? ==> Walking(0) && [] == if root.Some? then Reached(root.value) else old(ToCome(|cells| - 1))
      ensures leaf.Some? ==> Walking(|cells| - 1) && |leaf.value| > 0 &&
                             [(leaf.value, Found())] + ToCome(|cells| - 1) ==
                             if root.Some? then Reached(root.value) else old(ToCome(|cells| - 1))
    {
      var go, f, d := false, |cells| - 1, [];
      leaf := None;
      if root.Some? {
        CleanIsStart();
        if root.value == [] { return; }
        go, f, d := true, 0, root.value;
        FromRoot(d);
      }
      ghost var todo := Todo(go, f, d);
      while true
        invariant leaf.None? && State(go, f, d) && todo == Todo(go, f, d)
        invariant if go && f == 0 then root == Some(d) && Root() == None
                  else Root() == if root.Some? then RootBinding(root.value) else old(Root())
        decreases Work(go, d)
      {
        if !go {
          f, d := Backtrack(f);
          if f == 0 { return; }
        }
        leaf, go, f, d := Forward(f, d, todo);
        if leaf.Some? { return; }
      }
    }

    lemma {:induction false} FromRoot(kids: seq<Discrim<O>>)
      requires Clean() && FormedAll(kids, 1) && |kids| > 0
      ensures State(true, 0, kids) && Todo(true, 0, kids) == Reached(kids)
    {
      CleanIsStart();
      assert Todo(true, 0, kids) == Enum(Tried(kids), p[0], Found()) + [];
    }

    /** Stopped at an object. */
    ghost predicate Active()
      reads this
    {
      Walking(|cells| - 1) && |data| > 0
    }

    /** The current answer and those still to come. */
    ghost function Rest(): (r: seq<(O, Subst)>)
      requires Active()
      reads this
      ensures |r| > 0 && r[0] == (data[0], Found())
    {
      Spread(data, Found()) + Answers(ToCome(|cells| - 1))
    }

    lemma {:induction false} AtNewLeaf(leaf: seq<O>, todo: seq<Hit<O>>)
      requires Walking(|cells| - 1) && todo == [(leaf, Found())] + ToCome(|cells| - 1)
      ensures Answers(todo) == Spread(leaf, Found()) + Answers(ToCome(|cells| - 1))
    {
    }

    /** discrim_flat_retrieve_first */
    method RetrieveFirst(root: seq<Discrim<O>>) returns (o: Option<O>)
      requires Clean() && FormedAll(root, 1)
      modifies this
      ensures Root() == RootBinding(root)
      ensures o.None? ==> Walking(0) && Answers(Reached(root)) == []
      ensures o.Some? ==> Active() && Rest() == Answers(Reached(root)) && Rest()[0] == (o.value, Found())
    {
      var leaf := RetrieveLeaf(Some(root));
      match leaf
      case None => o := None;
      case Some(d) =>
        AtNewLeaf(d, Reached(root));
        data := d;
        o := Some(d[0]);
    }

    /** discrim_flat_retrieve_next: the next object of the leaf, or the first of the next leaf. */
    method RetrieveNext() returns (o: Option<O>)
      requires Active()
      modifies this
      ensures Root() == old(Root())
      ensures o.None? ==> Walking(0) && old(Rest())[1..] == []
      ensures o.Some? ==> Active() && Rest() == old(Rest())[1..] && Rest()[0] == (o.value, Found())
    {
      if |data| > 1 {
        assert Spread(data, Found())[1..] == Spread(data[1..], Found());
        data := data[1..];
        o := Some(data[0]);
      } else {
        ghost var todo := ToCome(|cells| - 1);
        assert Rest()[1..] == Answers(todo);
        var leaf := RetrieveLeaf(None);
        match leaf
        case None => o := None;
        case Some(d) =>
          AtNewLeaf(d, todo);
          data := d;
          o := Some(d[0]);
      }
    }

    /** discrim_flat_cancel: clear every cell of the query from the last position back. */
    method Cancel()
      requires Active()
      modifies this
      ensures Clean()
    {
      var f := |cells| - 1;
      while f >= 0
        invariant -1 <= f && if f < 0 then Clean() else Walking(f)
      {
        if f > 0 { ClearCell(f); }
        MaybeUnbind(f);
        alternative := alternative[f := []];
        f := f - 1;
      }
    }

    lemma {:induction false} ClearCell(f: nat)
      requires Walking(f) && f > 0
      ensures Walk(p, alternative[f := []], boundTo[f := None], Unbind(subst, boundTo[f]), f - 1)
    {
      UnbindWalk(p, alternative, boundTo, subst, f);
      PassOver(p, alternative[f := []], boundTo[f := None], Unbind(subst, boundTo[f]), f);
    }

    lemma {:induction false} Current(o: O, before: seq<(O, Subst)>)
      requires Active() && o == data[0]
      ensures before + Rest() == before + [(o, Found())] + Rest()[1..]
    {
    }

    /** The first answer and all that follow; the query is clean again exactly when the tree has no
        variable at its root. */
    method RetrieveAll(root: seq<Discrim<O>>) returns (objects: seq<O>, ghost answers: seq<(O, Subst)>)
      requires Clean() && FormedAll(root, 1)
      modifies this
      ensures answers == Answers(Reached(root)) && (Clean() <==> RootBinding(root) == None)
      ensures |objects| == |answers| && forall i | 0 <= i < |objects| :: objects[i] == answers[i].0
    {
      objects, answers := [], [];
      ghost var all := Answers(Reached(root));
      var o := RetrieveFirst(root);
      while o.Some?
        invariant |objects| == |answers| && forall i | 0 <= i < |objects| :: objects[i] == answers[i].0
        invariant o.Some? ==> Active() && o.value == data[0] && answers + Rest() == all
        invariant o.None? ==> Walking(0) && answers == all
        invariant Root() == RootBinding(root)
        decreases |all| - |answers|, o
      {
        Current(o.value, answers);
        objects, answers := objects + [o.value], answers + [(o.value, Found())];
        o := RetrieveNext();
      }
      StartIsClean();
    }
  }

  /** What a retrieval misses: all answers below the other kids of the root, if the first kid is a
      variable. */
  lemma {:induction false} Missed<O>(kids: seq<Discrim<O>>, q: Term)
    requires FormedAll(kids, 1)
    ensures var all, got := Answers(Enum(kids, [q], map[])), Answers(Enum(Tried(kids), [q], map[]));
            var lost := if RootBinding(kids).Some? then Answers(Enum(kids[1..], [q], map[])) else [];
            all == got + lost && (got == all <==> lost == [])
  {
    if RootBinding(kids).Some? {
      var x, y := EnumNode(kids[0], [q], map[]), Enum(kids[1..], [q], map[]);
      assert kids[..1][1..] == [];
      assert Enum(kids[..1], [q], map[]) == x + [] == x;
      AnswersConcat(x, y);
    }
  }
}

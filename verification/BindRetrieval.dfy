/** Retrieval of generalizations of an ordinary term: discrim_bind_retrieve_leaf, _first, _next
    and discrim_bind_cancel (ladr/discrimb.c).

    The query is laid out in a doubly linked chain of cells only as far as the walk needs it: a
    cell holds the place of a whole complex term until a rigid kid of the tree has to look at its
    arguments, and then a new cell takes the symbol and the old cell becomes the last argument.
    The chain is kept here as two lists that meet at the current cell; a `last` pointer is the
    name of a cell.  As in FlatRetrieval, `Back` reads off from the cells which leaves are still
    to come. */
module BindRetrieval {
  import opened Options
  import opened Terms
  import opened DiscrimTree
  import F = FlatRetrieval

  datatype Flat2<O> = Flat2(id: nat, t: Term, placeHolder: bool, last: nat, alternatives: seq<Discrim<O>>,
      bound: Option<nat>)

  datatype Cells<O> = Nil | Cons(head: Flat2<O>, tail: Cells<O>)

  function Fresh<O>(id: nat, t: Term): Flat2<O> {
    Flat2(id, t, Args(t) != [], id, [], None)
  }

  // ---------- What a chain spells, and where its pointers lead ----------

  /** Number of cells' terms that follow as arguments of this one. */
  function Width<O>(c: Flat2<O>): nat {
    if c.placeHolder then 0 else |Args(c.t)|
  }

  /** The terms pending at cell c, when us are pending after it. */
  ghost function Pend<O>(c: Flat2<O>, us: seq<Term>): (r: seq<Term>)
    ensures |r| > 0 && r[0] == c.t
  {
    [c.t] + if Width(c) <= |us| then us[Width(c)..] else []
  }

  ghost function Spelled<O>(ch: Cells<O>): seq<Term> {
    match ch case Nil => [] case Cons(c, r) => Pend(c, Spelled(r))
  }

  /** The cell at which `need` more terms end, after cell id. */
  ghost function LastOf<O>(ch: Cells<O>, need: nat, id: nat): nat {
    if need == 0 || ch.Nil? then id else LastOf(ch.tail, need - 1 + Width(ch.head), ch.head.id)
  }

  ghost function Ids<O>(ch: Cells<O>): set<nat> {
    match ch case Nil => {} case Cons(c, r) => {c.id} + Ids(r)
  }

  /** A cell before the chain r: its arguments, if laid out, come next, and `last` ends its term. */
  ghost predicate Good<O>(c: Flat2<O>, r: Cells<O>, n: nat) {
    && c.id < n && c.id !in Ids(r) && (c.placeHolder ==> Args(c.t) != [])
    && Width(c) <= |Spelled(r)| && Spelled(r)[..Width(c)] == (if c.placeHolder then [] else Args(c.t))
    && c.last == LastOf(r, Width(c), c.id)
  }

  ghost predicate GoodChain<O>(ch: Cells<O>, n: nat) {
    ch.Cons? ==> Good(ch.head, ch.tail, n) && GoodChain(ch.tail, n)
  }

  /** The cells left of the chain, nearest first. */
  ghost predicate GoodTrail<O>(tr: Cells<O>, ch: Cells<O>, n: nat) {
    tr.Cons? ==> Good(tr.head, ch, n) && GoodTrail(tr.tail, Cons(tr.head, ch), n)
  }

  ghost predicate Untouched<O>(ch: Cells<O>) {
    ch.Cons? ==> ch.head.alternatives == [] && ch.head.bound == None && Untouched(ch.tail)
  }

  /** Two chains that look the same to every cell before them. */
  ghost predicate Alike<O>(x: Cells<O>, y: Cells<O>, n: nat) {
    && Spelled(x) == Spelled(y)
    && (forall i | i in Ids(y) :: i in Ids(x) || i >= n)
    && (forall need: nat, id: nat :: LastOf(x, need, id) == LastOf(y, need, id))
  }

  lemma {:induction false} Replace<O>(tr: Cells<O>, x: Cells<O>, y: Cells<O>, n: nat, m: nat)
    requires GoodTrail(tr, x, n) && Alike(x, y, n) && n <= m
    ensures GoodTrail(tr, y, m)
    decreases tr
  {
    if tr.Cons? {
      var c := tr.head;
      assert LastOf(x, Width(c), c.id) == LastOf(y, Width(c), c.id);
      forall need: nat, id: nat ensures LastOf(Cons(c, x), need, id) == LastOf(Cons(c, y), need, id) {
        if need > 0 { assert LastOf(x, need - 1 + Width(c), c.id) == LastOf(y, need - 1 + Width(c), c.id); }
      }
      Replace(tr.tail, Cons(c, x), Cons(c, y), n, m);
    }
  }

  /** Alternatives and bindings are not part of the layout. */
  lemma {:induction false} Retouch<O>(tr: Cells<O>, ch: Cells<O>, n: nat, alt: seq<Discrim<O>>, bound: Option<nat>)
    requires tr.Cons? && GoodTrail(tr, ch, n)
    ensures GoodTrail(Cons(tr.head.(alternatives := alt, bound := bound), tr.tail), ch, n)
  {
    var c, c2 := tr.head, tr.head.(alternatives := alt, bound := bound);
    forall need: nat, id: nat ensures LastOf(Cons(c, ch), need, id) == LastOf(Cons(c2, ch), need, id) {}
    Replace(tr.tail, Cons(c, ch), Cons(c2, ch), n, n);
  }

  // ---------- The leaves still to come ----------

  function Undo(s: Subst, bound: Option<nat>): Subst {
    match bound case None => s case Some(n) => s - {n}
  }

  ghost function Unwound<O>(tr: Cells<O>, s: Subst): Subst {
    match tr case Nil => s case Cons(c, up) => Unwound(up, Undo(s, c.bound))
  }

  /** Leaves still to come when the walk backtracks over the trail. */
  ghost function Back<O>(tr: Cells<O>, us: seq<Term>, s: Subst): seq<Hit<O>> {
    match tr
    case Nil => []
    case Cons(c, up) =>
      var s2, p := Undo(s, c.bound), Pend(c, us);
      Enum(c.alternatives, p, s2) + Back(up, p, s2)
  }

  ghost predicate Kept<O>(tr: Cells<O>, us: seq<Term>) {
    tr.Cons? ==> FormedAll(tr.head.alternatives, |Pend(tr.head, us)|) && Kept(tr.tail, Pend(tr.head, us))
  }

  ghost predicate Walk<O>(tr: Cells<O>, ch: Cells<O>, s: Subst, n: nat) {
    && GoodTrail(tr, ch, n) && GoodChain(ch, n) && Untouched(ch)
    && Kept(tr, Spelled(ch)) && Unwound(tr, s) == map[]
  }

  /** About to try the siblings d at the current cell. */
  ghost predicate Trying<O>(tr: Cells<O>, ch: Cells<O>, s: Subst, n: nat, d: seq<Discrim<O>>) {
    && Walk(tr, ch, s, n) && tr.Cons? && tr.head.alternatives == [] && tr.head.bound == None
    && FormedAll(d, |Pend(tr.head, Spelled(ch))|)
  }

  ghost function Todo<O>(tr: Cells<O>, ch: Cells<O>, s: Subst, d: seq<Discrim<O>>): seq<Hit<O>>
    requires tr.Cons?
  {
    var p := Pend(tr.head, Spelled(ch));
    Enum(d, p, s) + Back(tr.tail, p, s)
  }

  ghost function TrailWeight<O>(tr: Cells<O>): nat {
    match tr case Nil => 0 case Cons(c, up) => F.Weight(c.alternatives) + TrailWeight(up)
  }

  // ---------- Steps ----------

  lemma {:induction false} PassOver<O>(tr: Cells<O>, ch: Cells<O>, s: Subst, n: nat)
    requires Walk(tr, ch, s, n) && tr.Cons? && tr.head.alternatives == []
    ensures var s2, ch2 := Undo(s, tr.head.bound), Cons(tr.head.(bound := None), ch);
            Walk(tr.tail, ch2, s2, n) && Back(tr, Spelled(ch), s) == Back(tr.tail, Spelled(ch2), s2) &&
            TrailWeight(tr) == TrailWeight(tr.tail)
  {
    Retouch(tr, ch, n, [], None);
    assert Pend(tr.head.(bound := None), Spelled(ch)) == Pend(tr.head, Spelled(ch));
  }

  lemma {:induction false} TakeUp<O>(tr: Cells<O>, ch: Cells<O>, s: Subst, n: nat)
    requires Walk(tr, ch, s, n) && tr.Cons?
    ensures var s2, tr2 := Undo(s, tr.head.bound), Cons(tr.head.(alternatives := [], bound := None), tr.tail);
            Trying(tr2, ch, s2, n, tr.head.alternatives) &&
            Back(tr, Spelled(ch), s) == Todo(tr2, ch, s2, tr.head.alternatives) &&
            TrailWeight(tr) == TrailWeight(tr2) + F.Weight(tr.head.alternatives)
  {
    Retouch(tr, ch, n, [], None);
    var c2 := tr.head.(alternatives := [], bound := None);
    assert Pend(c2, Spelled(ch)) == Pend(tr.head, Spelled(ch));
  }

  /** One cell further right, without alternatives. */
  lemma {:induction false} StepRight<O>(tr: Cells<O>, ch: Cells<O>, s: Subst, n: nat)
    requires Walk(tr, ch, s, n) && ch.Cons?
    ensures Walk(Cons(ch.head, tr), ch.tail, s, n)
    ensures Back(Cons(ch.head, tr), Spelled(ch.tail), s) == Back(tr, Spelled(ch), s)
    ensures Todo(Cons(ch.head, tr), ch.tail, s, []) == Back(tr, Spelled(ch), s)
    ensures TrailWeight(Cons(ch.head, tr)) == TrailWeight(tr)
  {
  }

  /** Tree node e matched the current term; what is pending after that term is still to be matched. */
  ghost predicate Matched<O>(tr: Cells<O>, ch: Cells<O>, s: Subst, n: nat, e: Discrim<O>, todo: seq<Hit<O>>) {
    && Walk(tr, ch, s, n) && tr.Cons?
    && var us := Pend(tr.head, Spelled(ch))[1..];
       Formed(e, |us|) && todo == Below(e, us, s) + Back(tr, Spelled(ch), s)
  }

  /** A variable kid: it matches if it is free, or bound to the same term; the siblings are kept. */
  lemma {:induction false} VariableKid<O>(tr: Cells<O>, ch: Cells<O>, s: Subst, n: nat, d: seq<Discrim<O>>)
    requires Trying(tr, ch, s, n, d) && |d| > 0 && d[0].mark.DVar?
    ensures var v := d[0].mark.n;
            var isBound := v in s;
            if isBound && s[v] != tr.head.t then
              Trying(tr, ch, s, n, d[1..]) && Todo(tr, ch, s, d) == Todo(tr, ch, s, d[1..])
            else
              var s2 := if isBound then s else s[v := tr.head.t];
              var tr2 := Cons(tr.head.(alternatives := d[1..], bound := if isBound then None else Some(v)), tr.tail);
              Matched(tr2, ch, s2, n, d[0], Todo(tr, ch, s, d)) &&
                  TrailWeight(tr2) == TrailWeight(tr) + F.Weight(d[1..])
  {
    var v, p := d[0].mark.n, Pend(tr.head, Spelled(ch));
    F.RestFormed(d, 1, |p|);
    F.KidFormed(p, d, 0);
    var x, y, z := EnumNode(d[0], p, s), Enum(d[1..], p, s), Back(tr.tail, p, s);
    assert (x + y) + z == x + (y + z);
    if v in s && s[v] != tr.head.t {
      assert x == [] && [] + (y + z) == y + z;
    } else {
      var bound := if v in s then None else Some(v);
      var s2 := if v in s then s else s[v := tr.head.t];
      assert Undo(s2, bound) == s;
      Retouch(tr, ch, n, d[1..], bound);
      var tr2 := Cons(tr.head.(alternatives := d[1..], bound := bound), tr.tail);
      assert Pend(tr2.head, Spelled(ch)) == p;
    }
  }

  /** Among rigid siblings only the one with the symbol of the cell counts. */
  lemma {:induction false} RigidKid<O>(tr: Cells<O>, ch: Cells<O>, s: Subst, n: nat, d: seq<Discrim<O>>)
    requires Trying(tr, ch, s, n, d) && (|d| > 0 ==> d[0].mark.DRigid?)
    ensures var t, p := tr.head.t, Pend(tr.head, Spelled(ch));
            var k := Place(d, TopLabel(t));
            if t.App? && k < |d| && d[k].mark == TopLabel(t) then
              Formed(d[k], |Args(t) + p[1..]|) && F.NodeWeight(d[k]) <= F.Weight(d) &&
              Todo(tr, ch, s, d) == Below(d[k], Args(t) + p[1..], s) + Back(tr, Spelled(ch), s)
            else Todo(tr, ch, s, d) == Back(tr, Spelled(ch), s)
  {
    var t, p := tr.head.t, Pend(tr.head, Spelled(ch));
    F.EnumRigid(d, p, s);
    assert Back(tr, Spelled(ch), s) == [] + Back(tr.tail, p, s) == Back(tr.tail, p, s);
    var k := Place(d, TopLabel(t));
    if t.App? && k < |d| && d[k].mark == TopLabel(t) {
      F.KidFormed(p, d, k);
      F.WeightFrom(d, k);
    }
  }

  // ---------- Laying out the arguments of a place holder ----------

  /** The cells for arguments i.. of cell f, in front of the chain ch of what followed f: new
      cells numbered from n, and cell f itself for the last argument. */
  function Laid<O>(f: Flat2<O>, ch: Cells<O>, n: nat, i: nat): Cells<O>
    requires i <= |Args(f.t)|
    decreases |Args(f.t)| - i
  {
    var args := Args(f.t);
    if i == |args| then ch
    else Cons(Fresh(if i + 1 == |args| then f.id else n + 1 + i, args[i]), Laid(f, ch, n, i + 1))
  }

  lemma {:induction false} GoodGrows<O>(ch: Cells<O>, n: nat, m: nat)
    requires GoodChain(ch, n) && n <= m
    ensures GoodChain(ch, m) && forall i | i in Ids(ch) :: i < n
  {
    if ch.Cons? { GoodGrows(ch.tail, n, m); }
  }

  lemma {:induction false} LaidIds<O>(f: Flat2<O>, ch: Cells<O>, n: nat, i: nat)
    requires i <= |Args(f.t)|
    ensures forall j | j in Ids(Laid(f, ch, n, i)) ::
              j in Ids(ch) || (i < |Args(f.t)| && j == f.id) || n + 1 + i <= j < n + |Args(f.t)|
    decreases |Args(f.t)| - i
  {
    if i < |Args(f.t)| { LaidIds(f, ch, n, i + 1); }
  }

  lemma {:induction false} FirstArgument(args: seq<Term>, i: nat, us: seq<Term>)
    requires i < |args|
    ensures [args[i]] + (args[i + 1..] + us) == args[i..] + us
  {
  }

  lemma {:induction false} FreshSpells<O>(id: nat, t: Term, x: Cells<O>)
    ensures Spelled(Cons(Fresh<O>(id, t), x)) == [t] + Spelled(x)
  {
    assert Spelled(x)[0..] == Spelled(x);
  }

  lemma {:induction false} LaidSpells<O>(f: Flat2<O>, ch: Cells<O>, n: nat, i: nat)
    requires i <= |Args(f.t)|
    ensures Spelled(Laid(f, ch, n, i)) == Args(f.t)[i..] + Spelled(ch)
    decreases |Args(f.t)| - i
  {
    var args, us := Args(f.t), Spelled(ch);
    if i == |args| {
      assert args[i..] + us == us;
    } else {
      LaidSpells(f, ch, n, i + 1);
      FreshSpells(if i + 1 == |args| then f.id else n + 1 + i, args[i], Laid(f, ch, n, i + 1));
      FirstArgument(args, i, us);
    }
  }

  lemma {:induction false} FreshGood<O>(id: nat, t: Term, x: Cells<O>, n: nat)
    requires id < n && id !in Ids(x)
    ensures Good(Fresh<O>(id, t), x, n)
  {
    assert Spelled(x)[..0] == [];
  }

  lemma {:induction false} LaidGood<O>(f: Flat2<O>, ch: Cells<O>, n: nat, i: nat)
    requires i <= |Args(f.t)| && GoodChain(ch, n) && Untouched(ch) && f.id < n && f.id !in Ids(ch)
    ensures var x := Laid(f, ch, n, i); GoodChain(x, n + 1 + |Args(f.t)|) && Untouched(x)
    decreases |Args(f.t)| - i
  {
    var args := Args(f.t);
    GoodGrows(ch, n, n + 1 + |args|);
    if i < |args| {
      LaidGood(f, ch, n, i + 1);
      LaidIds(f, ch, n, i + 1);
      FreshGood(if i + 1 == |args| then f.id else n + 1 + i, args[i], Laid(f, ch, n, i + 1), n + 1 + |args|);
    }
  }

  /** Past the arguments, the chain goes on as it did after cell f. */
  lemma {:induction false} LaidLast<O>(f: Flat2<O>, ch: Cells<O>, n: nat, i: nat, need: nat, id: nat)
    requires i < |Args(f.t)|
    ensures LastOf(Laid(f, ch, n, i), need + (|Args(f.t)| - i), id) == LastOf(ch, need, f.id)
    decreases |Args(f.t)| - i
  {
    if i + 1 < |Args(f.t)| { LaidLast(f, ch, n, i + 1, need, n + 1 + i); }
  }

  /** The new cell in front of its arguments is good. */
  lemma {:induction false} SkeletonGood<O>(f: Flat2<O>, ch: Cells<O>, n: nat)
    requires GoodChain(ch, n) && Good(f, ch, n) && f.placeHolder
    ensures Good(Flat2(n, f.t, false, f.id, [], None), Laid(f, ch, n, 0), n + 1 + |Args(f.t)|)
  {
    var args, us := Args(f.t), Spelled(ch);
    LaidSpells(f, ch, n, 0);
    LaidIds(f, ch, n, 0);
    GoodGrows(ch, n, n);
    assert args[0..] == args && (args + us)[..|args|] == args;
    LaidLast(f, ch, n, 0, 0, n);
  }

  /** It looks as the place holder did. */
  lemma {:induction false} SkeletonAlike<O>(f: Flat2<O>, ch: Cells<O>, n: nat)
    requires f.placeHolder && Args(f.t) != []
    ensures Alike(Cons(f, ch), Cons(Flat2(n, f.t, false, f.id, [], None), Laid(f, ch, n, 0)), n)
  {
    var c: Flat2<O> := Flat2(n, f.t, false, f.id, [], None);
    var x, args, us := Laid(f, ch, n, 0), Args(f.t), Spelled(ch);
    LaidSpells(f, ch, n, 0);
    LaidIds(f, ch, n, 0);
    assert args[0..] == args && us[0..] == us && (args + us)[|args|..] == us;
    forall need: nat, id: nat ensures LastOf(Cons(f, ch), need, id) == LastOf(Cons(c, x), need, id) {
      if need > 0 { LaidLast(f, ch, n, 0, need - 1, n); }
    }
  }

  lemma {:induction false} LayTrail<O>(f: Flat2<O>, up: Cells<O>, ch: Cells<O>, n: nat)
    requires GoodTrail(Cons(f, up), ch, n) && GoodChain(ch, n) && f.placeHolder
    ensures GoodTrail(Cons(Flat2(n, f.t, false, f.id, [], None), up), Laid(f, ch, n, 0), n + 1 + |Args(f.t)|)
  {
    var c: Flat2<O> := Flat2(n, f.t, false, f.id, [], None);
    SkeletonAlike(f, ch, n);
    SkeletonGood(f, ch, n);
    Replace(up, Cons(f, ch), Cons(c, Laid(f, ch, n, 0)), n, n + 1 + |Args(f.t)|);
  }

  /** The place holder replaced, unseen by the cells before. */
  lemma {:induction false} LayOut<O>(tr: Cells<O>, ch: Cells<O>, s: Subst, n: nat)
    requires Walk(tr, ch, s, n) && tr.Cons? && tr.head.placeHolder && tr.head.alternatives == [] &&
              tr.head.bound == None
    ensures var f := tr.head;
            var tr2, x := Cons(Flat2(n, f.t, false, f.id, [], None), tr.tail), Laid(f, ch, n, 0);
            Walk(tr2, x, s, n + 1 + |Args(f.t)|) && Spelled(x) == Args(f.t) + Pend(f, Spelled(ch))[1..] &&
            Back(tr2, Spelled(x), s) == Back(tr, Spelled(ch), s) && TrailWeight(tr2) == TrailWeight(tr)
  {
    var f := tr.head;
    var c: Flat2<O> := Flat2(n, f.t, false, f.id, [], None);
    var x := Laid(f, ch, n, 0);
    assert Good(f, ch, n);
    LaidGood(f, ch, n, 0);
    LaidSpells(f, ch, n, 0);
    LayTrail(f, tr.tail, ch, n);
    assert Args(f.t)[0..] == Args(f.t);
    SamePending(f, c, tr.tail, Spelled(ch), Spelled(x), s);
  }

  lemma {:induction false} SamePending<O>(f: Flat2<O>, c: Flat2<O>, up: Cells<O>, us: seq<Term>, vs: seq<Term>,
      s: Subst)
    requires f.placeHolder && !c.placeHolder && c.t == f.t && vs == Args(f.t) + us
    requires c.alternatives == f.alternatives == [] && c.bound == f.bound == None
    ensures vs == Args(f.t) + Pend(f, us)[1..]
    ensures Kept(Cons(f, up), us) ==> Kept(Cons(c, up), vs)
    ensures Back(Cons(c, up), vs, s) == Back(Cons(f, up), us, s)
  {
    assert us[0..] == us && vs[|Args(f.t)|..] == us;
    assert Pend(c, vs) == Pend(f, us);
  }

  // ---------- Following a `last` pointer ----------

  /** On the way from the current cell to the cell `last`: the terms `need` and then us are ahead. */
  ghost predicate Seeking<O>(tr: Cells<O>, ch: Cells<O>, last: nat, need: nat, us: seq<Term>) {
    && tr.Cons? && need <= |Spelled(ch)| && Spelled(ch)[need..] == us
    && last == LastOf(ch, need, tr.head.id)
  }

  lemma {:induction false} LastAhead<O>(ch: Cells<O>, need: nat, id: nat)
    requires need > 0 && need <= |Spelled(ch)|
    ensures LastOf(ch, need, id) in Ids(ch)
  {
    var c := ch.head;
    assert Spelled(ch) == Pend(c, Spelled(ch.tail));
    if need - 1 + Width(c) > 0 {
      if Width(c) <= |Spelled(ch.tail)| {
        LastAhead(ch.tail, need - 1 + Width(c), c.id);
      } else {
        LastShort(ch.tail, need - 1 + Width(c), c.id);
      }
    }
  }

  lemma {:induction false} LastShort<O>(ch: Cells<O>, need: nat, id: nat)
    ensures LastOf(ch, need, id) == id || LastOf(ch, need, id) in Ids(ch)
  {
    if need > 0 && ch.Cons? { LastShort(ch.tail, need - 1 + Width(ch.head), ch.head.id); }
  }

  lemma {:induction false} SeekRight<O>(tr: Cells<O>, ch: Cells<O>, s: Subst, n: nat, last: nat, need: nat,
      us: seq<Term>)
    requires Walk(tr, ch, s, n) && Seeking(tr, ch, last, need, us)
    ensures need == 0 <==> tr.head.id == last
    ensures need == 0 ==> Spelled(ch) == us
    ensures need > 0 ==> ch.Cons? && Seeking(Cons(ch.head, tr), ch.tail, last, need - 1 + Width(ch.head), us)
  {
    if need > 0 {
      LastAhead(ch, need, tr.head.id);
      assert Good(tr.head, ch, n);
      var c, r := ch.head, Spelled(ch.tail);
      assert r[Width(c)..][need - 1..] == r[need - 1 + Width(c)..];
      assert Spelled(ch)[need..] == Spelled(ch)[1..][need - 1..];
    }
  }

  /** The state while seeking: the leaves still to come stay the same. */
  ghost predicate Sought<O>(tr: Cells<O>, ch: Cells<O>, s: Subst, n: nat, last: nat, need: nat, us: seq<Term>,
      todo: seq<Hit<O>>, w: nat) {
    && Walk(tr, ch, s, n) && Seeking(tr, ch, last, need, us)
    && Back(tr, Spelled(ch), s) == todo && TrailWeight(tr) == w
  }

  lemma {:induction false} SeekStart<O>(tr: Cells<O>, ch: Cells<O>, s: Subst, n: nat)
    requires Walk(tr, ch, s, n) && tr.Cons?
    ensures Sought(tr, ch, s, n, tr.head.last, Width(tr.head), Pend(tr.head, Spelled(ch))[1..],
              Back(tr, Spelled(ch), s), TrailWeight(tr))
  {
  }

  lemma {:induction false} SeekOn<O>(tr: Cells<O>, ch: Cells<O>, s: Subst, n: nat, last: nat, need: nat, us: seq<Term>,
      todo: seq<Hit<O>>, w: nat)
    requires Sought(tr, ch, s, n, last, need, us, todo, w) && tr.head.id != last
    ensures need > 0 && ch.Cons? &&
            Sought(Cons(ch.head, tr), ch.tail, s, n, last, need - 1 + Width(ch.head), us, todo, w)
  {
    SeekRight(tr, ch, s, n, last, need, us);
    StepRight(tr, ch, s, n);
  }

  /** Go to the last cell of the current term. */
  method SeekLast<O>(trail: Cells<O>, ahead: Cells<O>, ghost s: Subst, ghost n: nat)
    returns (tr: Cells<O>, ch: Cells<O>)
    requires Walk(trail, ahead, s, n) && trail.Cons?
    ensures Walk(tr, ch, s, n) && tr.Cons? && TrailWeight(tr) == TrailWeight(trail)
    ensures Back(tr, Spelled(ch), s) == Back(trail, Spelled(ahead), s)
    ensures Spelled(ch) == Pend(trail.head, Spelled(ahead))[1..]
  {
    var last := trail.head.last;
    ghost var us := Pend(trail.head, Spelled(ahead))[1..];
    ghost var need: nat := Width(trail.head);
    ghost var todo, w := Back(trail, Spelled(ahead), s), TrailWeight(trail);
    SeekStart(trail, ahead, s, n);
    tr, ch := trail, ahead;
    while tr.head.id != last
      invariant Sought(tr, ch, s, n, last, need, us, todo, w)
      decreases ch
    {
      SeekOn(tr, ch, s, n, last, need, us, todo, w);
      need := need - 1 + Width(ch.head);
      tr, ch := Cons(ch.head, tr), ch.tail;
    }
    SeekRight(tr, ch, s, n, last, need, us);
  }

  // ---------- The walk ----------

  /** A query with its chain of cells and the substitution of the retrieval. */
  class BindQuery<O> {
    const t: Term
    var trail: Cells<O>   // the current cell and those before it, nearest first
    var ahead: Cells<O>
    var gets: nat         // cells made so far
    var subst: Subst
    var data: seq<O>      // the current object and the rest of its leaf

    constructor (t: Term)
      ensures this.t == t && Clean()
    {
      this.t := t;
      trail, ahead, gets, subst, data := Nil, Nil, 0, map[], [];
    }

    /** Nothing bound, nothing to try. */
    ghost predicate Clean()
      reads this
    {
      trail == Nil && subst == map[]
    }

    ghost predicate Walking()
      reads this
    {
      Walk(trail, ahead, subst, gets)
    }

    /** The leaves still to come, with the substitution each is found under. */
    ghost function ToCome(): seq<Hit<O>>
      reads this
    {
      Back(trail, Spelled(ahead), subst)
    }

    ghost predicate At(d: seq<Discrim<O>>)
      reads this
    {
      Trying(trail, ahead, subst, gets, d)
    }

    ghost function TodoAt(d: seq<Discrim<O>>): seq<Hit<O>>
      requires trail.Cons?
      reads this
    {
      Todo(trail, ahead, subst, d)
    }

    method UnbindHead()
      requires trail.Cons?
      modifies this`trail, this`subst
      ensures trail == Cons(old(trail).head.(bound := None), old(trail).tail)
      ensures subst == Undo(old(subst), old(trail).head.bound)
    {
      match trail.head.bound
      case None =>
      case Some(n) =>
        subst := subst - {n};
        trail := Cons(trail.head.(bound := None), trail.tail);
    }

    /** Back to the nearest cell with siblings to try, undoing bindings. */
    method Backtrack() returns (d: seq<Discrim<O>>)
      requires Walking()
      modifies this
      ensures trail == Nil ==> Clean() && old(ToCome()) == []
      ensures trail != Nil ==>
                |d| > 0 && At(d) && TodoAt(d) == old(ToCome()) &&
                TrailWeight(trail) + F.Weight(d) == old(TrailWeight(trail))
    {
      d := [];
      while trail.Cons? && trail.head.alternatives == []
        invariant Walking() && ToCome() == old(ToCome()) && TrailWeight(trail) == old(TrailWeight(trail))
        decreases trail
      {
        PassOver(trail, ahead, subst, gets);
        UnbindHead();
        trail, ahead := trail.tail, Cons(trail.head, ahead);
      }
      if trail.Cons? {
        TakeUp(trail, ahead, subst, gets);
        UnbindHead();
        d := trail.head.alternatives;
        trail := Cons(trail.head.(alternatives := []), trail.tail);
      }
    }

    /** Move to the last cell of the current term. */
    method FollowLast()
      requires Walking() && trail.Cons?
      modifies this`trail, this`ahead
      ensures Walking() && trail.Cons? && ToCome() == old(ToCome()) && TrailWeight(trail) == old(TrailWeight(trail))
      ensures Spelled(ahead) == old(Pend(trail.head, Spelled(ahead))[1..])
    {
      trail, ahead := SeekLast(trail, ahead, subst, gets);
    }

    /** Lay out the arguments of the current place holder behind a new cell for its symbol. */
    method InsertSkeleton()
      requires Walking() && trail.Cons? && trail.head.placeHolder
      requires trail.head.alternatives == [] && trail.head.bound == None
      modifies this`trail, this`ahead, this`gets
      ensures Walking() && trail.Cons? && ToCome() == old(ToCome()) && TrailWeight(trail) == old(TrailWeight(trail))
      ensures Spelled(ahead) == Args(old(trail).head.t) + old(Pend(trail.head, Spelled(ahead))[1..])
    {
      LayOut(trail, ahead, subst, gets);
      var f := trail.head;
      var args := Args(f.t);
      var i: nat, x := |args|, ahead;
      while i > 0
        invariant i <= |args| && x == Laid(f, ahead, gets, i)
      {
        i := i - 1;
        x := Cons(Fresh(if i + 1 == |args| then f.id else gets + 1 + i, args[i]), x);
      }
      trail := Cons(Flat2(gets, f.t, false, f.id, [], None), trail.tail);
      ahead, gets := x, gets + 1 + |args|;
    }

    /** One variable kid: bind it if it is free, else compare. */
    method TryVariable(d: seq<Discrim<O>>) returns (ok: bool)
      requires At(d) && |d| > 0 && d[0].mark.DVar?
      modifies this`trail, this`subst
      ensures ok ==> trail.Cons? && Matched(trail, ahead, subst, gets, d[0], old(TodoAt(d))) &&
                     TrailWeight(trail) == old(TrailWeight(trail)) + F.Weight(d[1..])
      ensures !ok ==> trail == old(trail) && subst == old(subst) && At(d[1..]) && TodoAt(d[1..]) == old(TodoAt(d))
    {
      VariableKid(trail, ahead, subst, gets, d);
      var v := d[0].mark.n;
      if v in subst {
        ok := subst[v] == trail.head.t;
        if ok { trail := Cons(trail.head.(alternatives := d[1..], bound := None), trail.tail); }
      } else {
        ok := true;
        subst := subst[v := trail.head.t];
        trail := Cons(trail.head.(alternatives := d[1..], bound := Some(v)), trail.tail);
      }
    }

    /** The first variable sibling that matches the current term, or the siblings after them all. */
    method TryVariables(d0: seq<Discrim<O>>) returns (ok: bool, d: seq<Discrim<O>>)
      requires At(d0)
      modifies this`trail, this`subst
      ensures trail.Cons?
      ensures ok ==> |d| > 0 && Matched(trail, ahead, subst, gets, d[0], old(TodoAt(d0))) &&
                     TrailWeight(trail) + F.NodeWeight(d[0]) <= old(TrailWeight(trail)) + F.Weight(d0)
      ensures !ok ==> At(d) && TodoAt(d) == old(TodoAt(d0)) && (|d| > 0 ==> d[0].mark.DRigid?) &&
                      trail == old(trail) && subst == old(subst) && F.Weight(d) <= F.Weight(d0)
    {
      ok, d := false, d0;
      ghost var todo := TodoAt(d0);
      while !ok && d != [] && d[0].mark.DVar?
        invariant trail.Cons?
        invariant !ok ==>
                  At(d) && TodoAt(d) == todo && trail == old(trail) && subst == old(subst) &&
                  F.Weight(d) <= F.Weight(d0)
        invariant ok ==> |d| > 0 && Matched(trail, ahead, subst, gets, d[0], todo) &&
                         TrailWeight(trail) + F.NodeWeight(d[0]) <= old(TrailWeight(trail)) + F.Weight(d0)
        decreases !ok, |d|
      {
        F.WeightFrom(d, 0);
        ok := TryVariable(d);
        if !ok { d := d[1..]; }
      }
    }

    /** Try the siblings d at the current cell; on success the terms below the node are ahead. */
    method Try(d0: seq<Discrim<O>>) returns (node: Option<Discrim<O>>)
      requires At(d0)
      modifies this
      ensures Walking() && trail.Cons?
      ensures node.None? ==> ToCome() == old(TodoAt(d0)) && TrailWeight(trail) == old(TrailWeight(trail))
      ensures node.Some? ==> Formed(node.value, |Spelled(ahead)|) &&
                             Below(node.value, Spelled(ahead), subst) + ToCome() == old(TodoAt(d0)) &&
                             TrailWeight(trail) + F.NodeWeight(node.value) <= old(TrailWeight(trail)) + F.Weight(d0)
    {
      var ok, d := TryVariables(d0);
      if ok {
        FollowLast();
        return Some(d[0]);
      }
      RigidKid(trail, ahead, subst, gets, d);
      if trail.head.t.Var? { return None; }
      var k := Place(d, TopLabel(trail.head.t));
      if k == |d| || d[k].mark != TopLabel(trail.head.t) { return None; }
      if trail.head.placeHolder {
        InsertSkeleton();
      } else {
        SkeletonThere(trail, ahead, gets);
      }
      return Some(d[k]);
    }

    /** The first cell: a place holder for the whole query, with the kids of the root to try. */
    method Start(kids: seq<Discrim<O>>)
      requires Clean() && FormedAll(kids, 1)
      modifies this
      ensures At(kids) && TodoAt(kids) == Enum(kids, [t], map[])
    {
      Begin(t, kids);
      trail, ahead, gets := Cons(Fresh(0, t), Nil), Nil, 1;
    }

    /** About to try the siblings d, or about to backtrack, with these leaves to come. */
    ghost predicate State(go: bool, d: seq<Discrim<O>>, todo: seq<Hit<O>>)
      reads this
    {
      if go then |d| > 0 && At(d) && TodoAt(d) == todo else Walking() && ToCome() == todo
    }

    ghost function Work(go: bool, d: seq<Discrim<O>>): nat
      reads this
    {
      TrailWeight(trail) + if go then F.Weight(d) else 0
    }

    /** Try the siblings d, and go on to the next cell or stop at a leaf. */
    method Forward(d0: seq<Discrim<O>>, ghost todo: seq<Hit<O>>)
      returns (leaf: Option<seq<O>>, go: bool, d: seq<Discrim<O>>)
      requires State(true, d0, todo)
      modifies this
      ensures leaf.None? ==> State(go, d, todo) && Work(go, d) < old(Work(true, d0))
      ensures leaf.Some? ==> Walking() && |leaf.value| > 0 && [(leaf.value, subst)] + ToCome() == todo
    {
      leaf, go, d := None, false, d0;
      F.WeightFrom(d0, 0);
      var node := Try(d0);
      if node.Some? {
        Arrive(trail, ahead, subst, gets, node.value);
        if ahead.Nil? {
          leaf := Some(node.value.data);
        } else {
          trail, ahead, go, d := Cons(ahead.head, trail), ahead.tail, true, node.value.kids;
        }
      }
    }

    /** discrim_bind_retrieve_leaf: the first leaf of the tree (root given), or the next one after
        the last leaf found (root absent).  On failure nothing is left bound. */
    method RetrieveLeaf(root: Option<seq<Discrim<O>>>) returns (leaf: Option<seq<O>>)
      requires root.Some? ==> Clean() && FormedAll(root.value, 1)
      requires root.None? ==> Walking()
      modifies this
      ensures leaf.None? ==> Clean() && [] == if root.Some? then Enum(root.value, [t], map[]) else old(ToCome())
      ensures leaf.Some? ==> Walking() && |leaf.value| > 0 &&
                             [(leaf.value, subst)] + ToCome() ==
                             if root.Some? then Enum(root.value, [t], map[]) else old(ToCome())
    {
      var go, d := false, [];
      leaf := None;
      ghost var todo := ToCome();
      if root.Some? {
        if root.value == [] { return; }
        Start(root.value);
        go, d, todo := true, root.value, Enum(root.value, [t], map[]);
      }
      while true
        invariant leaf.None? && State(go, d, todo)
        decreases Work(go, d), !go
      {
        if go {
          leaf, go, d := Forward(d, todo);
          if leaf.Some? { return; }
        } else {
          d := Backtrack();
          if trail.Nil? { return; }
          go := true;
        }
      }
    }

    /** Stopped at an object. */
    ghost predicate Active()
      reads this
    {
      Walking() && |data| > 0
    }

    /** The current answer and those still to come. */
    ghost function Rest(): (r: seq<(O, Subst)>)
      requires Active()
      reads this
      ensures |r| > 0 && r[0] == (data[0], subst)
    {
      Spread(data, subst) + Answers(ToCome())
    }

    /** discrim_bind_retrieve_first */
    method RetrieveFirst(root: seq<Discrim<O>>) returns (o: Option<O>)
      requires Clean() && FormedAll(root, 1)
      modifies this
      ensures o.None? ==> Clean() && Answers(Enum(root, [t], map[])) == []
      ensures o.Some? ==> Active() && Rest() == Answers(Enum(root, [t], map[])) && Rest()[0] == (o.value, subst)
    {
      var leaf := RetrieveLeaf(Some(root));
      match leaf
      case None => o := None;
      case Some(d) =>
        assert Answers([(d, subst)] + ToCome()) == Spread(d, subst) + Answers(ToCome());
        data := d;
        o := Some(d[0]);
    }

    /** discrim_bind_retrieve_next: the next object of the leaf, or the first of the next leaf. */
    method RetrieveNext() returns (o: Option<O>)
      requires Active()
      modifies this
      ensures o.None? ==> Clean() && old(Rest())[1..] == []
      ensures o.Some? ==> Active() && Rest() == old(Rest())[1..] && Rest()[0] == (o.value, subst)
    {
      if |data| > 1 {
        assert Spread(data, subst)[1..] == Spread(data[1..], subst);
        data := data[1..];
        o := Some(data[0]);
      } else {
        assert Rest()[1..] == Answers(ToCome());
        var leaf := RetrieveLeaf(None);
        match leaf
        case None => o := None;
        case Some(d) =>
          assert Answers([(d, subst)] + ToCome()) == Spread(d, subst) + Answers(ToCome());
          data := d;
          o := Some(d[0]);
      }
    }

    /** discrim_bind_cancel: undo the binding of every cell from the current one back. */
    method Cancel()
      requires Active()
      modifies this
      ensures Clean()
    {
      while trail.Cons?
        invariant Unwound(trail, subst) == map[]
        decreases trail
      {
        UnbindHead();
        trail := trail.tail;
      }
    }

    /** The first answer and all that follow. */
    method RetrieveAll(root: seq<Discrim<O>>) returns (answers: seq<(O, Subst)>)
      requires Clean() && FormedAll(root, 1)
      modifies this
      ensures Clean() && answers == Answers(Enum(root, [t], map[]))
    {
      answers := [];
      ghost var all := Answers(Enum(root, [t], map[]));
      var o := RetrieveFirst(root);
      while o.Some?
        invariant o.Some? ==> Active() && o.value == data[0] && answers + Rest() == all
        invariant o.None? ==> Clean() && answers == all
        decreases |all| - |answers|, o
      {
        assert answers + Rest() == answers + [(o.value, subst)] + Rest()[1..];
        answers := answers + [(o.value, subst)];
        o := RetrieveNext();
      }
    }
  }

  lemma {:induction false} SkeletonThere<O>(tr: Cells<O>, ch: Cells<O>, n: nat)
    requires tr.Cons? && GoodTrail(tr, ch, n) && !tr.head.placeHolder
    ensures Spelled(ch) == Args(tr.head.t) + Pend(tr.head, Spelled(ch))[1..]
  {
    var us, w := Spelled(ch), Width(tr.head);
    assert us == us[..w] + us[w..];
  }

  lemma {:induction false} Begin<O>(t: Term, kids: seq<Discrim<O>>)
    requires FormedAll(kids, 1)
    ensures var tr := Cons(Fresh<O>(0, t), Nil);
            Trying(tr, Nil, map[], 1, kids) && Todo(tr, Nil, map[], kids) == Enum(kids, [t], map[])
  {
    var c := Fresh<O>(0, t);
    assert Pend(c, []) == [t];
  }

  /** After tree node e: a leaf at the end of the chain, or its kids at the next cell. */
  lemma {:induction false} Arrive<O>(tr: Cells<O>, ch: Cells<O>, s: Subst, n: nat, e: Discrim<O>)
    requires Walk(tr, ch, s, n) && Formed(e, |Spelled(ch)|)
    ensures ch.Nil? ==> |e.data| > 0 &&
                        Below(e, Spelled(ch), s) + Back(tr, Spelled(ch), s) == [(e.data, s)] + Back(tr, Spelled(ch), s)
    ensures ch.Cons? ==> |e.kids| > 0 && Trying(Cons(ch.head, tr), ch.tail, s, n, e.kids) &&
                         Below(e, Spelled(ch), s) + Back(tr, Spelled(ch), s) ==
                             Todo(Cons(ch.head, tr), ch.tail, s, e.kids) &&
                         F.NodeWeight(e) == 1 + F.Weight(e.kids) && TrailWeight(Cons(ch.head, tr)) == TrailWeight(tr)
  {
    if ch.Cons? { StepRight(tr, ch, s, n); }
  }
}

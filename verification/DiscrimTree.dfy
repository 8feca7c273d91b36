/** Discrimination trees: the tree itself, insertion, deletion, and what a retrieval of
    generalizations must enumerate (ladr/discrim.h, ladr/discrimb.c).

    A tree spells out its keys in prefix order, one label per node; variables are kept in
    the labels, so retrieval binds them.  The kids of a node are its variable kids by
    increasing number, followed by its rigid kids by increasing symbol. */
module DiscrimTree {
  import opened Options
  import opened Terms

  /** A rigid symbol number stands for a name with an arity. */
  datatype Label = DVar(n: nat) | DRigid(sym: nat, arity: nat)

  datatype Discrim<O> = Node(mark: Label, kids: seq<Discrim<O>>, data: seq<O>)

  type Path = seq<Label>

  predicate LabelLess(a: Label, b: Label) {
    match (a, b)
    case (DVar(m), DVar(n)) => m < n
    case (DVar(_), DRigid(_, _)) => true
    case (DRigid(_, _), DVar(_)) => false
    case (DRigid(f, i), DRigid(g, j)) => f < g || (f == g && i < j)
  }

  function TopLabel(t: Term): Label {
    match t case Var(n) => DVar(n) case App(f, args) => DRigid(f, |args|)
  }

  function Args(t: Term): seq<Term> {
    if t.Var? then [] else t.args
  }

  /** Replacing the first pending term by its arguments makes the list smaller. */
  lemma {:induction false} PendingShrinks(ts: seq<Term>)
    requires |ts| > 0
    ensures SizeAll(Args(ts[0]) + ts[1..]) + 1 == SizeAll(ts)
  {
    ConcatAll(Args(ts[0]), ts[1..]);
    assert Size(ts[0]) == 1 + SizeAll(Args(ts[0]));
  }

  /** The labels of a list of terms in prefix order. */
  function PathAll(ts: seq<Term>): Path
    decreases SizeAll(ts)
  {
    if |ts| == 0 then [] else
      PendingShrinks(ts);
      [TopLabel(ts[0])] + PathAll(Args(ts[0]) + ts[1..])
  }

  function PathOf(t: Term): Path { PathAll([t]) }

  // ---------- Retrieval, as an enumeration ----------

  type Hit<O> = (seq<O>, Subst)

  /** Leaves reached from a list of siblings, given the terms still to be matched, in the order
      of the tree; each with its substitution. */
  function Enum<O>(kids: seq<Discrim<O>>, pending: seq<Term>, s: Subst): seq<Hit<O>>
    requires |pending| > 0
    decreases kids, 0
  {
    if |kids| == 0 then [] else EnumNode(kids[0], pending, s) + Enum(kids[1..], pending, s)
  }

  function EnumNode<O>(d: Discrim<O>, pending: seq<Term>, s: Subst): seq<Hit<O>>
    requires |pending| > 0
    decreases d, 2
  {
    var t, rest := pending[0], pending[1..];
    match d.mark
    case DVar(n) =>
      if n !in s then Below(d, rest, s[n := t]) else if s[n] == t then Below(d, rest, s) else []
    case DRigid(f, k) =>
      if t.App? && t.sym == f && |t.args| == k then Below(d, t.args + rest, s) else []
  }

  function Below<O>(d: Discrim<O>, pending: seq<Term>, s: Subst): seq<Hit<O>>
    decreases d, 1
  {
    if |pending| == 0 then [(d.data, s)] else Enum(d.kids, pending, s)
  }

  /** Every stored object, once for each hit of its leaf. */
  function Answers<O>(hits: seq<Hit<O>>): seq<(O, Subst)> {
    if |hits| == 0 then [] else Spread(hits[0].0, hits[0].1) + Answers(hits[1..])
  }

  function Spread<O>(data: seq<O>, s: Subst): (r: seq<(O, Subst)>)
    ensures |r| == |data|
  {
    seq(|data|, i requires 0 <= i < |data| => (data[i], s))
  }

  // ---------- The stored entries and the linear scan ----------

  type Entry<O> = (Path, O)

  function Entries<O>(d: Discrim<O>): seq<Entry<O>>
    decreases d, 1
  {
    Prefixed(d.mark, Leaf(d.data) + EntriesAll(d.kids))
  }

  function EntriesAll<O>(kids: seq<Discrim<O>>): seq<Entry<O>>
    decreases kids, 0
  {
    if |kids| == 0 then [] else Entries(kids[0]) + EntriesAll(kids[1..])
  }

  function Leaf<O>(data: seq<O>): (r: seq<Entry<O>>)
    ensures |r| == |data|
  {
    seq(|data|, i requires 0 <= i < |data| => ([], data[i]))
  }

  function Prefixed<O>(l: Label, es: seq<Entry<O>>): (r: seq<Entry<O>>)
    ensures |r| == |es| && forall i | 0 <= i < |es| :: r[i] == ([l] + es[i].0, es[i].1)
  {
    seq(|es|, i requires 0 <= i < |es| => ([l] + es[i].0, es[i].1))
  }

  /** Match a stored path against pending terms. */
  function MatchPath(path: Path, pending: seq<Term>, s: Subst): Option<Subst> {
    if |path| == 0 then (if |pending| == 0 then Some(s) else None)
    else if |pending| == 0 then None
    else
      var t, rest := pending[0], pending[1..];
      match path[0]
      case DVar(n) =>
        if n !in s then MatchPath(path[1..], rest, s[n := t])
        else if s[n] == t then MatchPath(path[1..], rest, s)
        else None
      case DRigid(f, k) =>
        if t.App? && t.sym == f && |t.args| == k then MatchPath(path[1..], t.args + rest, s) else None
  }

  function TryEntry<O>(e: Entry<O>, pending: seq<Term>, s: Subst): seq<(O, Subst)> {
    match MatchPath(e.0, pending, s) case None => [] case Some(s2) => [(e.1, s2)]
  }

  /** Linear scan: try every entry in turn. */
  function Scan<O>(es: seq<Entry<O>>, pending: seq<Term>, s: Subst): seq<(O, Subst)> {
    if |es| == 0 then [] else TryEntry(es[0], pending, s) + Scan(es[1..], pending, s)
  }

  lemma {:induction false} ScanConcat<O>(es: seq<Entry<O>>, fs: seq<Entry<O>>, pending: seq<Term>, s: Subst)
    ensures Scan(es + fs, pending, s) == Scan(es, pending, s) + Scan(fs, pending, s)
  {
    if |es| == 0 {
      assert es + fs == fs;
    } else {
      assert (es + fs)[1..] == es[1..] + fs;
      ScanConcat(es[1..], fs, pending, s);
    }
  }

  lemma {:induction false} AnswersConcat<O>(a: seq<Hit<O>>, b: seq<Hit<O>>)
    ensures Answers(a + b) == Answers(a) + Answers(b)
  {
    if |a| == 0 {
      assert a + b == b;
    } else {
      assert (a + b)[1..] == a[1..] + b;
      AnswersConcat(a[1..], b);
    }
  }

  lemma {:induction false} ScanPrefixed<O>(l: Label, es: seq<Entry<O>>, pending: seq<Term>, s: Subst)
    requires |pending| > 0
    ensures Scan(Prefixed(l, es), pending, s) ==
            match l
            case DVar(n) =>
              if n !in s then Scan(es, pending[1..], s[n := pending[0]])
              else if s[n] == pending[0] then Scan(es, pending[1..], s)
              else []
            case DRigid(f, k) =>
              if pending[0].App? && pending[0].sym == f && |pending[0].args| == k
              then Scan(es, pending[0].args + pending[1..], s) else []
  {
    if |es| > 0 {
      var ps := Prefixed(l, es);
      assert ps[1..] == Prefixed(l, es[1..]);
      assert ps[0].0[1..] == es[0].0 && ps[0].0[0] == l;
      ScanPrefixed(l, es[1..], pending, s);
    }
  }

  lemma {:induction false} ScanLeaf<O>(data: seq<O>, pending: seq<Term>, s: Subst)
    ensures Scan(Leaf(data), pending, s) == if |pending| == 0 then Spread(data, s) else []
  {
    if |data| > 0 {
      assert Leaf(data)[1..] == Leaf(data[1..]);
      ScanLeaf(data[1..], pending, s);
      assert Spread(data, s) == [(data[0], s)] + Spread(data[1..], s);
    }
  }

  lemma {:induction false} ScanDone<O>(kids: seq<Discrim<O>>, s: Subst)
    ensures Scan(EntriesAll(kids), [], s) == []
  {
    if |kids| > 0 {
      var es := Leaf(kids[0].data) + EntriesAll(kids[0].kids);
      ScanConcat(Entries(kids[0]), EntriesAll(kids[1..]), [], s);
      PrefixedNeedsTerm(kids[0].mark, es, s);
      ScanDone(kids[1..], s);
    }
  }

  lemma {:induction false} PrefixedNeedsTerm<O>(l: Label, es: seq<Entry<O>>, s: Subst)
    ensures Scan(Prefixed(l, es), [], s) == []
  {
    if |es| > 0 {
      assert Prefixed(l, es)[1..] == Prefixed(l, es[1..]);
      PrefixedNeedsTerm(l, es[1..], s);
    }
  }

  /** The enumeration of the tree is the linear scan of its entries, in the same order. */
  lemma {:induction false} EnumIsScan<O>(kids: seq<Discrim<O>>, pending: seq<Term>, s: Subst)
    requires |pending| > 0
    ensures Answers(Enum(kids, pending, s)) == Scan(EntriesAll(kids), pending, s)
    decreases kids, 0
  {
    if |kids| > 0 {
      AnswersConcat(EnumNode(kids[0], pending, s), Enum(kids[1..], pending, s));
      ScanConcat(Entries(kids[0]), EntriesAll(kids[1..]), pending, s);
      EnumNodeIsScan(kids[0], pending, s);
      EnumIsScan(kids[1..], pending, s);
    }
  }

  lemma {:induction false} EnumNodeIsScan<O>(d: Discrim<O>, pending: seq<Term>, s: Subst)
    requires |pending| > 0
    ensures Answers(EnumNode(d, pending, s)) == Scan(Entries(d), pending, s)
    decreases d, 2
  {
    var t, rest := pending[0], pending[1..];
    ScanPrefixed(d.mark, Leaf(d.data) + EntriesAll(d.kids), pending, s);
    match d.mark
    case DVar(n) =>
      if n !in s { BelowIsScan(d, rest, s[n := t]); } else { BelowIsScan(d, rest, s); }
    case DRigid(f, k) =>
      if t.App? { BelowIsScan(d, t.args + rest, s); }
  }

  lemma {:induction false} BelowIsScan<O>(d: Discrim<O>, pending: seq<Term>, s: Subst)
    ensures Answers(Below(d, pending, s)) == Scan(Leaf(d.data) + EntriesAll(d.kids), pending, s)
    decreases d, 1
  {
    ScanConcat(Leaf(d.data), EntriesAll(d.kids), pending, s);
    ScanLeaf(d.data, pending, s);
    if |pending| == 0 { ScanDone(d.kids, s); } else { EnumIsScan(d.kids, pending, s); }
  }

  // ---------- Paths match exactly when terms match ----------

  lemma {:induction false} MatchAllConcat(ps: seq<Term>, qs: seq<Term>, ts: seq<Term>, us: seq<Term>, s: Subst)
    requires |ps| == |ts| && |qs| == |us|
    ensures MatchAll(ps + qs, ts + us, s) ==
            match MatchAll(ps, ts, s) case None => None case Some(s1) => MatchAll(qs, us, s1)
  {
    if |ps| == 0 {
      assert ps + qs == qs && ts + us == us;
    } else {
      assert (ps + qs)[1..] == ps[1..] + qs && (ts + us)[1..] == ts[1..] + us;
      match Match(ps[0], ts[0], s)
      case None =>
      case Some(s1) => MatchAllConcat(ps[1..], qs, ts[1..], us, s1);
    }
  }

  lemma {:induction false} PathMatches(ps: seq<Term>, ts: seq<Term>, s: Subst)
    requires |ps| == |ts|
    ensures MatchPath(PathAll(ps), ts, s) == MatchAll(ps, ts, s)
    decreases SizeAll(ps)
  {
    if |ps| > 0 {
      var p, t := ps[0], ts[0];
      PendingShrinks(ps);
      assert PathAll(ps)[1..] == PathAll(Args(p) + ps[1..]);
      if p.Var? {
        assert Args(p) + ps[1..] == ps[1..];
        if p.n !in s { PathMatches(ps[1..], ts[1..], s[p.n := t]); } else { PathMatches(ps[1..], ts[1..], s); }
      } else if t.App? && t.sym == p.sym && |t.args| == |p.args| {
        PathMatches(p.args + ps[1..], t.args + ts[1..], s);
        MatchAllConcat(p.args, ps[1..], t.args, ts[1..], s);
      }
    }
  }

  lemma {:induction false} KeyMatches(key: Term, t: Term)
    ensures MatchPath(PathOf(key), [t], map[]) == Match(key, t, map[])
  {
    PathMatches([key], [t], map[]);
    match Match(key, t, map[]) case None => case Some(s) =>
  }

  // ---------- Insertion ----------

  ghost predicate SortedKids<O>(kids: seq<Discrim<O>>) {
    forall i, j | 0 <= i < j < |kids| :: LabelLess(kids[i].mark, kids[j].mark)
  }

  /** Number of terms still to be spelled after a node, when `need` were before it. */
  function After(need: nat, l: Label): nat
    requires need > 0
  {
    need - 1 + if l.DVar? then 0 else l.arity
  }

  /** A node below which `need` more terms are spelled: a leaf with objects, or an inner node. */
  ghost predicate Formed<O>(d: Discrim<O>, need: nat)
    decreases d, 1
  {
    if need == 0 then |d.kids| == 0 && |d.data| > 0
    else |d.data| == 0 && |d.kids| > 0 && FormedAll(d.kids, need)
  }

  ghost predicate FormedAll<O>(kids: seq<Discrim<O>>, need: nat)
    requires need > 0
    decreases kids, 0
  {
    SortedKids(kids) && forall i | 0 <= i < |kids| :: Formed(kids[i], After(need, kids[i].mark))
  }

  /** The path spells exactly `need` terms. */
  ghost predicate Spells(path: Path, need: nat) {
    if need == 0 then |path| == 0 else |path| > 0 && Spells(path[1..], After(need, path[0]))
  }

  lemma {:induction false} PathSpells(ts: seq<Term>)
    ensures Spells(PathAll(ts), |ts|)
    decreases SizeAll(ts)
  {
    if |ts| > 0 {
      PendingShrinks(ts);
      PathSpells(Args(ts[0]) + ts[1..]);
    }
  }

  /** Where label l is, or belongs, among sorted kids: after everything smaller. */
  function Place<O>(kids: seq<Discrim<O>>, l: Label): (i: nat)
    ensures i <= |kids|
    ensures forall j | 0 <= j < i :: LabelLess(kids[j].mark, l)
    ensures i < |kids| ==> !LabelLess(kids[i].mark, l)
  {
    if |kids| == 0 || !LabelLess(kids[0].mark, l) then 0 else 1 + Place(kids[1..], l)
  }

  /** A chain of fresh nodes ending in a leaf that holds one object. */
  function Chain<O>(path: Path, o: O): Discrim<O>
    requires |path| > 0
  {
    if |path| == 1 then Node(path[0], [], [o]) else Node(path[0], [Chain(path[1..], o)], [])
  }

  function Insert<O>(kids: seq<Discrim<O>>, path: Path, o: O): seq<Discrim<O>>
    requires |path| > 0
    decreases |path|, 0
  {
    var i := Place(kids, path[0]);
    if i < |kids| && kids[i].mark == path[0] then kids[i := InsertAt(kids[i], path[1..], o)]
    else kids[..i] + [Chain(path, o)] + kids[i..]
  }

  /** Go on below a node whose label is already there; objects are added at the end of the leaf list. */
  function InsertAt<O>(d: Discrim<O>, path: Path, o: O): (r: Discrim<O>)
    ensures r.mark == d.mark
    decreases |path|, 1
  {
    if |path| == 0 then d.(data := d.data + [o]) else d.(kids := Insert(d.kids, path, o))
  }

  lemma {:induction false} LabelsTotal(a: Label, b: Label)
    ensures LabelLess(a, b) || LabelLess(b, a) || a == b
  {
  }

  lemma {:induction false} LabelsTransitive(a: Label, b: Label, c: Label)
    requires LabelLess(a, b) && LabelLess(b, c)
    ensures LabelLess(a, c)
  {
  }

  lemma {:induction false} ChainFormed<O>(path: Path, o: O, need: nat)
    requires need > 0 && Spells(path, need)
    ensures Formed(Chain(path, o), After(need, path[0]))
    decreases |path|
  {
    if |path| > 1 { ChainFormed(path[1..], o, After(need, path[0])); }
  }

  /** Insertion keeps the tree well formed. */
  lemma {:induction false} InsertFormed<O>(kids: seq<Discrim<O>>, path: Path, o: O, need: nat)
    requires need > 0 && Spells(path, need) && FormedAll(kids, need)
    ensures FormedAll(Insert(kids, path, o), need)
    decreases |path|
  {
    var i := Place(kids, path[0]);
    var r := Insert(kids, path, o);
    if i < |kids| && kids[i].mark == path[0] {
      var need2 := After(need, path[0]);
      if need2 > 0 { InsertFormed(kids[i].kids, path[1..], o, need2); }
    } else {
      ChainFormed(path, o, need);
      var c := Chain(path, o);
      forall j | i <= j < |kids| ensures LabelLess(c.mark, kids[j].mark) {
        LabelsTotal(c.mark, kids[i].mark);
        if j > i { LabelsTransitive(c.mark, kids[i].mark, kids[j].mark); }
      }
      assert forall j | 0 <= j < |r| :: r[j] == if j < i then kids[j] else if j == i then c else kids[j - 1];
    }
  }

  // ---------- Entries after insertion ----------

  lemma {:induction false} EntriesSplit<O>(kids: seq<Discrim<O>>, more: seq<Discrim<O>>)
    ensures EntriesAll(kids + more) == EntriesAll(kids) + EntriesAll(more)
  {
    if |kids| == 0 {
      assert kids + more == more;
    } else {
      assert (kids + more)[1..] == kids[1..] + more;
      EntriesSplit(kids[1..], more);
    }
  }

  lemma {:induction false} EntriesMiddle<O>(before: seq<Discrim<O>>, d: Discrim<O>, after: seq<Discrim<O>>)
    ensures EntriesAll(before + [d] + after) == EntriesAll(before) + Entries(d) + EntriesAll(after)
  {
    assert before + [d] + after == before + ([d] + after);
    EntriesSplit(before, [d] + after);
    assert ([d] + after)[1..] == after;
  }

  lemma {:induction false} EntriesAt<O>(kids: seq<Discrim<O>>, i: nat, d: Discrim<O>)
    requires i < |kids|
    ensures EntriesAll(kids) == EntriesAll(kids[..i]) + Entries(kids[i]) + EntriesAll(kids[i + 1..])
    ensures EntriesAll(kids[i := d]) == EntriesAll(kids[..i]) + Entries(d) + EntriesAll(kids[i + 1..])
  {
    assert kids == kids[..i] + [kids[i]] + kids[i + 1..];
    assert kids[i := d] == kids[..i] + [d] + kids[i + 1..];
    EntriesMiddle(kids[..i], kids[i], kids[i + 1..]);
    EntriesMiddle(kids[..i], d, kids[i + 1..]);
  }

  lemma {:induction false} PrefixedConcat<O>(l: Label, es: seq<Entry<O>>, fs: seq<Entry<O>>)
    ensures Prefixed(l, es + fs) == Prefixed(l, es) + Prefixed(l, fs)
  {
  }

  lemma {:induction false} LeafConcat<O>(data: seq<O>, more: seq<O>)
    ensures Leaf(data + more) == Leaf(data) + Leaf(more)
  {
  }

  lemma {:induction false} ChainEntries<O>(path: Path, o: O)
    requires |path| > 0
    ensures Entries(Chain(path, o)) == [(path, o)]
  {
    var c := Chain(path, o);
    if |path| > 1 {
      ChainEntries(path[1..], o);
      EntriesMiddle([], c.kids[0], []);
      assert [] + [c.kids[0]] + [] == c.kids;
      assert Leaf(c.data) + EntriesAll(c.kids) == [(path[1..], o)];
    } else {
      assert Leaf(c.data) + EntriesAll(c.kids) == [([], o)];
    }
    assert path == [path[0]] + path[1..];
  }

  /** Insertion adds exactly one entry. */
  lemma {:induction false} InsertAddsOne<O>(kids: seq<Discrim<O>>, path: Path, o: O)
    returns (a: seq<Entry<O>>, b: seq<Entry<O>>)
    requires |path| > 0
    ensures EntriesAll(kids) == a + b && EntriesAll(Insert(kids, path, o)) == a + [(path, o)] + b
    decreases |path|, 1
  {
    var i := Place(kids, path[0]);
    if i < |kids| && kids[i].mark == path[0] {
      var c, d := InsertAtAddsOne(kids[i], path[1..], o);
      EntriesAt(kids, i, InsertAt(kids[i], path[1..], o));
      assert path == [path[0]] + path[1..];
      a, b := EntriesAll(kids[..i]) + c, d + EntriesAll(kids[i + 1..]);
      Regroup(EntriesAll(kids[..i]), c, [(path, o)], d, EntriesAll(kids[i + 1..]));
    } else {
      ChainEntries(path, o);
      assert kids == kids[..i] + kids[i..];
      EntriesSplit(kids[..i], kids[i..]);
      EntriesMiddle(kids[..i], Chain(path, o), kids[i..]);
      a, b := EntriesAll(kids[..i]), EntriesAll(kids[i..]);
    }
  }

  lemma {:induction false} Regroup<T>(u: seq<T>, v: seq<T>, w: seq<T>, x: seq<T>, y: seq<T>)
    ensures u + (v + w + x) + y == (u + v) + w + (x + y)
    ensures u + (v + x) + y == (u + v) + (x + y)
  {
  }

  lemma {:induction false} InsertAtAddsOne<O>(d: Discrim<O>, path: Path, o: O)
    returns (a: seq<Entry<O>>, b: seq<Entry<O>>)
    ensures Entries(d) == a + b && Entries(InsertAt(d, path, o)) == a + [([d.mark] + path, o)] + b
    decreases |path|, 2
  {
    var e, f;
    if |path| == 0 {
      e, f := Leaf(d.data), EntriesAll(d.kids);
      LeafConcat(d.data, [o]);
      assert Leaf([o]) == [([], o)];
    } else {
      var g, h := InsertAddsOne(d.kids, path, o);
      e, f := Leaf(d.data) + g, h;
    }
    assert Leaf(d.data) + EntriesAll(d.kids) == e + f;
    var d2 := InsertAt(d, path, o);
    assert Leaf(d2.data) + EntriesAll(d2.kids) == e + [(path, o)] + f;
    PrefixedConcat(d.mark, e, f);
    PrefixedConcat(d.mark, e + [(path, o)], f);
    PrefixedConcat(d.mark, e, [(path, o)]);
    assert Prefixed(d.mark, [(path, o)]) == [([d.mark] + path, o)];
    a, b := Prefixed(d.mark, e), Prefixed(d.mark, f);
  }

  // ---------- Deletion ----------

  function IndexOf<O(==)>(data: seq<O>, o: O): (r: Option<nat>)
    ensures r.Some? ==> r.value < |data| && data[r.value] == o
    ensures r.None? ==> o !in data
  {
    if |data| == 0 then None
    else if data[0] == o then Some(0)
    else match IndexOf(data[1..], o) case None => None case Some(i) => Some(i + 1)
  }

  predicate Hollow<O>(d: Discrim<O>) {
    |d.data| == 0 && |d.kids| == 0
  }

  /** Remove the first such object from its leaf, then every node left hollow on the way up.
      None: no such entry, a fatal error in the source. */
  function Delete<O(==)>(kids: seq<Discrim<O>>, path: Path, o: O): Option<seq<Discrim<O>>>
    requires |path| > 0
    decreases |path|, 0
  {
    var i := Place(kids, path[0]);
    if i < |kids| && kids[i].mark == path[0] then
      match DeleteAt(kids[i], path[1..], o)
      case None => None
      case Some(d) => if Hollow(d) then Some(kids[..i] + kids[i + 1..]) else Some(kids[i := d])
    else
      None
  }

  function DeleteAt<O(==)>(d: Discrim<O>, path: Path, o: O): (r: Option<Discrim<O>>)
    ensures r.Some? ==> r.value.mark == d.mark
    decreases |path|, 1
  {
    if |path| == 0 then
      match IndexOf(d.data, o)
      case None => None
      case Some(i) => Some(d.(data := d.data[..i] + d.data[i + 1..]))
    else
      match Delete(d.kids, path, o) case None => None case Some(kids) => Some(d.(kids := kids))
  }

  /** A successful deletion removes exactly one entry. */
  lemma {:induction false} DeleteRemovesOne<O>(kids: seq<Discrim<O>>, path: Path, o: O)
    returns (a: seq<Entry<O>>, b: seq<Entry<O>>)
    requires |path| > 0 && Delete(kids, path, o).Some?
    ensures EntriesAll(kids) == a + [(path, o)] + b && EntriesAll(Delete(kids, path, o).value) == a + b
    decreases |path|, 1
  {
    var i := Place(kids, path[0]);
    var d := DeleteAt(kids[i], path[1..], o).value;
    var c, e := DeleteAtRemovesOne(kids[i], path[1..], o);
    EntriesAt(kids, i, d);
    assert path == [path[0]] + path[1..];
    var before, after := EntriesAll(kids[..i]), EntriesAll(kids[i + 1..]);
    a, b := before + c, e + after;
    Regroup(before, c, [(path, o)], e, after);
    if Hollow(d) {
      assert EntriesAll(kids[..i] + kids[i + 1..]) == a + b by {
        EntriesSplit(kids[..i], kids[i + 1..]);
        HollowEmpty(d);
        assert c + e == [];
      }
    }
  }

  lemma {:induction false} HollowEmpty<O>(d: Discrim<O>)
    requires Hollow(d)
    ensures Entries(d) == []
  {
    assert Leaf(d.data) == [] && EntriesAll(d.kids) == [];
  }

  lemma {:induction false} DeleteAtRemovesOne<O>(d: Discrim<O>, path: Path, o: O)
    returns (a: seq<Entry<O>>, b: seq<Entry<O>>)
    requires DeleteAt(d, path, o).Some?
    ensures Entries(d) == a + [([d.mark] + path, o)] + b && Entries(DeleteAt(d, path, o).value) == a + b
    decreases |path|, 2
  {
    var e, f;
    var d2 := DeleteAt(d, path, o).value;
    if |path| == 0 {
      var i := IndexOf(d.data, o).value;
      assert d.data == d.data[..i] + [o] + d.data[i + 1..];
      e, f := Leaf(d.data[..i]), Leaf(d.data[i + 1..]) + EntriesAll(d.kids);
      assert Leaf(d.data) == Leaf(d.data[..i]) + [([], o)] + Leaf(d.data[i + 1..]);
      LeafConcat(d.data[..i], d.data[i + 1..]);
    } else {
      var g, h := DeleteRemovesOne(d.kids, path, o);
      e, f := Leaf(d.data) + g, h;
    }
    assert Leaf(d.data) + EntriesAll(d.kids) == e + [(path, o)] + f;
    assert Leaf(d2.data) + EntriesAll(d2.kids) == e + f;
    PrefixedConcat(d.mark, e, f);
    PrefixedConcat(d.mark, e + [(path, o)], f);
    PrefixedConcat(d.mark, e, [(path, o)]);
    assert Prefixed(d.mark, [(path, o)]) == [([d.mark] + path, o)];
    a, b := Prefixed(d.mark, e), Prefixed(d.mark, f);
  }

  /** Deletion keeps the tree well formed; it may empty the list of kids. */
  lemma {:induction false} DeleteFormed<O>(kids: seq<Discrim<O>>, path: Path, o: O, need: nat)
    requires need > 0 && Spells(path, need) && FormedAll(kids, need)
    requires Delete(kids, path, o).Some?
    ensures FormedAll(Delete(kids, path, o).value, need)
    decreases |path|
  {
    var i := Place(kids, path[0]);
    var need2 := After(need, path[0]);
    var d := DeleteAt(kids[i], path[1..], o).value;
    if need2 > 0 { DeleteFormed(kids[i].kids, path[1..], o, need2); }
    var r := Delete(kids, path, o).value;
    if Hollow(d) {
      assert forall j | 0 <= j < |r| :: r[j] == if j < i then kids[j] else kids[j + 1];
    } else {
      assert Formed(d, need2);
    }
  }

  lemma {:induction false} PlaceFinds<O>(kids: seq<Discrim<O>>, i: nat)
    requires SortedKids(kids) && i < |kids|
    ensures Place(kids, kids[i].mark) == i
  {
    assert !LabelLess(kids[i].mark, kids[i].mark);
    var k := Place(kids, kids[i].mark);
  }

  lemma {:induction false} EntriesKid<O>(kids: seq<Discrim<O>>, e: Entry<O>) returns (i: nat)
    requires e in EntriesAll(kids)
    ensures i < |kids| && e in Entries(kids[i])
  {
    if e in Entries(kids[0]) {
      i := 0;
    } else {
      i := EntriesKid(kids[1..], e);
      i := i + 1;
    }
  }

  /** Deletion fails exactly when there is nothing to delete. */
  lemma {:induction false} DeleteSucceeds<O>(kids: seq<Discrim<O>>, path: Path, o: O, need: nat)
    requires need > 0 && Spells(path, need) && FormedAll(kids, need)
    ensures Delete(kids, path, o).Some? <==> (path, o) in EntriesAll(kids)
    decreases |path|
  {
    if Delete(kids, path, o).Some? {
      var a, b := DeleteRemovesOne(kids, path, o);
    }
    if (path, o) in EntriesAll(kids) {
      var i := EntriesKid(kids, (path, o));
      var d := kids[i];
      var es := Leaf(d.data) + EntriesAll(d.kids);
      var k :| 0 <= k < |es| && Entries(d)[k] == (path, o);
      assert es[k] == (path[1..], o) && path[0] == d.mark;
      PlaceFinds(kids, i);
      var need2 := After(need, path[0]);
      if need2 > 0 { DeleteSucceeds(d.kids, path[1..], o, need2); }
    }
  }

  // ---------- Where entries stand ----------

  /** The objects stored under a path, in order. */
  function Objects<O>(es: seq<Entry<O>>, path: Path): seq<O> {
    if |es| == 0 then [] else ObjectIf(es[0], path) + Objects(es[1..], path)
  }

  function ObjectIf<O>(e: Entry<O>, path: Path): seq<O> {
    if e.0 == path then [e.1] else []
  }

  lemma {:induction false} ObjectsConcat<O>(es: seq<Entry<O>>, fs: seq<Entry<O>>, path: Path)
    ensures Objects(es + fs, path) == Objects(es, path) + Objects(fs, path)
  {
    if |es| == 0 {
      assert es + fs == fs;
    } else {
      assert (es + fs)[1..] == es[1..] + fs;
      ObjectsConcat(es[1..], fs, path);
      var x, y, z := ObjectIf(es[0], path), Objects(es[1..], path), Objects(fs, path);
      assert x + (y + z) == (x + y) + z;
    }
  }

  lemma {:induction false} ObjectsPrefixed<O>(l: Label, es: seq<Entry<O>>, path: Path)
    requires |path| > 0
    ensures Objects(Prefixed(l, es), path) == if l == path[0] then Objects(es, path[1..]) else []
  {
    if |es| > 0 {
      var ps := Prefixed(l, es);
      assert ps[1..] == Prefixed(l, es[1..]);
      assert path == [path[0]] + path[1..] && ps[0].0[0] == l && ps[0].0[1..] == es[0].0;
      ObjectsPrefixed(l, es[1..], path);
    }
  }

  lemma {:induction false} ObjectsLeaf<O>(data: seq<O>)
    ensures Objects(Leaf(data), []) == data
  {
    if |data| > 0 {
      assert Leaf(data)[1..] == Leaf(data[1..]);
      ObjectsLeaf(data[1..]);
    }
  }

  lemma {:induction false} ObjectsNothing<O>(kids: seq<Discrim<O>>, path: Path)
    requires |path| > 0 && forall i | 0 <= i < |kids| :: kids[i].mark != path[0]
    ensures Objects(EntriesAll(kids), path) == []
  {
    if |kids| > 0 {
      ObjectsConcat(Entries(kids[0]), EntriesAll(kids[1..]), path);
      ObjectsPrefixed(kids[0].mark, Leaf(kids[0].data) + EntriesAll(kids[0].kids), path);
      ObjectsNothing(kids[1..], path);
    }
  }

  /** Only the kid with the first label of a path has objects under that path. */
  lemma {:induction false} ObjectsAround<O>(kids: seq<Discrim<O>>, i: nat, d: Discrim<O>, path: Path)
    requires |path| > 0 && SortedKids(kids) && i < |kids| && kids[i].mark == path[0] == d.mark
    ensures Objects(EntriesAll(kids[i := d]), path) == Objects(Entries(d), path)
    ensures Objects(EntriesAll(kids[..i] + kids[i + 1..]), path) == []
  {
    var before, after := kids[..i], kids[i + 1..];
    EntriesAt(kids, i, d);
    forall j | 0 <= j < |after| ensures after[j].mark != path[0] {
      assert LabelLess(kids[i].mark, kids[i + 1 + j].mark);
    }
    ObjectsNothing(before, path);
    ObjectsNothing(after, path);
    ObjectsConcat(EntriesAll(before) + Entries(d), EntriesAll(after), path);
    ObjectsConcat(EntriesAll(before), Entries(d), path);
    ObjectsNothing(before + after, path);
  }

  lemma {:induction false} ObjectsBelow<O>(d: Discrim<O>, path: Path, need: nat)
    requires Formed(d, need) && Spells(path, need)
    ensures Objects(Entries(d), [d.mark] + path) == if |path| == 0 then d.data else Objects(EntriesAll(d.kids), path)
  {
    var es := Leaf(d.data) + EntriesAll(d.kids);
    ObjectsPrefixed(d.mark, es, [d.mark] + path);
    assert ([d.mark] + path)[1..] == path;
    if |path| == 0 {
      ObjectsLeaf(d.data);
      assert es == Leaf(d.data);
    } else {
      assert es == EntriesAll(d.kids);
    }
  }

  /** An inserted object comes after those stored under the same path. */
  lemma {:induction false} InsertIsLast<O>(kids: seq<Discrim<O>>, path: Path, o: O, need: nat)
    requires need > 0 && Spells(path, need) && FormedAll(kids, need)
    ensures Objects(EntriesAll(Insert(kids, path, o)), path) == Objects(EntriesAll(kids), path) + [o]
    decreases |path|
  {
    var i := Place(kids, path[0]);
    assert path == [path[0]] + path[1..];
    if i < |kids| && kids[i].mark == path[0] {
      var need2 := After(need, path[0]);
      var d := InsertAt(kids[i], path[1..], o);
      if need2 > 0 {
        InsertIsLast(kids[i].kids, path[1..], o, need2);
        InsertFormed(kids[i].kids, path[1..], o, need2);
      }
      assert kids[i := kids[i]] == kids;
      ObjectsAround(kids, i, kids[i], path);
      ObjectsAround(kids, i, d, path);
      ObjectsBelow(kids[i], path[1..], need2);
      assert need2 > 0 ==> Insert(kids[i].kids, path[1..], o) != [];
      ObjectsBelow(d, path[1..], need2);
    } else {
      forall j | 0 <= j < |kids| ensures kids[j].mark != path[0] {
        assert j > i ==> LabelLess(kids[i].mark, kids[j].mark);
      }
      ChainIsAlone(kids[..i], path, o, kids[i..]);
      ObjectsNothing(kids, path);
    }
  }

  lemma {:induction false} ChainIsAlone<O>(before: seq<Discrim<O>>, path: Path, o: O, after: seq<Discrim<O>>)
    requires |path| > 0
    requires forall i | 0 <= i < |before| :: before[i].mark != path[0]
    requires forall i | 0 <= i < |after| :: after[i].mark != path[0]
    ensures Objects(EntriesAll(before + [Chain(path, o)] + after), path) == [o]
  {
    var c := Entries(Chain(path, o));
    ChainEntries(path, o);
    EntriesMiddle(before, Chain(path, o), after);
    ObjectsNothing(before, path);
    ObjectsNothing(after, path);
    ObjectsConcat(EntriesAll(before) + c, EntriesAll(after), path);
    ObjectsConcat(EntriesAll(before), c, path);
    assert c[1..] == [];
  }

  /** The list without the first o. */
  function WithoutFirst<O(==)>(data: seq<O>, o: O): seq<O> {
    if |data| == 0 then [] else if data[0] == o then data[1..] else [data[0]] + WithoutFirst(data[1..], o)
  }

  lemma {:induction false} IndexOfFirst<O>(data: seq<O>, o: O)
    requires IndexOf(data, o).Some?
    ensures var i := IndexOf(data, o).value; data[..i] + data[i + 1..] == WithoutFirst(data, o)
  {
    if data[0] != o {
      var i := IndexOf(data[1..], o).value;
      IndexOfFirst(data[1..], o);
      assert data[..i + 1] + data[i + 2..] == [data[0]] + (data[1..][..i] + data[1..][i + 1..]);
    }
  }

  /** Deletion takes the first such object from those stored under the path. */
  lemma {:induction false} DeleteIsFirst<O>(kids: seq<Discrim<O>>, path: Path, o: O, need: nat)
    requires need > 0 && Spells(path, need) && FormedAll(kids, need) && Delete(kids, path, o).Some?
    ensures Objects(EntriesAll(Delete(kids, path, o).value), path) ==
            WithoutFirst(Objects(EntriesAll(kids), path), o)
    decreases |path|
  {
    var i := Place(kids, path[0]);
    var need2 := After(need, path[0]);
    var d := DeleteAt(kids[i], path[1..], o).value;
    assert path == [path[0]] + path[1..];
    assert kids[i := kids[i]] == kids;
    ObjectsAround(kids, i, kids[i], path);
    ObjectsAround(kids, i, d, path);
    ObjectsBelow(kids[i], path[1..], need2);
    if need2 > 0 {
      DeleteIsFirst(kids[i].kids, path[1..], o, need2);
      DeleteFormed(kids[i].kids, path[1..], o, need2);
    } else {
      IndexOfFirst(kids[i].data, o);
    }
    if !Hollow(d) { ObjectsBelow(d, path[1..], need2); }
  }

  /** Variables by number, then symbols by number and arity; the first difference decides. */
  ghost predicate PathLess(p: Path, q: Path) {
    && |p| > 0 && |q| > 0
    && (match (p[0], q[0])
        case (DVar(m), DVar(n)) => m < n || (m == n && PathLess(p[1..], q[1..]))
        case (DVar(_), DRigid(_, _)) => true
        case (DRigid(_, _), DVar(_)) => false
        case (DRigid(f, k), DRigid(g, l)) =>
          f < g || (f == g && k < l) || (f == g && k == l && PathLess(p[1..], q[1..])))
  }

  ghost predicate InOrder<O>(es: seq<Entry<O>>) {
    forall i, j | 0 <= i < j < |es| :: es[i].0 == es[j].0 || PathLess(es[i].0, es[j].0)
  }

  lemma {:induction false} PrefixedInOrder<O>(l: Label, es: seq<Entry<O>>)
    requires InOrder(es)
    ensures InOrder(Prefixed(l, es))
  {
    var ps := Prefixed(l, es);
    forall i, j | 0 <= i < j < |ps| ensures ps[i].0 == ps[j].0 || PathLess(ps[i].0, ps[j].0) {
      assert es[i].0 == es[j].0 || PathLess(es[i].0, es[j].0);
      assert ps[i].0[0] == l == ps[j].0[0] && ps[i].0[1..] == es[i].0 && ps[j].0[1..] == es[j].0;
    }
  }

  /** The entries of a tree stand in the order of their paths. */
  lemma {:induction false} EntriesInOrder<O>(kids: seq<Discrim<O>>, need: nat)
    requires need > 0 && FormedAll(kids, need)
    ensures InOrder(EntriesAll(kids))
    decreases kids
  {
    if |kids| > 0 {
      var d := kids[0];
      var inner, es, fs := Leaf(d.data) + EntriesAll(d.kids), Entries(d), EntriesAll(kids[1..]);
      var need2 := After(need, d.mark);
      if need2 > 0 { EntriesInOrder(d.kids, need2); }
      assert InOrder(inner) by {
        if need2 > 0 { assert inner == EntriesAll(d.kids); } else { assert inner == Leaf(d.data); }
      }
      PrefixedInOrder(d.mark, inner);
      assert FormedAll(kids[1..], need);
      EntriesInOrder(kids[1..], need);
      forall i, j | 0 <= i < |es| && 0 <= j < |fs| ensures PathLess(es[i].0, fs[j].0) {
        var k := EntriesKid(kids[1..], fs[j]);
        assert LabelLess(kids[0].mark, kids[k + 1].mark);
        assert fs[j].0[0] == kids[k + 1].mark && es[i].0[0] == d.mark;
      }
    }
  }
}

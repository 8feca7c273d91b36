/** The integer-vector tree for subsumption, searched by pointwise comparison (ladr/di_tree.c). */
module DiTree {
  import opened Options
  import opened Terms
  import opened Subsume
  import opened Features

  datatype Clause = Clause(id: nat, lits: seq<Literal>)

  /** A node holds data past the end of the vector, or else a list of kids by increasing label. */
  datatype Tree = Leaf(data: seq<Clause>) | Inner(kids: Kids)
  datatype Kids = NoKid | Kid(key: nat, tree: Tree, next: Kids)

  type Entry = (seq<nat>, Clause)

  // ---------- What a tree holds ----------

  function Prefix(l: nat, es: seq<Entry>): seq<Entry> {
    if |es| == 0 then [] else [([l] + es[0].0, es[0].1)] + Prefix(l, es[1..])
  }

  /** The stored clauses with their vectors, in the order of a walk. */
  function Entries(t: Tree): seq<Entry> {
    match t
    case Leaf(data) => Data(data)
    case Inner(kids) => KidEntries(kids)
  }

  function Data(data: seq<Clause>): seq<Entry> {
    if |data| == 0 then [] else [([], data[0])] + Data(data[1..])
  }

  function KidEntries(ks: Kids): seq<Entry> {
    match ks
    case NoKid => []
    case Kid(l, t, next) => Prefix(l, Entries(t)) + KidEntries(next)
  }

  /** How many times a clause is stored under a vector. */
  function Stored(t: Tree, w: seq<nat>, x: Clause): nat {
    match t
    case Leaf(data) => if |w| == 0 then multiset(data)[x] else 0
    case Inner(kids) => KidStored(kids, w, x)
  }

  function KidStored(ks: Kids, w: seq<nat>, x: Clause): nat {
    match ks
    case NoKid => 0
    case Kid(l, t, next) => (if |w| > 0 && w[0] == l then Stored(t, w[1..], x) else 0) + KidStored(next, w, x)
  }

  lemma {:induction false} PrefixCount(l: nat, es: seq<Entry>, w: seq<nat>, x: Clause)
    ensures multiset(Prefix(l, es))[(w, x)] == if |w| > 0 && w[0] == l then multiset(es)[(w[1..], x)] else 0
  {
    if |es| > 0 {
      var e: Entry := ([l] + es[0].0, es[0].1);
      assert es == [es[0]] + es[1..];
      PrefixCount(l, es[1..], w, x);
      assert e.0[1..] == es[0].0;
      assert |w| > 0 && w[0] == l ==> w == [l] + w[1..];
    }
  }

  lemma {:induction false} DataCount(data: seq<Clause>, w: seq<nat>, x: Clause)
    ensures multiset(Data(data))[(w, x)] == if |w| == 0 then multiset(data)[x] else 0
  {
    if |data| > 0 {
      assert data == [data[0]] + data[1..];
      DataCount(data[1..], w, x);
    }
  }

  /** The walk lists everything as often as it is stored. */
  lemma {:induction false} StoredEntries(t: Tree, w: seq<nat>, x: Clause)
    ensures multiset(Entries(t))[(w, x)] == Stored(t, w, x)
    decreases t
  {
    match t
    case Leaf(data) => DataCount(data, w, x);
    case Inner(kids) => KidStoredEntries(kids, w, x);
  }

  lemma {:induction false} KidStoredEntries(ks: Kids, w: seq<nat>, x: Clause)
    ensures multiset(KidEntries(ks))[(w, x)] == KidStored(ks, w, x)
    decreases ks
  {
    if ks.Kid? {
      PrefixCount(ks.key, Entries(ks.tree), w, x);
      if |w| > 0 { StoredEntries(ks.tree, w[1..], x); }
      KidStoredEntries(ks.next, w, x);
    }
  }

  /** All labels are above b and increase. */
  predicate Increasing(ks: Kids, b: int) {
    ks.Kid? ==> b < ks.key && Increasing(ks.next, ks.key)
  }

  /** Leaves stand at depth n, and kids increase. */
  predicate Shaped(t: Tree, n: nat) {
    match t
    case Leaf(_) => n == 0
    case Inner(kids) => n > 0 && Increasing(kids, -1) && KidsShaped(kids, n - 1)
  }

  predicate KidsShaped(ks: Kids, n: nat) {
    ks.Kid? ==> Shaped(ks.tree, n) && KidsShaped(ks.next, n)
  }

  function NewTree(n: nat): Tree {
    if n == 0 then Leaf([]) else Inner(NoKid)
  }

  // ---------- Insertion ----------

  function Insert(v: seq<nat>, t: Tree, c: Clause): Tree
    requires Shaped(t, |v|)
    decreases |v|, 1, NoKid
  {
    match t
    case Leaf(data) => Leaf([c] + data)
    case Inner(kids) => Inner(InsertKids(v, kids, c))
  }

  /** Kids are in increasing order. */
  function InsertKids(v: seq<nat>, ks: Kids, c: Clause): Kids
    requires |v| > 0 && KidsShaped(ks, |v| - 1)
    decreases |v|, 0, ks
  {
    if ks.Kid? && v[0] > ks.key then ks.(next := InsertKids(v, ks.next, c))
    else if ks.NoKid? || v[0] != ks.key then Kid(v[0], Insert(v[1..], NewTree(|v| - 1), c), ks)
    else ks.(tree := Insert(v[1..], ks.tree, c))
  }

  lemma {:induction false} NewTreeEmpty(n: nat, w: seq<nat>, x: Clause)
    ensures Shaped(NewTree(n), n) && Stored(NewTree(n), w, x) == 0
  {
  }

  /** Insertion adds the entry and keeps the shape. */
  lemma {:induction false} InsertAdds(v: seq<nat>, t: Tree, c: Clause, w: seq<nat>, x: Clause)
    requires Shaped(t, |v|)
    ensures Shaped(Insert(v, t, c), |v|)
    ensures Stored(Insert(v, t, c), w, x) == Stored(t, w, x) + (if (w, x) == (v, c) then 1 else 0)
    decreases |v|, 1, NoKid
  {
    match t
    case Leaf(data) =>
      assert v == [];
    case Inner(kids) =>
      InsertKidsAdds(v, kids, c, -1, w, x);
  }

  lemma {:induction false} InsertKidsAdds(v: seq<nat>, ks: Kids, c: Clause, b: int, w: seq<nat>, x: Clause)
    requires |v| > 0 && KidsShaped(ks, |v| - 1) && Increasing(ks, b) && b < v[0]
    ensures KidsShaped(InsertKids(v, ks, c), |v| - 1) && Increasing(InsertKids(v, ks, c), b)
    ensures KidStored(InsertKids(v, ks, c), w, x) == KidStored(ks, w, x) + (if (w, x) == (v, c) then 1 else 0)
    decreases |v|, 0, ks
  {
    HeadTail(v, w);
    if ks.Kid? && v[0] > ks.key {
      InsertKidsAdds(v, ks.next, c, ks.key, w, x);
    } else if ks.NoKid? || v[0] != ks.key {
      NewTreeEmpty(|v| - 1, if |w| > 0 then w[1..] else w, x);
      InsertAdds(v[1..], NewTree(|v| - 1), c, if |w| > 0 then w[1..] else w, x);
    } else {
      InsertAdds(v[1..], ks.tree, c, if |w| > 0 then w[1..] else w, x);
    }
  }

  lemma {:induction false} HeadTail(v: seq<nat>, w: seq<nat>)
    requires |v| > 0
    ensures w == v <==> |w| > 0 && w[0] == v[0] && w[1..] == v[1..]
  {
    if |w| > 0 { assert v == [v[0]] + v[1..] && w == [w[0]] + w[1..]; }
  }

  // ---------- Deletion ----------

  function RemoveFirst(data: seq<Clause>, c: Clause): seq<Clause> {
    if |data| == 0 then [] else if data[0] == c then data[1..] else [data[0]] + RemoveFirst(data[1..], c)
  }

  predicate IsEmpty(t: Tree) {
    match t
    case Leaf(data) => |data| == 0
    case Inner(kids) => kids.NoKid?
  }

  /** None for the fatal errors of a missing node or datum; nodes that become empty are unlinked. */
  function Delete(v: seq<nat>, t: Tree, c: Clause): Option<Tree>
    requires Shaped(t, |v|)
    decreases |v|, 1, NoKid
  {
    match t
    case Leaf(data) => if c in data then Some(Leaf(RemoveFirst(data, c))) else None
    case Inner(kids) =>
      match DeleteKids(v, kids, c)
      case None => None
      case Some(ks) => Some(Inner(ks))
  }

  function DeleteKids(v: seq<nat>, ks: Kids, c: Clause): Option<Kids>
    requires |v| > 0 && KidsShaped(ks, |v| - 1)
    decreases |v|, 0, ks
  {
    if ks.Kid? && v[0] > ks.key then
      match DeleteKids(v, ks.next, c)
      case None => None
      case Some(n) => Some(ks.(next := n))
    else if ks.NoKid? || v[0] != ks.key then None
    else
      match Delete(v[1..], ks.tree, c)
      case None => None
      case Some(t) => Some(if IsEmpty(t) then ks.next else ks.(tree := t))
  }

  lemma {:induction false} RemoveFirstOne(data: seq<Clause>, c: Clause)
    requires c in data
    ensures multiset(RemoveFirst(data, c)) == multiset(data) - multiset{c}
  {
    assert data == [data[0]] + data[1..];
    if data[0] != c { RemoveFirstOne(data[1..], c); }
  }

  /** Nothing is stored under labels that do not occur. */
  lemma {:induction false} OtherLabel(ks: Kids, w: seq<nat>, x: Clause, b: int)
    requires Increasing(ks, b) && (|w| == 0 || w[0] <= b)
    ensures KidStored(ks, w, x) == 0
  {
    if ks.Kid? { OtherLabel(ks.next, w, x, ks.key); }
  }

  lemma {:induction false} EmptyStores(t: Tree, w: seq<nat>, x: Clause)
    requires IsEmpty(t)
    ensures Stored(t, w, x) == 0
  {
  }

  /** Deletion removes one entry, and fails exactly when there is none. */
  lemma {:induction false} DeleteRemoves(v: seq<nat>, t: Tree, c: Clause, w: seq<nat>, x: Clause)
    requires Shaped(t, |v|)
    ensures Delete(v, t, c).None? <==> Stored(t, v, c) == 0
    ensures Delete(v, t, c).Some? ==>
      && Shaped(Delete(v, t, c).value, |v|)
      && Stored(Delete(v, t, c).value, w, x) == Stored(t, w, x) - (if (w, x) == (v, c) then 1 else 0)
    decreases |v|, 1, NoKid
  {
    match t
    case Leaf(data) =>
      if c in data { RemoveFirstOne(data, c); }
      assert v == [];
    case Inner(kids) =>
      DeleteKidsRemoves(v, kids, c, -1, w, x);
  }

  lemma {:induction false} DeleteKidsRemoves(v: seq<nat>, ks: Kids, c: Clause, b: int, w: seq<nat>, x: Clause)
    requires |v| > 0 && KidsShaped(ks, |v| - 1) && Increasing(ks, b)
    ensures DeleteKids(v, ks, c).None? <==> KidStored(ks, v, c) == 0
    ensures DeleteKids(v, ks, c).Some? ==>
      && KidsShaped(DeleteKids(v, ks, c).value, |v| - 1)
      && Increasing(DeleteKids(v, ks, c).value, b)
      && KidStored(DeleteKids(v, ks, c).value, w, x) == KidStored(ks, w, x) - (if (w, x) == (v, c) then 1 else 0)
    decreases |v|, 0, ks
  {
    HeadTail(v, w);
    if ks.Kid? {
      var w1 := if |w| > 0 then w[1..] else w;
      if v[0] > ks.key {
        DeleteKidsRemoves(v, ks.next, c, ks.key, w, x);
      } else {
        OtherLabel(ks.next, v, c, ks.key);
        if v[0] == ks.key {
          DeleteRemoves(v[1..], ks.tree, c, w1, x);
          var r := Delete(v[1..], ks.tree, c);
          if r.Some? && IsEmpty(r.value) {
            EmptyStores(r.value, w1, x);
            WeakerBound(ks.next, b, ks.key);
          }
        }
      }
    }
  }

  lemma {:induction false} WeakerBound(ks: Kids, b: int, b2: int)
    requires Increasing(ks, b2) && b <= b2
    ensures Increasing(ks, b)
  {
  }

  // ---------- Search ----------

  /** The stored clauses whose vector is at most v, in order. */
  function Below(es: seq<Entry>, v: seq<nat>): seq<Clause> {
    if |es| == 0 then [] else (if LessOrEqual(es[0].0, v) then [es[0].1] else []) + Below(es[1..], v)
  }

  /** The stored clauses whose vector is at least v, in order. */
  function AtLeast(es: seq<Entry>, v: seq<nat>): seq<Clause> {
    if |es| == 0 then [] else (if LessOrEqual(v, es[0].0) then [es[0].1] else []) + AtLeast(es[1..], v)
  }

  lemma {:induction false} FilterConcat(a: seq<Entry>, b: seq<Entry>, v: seq<nat>)
    ensures Below(a + b, v) == Below(a, v) + Below(b, v) && AtLeast(a + b, v) == AtLeast(a, v) + AtLeast(b, v)
  {
    if |a| > 0 {
      assert (a + b)[1..] == a[1..] + b;
      FilterConcat(a[1..], b, v);
    } else {
      assert a + b == b;
    }
  }

  lemma {:induction false} ConsCompare(l: nat, w: seq<nat>, v: seq<nat>)
    requires |v| > 0
    ensures LessOrEqual([l] + w, v) <==> l <= v[0] && LessOrEqual(w, v[1..])
    ensures LessOrEqual(v, [l] + w) <==> v[0] <= l && LessOrEqual(v[1..], w)
  {
    var u, t := [l] + w, v[1..];
    assert forall i | 0 <= i < |w| :: w[i] == u[i + 1];
    assert forall i | 0 <= i < |t| :: t[i] == v[i + 1];
    assert forall i | 0 < i < |u| :: u[i] == w[i - 1];
    assert forall i | 0 < i < |v| :: v[i] == t[i - 1];
  }

  lemma {:induction false} FilterPrefix(l: nat, es: seq<Entry>, v: seq<nat>)
    requires |v| > 0
    ensures Below(Prefix(l, es), v) == if l <= v[0] then Below(es, v[1..]) else []
    ensures AtLeast(Prefix(l, es), v) == if v[0] <= l then AtLeast(es, v[1..]) else []
  {
    if |es| > 0 {
      FilterPrefix(l, es[1..], v);
      ConsCompare(l, es[0].0, v);
      assert Prefix(l, es)[1..] == Prefix(l, es[1..]);
    }
  }

  lemma {:induction false} FilterData(data: seq<Clause>)
    ensures Below(Data(data), []) == data && AtLeast(Data(data), []) == data
  {
    if |data| > 0 { FilterData(data[1..]); }
  }

  /** What is left of a walk: at each level the kids still to visit and the rest of the vector. */
  function KidsBelow(ks: Kids, v: seq<nat>): seq<Clause> { Below(KidEntries(ks), v) }
  function KidsAtLeast(ks: Kids, v: seq<nat>): seq<Clause> { AtLeast(KidEntries(ks), v) }

  lemma {:induction false} KidSplit(ks: Kids, v: seq<nat>)
    requires ks.Kid? && |v| > 0
    ensures KidsBelow(ks, v) == (if ks.key <= v[0] then Below(Entries(ks.tree), v[1..]) else []) + KidsBelow(ks.next, v)
    ensures KidsAtLeast(ks, v) == (if v[0] <= ks.key then AtLeast(Entries(ks.tree), v[1..]) else []) +
              KidsAtLeast(ks.next, v)
  {
    FilterConcat(Prefix(ks.key, Entries(ks.tree)), KidEntries(ks.next), v);
    FilterPrefix(ks.key, Entries(ks.tree), v);
  }

  /** Once a label is too big, so are all the following. */
  lemma {:induction false} RestTooBig(ks: Kids, v: seq<nat>, b: int)
    requires |v| > 0 && Increasing(ks, b) && v[0] <= b
    ensures KidsBelow(ks, v) == []
  {
    if ks.Kid? {
      KidSplit(ks, v);
      RestTooBig(ks.next, v, ks.key);
    }
  }

  /** The first clause of a list that subsumes d. */
  function FirstHit(cs: seq<Clause>, d: seq<Literal>): Option<Clause> {
    if |cs| == 0 then None else if Sub(cs[0].lits, d, map[]) then Some(cs[0]) else FirstHit(cs[1..], d)
  }

  lemma {:induction false} FirstHitConcat(a: seq<Clause>, b: seq<Clause>, d: seq<Literal>)
    ensures FirstHit(a + b, d) == if FirstHit(a, d).Some? then FirstHit(a, d) else FirstHit(b, d)
  {
    if |a| > 0 {
      assert (a + b)[1..] == a[1..] + b;
      FirstHitConcat(a[1..], b, d);
    } else {
      assert a + b == b;
    }
  }

  /** The first clause of a list that subsumes d, by a loop. */
  method FirstIn(data: seq<Clause>, d: seq<Literal>) returns (r: Option<Clause>)
    ensures r == FirstHit(data, d)
  {
    assert data[0..] == data;
    for i := 0 to |data|
      invariant FirstHit(data, d) == FirstHit(data[i..], d)
    {
      var b := SubsumeDiLiterals(data[i].lits, d);
      assert data[i..][1..] == data[i + 1..];
      if b { return Some(data[i]); }
    }
    return None;
  }

  // ---------- The walks ----------

  /** Siblings to resume with, innermost level first. */
  datatype Stack = Top | Level(kids: Kids, below: Stack)

  function Depth(st: Stack): nat {
    if st.Top? then 0 else 1 + Depth(st.below)
  }

  function TreeNodes(t: Tree): nat {
    match t
    case Leaf(_) => 0
    case Inner(kids) => KidNodes(kids)
  }

  function KidNodes(ks: Kids): nat {
    match ks
    case NoKid => 0
    case Kid(_, t, next) => 2 + TreeNodes(t) + KidNodes(next)
  }

  function StackNodes(st: Stack): nat {
    if st.Top? then 0 else KidNodes(st.kids) + 1 + StackNodes(st.below)
  }

  /** The kids at a level of a tree for vectors of length n. */
  ghost predicate LevelOk(ks: Kids, n: nat, lev: nat) {
    lev < n && KidsShaped(ks, n - lev - 1) && Increasing(ks, -1)
  }

  ghost predicate StackOk(st: Stack, n: nat) {
    st.Level? ==> LevelOk(st.kids, n, Depth(st.below)) && StackOk(st.below, n)
  }

  /** Bound on the steps left. */
  function Work(ks: Kids, st: Stack): nat { KidNodes(ks) + StackNodes(st) }

  ghost predicate WalkOk(ks: Kids, lev: int, st: Stack, n: nat) {
    0 <= lev < n && LevelOk(ks, n, lev) && StackOk(st, n) && Depth(st) == lev
  }

  /** What is left of a forward walk. */
  ghost function RestBelow(ks: Kids, lev: nat, st: Stack, v: seq<nat>): seq<Clause>
    requires lev == Depth(st) <= |v| && StackOk(st, |v|)
    decreases st
  {
    KidsBelow(ks, v[lev..]) + (if st.Top? then [] else RestBelow(st.kids, lev - 1, st.below, v))
  }

  /** What is left of a backward walk. */
  ghost function RestAtLeast(ks: Kids, lev: nat, st: Stack, v: seq<nat>): seq<Clause>
    requires lev == Depth(st) <= |v| && StackOk(st, |v|)
    decreases st
  {
    KidsAtLeast(ks, v[lev..]) + (if st.Top? then [] else RestAtLeast(st.kids, lev - 1, st.below, v))
  }

  lemma {:induction false} NextOk(ks: Kids, n: nat, lev: nat)
    requires ks.Kid? && LevelOk(ks, n, lev)
    ensures LevelOk(ks.next, n, lev) && (ks.next.Kid? ==> ks.key < ks.next.key)
    ensures lev + 1 < n ==> ks.tree.Inner? && LevelOk(ks.tree.kids, n, lev + 1)
    ensures lev + 1 == n ==> ks.tree.Leaf?
  {
    assert Shaped(ks.tree, n - lev - 1);
    WeakerBound(ks.next, -1, ks.key);
  }

  /** No kid of this level is small enough any more. */
  lemma {:induction false} ForwardPop(ks: Kids, lev: nat, st: Stack, v: seq<nat>)
    requires WalkOk(ks, lev, st, |v|)
    requires ks.NoKid? || ks.key > v[lev]
    ensures RestBelow(ks, lev, st, v) == if st.Top? then [] else RestBelow(st.kids, lev - 1, st.below, v)
    ensures st.Level? ==> WalkOk(st.kids, lev - 1, st.below, |v|) && Work(st.kids, st.below) < Work(ks, st)
  {
    if ks.Kid? {
      KidSplit(ks, v[lev..]);
      RestTooBig(ks.next, v[lev..], ks.key);
    }
  }

  lemma {:induction false} ForwardLeaf(ks: Kids, lev: nat, st: Stack, v: seq<nat>)
    requires WalkOk(ks, lev, st, |v|)
    requires ks.Kid? && ks.key <= v[lev] && lev + 1 == |v|
    ensures ks.tree.Leaf? && WalkOk(ks.next, lev, st, |v|) && Work(ks.next, st) < Work(ks, st)
    ensures RestBelow(ks, lev, st, v) == ks.tree.data + RestBelow(ks.next, lev, st, v)
  {
    NextOk(ks, |v|, lev);
    KidSplit(ks, v[lev..]);
    assert v[lev..][1..] == [];
    FilterData(ks.tree.data);
    Assoc(ks.tree.data, KidsBelow(ks.next, v[lev..]), if st.Top? then [] else RestBelow(st.kids, lev - 1, st.below, v));
  }

  lemma {:induction false} ForwardPush(ks: Kids, lev: nat, st: Stack, v: seq<nat>)
    requires WalkOk(ks, lev, st, |v|)
    requires ks.Kid? && ks.key <= v[lev] && lev + 1 < |v|
    ensures ks.tree.Inner? && WalkOk(ks.tree.kids, lev + 1, Level(ks.next, st), |v|)
    ensures Work(ks.tree.kids, Level(ks.next, st)) < Work(ks, st)
    ensures RestBelow(ks, lev, st, v) == RestBelow(ks.tree.kids, lev + 1, Level(ks.next, st), v)
  {
    NextOk(ks, |v|, lev);
    KidSplit(ks, v[lev..]);
    assert v[lev..][1..] == v[lev + 1..];
    assert TreeNodes(ks.tree) == KidNodes(ks.tree.kids);
    Assoc(KidsBelow(ks.tree.kids, v[lev + 1..]), KidsBelow(ks.next, v[lev..]),
          if st.Top? then [] else RestBelow(st.kids, lev - 1, st.below, v));
  }

  lemma {:induction false} BackPop(lev: nat, st: Stack, v: seq<nat>)
    requires WalkOk(NoKid, lev, st, |v|)
    ensures st.Level? ==> WalkOk(st.kids, lev - 1, st.below, |v|) && Work(st.kids, st.below) < Work(NoKid, st)
    ensures RestAtLeast(NoKid, lev, st, v) == if st.Top? then [] else RestAtLeast(st.kids, lev - 1, st.below, v)
  {
  }

  lemma {:induction false} BackLeaf(ks: Kids, lev: nat, st: Stack, v: seq<nat>)
    requires WalkOk(ks, lev, st, |v|)
    requires ks.Kid? && v[lev] <= ks.key && lev + 1 == |v|
    ensures ks.tree.Leaf? && WalkOk(ks.next, lev, st, |v|) && (ks.next.Kid? ==> v[lev] <= ks.next.key)
    ensures Work(ks.next, st) < Work(ks, st)
    ensures RestAtLeast(ks, lev, st, v) == ks.tree.data + RestAtLeast(ks.next, lev, st, v)
  {
    NextOk(ks, |v|, lev);
    KidSplit(ks, v[lev..]);
    assert v[lev..][1..] == [];
    FilterData(ks.tree.data);
    Assoc(ks.tree.data, KidsAtLeast(ks.next, v[lev..]), if st.Top? then []
        else RestAtLeast(st.kids, lev - 1, st.below, v));
  }

  lemma {:induction false} BackPush(ks: Kids, lev: nat, st: Stack, v: seq<nat>)
    requires WalkOk(ks, lev, st, |v|)
    requires ks.Kid? && v[lev] <= ks.key && lev + 1 < |v|
    ensures ks.tree.Inner? && WalkOk(ks.tree.kids, lev + 1, Level(ks.next, st), |v|)
    ensures Work(ks.tree.kids, Level(ks.next, st)) < Work(ks, st)
    ensures ks.next.Kid? ==> v[lev] <= ks.next.key
    ensures RestAtLeast(ks, lev, st, v) == RestAtLeast(ks.tree.kids, lev + 1, Level(ks.next, st), v)
  {
    NextOk(ks, |v|, lev);
    KidSplit(ks, v[lev..]);
    assert v[lev..][1..] == v[lev + 1..];
    assert TreeNodes(ks.tree) == KidNodes(ks.tree.kids);
    Assoc(KidsAtLeast(ks.tree.kids, v[lev + 1..]), KidsAtLeast(ks.next, v[lev..]),
          if st.Top? then [] else RestAtLeast(st.kids, lev - 1, st.below, v));
  }

  lemma {:induction false} Start(ks: Kids, v: seq<nat>)
    ensures RestBelow(ks, 0, Top, v) == Below(KidEntries(ks), v) &&
              RestAtLeast(ks, 0, Top, v) == AtLeast(KidEntries(ks), v)
  {
    assert v[0..] == v;
  }

  /** The first stored clause, among those with features at most v, that subsumes d. */
  method DiTreeForward(v: seq<nat>, t: Tree, d: seq<Literal>) returns (r: Option<Clause>)
    requires Shaped(t, |v|)
    ensures r == FirstHit(Below(Entries(t), v), d)
  {
    if |v| == 0 {
      FilterData(t.data);
      r := FirstIn(t.data, d);
      return;
    }
    var kid, lev, st := t.kids, 0, Top;
    Start(kid, v);
    while true
      invariant WalkOk(kid, lev, st, |v|)
      invariant FirstHit(Below(Entries(t), v), d) == FirstHit(RestBelow(kid, lev, st, v), d)
      decreases Work(kid, st)
    {
      if kid.NoKid? || kid.key > v[lev] {
        ForwardPop(kid, lev, st, v);
        if st.Top? { return None; }
        kid, lev, st := st.kids, lev - 1, st.below;
      } else if lev + 1 == |v| {
        ForwardLeaf(kid, lev, st, v);
        r := FirstIn(kid.tree.data, d);
        FirstHitConcat(kid.tree.data, RestBelow(kid.next, lev, st, v), d);
        if r.Some? { return; }
        kid := kid.next;
      } else {
        ForwardPush(kid, lev, st, v);
        kid, lev, st := kid.tree.kids, lev + 1, Level(kid.next, st);
      }
    }
  }

  lemma {:induction false} Assoc(a: seq<Clause>, b: seq<Clause>, c: seq<Clause>)
    ensures a + b + c == a + (b + c)
  {
  }

  /** The clauses of a list, other than c itself, that c subsumes; the latest found comes first. */
  function Subsumed(ds: seq<Clause>, c: Clause): seq<Clause> {
    if |ds| == 0 then []
    else Subsumed(ds[1..], c) + (if ds[0].id != c.id && Sub(c.lits, ds[0].lits, map[]) then [ds[0]] else [])
  }

  lemma {:induction false} SubsumedConcat(a: seq<Clause>, b: seq<Clause>, c: Clause)
    ensures Subsumed(a + b, c) == Subsumed(b, c) + Subsumed(a, c)
  {
    if |a| > 0 {
      assert (a + b)[1..] == a[1..] + b;
      SubsumedConcat(a[1..], b, c);
    } else {
      assert a + b == b;
    }
  }

  lemma {:induction false} SubsumedStep(a: seq<Clause>, b: seq<Clause>, c: Clause, r: seq<Clause>)
    ensures Subsumed(a + b, c) + r == Subsumed(b, c) + (Subsumed(a, c) + r)
  {
    SubsumedConcat(a, b, c);
  }

  method CollectFrom(data: seq<Clause>, c: Clause, found: seq<Clause>) returns (r: seq<Clause>)
    ensures r == Subsumed(data, c) + found
  {
    r := found;
    assert data[0..] == data;
    for i := 0 to |data|
      invariant Subsumed(data, c) + found == Subsumed(data[i..], c) + r
    {
      assert data[i..][1..] == data[i + 1..];
      if data[i].id != c.id {
        var b := SubsumeDiLiterals(c.lits, data[i].lits);
        if b {
          Assoc(Subsumed(data[i + 1..], c), [data[i]], r);
          r := [data[i]] + r;
        }
      }
    }
  }

  /** All stored clauses, among those with features at least v, that c subsumes. */
  method DiTreeBack(v: seq<nat>, t: Tree, c: Clause) returns (r: seq<Clause>)
    requires Shaped(t, |v|)
    ensures r == Subsumed(AtLeast(Entries(t), v), c)
  {
    r := [];
    if |v| == 0 {
      FilterData(t.data);
      r := CollectFrom(t.data, c, r);
      return;
    }
    var kid, lev, st := t.kids, 0, Top;
    Start(kid, v);
    kid := SkipSmall(kid, v, lev, st);
    while true
      invariant WalkOk(kid, lev, st, |v|)
      invariant (kid.Kid? ==> v[lev] <= kid.key) && AboveAll(st, v)
      invariant Subsumed(AtLeast(Entries(t), v), c) == Subsumed(RestAtLeast(kid, lev, st, v), c) + r
      decreases Work(kid, st)
    {
      if kid.NoKid? {
        BackPop(lev, st, v);
        if st.Top? { return; }
        kid, lev, st := st.kids, lev - 1, st.below;
      } else if lev + 1 == |v| {
        BackLeaf(kid, lev, st, v);
        SubsumedStep(kid.tree.data, RestAtLeast(kid.next, lev, st, v), c, r);
        r := CollectFrom(kid.tree.data, c, r);
        kid := kid.next;
      } else {
        BackPush(kid, lev, st, v);
        st, lev, kid := Level(kid.next, st), lev + 1, kid.tree.kids;
        kid := SkipSmall(kid, v, lev, st);
      }
    }
  }

  /** Kids to resume with are not too small. */
  ghost predicate AboveAll(st: Stack, v: seq<nat>) {
    st.Level? ==> Depth(st.below) < |v| && (st.kids.Kid? ==> v[Depth(st.below)] <= st.kids.key) && AboveAll(st.below, v)
  }

  method SkipSmall(ks: Kids, v: seq<nat>, lev: nat, ghost st: Stack) returns (r: Kids)
    requires WalkOk(ks, lev, st, |v|)
    ensures WalkOk(r, lev, st, |v|) && (r.Kid? ==> v[lev] <= r.key)
    ensures RestAtLeast(r, lev, st, v) == RestAtLeast(ks, lev, st, v) && Work(r, st) <= Work(ks, st)
  {
    r := ks;
    while r.Kid? && r.key < v[lev]
      invariant LevelOk(r, |v|, lev) && KidNodes(r) <= KidNodes(ks)
      invariant KidsAtLeast(r, v[lev..]) == KidsAtLeast(ks, v[lev..])
      decreases r
    {
      KidSplit(r, v[lev..]);
      NextOk(r, |v|, lev);
      r := r.next;
    }
  }
}

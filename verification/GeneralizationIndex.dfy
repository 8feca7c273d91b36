/** A discrimination tree under any run of insertions and deletions, compared with a plain list
    of what is stored (discrim_bind_insert, discrim_bind_delete, and both ways of retrieving: ladr/discrimb.c,
    ladr/flatdemod.c). */
module GeneralizationIndex {
  import opened Options
  import opened Terms
  import opened DiscrimTree
  import opened FlatRetrieval
  import opened Flatterm
  import BindRetrieval

  type Stored<O> = (Term, O)

  function Paths<O>(live: seq<Stored<O>>): (r: seq<Entry<O>>)
    ensures |r| == |live| && forall i | 0 <= i < |live| :: r[i] == (PathOf(live[i].0), live[i].1)
  {
    seq(|live|, i requires 0 <= i < |live| => (PathOf(live[i].0), live[i].1))
  }

  function TryMatch<O>(e: Stored<O>, t: Term): seq<(O, Subst)> {
    match Match(e.0, t, map[]) case None => [] case Some(s) => [(e.1, s)]
  }

  /** The simple form: match the query against every stored key. */
  function MatchScan<O>(live: seq<Stored<O>>, t: Term): seq<(O, Subst)> {
    if |live| == 0 then [] else TryMatch(live[0], t) + MatchScan(live[1..], t)
  }

  lemma {:induction false} ScanIsMatchScan<O>(live: seq<Stored<O>>, t: Term)
    ensures Scan(Paths(live), [t], map[]) == MatchScan(live, t)
  {
    if |live| > 0 {
      assert Paths(live)[1..] == Paths(live[1..]);
      KeyMatches(live[0].0, t);
      ScanIsMatchScan(live[1..], t);
    }
  }

  /** Different keys have different paths. */
  lemma {:induction false} PathInjective(ts: seq<Term>, us: seq<Term>)
    requires |ts| == |us| && PathAll(ts) == PathAll(us)
    ensures ts == us
    decreases SizeAll(ts)
  {
    if |ts| > 0 {
      PendingShrinks(ts);
      var ts2, us2 := Args(ts[0]) + ts[1..], Args(us[0]) + us[1..];
      assert PathAll(ts)[0] == TopLabel(ts[0]) && PathAll(us)[0] == TopLabel(us[0]);
      assert PathAll(ts)[1..] == PathAll(ts2) && PathAll(us)[1..] == PathAll(us2);
      SameLabels(ts, us);
      PathInjective(ts2, us2);
    }
  }

  ghost function TopsFrom(p: Positions, i: nat): Path
    requires i <= |p| && Chained(p)
    decreases |p| - i
  {
    if i == |p| then [] else [TopLabel(p[i][0])] + TopsFrom(p, i + 1)
  }

  lemma {:induction false} PathFrom(p: Positions, i: nat, us: seq<Term>)
    requires Chained(p) && At(p, i, us)
    ensures PathAll(us) == TopsFrom(p, i)
    decreases |p| - i
  {
    if |us| > 0 {
      assert us + [] == us;
      StepOver(p, i, us, []);
      PathFrom(p, i + 1, Args(us[0]) + us[1..] + []);
      assert Args(us[0]) + us[1..] + [] == Args(us[0]) + us[1..];
    }
  }

  lemma {:induction false} SameTops(p: Positions, r: Positions, cells: seq<Cell>, i: nat)
    requires Chained(p) && Chained(r) && CellsOf(p, cells) && CellsOf(r, cells) && i <= |cells|
    ensures TopsFrom(p, i) == TopsFrom(r, i)
    decreases |p| - i
  {
    if i < |p| { SameTops(p, r, cells, i + 1); }
  }

  /** A flatterm belongs to one term only. */
  lemma {:induction false} FlattermDetermines(q: Term, r: Term, cells: seq<Cell>)
    requires IsFlatterm(q, cells) && IsFlatterm(r, cells)
    ensures q == r
  {
    var s, t := Pends([q]), Pends([r]);
    PendChained([q]);
    PendChained([r]);
    NoTerms([q]);
    NoTerms([r]);
    PathFrom(s, 0, [q]);
    PathFrom(t, 0, [r]);
    SameTops(s, t, cells, 0);
    PathInjective([q], [r]);
    assert q == [q][0] == [r][0];
  }

  lemma {:induction false} MultisetMiddle<T>(a: seq<T>, x: seq<T>, b: seq<T>)
    ensures multiset(a + (x + b)) == multiset(x) + multiset(a + b)
    ensures multiset(a + b) == multiset(a + (x + b)) - multiset(x)
  {
  }

  lemma {:induction false} ScanAround<O>(before: seq<Entry<O>>, e: Entry<O>, after: seq<Entry<O>>, t: Term)
    ensures multiset(Scan(before + ([e] + after), [t], map[])) ==
            multiset(TryEntry(e, [t], map[])) + multiset(Scan(before + after, [t], map[]))
  {
    ScanConcat(before, [e] + after, [t], map[]);
    assert ([e] + after)[1..] == after;
    ScanConcat(before, after, [t], map[]);
    MultisetMiddle(Scan(before, [t], map[]), TryEntry(e, [t], map[]), Scan(after, [t], map[]));
  }

  /** The order of the entries does not matter to the multiset of answers. */
  lemma {:induction false} ScanPermutes<O>(es: seq<Entry<O>>, fs: seq<Entry<O>>, t: Term)
    requires multiset(es) == multiset(fs)
    ensures multiset(Scan(es, [t], map[])) == multiset(Scan(fs, [t], map[]))
  {
    if |es| == 0 {
      assert |multiset(fs)| == 0;
    } else {
      var before, after := SplitAt(fs, es[0]);
      assert es == [] + ([es[0]] + es[1..]) && [] + es[1..] == es[1..];
      MultisetMiddle([], [es[0]], es[1..]);
      MultisetMiddle(before, [es[0]], after);
      ScanPermutes(es[1..], before + after, t);
      ScanAround([], es[0], es[1..], t);
      ScanAround(before, es[0], after, t);
    }
  }

  lemma {:induction false} SplitAt<T>(s: seq<T>, x: T) returns (before: seq<T>, after: seq<T>)
    requires x in multiset(s)
    ensures s == before + ([x] + after)
  {
    var i :| 0 <= i < |s| && s[i] == x;
    before, after := s[..i], s[i + 1..];
  }

  lemma {:induction false} MultisetWithout<T>(s: seq<T>, i: nat)
    requires i < |s|
    ensures multiset(s[..i] + s[i + 1..]) == multiset(s) - multiset{s[i]}
  {
    assert s == s[..i] + ([s[i]] + s[i + 1..]);
  }

  // ---------- Variable keys ----------

  /** The least variable that is a key by itself. */
  function LeastVar<O>(live: seq<Stored<O>>): (r: Option<nat>)
    ensures r.None? ==> forall i | 0 <= i < |live| :: live[i].0.App?
    ensures r.Some? ==> forall i | 0 <= i < |live| && live[i].0.Var? :: r.value <= live[i].0.n
    ensures r.Some? ==> exists i :: 0 <= i < |live| && live[i].0 == Var(r.value)
  {
    if |live| == 0 then None else
      var rest := LeastVar(live[1..]);
      var t := live[0].0;
      assert rest.Some? ==> exists i :: 0 < i < |live| && live[i].0 == Var(rest.value) by {
        if rest.Some? {
          var j :| 0 <= j < |live[1..]| && live[1..][j].0 == Var(rest.value);
          assert live[j + 1].0 == Var(rest.value);
        }
      }
      if t.Var? && (rest.None? || t.n <= rest.value) then Some(t.n) else rest
  }

  /** The pairs whose key is, or is not, the variable n. */
  function KeyedBy<O>(live: seq<Stored<O>>, n: nat, yes: bool): seq<Stored<O>> {
    if |live| == 0 then []
    else (if (live[0].0 == Var(n)) == yes then [live[0]] else []) + KeyedBy(live[1..], n, yes)
  }

  /** The pairs that retrieval with a flatterm can find. */
  function Seen<O>(live: seq<Stored<O>>): seq<Stored<O>> {
    match LeastVar(live) case None => live case Some(n) => KeyedBy(live, n, true)
  }

  lemma {:induction false} OnEitherSide<T>(x: seq<T>, all: seq<T>, yes: seq<T>, no: seq<T>)
    requires multiset(all) == multiset(yes) + multiset(no)
    ensures multiset(x + all) == multiset(x + yes) + multiset(no)
    ensures multiset(x + all) == multiset(yes) + multiset(x + no)
  {
  }

  lemma {:induction false} KeyedFirst<O>(live: seq<Stored<O>>, n: nat, yes: bool, t: Term)
    requires |live| > 0
    ensures MatchScan(KeyedBy(live, n, yes), t) ==
            (if (live[0].0 == Var(n)) == yes then TryMatch(live[0], t) else []) +
                MatchScan(KeyedBy(live[1..], n, yes), t)
  {
    var rest := KeyedBy(live[1..], n, yes);
    if (live[0].0 == Var(n)) == yes {
      var all := [live[0]] + rest;
      assert KeyedBy(live, n, yes) == all && all[1..] == rest;
    } else {
      assert KeyedBy(live, n, yes) == [] + rest == rest;
    }
  }

  lemma {:induction false} KeyedScan<O>(live: seq<Stored<O>>, n: nat, t: Term)
    ensures multiset(MatchScan(live, t)) ==
            multiset(MatchScan(KeyedBy(live, n, true), t)) + multiset(MatchScan(KeyedBy(live, n, false), t))
  {
    if |live| > 0 {
      KeyedScan(live[1..], n, t);
      KeyedFirst(live, n, true, t);
      KeyedFirst(live, n, false, t);
      var yes, no := MatchScan(KeyedBy(live[1..], n, true), t), MatchScan(KeyedBy(live[1..], n, false), t);
      OnEitherSide(TryMatch(live[0], t), MatchScan(live[1..], t), yes, no);
    }
  }

  /** Every pair with another key than the variable n fails to match. */
  ghost predicate OthersFail<O(!new)>(live: seq<Stored<O>>, n: nat, t: Term) {
    forall e | e in live && e.0 != Var(n) :: Match(e.0, t, map[]).None?
  }

  lemma {:induction false} NothingScanned<O(!new)>(live: seq<Stored<O>>, n: nat, t: Term)
    ensures MatchScan(KeyedBy(live, n, false), t) == [] <==> OthersFail(live, n, t)
  {
    if |live| > 0 {
      NothingScanned(live[1..], n, t);
      KeyedFirst(live, n, false, t);
      assert forall e :: e in live <==> e == live[0] || e in live[1..];
    }
  }

  /** Exactly when an answer is missed: some key is a variable, and a key other than the least
      variable matches the query. */
  lemma {:induction false} AnswersMissed<O(!new)>(live: seq<Stored<O>>, t: Term)
    ensures multiset(MatchScan(Seen(live), t)) <= multiset(MatchScan(live, t))
    ensures multiset(MatchScan(Seen(live), t)) != multiset(MatchScan(live, t)) <==>
            LeastVar(live).Some? && !OthersFail(live, LeastVar(live).value, t)
  {
    match LeastVar(live)
    case None =>
    case Some(n) =>
      KeyedScan(live, n, t);
      NothingScanned(live, n, t);
      var lost := MatchScan(KeyedBy(live, n, false), t);
      assert |multiset(lost)| == |lost|;
  }

  /** The entries whose path starts with a label. */
  function Pick<O>(es: seq<Entry<O>>, l: Label): seq<Entry<O>> {
    if |es| == 0 then [] else Picked(es[0], l) + Pick(es[1..], l)
  }

  function Picked<O>(e: Entry<O>, l: Label): seq<Entry<O>> {
    if |e.0| > 0 && e.0[0] == l then [e] else []
  }

  lemma {:induction false} PickConcat<O>(es: seq<Entry<O>>, fs: seq<Entry<O>>, l: Label)
    ensures Pick(es + fs, l) == Pick(es, l) + Pick(fs, l)
  {
    if |es| == 0 {
      assert es + fs == fs;
    } else {
      assert (es + fs)[1..] == es[1..] + fs;
      PickConcat(es[1..], fs, l);
      var x, y, z := Picked(es[0], l), Pick(es[1..], l), Pick(fs, l);
      assert x + (y + z) == (x + y) + z;
    }
  }

  lemma {:induction false} PickPermutes<O>(es: seq<Entry<O>>, fs: seq<Entry<O>>, l: Label)
    requires multiset(es) == multiset(fs)
    ensures multiset(Pick(es, l)) == multiset(Pick(fs, l))
  {
    if |es| == 0 {
      assert |multiset(fs)| == 0;
    } else {
      var before, after := SplitAt(fs, es[0]);
      assert es == [] + ([es[0]] + es[1..]) && [] + es[1..] == es[1..];
      MultisetMiddle([], [es[0]], es[1..]);
      MultisetMiddle(before, [es[0]], after);
      PickPermutes(es[1..], before + after, l);
      PickAround(before, es[0], after, l);
    }
  }

  lemma {:induction false} PickAround<O>(before: seq<Entry<O>>, e: Entry<O>, after: seq<Entry<O>>, l: Label)
    ensures multiset(Pick(before + ([e] + after), l)) == multiset(Pick([e], l)) + multiset(Pick(before + after, l))
    ensures Pick([e], l) == Picked(e, l)
  {
    PickConcat(before, [e] + after, l);
    PickConcat([e], after, l);
    PickConcat(before, after, l);
    MultisetMiddle(Pick(before, l), Pick([e], l), Pick(after, l));
  }

  lemma {:induction false} PickPrefixed<O>(m: Label, es: seq<Entry<O>>, l: Label)
    ensures Pick(Prefixed(m, es), l) == if m == l then Prefixed(m, es) else []
  {
    if |es| > 0 {
      assert Prefixed(m, es)[1..] == Prefixed(m, es[1..]);
      PickPrefixed(m, es[1..], l);
    }
  }

  lemma {:induction false} PickNothing<O>(kids: seq<Discrim<O>>, l: Label)
    requires forall i | 0 <= i < |kids| :: kids[i].mark != l
    ensures Pick(EntriesAll(kids), l) == []
  {
    if |kids| > 0 {
      PickConcat(Entries(kids[0]), EntriesAll(kids[1..]), l);
      PickPrefixed(kids[0].mark, Leaf(kids[0].data) + EntriesAll(kids[0].kids), l);
      PickNothing(kids[1..], l);
    }
  }

  lemma {:induction false} PickFirst<O>(kids: seq<Discrim<O>>)
    requires |kids| > 0 && SortedKids(kids)
    ensures Pick(EntriesAll(kids), kids[0].mark) == Entries(kids[0])
  {
    var l := kids[0].mark;
    PickConcat(Entries(kids[0]), EntriesAll(kids[1..]), l);
    PickPrefixed(l, Leaf(kids[0].data) + EntriesAll(kids[0].kids), l);
    forall i | 0 <= i < |kids[1..]| ensures kids[1..][i].mark != l { assert LabelLess(l, kids[i + 1].mark); }
    PickNothing(kids[1..], l);
  }

  lemma {:induction false} PickPaths<O>(live: seq<Stored<O>>, n: nat)
    ensures Pick(Paths(live), DVar(n)) == Paths(KeyedBy(live, n, true))
  {
    if |live| > 0 {
      var rest := KeyedBy(live[1..], n, true);
      assert Paths(live)[1..] == Paths(live[1..]);
      PickPaths(live[1..], n);
      assert PathOf(live[0].0)[0] == TopLabel(live[0].0);
      assert Paths([live[0]] + rest) == [(PathOf(live[0].0), live[0].1)] + Paths(rest);
    }
  }

  /** The first kid of the root is the top of some key. */
  lemma {:induction false} FirstKid<O>(kids: seq<Discrim<O>>, live: seq<Stored<O>>) returns (i: nat)
    requires FormedAll(kids, 1) && multiset(EntriesAll(kids)) == multiset(Paths(live)) && |kids| > 0
    ensures i < |live| && TopLabel(live[i].0) == kids[0].mark
  {
    var e := FormedHasEntry(kids[0], After(1, kids[0].mark));
    assert e in EntriesAll(kids);
    assert e in multiset(Paths(live));
    i :| 0 <= i < |live| && Paths(live)[i] == e;
    assert PathOf(live[i].0)[0] == TopLabel(live[i].0);
  }

  /** The first kid of the root is the least variable key, if there is one. */
  lemma {:induction false} RootVariable<O>(kids: seq<Discrim<O>>, live: seq<Stored<O>>)
    requires FormedAll(kids, 1) && multiset(EntriesAll(kids)) == multiset(Paths(live))
    ensures RootBinding(kids) == LeastVar(live)
  {
    match LeastVar(live)
    case None => if |kids| > 0 { var i := FirstKid(kids, live); }
    case Some(n) =>
      var i :| 0 <= i < |live| && live[i].0 == Var(n);
      VariableKid(kids, live, i);
      var k := FirstKid(kids, live);
  }

  lemma {:induction false} VariableKid<O>(kids: seq<Discrim<O>>, live: seq<Stored<O>>, i: nat)
    requires FormedAll(kids, 1) && multiset(EntriesAll(kids)) == multiset(Paths(live)) && i < |live| && live[i].0.Var?
    ensures |kids| > 0 && kids[0].mark.DVar? && kids[0].mark.n <= live[i].0.n
  {
    var e := Paths(live)[i];
    assert e in multiset(Paths(live));
    assert e in EntriesAll(kids);
    var j := EntriesKid(kids, e);
    var es := Leaf(kids[j].data) + EntriesAll(kids[j].kids);
    var k :| 0 <= k < |es| && Entries(kids[j])[k] == e;
    assert PathOf(live[i].0)[0] == TopLabel(live[i].0) == kids[j].mark;
    if j > 0 { assert LabelLess(kids[0].mark, kids[j].mark); }
  }

  lemma {:induction false} FormedHasEntry<O>(d: Discrim<O>, need: nat) returns (e: Entry<O>)
    requires Formed(d, need)
    ensures e in Entries(d) && |e.0| > 0 && e.0[0] == d.mark
    decreases d
  {
    var es := Leaf(d.data) + EntriesAll(d.kids);
    if need > 0 {
      var f := FormedHasEntry(d.kids[0], After(need, d.kids[0].mark));
    }
    assert |es| > 0;
    e := Entries(d)[0];
  }

  /** The kids that the walk gets to hold the pairs that can be found. */
  lemma {:induction false} TriedIsSeen<O>(kids: seq<Discrim<O>>, live: seq<Stored<O>>, t: Term)
    requires FormedAll(kids, 1) && multiset(EntriesAll(kids)) == multiset(Paths(live))
    ensures multiset(Answers(Enum(Tried(kids), [t], map[]))) == multiset(MatchScan(Seen(live), t))
  {
    RootVariable(kids, live);
    EnumIsScan(Tried(kids), [t], map[]);
    if RootBinding(kids).Some? {
      var n := kids[0].mark.n;
      PickFirst(kids);
      PickPaths(live, n);
      PickPermutes(EntriesAll(kids), Paths(live), DVar(n));
      assert kids[..1][1..] == [];
      assert EntriesAll(kids[..1]) == Entries(kids[0]) + [] == Entries(kids[0]);
    }
    ScanPermutes(EntriesAll(Tried(kids)), Paths(Seen(live)), t);
    ScanIsMatchScan(Seen(live), t);
  }

  class Index<O(==)> {
    var kids: seq<Discrim<O>>
    ghost var live: seq<Stored<O>>

    ghost predicate Valid()
      reads this
    {
      FormedAll(kids, 1) && multiset(EntriesAll(kids)) == multiset(Paths(live))
    }

    constructor ()
      ensures Valid() && live == []
    {
      kids, live := [], [];
    }

    method Add(key: Term, o: O)
      requires Valid()
      modifies this
      ensures Valid() && live == old(live) + [(key, o)]
    {
      PathSpells([key]);
      InsertFormed(kids, PathOf(key), o, 1);
      ghost var a, b := InsertAddsOne(kids, PathOf(key), o);
      kids := Insert(kids, PathOf(key), o);
      assert Paths(live + [(key, o)]) == Paths(live) + [(PathOf(key), o)];
      live := live + [(key, o)];
    }

    /** Fails, changing nothing, exactly when the object is not stored under that key. */
    method Remove(key: Term, o: O) returns (found: bool)
      requires Valid()
      modifies this
      ensures Valid() && (found <==> (key, o) in old(live))
      ensures if found then exists i ::
                0 <= i < |old(live)| && old(live)[i] == (key, o) &&
                live == old(live)[..i] + old(live)[i + 1..]
              else live == old(live) && kids == old(kids)
    {
      PathSpells([key]);
      DeleteSucceeds(kids, PathOf(key), o, 1);
      StoredIffEntry(key, o);
      match Delete(kids, PathOf(key), o)
      case None => found := false;
      case Some(rest) =>
        found := true;
        DeleteFormed(kids, PathOf(key), o, 1);
        ghost var i :| 0 <= i < |live| && live[i] == (key, o);
        RemovedOne(kids, live, i);
        kids := rest;
        live := live[..i] + live[i + 1..];
    }

    lemma {:induction false} StoredIffEntry(key: Term, o: O)
      requires Valid()
      ensures (key, o) in live <==> (PathOf(key), o) in EntriesAll(kids)
    {
      var e := (PathOf(key), o);
      assert e in EntriesAll(kids) <==> e in multiset(EntriesAll(kids));
      if (key, o) in live {
        var i :| 0 <= i < |live| && live[i] == (key, o);
        assert Paths(live)[i] == e;
      }
      if e in multiset(Paths(live)) {
        var i :| 0 <= i < |live| && Paths(live)[i] == e;
        PathInjective([live[i].0], [key]);
        assert live[i].0 == [live[i].0][0] == key;
      }
    }

    /** What a retrieval must find is what the linear scan finds, each as often. */
    lemma {:induction false} AnswersAreMatches(t: Term)
      requires Valid()
      ensures multiset(Answers(Enum(kids, [t], map[]))) == multiset(MatchScan(live, t))
    {
      EnumIsScan(kids, [t], map[]);
      ScanPermutes(EntriesAll(kids), Paths(live), t);
      ScanIsMatchScan(live, t);
    }

    /** Retrieval with a flatterm: all matching pairs that can be found.  If some key is a variable
        these are only those of the least variable (AnswersMissed), and the query is left unclean. */
    method Generalizations(q: Query<O>) returns (objects: seq<O>, ghost answers: seq<(O, Subst)>)
      requires Valid() && q.Clean()
      modifies q
      ensures multiset(answers) == multiset(MatchScan(Seen(live), q.q))
      ensures q.Clean() <==> forall i | 0 <= i < |live| :: live[i].0.App?
      ensures |objects| == |answers| && forall i | 0 <= i < |objects| :: objects[i] == answers[i].0
    {
      RootVariable(kids, live);
      TriedIsSeen(kids, live, q.q);
      objects, answers := q.RetrieveAll(kids);
    }

    /** The same with an ordinary term as query, here for any keys, variables included. */
    method TermGeneralizations(q: BindRetrieval.BindQuery<O>) returns (answers: seq<(O, Subst)>)
      requires Valid() && q.Clean()
      modifies q
      ensures q.Clean() && multiset(answers) == multiset(MatchScan(live, q.t))
    {
      AnswersAreMatches(q.t);
      answers := q.RetrieveAll(kids);
    }
  }

  method TwoKeyIndex() returns (index: Index<nat>)
    ensures fresh(index) && index.Valid() && index.live == [(Var(0), 1), (App(5, []), 2)]
  {
    index := new Index();
    index.Add(Var(0), 1);
    index.Add(App(5, []), 2);
  }

  /** A run that misses an answer: with the keys x and c, a query for c finds only the object of x,
      and x stays bound. */
  method VariableKeyStops() returns (objects: seq<nat>, index: Index<nat>, q: Query<nat>)
    ensures index.live == [(Var(0), 1), (App(5, []), 2)] && q.q == App(5, [])
    ensures MatchScan(index.live, q.q) == [(1, map[0 := q.q]), (2, map[])]
    ensures objects == [1] && !q.Clean()
  {
    index := TwoKeyIndex();
    var cells := TermToFlatterm(App(5, []));
    q := new Query(App(5, []), cells);
    TwoKeys(index.live, q.q);
    assert index.live[0].0.Var?;
    ghost var answers;
    objects, answers := index.Generalizations(q);
    OnlyOne(answers, (1, map[0 := q.q]));
  }

  lemma {:induction false} TwoKeys(live: seq<Stored<nat>>, t: Term)
    requires live == [(Var(0), 1), (App(5, []), 2)] && t == App(5, [])
    ensures MatchScan(live, t) == [(1, map[0 := t]), (2, map[])]
    ensures multiset(MatchScan(Seen(live), t)) == multiset{(1, map[0 := t])}
  {
    var one: seq<Stored<nat>> := [(App(5, []), 2)];
    assert live[1..] == one && one[1..] == [];
    assert Match(App(5, []), t, map[]) == Some(map[]);
    assert LeastVar(one) == None && LeastVar(live) == Some(0);
    assert KeyedBy(one, 0, true) == [] && KeyedBy(live, 0, true) == [live[0]];
    var first := [live[0]];
    assert first[1..] == [];
    assert MatchScan([live[0]], t) == [(1, map[0 := t])] + [];
    assert MatchScan(one, t) == [(2, map[])] + [];
  }

  lemma {:induction false} OnlyOne<T>(s: seq<T>, x: T)
    requires multiset(s) == multiset{x}
    ensures s == [x]
  {
    assert |s| == |multiset(s)| == 1;
    assert s[0] in multiset(s);
  }

  lemma {:induction false} RemovedOne<O>(kids: seq<Discrim<O>>, live: seq<Stored<O>>, i: nat)
    requires multiset(EntriesAll(kids)) == multiset(Paths(live)) && i < |live|
    requires Delete(kids, PathOf(live[i].0), live[i].1).Some?
    ensures var rest := Delete(kids, PathOf(live[i].0), live[i].1).value;
            multiset(EntriesAll(rest)) == multiset(Paths(live[..i] + live[i + 1..]))
  {
    var e := Paths(live)[i];
    DeleteGone(kids, e);
    PathsWithout(live, i);
  }

  lemma {:induction false} PathsWithout<O>(live: seq<Stored<O>>, i: nat)
    requires i < |live|
    ensures multiset(Paths(live[..i] + live[i + 1..])) == multiset(Paths(live)) - multiset{Paths(live)[i]}
  {
    MultisetWithout(Paths(live), i);
    assert Paths(live[..i] + live[i + 1..]) == Paths(live)[..i] + Paths(live)[i + 1..];
  }

  lemma {:induction false} DeleteGone<O>(kids: seq<Discrim<O>>, e: Entry<O>)
    requires |e.0| > 0 && Delete(kids, e.0, e.1).Some?
    ensures multiset(EntriesAll(Delete(kids, e.0, e.1).value)) == multiset(EntriesAll(kids)) - multiset{e}
  {
    var a, b := DeleteRemovesOne(kids, e.0, e.1);
    MultisetGone(a, e, b);
  }

  lemma {:induction false} MultisetGone<T>(a: seq<T>, e: T, b: seq<T>)
    ensures multiset(a + b) == multiset(a + [e] + b) - multiset{e}
  {
  }
}

/** The index for forward and backward subsumption: the tree keyed by feature vectors (ladr/di_tree.c,
    ladr/features.c). */
module SubsumptionIndex {
  import opened Options
  import opened Terms
  import opened Subsume
  import F = Features
  import opened DiTree

  /** Some instance of c has its literals among those of d, different literals going to different ones. */
  ghost predicate Embeds(c: seq<Literal>, d: seq<Literal>, s: Subst) {
    && (forall i | 0 <= i < |c| :: Vars(c[i].atom) <= s.Keys)
    && multiset(F.Instances(c, s)) <= multiset(d)
  }

  lemma {:induction false} EmbedsSubsumes(c: seq<Literal>, d: seq<Literal>, s: Subst)
    requires Embeds(c, d, s)
    ensures Sub(c, d, map[])
  {
    var e := F.Instances(c, s);
    forall i | 0 <= i < |c| ensures Literal(c[i].sign, Apply(c[i].atom, s)) in d {
      assert e[i] in multiset(e);
      assert e[i] in multiset(d);
    }
    assert Maps(c, d, s);
    SubMeans(c, d);
  }

  /** A subsumer that sends two literals to one is ruled out by the features: p(x) | p(y) subsumes p(a). */
  lemma {:induction false} TwoToOne(symbols: seq<nat>, functions: set<nat>)
    ensures var c := [Literal(true, App(1, [Var(0)])), Literal(true, App(1, [Var(1)]))];
            var d := [Literal(true, App(1, [App(2, [])]))];
            Sub(c, d, map[]) && !F.LessOrEqual(F.Vector(c, symbols, functions), F.Vector(d, symbols, functions))
  {
    var x: Term, y: Term, a: Term := Var(0), Var(1), App(2, []);
    var c := [Literal(true, App(1, [x])), Literal(true, App(1, [y]))];
    var d := [Literal(true, App(1, [a]))];
    var s: Subst := map[0 := a, 1 := a];
    forall t: Term | t == x || t == y ensures Vars(App(1, [t])) <= s.Keys && Apply(App(1, [t]), s) == App(1, [a]) {
      assert [t][1..] == [];
      assert VarsAll([t]) == Vars(t) + VarsAll([t][1..]);
      assert ApplyAll([t], s) == [Apply(t, s)] + ApplyAll([t][1..], s);
    }
    assert Maps(c, d, s);
    SubMeans(c, d);
    assert c[1..][1..] == [] && d[1..] == [];
    assert F.Literals(c[1..], true) == 1 && F.Literals(c, true) == 2 && F.Literals(d, true) == 1;
    assert F.Vector(c, symbols, functions)[0] == 2 && F.Vector(d, symbols, functions)[0] == 1;
  }

  type Key = Clause -> seq<nat>

  /** Every entry stands under its own key. */
  ghost predicate Keyed(es: seq<Entry>, key: Key) {
    forall i | 0 <= i < |es| :: es[i].0 == key(es[i].1)
  }

  lemma {:induction false} FilterCount(es: seq<Entry>, key: Key, v: seq<nat>, x: Clause)
    requires Keyed(es, key)
    ensures multiset(Below(es, v))[x] == if F.LessOrEqual(key(x), v) then multiset(es)[(key(x), x)] else 0
    ensures multiset(AtLeast(es, v))[x] == if F.LessOrEqual(v, key(x)) then multiset(es)[(key(x), x)] else 0
  {
    if |es| > 0 {
      assert es == [es[0]] + es[1..];
      FilterCount(es[1..], key, v, x);
      assert es[0].0 == key(es[0].1);
    }
  }

  lemma {:induction false} FirstHitMeans(cs: seq<Clause>, d: seq<Literal>)
    ensures FirstHit(cs, d).Some? ==> FirstHit(cs, d).value in cs && Sub(FirstHit(cs, d).value.lits, d, map[])
    ensures FirstHit(cs, d).None? ==> forall c | c in cs :: !Sub(c.lits, d, map[])
  {
    if |cs| > 0 { FirstHitMeans(cs[1..], d); }
  }

  lemma {:induction false} SubsumedCount(ds: seq<Clause>, c: Clause, x: Clause)
    ensures multiset(Subsumed(ds, c))[x] == if x.id != c.id && Sub(c.lits, x.lits, map[]) then multiset(ds)[x] else 0
  {
    if |ds| > 0 {
      assert ds == [ds[0]] + ds[1..];
      SubsumedCount(ds[1..], c, x);
    }
  }

  class Index {
    const work: F.Work
    var root: Tree
    ghost var clauses: multiset<Clause>

    ghost function Key(): Key {
      var w := work;
      (c: Clause) => F.Vector(c.lits, w.symbols, w.functions)
    }

    /** The tree holds each clause as often as it was inserted, under its feature vector. */
    ghost predicate Valid()
      reads this, work.posOcc, work.negOcc, work.posDeep, work.negDeep
    {
      && work.Valid() && Shaped(root, VectorLength(work))
      && (forall w, x :: Stored(root, w, x) == if w == Key()(x) then clauses[x] else 0)
    }

    constructor (work: F.Work)
      requires work.Valid()
      ensures Valid() && clauses == multiset{} && this.work == work
    {
      this.work := work;
      root := NewTree(VectorLength(work));
      clauses := multiset{};
      new;
      forall w, x ensures Stored(root, w, x) == 0 { NewTreeEmpty(VectorLength(work), w, x); }
    }

    method Insert(c: Clause)
      requires Valid()
      modifies this, work.posOcc, work.negOcc, work.posDeep, work.negDeep
      ensures Valid() && clauses == old(clauses) + multiset{c}
    {
      var v := work.Compute(c.lits);
      KeyLength(work, c.lits);
      ghost var t := root;
      root := DiTree.Insert(v, root, c);
      clauses := clauses + multiset{c};
      forall w, x ensures Shaped(root, |v|) && Stored(root, w, x) == if w == Key()(x) then clauses[x] else 0 {
        InsertAdds(v, t, c, w, x);
      }
      InsertAdds(v, t, c, v, c);
    }

    /** False for the fatal error of a clause that is not stored. */
    method Delete(c: Clause) returns (ok: bool)
      requires Valid()
      modifies this, work.posOcc, work.negOcc, work.posDeep, work.negDeep
      ensures Valid() && ok == (c in old(clauses))
      ensures clauses == if ok then old(clauses) - multiset{c} else old(clauses)
    {
      var v := work.Compute(c.lits);
      KeyLength(work, c.lits);
      ghost var t := root;
      var r := DiTree.Delete(v, root, c);
      DeleteRemoves(v, t, c, v, c);
      assert Stored(t, v, c) == clauses[c];
      if r.None? { return false; }
      root := r.value;
      clauses := clauses - multiset{c};
      forall w, x ensures Stored(root, w, x) == if w == Key()(x) then clauses[x] else 0 {
        DeleteRemoves(v, t, c, w, x);
      }
      ok := true;
    }

    lemma {:induction false} EntriesKeyed()
      requires Valid()
      ensures Keyed(Entries(root), Key())
      ensures forall x :: multiset(Entries(root))[(Key()(x), x)] == clauses[x]
    {
      var es := Entries(root);
      forall i | 0 <= i < |es| ensures es[i].0 == Key()(es[i].1) {
        assert es[i] in multiset(es) && es[i] == (es[i].0, es[i].1);
        StoredEntries(root, es[i].0, es[i].1);
      }
      forall x ensures multiset(es)[(Key()(x), x)] == clauses[x] { StoredEntries(root, Key()(x), x); }
    }

    lemma {:induction false} BelowStored(v: seq<nat>, x: Clause)
      requires Valid()
      ensures x in Below(Entries(root), v) <==> x in clauses && F.LessOrEqual(Key()(x), v)
    {
      EntriesKeyed();
      FilterCount(Entries(root), Key(), v, x);
      assert x in Below(Entries(root), v) <==> x in multiset(Below(Entries(root), v));
    }

    /** A stored clause that subsumes d; none only if no stored clause that passes the comparison of
        features does, and so none whose literals go to different literals of d. */
    method ForwardFeatureSubsume(d: seq<Literal>) returns (r: Option<Clause>)
      requires Valid()
      modifies work.posOcc, work.negOcc, work.posDeep, work.negDeep
      ensures Valid()
      ensures r.Some? ==> r.value in clauses && Sub(r.value.lits, d, map[])
      ensures r.None? ==> forall c | c in clauses && F.LessOrEqual(Key()(c),
                F.Vector(d, work.symbols, work.functions)) ::
                            !Sub(c.lits, d, map[])
      ensures r.None? ==> forall c, s | c in clauses :: !Embeds(c.lits, d, s)
    {
      var v := work.Compute(d);
      KeyLength(work, d);
      r := DiTreeForward(v, root, d);
      ghost var cs := Below(Entries(root), v);
      FirstHitMeans(cs, d);
      forall x ensures x in cs <==> x in clauses && F.LessOrEqual(Key()(x), v) { BelowStored(v, x); }
      forall c, s | c in clauses && Embeds(c.lits, d, s) ensures Sub(c.lits, d, map[]) && F.LessOrEqual(Key()(c), v) {
        EmbedsSubsumes(c.lits, d, s);
        F.FeaturesGrow(c.lits, d, s, work.symbols, work.functions);
      }
    }

    /** All stored clauses that c subsumes, other than c itself, as often as they are stored, among
        those that pass the comparison of features. */
    method BackFeatureSubsume(c: Clause) returns (r: seq<Clause>)
      requires Valid()
      modifies work.posOcc, work.negOcc, work.posDeep, work.negDeep
      ensures Valid()
      ensures forall d :: multiset(r)[d] ==
                (if d.id != c.id && Sub(c.lits, d.lits, map[]) &&
                    F.LessOrEqual(Key()(c), Key()(d)) then clauses[d] else 0)
      ensures forall d, s | d in clauses && d.id != c.id && Embeds(c.lits, d.lits, s) :: d in multiset(r)
    {
      var v := work.Compute(c.lits);
      KeyLength(work, c.lits);
      r := DiTreeBack(v, root, c);
      EntriesKeyed();
      forall d ensures multiset(r)[d] ==
        (if d.id != c.id && Sub(c.lits, d.lits, map[]) && F.LessOrEqual(Key()(c), Key()(d)) then clauses[d] else 0)
      {
        SubsumedCount(AtLeast(Entries(root), v), c, d);
        FilterCount(Entries(root), Key(), v, d);
      }
      forall d, s | d in clauses && d.id != c.id && Embeds(c.lits, d.lits, s) ensures d in multiset(r) {
        EmbedsSubsumes(c.lits, d.lits, s);
        F.FeaturesGrow(c.lits, d.lits, s, work.symbols, work.functions);
      }
    }
  }

  function VectorLength(w: F.Work): nat {
    2 + |F.Rows([], w.symbols, w.functions, |w.symbols|)|
  }

  lemma {:induction false} RowsLength(c: seq<Literal>, e: seq<Literal>, symbols: seq<nat>, functions: set<nat>, n: nat)
    requires n <= |symbols|
    ensures |F.Rows(c, symbols, functions, n)| == |F.Rows(e, symbols, functions, n)|
  {
    if n > 0 { RowsLength(c, e, symbols, functions, n - 1); }
  }

  lemma {:induction false} KeyLength(w: F.Work, c: seq<Literal>)
    ensures |F.Vector(c, w.symbols, w.functions)| == VectorLength(w)
  {
    RowsLength(c, [], w.symbols, w.functions, |w.symbols|);
  }
}

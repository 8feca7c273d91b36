/** The table from clause IDs to clauses in memory and to archived records (ladr/clauseid.c). */
module ClauseIds {
  import opened Options
  import opened PageTable

  function PageNumber(id: nat): nat { id / PAGE_SIZE }

  function Offset(id: nat): (o: nat)
    ensures o < PAGE_SIZE
  {
    id % PAGE_SIZE
  }

  function Filled(es: seq<Entry>, k: nat): (c: nat)
    requires k <= |es|
    ensures c <= k
  {
    if k == 0 then 0 else Filled(es, k - 1) + (if es[k - 1].Empty? then 0 else 1)
  }

  lemma {:induction false} FilledSet(es: seq<Entry>, o: nat, e: Entry, k: nat)
    requires o < |es| && k <= |es|
    ensures o >= k ==> Filled(es[o := e], k) == Filled(es, k)
    ensures o < k ==>
              Filled(es[o := e], k) == Filled(es, k) - (if es[o].Empty? then 0 else 1) + (if e.Empty? then 0 else 1)
  {
    if k > 0 { FilledSet(es, o, e, k - 1); }
  }

  /** A page with no filled entry has only empty ones. */
  lemma {:induction false} NoneFilled(es: seq<Entry>, k: nat)
    requires k <= |es| && Filled(es, k) == 0
    ensures forall o | 0 <= o < k :: es[o].Empty?
  {
    if k > 0 { NoneFilled(es, k - 1); }
  }

  ghost predicate PageOk(p: Page) {
    |p.entries| == PAGE_SIZE && p.count == Filled(p.entries, PAGE_SIZE)
  }

  ghost predicate PagesOk(ps: seq<Slot>) {
    forall i | 0 <= i < |ps| && ps[i].Held? :: PageOk(ps[i].page)
  }

  /** The entry for an ID. */
  function Lookup(ps: seq<Slot>, where: map<nat, nat>, id: nat): Entry {
    match PageOf(ps, where, PageNumber(id))
    case Held(p) => if Offset(id) < |p.entries| then p.entries[Offset(id)] else Empty
    case _ => Empty
  }

  /** One entry changes and no other. */
  ghost predicate SetEntry(ps: seq<Slot>, w: map<nat, nat>, qs: seq<Slot>, v: map<nat, nat>, id: nat, e: Entry) {
    forall j: nat :: Lookup(qs, v, j) == if j == id then e else Lookup(ps, w, j)
  }

  ghost predicate SameEntries(ps: seq<Slot>, w: map<nat, nat>, qs: seq<Slot>, v: map<nat, nat>) {
    forall j: nat :: Lookup(qs, v, j) == Lookup(ps, w, j)
  }

  lemma {:induction false} SamePagesEntries(ps: seq<Slot>, w: map<nat, nat>, qs: seq<Slot>, v: map<nat, nat>)
    requires SamePages(ps, w, qs, v)
    ensures SameEntries(ps, w, qs, v)
  {
  }

  lemma {:induction false} SamePagesOk(ps: seq<Slot>, w: map<nat, nat>, qs: seq<Slot>, v: map<nat, nat>,
      hash: nat -> nat)
    requires SamePages(ps, w, qs, v) && TableOk(ps, hash, w) && TableOk(qs, hash, v) && PagesOk(ps)
    ensures PagesOk(qs)
  {
    forall i | 0 <= i < |qs| && qs[i].Held? ensures PageOk(qs[i].page) {
      var n := qs[i].page.number;
      assert n in w && PageOf(qs, v, n) == PageOf(ps, w, n);
      assert Placed(ps, hash, n, w[n]);
    }
  }

  // ---------- Changes ----------

  /** Writing an entry of a page in the table. */
  lemma {:induction false} WriteEntry(ps: seq<Slot>, hash: nat -> nat, w: map<nat, nat>, id: nat, e: Entry)
    requires TableOk(ps, hash, w) && PagesOk(ps) && PageNumber(id) in w
    ensures var i := w[PageNumber(id)];
            && i < |ps| && ps[i].Held? && PageOk(ps[i].page)
            && var p := ps[i].page;
               var was := p.entries[Offset(id)];
               var count := p.count - (if was.Empty? then 0 else 1) + (if e.Empty? then 0 else 1);
               && count >= 0 && Lookup(ps, w, id) == was
               && var q := p.(entries := p.entries[Offset(id) := e], count := count);
                  && PageOk(q) && TableOk(ps[i := Held(q)], hash, w) && PagesOk(ps[i := Held(q)])
                  && SetEntry(ps, w, ps[i := Held(q)], w, id, e)
  {
    var n := PageNumber(id);
    var i := w[n];
    assert Placed(ps, hash, n, i);
    var p := ps[i].page;
    FilledSet(p.entries, Offset(id), e, PAGE_SIZE);
    var count := p.count - (if p.entries[Offset(id)].Empty? then 0 else 1) + (if e.Empty? then 0 else 1);
    var q := p.(entries := p.entries[Offset(id) := e], count := count);
    UpdateOk(ps, hash, w, q);
    Written(ps, hash, w, id, e, q);
  }

  lemma {:induction false} Written(ps: seq<Slot>, hash: nat -> nat, w: map<nat, nat>, id: nat, e: Entry, q: Page)
    requires TableOk(ps, hash, w) && PagesOk(ps) && PageNumber(id) in w
    requires w[PageNumber(id)] < |ps| && ps[w[PageNumber(id)]].Held?
    requires q.number == PageNumber(id) && q.entries == ps[w[PageNumber(id)]].page.entries[Offset(id) := e]
    ensures SetEntry(ps, w, ps[w[PageNumber(id)] := Held(q)], w, id, e)
  {
    var n := PageNumber(id);
    var qs := ps[w[n] := Held(q)];
    forall j: nat ensures Lookup(qs, w, j) == if j == id then e else Lookup(ps, w, j) {
      if PageNumber(j) != n && PageNumber(j) in w {
        assert Placed(ps, hash, PageNumber(j), w[PageNumber(j)]) && Placed(ps, hash, n, w[n]);
      }
      if PageNumber(j) == n && Offset(j) == Offset(id) { assert j == id; }
    }
  }

  /** A new page changes no entry. */
  lemma {:induction false} NewPage(ps: seq<Slot>, hash: nat -> nat, w: map<nat, nat>, i: nat, p: Page)
    requires TableOk(ps, hash, w) && i < |ps| && !ps[i].Held? && p.number !in w
    requires p.entries == seq(PAGE_SIZE, _ => Empty)
    ensures SameEntries(ps, w, ps[i := Held(p)], w[p.number := i])
  {
    forall j: nat ensures Lookup(ps[i := Held(p)], w[p.number := i], j) == Lookup(ps, w, j) {
      if PageNumber(j) in w { assert Placed(ps, hash, PageNumber(j), w[PageNumber(j)]); }
    }
  }

  lemma {:induction false} EmptyFilled(k: nat)
    requires k <= PAGE_SIZE
    ensures Filled(seq(PAGE_SIZE, _ => Empty), k) == 0
  {
    if k > 0 { EmptyFilled(k - 1); }
  }

  /** Dropping an empty page changes no entry. */
  lemma {:induction false} DropPage(ps: seq<Slot>, hash: nat -> nat, w: map<nat, nat>, n: nat)
    requires TableOk(ps, hash, w) && PagesOk(ps) && n in w && w[n] < |ps| && ps[w[n]].Held? && ps[w[n]].page.count == 0
    ensures SameEntries(ps, w, ps[w[n] := Tombstone], w - {n}) && PagesOk(ps[w[n] := Tombstone])
  {
    NoneFilled(ps[w[n]].page.entries, PAGE_SIZE);
    forall j: nat ensures Lookup(ps[w[n] := Tombstone], w - {n}, j) == Lookup(ps, w, j) {
      if PageNumber(j) in w && PageNumber(j) != n {
        assert Placed(ps, hash, PageNumber(j), w[PageNumber(j)]) && Placed(ps, hash, n, w[n]);
      }
    }
  }

  // ---------- The table ----------

  class IdTable {
    const hash: nat -> nat
    var pages: seq<Slot>
    var pageCount: nat
    var tombstones: nat
    ghost var where: map<nat, nat>
    ghost var view: nat -> Entry

    /** Every page is where probing finds it, and a quarter of the slots stays empty. */
    ghost predicate Loaded()
      reads this
    {
      && TableOk(pages, hash, where) && PagesOk(pages)
      && pageCount == Pages(pages, |pages|) && pageCount + tombstones == Used(pages, |pages|)
      && (|pages| > 0 ==> 4 * (pageCount + tombstones) < 3 * |pages|)
    }

    ghost predicate Seen()
      reads this
    {
      forall id: nat {:trigger Lookup(pages, where, id)} :: view(id) == Lookup(pages, where, id)
    }

    ghost predicate Valid()
      reads this
    {
      Loaded() && Seen()
    }

    /** The finite map that the table stands for. */
    ghost function Find(id: nat): Entry
      reads this
    {
      view(id)
    }

    /** The entry of one ID is e, and the others are as in was. */
    ghost predicate Set(was: nat -> Entry, id: nat, e: Entry)
      reads this
    {
      forall j: nat :: Find(j) == if j == id then e else was(j)
    }

    ghost method Look(ps: seq<Slot>, w: map<nat, nat>, id: nat, e: Entry)
      requires Loaded() && SetEntry(ps, w, pages, where, id, e)
      requires forall j: nat {:trigger Lookup(ps, w, j)} :: view(j) == Lookup(ps, w, j)
      modifies this`view
      ensures Valid() && Set(old(view), id, e)
    {
      ghost var qs, v, was := pages, where, view;
      view := (j: nat) => Lookup(qs, v, j);
      forall j: nat ensures view(j) == if j == id then e else was(j) {
        assert Lookup(qs, v, j) == if j == id then e else Lookup(ps, w, j);
      }
    }

    constructor (hash: nat -> nat)
      ensures Valid() && forall id: nat :: Find(id) == Empty
    {
      this.hash := hash;
      pages, pageCount, tombstones, where, view := [], 0, 0, map[], (j: nat) => Empty;
    }

    method FindIdEntry(id: nat) returns (e: Entry)
      requires Valid()
      ensures id > 0 ==> e == Find(id)
      ensures id == 0 ==> e == Empty
    {
      assert Lookup(pages, where, id) == Find(id);
      if id == 0 || |pages| == 0 { EmptyTable(); return Empty; }
      var i := PageSlot(pages, hash, PageNumber(id), false, where);
      if pages[i] == Null { return Empty; }
      assert Placed(pages, hash, PageNumber(id), where[PageNumber(id)]);
      return pages[i].page.entries[Offset(id)];
    }

    lemma {:induction false} EmptyTable()
      requires Loaded()
      ensures |pages| == 0 ==> where == map[]
    {
      forall n | n in where ensures |pages| > 0 { assert Placed(pages, hash, n, where[n]); }
      assert |pages| == 0 ==> where.Keys == {};
    }

    method Resize(capacity: nat)
      requires Sound() && 4 * pageCount < 3 * capacity
      modifies this`pages, this`where, this`tombstones
      ensures Loaded() && tombstones == 0 && |pages| == capacity
      ensures SamePages(old(pages), old(where), pages, where)
    {
      ghost var ps, w := pages, where;
      pages, where := ResizePageTable(pages, hash, capacity, where);
      tombstones := 0;
      SamePagesOk(ps, w, pages, where, hash);
    }

    /** Valid up to the load of the table. */
    ghost predicate Sound()
      reads this
    {
      && TableOk(pages, hash, where) && PagesOk(pages)
      && pageCount == Pages(pages, |pages|) && pageCount + tombstones == Used(pages, |pages|)
    }

    /** The slot of a page, made if need be. */
    method GetIdPage(n: nat) returns (i: nat)
      requires Loaded()
      modifies this`pages, this`where, this`pageCount, this`tombstones
      ensures Loaded() && n in where && i == where[n] && i < |pages| &&
                SameEntries(old(pages), old(where), pages, where)
    {
      if |pages| > 0 {
        i := PageSlot(pages, hash, n, false, where);
        if pages[i] != Null { return; }
      } else {
        EmptyTable();
      }
      ghost var ps, w := pages, where;
      if |pages| == 0 {
        Resize(16);
        SamePagesEntries(ps, w, pages, where);
      } else if (pageCount + tombstones + 1) * 4 >= |pages| * 3 {
        if (pageCount + 1) * 4 < |pages| {
          Resize(|pages|);
        } else {
          Resize(2 * |pages|);
        }
        SamePagesEntries(ps, w, pages, where);
      }
      i := AddPage(n);
    }

    method AddPage(n: nat) returns (i: nat)
      requires Loaded() && n !in where && 4 * (pageCount + tombstones + 1) < 3 * |pages|
      modifies this`pages, this`where, this`pageCount, this`tombstones
      ensures Loaded() && n in where && i == where[n] && i < |pages| &&
                SameEntries(old(pages), old(where), pages, where)
    {
      i := PageSlot(pages, hash, n, true, where);
      if pages[i] == Tombstone {
        TombstoneCounted(i);
        tombstones := tombstones - 1;
      }
      var p := Page(n, 0, seq(PAGE_SIZE, _ => Empty));
      EmptyFilled(PAGE_SIZE);
      CountSet(pages, i, Held(p), |pages|);
      InsertOk(pages, hash, where, i, p);
      NewPage(pages, hash, where, i, p);
      pages, where, pageCount := pages[i := Held(p)], where[n := i], pageCount + 1;
    }

    lemma {:induction false} TombstoneCounted(i: nat)
      requires Loaded() && i < |pages| && pages[i] == Tombstone
      ensures tombstones > 0
    {
      NoTombstone(pages, |pages|, i);
    }

    /** Put an entry in a page that may have to be made. */
    method Register(id: nat, e: Entry)
      requires Valid() && e != Empty && Find(id) == Empty
      modifies this
      ensures Valid() && Set(old(view), id, e)
    {
      ghost var ps, w := pages, where;
      assert Lookup(pages, where, id) == Empty;
      var i := GetIdPage(PageNumber(id));
      assert Lookup(pages, where, id) == Empty;
      WriteEntry(pages, hash, where, id, e);
      var p := pages[i].page;
      CountSet(pages, i, Held(p.(entries := p.entries[Offset(id) := e], count := p.count + 1)), |pages|);
      pages := pages[i := Held(p.(entries := p.entries[Offset(id) := e], count := p.count + 1))];
      Look(ps, w, id, e);
    }

    /** Put an entry in the place of another. */
    method Replace(id: nat, was: Entry, e: Entry) returns (ok: bool)
      requires Valid() && was != Empty && e != Empty
      modifies this`pages, this`view
      ensures Valid() && ok == (old(Find(id)) == was)
      ensures Set(old(view), id, if ok then e else old(Find(id)))
    {
      ghost var ps := pages;
      assert Lookup(pages, where, id) == Find(id);
      if |pages| == 0 { EmptyTable(); return false; }
      var i := PageSlot(pages, hash, PageNumber(id), false, where);
      if pages[i] == Null { return false; }
      WriteEntry(pages, hash, where, id, e);
      var p := pages[i].page;
      if p.entries[Offset(id)] != was { return false; }
      CountSet(pages, i, Held(p.(entries := p.entries[Offset(id) := e])), |pages|);
      pages := pages[i := Held(p.(entries := p.entries[Offset(id) := e]))];
      Look(ps, where, id, e);
      return true;
    }

    /** Clear an entry; false when it is not the expected one. An empty page leaves a tombstone. */
    method Clear(id: nat, was: Entry) returns (ok: bool)
      requires Valid() && was != Empty
      modifies this
      ensures Valid() && ok == (old(Find(id)) == was)
      ensures Set(old(view), id, if ok then Empty else old(Find(id)))
    {
      ghost var ps, w := pages, where;
      assert Lookup(pages, where, id) == Find(id);
      if |pages| == 0 { EmptyTable(); return false; }
      var n := PageNumber(id);
      var i := PageSlot(pages, hash, n, false, where);
      if pages[i] == Null { return false; }
      WriteEntry(pages, hash, where, id, Empty);
      var p := pages[i].page;
      if p.entries[Offset(id)] != was { return false; }
      var q := p.(entries := p.entries[Offset(id) := Empty], count := p.count - 1);
      CountSet(pages, i, Held(q), |pages|);
      pages := pages[i := Held(q)];
      ok := true;
      if q.count == 0 { FreePage(n, i); }
      Look(ps, w, id, Empty);
    }

    method FreePage(n: nat, i: nat)
      requires Loaded() && n in where && i == where[n] && i < |pages| && pages[i].Held? && pages[i].page.count == 0
      modifies this`pages, this`where, this`pageCount, this`tombstones
      ensures Loaded() && SameEntries(old(pages), old(where), pages, where)
    {
      CountSet(pages, i, Tombstone, |pages|);
      RemoveOk(pages, hash, where, n);
      DropPage(pages, hash, where, n);
      pages, where := pages[i := Tombstone], where - {n};
      pageCount, tombstones := pageCount - 1, tombstones + 1;
      if pageCount == 0 {
        NoPages(pages, |pages|);
        NothingLeft();
        pages, where, tombstones := [], map[], 0;
      } else if tombstones > pageCount {
        ghost var ps, w := pages, where;
        Resize(|pages|);
        SamePagesEntries(ps, w, pages, where);
      }
    }

    lemma {:induction false} NothingLeft()
      requires TableOk(pages, hash, where) && forall i | 0 <= i < |pages| :: !pages[i].Held?
      ensures forall id: nat :: Lookup(pages, where, id) == Empty
    {
    }
  }

  /** The table together with the fields of the clauses that it keeps in step: their IDs, 0 for none,
      and the mark of the clauses that are in the table. */
  class ClauseTable {
    const table: IdTable
    var idOf: map<nat, nat>
    var official: set<nat>
    var idCount: nat

    ghost predicate Valid()
      reads this, table
    {
      && table.Valid()
      && (forall c | c in official :: IdOf(c) > 0 && table.Find(IdOf(c)) == Resident(c))
      && (forall id: nat :: table.Find(id).Resident? ==>
            table.Find(id).clause in official && IdOf(table.Find(id).clause) == id)
      && table.Find(0) == Empty
    }

    function IdOf(c: nat): nat
      reads this
    {
      if c in idOf then idOf[c] else 0
    }

    constructor (hash: nat -> nat)
      ensures Valid() && official == {} && idOf == map[] && idCount == 0 && fresh(table)
      ensures forall id: nat :: table.Find(id) == Empty
    {
      table := new IdTable(hash);
      idOf, official, idCount := map[], {}, 0;
    }

    /** False for the fatal errors: no ID, or the ID of another clause or record. */
    method RegisterId(c: nat) returns (ok: bool)
      requires Valid()
      modifies this`official, table
      ensures Valid()
      ensures ok == (IdOf(c) > 0 && (old(table.Find(IdOf(c))) == Empty || old(table.Find(IdOf(c))) == Resident(c)))
      ensures official == old(official) + (if ok then {c} else {})
      ensures forall id: nat :: table.Find(id) == if ok && id == IdOf(c) then Resident(c) else old(table.Find(id))
    {
      var id := IdOf(c);
      if id == 0 { return false; }
      var old' := table.FindIdEntry(id);
      if old' != Empty && old' != Resident(c) { return false; }
      if old' == Empty {
        table.Register(id, Resident(c));
        assert forall j: nat :: table.Find(j) == if j == id then Resident(c) else old(table.Find(j));
      }
      official := official + {c};
      ok := true;
    }

    method AssignClauseId(c: nat) returns (ok: bool)
      requires Valid()
      modifies this, table
      ensures Valid()
      ensures old(IdOf(c)) > 0 ==> !ok && idCount == old(idCount) && idOf == old(idOf) && official == old(official)
      ensures old(IdOf(c)) == 0 ==> idCount == old(idCount) + 1 && idOf == old(idOf)[c := idCount] &&
                                    ok == (old(table.Find(idCount + 1)) == Empty)
      ensures ok ==> official == old(official) + {c}
      ensures forall id: nat :: table.Find(id) == if ok && id == idCount then Resident(c) else old(table.Find(id))
    {
      if IdOf(c) > 0 { return false; }
      NextClauseId(c);
      ok := RegisterId(c);
    }

    method NextClauseId(c: nat)
      requires Valid() && IdOf(c) == 0
      modifies this`idOf, this`idCount
      ensures Valid() && idCount == old(idCount) + 1 && idOf == old(idOf)[c := idCount] && c !in official
    {
      assert c !in official;
      idCount := idCount + 1;
      idOf := idOf[c := idCount];
    }

    /** A registered clause is always found, and leaves the table with its ID. */
    method UnassignClauseId(c: nat)
      requires Valid()
      modifies this`idOf, this`official, table
      ensures Valid() && official == old(official) - {c}
      ensures idOf == if c in old(official) then old(idOf)[c := 0] else old(idOf)
      ensures forall id: nat :: table.Find(id) ==
                if c in old(official) && id == old(IdOf(c)) then Empty else old(table.Find(id))
    {
      if c in official {
        var found := Remove(c);
        idOf := idOf[c := 0];
      }
    }

    /** The same, keeping the ID. */
    method DetachClauseId(c: nat) returns (ok: bool)
      requires Valid()
      modifies this`official, table
      ensures Valid() && ok == (c in old(official)) && official == old(official) - {c}
      ensures forall id: nat :: table.Find(id) == if ok && id == IdOf(c) then Empty else old(table.Find(id))
    {
      if c !in official || IdOf(c) == 0 { return false; }
      ok := Remove(c);
    }

    method Remove(c: nat) returns (ok: bool)
      requires Valid() && c in official
      modifies this`official, table
      ensures Valid() && ok && official == old(official) - {c}
      ensures forall id: nat :: table.Find(id) == if id == IdOf(c) then Empty else old(table.Find(id))
    {
      ok := table.Clear(IdOf(c), Resident(c));
      assert forall j: nat :: table.Find(j) == if j == IdOf(c) then Empty else old(table.Find(j));
      official := official - {c};
    }

    /** A clause that is not in the table loses its ID. */
    method Forget(c: nat)
      requires Valid() && c !in official
      modifies this`idOf
      ensures Valid() && idOf == old(idOf)[c := 0]
    {
      idOf := idOf[c := 0];
    }

    /** A new clause with the ID of a record. */
    method Materialize(c: nat, id: nat)
      requires Valid() && c !in official
      modifies this`idOf
      ensures Valid() && idOf == old(idOf)[c := id]
    {
      idOf := idOf[c := id];
    }

    method FindClauseById(id: nat) returns (c: Option<nat>)
      requires Valid()
      ensures c == (if table.Find(id).Resident? then Some(table.Find(id).clause) else None)
    {
      var e := table.FindIdEntry(id);
      return if e.Resident? then Some(e.clause) else None;
    }

    method ArchiveOffset(id: nat) returns (o: Option<nat>)
      requires Valid()
      ensures o == (if table.Find(id).Archived? then Some(table.Find(id).offset) else None)
    {
      var e := table.FindIdEntry(id);
      return if e.Archived? then Some(e.offset) else None;
    }

    /** The ID of a registered clause now stands for a record. */
    method ArchiveClauseId(c: nat, offset: nat) returns (ok: bool)
      requires Valid()
      modifies this`official, table
      ensures Valid() && ok == (c in old(official)) && official == old(official) - {c}
      ensures forall id: nat :: table.Find(id) == if ok && id == IdOf(c) then Archived(offset) else old(table.Find(id))
    {
      if c !in official || IdOf(c) == 0 { return false; }
      ok := table.Replace(IdOf(c), Resident(c), Archived(offset));
      assert forall j: nat :: table.Find(j) == if j == IdOf(c) then Archived(offset) else old(table.Find(j));
      official := official - {c};
    }

    /** The ID of an archived record stands for a clause again, if it is the expected record. */
    method ActivateArchivedClauseId(c: nat, offset: nat) returns (ok: bool)
      requires Valid()
      modifies this`official, table
      ensures Valid() && ok == (old(table.Find(IdOf(c))) == Archived(offset))
      ensures official == old(official) + (if ok then {c} else {})
      ensures forall id: nat :: table.Find(id) == if ok && id == IdOf(c) then Resident(c) else old(table.Find(id))
    {
      if IdOf(c) == 0 { return false; }
      ok := table.Replace(IdOf(c), Archived(offset), Resident(c));
      assert forall j: nat :: table.Find(j) == if ok && j == IdOf(c) then Resident(c) else old(table.Find(j));
      if ok { official := official + {c}; }
    }

    /** False for the fatal error. */
    method UnassignArchivedClauseId(id: nat, offset: nat) returns (ok: bool)
      requires Valid()
      modifies table
      ensures Valid() && ok == (id == 0 || old(table.Find(id)) == Archived(offset))
      ensures forall j: nat :: table.Find(j) == if ok && j == id then Empty else old(table.Find(j))
    {
      if id == 0 { return true; }
      ok := table.Clear(id, Archived(offset));
      assert forall j: nat :: table.Find(j) == if ok && j == id then Empty else old(table.Find(j));
    }
  }

  lemma {:induction false} NoPages(ps: seq<Slot>, k: nat)
    requires k <= |ps| && Pages(ps, k) == 0
    ensures forall i | 0 <= i < k :: !ps[i].Held?
  {
    if k > 0 { NoPages(ps, k - 1); }
  }
}

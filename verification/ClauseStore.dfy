/** The store of disabled clauses and their archived records (ladr/clause_store.c). */
module ClauseStore {
  import opened Options
  import opened PageTable
  import opened ClauseIds

  /** A position holds a clause in memory or the offset of a record. */
  datatype Ref = InMemory(clause: nat) | Record(offset: nat)

  // ---------- One current position for each ID ----------

  /** The reference is current and has this ID, given the IDs of records and of clauses and what
      the IDs stand for. */
  ghost predicate Carries(r: Ref, records: map<nat, nat>, idOf: map<nat, nat>, find: nat -> Entry, id: nat) {
    match r
    case InMemory(c) => id == if c in idOf then idOf[c] else 0
    case Record(o) => o in records && records[o] == id && find(id) == Archived(o)
  }

  ghost predicate OneEach(refs: seq<Ref>, records: map<nat, nat>, idOf: map<nat, nat>, find: nat -> Entry) {
    forall p, q, id: nat | 0 <= p < |refs| && 0 <= q < |refs| &&
                           Carries(refs[p], records, idOf, find, id) &&
                               Carries(refs[q], records, idOf, find, id) :: p == q
  }

  /** One reference more: it must not carry an ID that is carried already. */
  lemma {:induction false} OneMore(refs: seq<Ref>, c: nat, records: map<nat, nat>, idOf: map<nat, nat>,
      find: nat -> Entry)
    ensures var id := if c in idOf then idOf[c] else 0;
            OneEach(refs + [InMemory(c)], records, idOf, find) <==>
            OneEach(refs, records, idOf, find) &&
            forall p | 0 <= p < |refs| :: !Carries(refs[p], records, idOf, find, id)
  {
    var id := if c in idOf then idOf[c] else 0;
    var more := refs + [InMemory(c)];
    assert forall p | 0 <= p < |refs| :: more[p] == refs[p];
    assert Carries(more[|refs|], records, idOf, find, id);
    if OneEach(more, records, idOf, find) {
      forall p, q, j: nat | 0 <= p < |refs| && 0 <= q < |refs| && Carries(refs[p], records, idOf, find, j) &&
                            Carries(refs[q], records, idOf, find, j)
        ensures p == q
      {
        assert Carries(more[p], records, idOf, find, j) && Carries(more[q], records, idOf, find, j);
      }
      forall p | 0 <= p < |refs| ensures !Carries(refs[p], records, idOf, find, id) {
        assert !Carries(more[p], records, idOf, find, id);
      }
    }
  }

  /** References that are not current anywhere else keep what they carry. */
  lemma {:induction false} StillOneEach(
    refs: seq<Ref>, records: map<nat, nat>, idOf: map<nat, nat>, find: nat -> Entry,
    refs2: seq<Ref>, records2: map<nat, nat>, idOf2: map<nat, nat>, find2: nat -> Entry)
    requires OneEach(refs, records, idOf, find) && |refs2| == |refs|
    requires forall p, id: nat | 0 <= p < |refs| && Carries(refs2[p], records2, idOf2, find2, id) ::
               Carries(refs[p], records, idOf, find, id)
    ensures OneEach(refs2, records2, idOf2, find2)
  {
  }

  ghost predicate KnownRecords(refs: seq<Ref>, records: map<nat, nat>) {
    forall p | 0 <= p < |refs| && refs[p].Record? :: refs[p].offset in records
  }

  ghost predicate Apart(refs: seq<Ref>) {
    forall p, q | 0 <= p < q < |refs| :: refs[p] != refs[q]
  }

  /** A clause replaced by a new record that its ID now stands for. */
  lemma {:induction false} ReplacedOneEach(
    refs: seq<Ref>, records: map<nat, nat>, idOf: map<nat, nat>, find: nat -> Entry, i: nat, c: nat, o: nat,
        find2: nat -> Entry)
    requires OneEach(refs, records, idOf, find) && Apart(refs) && Record(o) !in refs
    requires i < |refs| && refs[i] == InMemory(c) && c in idOf && o in records && records[o] == idOf[c]
    requires forall j: nat :: find2(j) == if j == idOf[c] then Archived(o) else find(j)
    ensures OneEach(refs[i := Record(o)], records, idOf, find2)
  {
    var refs2 := refs[i := Record(o)];
    forall p, j: nat | 0 <= p < |refs| && Carries(refs2[p], records, idOf, find2, j)
      ensures Carries(refs[p], records, idOf, find, j)
    {
      if p != i { assert refs2[p] == refs[p] && refs[p] in refs; }
    }
    StillOneEach(refs, records, idOf, find, refs2, records, idOf, find2);
  }

  /** A record that nothing refers to. */
  lemma {:induction false} UnusedRecord(refs: seq<Ref>, records: map<nat, nat>, idOf: map<nat, nat>,
      find: nat -> Entry, o: nat, id: nat)
    requires OneEach(refs, records, idOf, find) && KnownRecords(refs, records) && o !in records
    ensures OneEach(refs, records[o := id], idOf, find)
  {
    StillOneEach(refs, records, idOf, find, refs, records[o := id], idOf, find);
  }

  /** The ID of a clause that is not referred to does not matter. */
  lemma {:induction false} ElsewhereOneEach(
    refs: seq<Ref>, records: map<nat, nat>, idOf: map<nat, nat>, find: nat -> Entry, c: nat, idOf2: map<nat, nat>,
        find2: nat -> Entry)
    requires OneEach(refs, records, idOf, find) && InMemory(c) !in refs
    requires forall d | d != c :: (d in idOf2 <==> d in idOf) && (d in idOf ==> idOf2[d] == idOf[d])
    requires forall j: nat :: find2(j) == find(j) || find2(j).Resident?
    ensures OneEach(refs, records, idOf2, find2)
  {
    forall p, j: nat | 0 <= p < |refs| && Carries(refs[p], records, idOf2, find2, j)
      ensures Carries(refs[p], records, idOf, find, j)
    {
      assert refs[p] in refs;
    }
    StillOneEach(refs, records, idOf, find, refs, records, idOf2, find2);
  }

  class Store {
    const ids: ClauseTable
    var refs: seq<Ref>
    /** The backing: the size, and the ID written in the record at an offset. */
    var backingSize: nat
    var recordId: map<nat, nat>
    /** Clauses with the disabled mark. */
    var disabled: set<nat>

    ghost predicate Valid()
      reads this, ids, ids.table
    {
      && ids.Valid()
      && (forall o | o in recordId :: o < backingSize && recordId[o] > 0)
      && (forall p | 0 <= p < |refs| && refs[p].Record? :: refs[p].offset in recordId)
      && (forall p | 0 <= p < |refs| && refs[p].InMemory? :: refs[p].clause in disabled)
      && (forall p, q | 0 <= p < q < |refs| :: refs[p] != refs[q])
    }

    /** The clauses in the store are the ones that their IDs stand for. */
    ghost predicate Settled()
      reads this, ids
    {
      forall p | 0 <= p < |refs| && refs[p].InMemory? :: refs[p].clause in ids.official
    }

    function IdAt(p: nat): nat
      requires p < |refs| && (refs[p].Record? ==> refs[p].offset in recordId)
      reads this, ids
    {
      match refs[p]
      case InMemory(c) => ids.IdOf(c)
      case Record(o) => recordId[o]
    }

    /** A clause in memory, or a record that its ID still stands for. */
    ghost predicate Current(p: nat)
      requires p < |refs| && (refs[p].Record? ==> refs[p].offset in recordId)
      reads this, ids, ids.table
    {
      refs[p].Record? ==> ids.table.Find(IdAt(p)) == Archived(refs[p].offset)
    }

    /** Every ID has at most one current position. */
    ghost predicate OnePerId()
      reads this, ids, ids.table
    {
      OneEach(refs, recordId, ids.idOf, ids.table.view)
    }

    /** Some current position has this ID. */
    ghost predicate Carried(id: nat)
      reads this, ids, ids.table
    {
      exists p :: 0 <= p < |refs| && Carries(refs[p], recordId, ids.idOf, ids.table.view, id)
    }

    lemma {:induction false} CurrentCarries(p: nat)
      requires Valid() && p < |refs|
      ensures forall id: nat ::
                Carries(refs[p], recordId, ids.idOf, ids.table.view, id) <==> Current(p) && IdAt(p) == id
    {
    }

    /** In a settled store every ID has at most one current position. */
    lemma {:induction false} SettledIsOnePerId()
      requires Valid() && Settled()
      ensures OnePerId()
    {
      forall p, q, id: nat | 0 <= p < |refs| && 0 <= q < |refs| &&
                             Carries(refs[p], recordId, ids.idOf, ids.table.view, id) &&
                             Carries(refs[q], recordId, ids.idOf, ids.table.view, id)
        ensures p == q
      {
        assert refs[p].InMemory? ==> ids.table.Find(id) == Resident(refs[p].clause);
        assert refs[q].InMemory? ==> ids.table.Find(id) == Resident(refs[q].clause);
        assert refs[p] == refs[q];
      }
    }

    /** The clause that an ID stands for is not carried if it is not in the store. */
    lemma {:induction false} OfficialNotCarried(c: nat)
      requires Valid() && Settled() && c in ids.official && c !in disabled
      ensures !Carried(ids.IdOf(c))
    {
      forall p | 0 <= p < |refs| ensures !Carries(refs[p], recordId, ids.idOf, ids.table.view, ids.IdOf(c)) {
        assert ids.table.Find(ids.IdOf(c)) == Resident(c);
        assert refs[p].InMemory? ==> ids.table.Find(ids.IdOf(refs[p].clause)) == Resident(refs[p].clause);
      }
    }

    lemma {:induction false} SettledBefore(c: nat)
      requires Valid() && c !in disabled
      ensures Settled() ==> OnePerId() && (c in ids.official ==> !Carried(ids.IdOf(c)))
    {
      if Settled() {
        SettledIsOnePerId();
        if c in ids.official { OfficialNotCarried(c); }
      }
    }

    /** So two current positions with one ID are the same. */
    lemma {:induction false} OneCurrent(p: nat, q: nat)
      requires Valid() && OnePerId() && p < |refs| && q < |refs|
      requires Current(p) && Current(q) && IdAt(p) == IdAt(q)
      ensures p == q
    {
      CurrentCarries(p);
      CurrentCarries(q);
      assert Carries(refs[p], recordId, ids.idOf, ids.table.view, IdAt(p));
      assert Carries(refs[q], recordId, ids.idOf, ids.table.view, IdAt(p));
    }

    constructor (ids: ClauseTable)
      requires ids.Valid()
      ensures Valid() && Settled() && OnePerId() && refs == [] && this.ids == ids && disabled == {} &&
                recordId == map[] && backingSize == 0
    {
      this.ids := ids;
      refs, backingSize, recordId, disabled := [], 0, map[], {};
    }

    method PositionIsCurrent(p: nat) returns (b: bool)
      requires Valid()
      ensures b == (p < |refs| && Current(p))
    {
      if p >= |refs| { return false; }
      if refs[p].InMemory? { return true; }
      var o := ids.ArchiveOffset(recordId[refs[p].offset]);
      return o == Some(refs[p].offset);
    }

    /** Append a clause; false (a fatal error) when it is in a store already.  Every ID still has at
        most one current position exactly if none has that of the clause; so it is for a settled
        store and a clause that its ID stands for. */
    method Append(c: nat) returns (ok: bool)
      requires Valid()
      modifies this`refs, this`disabled
      ensures Valid() && ok == (c !in old(disabled))
      ensures refs == old(refs) + (if ok then [InMemory(c)] else []) && disabled == old(disabled) + {c}
      ensures ok ==> (Settled() <==> old(Settled()) && c in ids.official)
      ensures ok ==> (OnePerId() <==> old(OnePerId()) && !old(Carried(ids.IdOf(c))))
      ensures ok && old(Settled()) ==> (OnePerId() <==> c in ids.official || !old(Carried(ids.IdOf(c))))
    {
      if c in disabled { return false; }
      OneMore(refs, c, recordId, ids.idOf, ids.table.view);
      SettledBefore(c);
      forall p | 0 <= p < |refs| ensures refs[p] != InMemory(c) {}
      refs := refs + [InMemory(c)];
      disabled := disabled + {c};
      ok := true;
      ghost var n := |refs| - 1;
      assert refs[n] == InMemory(c);
      assert forall p | 0 <= p < n :: refs[p] == old(refs)[p];
    }

    /** The last position of a clause, from the end. */
    method Position(c: nat) returns (r: Option<nat>)
      requires Valid()
      ensures r.Some? ==> r.value < |refs| && refs[r.value] == InMemory(c)
      ensures r.None? ==> InMemory(c) !in refs
    {
      var i := |refs|;
      while i > 0
        invariant 0 <= i <= |refs| && forall j | i <= j < |refs| :: refs[j] != InMemory(c)
      {
        if refs[i - 1] == InMemory(c) { return Some(i - 1); }
        i := i - 1;
      }
      return None;
    }

    /** Write a record of the given length at the end of the backing. */
    method AppendRecord(c: nat, length: nat) returns (offset: nat)
      requires Valid() && ids.IdOf(c) > 0 && length > 0
      modifies this`backingSize, this`recordId
      ensures Valid() && offset == old(backingSize) && offset !in old(recordId)
      ensures backingSize == old(backingSize) + length && recordId == old(recordId)[offset := ids.IdOf(c)]
      ensures old(OnePerId()) ==> OnePerId()
    {
      offset := backingSize;
      if OnePerId() { UnusedRecord(refs, recordId, ids.idOf, ids.table.view, offset, ids.IdOf(c)); }
      recordId := recordId[offset := ids.IdOf(c)];
      backingSize := backingSize + length;
    }

    /** Put a record that nothing refers to in the place of a clause. */
    method PutRecord(c: nat, i: nat, offset: nat)
      requires Valid() && i < |refs| && refs[i] == InMemory(c) && offset in recordId && Record(offset) !in refs
      modifies this`refs, this`disabled
      ensures Valid() && refs == old(refs)[i := Record(offset)] && disabled == old(disabled) - {c}
      ensures InMemory(c) !in refs
    {
      NewRecord(refs, i, c, offset);
      refs := refs[i := Record(offset)];
      disabled := disabled - {c};
    }

    /** Replace a registered clause in the store by a record of the given length at the end of the
        backing. */
    method ReplaceByRecord(c: nat, i: nat, length: nat) returns (ok: bool)
      requires Valid() && i < |refs| && refs[i] == InMemory(c) && ids.IdOf(c) > 0 && length > 0
      modifies this`refs, this`disabled, this`backingSize, this`recordId, ids`official, ids.table
      ensures Valid() && ok == (c in old(ids.official))
      ensures backingSize == old(backingSize) + length && recordId == old(recordId)[old(backingSize) := ids.IdOf(c)]
      ensures ids.official == old(ids.official) - {c}
      ensures ok ==> refs == old(refs)[i := Record(old(backingSize))] && disabled == old(disabled) - {c}
      ensures ok ==> InMemory(c) !in refs
      ensures !ok ==> refs == old(refs) && disabled == old(disabled)
      ensures forall id: nat :: ids.table.Find(id) ==
                (if ok && id == ids.IdOf(c) then Archived(old(backingSize)) else old(ids.table.Find(id)))
    {
      var offset := AppendRecord(c, length);
      assert Record(offset) !in refs;
      ok := ids.ArchiveClauseId(c, offset);
      if ok { PutRecord(c, i, offset); }
    }

    /** The replacement keeps at most one current position for each ID. */
    lemma {:induction false} ReplacedKeeps(
      rs: seq<Ref>, records: map<nat, nat>, view: nat -> Entry, i: nat, c: nat, o: nat, ok: bool)
      requires OneEach(rs, records, ids.idOf, view) && Apart(rs) && KnownRecords(rs, records) && o !in records
      requires i < |rs| && rs[i] == InMemory(c) && c in ids.idOf
      requires recordId == records[o := ids.idOf[c]] && refs == if ok then rs[i := Record(o)] else rs
      requires forall id: nat :: ids.table.Find(id) == if ok && id == ids.IdOf(c) then Archived(o) else view(id)
      ensures OnePerId()
    {
      var view2 := ids.table.view;
      UnusedRecord(rs, records, ids.idOf, view, o, ids.idOf[c]);
      forall j: nat ensures view2(j) == if ok && j == ids.idOf[c] then Archived(o) else view(j) {
        assert view2(j) == ids.table.Find(j);
      }
      if !ok { StillOneEach(rs, recordId, ids.idOf, view, rs, recordId, ids.idOf, view2); return; }
      ReplacedOneEach(rs, recordId, ids.idOf, view, i, c, o, view2);
    }

    /** A record at a new offset is different from all references, and c stays nowhere. */
    lemma {:induction false} NewRecord(rs: seq<Ref>, i: nat, c: nat, offset: nat)
      requires i < |rs| && rs[i] == InMemory(c) && Record(offset) !in rs
      requires forall p, q | 0 <= p < q < |rs| :: rs[p] != rs[q]
      ensures var ss := rs[i := Record(offset)];
              && (forall p, q | 0 <= p < q < |ss| :: ss[p] != ss[q])
              && (forall p | 0 <= p < |ss| :: ss[p] != InMemory(c))
    {
      var ss := rs[i := Record(offset)];
      forall p | 0 <= p < |ss| && p != i ensures ss[p] != Record(offset) && ss[p] != InMemory(c) {
        if p < i { assert rs[p] != rs[i]; } else { assert rs[i] != rs[p]; }
      }
    }

    /** Archive a clause in the store and drop it from memory; length 0 stands for a record that could
        not be written. The result is the fatal error when the ID table refuses. */
    method ArchiveClause(c: nat, length: nat) returns (ok: bool, fatal: bool)
      requires Valid()
      modifies this`refs, this`disabled, this`backingSize, this`recordId, ids`official, ids`idOf, ids.table
      ensures Valid() && (old(Settled()) ==> Settled() && !fatal)
      ensures old(OnePerId()) ==> OnePerId()
      ensures ok == (InMemory(c) in old(refs) && c in old(ids.official) && length > 0)
      ensures ok ==> ids.IdOf(c) == 0 && c !in disabled && c !in ids.official
      ensures backingSize >= old(backingSize) && (ok ==> backingSize > old(backingSize))
      ensures |refs| == |old(refs)| && (!ok ==> refs == old(refs))
      ensures ok ==> forall p | 0 <= p < |refs| ::
                refs[p] == if old(refs)[p] == InMemory(c) then Record(old(backingSize)) else old(refs)[p]
      ensures ok ==> recordId == old(recordId)[old(backingSize) := old(ids.IdOf(c))]
      ensures forall id: nat :: ids.table.Find(id) ==
                (if ok && id == old(ids.IdOf(c)) then Archived(old(backingSize)) else old(ids.table.Find(id)))
    {
      fatal := false;
      var i := Position(c);
      if i.None? || ids.IdOf(c) == 0 || length == 0 { return false, false; }
      ghost var rs, records, view, o := refs, recordId, ids.table.view, backingSize;
      ok := ReplaceByRecord(c, i.value, length);
      fatal := !ok;
      if old(OnePerId()) { ReplacedKeeps(rs, records, view, i.value, c, o, ok); }
      if ok {
        ghost var idOf := ids.idOf;
        ids.Forget(c);
        if old(OnePerId()) { ElsewhereOneEach(refs, recordId, idOf, ids.table.view, c, ids.idOf, ids.table.view); }
      }
    }

    /** Archive a clause in the store but keep it, with its ID, for the indexes that use it. */
    method ArchiveClausePreserve(c: nat, length: nat) returns (ok: bool, fatal: bool)
      requires Valid()
      modifies this`refs, this`disabled, this`backingSize, this`recordId, ids`official, ids.table
      ensures Valid() && (old(Settled()) ==> Settled() && !fatal)
      ensures old(OnePerId()) ==> OnePerId()
      ensures ok == (InMemory(c) in old(refs) && c in old(ids.official) && length > 0)
      ensures ok ==> c !in disabled && c !in ids.official
      ensures backingSize >= old(backingSize) && (ok ==> backingSize > old(backingSize))
      ensures |refs| == |old(refs)| && (!ok ==> refs == old(refs))
      ensures forall id: nat :: ids.table.Find(id) ==
                (if ok && id == ids.IdOf(c) then Archived(old(backingSize)) else old(ids.table.Find(id)))
      ensures ok ==> forall p | 0 <= p < |refs| ::
                refs[p] == if old(refs)[p] == InMemory(c) then Record(old(backingSize)) else old(refs)[p]
      ensures ok ==> recordId == old(recordId)[old(backingSize) := ids.IdOf(c)]
    {
      fatal := false;
      var i := Position(c);
      if i.None? || ids.IdOf(c) == 0 || length == 0 { return false, false; }
      ghost var rs, records, view, o := refs, recordId, ids.table.view, backingSize;
      ok := ReplaceByRecord(c, i.value, length);
      fatal := !ok;
      if old(OnePerId()) { ReplacedKeeps(rs, records, view, i.value, c, o, ok); }
    }

    /** Bring an archived clause back as the new clause c, if its position is current. */
    method Activate(p: nat, c: nat) returns (r: Option<nat>)
      requires Valid() && c !in ids.idOf && c !in disabled && c !in ids.official
      modifies ids`official, ids`idOf, ids.table
      ensures Valid() && (old(Settled()) ==> Settled())
      ensures old(OnePerId()) ==> OnePerId()
      ensures p >= |refs| ==> r == None
      ensures p < |refs| && refs[p].InMemory? ==> r == Some(refs[p].clause)
      ensures p < |refs| && refs[p].Record? ==> r == (if old(Current(p)) then Some(c) else None) && !Current(p)
      ensures r == Some(c) ==> c in ids.official && ids.table.Find(ids.IdOf(c)) == Resident(c)
    {
      if p >= |refs| { return None; }
      if refs[p].InMemory? { return Some(refs[p].clause); }
      var o := refs[p].offset;
      ghost var view := ids.table.view;
      assert InMemory(c) !in refs;
      ids.Materialize(c, recordId[o]);
      var ok := ids.ActivateArchivedClauseId(c, o);
      if ok {
        r := Some(c);
      } else {
        ids.Forget(c);
        r := None;
      }
      if old(OnePerId()) {
        forall j: nat ensures ids.table.view(j) == view(j) || ids.table.view(j).Resident? {
          assert ids.table.view(j) == ids.table.Find(j);
        }
        ElsewhereOneEach(refs, recordId, old(ids.idOf), view, c, ids.idOf, ids.table.view);
      }
    }
  }

  /** A store with one clause. */
  method OneClause(hash: nat -> nat) returns (s: Store)
    ensures fresh(s) && fresh(s.ids) && fresh(s.ids.table) && s.Valid() && s.Settled()
    ensures s.refs == [InMemory(7)] && s.disabled == {7} && s.ids.official == {7} && s.ids.IdOf(7) == 1
    ensures s.backingSize == 0 && s.recordId == map[]
  {
    var ids := new ClauseTable(hash);
    var _ := ids.AssignClauseId(7);
    s := new Store(ids);
    var _ := s.Append(7);
  }

  /** The clause is archived but kept. */
  method KeptOnce(hash: nat -> nat) returns (s: Store)
    ensures fresh(s) && s.Valid() && s.refs == [Record(0)] && 7 !in s.disabled && 7 !in s.ids.official
    ensures s.ids.IdOf(7) == 1 && s.recordId == map[0 := 1] && s.ids.table.Find(1) == Archived(0)
  {
    s := OneClause(hash);
    assert s.refs[0] == InMemory(7) && InMemory(7) in s.refs;
    var _, _ := s.ArchiveClausePreserve(7, 100);
    assert s.refs[0] == Record(0);
  }

  /** Such a clause can be appended again without being registered: its ID then has two current positions. */
  method KeptTwice(hash: nat -> nat) returns (s: Store)
    ensures s.Valid() && |s.refs| == 2 && s.Current(0) && s.Current(1) && s.IdAt(0) == s.IdAt(1) && !s.OnePerId()
  {
    s := KeptOnce(hash);
    var _ := s.Append(7);
    assert s.refs[0] == Record(0) && s.refs[1] == InMemory(7);
  }
}

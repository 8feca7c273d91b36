/** Open addressing with tombstones, as in the table of ID pages (ladr/clauseid.c). */
module PageTable {

  /** What an ID stands for: a clause in memory or a record of the ancestor archive. */
  datatype Entry = Empty | Resident(clause: nat) | Archived(offset: nat)

  datatype Page = Page(number: nat, count: nat, entries: seq<Entry>)

  datatype Slot = Null | Tombstone | Held(page: Page)

  const PAGE_SIZE := 64

  predicate Holds(s: Slot, n: nat) {
    s.Held? && s.page.number == n
  }

  /** Position after k steps from h, around the end of the table. */
  function Probe(h: nat, k: nat, cap: nat): (i: nat)
    requires h < cap && k < cap
    ensures i < cap
  {
    if h + k < cap then h + k else h + k - cap
  }

  /** Steps from h to i. */
  function Dist(h: nat, i: nat, cap: nat): (k: nat)
    requires h < cap && i < cap
    ensures k < cap && Probe(h, k, cap) == i
  {
    if i >= h then i - h else i - h + cap
  }

  function Home(hash: nat -> nat, n: nat, cap: nat): (h: nat)
    requires cap > 0
    ensures h < cap
  {
    hash(n) % cap
  }

  /** No empty slot on the way from h to i. */
  ghost predicate Reaches(ps: seq<Slot>, h: nat, i: nat)
    requires h < |ps| && i < |ps|
  {
    forall k: nat | k < Dist(h, i, |ps|) :: ps[Probe(h, k, |ps|)] != Null
  }

  /** Page n is in the slot that probing for it finds. */
  ghost predicate Placed(ps: seq<Slot>, hash: nat -> nat, n: nat, i: nat) {
    i < |ps| && Holds(ps[i], n) && Reaches(ps, Home(hash, n, |ps|), i)
  }

  ghost predicate TableOk(ps: seq<Slot>, hash: nat -> nat, where: map<nat, nat>) {
    && (forall n | n in where :: Placed(ps, hash, n, where[n]))
    && (forall i | 0 <= i < |ps| && ps[i].Held? :: ps[i].page.number in where && where[ps[i].page.number] == i)
  }

  // ---------- Counting slots ----------

  /** Slots that are not empty. */
  function Used(ps: seq<Slot>, k: nat): (c: nat)
    requires k <= |ps|
    ensures c <= k
  {
    if k == 0 then 0 else Used(ps, k - 1) + (if ps[k - 1].Null? then 0 else 1)
  }

  function Pages(ps: seq<Slot>, k: nat): (c: nat)
    requires k <= |ps|
    ensures c <= k
  {
    if k == 0 then 0 else Pages(ps, k - 1) + (if ps[k - 1].Held? then 1 else 0)
  }

  lemma {:induction false} CountSet(ps: seq<Slot>, i: nat, s: Slot, k: nat)
    requires i < |ps| && k <= |ps|
    ensures i >= k ==> Used(ps[i := s], k) == Used(ps, k) && Pages(ps[i := s], k) == Pages(ps, k)
    ensures i < k ==> Used(ps[i := s], k) == Used(ps, k) - (if ps[i].Null? then 0 else 1) + (if s.Null? then 0 else 1)
    ensures i < k ==> Pages(ps[i := s], k) == Pages(ps, k) - (if ps[i].Held? then 1 else 0) + (if s.Held? then 1 else 0)
  {
    if k > 0 { CountSet(ps, i, s, k - 1); }
  }

  lemma {:induction false} CountNull(n: nat, k: nat)
    requires k <= n
    ensures Used(seq(n, _ => Null), k) == 0 && Pages(seq(n, _ => Null), k) == 0
  {
    if k > 0 { CountNull(n, k - 1); }
  }

  lemma {:induction false} PagesUsed(ps: seq<Slot>, k: nat)
    requires k <= |ps|
    ensures Pages(ps, k) <= Used(ps, k)
  {
    if k > 0 { PagesUsed(ps, k - 1); }
  }

  /** A table that is not full has an empty slot. */
  lemma {:induction false} NullExists(ps: seq<Slot>, k: nat) returns (z: nat)
    requires k <= |ps| && Used(ps, k) < k
    ensures z < k && ps[z] == Null
  {
    if ps[k - 1].Null? { z := k - 1; } else { z := NullExists(ps, k - 1); }
  }

  // ---------- Probing ----------

  /** The slot that probing for page n ends at. */
  ghost predicate Found(ps: seq<Slot>, hash: nat -> nat, where: map<nat, nat>, n: nat, inserting: bool, i: nat) {
    && i < |ps|
    && (n in where ==> i == where[n])
    && (n !in where ==> (ps[i] == Null || (inserting && ps[i] == Tombstone)) && Reaches(ps, Home(hash, n, |ps|), i))
  }

  /** The slots passed so far. */
  ghost predicate Passed(ps: seq<Slot>, h: nat, n: nat, k: nat)
    requires h < |ps| && k <= |ps|
  {
    forall j: nat | j < k :: ps[Probe(h, j, |ps|)] != Null && !Holds(ps[Probe(h, j, |ps|)], n)
  }

  lemma {:induction false} NotBeyondNull(ps: seq<Slot>, h: nat, n: nat, z: nat, k: nat)
    requires h < |ps| && z < |ps| && ps[z] == Null && k <= |ps| && Passed(ps, h, n, k)
    ensures k <= Dist(h, z, |ps|)
  {
    assert Probe(h, Dist(h, z, |ps|), |ps|) == z;
  }

  lemma {:induction false} PathReaches(ps: seq<Slot>, h: nat, n: nat, k: nat, i: nat)
    requires h < |ps| && i < |ps| && k < |ps| && Passed(ps, h, n, k) && Dist(h, i, |ps|) <= k
    ensures Reaches(ps, h, i)
  {
  }

  /** Probing for a page in the table does not meet an empty slot. */
  lemma {:induction false} NoNullBefore(ps: seq<Slot>, hash: nat -> nat, where: map<nat, nat>, n: nat, k: nat)
    requires TableOk(ps, hash, where) && n in where && k < |ps| && Passed(ps, Home(hash, n, |ps|), n, k)
    ensures ps[Probe(Home(hash, n, |ps|), k, |ps|)] != Null
  {
    assert Placed(ps, hash, n, where[n]);
    var h := Home(hash, n, |ps|);
    var d := Dist(h, where[n], |ps|);
    assert Holds(ps[Probe(h, d, |ps|)], n);
    assert k <= d;
    if k < d { assert ps[Probe(h, k, |ps|)] != Null; }
  }

  /** The slot of a page, or the place for it: an empty slot, or when inserting the first tombstone met.
      The loop ends because the table is never full. */
  method PageSlot(ps: seq<Slot>, hash: nat -> nat, n: nat, inserting: bool, ghost where: map<nat, nat>) returns (i: nat)
    requires TableOk(ps, hash, where) && Used(ps, |ps|) < |ps|
    ensures Found(ps, hash, where, n, inserting, i)
  {
    var cap := |ps|;
    ghost var z := NullExists(ps, cap);
    ghost var h, k: nat := Home(hash, n, cap), 0;
    i := hash(n) % cap;
    var tomb: nat := cap;
    while ps[i] != Null
      invariant k < cap && i == Probe(h, k, cap) && Passed(ps, h, n, k) && k <= Dist(h, z, cap)
      invariant tomb < cap ==> ps[tomb] == Tombstone && Dist(h, tomb, cap) < k
      invariant tomb <= cap
      decreases Dist(h, z, cap) - k
    {
      if ps[i] == Tombstone {
        if tomb == cap { tomb := i; }
      } else if ps[i].page.number == n {
        return;
      }
      i := if i + 1 == cap then 0 else i + 1;
      k := k + 1;
      NotBeyondNull(ps, h, n, z, k);
    }
    if n in where { NoNullBefore(ps, hash, where, n, k); }
    PathReaches(ps, h, n, k, i);
    if inserting && tomb < cap {
      PathReaches(ps, h, n, k, tomb);
      i := tomb;
    }
  }

  // ---------- Changes of one slot ----------

  /** Filling a slot, or emptying it to a tombstone, leaves the ways to the others open. */
  lemma {:induction false} StillPlaced(ps: seq<Slot>, hash: nat -> nat, n: nat, j: nat, i: nat, s: Slot)
    requires Placed(ps, hash, n, j) && i < |ps| && s != Null && i != j
    ensures Placed(ps[i := s], hash, n, j)
  {
    var h := Home(hash, n, |ps|);
    forall k: nat | k < Dist(h, j, |ps|) ensures ps[i := s][Probe(h, k, |ps|)] != Null {
      assert ps[Probe(h, k, |ps|)] != Null;
    }
  }

  lemma {:induction false} InsertOk(ps: seq<Slot>, hash: nat -> nat, where: map<nat, nat>, i: nat, p: Page)
    requires TableOk(ps, hash, where) && i < |ps| && !ps[i].Held? && p.number !in where
    requires Reaches(ps, Home(hash, p.number, |ps|), i)
    ensures TableOk(ps[i := Held(p)], hash, where[p.number := i])
  {
    var qs, w := ps[i := Held(p)], where[p.number := i];
    var h := Home(hash, p.number, |ps|);
    forall n | n in w ensures Placed(qs, hash, n, w[n]) {
      if n == p.number {
        forall k: nat | k < Dist(h, i, |ps|) ensures qs[Probe(h, k, |ps|)] != Null {
          assert ps[Probe(h, k, |ps|)] != Null;
        }
      } else {
        assert Placed(ps, hash, n, where[n]);
        StillPlaced(ps, hash, n, where[n], i, Held(p));
      }
    }
  }

  lemma {:induction false} RemoveOk(ps: seq<Slot>, hash: nat -> nat, where: map<nat, nat>, n: nat)
    requires TableOk(ps, hash, where) && n in where
    ensures where[n] < |ps| && TableOk(ps[where[n] := Tombstone], hash, where - {n})
  {
    assert Placed(ps, hash, n, where[n]);
    forall m | m in where - {n} ensures Placed(ps[where[n] := Tombstone], hash, m, where[m]) {
      assert Placed(ps, hash, m, where[m]);
      StillPlaced(ps, hash, m, where[m], where[n], Tombstone);
    }
  }

  lemma {:induction false} UpdateOk(ps: seq<Slot>, hash: nat -> nat, where: map<nat, nat>, p: Page)
    requires TableOk(ps, hash, where) && p.number in where
    ensures where[p.number] < |ps| && TableOk(ps[where[p.number] := Held(p)], hash, where)
  {
    var i := where[p.number];
    assert Placed(ps, hash, p.number, i);
    var qs := ps[i := Held(p)];
    forall m | m in where ensures Placed(qs, hash, m, where[m]) {
      assert Placed(ps, hash, m, where[m]);
      if m != p.number {
        StillPlaced(ps, hash, m, where[m], i, Held(p));
      } else {
        var h := Home(hash, m, |ps|);
        forall k: nat | k < Dist(h, i, |ps|) ensures qs[Probe(h, k, |ps|)] != Null {
          assert ps[Probe(h, k, |ps|)] != Null;
        }
      }
    }
  }

  // ---------- Resizing ----------

  /** The page for a number, if there is one. */
  function PageOf(ps: seq<Slot>, where: map<nat, nat>, n: nat): Slot {
    if n in where && where[n] < |ps| then ps[where[n]] else Null
  }

  /** The same pages under the same numbers. */
  ghost predicate SamePages(ps: seq<Slot>, w: map<nat, nat>, qs: seq<Slot>, v: map<nat, nat>) {
    v.Keys == w.Keys && forall n | n in w :: PageOf(qs, v, n) == PageOf(ps, w, n)
  }

  /** Everything moves to a new table without tombstones. */
  method ResizePageTable(ps: seq<Slot>, hash: nat -> nat, capacity: nat, ghost where: map<nat, nat>)
    returns (qs: seq<Slot>, ghost v: map<nat, nat>)
    requires TableOk(ps, hash, where) && Pages(ps, |ps|) < capacity
    ensures |qs| == capacity && TableOk(qs, hash, v) && SamePages(ps, where, qs, v)
    ensures Used(qs, |qs|) == Pages(qs, |qs|) == Pages(ps, |ps|)
  {
    qs, v := seq(capacity, _ => Null), map[];
    CountNull(capacity, capacity);
    var i := 0;
    while i < |ps|
      invariant i <= |ps| && |qs| == capacity && TableOk(qs, hash, v)
      invariant Used(qs, capacity) == Pages(qs, capacity) == Pages(ps, i)
      invariant forall n | n in v :: n in where && where[n] < i && PageOf(qs, v, n) == PageOf(ps, where, n)
      invariant forall n | n in where && where[n] < i :: n in v
    {
      PagesBelow(ps, i);
      if ps[i].Held? {
        var p := ps[i].page;
        assert p.number in where && where[p.number] == i;
        var j := PageSlot(qs, hash, p.number, true, v);
        assert qs[j] == Null by { if qs[j] == Tombstone { NoTombstone(qs, capacity, j); } }
        CountSet(qs, j, ps[i], capacity);
        InsertOk(qs, hash, v, j, p);
        MovePage(ps, where, qs, hash, v, i, j);
        qs, v := qs[j := ps[i]], v[p.number := j];
      }
      i := i + 1;
    }
    Everywhere(ps, hash, where);
  }

  lemma {:induction false} PagesBelow(ps: seq<Slot>, i: nat)
    requires i < |ps|
    ensures Pages(ps, i) <= Pages(ps, |ps|) && (ps[i].Held? ==> Pages(ps, i) < Pages(ps, |ps|))
    decreases |ps| - i
  {
    if i + 1 < |ps| { PagesBelow(ps, i + 1); }
  }

  /** Where every used slot holds a page there is no tombstone. */
  lemma {:induction false} NoTombstone(ps: seq<Slot>, k: nat, j: nat)
    requires k <= |ps| && j < k && ps[j] == Tombstone
    ensures Pages(ps, k) < Used(ps, k)
  {
    PagesUsed(ps, k - 1);
    if j < k - 1 { NoTombstone(ps, k - 1, j); }
  }

  lemma {:induction false} MovePage(ps: seq<Slot>, where: map<nat, nat>, qs: seq<Slot>, hash: nat -> nat,
      v: map<nat, nat>, i: nat, j: nat)
    requires i < |ps| && ps[i].Held? && ps[i].page.number in where && where[ps[i].page.number] == i
    requires TableOk(qs, hash, v) && j < |qs| && qs[j] == Null
    requires forall n | n in v :: n in where && where[n] < i && PageOf(qs, v, n) == PageOf(ps, where, n)
    ensures var r, w := qs[j := ps[i]], v[ps[i].page.number := j];
            forall n | n in w :: n in where && where[n] < i + 1 && PageOf(r, w, n) == PageOf(ps, where, n)
  {
    forall n | n in v && n != ps[i].page.number ensures PageOf(qs[j := ps[i]], v, n) == PageOf(qs, v, n) {
      assert Placed(qs, hash, n, v[n]);
    }
  }

  lemma {:induction false} Everywhere(ps: seq<Slot>, hash: nat -> nat, where: map<nat, nat>)
    requires TableOk(ps, hash, where)
    ensures forall n | n in where :: where[n] < |ps|
  {
    forall n | n in where ensures where[n] < |ps| { assert Placed(ps, hash, n, where[n]); }
  }
}

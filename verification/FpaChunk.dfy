/** One chunk of an FPA list: an array of term IDs, filled from the right (ladr/fpalist.c). */
module FpaChunk {

  /** Strictly decreasing. */
  ghost predicate Desc(s: seq<nat>) {
    forall i, j | 0 <= i < j < |s| :: s[j] < s[i]
  }

  function Elements(s: seq<nat>): set<nat> {
    set x | x in s
  }

  function Last(s: seq<nat>): nat
    requires |s| > 0
  {
    s[|s| - 1]
  }

  /** Where x goes in a decreasing sequence. */
  ghost predicate Place(s: seq<nat>, x: nat, p: nat) {
    p <= |s| && (forall i | 0 <= i < p :: x < s[i]) && (forall i | p <= i < |s| :: s[i] < x)
  }

  lemma {:induction false} InsertDesc(s: seq<nat>, x: nat, p: nat)
    requires Desc(s) && Place(s, x, p)
    ensures Desc(s[..p] + [x] + s[p..])
    ensures Elements(s[..p] + [x] + s[p..]) == Elements(s) + {x}
  {
    var r := s[..p] + [x] + s[p..];
    forall i, j | 0 <= i < j < |r| ensures r[j] < r[i] {
      var a := if i < p then i else i - 1;
      var b := if j < p then j else j - 1;
      assert i != p ==> r[i] == s[a];
      assert j != p ==> r[j] == s[b];
    }
    forall y ensures y in r <==> y in s || y == x {
      if y in s {
        var i :| 0 <= i < |s| && s[i] == y;
        assert r[if i < p then i else i + 1] == y;
      }
      if y == x { assert r[p] == y; }
    }
  }

  lemma {:induction false} RemoveDesc(s: seq<nat>, p: nat)
    requires Desc(s) && p < |s|
    ensures Desc(s[..p] + s[p + 1..])
    ensures Elements(s[..p] + s[p + 1..]) == Elements(s) - {s[p]}
  {
    var r := s[..p] + s[p + 1..];
    forall i | 0 <= i < |r| ensures r[i] == s[if i < p then i else i + 1] && r[i] != s[p] {}
    forall y | y in s && y != s[p] ensures y in r {
      var i :| 0 <= i < |s| && s[i] == y;
      assert r[if i < p then i else i - 1] == y;
    }
  }

  // ---------- Array loops ----------

  /** Put x before index i, shifting the items from base on to the left. */
  method ShiftLeft(d: array<nat>, base: nat, i: nat, x: nat)
    requires 0 < base <= i <= d.Length
    modifies d
    ensures forall k | base - 1 <= k < i - 1 :: d[k] == old(d[k + 1])
    ensures d[i - 1] == x && forall k | i <= k < d.Length :: d[k] == old(d[k])
  {
    var j := base;
    while j < i
      invariant base <= j <= i
      invariant forall k | base - 1 <= k < j - 1 :: d[k] == old(d[k + 1])
      invariant forall k | j <= k < d.Length :: d[k] == old(d[k])
    {
      d[j - 1] := d[j];
      j := j + 1;
    }
    d[i - 1] := x;
  }

  /** Take out the item at index i, shifting the items from base on to the right. */
  method CloseHole(d: array<nat>, base: nat, i: nat)
    requires base <= i < d.Length
    modifies d
    ensures forall k | base < k <= i :: d[k] == old(d[k - 1])
    ensures forall k | i < k < d.Length :: d[k] == old(d[k])
  {
    var j := i;
    while j > base
      invariant base <= j <= i
      invariant forall k | base <= k <= j :: d[k] == old(d[k]) || k == j
      invariant forall k | j < k <= i :: d[k] == old(d[k - 1])
      invariant forall k | i < k < d.Length :: d[k] == old(d[k])
    {
      d[j] := d[j - 1];
      j := j - 1;
    }
    d[j] := 0;
  }

  /** Move the first items to the end of another array. */
  method MoveFront(d: array<nat>, e: array<nat>, move: nat)
    requires d != e && d.Length == e.Length && move <= d.Length
    modifies d, e
    ensures forall k | e.Length - move <= k < e.Length :: e[k] == old(d[k - (e.Length - move)])
    ensures forall k | move <= k < d.Length :: d[k] == old(d[k])
  {
    var i, j := 0, d.Length - move;
    while i < move
      invariant i <= move && j == d.Length - move + i
      invariant forall k | e.Length - move <= k < j :: e[k] == old(d[k - (e.Length - move)])
      invariant forall k | i <= k < d.Length :: d[k] == old(d[k])
    {
      e[j] := d[i];
      d[i] := 0;
      i, j := i + 1, j + 1;
    }
  }

  /** Copy the last items of f in front of the last n items of d. */
  method CopyBefore(f: array<nat>, fn: nat, d: array<nat>, n: nat)
    requires f != d && f.Length == d.Length && fn + n <= d.Length
    modifies d
    ensures forall k | d.Length - n - fn <= k < d.Length - n :: d[k] == f[k + n]
    ensures forall k | d.Length - n <= k < d.Length :: d[k] == old(d[k])
  {
    var i := 0;
    while i < fn
      invariant i <= fn
      invariant forall k | d.Length - n - i <= k < d.Length - n :: d[k] == f[k + n]
      invariant forall k | d.Length - n <= k < d.Length :: d[k] == old(d[k])
    {
      d[d.Length - (n + i + 1)] := f[d.Length - (i + 1)];
      i := i + 1;
    }
  }

  // ---------- Chunks ----------

  class Chunk {
    const size: nat
    const d: array<nat>
    var n: nat
    ghost var items: seq<nat>

    /** The items are right-justified in the array. */
    ghost predicate Valid()
      reads this, d
    {
      d.Length == size && n <= size && |items| == n && forall i | 0 <= i < n :: d[size - n + i] == items[i]
    }

    ghost function Items(): seq<nat>
      reads this
    {
      items
    }

    constructor (size: nat)
      ensures Valid() && this.size == size && n == 0 && fresh(d)
    {
      this.size := size;
      d := new nat[size](_ => 0);
      n, items := 0, [];
    }

    /** A chunk with one item. */
    constructor Of(size: nat, x: nat)
      requires size > 0
      ensures Valid() && this.size == size && Items() == [x] && fresh(d)
    {
      this.size := size;
      d := new nat[size](_ => 0);
      n, items := 1, [x];
      new;
      d[size - 1] := x;
    }

    /** A full or partial chunk copied from a sorted array. */
    constructor From(size: nat, s: seq<nat>)
      requires |s| <= size
      ensures Valid() && this.size == size && Items() == s && fresh(d)
    {
      this.size := size;
      d := new nat[size](i requires 0 <= i < size => if i < size - |s| then 0 else s[i - (size - |s|)]);
      n, items := |s|, s;
    }

    method First() returns (x: nat)
      requires Valid() && n > 0
      ensures x == Items()[0]
    {
      x := d[size - n];
    }

    method Lowest() returns (x: nat)
      requires Valid() && n > 0
      ensures x == Last(Items())
    {
      x := d[size - 1];
    }

    /** The items, read from the array. */
    method Copy() returns (s: seq<nat>)
      requires Valid()
      ensures s == Items()
    {
      s := d[size - n..];
    }

    /** The first array index whose item is not above x. */
    method Find(x: nat) returns (i: nat)
      requires Valid() && Desc(Items())
      ensures size - n <= i <= size
      ensures forall j | size - n <= j < i :: x < d[j]
      ensures forall j | i <= j < size :: d[j] <= x
    {
      i := size - n;
      while i < size && x < d[i]
        invariant size - n <= i <= size
        invariant forall j | size - n <= j < i :: x < d[j]
      {
        i := i + 1;
      }
      ghost var s := Items();
      forall j | i <= j < size ensures d[j] <= x {
        assert s[i - (size - n)] == d[i] && s[j - (size - n)] == d[j];
      }
    }

    /** Make room before array index i, shifting items to the left. */
    method ShiftIn(i: nat, x: nat)
      requires Valid() && n < size && size - n <= i <= size
      modifies this, d
      ensures Valid() && n == old(n) + 1
      ensures var s, p := old(Items()), i - (size - old(n)); Items() == s[..p] + [x] + s[p..]
    {
      ghost var s, p := Items(), i - (size - n);
      ShiftLeft(d, size - n, i, x);
      n, items := n + 1, s[..p] + [x] + s[p..];
    }

    /** Close the hole at array index i. */
    method ShiftOut(i: nat)
      requires Valid() && size - n <= i < size
      modifies this, d
      ensures Valid() && n == old(n) - 1
      ensures var s, p := old(Items()), i - (size - old(n)); Items() == s[..p] + s[p + 1..]
    {
      ghost var s, p := Items(), i - (size - n);
      CloseHole(d, size - n, i);
      n, items := n - 1, s[..p] + s[p + 1..];
    }

    /** Insert into a chunk with room; false (a fatal error) when the item is there already. */
    method Insert(x: nat) returns (ok: bool)
      requires Valid() && n < size && Desc(Items())
      modifies this, d
      ensures Valid() && ok == (x !in old(Items()))
      ensures ok ==> Desc(Items()) && Elements(Items()) == old(Elements(Items())) + {x} && n == old(n) + 1
      ensures !ok ==> Items() == old(Items())
    {
      var i := Find(x);
      if i < size && x == d[i] {
        assert Items()[i - (size - n)] == x;
        return false;
      }
      PlaceFound(x, i);
      InsertDesc(Items(), x, i - (size - n));
      ShiftIn(i, x);
      ok := true;
    }

    /** The place that a search finds for an item that is not there. */
    lemma {:induction false} PlaceFound(x: nat, i: nat)
      requires Valid() && Desc(Items()) && size - n <= i <= size
      requires forall j | size - n <= j < i :: x < d[j]
      requires forall j | i <= j < size :: d[j] <= x
      requires i < size ==> d[i] != x
      ensures Place(Items(), x, i - (size - n)) && x !in Items()
    {
      var s, base := Items(), size - n;
      forall k | 0 <= k < |s| ensures if k < i - base then x < s[k] else s[k] < x {
        assert s[k] == d[base + k];
        if k > i - base { assert s[k] < s[i - base]; }
      }
    }

    /** Delete and close the hole; false (a fatal error) when the item is not there. */
    method Delete(x: nat) returns (ok: bool)
      requires Valid() && n > 0 && Desc(Items()) && Last(Items()) <= x
      modifies this, d
      ensures Valid() && ok == (x in old(Items()))
      ensures ok ==> Desc(Items()) && Elements(Items()) == old(Elements(Items())) - {x} && n == old(n) - 1
      ensures !ok ==> Items() == old(Items())
    {
      assert Items()[n - 1] == d[size - 1];
      var i := Find(x);
      if x != d[i] {
        PlaceFound(x, i);
        return false;
      }
      assert Items()[i - (size - n)] == x;
      RemoveDesc(Items(), i - (size - n));
      ShiftOut(i);
      ok := true;
    }

    /** Move the first half of a full chunk to a new chunk in front of it. */
    method Split() returns (f2: Chunk)
      requires Valid() && n == size && size >= 2
      modifies this, d
      ensures Valid() && fresh(f2) && fresh(f2.d) && f2.Valid() && f2.size == size
      ensures f2.Items() + Items() == old(Items())
      ensures f2.n == size / 2 && n == size - size / 2
    {
      f2 := new Chunk(size);
      var move := size / 2;
      ghost var s := Items();
      MoveFront(d, f2.d, move);
      f2.n, f2.items := move, s[..move];
      n, items := size - move, s[move..];
    }

    /** Take over the items of the chunk in front. */
    method Absorb(f: Chunk)
      requires Valid() && f.Valid() && f != this && f.d != d && f.size == size && f.n + n <= size
      modifies this, d
      ensures Valid() && Items() == f.Items() + old(Items())
    {
      CopyBefore(f.d, f.n, d, n);
      n, items := f.n + n, f.items + items;
    }
  }
}

/** FPA lists: term IDs in decreasing order, kept in a chain of chunks that grow as the chain does
    (ladr/fpalist.c). The list is shown to refine a set of IDs. */
module FpaList {
  import opened FpaChunk

  // ---------- Rows of items ----------

  /** The items of the first k rows. */
  ghost function Upto(m: seq<seq<nat>>, k: nat): seq<nat>
    requires k <= |m|
  {
    if k == 0 then [] else Upto(m, k - 1) + m[k - 1]
  }

  /** The items of the rows from k on. */
  ghost function From(m: seq<seq<nat>>, k: nat): seq<nat>
    requires k <= |m|
    decreases |m| - k
  {
    if k == |m| then [] else m[k] + From(m, k + 1)
  }

  /** The items of the chunks one after the other. */
  ghost function Flat(m: seq<seq<nat>>): seq<nat> {
    From(m, 0)
  }

  lemma {:induction false} FlatParts(m: seq<seq<nat>>, k: nat)
    requires k <= |m|
    ensures Flat(m) == Upto(m, k) + From(m, k)
  {
    if k > 0 {
      FlatParts(m, k - 1);
      assert Upto(m, k - 1) + (m[k - 1] + From(m, k)) == Upto(m, k - 1) + m[k - 1] + From(m, k);
    }
  }

  lemma {:induction false} FlatAt(m: seq<seq<nat>>, k: nat)
    requires k < |m|
    ensures Flat(m) == Upto(m, k) + m[k] + From(m, k + 1)
  {
    FlatParts(m, k + 1);
  }

  lemma {:induction false} UptoSame(m: seq<seq<nat>>, r: seq<seq<nat>>, k: nat)
    requires k <= |m| && k <= |r| && forall i | 0 <= i < k :: m[i] == r[i]
    ensures Upto(m, k) == Upto(r, k)
  {
    if k > 0 { UptoSame(m, r, k - 1); }
  }

  lemma {:induction false} FromSame(m: seq<seq<nat>>, k: nat, r: seq<seq<nat>>, j: nat)
    requires k <= |m| && j <= |r| && |m| - k == |r| - j && forall i | k <= i < |m| :: m[i] == r[i - k + j]
    ensures From(m, k) == From(r, j)
    decreases |m| - k
  {
    if k < |m| { FromSame(m, k + 1, r, j + 1); }
  }

  /** Rows put in place of the rows from k to k2. */
  ghost function Splice(m: seq<seq<nat>>, k: nat, mid: seq<seq<nat>>, k2: nat): seq<seq<nat>>
    requires k <= k2 <= |m|
  {
    m[..k] + mid + m[k2..]
  }

  lemma {:induction false} SpliceOne(m: seq<seq<nat>>, k: nat, s: seq<nat>, k2: nat)
    requires k <= k2 <= |m|
    ensures Flat(Splice(m, k, [s], k2)) == Upto(m, k) + s + From(m, k2)
  {
    var r := Splice(m, k, [s], k2);
    FlatAt(r, k);
    UptoSame(m, r, k);
    FromSame(m, k2, r, k + 1);
  }

  lemma {:induction false} SpliceNone(m: seq<seq<nat>>, k: nat, k2: nat)
    requires k <= k2 <= |m|
    ensures Flat(Splice(m, k, [], k2)) == Upto(m, k) + From(m, k2)
  {
    var r := Splice(m, k, [], k2);
    FlatParts(r, k);
    UptoSame(m, r, k);
    FromSame(m, k2, r, k);
  }

  lemma {:induction false} SpliceTwo(m: seq<seq<nat>>, k: nat, a: seq<nat>, b: seq<nat>, k2: nat)
    requires k <= k2 <= |m|
    ensures Flat(Splice(m, k, [a, b], k2)) == Upto(m, k) + (a + b) + From(m, k2)
    ensures Upto(Splice(m, k, [a, b], k2), k) == Upto(m, k)
  {
    var r := Splice(m, k, [a, b], k2);
    FlatAt(r, k + 1);
    UptoSame(m, r, k);
    FromSame(m, k2, r, k + 2);
    assert Upto(r, k + 1) == Upto(m, k) + a;
    assert Upto(m, k) + a + b + From(m, k2) == Upto(m, k) + (a + b) + From(m, k2);
  }

  // ---------- Decreasing sequences and their elements ----------

  ghost predicate Above(s: set<nat>, t: set<nat>) {
    forall x, y | x in s && y in t :: y < x
  }

  lemma {:induction false} DescConcat(a: seq<nat>, b: seq<nat>)
    ensures Elements(a + b) == Elements(a) + Elements(b)
    ensures Desc(a + b) <==> Desc(a) && Desc(b) && Above(Elements(a), Elements(b))
  {
    var r := a + b;
    if Desc(r) {
      forall i, j | 0 <= i < j < |b| ensures b[j] < b[i] { assert r[|a| + j] < r[|a| + i]; }
      forall i, j | 0 <= i < j < |a| ensures a[j] < a[i] { assert r[j] < r[i]; }
      forall x, y | x in Elements(a) && y in Elements(b) ensures y < x {
        var i :| 0 <= i < |a| && a[i] == x;
        var j :| 0 <= j < |b| && b[j] == y;
        assert r[|a| + j] < r[i];
      }
    }
    if Desc(a) && Desc(b) && Above(Elements(a), Elements(b)) {
      forall i, j | 0 <= i < j < |r| ensures r[j] < r[i] {
        if i < |a| <= j { assert r[i] in Elements(a) && r[j] in Elements(b); }
        if i >= |a| { assert r[i] == b[i - |a|] && r[j] == b[j - |a|]; }
      }
    }
  }

  lemma {:induction false} DescThree(a: seq<nat>, s: seq<nat>, b: seq<nat>)
    ensures Elements(a + s + b) == Elements(a) + Elements(s) + Elements(b)
    ensures Desc(a + s + b) <==> Desc(a) && Desc(s) && Desc(b) && Above(Elements(a), Elements(s)) &&
                                 Above(Elements(a), Elements(b)) && Above(Elements(s), Elements(b))
  {
    DescConcat(a, s);
    DescConcat(a + s, b);
  }

  lemma {:induction false} DescSize(s: seq<nat>)
    requires Desc(s)
    ensures |Elements(s)| == |s|
  {
    if |s| > 0 {
      DescSize(s[1..]);
      assert s[0] !in s[1..];
      assert Elements(s) == Elements(s[1..]) + {s[0]};
    } else {
      assert Elements(s) == {};
    }
  }

  lemma {:induction false} Ends(s: seq<nat>)
    requires Desc(s) && |s| > 0
    ensures forall x | x in Elements(s) :: Last(s) <= x <= s[0]
    ensures s[0] in Elements(s) && Last(s) in Elements(s)
  {
    forall x | x in Elements(s) ensures Last(s) <= x <= s[0] {
      var i :| 0 <= i < |s| && s[i] == x;
    }
  }

  /** Putting x between a and b, into s, where s may be empty. */
  lemma {:induction false} Grow(a: seq<nat>, s: seq<nat>, t: seq<nat>, b: seq<nat>, x: nat)
    requires Desc(a + s + b) && Desc(t) && Elements(t) == Elements(s) + {x}
    requires Above(Elements(a), {x}) && Above({x}, Elements(b))
    ensures Desc(a + t + b) && Elements(a + t + b) == Elements(a + s + b) + {x}
    ensures x in a + s + b <==> x in s
  {
    DescThree(a, s, b);
    DescThree(a, t, b);
    assert x in a + s + b <==> x in Elements(a + s + b);
    assert x in s <==> x in Elements(s);
  }

  /** Taking x out of s; x is not elsewhere. */
  lemma {:induction false} Shrink(a: seq<nat>, s: seq<nat>, t: seq<nat>, b: seq<nat>, x: nat)
    requires Desc(a + s + b) && Desc(t) && Elements(t) == Elements(s) - {x}
    requires |s| > 0 && Last(s) <= x && Above(Elements(a), {x})
    ensures Desc(a + t + b) && Elements(a + t + b) == Elements(a + s + b) - {x}
    ensures x in Elements(a + s + b) <==> x in s
  {
    DescThree(a, s, b);
    DescThree(a, t, b);
    Ends(s);
    assert x in s <==> x in Elements(s);
    assert x !in Elements(a) && x !in Elements(b);
  }

  // ---------- The list ----------

  /** Chunks start with 4 places and double up to 512. */
  predicate GoodSize(n: int) {
    n == 4 || n == 8 || n == 16 || n == 32 || n == 64 || n == 128 || n == 256 || n == 512
  }

  const F_MAX_SIZE := 512

  ghost predicate NonEmpty(m: seq<seq<nat>>) {
    forall i | 0 <= i < |m| :: |m[i]| > 0
  }

  ghost predicate Holds(c: Chunk, s: seq<nat>, size: nat)
    reads c, c.d
  {
    c.Valid() && c.size == size && c.Items() == s
  }

  ghost predicate Apart(c: Chunk, e: Chunk) {
    c != e && c.d != e.d
  }

  /** Different chunks with different arrays, holding the rows. */
  ghost predicate Stored(cs: seq<Chunk>, m: seq<seq<nat>>, size: nat)
    reads cs, set c: Chunk | c in cs :: c.d
  {
    && |cs| == |m|
    && (forall i | 0 <= i < |cs| :: Holds(cs[i], m[i], size))
    && (forall i, j | 0 <= i < j < |cs| :: Apart(cs[i], cs[j]))
  }

  /** A chunk put in front of chunk k. */
  lemma {:induction false} StoredInsert(cs: seq<Chunk>, m: seq<seq<nat>>, size: nat, k: nat, c: Chunk, s: seq<nat>)
    requires Stored(cs, m, size) && k <= |cs| && Holds(c, s, size)
    requires forall e | e in cs :: Apart(c, e)
    ensures Stored(cs[..k] + [c] + cs[k..], Splice(m, k, [s], k), size)
  {
    var ds, r := cs[..k] + [c] + cs[k..], Splice(m, k, [s], k);
    forall i | 0 <= i < |ds| ensures Holds(ds[i], r[i], size) {
      if i != k { assert Holds(cs[if i < k then i else i - 1], m[if i < k then i else i - 1], size); }
    }
    forall i, j | 0 <= i < j < |ds| ensures Apart(ds[i], ds[j]) {
      if i == k { assert ds[j] == cs[j - 1]; }
      if j == k { assert ds[i] == cs[i] && Apart(c, cs[i]); }
      if i != k && j != k { assert Apart(cs[if i < k then i else i - 1], cs[if j < k then j else j - 1]); }
    }
  }

  /** A chunk that has changed. */
  lemma {:induction false} StoredReplace(cs: seq<Chunk>, m: seq<seq<nat>>, size: nat, k: nat, s: seq<nat>)
    requires |cs| == |m| && k < |cs| && Holds(cs[k], s, size)
    requires forall i | 0 <= i < |cs| && i != k :: Holds(cs[i], m[i], size)
    requires forall i, j | 0 <= i < j < |cs| :: Apart(cs[i], cs[j])
    ensures Stored(cs, Splice(m, k, [s], k + 1), size)
  {
  }

  /** A position in a traversal: the chunk and the array index, -1 before the first item; chunk
      number |chunks| is the end. */
  datatype Position = Position(k: nat, i: int)

  class List {
    var chunks: seq<Chunk>
    var numChunks: int
    var chunksize: nat
    var numTerms: int
    ghost var rows: seq<seq<nat>>

    /** Right-justified chunks of one size. */
    ghost predicate Shape()
      reads this, chunks, set c: Chunk | c in chunks :: c.d
    {
      Stored(chunks, rows, chunksize) && numChunks == |chunks|
    }

    /** The chain is strictly decreasing, without empty chunks. */
    ghost predicate Ordered()
      reads this
    {
      NonEmpty(rows) && Desc(Flat(rows)) && GoodSize(chunksize)
    }

    ghost predicate Valid()
      reads this, chunks, set c: Chunk | c in chunks :: c.d
    {
      Shape() && Ordered() && numTerms == |Flat(rows)|
    }

    /** The set of IDs that the list stands for. */
    ghost function Ids(): set<nat>
      reads this
    {
      Elements(Flat(rows))
    }

    /** There is room in the chain: fewer chunks than places in a chunk. */
    predicate Sparse()
      reads this
    {
      numChunks < chunksize || chunksize == F_MAX_SIZE
    }

    constructor ()
      ensures Valid() && Ids() == {} && Sparse()
    {
      chunks, numChunks, chunksize, numTerms, rows := [], 0, 4, 0, [];
    }

    /** A new chunk for x in front of chunk k. */
    method AddChunk(k: nat, x: nat)
      requires Shape() && k <= |chunks| && chunksize > 0
      modifies this`chunks, this`rows, this`numChunks
      ensures Shape() && rows == Splice(old(rows), k, [[x]], k) && NewOnly(old(chunks), chunks)
    {
      var c := new Chunk.Of(chunksize, x);
      StoredInsert(chunks, rows, chunksize, k, c, [x]);
      chunks := chunks[..k] + [c] + chunks[k..];
      rows := Splice(rows, k, [[x]], k);
      numChunks := numChunks + 1;
    }

    /** Split the full chunk k; its first half goes to a new chunk in front of it. */
    method SplitChunk(k: nat)
      requires Shape() && k < |chunks| && |rows[k]| == chunksize && chunksize >= 2
      modifies this`chunks, this`rows, this`numChunks, chunks[k], chunks[k].d
      ensures Shape() && |rows| == old(|rows|) + 1 && NewOnly(old(chunks), chunks)
      ensures rows[k] + rows[k + 1] == old(rows[k]) && 0 < |rows[k]| < chunksize && 0 < |rows[k + 1]| < chunksize
      ensures rows == Splice(old(rows), k, [rows[k], rows[k + 1]], k + 1)
    {
      var c := chunks[k];
      ghost var m := rows;
      var f2 := c.Split();
      ghost var a, b := f2.Items(), c.Items();
      StoredReplace(chunks, rows, chunksize, k, b);
      StoredInsert(chunks, Splice(m, k, [b], k + 1), chunksize, k, f2, a);
      chunks := chunks[..k] + [f2] + chunks[k..];
      rows := Splice(m, k, [a, b], k + 1);
      assert rows == Splice(Splice(m, k, [b], k + 1), k, [a], k);
      numChunks := numChunks + 1;
    }

    /** Insert into chunk k, which has room. */
    method InsertInto(k: nat, x: nat) returns (ok: bool)
      requires Shape() && k < |chunks| && |rows[k]| < chunksize && Desc(rows[k])
      modifies this`rows, chunks[k], chunks[k].d
      ensures Shape() && |rows| == old(|rows|) && rows == Splice(old(rows), k, [rows[k]], k + 1)
      ensures ok == (x !in old(rows[k])) && Elements(rows[k]) == Elements(old(rows[k])) + {x} && Desc(rows[k])
    {
      ghost var m := rows;
      ok := chunks[k].Insert(x);
      rows := Splice(rows, k, [chunks[k].Items()], k + 1);
    }

    /** What insertion does at chunk k. */
    method Decide(k: nat, x: nat, ghost ids: set<nat>, ghost split: bool) returns (s: Step)
      requires Shape() && k < |chunks| && Searching(rows, k, x, chunksize, ids, split)
      ensures s == Next ==> Searching(rows, k + 1, x, chunksize, ids, split)
      ensures s == Halve ==> Decision(rows, k, x, chunksize, Halve)
      ensures s != Next && s != Halve ==> Found(rows, k, x, chunksize, ids, s) && (split ==> s == Into)
    {
      s := Compare(k, x);
      if s == Next { NextStep(rows, k, x, chunksize, ids, split); }
    }

    method Compare(k: nat, x: nat) returns (s: Step)
      requires Shape() && Ordered() && k < |chunks|
      ensures Decision(rows, k, x, chunksize, s)
    {
      RowOf(rows, k);
      if chunks[k].n == chunks[k].size {
        var last := chunks[k].Lowest();
        if x < last { return Next; }
        if x == last { return Present; }
        var first := chunks[k].First();
        return if x > first then Front else Halve;
      }
      if k + 1 < |chunks| {
        RowOf(rows, k + 1);
        RowsApart(rows, k);
        var next := chunks[k + 1].First();
        if x <= next { return Next; }
      }
      return Into;
    }

    method HalveChunk(k: nat, x: nat, ghost ids: set<nat>, ghost split: bool)
      requires Shape() && k < |chunks| && Searching(rows, k, x, chunksize, ids, split)
      requires Decision(rows, k, x, chunksize, Halve)
      modifies this`chunks, this`rows, this`numChunks, chunks[k], chunks[k].d
      ensures Shape() && NewOnly(old(chunks), chunks) && numChunks == old(numChunks) + 1
      ensures !split && Searching(rows, k, x, chunksize, ids, true)
    {
      ghost var m := rows;
      SplitChunk(k);
      HalveStep(m, k, x, chunksize, ids, split, rows[k], rows[k + 1]);
    }

    /** The loop of insertion: the chunk where it ends and what is left to do there. At most one chunk
        is split on the way. */
    method FindPlace(x: nat) returns (k: nat, step: Step)
      requires Shape() && Ordered()
      modifies this`chunks, this`rows, this`numChunks, chunks, set c: Chunk | c in chunks :: c.d
      ensures Shape() && NewOnly(old(chunks), chunks) && Found(rows, k, x, chunksize, old(Ids()), step)
      ensures numChunks == old(numChunks) || (numChunks == old(numChunks) + 1 && step == Into)
    {
      k := 0;
      ghost var split, ids := false, Ids();
      assert Upto(rows, 0) == [];
      while true
        invariant Shape() && NewOnly(old(chunks), chunks) && k <= |chunks|
        invariant Searching(rows, k, x, chunksize, ids, split)
        invariant numChunks == old(numChunks) + (if split then 1 else 0)
        decreases !split, |chunks| - k
      {
        if k == |chunks| { return k, Front; }
        step := Decide(k, x, ids, split);
        if step == Next {
          k := k + 1;
        } else if step == Halve {
          HalveChunk(k, x, ids, split);
          split := true;
        } else {
          return;
        }
      }
    }

    /** Insertion in the chain; false (a fatal error) when the ID is there already. At most one chunk
        is added. */
    method FlistInsert(x: nat) returns (ok: bool)
      requires Shape() && Ordered()
      modifies this`chunks, this`rows, this`numChunks, chunks, set c: Chunk | c in chunks :: c.d
      ensures Shape() && Ordered() && NewOnly(old(chunks), chunks)
      ensures ok == (x !in old(Ids())) && Ids() == old(Ids()) + {x}
      ensures numChunks <= old(numChunks) + 1
    {
      var k, step := FindPlace(x);
      ghost var m := rows;
      match step {
        case Present =>
          PresentStep(m, k, x);
          ok := false;
        case Front =>
          AddedRow(m, k, x);
          AddChunk(k, x);
          ok := true;
        case Into =>
          RowOf(m, k);
          ok := InsertInto(k, x);
          IntoStep(m, k, x, chunksize, old(Ids()), rows[k]);
      }
    }

    /** Chunks of twice the size from pairs of chunks. */
    method PairChunks() returns (bigger: seq<Chunk>, ghost m: seq<seq<nat>>)
      requires Shape() && Ordered() && |chunks| % 2 == 0
      ensures |bigger| == |chunks| / 2 && Stored(bigger, m, 2 * chunksize)
      ensures forall c | c in bigger :: fresh(c) && fresh(c.d)
      ensures NonEmpty(m) && Flat(m) == Flat(rows)
    {
      var k: nat := 0;
      bigger, m := [], [];
      ghost var half := |chunks| / 2;
      assert |chunks| == 2 * half;
      while 2 * k < |chunks|
        invariant k <= half && |bigger| == k
        invariant Stored(bigger, m, 2 * chunksize)
        invariant forall c | c in bigger :: fresh(c) && fresh(c.d)
        invariant NonEmpty(m) && Flat(m) == Upto(rows, 2 * k)
      {
        var c := Pair(2 * k);
        StoredInsert(bigger, m, 2 * chunksize, k, c, rows[2 * k] + rows[2 * k + 1]);
        assert bigger[..k] + [c] + bigger[k..] == bigger + [c];
        PairRows(rows, m, k);
        m := Splice(m, k, [rows[2 * k] + rows[2 * k + 1]], k);
        bigger := bigger + [c];
        k := k + 1;
      }
      FlatUpto(rows);
    }

    method DoubleChunksize()
      requires Shape() && Ordered() && |chunks| % 2 == 0 && chunksize < F_MAX_SIZE
      modifies this`chunks, this`rows, this`chunksize, this`numChunks
      ensures Shape() && Ordered() && Flat(rows) == old(Flat(rows))
      ensures chunksize == 2 * old(chunksize) && numChunks == old(numChunks) / 2
      ensures NewOnly(old(chunks), chunks)
    {
      var bigger, m := PairChunks();
      chunks, rows, chunksize, numChunks := bigger, m, 2 * chunksize, numChunks / 2;
    }

    /** One chunk with the items of chunks k and k + 1. */
    method Pair(k: nat) returns (c: Chunk)
      requires Shape() && k + 1 < |chunks|
      ensures fresh(c) && fresh(c.d) && Holds(c, rows[k] + rows[k + 1], 2 * chunksize)
    {
      assert Holds(chunks[k], rows[k], chunksize) && Holds(chunks[k + 1], rows[k + 1], chunksize);
      var items := chunks[k].Copy();
      var more := chunks[k + 1].Copy();
      c := new Chunk.From(2 * chunksize, items + more);
    }

    /** Insertion; false (a fatal error) when the ID is there already. The pairing of chunks never
        meets an odd chunk, because doubling happens when there are as many chunks as places. */
    method Insert(x: nat) returns (ok: bool)
      requires Valid()
      modifies this, chunks, set c: Chunk | c in chunks :: c.d
      ensures ok == (x !in old(Ids())) && Ids() == old(Ids()) + {x}
      ensures ok ==> Valid() && NewOnly(old(chunks), chunks) && (old(Sparse()) ==> Sparse())
    {
      ghost var m := rows;
      ok := FlistInsert(x);
      if !ok { return; }
      TermCount(Flat(m), Flat(rows), x);
      numTerms := numTerms + 1;
      if numChunks == chunksize && chunksize < F_MAX_SIZE {
        DoubleChunksize();
      }
    }

    /** Delete from chunk k. */
    method DeleteFrom(k: nat, x: nat) returns (ok: bool)
      requires Shape() && k < |chunks| && |rows[k]| > 0 && Desc(rows[k]) && Last(rows[k]) <= x
      modifies this`rows, chunks[k], chunks[k].d
      ensures Shape() && |rows| == old(|rows|) && rows == Splice(old(rows), k, [rows[k]], k + 1)
      ensures ok == (x in old(rows[k])) && Elements(rows[k]) == Elements(old(rows[k])) - {x} && Desc(rows[k])
    {
      ok := chunks[k].Delete(x);
      rows := Splice(rows, k, [chunks[k].Items()], k + 1);
    }

    /** Unlink chunk k. */
    method DropChunk(k: nat)
      requires Shape() && k < |chunks|
      modifies this`chunks, this`rows, this`numChunks
      ensures Shape() && rows == Splice(old(rows), k, [], k + 1) && numChunks == old(numChunks) - 1
      ensures NewOnly(old(chunks), chunks)
    {
      StoredRemove(chunks, rows, chunksize, k);
      chunks := chunks[..k] + chunks[k + 1..];
      rows := Splice(rows, k, [], k + 1);
      numChunks := numChunks - 1;
    }

    /** Move the items of chunk k to the next chunk. */
    method AbsorbInto(k: nat)
      requires Shape() && k + 1 < |chunks| && |rows[k]| + |rows[k + 1]| <= chunksize
      modifies this`rows, chunks[k + 1], chunks[k + 1].d
      ensures Shape() && rows == Splice(old(rows), k + 1, [old(rows)[k] + old(rows)[k + 1]], k + 2)
    {
      assert Holds(chunks[k], rows[k], chunksize) && Holds(chunks[k + 1], rows[k + 1], chunksize) &&
          Apart(chunks[k], chunks[k + 1]);
      chunks[k + 1].Absorb(chunks[k]);
      StoredReplace(chunks, rows, chunksize, k + 1, rows[k] + rows[k + 1]);
      rows := Splice(rows, k + 1, [rows[k] + rows[k + 1]], k + 2);
    }

    /** Join chunk k and the next one if the items fit in one chunk. */
    method Consolidate(k: nat)
      requires Shape() && k < |chunks| && NonEmpty(rows)
      modifies this`chunks, this`rows, this`numChunks, chunks, set c: Chunk | c in chunks :: c.d
      ensures Shape() && NonEmpty(rows) && Flat(rows) == old(Flat(rows)) && numChunks <= old(numChunks)
      ensures NewOnly(old(chunks), chunks)
    {
      if k + 1 < |chunks| {
        assert Holds(chunks[k], rows[k], chunksize) && Holds(chunks[k + 1], rows[k + 1], chunksize);
        if chunks[k].n + chunks[k + 1].n <= chunks[k].size {
          JoinRows(rows, k);
          AbsorbInto(k);
          DropChunk(k);
        }
      }
    }

    /** Deletion in the chain; false (a fatal error) when the ID is not there. */
    method FlistDelete(x: nat) returns (ok: bool)
      requires Shape() && Ordered()
      modifies this`chunks, this`rows, this`numChunks, chunks, set c: Chunk | c in chunks :: c.d
      ensures ok == (x in old(Ids())) && Ids() == old(Ids()) - {x}
      ensures Shape() && Ordered() && NewOnly(old(chunks), chunks) && numChunks <= old(numChunks)
    {
      var k := FindChunk(x);
      if k == |chunks| {
        FlatUpto(rows);
        return false;
      }
      ok := DeleteAt(k, x);
    }

    /** Deletion from the chunk that must hold x. */
    method DeleteAt(k: nat, x: nat) returns (ok: bool)
      requires Shape() && Ordered() && k < |chunks| && Above(Elements(Upto(rows, k)), {x}) && Last(rows[k]) <= x
      modifies this`chunks, this`rows, this`numChunks, chunks, set c: Chunk | c in chunks :: c.d
      ensures ok == (x in old(Ids())) && Ids() == old(Ids()) - {x}
      ensures Shape() && Ordered() && NewOnly(old(chunks), chunks) && numChunks <= old(numChunks)
    {
      ghost var m := rows;
      RowOf(m, k);
      ok := DeleteFrom(k, x);
      ShrinkRow(m, k, rows[k], x);
      if !ok { return; }
      assert Splice(rows, k, [], k + 1) == Splice(m, k, [], k + 1);
      Tidy(k);
    }

    /** Unlink chunk k if it has become empty, else try to join it with the next one. */
    method Tidy(k: nat)
      requires Shape() && k < |chunks|
      requires |rows[k]| > 0 ==> NonEmpty(rows)
      requires |rows[k]| == 0 ==> NonEmpty(Splice(rows, k, [], k + 1)) && Flat(Splice(rows, k, [], k + 1)) == Flat(rows)
      modifies this`chunks, this`rows, this`numChunks, chunks, set c: Chunk | c in chunks :: c.d
      ensures Shape() && NonEmpty(rows) && Flat(rows) == old(Flat(rows)) && numChunks <= old(numChunks)
      ensures NewOnly(old(chunks), chunks)
    {
      assert Holds(chunks[k], rows[k], chunksize);
      if chunks[k].n == 0 {
        DropChunk(k);
      } else {
        Consolidate(k);
      }
    }

    /** The chunk that must hold x. */
    method FindChunk(x: nat) returns (k: nat)
      requires Shape() && Ordered()
      ensures k <= |chunks| && Above(Elements(Upto(rows, k)), {x})
      ensures k < |chunks| ==> Last(rows[k]) <= x
    {
      k := 0;
      assert Upto(rows, 0) == [];
      while k < |chunks|
        invariant k <= |chunks| && Above(Elements(Upto(rows, k)), {x})
      {
        RowOf(rows, k);
        var last := chunks[k].Lowest();
        if last <= x { return; }
        Ends(rows[k]);
        DescConcat(Upto(rows, k), rows[k]);
        k := k + 1;
      }
    }

    method Delete(x: nat) returns (ok: bool)
      requires Valid()
      modifies this, chunks, set c: Chunk | c in chunks :: c.d
      ensures ok == (x in old(Ids())) && Ids() == old(Ids()) - {x}
      ensures ok ==> Valid() && NewOnly(old(chunks), chunks) && (old(Sparse()) ==> Sparse())
    {
      ghost var m := rows;
      ok := FlistDelete(x);
      if !ok { return; }
      TermCount(Flat(rows), Flat(m), x);
      numTerms := numTerms - 1;
    }

    // ---------- Traversal ----------

    function NextFpos(p: Position): Position
      requires Valid()
      reads this, chunks, set c: Chunk | c in chunks :: c.d
      decreases |chunks| - p.k
    {
      if p.k >= |chunks| then Position(|chunks|, 0)
      else if p.i == -1 then Position(p.k, chunks[p.k].size - chunks[p.k].n)
      else if p.i + 1 < chunks[p.k].size then Position(p.k, p.i + 1)
      else NextFpos(Position(p.k + 1, -1))
    }

    /** The traversal has reached p after the items s. */
    ghost predicate Visited(p: Position, s: seq<nat>)
      requires Valid()
      reads this, chunks, set c: Chunk | c in chunks :: c.d
    {
      && p.k <= |chunks|
      && if p.k == |chunks| then s == Flat(rows) else
         var first := chunksize - |rows[p.k]|;
         first <= p.i < chunksize && s == Upto(rows, p.k) + rows[p.k][..p.i - first]
    }

    lemma {:induction false} EnterChunk(k: nat)
      requires Valid() && k <= |chunks|
      ensures Visited(NextFpos(Position(k, -1)), Upto(rows, k)) && NextFpos(Position(k, -1)).k == k
    {
      if k == |chunks| {
        FlatUpto(rows);
      } else {
        assert Holds(chunks[k], rows[k], chunksize);
        assert NextFpos(Position(k, -1)) == Position(k, chunksize - |rows[k]|);
      }
    }

    lemma {:induction false} StepFpos(p: Position, s: seq<nat>)
      requires Valid() && p.k < |chunks| && Visited(p, s)
      ensures 0 <= p.i < chunks[p.k].d.Length && Visited(NextFpos(p), s + [chunks[p.k].d[p.i]])
      ensures NextFpos(p).k > p.k || (NextFpos(p).k == p.k && NextFpos(p).i == p.i + 1)
    {
      var row, j := rows[p.k], p.i - (chunksize - |rows[p.k]|);
      assert Holds(chunks[p.k], row, chunksize) && chunks[p.k].d[p.i] == row[j];
      assert row[..j + 1] == row[..j] + [row[j]];
      assert Upto(rows, p.k) + row[..j] + [row[j]] == Upto(rows, p.k) + row[..j + 1];
      if p.i + 1 == chunksize {
        EnterChunk(p.k + 1);
        assert row[..j + 1] == row;
        assert NextFpos(p) == NextFpos(Position(p.k + 1, -1));
      }
    }

    /** A traversal visits every ID once, in decreasing order. */
    method Traverse() returns (s: seq<nat>)
      requires Valid()
      ensures s == Flat(rows) && Desc(s) && Elements(s) == Ids()
    {
      s := [];
      var p := NextFpos(Position(0, -1));
      EnterChunk(0);
      while p.k < |chunks|
        invariant Visited(p, s)
        decreases |chunks| - p.k, chunksize - p.i
      {
        StepFpos(p, s);
        s := s + [chunks[p.k].d[p.i]];
        p := NextFpos(p);
      }
    }

    // ---------- Building ----------

    /** A list from an array that is sorted already. A full last chunk can leave as many chunks as
        places, which insertion never does. */
    constructor Build(terms: seq<nat>)
      requires Desc(terms)
      ensures Valid() && Flat(rows) == terms
      ensures chunksize < F_MAX_SIZE ==>
                numChunks <= chunksize &&
                (Sparse() <==> |terms| <= chunksize * (chunksize - 1))
    {
      chunks, numChunks, chunksize, numTerms, rows := [], 0, 4, 0, [];
      new;
      if |terms| == 0 { return; }
      chunksize := ChooseSize(|terms|);
      FillChunks(terms);
      Density(chunksize, numChunks, |terms|);
      numTerms := |terms|;
    }

    method FillChunks(terms: seq<nat>)
      requires |chunks| == |rows| == numChunks == 0 && chunksize > 0 && |terms| > 0
      modifies this`chunks, this`rows, this`numChunks
      ensures Shape() && NonEmpty(rows) && Flat(rows) == terms && NewOnly([], chunks)
      ensures Covers(chunksize, numChunks, |terms|)
    {
      var pos: nat := 0;
      while pos < |terms|
        invariant pos <= |terms| && Shape() && NonEmpty(rows) && Flat(rows) == terms[..pos] && NewOnly([], chunks)
        invariant pos < |terms| ==> pos == Times(chunksize, numChunks)
        invariant pos > 0 ==> Covers(chunksize, numChunks, pos)
      {
        var fill := if |terms| - pos < chunksize then |terms| - pos else chunksize;
        FillStep(terms, pos, fill, chunksize, numChunks);
        AppendChunk(terms[pos..pos + fill]);
        pos := pos + fill;
      }
      assert terms[..pos] == terms;
    }

    /** A new chunk at the end. */
    method AppendChunk(items: seq<nat>)
      requires Shape() && NonEmpty(rows) && 0 < |items| <= chunksize
      modifies this`chunks, this`rows, this`numChunks
      ensures Shape() && NonEmpty(rows) && Flat(rows) == old(Flat(rows)) + items
      ensures NewOnly(old(chunks), chunks) && numChunks == old(numChunks) + 1
    {
      var c := new Chunk.From(chunksize, items);
      ghost var n := |chunks|;
      StoredInsert(chunks, rows, chunksize, n, c, items);
      assert chunks[..n] + [c] + chunks[n..] == chunks + [c];
      SpliceOne(rows, n, items, n);
      FlatUpto(rows);
      rows := Splice(rows, n, [items], n);
      chunks := chunks + [c];
      numChunks := numChunks + 1;
    }
  }

  /** The smallest good size whose square covers n, or the largest size. */
  method ChooseSize(n: nat) returns (size: nat)
    ensures GoodSize(size) && (size < F_MAX_SIZE ==> n <= size * size)
    ensures size > 4 ==> (size / 2) * (size / 2) < n
  {
    size := 4;
    while size < F_MAX_SIZE && size * size < n
      invariant GoodSize(size) && (size > 4 ==> (size / 2) * (size / 2) < n)
      decreases F_MAX_SIZE - size
    {
      size := size * 2;
    }
  }

  function Times(a: int, b: int): int { a * b }

  /** n chunks are needed for the total, and are enough. */
  predicate Covers(size: int, n: int, total: int) {
    Times(size, n - 1) < total <= Times(size, n)
  }

  lemma {:induction false} FillStep(terms: seq<nat>, pos: nat, fill: nat, size: nat, n: int)
    requires pos < |terms| && fill == (if |terms| - pos < size then |terms| - pos else size)
    requires size > 0 && pos == Times(size, n)
    ensures terms[..pos] + terms[pos..pos + fill] == terms[..pos + fill]
    ensures pos + fill < |terms| ==> pos + fill == Times(size, n + 1)
    ensures Covers(size, n + 1, pos + fill)
  {
  }

  lemma {:induction false} Density(size: nat, n: int, total: nat)
    requires size > 0 && Covers(size, n, total) && (size < F_MAX_SIZE ==> total <= size * size)
    ensures size < F_MAX_SIZE ==> n <= size && (n < size <==> total <= size * (size - 1))
  {
    if n > size { assert Times(size, n - 1) >= size * size; }
    if n < size { assert Times(size, n) <= size * (size - 1); }
    if n == size { assert Times(size, n - 1) == size * (size - 1); }
  }

  lemma {:induction false} StoredRemove(cs: seq<Chunk>, m: seq<seq<nat>>, size: nat, k: nat)
    requires Stored(cs, m, size) && k < |cs|
    ensures Stored(cs[..k] + cs[k + 1..], Splice(m, k, [], k + 1), size)
  {
    var ds, r := cs[..k] + cs[k + 1..], Splice(m, k, [], k + 1);
    forall i | 0 <= i < |ds| ensures Holds(ds[i], r[i], size) {
      assert Holds(cs[if i < k then i else i + 1], m[if i < k then i else i + 1], size);
    }
    forall i, j | 0 <= i < j < |ds| ensures Apart(ds[i], ds[j]) {
      assert Apart(cs[if i < k then i else i + 1], cs[if j < k then j else j + 1]);
    }
  }

  lemma {:induction false} ShrinkRow(m: seq<seq<nat>>, k: nat, s: seq<nat>, x: nat)
    requires NonEmpty(m) && Desc(Flat(m)) && k < |m| && Above(Elements(Upto(m, k)), {x}) && Last(m[k]) <= x
    requires Desc(s) && Elements(s) == Elements(m[k]) - {x}
    ensures var r := Splice(m, k, [s], k + 1);
            && Desc(Flat(r)) && Elements(Flat(r)) == Elements(Flat(m)) - {x}
            && (x in Elements(Flat(m)) <==> x in m[k]) && (x !in m[k] ==> |s| > 0)
            && (|s| > 0 ==> NonEmpty(r))
            && (|s| == 0 ==> NonEmpty(Splice(m, k, [], k + 1)) && Flat(Splice(m, k, [], k + 1)) == Flat(r))
  {
    RowOf(m, k);
    Ends(m[k]);
    assert x !in m[k] ==> Last(m[k]) in Elements(s);
    FlatAt(m, k);
    SpliceOne(m, k, s, k + 1);
    SpliceNone(m, k, k + 1);
    Shrink(Upto(m, k), m[k], s, From(m, k + 1), x);
    assert |s| == 0 ==> Upto(m, k) + s == Upto(m, k);
  }

  lemma {:induction false} JoinRows(m: seq<seq<nat>>, k: nat)
    requires NonEmpty(m) && k + 1 < |m|
    ensures var r := Splice(Splice(m, k + 1, [m[k] + m[k + 1]], k + 2), k, [], k + 1);
            NonEmpty(r) && Flat(r) == Flat(m)
  {
    var q := Splice(m, k + 1, [m[k] + m[k + 1]], k + 2);
    var r := Splice(q, k, [], k + 1);
    assert r == Splice(m, k, [m[k] + m[k + 1]], k + 2);
    SpliceOne(m, k, m[k] + m[k + 1], k + 2);
    FlatAt(m, k);
    assert Upto(m, k) + m[k] + (m[k + 1] + From(m, k + 2)) == Upto(m, k) + (m[k] + m[k + 1]) + From(m, k + 2);
  }

  lemma {:induction false} FlatUpto(m: seq<seq<nat>>)
    ensures Flat(m) == Upto(m, |m|)
  {
    FlatParts(m, |m|);
    assert From(m, |m|) == [];
  }

  lemma {:induction false} PairRows(m: seq<seq<nat>>, r: seq<seq<nat>>, k: nat)
    requires |r| == k && 2 * k + 1 < |m| && NonEmpty(m) && NonEmpty(r) && Flat(r) == Upto(m, 2 * k)
    ensures var q := Splice(r, k, [m[2 * k] + m[2 * k + 1]], k); NonEmpty(q) && Flat(q) == Upto(m, 2 * (k + 1))
  {
    var s, t := m[2 * k], m[2 * k + 1];
    SpliceOne(r, k, s + t, k);
    FlatParts(r, k);
    assert From(r, k) == [];
    assert Upto(m, 2 * k + 2) == Upto(m, 2 * k) + s + t == Upto(m, 2 * k) + (s + t);
  }

  lemma {:induction false} TermCount(s: seq<nat>, t: seq<nat>, x: nat)
    requires Desc(s) && Desc(t) && x !in Elements(s) && Elements(t) == Elements(s) + {x}
    ensures |t| == |s| + 1
  {
    DescSize(s);
    DescSize(t);
  }

  /** The ways insertion goes on at a chunk. */
  datatype Step = Next | Present | Front | Halve | Into

  ghost predicate Decision(m: seq<seq<nat>>, k: nat, x: nat, size: nat, s: Step)
    requires k < |m| && NonEmpty(m)
  {
    match s
    case Next => x < Last(m[k]) && (|m[k]| < size ==> k + 1 < |m| && x <= m[k + 1][0])
    case Present => |m[k]| == size && x == Last(m[k])
    case Front => |m[k]| == size && m[k][0] < x
    case Halve => |m[k]| == size && Last(m[k]) < x <= m[k][0]
    case Into => |m[k]| < size && (k + 1 < |m| ==> m[k + 1][0] < x)
  }

  /** The invariant of the search: x belongs at chunk k or further on. */
  ghost predicate Searching(m: seq<seq<nat>>, k: nat, x: nat, size: int, ids: set<nat>, split: bool) {
    && k <= |m| && NonEmpty(m) && Desc(Flat(m)) && GoodSize(size) && Elements(Flat(m)) == ids
    && Above(Elements(Upto(m, k)), {x})
    && (split ==> AfterSplit(m, k, x, size))
  }

  /** The rows are in order and stand for the set. */
  ghost predicate Rows(m: seq<seq<nat>>, ids: set<nat>) {
    NonEmpty(m) && Desc(Flat(m)) && Elements(Flat(m)) == ids
  }

  /** Where the search ends. */
  ghost predicate Found(m: seq<seq<nat>>, k: nat, x: nat, size: int, ids: set<nat>, s: Step) {
    && k <= |m| && NonEmpty(m) && Desc(Flat(m)) && GoodSize(size) && Elements(Flat(m)) == ids
    && Above(Elements(Upto(m, k)), {x})
    && match s
       case Present => k < |m| && x == Last(m[k])
       case Front => k < |m| ==> m[k][0] < x
       case Into => k < |m| && |m[k]| < size && (k + 1 < |m| ==> m[k + 1][0] < x)
       case _ => false
  }

  lemma {:induction false} NextStep(m: seq<seq<nat>>, k: nat, x: nat, size: nat, ids: set<nat>, split: bool)
    requires Searching(m, k, x, size, ids, split) && k < |m| && Decision(m, k, x, size, Next)
    ensures Searching(m, k + 1, x, size, ids, split)
  {
    RowOf(m, k);
    Ends(m[k]);
    DescConcat(Upto(m, k), m[k]);
  }

  lemma {:induction false} PresentStep(m: seq<seq<nat>>, k: nat, x: nat)
    requires NonEmpty(m) && k < |m| && x == Last(m[k])
    ensures x in Elements(Flat(m))
  {
    FlatAt(m, k);
    assert x in m[k];
  }

  lemma {:induction false} HalveStep(m: seq<seq<nat>>, k: nat, x: nat, size: nat, ids: set<nat>, split: bool,
      a: seq<nat>, b: seq<nat>)
    requires Searching(m, k, x, size, ids, split) && k < |m| && Decision(m, k, x, size, Halve)
    requires m[k] == a + b && 0 < |a| < size && 0 < |b| < size
    ensures !split && Searching(Splice(m, k, [a, b], k + 1), k, x, size, ids, true)
  {
    SpliceTwo(m, k, a, b, k + 1);
    FlatAt(m, k);
    var r := Splice(m, k, [a, b], k + 1);
    assert r[k] == a && r[k + 1] == b;
  }

  /** Insertion into the chunk at hand. */
  lemma {:induction false} IntoStep(m: seq<seq<nat>>, k: nat, x: nat, size: nat, ids: set<nat>, s: seq<nat>)
    requires Found(m, k, x, size, ids, Into)
    requires Desc(s) && Elements(s) == Elements(m[k]) + {x}
    ensures Rows(Splice(m, k, [s], k + 1), ids + {x}) && (x in ids <==> x in m[k])
  {
    BelowRows(m, k + 1, x);
    FlatAt(m, k);
    SpliceOne(m, k, s, k + 1);
    Grow(Upto(m, k), m[k], s, From(m, k + 1), x);
    assert x in Elements(s);
  }

  ghost predicate AfterSplit(m: seq<seq<nat>>, k: nat, x: nat, size: nat) {
    k < |m| && 0 < |m[k]| < size &&
    (x > Last(m[k]) || (k + 1 < |m| && 0 < |m[k + 1]| < size && x > Last(m[k + 1])))
  }

  twostate predicate NewOnly(was: seq<Chunk>, new now: seq<Chunk>) {
    forall c | c in now :: c in was || (fresh(c) && fresh(c.d))
  }

  lemma {:induction false} RowOf(m: seq<seq<nat>>, k: nat)
    requires NonEmpty(m) && Desc(Flat(m)) && k < |m|
    ensures Desc(m[k]) && |m[k]| > 0
  {
    FlatAt(m, k);
    DescThree(Upto(m, k), m[k], From(m, k + 1));
  }

  lemma {:induction false} RowsApart(m: seq<seq<nat>>, k: nat)
    requires NonEmpty(m) && Desc(Flat(m)) && k + 1 < |m|
    ensures m[k + 1][0] < Last(m[k])
  {
    FlatAt(m, k);
    RowOf(m, k);
    RowOf(m, k + 1);
    DescThree(Upto(m, k), m[k], From(m, k + 1));
    DescConcat(m[k + 1], From(m, k + 2));
    Ends(m[k]);
    Ends(m[k + 1]);
  }

  lemma {:induction false} BelowRows(m: seq<seq<nat>>, k: nat, x: nat)
    requires NonEmpty(m) && Desc(Flat(m)) && k <= |m| && (k < |m| ==> m[k][0] < x)
    ensures Above({x}, Elements(From(m, k)))
  {
    if k < |m| {
      FlatParts(m, k);
      DescConcat(Upto(m, k), From(m, k));
      assert From(m, k)[0] == m[k][0];
      Ends(From(m, k));
    }
  }

  lemma {:induction false} AddedRow(m: seq<seq<nat>>, k: nat, x: nat)
    requires NonEmpty(m) && Desc(Flat(m)) && k <= |m| && (k < |m| ==> m[k][0] < x)
    requires Above(Elements(Upto(m, k)), {x})
    ensures x !in Elements(Flat(m)) && Rows(Splice(m, k, [[x]], k), Elements(Flat(m)) + {x})
  {
    BelowRows(m, k, x);
    FlatParts(m, k);
    SpliceOne(m, k, [x], k);
    assert Upto(m, k) + [] + From(m, k) == Flat(m);
    Grow(Upto(m, k), [], [x], From(m, k), x);
  }
}

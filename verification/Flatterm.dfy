/** Flatterms from terms and back (term_to_flatterm, flatterm_to_term: ladr/flatterm.c). */
module Flatterm {
  import opened Terms
  import opened DiscrimTree
  import opened FlatRetrieval

  /** The nodes whose subterms are being laid out, innermost first: the node, its cell, and its
      children still to come. */
  datatype Stack = Bottom | Frame(src: Term, at: nat, child: nat, below: Stack)

  ghost function ToDo(s: Stack): seq<Term>
    requires s.Frame?
  {
    if s.child <= |Args(s.src)| then Args(s.src)[s.child..] else []
  }

  /** The terms still to be laid out. */
  ghost function Remaining(s: Stack): seq<Term> {
    if s.Bottom? then [] else ToDo(s) + Remaining(s.below)
  }

  ghost function Open(s: Stack): set<nat> {
    if s.Bottom? then {} else {s.at} + Open(s.below)
  }

  /** The frames sit at their cells, all before position n, and end where what is below them goes on. */
  ghost predicate Frames(p: Positions, s: Stack, n: nat)
    requires Chained(p) && n <= |p|
  {
    s.Frame? ==>
      && s.child <= |Args(s.src)| && s.at < n && p[s.at][0] == s.src
      && At(p, s.at + Size(s.src), Remaining(s.below)) && Frames(p, s.below, s.at)
  }

  /** Every cell has the right symbol, and the right end once its subterm is finished. */
  ghost predicate CellsLaid(p: Positions, cells: seq<Cell>, open: set<nat>)
    requires Chained(p)
  {
    && |cells| <= |p|
    && (forall k | 0 <= k < |cells| :: cells[k].top == TopLabel(p[k][0]))
    && (forall k | 0 <= k < |cells| :: k !in open ==> cells[k].end == k + Size(p[k][0]) - 1)
  }

  ghost predicate Laid(p: Positions, cells: seq<Cell>, s: Stack)
    requires Chained(p)
  {
    CellsLaid(p, cells, Open(s)) && Frames(p, s, |cells|) && At(p, |cells|, Remaining(s))
  }

  lemma {:induction false} OpenBelow(p: Positions, s: Stack, n: nat)
    requires Chained(p) && n <= |p| && Frames(p, s, n)
    ensures forall k | k in Open(s) :: k < n
  {
    if s.Frame? { OpenBelow(p, s.below, s.at); }
  }

  /** A position is known by how much is pending there. */
  lemma {:induction false} PositionOf(p: Positions, i: nat, us: seq<Term>)
    requires Chained(p) && At(p, i, us)
    ensures i + SizeAll(us) == |p|
  {
    assert us + [] == us;
    PendSkip(p, us, i, []);
  }

  lemma {:induction false} Close(p: Positions, cells: seq<Cell>, s: Stack)
    requires Chained(p) && Laid(p, cells, s) && s.Frame? && s.child == |Args(s.src)|
    ensures s.at < |cells| && Laid(p, cells[s.at := cells[s.at].(end := |cells| - 1)], s.below)
  {
    assert ToDo(s) + Remaining(s.below) == Remaining(s.below);
    assert |cells| == s.at + Size(s.src) by {
      PositionOf(p, |cells|, Remaining(s.below));
      PositionOf(p, s.at + Size(s.src), Remaining(s.below));
    }
    OpenBelow(p, s.below, s.at);
  }

  lemma {:induction false} OneTerm(p: Positions, n: nat, ch: Term, more: seq<Term>)
    requires Chained(p) && At(p, n, [ch] + more)
    ensures n < |p| && p[n][0] == ch && At(p, n + 1, Args(ch) + more) && At(p, n + Size(ch), more)
  {
    var one := [ch];
    assert SizeAll(one) == Size(ch) && Args(ch) + one[1..] == Args(ch);
    StepOver(p, n, one, more);
    PendSkip(p, one, n, more);
  }

  lemma {:induction false} FirstOf(ch: Term, todo: seq<Term>, rest: seq<Term>)
    ensures ([ch] + todo) + rest == [ch] + (todo + rest)
  {
  }

  lemma {:induction false} NextChild(s: Stack)
    requires s.Frame? && s.child < |Args(s.src)|
    ensures Remaining(s) == [Args(s.src)[s.child]] + Remaining(s.(child := s.child + 1))
  {
    var ch, todo := Args(s.src)[s.child], ToDo(s.(child := s.child + 1));
    assert ToDo(s) == [ch] + todo;
    FirstOf(ch, todo, Remaining(s.below));
  }

  lemma {:induction false} LayCell(p: Positions, cells: seq<Cell>, open: set<nat>, ch: Term)
    requires Chained(p) && CellsLaid(p, cells, open) && |cells| < |p| && p[|cells|][0] == ch
    ensures var cells2 := cells + [Cell(TopLabel(ch), |cells|)];
            CellsLaid(p, cells2, {|cells|} + open) && (Size(ch) == 1 ==> CellsLaid(p, cells2, open))
  {
  }

  lemma {:induction false} LeafSize(t: Term)
    requires Args(t) == []
    ensures Size(t) == 1
  {
  }

  /** Lay out the next child: finished at once if it has no arguments, else on top of the stack. */
  lemma {:induction false} Lay(p: Positions, cells: seq<Cell>, s: Stack)
    requires Chained(p) && Laid(p, cells, s) && s.Frame? && s.child < |Args(s.src)|
    ensures var ch, s2 := Args(s.src)[s.child], s.(child := s.child + 1);
            var cells2 := cells + [Cell(TopLabel(ch), |cells|)];
            |cells| < |p| && Laid(p, cells2, if Args(ch) == [] then s2 else Frame(ch, |cells|, 0, s2))
  {
    var ch, s2 := Args(s.src)[s.child], s.(child := s.child + 1);
    NextChild(s);
    OneTerm(p, |cells|, ch, Remaining(s2));
    LayCell(p, cells, Open(s), ch);
    assert Open(s2) == Open(s) && Frames(p, s2, |cells|);
    if Args(ch) == [] {
      LeafSize(ch);
    } else {
      assert ToDo(Frame(ch, |cells|, 0, s2)) == Args(ch);
    }
  }

  lemma {:induction false} Start(p: Positions, t: Term)
    requires Chained(p) && |p| > 0 && p[0] == [t]
    ensures Laid(p, [Cell(TopLabel(t), 0)], Frame(t, 0, 0, Bottom))
  {
    SubtermEnd(p, 0);
    assert Follows(p, 0);
    assert Args(t) + [t][1..] == Args(t) == ToDo(Frame(t, 0, 0, Bottom)) + [];
  }

  method TermToFlatterm(t: Term) returns (cells: seq<Cell>)
    ensures IsFlatterm(t, cells)
  {
    ghost var p := Pends([t]);
    PendChained([t]);
    NoTerms([t]);
    cells := [Cell(TopLabel(t), 0)];
    if t.Var? { return; }
    Start(p, t);
    var stack := Frame(t, 0, 0, Bottom);
    while stack.Frame?
      invariant Laid(p, cells, stack)
      decreases |p| - |cells|, stack
    {
      if stack.child >= |Args(stack.src)| {
        Close(p, cells, stack);
        cells := cells[stack.at := cells[stack.at].(end := |cells| - 1)];
        stack := stack.below;
      } else {
        Lay(p, cells, stack);
        var ch := Args(stack.src)[stack.child];
        stack := stack.(child := stack.child + 1);
        if Args(ch) != [] { stack := Frame(ch, |cells|, 0, stack); }
        cells := cells + [Cell(TopLabel(ch), |cells|)];
      }
    }
  }

  // ---------- Back to a term ----------

  /** The nodes being rebuilt, innermost first: the cell of the node, the cell of its next
      argument, and the arguments that are done. */
  datatype Build = Root | Level(at: nat, g: nat, kids: seq<Term>, below: Build)

  function Depth(b: Build): nat {
    if b.Root? then 0 else 1 + Depth(b.below)
  }

  /** The first arguments are done, and the rest starts at cell g. */
  ghost predicate Building(p: Positions, b: Build, done: nat)
    requires Chained(p) && b.Level?
  {
    && b.at < |p| && p[b.at][0].App? && |b.kids| <= done <= |Args(p[b.at][0])|
    && b.kids == Args(p[b.at][0])[..|b.kids|]
    && At(p, b.g, Args(p[b.at][0])[done..] + p[b.at][1..])
  }

  /** Each outer node waits for the argument being rebuilt, the one at cell a. */
  ghost predicate Waiting(p: Positions, b: Build, a: nat)
    requires Chained(p) && a < |p|
  {
    if b.Root? then a == 0 else
      && Building(p, b, |b.kids| + 1)
      && p[a] == [Args(p[b.at][0])[|b.kids|]] + (Args(p[b.at][0])[|b.kids| + 1..] + p[b.at][1..])
      && Waiting(p, b.below, b.at)
  }

  ghost predicate Rebuilding(p: Positions, b: Build)
    requires Chained(p)
  {
    b.Level? && Building(p, b, |b.kids|) && Waiting(p, b.below, b.at)
  }

  /** What is known of the next argument: its cell, and where the one after it starts. */
  lemma {:induction false} NextArgument(p: Positions, b: Build)
    requires Chained(p) && b.Level? && Building(p, b, |b.kids|) && |b.kids| < |Args(p[b.at][0])|
    ensures b.g < |p| && p[b.g] == [Args(p[b.at][0])[|b.kids|]] + (Args(p[b.at][0])[|b.kids| + 1..] + p[b.at][1..])
    ensures At(p, b.g + Size(p[b.g][0]), Args(p[b.at][0])[|b.kids| + 1..] + p[b.at][1..])
    ensures Follows(p, b.g)
  {
    var args, k := Args(p[b.at][0]), |b.kids|;
    var more := args[k + 1..] + p[b.at][1..];
    assert args[k..] + p[b.at][1..] == [args[k]] + more;
    OneTerm(p, b.g, args[k], more);
  }

  lemma {:induction false} Attach(p: Positions, b: Build, t: Term)
    requires Chained(p) && b.Level? && Building(p, b, |b.kids| + 1) && t == Args(p[b.at][0])[|b.kids|]
    ensures Building(p, b.(kids := b.kids + [t]), |b.kids| + 1)
  {
  }

  lemma {:induction false} Rebuilt(p: Positions, b: Build)
    requires Chained(p) && Rebuilding(p, b) && |b.kids| == |Args(p[b.at][0])|
    ensures b.kids == Args(p[b.at][0])
    ensures b.below.Level? ==> b.g == b.below.g
  {
    var args, rest := Args(p[b.at][0]), p[b.at][1..];
    assert args[|args|..] + rest == rest;
    if b.below.Level? {
      PositionOf(p, b.g, rest);
      PositionOf(p, b.below.g, rest);
    }
  }

  /** The argument at cell c: descend into it, or attach it at once. */
  function Next(b: Build, c: Cell): Build
    requires b.Level?
  {
    var rest := b.(g := c.end + 1);
    match c.top
    case DVar(n) => rest.(kids := rest.kids + [Var(n)])
    case DRigid(sym, arity) =>
      if arity == 0 then rest.(kids := rest.kids + [App(sym, [])]) else Level(b.g, b.g + 1, [], rest)
  }

  /** Number of cells not yet read. */
  ghost function Left(p: Positions, b: Build): nat {
    if b.Level? && b.g <= |p| then |p| - b.g else 0
  }

  /** Going into an argument that has arguments, or past one that has none. */
  lemma {:induction false} Descend(p: Positions, cells: seq<Cell>, b: Build)
    requires Chained(p) && CellsOf(p, cells) && Rebuilding(p, b) && |b.kids| < |Args(p[b.at][0])|
    ensures b.g < |p| && b.g <= cells[b.g].end < |p|
    ensures var ch, rest := p[b.g][0], b.(g := cells[b.g].end + 1);
            if Args(ch) == [] then Rebuilding(p, rest.(kids := rest.kids + [ch]))
            else Rebuilding(p, Level(b.g, b.g + 1, [], rest))
    ensures Left(p, Next(b, cells[b.g])) < Left(p, b)
  {
    NextArgument(p, b);
    var ch, more := Args(p[b.at][0])[|b.kids|], Args(p[b.at][0])[|b.kids| + 1..] + p[b.at][1..];
    var rest := b.(g := cells[b.g].end + 1);
    assert Size(ch) >= 1 && p[b.g][0] == ch;
    assert Building(p, rest, |b.kids| + 1);
    if Args(ch) == [] {
      Attach(p, rest, ch);
    } else {
      assert ch.args[0..] == ch.args && ([ch] + more)[1..] == more;
    }
  }

  /** Coming back from the last argument of a node. */
  lemma {:induction false} Return(p: Positions, b: Build)
    requires Chained(p) && Rebuilding(p, b) && |b.kids| == |Args(p[b.at][0])|
    ensures App(p[b.at][0].sym, b.kids) == p[b.at][0]
    ensures b.below.Root? ==> b.at == 0
    ensures b.below.Level? ==>
              var b2 := b.below.(kids := b.below.kids + [p[b.at][0]]);
              Rebuilding(p, b2) && Left(p, b2) == Left(p, b) && Depth(b2) < Depth(b)
  {
    Rebuilt(p, b);
    if b.below.Level? { Attach(p, b.below, p[b.at][0]); }
  }

  /** flatterm_to_term: the term a flatterm was built from.  In the source an argument is put into
      its parent before its own arguments are known; here it is put there when it is complete. */
  method FlattermToTerm(ghost t: Term, cells: seq<Cell>) returns (r: Term)
    requires IsFlatterm(t, cells)
    ensures r == t
  {
    ghost var p := Pends([t]);
    PendChained([t]);
    NoTerms([t]);
    var top := cells[0].top;
    if top.DVar? { return Var(top.n); }
    if top.arity == 0 { return App(top.sym, []); }
    var stack := Level(0, 1, [], Root);
    assert Follows(p, 0);
    while true
      invariant Rebuilding(p, stack)
      decreases Left(p, stack), Depth(stack)
    {
      var here := cells[stack.at].top;
      if |stack.kids| == here.arity {
        Return(p, stack);
        r := App(here.sym, stack.kids);
        if stack.below.Root? { return; }
        stack := stack.below.(kids := stack.below.kids + [r]);
      } else {
        Descend(p, cells, stack);
        stack := Next(stack, cells[stack.g]);
      }
    }
  }
}

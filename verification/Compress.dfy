/** The byte encoding of terms with their private flags (ladr/compress.c). */
module Compress {
  import opened Options

  type Byte = x: nat | x < 256

  /** A term whose rigid nodes carry a byte of private flags. */
  datatype FlagTerm = Var(n: nat) | App(sym: nat, flags: nat, args: seq<FlagTerm>)

  /** The symbol table: the greatest symbol number in use and the arity of each symbol, negative for
      numbers without a symbol. */
  datatype Symbols = Symbols(greatest: nat, arity: nat -> int)

  const MAX_VNUM := 5000
  const UINT_MAX := 0xFFFF_FFFF
  const MAGIC: Byte := 0xd7
  const VERSION: Byte := 2

  /** Terms of the program: symbol numbers are 31-bit integers. */
  ghost predicate WellFormed(t: FlagTerm, sg: Symbols)
    decreases t, 0
  {
    match t
    case Var(n) => n < MAX_VNUM
    case App(f, fl, args) =>
      0 < f <= sg.greatest && sg.arity(f) == |args| && fl < 256 && AllWellFormed(args, sg)
  }

  ghost predicate AllWellFormed(ts: seq<FlagTerm>, sg: Symbols)
    decreases ts, 0
  {
    forall i | 0 <= i < |ts| :: WellFormed(ts[i], sg)
  }

  ghost predicate Table(sg: Symbols) {
    sg.greatest < 0x8000_0000
  }

  // ---------- Variable-length integers ----------

  function Uvarint(v: nat): (r: seq<Byte>)
    ensures |r| > 0
  {
    if v < 128 then [v] else [v % 128 + 128] + Uvarint(v / 128)
  }

  method AppendUvarint(buffer: seq<Byte>, v: nat) returns (r: seq<Byte>)
    ensures r == buffer + Uvarint(v)
  {
    var value := v;
    var byte := value % 128;
    value := value / 128;
    r := buffer;
    while value != 0
      invariant byte < 128 && r + (if value == 0 then [byte] else [byte + 128] + Uvarint(value)) == buffer + Uvarint(v)
      decreases value
    {
      var b: Byte := byte + 128;
      assert r + ([b] + Uvarint(value)) == r + [b] + Uvarint(value);
      r := r + [b];
      byte := value % 128;
      value := value / 128;
    }
    r := r + [byte];
  }

  /** At most k bytes from off on, low digits first. */
  function Digits(data: seq<Byte>, off: nat, k: nat): (r: Option<(nat, nat)>)
    ensures r.Some? ==> off < r.value.1 <= |data|
    decreases k
  {
    if k == 0 || off >= |data| then None
    else if data[off] < 128 then Some((data[off], off + 1))
    else
      match Digits(data, off + 1, k - 1)
      case None => None
      case Some((v, o)) => Some((data[off] - 128 + 128 * v, o))
  }

  /** A value and the offset after it. */
  function Read(data: seq<Byte>, off: nat): (r: Option<(nat, nat)>)
    ensures r.Some? ==> off < r.value.1 <= |data|
  {
    match Digits(data, off, 5)
    case None => None
    case Some((v, o)) => if v > UINT_MAX then None else Some((v, o))
  }

  /** What seven bits of each byte are worth, low digits first. */
  function Worth(data: seq<Byte>, off: nat, o: nat): nat
    requires off <= o <= |data|
    decreases o - off
  {
    if off == o then 0 else data[off] % 128 + 128 * Worth(data, off + 1, o)
  }

  /** The bytes from off to o are a number: only the last one is below 128. */
  predicate Ended(data: seq<Byte>, off: nat, o: nat) {
    off < o <= |data| && data[o - 1] < 128 && forall i | off <= i < o - 1 :: data[i] >= 128
  }

  /** They are the number v, of at most five bytes and 32 bits. */
  predicate Number(data: seq<Byte>, off: nat, o: nat, v: nat) {
    Ended(data, off, o) && o - off <= 5 && v == Worth(data, off, o) && v <= UINT_MAX
  }

  lemma {:induction false} DigitsExact(data: seq<Byte>, off: nat, k: nat, v: nat, o: nat)
    ensures Digits(data, off, k) == Some((v, o)) <==> Ended(data, off, o) && o - off <= k && v == Worth(data, off, o)
    decreases k
  {
    if k > 0 && off < |data| {
      if data[off] < 128 {
        if Ended(data, off, o) { assert o == off + 1; }
        assert Worth(data, off, off + 1) == data[off] + 128 * Worth(data, off + 1, off + 1);
      } else {
        match Digits(data, off + 1, k - 1)
        case None => if Ended(data, off, o) { DigitsExact(data, off + 1, k - 1, Worth(data, off + 1, o), o); }
        case Some((w, p)) =>
          DigitsExact(data, off + 1, k - 1, w, p);
          if Ended(data, off, o) { DigitsExact(data, off + 1, k - 1, Worth(data, off + 1, o), o); }
      }
    }
  }

  /** A number is read exactly where there is one. */
  lemma {:induction false} ReadExact(data: seq<Byte>, off: nat, v: nat, o: nat)
    ensures Read(data, off) == Some((v, o)) <==> Number(data, off, o, v)
  {
    DigitsExact(data, off, 5, v, o);
  }

  /** Shifted left by k digits. */
  function Shl(x: nat, k: nat): nat {
    if k == 0 then x else 128 * Shl(x, k - 1)
  }

  lemma {:induction false} ShlDigit(low: nat, v: nat, k: nat)
    ensures Shl(low + 128 * v, k) == Shl(low, k) + Shl(v, k + 1)
  {
    if k == 0 { assert Shl(v, 1) == 128 * Shl(v, 0); } else { ShlDigit(low, v, k - 1); }
  }

  /** What is read if `rest` follows k digits worth `result`. */
  ghost function Scaled(result: nat, k: nat, rest: Option<(nat, nat)>): Option<(nat, nat)> {
    match rest
    case None => None
    case Some((v, o)) => Some((result + Shl(v, k), o))
  }

  lemma {:induction false} DigitStep(data: seq<Byte>, off: nat, k: nat, result: nat, count: nat)
    requires off < |data| && k > 0
    ensures data[off] < 128 ==>
              Scaled(result, count, Digits(data, off, k)) ==
              Some((result + Shl(data[off], count), off + 1))
    ensures data[off] >= 128 ==>
              Scaled(result, count, Digits(data, off, k)) ==
              Scaled(result + Shl(data[off] - 128, count), count + 1, Digits(data, off + 1, k - 1))
  {
    if data[off] >= 128 && Digits(data, off + 1, k - 1).Some? {
      ShlDigit(data[off] - 128, Digits(data, off + 1, k - 1).value.0, count);
    }
  }

  method ReadUvarint(data: seq<Byte>, offset: nat) returns (r: Option<(nat, nat)>)
    ensures r == Read(data, offset)
  {
    var result: nat, count: nat, off: nat := 0, 0, offset;
    while off < |data| && count < 5
      invariant count <= 5
      invariant Digits(data, offset, 5) == Scaled(result, count, Digits(data, off, 5 - count))
      decreases 5 - count
    {
      DigitStep(data, off, 5 - count, result, count);
      var byte := data[off];
      off := off + 1;
      if byte < 128 {
        result := result + Shl(byte, count);
        if result > UINT_MAX { return None; }
        return Some((result, off));
      }
      result := result + Shl(byte - 128, count);
      count := count + 1;
    }
    return None;
  }

  /** A larger buffer does not change what was read. */
  lemma {:induction false} DigitsExtend(data: seq<Byte>, more: seq<Byte>, off: nat, k: nat)
    requires Digits(data, off, k).Some?
    ensures Digits(data + more, off, k) == Digits(data, off, k)
    decreases k
  {
    if data[off] >= 128 { DigitsExtend(data, more, off + 1, k - 1); }
  }

  function Pow128(k: nat): nat {
    if k == 0 then 1 else 128 * Pow128(k - 1)
  }

  /** The bytes s stand at an offset. */
  ghost predicate At(data: seq<Byte>, off: nat, s: seq<Byte>) {
    off + |s| <= |data| && forall i | 0 <= i < |s| :: data[off + i] == s[i]
  }

  lemma {:induction false} AtConcat(data: seq<Byte>, off: nat, a: seq<Byte>, b: seq<Byte>)
    requires At(data, off, a + b)
    ensures At(data, off, a) && At(data, off + |a|, b)
  {
    forall i | 0 <= i < |a| ensures data[off + i] == a[i] { assert (a + b)[i] == a[i]; }
    forall i | 0 <= i < |b| ensures data[off + |a| + i] == b[i] { assert (a + b)[|a| + i] == b[i]; }
  }

  lemma {:induction false} DigitsUvarint(data: seq<Byte>, off: nat, v: nat, k: nat)
    requires At(data, off, Uvarint(v)) && v < Pow128(k) && k > 0
    ensures Digits(data, off, k) == Some((v, off + |Uvarint(v)|))
    decreases k
  {
    assert data[off] == Uvarint(v)[0];
    if v >= 128 {
      assert Pow128(k) == 128 * Pow128(k - 1);
      assert Pow128(1) == 128 * Pow128(0);
      AtConcat(data, off, [v % 128 + 128], Uvarint(v / 128));
      DigitsUvarint(data, off + 1, v / 128, k - 1);
    }
  }

  /** Reading what was written. */
  lemma {:induction false} ReadUvarintBack(data: seq<Byte>, off: nat, v: nat)
    requires At(data, off, Uvarint(v)) && v <= UINT_MAX
    ensures Read(data, off) == Some((v, off + |Uvarint(v)|))
  {
    assert Pow128(5) == 128 * (128 * (128 * (128 * 128))) by {
      assert Pow128(5) == 128 * Pow128(4) && Pow128(4) == 128 * Pow128(3) && Pow128(3) == 128 * Pow128(2);
      assert Pow128(2) == 128 * Pow128(1) && Pow128(1) == 128 * Pow128(0);
    }
    DigitsUvarint(data, off, v, 5);
  }

  // ---------- Encoding terms ----------

  /** The nodes in preorder. */
  function Code(t: FlagTerm): seq<Byte>
    decreases t, 1
  {
    match t
    case Var(n) => Uvarint(2 * n)
    case App(f, fl, args) => Uvarint(2 * f + 1) + Uvarint(fl) + CodeAll(args)
  }

  function CodeAll(ts: seq<FlagTerm>): seq<Byte>
    decreases ts, 0
  {
    if |ts| == 0 then [] else Code(ts[0]) + CodeAll(ts[1..])
  }

  datatype Stack = Empty | Push(top: FlagTerm, below: Stack)

  function CodeStack(st: Stack): seq<Byte> {
    match st
    case Empty => []
    case Push(t, rest) => Code(t) + CodeStack(rest)
  }

  function Nodes(t: FlagTerm): nat
    decreases t, 1
  {
    match t
    case Var(_) => 1
    case App(_, _, args) => 1 + NodesAll(args)
  }

  function NodesAll(ts: seq<FlagTerm>): nat
    decreases ts, 0
  {
    if |ts| == 0 then 0 else Nodes(ts[0]) + NodesAll(ts[1..])
  }

  function NodesStack(st: Stack): nat {
    match st
    case Empty => 0
    case Push(t, rest) => Nodes(t) + NodesStack(rest)
  }

  /** The arguments go on the stack in reverse, so that the first is on top. */
  method PushArgs(args: seq<FlagTerm>, st: Stack) returns (r: Stack)
    ensures CodeStack(r) == CodeAll(args) + CodeStack(st) && NodesStack(r) == NodesAll(args) + NodesStack(st)
  {
    r := st;
    var i := |args|;
    while i > 0
      invariant 0 <= i <= |args|
      invariant CodeStack(r) == CodeAll(args[i..]) + CodeStack(st)
      invariant NodesStack(r) == NodesAll(args[i..]) + NodesStack(st)
    {
      i := i - 1;
      assert args[i..][1..] == args[i + 1..];
      Concat(Code(args[i]), CodeAll(args[i + 1..]), CodeStack(st));
      r := Push(args[i], r);
    }
    assert args[0..] == args;
  }

  lemma {:induction false} Concat(a: seq<Byte>, b: seq<Byte>, c: seq<Byte>)
    ensures a + b + c == a + (b + c)
  {
  }

  method AppendVarintTerm(buffer: seq<Byte>, t: FlagTerm) returns (r: seq<Byte>)
    ensures r == buffer + Code(t)
  {
    r := buffer;
    var stack := Push(t, Empty);
    assert CodeStack(stack) == Code(t);
    while stack.Push?
      invariant r + CodeStack(stack) == buffer + Code(t)
      decreases NodesStack(stack)
    {
      var cur, below := stack.top, stack.below;
      ghost var before := r;
      if cur.Var? {
        r := AppendUvarint(r, 2 * cur.n);
        stack := below;
        Concat(before, Code(cur), CodeStack(below));
      } else {
        r := AppendUvarint(r, 2 * cur.sym + 1);
        r := AppendUvarint(r, cur.flags);
        stack := PushArgs(cur.args, below);
        ghost var a, b := Uvarint(2 * cur.sym + 1), Uvarint(cur.flags);
        Concat(before, a, b);
        Concat(a + b, CodeAll(cur.args), CodeStack(below));
        Concat(before, a + b, CodeStack(stack));
      }
    }
  }

  function Encode(t: FlagTerm): seq<Byte> {
    [MAGIC, VERSION] + Code(t)
  }

  method EncodeTermVersioned(t: FlagTerm) returns (r: seq<Byte>)
    ensures r == Encode(t)
  {
    r := AppendVarintTerm([MAGIC, VERSION], t);
  }

  // ---------- Decoding terms ----------

  /** The head of a node: a variable, or a symbol with its flags and arity. */
  datatype Head = VarHead(n: nat) | AppHead(sym: nat, flags: nat, arity: nat)

  function ReadHead(data: seq<Byte>, off: nat, sg: Symbols, version: nat): (r: Option<(Head, nat)>)
    ensures r.Some? ==> off < r.value.1 <= |data|
  {
    match Read(data, off)
    case None => None
    case Some((code, o)) =>
      if code % 2 == 0 then
        if code / 2 >= MAX_VNUM then None else Some((VarHead(code / 2), o))
      else
        var f := code / 2;
        if f == 0 || f > sg.greatest || sg.arity(f) < 0 then None
        else if version < 2 then Some((AppHead(f, 0, sg.arity(f)), o))
        else
          match Read(data, o)
          case None => None
          case Some((flags, o2)) => if flags > 255 then None else Some((AppHead(f, flags, sg.arity(f)), o2))
  }

  /** The term that starts at an offset, and the offset after it. */
  function Parse(data: seq<Byte>, off: nat, sg: Symbols, version: nat): (r: Option<(FlagTerm, nat)>)
    ensures r.Some? ==> off < r.value.1 <= |data|
    decreases |data| - off, 0, 0
  {
    match ReadHead(data, off, sg, version)
    case None => None
    case Some((VarHead(n), o)) => Some((Var(n), o))
    case Some((AppHead(f, fl, n), o)) =>
      match ParseAll(data, o, n, sg, version)
      case None => None
      case Some((ts, o2)) => Some((App(f, fl, ts), o2))
  }

  function ParseAll(data: seq<Byte>, off: nat, n: nat, sg: Symbols, version: nat): (r: Option<(seq<FlagTerm>, nat)>)
    requires off <= |data|
    ensures r.Some? ==> off <= r.value.1 <= |data| && |r.value.0| == n
    decreases |data| - off, 1, n
  {
    if n == 0 then Some(([], off)) else
      match Parse(data, off, sg, version)
      case None => None
      case Some((t, o)) =>
        match ParseAll(data, o, n - 1, sg, version)
        case None => None
        case Some((ts, o2)) => Some(([t] + ts, o2))
  }

  /** The whole input must be one term. */
  function Decode(data: seq<Byte>, sg: Symbols): Option<FlagTerm> {
    if |data| < 3 || data[0] != MAGIC || (data[1] != 1 && data[1] != VERSION) then None
    else
      match Parse(data, 2, sg, data[1])
      case None => None
      case Some((t, o)) => if o == |data| then Some(t) else None
  }

  // ---------- The decoder ----------

  /** Frames of nodes whose arguments are not all there. */
  datatype Frames = Done | Frame(sym: nat, flags: nat, arity: nat, kids: seq<FlagTerm>, below: Frames)

  /** What the frames become when the rest of the input is read. */
  function Finish(data: seq<Byte>, off: nat, fr: Frames, sg: Symbols, version: nat): Option<(FlagTerm, nat)>
    requires fr.Frame? && |fr.kids| <= fr.arity && off <= |data|
    decreases fr, 0
  {
    match ParseAll(data, off, fr.arity - |fr.kids|, sg, version)
    case None => None
    case Some((ts, o)) => Attach(data, o, App(fr.sym, fr.flags, fr.kids + ts), fr.below, sg, version)
  }

  /** The same, with a finished argument for the top frame. */
  function Attach(data: seq<Byte>, off: nat, t: FlagTerm, fr: Frames, sg: Symbols, version: nat)
    : Option<(FlagTerm, nat)>
    requires off <= |data|
    decreases fr, 1
  {
    match fr
    case Done => Some((t, off))
    case Frame(f, fl, n, kids, below) =>
      if |kids| >= n then None else
        match ParseAll(data, off, n - |kids| - 1, sg, version)
        case None => None
        case Some((ts, o)) => Attach(data, o, App(f, fl, kids + [t] + ts), below, sg, version)
  }

  ghost predicate Open(fr: Frames) {
    fr.Frame? ==> |fr.kids| < fr.arity && Open(fr.below)
  }

  /** Put an argument in place and pop the frames that are full. */
  method Close(data: seq<Byte>, off: nat, term: FlagTerm, frames: Frames, sg: Symbols, ghost version: nat)
    returns (fr: Frames, root: FlagTerm)
    requires off <= |data| && Open(frames)
    ensures Open(fr)
    ensures fr.Done? ==> Attach(data, off, term, frames, sg, version) == Some((root, off))
    ensures fr.Frame? ==> Attach(data, off, term, frames, sg, version) == Finish(data, off, fr, sg, version)
  {
    fr, root := frames, term;
    while fr.Frame?
      invariant Open(fr) && Attach(data, off, root, fr, sg, version) == Attach(data, off, term, frames, sg, version)
      decreases fr
    {
      var kids := fr.kids + [root];
      if |kids| < fr.arity {
        fr := fr.(kids := kids);
        return;
      }
      assert kids + [] == kids;
      root, fr := App(fr.sym, fr.flags, kids), fr.below;
    }
  }

  method DecodeVarintTerm(data: seq<Byte>, sg: Symbols) returns (r: Option<FlagTerm>)
    ensures r == Decode(data, sg)
  {
    if |data| < 3 || data[0] != MAGIC || (data[1] != 1 && data[1] != VERSION) { return None; }
    var version: nat := data[1];
    var offset := 2;
    var fr := Done;
    while offset < |data|
      invariant offset <= |data| && Open(fr)
      invariant fr.Done? ==> offset == 2
      invariant fr.Frame? ==> Parse(data, 2, sg, version) == Finish(data, offset, fr, sg, version)
      decreases |data| - offset
    {
      var head := NextHead(data, offset, sg, version);
      if fr.Frame? { FinishNext(data, offset, fr, sg, version); }
      if head.None? { return None; }
      var (h, o) := head.value;
      offset := o;
      if h.AppHead? && h.arity > 0 {
        ghost var was := fr;
        fr := Frame(h.sym, h.flags, h.arity, [], fr);
        OpenFrame(data, o, h, was, sg, version);
      } else {
        var t := if h.VarHead? then Var(h.n) else App(h.sym, h.flags, []);
        assert h.AppHead? ==> ParseAll(data, o, h.arity, sg, version) == Some(([], o));
        var root;
        fr, root := Close(data, o, t, fr, sg, version);
        if fr.Done? {
          return if o == |data| then Some(root) else None;
        }
      }
    }
    FinishNext(data, offset, fr, sg, version);
    return None;
  }

  /** The code and the flags of a node. */
  method NextHead(data: seq<Byte>, off: nat, sg: Symbols, version: nat) returns (r: Option<(Head, nat)>)
    ensures r == ReadHead(data, off, sg, version)
  {
    var code := ReadUvarint(data, off);
    if code.None? { return None; }
    var (c, o) := code.value;
    if c % 2 == 0 {
      if c / 2 >= MAX_VNUM { return None; }
      return Some((VarHead(c / 2), o));
    }
    var f := c / 2;
    if f == 0 || f > sg.greatest { return None; }
    if sg.arity(f) < 0 { return None; }
    var flags := 0;
    if version >= 2 {
      var fl := ReadUvarint(data, o);
      if fl.None? || fl.value.0 > 255 { return None; }
      flags, o := fl.value.0, fl.value.1;
    }
    return Some((AppHead(f, flags, sg.arity(f)), o));
  }

  /** The next argument of the top frame comes from the next head. */
  lemma {:induction false} FinishNext(data: seq<Byte>, off: nat, fr: Frames, sg: Symbols, version: nat)
    requires off <= |data| && fr.Frame? && |fr.kids| < fr.arity
    ensures Finish(data, off, fr, sg, version) ==
            (match Parse(data, off, sg, version)
             case None => None
             case Some((t, o)) => Attach(data, o, t, fr, sg, version))
  {
    var p := Parse(data, off, sg, version);
    if p.Some? {
      var (t, o) := p.value;
      var q := ParseAll(data, o, fr.arity - |fr.kids| - 1, sg, version);
      if q.Some? {
        assert fr.kids + ([t] + q.value.0) == fr.kids + [t] + q.value.0;
      }
    }
  }

  /** A node with arguments becomes the top frame. */
  lemma {:induction false} OpenFrame(data: seq<Byte>, o: nat, h: Head, fr: Frames, sg: Symbols, version: nat)
    requires o <= |data| && h.AppHead? && h.arity > 0
    ensures Finish(data, o, Frame(h.sym, h.flags, h.arity, [], fr), sg, version) ==
            (match ParseAll(data, o, h.arity, sg, version)
             case None => None
             case Some((ts, o2)) => Attach(data, o2, App(h.sym, h.flags, ts), fr, sg, version))
  {
    var p := ParseAll(data, o, h.arity, sg, version);
    if p.Some? { assert [] + p.value.0 == p.value.0; }
  }

  // ---------- Prefixes and extensions ----------

  lemma {:induction false} ReadExtend(data: seq<Byte>, more: seq<Byte>, off: nat)
    requires Read(data, off).Some?
    ensures Read(data + more, off) == Read(data, off)
  {
    DigitsExtend(data, more, off, 5);
  }

  lemma {:induction false} HeadExtend(data: seq<Byte>, more: seq<Byte>, off: nat, sg: Symbols, version: nat)
    requires ReadHead(data, off, sg, version).Some?
    ensures ReadHead(data + more, off, sg, version) == ReadHead(data, off, sg, version)
  {
    ReadExtend(data, more, off);
    var (code, o) := Read(data, off).value;
    if code % 2 == 1 && version >= 2 { ReadExtend(data, more, o); }
  }

  lemma {:induction false} ParseExtend(data: seq<Byte>, more: seq<Byte>, off: nat, sg: Symbols, version: nat)
    requires Parse(data, off, sg, version).Some?
    ensures Parse(data + more, off, sg, version) == Parse(data, off, sg, version)
    decreases |data| - off, 0, 0
  {
    HeadExtend(data, more, off, sg, version);
    var (h, o) := ReadHead(data, off, sg, version).value;
    if h.AppHead? { ParseAllExtend(data, more, o, h.arity, sg, version); }
  }

  lemma {:induction false} ParseAllExtend(data: seq<Byte>, more: seq<Byte>, off: nat, n: nat, sg: Symbols, version: nat)
    requires off <= |data| && ParseAll(data, off, n, sg, version).Some?
    ensures ParseAll(data + more, off, n, sg, version) == ParseAll(data, off, n, sg, version)
    decreases |data| - off, 1, n
  {
    if n > 0 {
      ParseExtend(data, more, off, sg, version);
      ParseAllExtend(data, more, Parse(data, off, sg, version).value.1, n - 1, sg, version);
    }
  }

  /** No proper prefix of an accepted input is accepted. */
  lemma {:induction false} PrefixRejected(data: seq<Byte>, k: nat, sg: Symbols)
    requires Decode(data, sg).Some? && k < |data|
    ensures Decode(data[..k], sg) == None
  {
    assert data[..k] + data[k..] == data;
    if k >= 3 && Parse(data[..k], 2, sg, data[1]).Some? {
      ParseExtend(data[..k], data[k..], 2, sg, data[1]);
    }
  }

  /** No proper extension of an accepted input is accepted. */
  lemma {:induction false} ExtensionRejected(data: seq<Byte>, more: seq<Byte>, sg: Symbols)
    requires Decode(data, sg).Some? && |more| > 0
    ensures Decode(data + more, sg) == None
  {
    ParseExtend(data, more, 2, sg, data[1]);
  }

  // ---------- Which inputs are accepted ----------

  /** The head of a node stands from off to o: version 1 has no flags. */
  predicate HeadAt(data: seq<Byte>, off: nat, m: nat, o: nat, f: nat, fl: nat, version: nat) {
    Number(data, off, m, 2 * f + 1) && if version < 2 then m == o && fl == 0 else Number(data, m, o, fl)
  }

  /** The term stands from off to o, in prefix order. */
  ghost predicate Laid(data: seq<Byte>, off: nat, o: nat, t: FlagTerm, version: nat)
    decreases t, 1
  {
    match t
    case Var(n) => Number(data, off, o, 2 * n)
    case App(f, fl, args) =>
      exists m: nat, p: nat :: HeadAt(data, off, m, p, f, fl, version) && LaidAll(data, p, o, args, version)
  }

  ghost predicate LaidAll(data: seq<Byte>, off: nat, o: nat, ts: seq<FlagTerm>, version: nat)
    decreases ts, 0
  {
    if |ts| == 0 then off == o
    else exists m: nat :: Laid(data, off, m, ts[0], version) && LaidAll(data, m, o, ts[1..], version)
  }

  lemma {:induction false} LaidBounds(data: seq<Byte>, off: nat, o: nat, t: FlagTerm, version: nat)
    requires Laid(data, off, o, t, version)
    ensures off < o <= |data|
    decreases t, 1
  {
    if t.App? {
      var m: nat, p: nat :| HeadAt(data, off, m, p, t.sym, t.flags, version) && LaidAll(data, p, o, t.args, version);
      LaidAllBounds(data, p, o, t.args, version);
    }
  }

  lemma {:induction false} LaidAllBounds(data: seq<Byte>, off: nat, o: nat, ts: seq<FlagTerm>, version: nat)
    requires LaidAll(data, off, o, ts, version) && off <= |data|
    ensures off <= o <= |data|
    decreases ts, 0
  {
    if |ts| > 0 {
      var m: nat :| Laid(data, off, m, ts[0], version) && LaidAll(data, m, o, ts[1..], version);
      LaidBounds(data, off, m, ts[0], version);
      LaidAllBounds(data, m, o, ts[1..], version);
    }
  }

  /** A head is read exactly where it stands, for a symbol in use and flags of one byte. */
  lemma {:induction false} HeadExact(data: seq<Byte>, off: nat, sg: Symbols, version: nat)
    ensures forall n: nat, o: nat :: ReadHead(data, off, sg, version) == Some((VarHead(n), o)) <==>
              Number(data, off, o, 2 * n) && n < MAX_VNUM
    ensures forall f: nat, fl: nat, k: nat, o: nat ::
              ReadHead(data, off, sg, version) == Some((AppHead(f, fl, k), o)) <==>
              0 < f <= sg.greatest && sg.arity(f) == k && fl < 256 &&
              exists m: nat :: HeadAt(data, off, m, o, f, fl, version)
  {
    forall n: nat, o: nat
      ensures ReadHead(data, off, sg, version) == Some((VarHead(n), o)) <==>
              Number(data, off, o, 2 * n) && n < MAX_VNUM
    {
      ReadExact(data, off, 2 * n, o);
      if ReadHead(data, off, sg, version) == Some((VarHead(n), o)) { assert Read(data, off).value.0 == 2 * n; }
    }
    forall f: nat, fl: nat, k: nat, o: nat
      ensures ReadHead(data, off, sg, version) == Some((AppHead(f, fl, k), o)) <==>
              0 < f <= sg.greatest && sg.arity(f) == k && fl < 256 &&
              exists m: nat :: HeadAt(data, off, m, o, f, fl, version)
    {
      AppHeadExact(data, off, sg, version, f, fl, k, o);
    }
  }

  lemma {:induction false} AppHeadExact(data: seq<Byte>, off: nat, sg: Symbols, version: nat, f: nat, fl: nat, k: nat,
      o: nat)
    ensures ReadHead(data, off, sg, version) == Some((AppHead(f, fl, k), o)) <==>
            0 < f <= sg.greatest && sg.arity(f) == k && fl < 256 &&
            exists m: nat :: HeadAt(data, off, m, o, f, fl, version)
  {
    if ReadHead(data, off, sg, version) == Some((AppHead(f, fl, k), o)) {
      var (code, m) := Read(data, off).value;
      assert code == 2 * f + 1;
      ReadExact(data, off, code, m);
      ReadExact(data, m, fl, o);
      assert HeadAt(data, off, m, o, f, fl, version);
    }
    if m: nat :| HeadAt(data, off, m, o, f, fl, version) {
      ReadExact(data, off, 2 * f + 1, m);
      ReadExact(data, m, fl, o);
    }
  }

  /** A term is read from off to o exactly if it stands there and is well formed. */
  lemma {:induction false} ParseExact(data: seq<Byte>, off: nat, t: FlagTerm, o: nat, sg: Symbols, version: nat)
    ensures Parse(data, off, sg, version) == Some((t, o)) <==> Laid(data, off, o, t, version) && WellFormed(t, sg)
    decreases t, 1
  {
    HeadExact(data, off, sg, version);
    if t.App? {
      var k := |t.args|;
      if Parse(data, off, sg, version) == Some((t, o)) {
        var (h, p) := ReadHead(data, off, sg, version).value;
        var m: nat :| HeadAt(data, off, m, p, t.sym, t.flags, version);
        ParseAllExact(data, p, t.args, o, sg, version);
      }
      if Laid(data, off, o, t, version) && WellFormed(t, sg) {
        var m: nat, p: nat :| HeadAt(data, off, m, p, t.sym, t.flags, version) && LaidAll(data, p, o, t.args, version);
        assert ReadHead(data, off, sg, version) == Some((AppHead(t.sym, t.flags, k), p));
        ParseAllExact(data, p, t.args, o, sg, version);
      }
    }
  }

  lemma {:induction false} ParseAllExact(data: seq<Byte>, off: nat, ts: seq<FlagTerm>, o: nat, sg: Symbols,
      version: nat)
    requires off <= |data|
    ensures ParseAll(data, off, |ts|, sg, version) == Some((ts, o)) <==>
            LaidAll(data, off, o, ts, version) && AllWellFormed(ts, sg)
    decreases ts, 0
  {
    if |ts| > 0 {
      AllWellFormedCons(ts, sg);
      if ParseAll(data, off, |ts|, sg, version) == Some((ts, o)) {
        var (t, m) := Parse(data, off, sg, version).value;
        var (us, _) := ParseAll(data, m, |ts| - 1, sg, version).value;
        assert ts[0] == t && ts[1..] == us;
        ParseExact(data, off, t, m, sg, version);
        ParseAllExact(data, m, us, o, sg, version);
      }
      if LaidAll(data, off, o, ts, version) && AllWellFormed(ts, sg) { LaidParsed(data, off, ts, o, sg, version); }
    }
  }

  lemma {:induction false} LaidParsed(data: seq<Byte>, off: nat, ts: seq<FlagTerm>, o: nat, sg: Symbols, version: nat)
    requires off <= |data| && |ts| > 0 && LaidAll(data, off, o, ts, version)
    requires WellFormed(ts[0], sg) && AllWellFormed(ts[1..], sg)
    ensures ParseAll(data, off, |ts|, sg, version) == Some((ts, o))
    decreases ts, 0, 0
  {
    var first, rest := ts[0], ts[1..];
    var m: nat :| Laid(data, off, m, first, version) && LaidAll(data, m, o, rest, version);
    LaidBounds(data, off, m, first, version);
    ParseExact(data, off, first, m, sg, version);
    ParseAllExact(data, m, rest, o, sg, version);
    assert [first] + rest == ts;
  }

  lemma {:induction false} AllWellFormedCons(ts: seq<FlagTerm>, sg: Symbols)
    requires |ts| > 0
    ensures AllWellFormed(ts, sg) <==> WellFormed(ts[0], sg) && AllWellFormed(ts[1..], sg)
  {
    if WellFormed(ts[0], sg) && AllWellFormed(ts[1..], sg) {
      forall i | 0 <= i < |ts| ensures WellFormed(ts[i], sg) { if i > 0 { assert ts[1..][i - 1] == ts[i]; } }
    }
    if AllWellFormed(ts, sg) {
      forall i | 0 <= i < |ts[1..]| ensures WellFormed(ts[1..][i], sg) { assert ts[1..][i] == ts[i + 1]; }
    }
  }

  /** An input is accepted as t exactly if it is the magic byte, a version 1 or 2, and then t up to the end. */
  lemma {:induction false} DecodeExact(data: seq<Byte>, t: FlagTerm, sg: Symbols)
    ensures Decode(data, sg) == Some(t) <==>
            |data| >= 2 && data[0] == 0xd7 && 1 <= data[1] <= 2 && Laid(data, 2, |data|, t, data[1]) &&
            WellFormed(t, sg)
  {
    if |data| >= 2 {
      if Laid(data, 2, |data|, t, data[1]) { LaidBounds(data, 2, |data|, t, data[1]); }
      ParseExact(data, 2, t, |data|, sg, data[1]);
    }
  }

  // ---------- Round trips ----------

  lemma {:induction false} UvarintNumber(data: seq<Byte>, off: nat, v: nat)
    requires At(data, off, Uvarint(v)) && v <= UINT_MAX
    ensures Number(data, off, off + |Uvarint(v)|, v)
  {
    ReadUvarintBack(data, off, v);
    ReadExact(data, off, v, off + |Uvarint(v)|);
  }

  lemma {:induction false} CodeLaid(data: seq<Byte>, off: nat, t: FlagTerm, sg: Symbols)
    requires WellFormed(t, sg) && Table(sg) && At(data, off, Code(t))
    ensures Laid(data, off, off + |Code(t)|, t, 2)
    decreases t, 1
  {
    match t
    case Var(n) => UvarintNumber(data, off, 2 * n);
    case App(f, fl, args) =>
      var a, b := Uvarint(2 * f + 1), Uvarint(fl);
      AtConcat(data, off, a + b, CodeAll(args));
      AtConcat(data, off, a, b);
      UvarintNumber(data, off, 2 * f + 1);
      UvarintNumber(data, off + |a|, fl);
      CodeAllLaid(data, off + |a| + |b|, args, sg);
      assert HeadAt(data, off, off + |a|, off + |a| + |b|, f, fl, 2);
  }

  lemma {:induction false} CodeAllLaid(data: seq<Byte>, off: nat, ts: seq<FlagTerm>, sg: Symbols)
    requires AllWellFormed(ts, sg) && Table(sg) && At(data, off, CodeAll(ts))
    ensures LaidAll(data, off, off + |CodeAll(ts)|, ts, 2)
    decreases ts, 0
  {
    if |ts| > 0 {
      AllWellFormedCons(ts, sg);
      AtConcat(data, off, Code(ts[0]), CodeAll(ts[1..]));
      CodeLaid(data, off, ts[0], sg);
      CodeAllLaid(data, off + |Code(ts[0])|, ts[1..], sg);
    }
  }

  /** The code of a term stands behind two header bytes. */
  lemma {:induction false} BehindHeader(x: Byte, y: Byte, code: seq<Byte>)
    ensures At([x, y] + code, 2, code)
  {
  }

  /** Decoding inverts encoding, private flags included. */
  lemma {:induction false} RoundTrip(t: FlagTerm, sg: Symbols)
    requires WellFormed(t, sg) && Table(sg)
    ensures Decode(Encode(t), sg) == Some(t)
  {
    var data := Encode(t);
    BehindHeader(MAGIC, VERSION, Code(t));
    CodeLaid(data, 2, t, sg);
    DecodeExact(data, t, sg);
  }

  /** Whatever the bytes, a decoded term is well formed, and so can be encoded and decoded again. */
  lemma {:induction false} DecodeWellFormed(data: seq<Byte>, sg: Symbols)
    requires Decode(data, sg).Some? && Table(sg)
    ensures var t := Decode(data, sg).value; WellFormed(t, sg) && Decode(Encode(t), sg) == Some(t)
  {
    DecodeExact(data, Decode(data, sg).value, sg);
    RoundTrip(Decode(data, sg).value, sg);
  }

  // ---------- Version 1 ----------

  /** The code without flags. */
  function OldCode(t: FlagTerm): seq<Byte>
    decreases t, 1
  {
    match t
    case Var(n) => Uvarint(2 * n)
    case App(f, _, args) => Uvarint(2 * f + 1) + OldCodeAll(args)
  }

  function OldCodeAll(ts: seq<FlagTerm>): seq<Byte>
    decreases ts, 0
  {
    if |ts| == 0 then [] else OldCode(ts[0]) + OldCodeAll(ts[1..])
  }

  predicate NoFlags(t: FlagTerm)
    decreases t, 1
  {
    t.App? ==> t.flags == 0 && NoFlagsAll(t.args)
  }

  predicate NoFlagsAll(ts: seq<FlagTerm>)
    decreases ts, 0
  {
    |ts| > 0 ==> NoFlags(ts[0]) && NoFlagsAll(ts[1..])
  }

  lemma {:induction false} OldLaid(data: seq<Byte>, off: nat, t: FlagTerm, sg: Symbols)
    requires WellFormed(t, sg) && Table(sg) && NoFlags(t) && At(data, off, OldCode(t))
    ensures Laid(data, off, off + |OldCode(t)|, t, 1)
    decreases t, 1
  {
    match t
    case Var(n) => UvarintNumber(data, off, 2 * n);
    case App(f, fl, args) =>
      var a := Uvarint(2 * f + 1);
      AtConcat(data, off, a, OldCodeAll(args));
      UvarintNumber(data, off, 2 * f + 1);
      OldLaidAll(data, off + |a|, args, sg);
      assert HeadAt(data, off, off + |a|, off + |a|, f, fl, 1);
  }

  lemma {:induction false} OldLaidAll(data: seq<Byte>, off: nat, ts: seq<FlagTerm>, sg: Symbols)
    requires AllWellFormed(ts, sg) && Table(sg) && NoFlagsAll(ts) && At(data, off, OldCodeAll(ts))
    ensures LaidAll(data, off, off + |OldCodeAll(ts)|, ts, 1)
    decreases ts, 0
  {
    if |ts| > 0 {
      AllWellFormedCons(ts, sg);
      AtConcat(data, off, OldCode(ts[0]), OldCodeAll(ts[1..]));
      OldLaid(data, off, ts[0], sg);
      OldLaidAll(data, off + |OldCode(ts[0])|, ts[1..], sg);
    }
  }

  /** Terms without flags come back from their codes of version 1. */
  lemma {:induction false} OldRoundTrip(t: FlagTerm, sg: Symbols)
    requires WellFormed(t, sg) && Table(sg) && NoFlags(t)
    ensures Decode([MAGIC, 1] + OldCode(t), sg) == Some(t)
  {
    var old1: Byte := 1;
    var data := [MAGIC, old1] + OldCode(t);
    BehindHeader(MAGIC, old1, OldCode(t));
    OldLaid(data, 2, t, sg);
    DecodeExact(data, t, sg);
  }

  lemma {:induction false} LaidNoFlags(data: seq<Byte>, off: nat, o: nat, t: FlagTerm)
    requires Laid(data, off, o, t, 1)
    ensures NoFlags(t)
    decreases t, 1
  {
    if t.App? {
      var m: nat, p: nat :| HeadAt(data, off, m, p, t.sym, t.flags, 1) && LaidAll(data, p, o, t.args, 1);
      LaidAllNoFlags(data, p, o, t.args);
    }
  }

  lemma {:induction false} LaidAllNoFlags(data: seq<Byte>, off: nat, o: nat, ts: seq<FlagTerm>)
    requires LaidAll(data, off, o, ts, 1)
    ensures NoFlagsAll(ts)
    decreases ts, 0
  {
    if |ts| > 0 {
      var m: nat :| Laid(data, off, m, ts[0], 1) && LaidAll(data, m, o, ts[1..], 1);
      LaidNoFlags(data, off, m, ts[0]);
      LaidAllNoFlags(data, m, o, ts[1..]);
    }
  }

  /** Whatever is decoded from version 1 has no flags. */
  lemma {:induction false} OldNoFlags(data: seq<Byte>, sg: Symbols)
    requires Decode(data, sg).Some? && data[1] == 1
    ensures NoFlags(Decode(data, sg).value)
  {
    DecodeExact(data, Decode(data, sg).value, sg);
    LaidNoFlags(data, 2, |data|, Decode(data, sg).value);
  }

  // ---------- Which inputs are encodings ----------

  /** A number read from off to o is written with no more digits than it needs. */
  predicate TightNumber(data: seq<Byte>, off: nat, o: nat)
    requires off < o <= |data|
  {
    o == off + 1 || data[o - 1] != 0
  }

  lemma {:induction false} DigitsTight(data: seq<Byte>, off: nat, k: nat)
    requires Digits(data, off, k).Some?
    ensures var (v, o) := Digits(data, off, k).value;
            && |Uvarint(v)| <= o - off
            && (|Uvarint(v)| == o - off <==> TightNumber(data, off, o))
            && (TightNumber(data, off, o) ==> At(data, off, Uvarint(v)))
    decreases k
  {
    if data[off] >= 128 {
      DigitsTight(data, off + 1, k - 1);
      var (v, o) := Digits(data, off + 1, k - 1).value;
      var w := data[off] - 128 + 128 * v;
      assert w / 128 == v && w % 128 == data[off] - 128;
      if w >= 128 { AtJoin(data, off, [data[off]], Uvarint(v)); }
      if v == 0 { assert Uvarint(v) == [0]; }
    }
  }

  lemma {:induction false} AtJoin(data: seq<Byte>, off: nat, a: seq<Byte>, b: seq<Byte>)
    ensures At(data, off, a) && At(data, off + |a|, b) ==> At(data, off, a + b)
  {
    if At(data, off, a) && At(data, off + |a|, b) {
      forall i | 0 <= i < |a + b| ensures data[off + i] == (a + b)[i] {
        if i >= |a| { assert data[off + |a| + (i - |a|)] == b[i - |a|]; }
      }
    }
  }

  /** All numbers of the term at off are written so. */
  predicate Tight(data: seq<Byte>, off: nat, sg: Symbols)
    requires Parse(data, off, sg, 2).Some?
    decreases |data| - off, 0, 0
  {
    var (code, o) := Read(data, off).value;
    TightNumber(data, off, o) &&
    (code % 2 == 1 ==>
       var (_, o2) := Read(data, o).value;
       TightNumber(data, o, o2) && TightAll(data, o2, sg.arity(code / 2), sg))
  }

  predicate TightAll(data: seq<Byte>, off: nat, n: nat, sg: Symbols)
    requires off <= |data| && ParseAll(data, off, n, sg, 2).Some?
    decreases |data| - off, 1, n
  {
    n > 0 ==> Tight(data, off, sg) && TightAll(data, Parse(data, off, sg, 2).value.1, n - 1, sg)
  }

  /** The bytes from off to o are at least as many as those of s; they are s exactly if tight. */
  ghost predicate Spells(data: seq<Byte>, off: nat, o: nat, s: seq<Byte>, tight: bool) {
    off + |s| <= o <= |data| && (off + |s| == o <==> tight) && (tight ==> At(data, off, s))
  }

  lemma {:induction false} SpellsBoth(data: seq<Byte>, off: nat, o: nat, o2: nat, a: seq<Byte>, b: seq<Byte>, x: bool,
      y: bool)
    requires Spells(data, off, o, a, x) && Spells(data, o, o2, b, y)
    ensures Spells(data, off, o2, a + b, x && y)
  {
    if x && y { AtJoin(data, off, a, b); }
  }

  lemma {:induction false} ParseTight(data: seq<Byte>, off: nat, sg: Symbols)
    requires Parse(data, off, sg, 2).Some?
    ensures var (t, o) := Parse(data, off, sg, 2).value; Spells(data, off, o, Code(t), Tight(data, off, sg))
    decreases |data| - off, 0, 0
  {
    var (code, o) := Read(data, off).value;
    DigitsTight(data, off, 5);
    if code % 2 == 1 {
      var (flags, o2) := Read(data, o).value;
      var n := sg.arity(code / 2);
      DigitsTight(data, o, 5);
      ParseAllTight(data, o2, n, sg);
      var (ts, o3) := ParseAll(data, o2, n, sg, 2).value;
      assert 2 * (code / 2) + 1 == code;
      SpellsBoth(data, off, o, o2, Uvarint(code), Uvarint(flags), TightNumber(data, off, o), TightNumber(data, o, o2));
      SpellsBoth(data, off, o2, o3, Uvarint(code) + Uvarint(flags), CodeAll(ts),
                 TightNumber(data, off, o) && TightNumber(data, o, o2), TightAll(data, o2, n, sg));
    } else {
      assert 2 * (code / 2) == code;
    }
  }

  lemma {:induction false} ParseAllTight(data: seq<Byte>, off: nat, n: nat, sg: Symbols)
    requires off <= |data| && ParseAll(data, off, n, sg, 2).Some?
    ensures var (ts, o) := ParseAll(data, off, n, sg, 2).value;
            Spells(data, off, o, CodeAll(ts), TightAll(data, off, n, sg))
    decreases |data| - off, 1, n
  {
    if n > 0 {
      var (t, o) := Parse(data, off, sg, 2).value;
      var (ts, o2) := ParseAll(data, o, n - 1, sg, 2).value;
      ParseTight(data, off, sg);
      ParseAllTight(data, o, n - 1, sg);
      SpellsBoth(data, off, o, o2, Code(t), CodeAll(ts), Tight(data, off, sg), TightAll(data, o, n - 1, sg));
      assert ([t] + ts)[1..] == ts;
    }
  }

  /** An accepted input is the encoding of its term exactly if it has the current version and none
      of its numbers ends in a superfluous zero digit. */
  lemma {:induction false} CanonicalInput(data: seq<Byte>, sg: Symbols)
    requires Decode(data, sg).Some?
    ensures Encode(Decode(data, sg).value) == data <==> data[1] == VERSION && Tight(data, 2, sg)
  {
    var t := Decode(data, sg).value;
    if data[1] == VERSION {
      ParseTight(data, 2, sg);
      if Tight(data, 2, sg) {
        forall i | 0 <= i < |data| ensures data[i] == Encode(t)[i] {
          if i >= 2 { assert data[2 + (i - 2)] == Code(t)[i - 2]; }
        }
        assert Encode(t) == data;
      }
    } else {
      assert Encode(t)[1] == VERSION;
    }
  }

  /** Both ways to fail: a superfluous zero digit, and the old version. */
  lemma {:induction false} LooseInputs(sg: Symbols)
    ensures Decode([MAGIC, VERSION, 128, 0], sg) == Some(Var(0)) && Encode(Var(0)) != [MAGIC, VERSION, 128, 0]
    ensures Decode([MAGIC, 1, 0], sg) == Some(Var(0)) && Encode(Var(0)) != [MAGIC, 1, 0]
  {
    var data: seq<Byte> := [MAGIC, VERSION, 128, 0];
    assert Digits(data, 3, 4) == Some((0, 4));
    assert Digits(data, 2, 5) == Some((0, 4));
    assert ReadHead(data, 2, sg, 2) == Some((VarHead(0), 4));
    assert |Encode(Var(0))| == 3;
    var older: seq<Byte> := [MAGIC, 1, 0];
    assert Digits(older, 2, 5) == Some((0, 3));
    assert ReadHead(older, 2, sg, 1) == Some((VarHead(0), 3));
    assert Encode(Var(0))[1] == VERSION;
  }
}

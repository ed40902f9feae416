/** Whole runs: any sequence of buffer operations acts on the chunks as it would on plain byte strings. */
module EvbufferRuns {
  import opened Bytes
  import opened Evbuffer
  import opened EvbufferSearch
  import opened Options

  /** The plain view of a buffer: its bytes and which ends are frozen. */
  datatype Plain = Plain(bytes: seq<byte>, freezeStart: bool, freezeEnd: bool)

  /** An operation on one buffer x, which may involve the other buffer y. */
  datatype Op =
    | OpAdd(data: seq<byte>)
    | OpPrepend(data: seq<byte>)
    | OpDrain(n: nat)
    | OpCopyOut(n: nat)
    | OpRemove(n: nat)
    | OpPullup(size: int)
    | OpSearch(what: seq<byte>)
    | OpReadln(style: EolStyle)
    | OpAddBuffer
    | OpPrependBuffer
    | OpRemoveBuffer(n: nat)
    | OpFreeze(atFront: bool, on: bool)

  /** What an operation gives back: a return value, position or length, and bytes. */
  datatype Out = Out(r: int, bytes: seq<byte>)

  datatype Stepped = Stepped(x: Plain, y: Plain, out: Out)

  ghost function Min(a: nat, b: nat): nat {
    if a < b then a else b
  }

  /** Where the first line at or after i ends, or -1. */
  ghost function LineEnd(style: EolStyle, s: seq<byte>, i: nat): (p: int)
    requires i <= |s|
    ensures if p < 0 then p == -1 && NoEol(style, s, i, |s|) else FirstEol(style, s, i, p)
    decreases |s| - i
  {
    if i == |s| then -1 else if EolLen(style, s, i) > 0 then i else LineEnd(style, s, i + 1)
  }

  lemma LineEndUnique(style: EolStyle, s: seq<byte>, p: nat, q: nat)
    requires FirstEol(style, s, 0, p) && FirstEol(style, s, 0, q)
    ensures p == q
  {
  }

  /** The first occurrence of a byte string at or after i, or -1. */
  ghost function FirstMatch(s: seq<byte>, what: seq<byte>, i: nat): (p: int)
    ensures SearchResult(s, what, i, |s|, p)
    decreases |s| - i
  {
    if i + |what| > |s| then -1
    else if MatchAt(s, what, i) then i
    else if i == |s| then -1
    else FirstMatch(s, what, i + 1)
  }

  lemma FirstMatchUnique(s: seq<byte>, what: seq<byte>, p: int)
    requires SearchResult(s, what, 0, |s|, p)
    ensures p == FirstMatch(s, what, 0)
  {
    var q := FirstMatch(s, what, 0);
    assert SearchResult(s, what, 0, |s|, q);
  }

  // ---------- the operations on plain byte strings ----------

  /** Handing over and dropping the first n bytes. */
  ghost function PlainTake(x: Plain, n: nat): (Plain, Out) {
    var m := Min(n, |x.bytes|);
    if x.freezeStart && m > 0 then (x, Out(-1, [])) else (x.(bytes := x.bytes[m..]), Out(m, x.bytes[..m]))
  }

  ghost function PlainReadln(style: EolStyle, x: Plain): (Plain, Out) {
    var p := LineEnd(style, x.bytes, 0);
    if x.freezeStart || p == -1 then (x, Out(-1, []))
    else
      RunFits(x.bytes, p);
      (x.(bytes := x.bytes[p + EolLen(style, x.bytes, p)..]), Out(p, x.bytes[..p]))
  }

  ghost function PlainPullup(x: Plain, size: int): Out {
    var n := if size < 0 then |x.bytes| else size;
    if 0 < n <= |x.bytes| then Out(0, x.bytes[..n]) else Out(-1, [])
  }

  /** Nothing, or what no length can count, is found at once. */
  ghost function PlainSearch(x: Plain, what: seq<byte>): Out {
    Out(if what == [] || |what| > EV_SSIZE_MAX then 0 else FirstMatch(x.bytes, what, 0), [])
  }

  /** The operations on a single byte string. */
  ghost function PlainAlone(op: Op, x: Plain): (Plain, Out)
    requires !op.OpAddBuffer? && !op.OpPrependBuffer? && !op.OpRemoveBuffer?
  {
    match op
    case OpAdd(data) => if x.freezeEnd then (x, Out(-1, [])) else (x.(bytes := x.bytes + data), Out(0, []))
    case OpPrepend(data) => if x.freezeStart then (x, Out(-1, [])) else (x.(bytes := data + x.bytes), Out(0, []))
    case OpDrain(n) =>
      if x.freezeStart then (x, Out(if x.bytes == [] then 0 else -1, []))
      else (x.(bytes := x.bytes[Min(n, |x.bytes|)..]), Out(0, []))
    case OpCopyOut(n) => (x, PlainTake(x, n).1)
    case OpRemove(n) => PlainTake(x, n)
    case OpPullup(size) => (x, PlainPullup(x, size))
    case OpSearch(what) => (x, PlainSearch(x, what))
    case OpReadln(style) => PlainReadln(style, x)
    case OpFreeze(atFront, on) => (if atFront then x.(freezeStart := on) else x.(freezeEnd := on), Out(0, []))
  }

  /** The operations that move bytes between two byte strings. */
  ghost function PlainMove(op: Op, x: Plain, y: Plain): Stepped
    requires op.OpAddBuffer? || op.OpPrependBuffer? || op.OpRemoveBuffer?
  {
    match op
    case OpAddBuffer =>
      if y.bytes == [] then Stepped(x, y, Out(0, []))
      else if x.freezeEnd || y.freezeStart then Stepped(x, y, Out(-1, []))
      else Stepped(x.(bytes := x.bytes + y.bytes), y.(bytes := []), Out(0, []))
    case OpPrependBuffer =>
      if y.bytes == [] then Stepped(x, y, Out(0, []))
      else if x.freezeStart || y.freezeStart then Stepped(x, y, Out(-1, []))
      else Stepped(x.(bytes := y.bytes + x.bytes), y.(bytes := []), Out(0, []))
    case OpRemoveBuffer(n) =>
      var m := Min(n, |x.bytes|);
      if n == 0 then Stepped(x, y, Out(0, []))
      else if x.freezeStart || y.freezeEnd then Stepped(x, y, Out(-1, []))
      else Stepped(x.(bytes := x.bytes[m..]), y.(bytes := y.bytes + x.bytes[..m]), Out(m, []))
  }

  ghost function PlainStep(op: Op, x: Plain, y: Plain): Stepped {
    if op.OpAddBuffer? || op.OpPrependBuffer? || op.OpRemoveBuffer? then PlainMove(op, x, y)
    else var (x', out) := PlainAlone(op, x); Stepped(x', y, out)
  }

  /** A run on two byte strings: each operation names the one it works on. */
  datatype Ran = Ran(a: Plain, b: Plain, outs: seq<Out>)

  ghost function PlainRun(ops: seq<(bool, Op)>): (r: Ran)
    ensures |r.outs| == |ops|
  {
    if ops == [] then Ran(Plain([], false, false), Plain([], false, false), [])
    else
      var before := PlainRun(ops[..|ops| - 1]);
      var (onA, op) := ops[|ops| - 1];
      if onA then var s := PlainStep(op, before.a, before.b); Ran(s.x, s.y, before.outs + [s.out])
      else var s := PlainStep(op, before.b, before.a); Ran(s.y, s.x, before.outs + [s.out])
  }

  // ---------- the operations on chunks ----------

  ghost function View(x: EvBuffer): Plain
    reads x
  {
    Plain(x.Contents(), x.freezeStart, x.freezeEnd)
  }

  /** One operation on the chunks does and answers what it does on plain strings, and keeps the buffers well formed. */
  method Perform(op: Op, x: EvBuffer, y: EvBuffer) returns (out: Out)
    requires x.Valid() && y.Valid() && x != y && x.Apart(y)
    modifies x, x.spine, y, y.spine
    ensures x.Valid() && y.Valid() && x.Apart(y)
    ensures fresh(x.spine + y.spine - old(x.spine) - old(y.spine))
    ensures Stepped(View(x), View(y), out) == old(PlainStep(op, View(x), View(y)))
  {
    hide EvBuffer.Valid, EvBuffer.Contents, PlainAlone, PlainMove;
    if op.OpAddBuffer? || op.OpPrependBuffer? || op.OpRemoveBuffer? {
      out := PerformMove(op, x, y);
    } else {
      out := PerformAlone(op, x);
    }
  }

  method PerformMove(op: Op, x: EvBuffer, y: EvBuffer) returns (out: Out)
    requires op.OpAddBuffer? || op.OpPrependBuffer? || op.OpRemoveBuffer?
    requires x.Valid() && y.Valid() && x != y && x.Apart(y)
    modifies x, x.spine, y, y.spine
    ensures x.Valid() && y.Valid() && x.Apart(y)
    ensures fresh(x.spine + y.spine - old(x.spine) - old(y.spine))
    ensures Stepped(View(x), View(y), out) == old(PlainMove(op, View(x), View(y)))
  {
    hide EvBuffer.Valid, EvBuffer.Contents;
    assert [] + x.Contents() == x.Contents() == x.Contents() + [];
    var r;
    match op {
      case OpAddBuffer => r := x.AddBuffer(y);
      case OpPrependBuffer => r := x.PrependBuffer(y);
      case OpRemoveBuffer(n) => r := x.RemoveBuffer(y, n);
    }
    out := Out(r, []);
  }

  method PerformAlone(op: Op, x: EvBuffer) returns (out: Out)
    requires !op.OpAddBuffer? && !op.OpPrependBuffer? && !op.OpRemoveBuffer?
    requires x.Valid()
    modifies x, x.spine
    ensures x.Valid() && fresh(x.spine - old(x.spine))
    ensures (View(x), out) == old(PlainAlone(op, View(x)))
  {
    hide EvBuffer.Valid, EvBuffer.Contents, PlainTake, PlainReadln, PlainPullup, PlainSearch;
    ghost var s := x.Contents();
    assert s[|s|..] == [];
    var r := 0;
    out := Out(0, []);
    match op {
      case OpAdd(data) => r := x.Add(data); out := Out(r, []);
      case OpPrepend(data) => r := x.Prepend(data); out := Out(r, []);
      case OpDrain(n) => r := x.Drain(n); out := Out(r, []);
      case OpCopyOut(n) => out := PerformCopyOut(n, x);
      case OpRemove(n) => out := PerformRemove(n, x);
      case OpPullup(size) => out := PerformPullup(size, x);
      case OpSearch(what) => out := PerformSearch(what, x);
      case OpReadln(style) => out := PerformReadln(style, x);
      case OpFreeze(atFront, on) =>
        if on {
          x.Freeze(atFront);
        } else {
          x.Unfreeze(atFront);
        }
    }
  }

  method PerformCopyOut(n: nat, x: EvBuffer) returns (out: Out)
    requires x.Valid()
    ensures x.Valid() && out == PlainTake(View(x), n).1
  {
    hide EvBuffer.Valid, EvBuffer.Contents;
    var a := new byte[n];
    var r := x.CopyOut(a, n);
    assert r >= 0 ==> a[..r] == x.Contents()[..r];
    out := Out(r, if r < 0 then [] else a[..r]);
  }

  method PerformRemove(n: nat, x: EvBuffer) returns (out: Out)
    requires x.Valid()
    modifies x, x.spine
    ensures x.Valid() && x.spine <= old(x.spine) && (View(x), out) == old(PlainTake(View(x), n))
  {
    hide EvBuffer.Valid, EvBuffer.Contents;
    ghost var s := x.Contents();
    var a := new byte[n];
    var r := x.Remove(a, n);
    assert r >= 0 ==> s[..r] == a[..r] && s[r..] == x.Contents();
    out := Out(r, if r < 0 then [] else a[..r]);
  }

  method PerformPullup(size: int, x: EvBuffer) returns (out: Out)
    requires x.Valid()
    modifies x, x.spine
    ensures x.Valid() && fresh(x.spine - old(x.spine)) && View(x) == old(View(x)) && out == PlainPullup(View(x), size)
  {
    hide EvBuffer.Valid, EvBuffer.Contents;
    var p := x.Pullup(size);
    var n := x.GetLength();
    if p == null {
      out := Out(-1, []);
    } else {
      out := Out(0, p.buffer[p.misalign..p.misalign + if size < 0 then n else size]);
    }
  }

  method PerformSearch(what: seq<byte>, x: EvBuffer) returns (out: Out)
    requires x.Valid()
    ensures out == PlainSearch(View(x), what)
  {
    hide EvBuffer.Valid, EvBuffer.Contents, SearchResult;
    var pos := SearchRange(x, what, None, None);
    if what != [] && |what| <= EV_SSIZE_MAX {
      FirstMatchUnique(x.Contents(), what, pos.pos);
    }
    out := Out(pos.pos, []);
  }

  method PerformReadln(style: EolStyle, x: EvBuffer) returns (out: Out)
    requires x.Valid()
    modifies x, x.spine
    ensures x.Valid() && x.spine <= old(x.spine) && (View(x), out) == old(PlainReadln(style, View(x)))
  {
    hide EvBuffer.Valid, EvBuffer.Contents, EolLen;
    ghost var s := x.Contents();
    var line, n := Readln(x, style);
    ghost var p := LineEnd(style, s, 0);
    if line == null {
      out := Out(-1, []);
    } else {
      LineEndUnique(style, s, p, n);
      out := Out(n, line[..n]);
    }
  }

  /** In every run, from two new buffers, the chunks hold and answer what the same run does on plain strings. */
  method Run(ops: seq<(bool, Op)>) returns (a: EvBuffer, b: EvBuffer, outs: seq<Out>)
    ensures a.Valid() && b.Valid() && a != b && a.Apart(b)
    ensures Ran(View(a), View(b), outs) == PlainRun(ops)
  {
    hide EvBuffer.Valid, EvBuffer.Contents, PlainStep;
    a := new EvBuffer();
    b := new EvBuffer();
    outs := [];
    var i := 0;
    while i < |ops|
      invariant i <= |ops| && fresh(a) && fresh(b) && fresh(a.spine) && fresh(b.spine)
      invariant a.Valid() && b.Valid() && a != b && a.Apart(b)
      invariant Ran(View(a), View(b), outs) == PlainRun(ops[..i])
    {
      assert ops[..i + 1][..i] == ops[..i];
      var (onA, op) := ops[i];
      var out;
      if onA {
        out := Perform(op, a, b);
      } else {
        out := Perform(op, b, a);
      }
      outs := outs + [out];
      i := i + 1;
    }
    assert ops[..|ops|] == ops;
  }

  /** Moving data between buffers, chains by pointer or bytes by copy, loses and invents no byte. */
  method MoveConserves(op: Op, x: EvBuffer, y: EvBuffer) returns (out: Out)
    requires op.OpAddBuffer? || op.OpPrependBuffer? || op.OpRemoveBuffer?
    requires x.Valid() && y.Valid() && x != y && x.Apart(y)
    modifies x, x.spine, y, y.spine
    ensures x.Valid() && y.Valid()
    ensures multiset(x.Contents()) + multiset(y.Contents()) == old(multiset(x.Contents()) + multiset(y.Contents()))
  {
    hide EvBuffer.Valid, EvBuffer.Contents;
    ghost var s := x.Contents();
    if op.OpRemoveBuffer? {
      ghost var m := Min(op.n, |s|);
      assert s == s[..m] + s[m..];
    }
    out := PerformMove(op, x, y);
  }

  /** Chain j is the last one with data, or the first one of a buffer without data. */
  ghost predicate IsLastWithData(x: EvBuffer, j: nat)
    requires x.Valid() && j < |x.chains|
    reads x, x.spine
  {
    && (forall i :: j < i < |x.chains| ==> x.chains[i].off == 0)
    && (x.chains[j].off > 0 || (j == 0 && forall i :: 0 <= i < |x.chains| ==> x.chains[i].off == 0))
  }

  /** The header's account of last_with_datap: the link to the last chain with data, else to the first chain. */
  lemma LastWithDatapMeaning(x: EvBuffer, j: nat)
    requires x.Valid() && j < |x.chains|
    ensures x.lastWithDatap == EvBuffer.LinkAt(x.chains, j) <==> IsLastWithData(x, j)
    ensures IsLastWithData(x, j) ==> x.Deref(x.lastWithDatap) == x.chains[j]
  {
    var last := |x.chains| - 1;
    assert x.lastWithDatap == EvBuffer.LinkAt(x.chains, last);
    if j < last {
      assert x.chains[last].off == |x.pieces[last]| > 0;
      assert j > 0 ==> x.chains[j - 1].buffer != x.chains[last - 1].buffer;
    }
  }
}

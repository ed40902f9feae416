/** A pair of bufferevents (libevent/bufferevent_pair.c) as two pipes, one for each direction. */
module Pair {
  import opened Bytes
  import opened Evbuffer

  datatype Op =
    | Write(data: seq<byte>)
    | Read(size: nat)
    | Enable(writer: bool)
    | Disable(writer: bool)
    | Suspend
    | Unsuspend
    | SetWatermark(mark: nat)
    | Flush

  /** The reference: the settings of a pipe, and its buffers as byte strings. */
  datatype Plain = Plain(
    writeEnabled: bool, readEnabled: bool, readSuspended: bool, high: nat, input: seq<byte>, output: seq<byte>)

  /**
   * How many of the waiting bytes go over to the receiver: all of them without a watermark; up to the watermark below
   * it; and at or above it none, unless it is ignored.
   */
  ghost function Passing(p: Plain, ignoreWm: bool): (n: nat)
    ensures n <= |p.output|
  {
    if p.high == 0 || (|p.input| >= p.high && ignoreWm) || (|p.input| < p.high && |p.output| <= p.high - |p.input|) then |p.output|
    else if |p.input| < p.high then p.high - |p.input|
    else 0
  }

  ghost function Transferred(p: Plain, ignoreWm: bool): Plain {
    var n := Passing(p, ignoreWm);
    p.(input := p.input + p.output[..n], output := p.output[n..])
  }

  /** Nothing is lost, and without a flush the receiver is not filled above its watermark. */
  lemma TransferKeeps(p: Plain, ignoreWm: bool)
    ensures var q := Transferred(p, ignoreWm);
      && q.input + q.output == p.input + p.output && p.input <= q.input
      && (q.output == [] || (p.high > 0 && |q.input| >= p.high))
      && (!ignoreWm && p.high > 0 ==> |q.input| <= p.high || |q.input| <= |p.input|)
      && q.(input := p.input, output := p.output) == p
  {
    var n := Passing(p, ignoreWm);
    assert p.output == p.output[..n] + p.output[n..];
  }

  lemma NothingLeft(i: seq<byte>, o: seq<byte>)
    ensures o[..|o|] == o && o[|o|..] == [] && i + o[..0] == i && o[0..] == o
  {
  }

  /** Bytes flow when the writer writes and the reader reads. */
  ghost function Talked(p: Plain): Plain {
    if p.writeEnabled && p.readEnabled && !p.readSuspended && p.output != [] then Transferred(p, false) else p
  }

  ghost function PlainStep(p: Plain, op: Op): Plain {
    match op
    case Write(data) => if data == [] then p else Talked(p.(output := p.output + data))
    case Read(size) => p.(input := if size <= |p.input| then p.input[size..] else [])
    case Enable(writer) => Talked(if writer then p.(writeEnabled := true) else p.(readEnabled := true))
    case Disable(writer) => if writer then p.(writeEnabled := false) else p.(readEnabled := false)
    case Suspend => p.(readSuspended := true)
    case Unsuspend => Talked(p.(readSuspended := false))
    case SetWatermark(mark) => p.(high := mark)
    case Flush => Transferred(p, true)
  }

  ghost function PlainRun(p: Plain, ops: seq<Op>): Plain {
    if ops == [] then p else PlainStep(PlainRun(p, ops[..|ops| - 1]), ops[|ops| - 1])
  }

  /** One direction: the output of one bufferevent and the input of its partner. */
  class Pipe {
    const output: EvBuffer
    const input: EvBuffer
    var writeEnabled: bool
    var readEnabled: bool
    var readSuspended: bool
    /** wm_read.high of the receiver; zero for none. */
    var high: nat
    /** All that was ever written and all that was ever read. */
    ghost var written: seq<byte>
    ghost var taken: seq<byte>

    /** The buffers are closed to everyone but the pair at the ends where they meet. */
    ghost predicate Closed()
      reads output, input
    {
      output.freezeStart && !output.freezeEnd && input.freezeEnd && !input.freezeStart
    }

    ghost predicate Storage()
      reads output, input, output.spine, input.spine
    {
      output != input && output.Valid() && input.Valid() && output.Apart(input)
    }

    /** First in, first out: nothing lost, added or reordered. */
    ghost predicate Conserved()
      reads this, output, input
    {
      written == taken + input.Contents() + output.Contents()
    }

    ghost predicate Valid()
      reads this, output, input, output.spine, input.spine
    {
      this !in output.spine && this !in input.spine && Storage() && Closed() && Conserved()
    }

    /** The receiver, which held `before`, is not filled above its high watermark. */
    ghost predicate Bounded(before: seq<byte>)
      reads this, input
    {
      high > 0 ==> |input.Contents()| <= high || |input.Contents()| <= |before|
    }

    /** The pipe as two byte strings. */
    ghost function View(): Plain
      reads this, input, output
    {
      Plain(writeEnabled, readEnabled, readSuspended, high, input.Contents(), output.Contents())
    }

    /** be_pair_wants_to_talk. */
    ghost predicate WantsToTalk()
      reads this, output
    {
      writeEnabled && readEnabled && !readSuspended && output.Contents() != []
    }

    /** Half of bufferevent_pair_new. */
    constructor ()
      ensures Valid() && written == [] && taken == [] && fresh(output) && fresh(input) && fresh(output.spine + input.spine)
    {
      hide EvBuffer.Valid, EvBuffer.Contents;
      output := new EvBuffer();
      input := new EvBuffer();
      writeEnabled, readEnabled, readSuspended, high := true, false, false, 0;
      written, taken := [], [];
      new;
      output.Freeze(true);
      input.Freeze(false);
    }

    /** The moving part of be_pair_transfer, with the buffers unfrozen. */
    method Move(ignoreWm: bool)
      requires Storage() && !output.freezeStart && !output.freezeEnd && !input.freezeEnd && !input.freezeStart
      requires this !in output.spine && this !in input.spine
      modifies output, output.spine, input, input.spine
      ensures Storage() && !output.freezeStart && !output.freezeEnd && !input.freezeEnd && !input.freezeStart
      ensures this !in output.spine && this !in input.spine
      ensures fresh(output.spine + input.spine - old(output.spine) - old(input.spine))
      ensures View() == Transferred(old(View()), ignoreWm)
    {
      hide EvBuffer.Valid, EvBuffer.Contents;
      ghost var i, o := input.Contents(), output.Contents();
      NothingLeft(i, o);
      if high != 0 {
        var size := input.GetLength();
        if size < high {
          var _ := output.RemoveBuffer(input, high - size);
        } else if ignoreWm {
          var _ := input.AddBuffer(output);
        }
      } else {
        var _ := input.AddBuffer(output);
      }
    }

    /** be_pair_transfer. Without ignoreWm the receiver is not filled above its high watermark. */
    method Transfer(ignoreWm: bool)
      requires Valid()
      modifies output, output.spine, input, input.spine
      ensures Valid() && fresh(output.spine + input.spine - old(output.spine) - old(input.spine))
      ensures View() == Transferred(old(View()), ignoreWm)
      ensures input.Contents() + output.Contents() == old(input.Contents() + output.Contents())
      ensures old(input.Contents()) <= input.Contents()
      ensures !ignoreWm ==> Bounded(old(input.Contents()))
      ensures output.Contents() == [] || (high > 0 && |input.Contents()| >= high)
    {
      hide EvBuffer.Valid, EvBuffer.Contents, Transferred;
      ghost var i, o := input.Contents(), output.Contents();
      TransferKeeps(View(), ignoreWm);
      output.Unfreeze(true);
      input.Unfreeze(false);
      Move(ignoreWm);
      output.Freeze(true);
      input.Freeze(false);
      assert taken + i + o == taken + (i + o) == taken + (input.Contents() + output.Contents());
    }

    /** Hand over what there is, if both sides are willing. */
    method Talk()
      requires Valid()
      modifies output, output.spine, input, input.spine
      ensures Valid() && fresh(output.spine + input.spine - old(output.spine) - old(input.spine))
      ensures input.Contents() + output.Contents() == old(input.Contents() + output.Contents())
      ensures old(input.Contents()) <= input.Contents()
      ensures Bounded(old(input.Contents()))
      ensures !old(WantsToTalk()) ==> input.Contents() == old(input.Contents()) && output.Contents() == old(output.Contents())
      ensures View() == Talked(old(View()))
      ensures WantsToTalk() ==> high > 0 && |input.Contents()| >= high
    {
      hide EvBuffer.Valid, EvBuffer.Contents;
      var waiting := output.GetLength();
      if writeEnabled && readEnabled && !readSuspended && waiting > 0 {
        Transfer(false);
      }
    }

    /** bufferevent_write, with be_pair_outbuf_cb. */
    method Write(data: seq<byte>)
      requires Valid()
      modifies this, output, output.spine, input, input.spine
      ensures Valid() && fresh(output.spine + input.spine - old(output.spine) - old(input.spine))
      ensures written == old(written) + data && taken == old(taken) && SameSettings(old(Settings()))
      ensures data != [] && WantsToTalk() ==> high > 0 && |input.Contents()| >= high
      ensures View() == PlainStep(old(View()), Op.Write(data))
      ensures Bounded(old(input.Contents()))
    {
      hide EvBuffer.Valid, EvBuffer.Contents;
      ghost var o := output.Contents();
      var _ := output.Add(data);
      assert taken + input.Contents() + o + data == taken + input.Contents() + (o + data);
      written := written + data;
      if data != [] {
        Talk();
      }
    }

    /** bufferevent_read. */
    method Read(data: array<byte>, size: nat) returns (r: int)
      requires Valid() && size <= data.Length && data !in input.spine && data !in output.spine
      modifies this, input, input.spine, data
      ensures Valid() && fresh(input.spine - old(input.spine))
      ensures r == if size <= |old(input.Contents())| then size else |old(input.Contents())|
      ensures written == old(written) && taken == old(taken) + data[..r] && SameSettings(old(Settings()))
      ensures View() == PlainStep(old(View()), Op.Read(size))
      ensures Bounded(old(input.Contents()))
    {
      hide EvBuffer.Valid, EvBuffer.Contents;
      ghost var i, o := input.Contents(), output.Contents();
      r := input.Remove(data, size);
      ghost var got := data[..r];
      assert taken + (got + input.Contents()) + o == taken + got + input.Contents() + o;
      taken := taken + got;
    }

    ghost function Settings(): (bool, bool, bool, nat)
      reads this
    {
      (writeEnabled, readEnabled, readSuspended, high)
    }

    ghost predicate SameSettings(s: (bool, bool, bool, nat))
      reads this
    {
      Settings() == s
    }

    /** The part of bufferevent_enable and be_pair_enable that concerns this direction. */
    method Enable(writer: bool)
      requires Valid()
      modifies this, output, output.spine, input, input.spine
      ensures Valid() && fresh(output.spine + input.spine - old(output.spine) - old(input.spine))
      ensures written == old(written) && taken == old(taken)
      ensures high == old(high)
      ensures View() == PlainStep(old(View()), Op.Enable(writer))
      ensures WantsToTalk() ==> high > 0 && |input.Contents()| >= high
      ensures Bounded(old(input.Contents()))
    {
      hide EvBuffer.Valid, EvBuffer.Contents;
      if writer {
        writeEnabled := true;
      } else {
        readEnabled := true;
      }
      Talk();
    }

    /** bufferevent_disable. */
    method Disable(writer: bool)
      requires Valid()
      modifies this`writeEnabled, this`readEnabled
      ensures Valid() && View() == PlainStep(old(View()), Op.Disable(writer))
    {
      hide EvBuffer.Valid, EvBuffer.Contents;
      if writer {
        writeEnabled := false;
      } else {
        readEnabled := false;
      }
    }

    /** bufferevent_suspend_read on the receiver. */
    method Suspend()
      requires Valid()
      modifies this`readSuspended
      ensures Valid() && View() == PlainStep(old(View()), Op.Suspend)
    {
      hide EvBuffer.Valid, EvBuffer.Contents;
      readSuspended := true;
    }

    /** bufferevent_unsuspend_read on the receiver, when no reason to suspend is left. */
    method Unsuspend()
      requires Valid()
      modifies this, output, output.spine, input, input.spine
      ensures Valid() && fresh(output.spine + input.spine - old(output.spine) - old(input.spine))
      ensures written == old(written) && taken == old(taken)
      ensures View() == PlainStep(old(View()), Op.Unsuspend)
      ensures WantsToTalk() ==> high > 0 && |input.Contents()| >= high
      ensures Bounded(old(input.Contents()))
    {
      hide EvBuffer.Valid, EvBuffer.Contents;
      readSuspended := false;
      if readEnabled {
        Talk();
      }
    }

    /** The high watermark of the receiver. */
    method SetWatermark(mark: nat)
      requires Valid()
      modifies this`high
      ensures Valid() && View() == PlainStep(old(View()), Op.SetWatermark(mark))
    {
      hide EvBuffer.Valid, EvBuffer.Contents;
      high := mark;
    }

    /** be_pair_flush in this direction. */
    method Flush()
      requires Valid()
      modifies output, output.spine, input, input.spine
      ensures Valid() && fresh(output.spine + input.spine - old(output.spine) - old(input.spine))
      ensures output.Contents() == [] || (high > 0 && |input.Contents()| >= high)
      ensures View() == Transferred(old(View()), true)
      ensures high == 0 || |old(input.Contents())| >= high ==>
        output.Contents() == [] && input.Contents() == old(input.Contents() + output.Contents())
    {
      hide EvBuffer.Valid, EvBuffer.Contents;
      Transfer(true);
    }
  }

  /** Reading takes a prefix of what was written. */
  lemma ReadIsPrefix(p: Pipe)
    requires p.Valid()
    ensures p.taken <= p.written && |p.written| == |p.taken| + |p.input.Contents()| + |p.output.Contents()|
  {
    assert p.written == p.taken + (p.input.Contents() + p.output.Contents());
  }

  lemma Outside(p: Pipe)
    requires p.Valid()
    ensures p !in p.output.spine && p !in p.input.spine && p.output !in p.input.spine && p.output != p.input
  {
  }

  /** All that a run writes. */
  ghost function WrittenBy(ops: seq<Op>): seq<byte> {
    if ops == [] then []
    else WrittenBy(ops[..|ops| - 1]) + if ops[|ops| - 1].Write? then ops[|ops| - 1].data else []
  }

  /** One operation; what it reads is handed back. */
  method Perform(p: Pipe, op: Op) returns (got: seq<byte>)
    requires p.Valid()
    modifies p, p.output, p.output.spine, p.input, p.input.spine
    ensures p.Valid() && fresh(p.output.spine + p.input.spine - old(p.output.spine) - old(p.input.spine))
    ensures p.written == old(p.written) + (if op.Write? then op.data else []) && p.taken == old(p.taken) + got
    ensures !op.Flush? ==> p.Bounded(old(p.input.Contents()))
    ensures p.high == if op.SetWatermark? then op.mark else old(p.high)
    ensures p.View() == PlainStep(old(p.View()), op)
  {
    hide Pipe.Valid;
    got := [];
    Outside(p);
    match op {
      case Write(data) => p.Write(data);
      case Read(size) =>
        var a := new byte[size];
        var r := p.Read(a, size);
        got := a[..r];
      case Enable(writer) => p.Enable(writer);
      case Disable(writer) => p.Disable(writer);
      case Suspend => p.Suspend();
      case Unsuspend => p.Unsuspend();
      case SetWatermark(mark) => p.SetWatermark(mark);
      case Flush => p.Flush();
    }
  }

  /** A run that neither flushes nor moves the watermark. */
  ghost predicate Steady(ops: seq<Op>) {
    forall i :: 0 <= i < |ops| ==> !ops[i].Flush? && !ops[i].SetWatermark?
  }

  /**
   * In every run the reader gets, in order, the first part of what the writer wrote; and without a flush the receiver
   * stays within its high watermark.
   */
  method Run(p: Pipe, ops: seq<Op>) returns (got: seq<byte>)
    requires p.Valid() && p.written == [] && p.taken == []
    modifies p, p.output, p.output.spine, p.input, p.input.spine
    ensures p.Valid() && WrittenBy(ops) == got + p.input.Contents() + p.output.Contents()
    ensures Steady(ops) && p.high > 0 ==> p.high == old(p.high) && |p.input.Contents()| <= p.high
    ensures p.View() == PlainRun(old(p.View()), ops)
  {
    hide EvBuffer.Valid, EvBuffer.Contents;
    got := [];
    assert p.input.Contents() == [];
    var k := 0;
    while k < |ops|
      invariant k <= |ops| && p.Valid() && p.taken == got && p.written == WrittenBy(ops[..k])
      invariant fresh(p.output.spine + p.input.spine - old(p.output.spine) - old(p.input.spine))
      invariant Steady(ops) ==> p.high == old(p.high) && (p.high > 0 ==> |p.input.Contents()| <= p.high)
      invariant p.View() == PlainRun(old(p.View()), ops[..k])
    {
      var g := Perform(p, ops[k]);
      assert ops[..k + 1][..k] == ops[..k];
      got := got + g;
      k := k + 1;
    }
    assert ops[..k] == ops;
  }

  /** What happens to a pair: an operation on one direction, or be_pair_enable on one of the two bufferevents. */
  datatype PairOp = On(there: bool, op: Op) | EnableEnd(first: bool, read: bool, write: bool)

  /** All that a run writes in one direction. */
  ghost function PairWritten(ops: seq<PairOp>, there: bool): seq<byte> {
    if ops == [] then []
    else
      var o := ops[|ops| - 1];
      PairWritten(ops[..|ops| - 1], there) + if o.On? && o.there == there && o.op.Write? then o.op.data else []
  }

  /** What happens to one pipe of a pair; the first bufferevent writes `there` and reads the other one. */
  ghost function PairStep(p: Plain, o: PairOp, there: bool): Plain {
    match o
    case On(t, op) => if t == there then PlainStep(p, op) else p
    case EnableEnd(first, read, write) =>
      if first == there then (if write then PlainStep(p, Enable(true)) else p)
      else (if read then PlainStep(p, Enable(false)) else p)
  }

  ghost function PairRun(p: Plain, ops: seq<PairOp>, there: bool): Plain {
    if ops == [] then p else PairStep(PairRun(p, ops[..|ops| - 1], there), ops[|ops| - 1], there)
  }

  ghost predicate PairSteady(ops: seq<PairOp>) {
    forall i :: 0 <= i < |ops| && ops[i].On? ==> !ops[i].op.Flush? && !ops[i].op.SetWatermark?
  }

  /** Two bufferevents, back to back. */
  class BuffereventPair {
    /** From the first to the second, and back. */
    const there: Pipe
    const back: Pipe

    static ghost function Footprint(p: Pipe): set<object>
      reads p.output, p.input
    {
      {p, p.output, p.input} + p.output.spine + p.input.spine
    }

    ghost predicate Valid()
      reads there, there.output, there.input, there.output.spine, there.input.spine
      reads back, back.output, back.input, back.output.spine, back.input.spine
    {
      there.Valid() && back.Valid() && Footprint(there) !! Footprint(back)
    }

    /** bufferevent_pair_new. */
    constructor ()
      ensures Valid() && there.written == [] && back.written == []
    {
      hide Pipe.Valid;
      there := new Pipe();
      back := new Pipe();
    }

    /** be_pair_enable on one of the two: each direction that it takes part in may start to flow. */
    method Enable(first: bool, read: bool, write: bool)
      requires Valid()
      modifies Footprint(there), Footprint(back)
      ensures Valid() && fresh(Footprint(there) + Footprint(back) - old(Footprint(there)) - old(Footprint(back)))
      ensures there.written == old(there.written) && back.written == old(back.written)
      ensures there.taken == old(there.taken) && back.taken == old(back.taken)
      ensures there.high == old(there.high) && back.high == old(back.high)
      ensures there.Bounded(old(there.input.Contents())) && back.Bounded(old(back.input.Contents()))
      ensures var incoming, outgoing := if first then back else there, if first then there else back;
        && (read ==> incoming.WantsToTalk() ==> 0 < incoming.high <= |incoming.input.Contents()|)
        && (write ==> outgoing.WantsToTalk() ==> 0 < outgoing.high <= |outgoing.input.Contents()|)
      ensures there.View() == PairStep(old(there.View()), EnableEnd(first, read, write), true)
      ensures back.View() == PairStep(old(back.View()), EnableEnd(first, read, write), false)
    {
      hide Pipe.Valid, Pipe.Bounded, Pipe.WantsToTalk, Pipe.View, PlainStep, EvBuffer.Contents;
      if first {
        EnableBoth(back, there, read, write);
      } else {
        EnableBoth(there, back, read, write);
      }
    }

    /** be_pair_enable, with the pipes that lead to and from its bufferevent. */
    static method EnableBoth(incoming: Pipe, outgoing: Pipe, read: bool, write: bool)
      requires incoming.Valid() && outgoing.Valid() && Footprint(incoming) !! Footprint(outgoing)
      modifies Footprint(incoming), Footprint(outgoing)
      ensures incoming.Valid() && outgoing.Valid() && Footprint(incoming) !! Footprint(outgoing)
      ensures fresh(Footprint(incoming) - old(Footprint(incoming))) && fresh(Footprint(outgoing) - old(Footprint(outgoing)))
      ensures incoming.written == old(incoming.written) && outgoing.written == old(outgoing.written)
      ensures incoming.taken == old(incoming.taken) && outgoing.taken == old(outgoing.taken)
      ensures incoming.high == old(incoming.high) && outgoing.high == old(outgoing.high)
      ensures incoming.Bounded(old(incoming.input.Contents())) && outgoing.Bounded(old(outgoing.input.Contents()))
      ensures read ==> incoming.WantsToTalk() ==> 0 < incoming.high <= |incoming.input.Contents()|
      ensures write ==> outgoing.WantsToTalk() ==> 0 < outgoing.high <= |outgoing.input.Contents()|
      ensures incoming.View() == if read then PlainStep(old(incoming.View()), Op.Enable(false)) else old(incoming.View())
      ensures outgoing.View() == if write then PlainStep(old(outgoing.View()), Op.Enable(true)) else old(outgoing.View())
    {
      hide Pipe.Valid, PlainStep, EvBuffer.Contents;
      if read {
        incoming.Enable(false);
      }
      if write {
        outgoing.Enable(true);
      }
    }

    /** One step of a run; what it reads in each direction is handed back. */
    method Step(o: PairOp) returns (gotThere: seq<byte>, gotBack: seq<byte>)
      requires Valid()
      modifies Footprint(there), Footprint(back)
      ensures Valid() && fresh(Footprint(there) + Footprint(back) - old(Footprint(there)) - old(Footprint(back)))
      ensures there.written == old(there.written) + (if o.On? && o.there && o.op.Write? then o.op.data else [])
      ensures back.written == old(back.written) + (if o.On? && !o.there && o.op.Write? then o.op.data else [])
      ensures there.taken == old(there.taken) + gotThere && back.taken == old(back.taken) + gotBack
      ensures PairSteady([o]) ==>
        && there.high == old(there.high) && back.high == old(back.high)
        && there.Bounded(old(there.input.Contents())) && back.Bounded(old(back.input.Contents()))
      ensures there.View() == PairStep(old(there.View()), o, true) && back.View() == PairStep(old(back.View()), o, false)
    {
      hide Pipe.Valid, PlainStep, EvBuffer.Contents;
      gotThere, gotBack := [], [];
      assert PairSteady([o]) ==> [o][0].On? ==> !o.op.Flush? && !o.op.SetWatermark?;
      if o.EnableEnd? {
        Enable(o.first, o.read, o.write);
      } else if o.there {
        gotThere := Perform(there, o.op);
      } else {
        gotBack := Perform(back, o.op);
      }
    }

    /** In every run of a pair each direction is a pipe of its own: first in, first out, and within its watermark. */
    method Run(ops: seq<PairOp>) returns (gotThere: seq<byte>, gotBack: seq<byte>)
      requires Valid() && there.written == there.taken == back.written == back.taken == []
      modifies Footprint(there), Footprint(back)
      ensures Valid()
      ensures PairWritten(ops, true) == gotThere + there.input.Contents() + there.output.Contents()
      ensures PairWritten(ops, false) == gotBack + back.input.Contents() + back.output.Contents()
      ensures PairSteady(ops) && there.high > 0 ==> |there.input.Contents()| <= there.high
      ensures PairSteady(ops) && back.high > 0 ==> |back.input.Contents()| <= back.high
      ensures there.View() == PairRun(old(there.View()), ops, true) && back.View() == PairRun(old(back.View()), ops, false)
    {
      hide Valid, PairStep, EvBuffer.Contents;
      gotThere, gotBack := [], [];
      Streams();
      var k := 0;
      while k < |ops|
        invariant k <= |ops| && Valid()
        invariant fresh(Footprint(there) + Footprint(back) - old(Footprint(there)) - old(Footprint(back)))
        invariant there.taken == gotThere && there.written == PairWritten(ops[..k], true)
        invariant back.taken == gotBack && back.written == PairWritten(ops[..k], false)
        invariant PairSteady(ops) ==>
          && (there.high > 0 ==> |there.input.Contents()| <= there.high)
          && (back.high > 0 ==> |back.input.Contents()| <= back.high)
        invariant there.View() == PairRun(old(there.View()), ops[..k], true)
        invariant back.View() == PairRun(old(back.View()), ops[..k], false)
      {
        var t, b := Step(ops[k]);
        assert ops[..k + 1][..k] == ops[..k];
        gotThere, gotBack := gotThere + t, gotBack + b;
        k := k + 1;
      }
      assert ops[..k] == ops;
      Streams();
    }

    lemma Streams()
      requires Valid()
      ensures there.written == there.taken + there.input.Contents() + there.output.Contents()
      ensures back.written == back.taken + back.input.Contents() + back.output.Contents()
    {
    }
  }
}

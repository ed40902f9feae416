/** DNS names on the wire: the compressing encoder, its label table, and the decoder (evdns.c). */
module DnsNames {
  import opened Bytes
  import opened Options

  const DOT: byte := 46
  const MAX_LABELS := 128

  // ---------- names and labels ----------

  /** strchr for a dot: its first position, or the length of the name. */
  ghost function DotAt(name: seq<byte>): (d: nat)
    ensures d <= |name| && (d < |name| ==> name[d] == DOT)
    ensures forall i :: 0 <= i < d ==> name[i] != DOT
  {
    if name == [] || name[0] == DOT then 0 else 1 + DotAt(name[1..])
  }

  lemma {:induction false} DotAtUnique(name: seq<byte>, d: nat)
    requires d <= |name| && (d < |name| ==> name[d] == DOT)
    requires forall i :: 0 <= i < d ==> name[i] != DOT
    ensures DotAt(name) == d
  {
    if d > 0 {
      DotAtUnique(name[1..], d - 1);
    }
  }

  /** The labels of a name, up to the first empty one. */
  ghost function LabelsOf(name: seq<byte>): seq<seq<byte>>
    decreases |name|
  {
    var d := DotAt(name);
    if d == 0 then [] else if d == |name| then [name] else [name[..d]] + LabelsOf(name[d + 1..])
  }

  /** Labels with dots between them. */
  ghost function Join(ls: seq<seq<byte>>): seq<byte> {
    if ls == [] then [] else if |ls| == 1 then ls[0] else ls[0] + [DOT] + Join(ls[1..])
  }

  /** No label is empty but perhaps the last one. */
  ghost predicate NoGap(name: seq<byte>) {
    name == [] || (name[0] != DOT && forall i :: 0 < i < |name| ==> !(name[i - 1] == name[i] == DOT))
  }

  /** No label is empty, or the name is. */
  ghost predicate Clean(name: seq<byte>) {
    NoGap(name) && (name == [] || name[|name| - 1] != DOT)
  }

  /** A name is the join of its labels exactly when none of them is empty. */
  lemma {:induction false} JoinLabels(name: seq<byte>)
    ensures Join(LabelsOf(name)) == name <==> Clean(name)
    decreases |name|
  {
    var d := DotAt(name);
    if 0 < d < |name| {
      var rest := name[d + 1..];
      JoinLabels(rest);
      assert name == name[..d] + [DOT] + rest;
      var ls := [name[..d]] + LabelsOf(rest);
      assert ls[1..] == LabelsOf(rest);
      if rest == [] || rest[0] == DOT {
        assert Join(ls) == name[..d];
        assert rest != [] ==> name[d] == name[d + 1] == DOT;
      } else {
        assert DotAt(rest) > 0;
        assert Join(ls) == name[..d] + [DOT] + Join(LabelsOf(rest));
        assert Join(ls)[d + 1..] == Join(LabelsOf(rest));
        CleanTail(name, d);
      }
    }
  }

  lemma CleanTail(name: seq<byte>, d: nat)
    requires 0 < d && d + 1 < |name| && name[d] == DOT && name[d + 1] != DOT && forall i :: 0 <= i < d ==> name[i] != DOT
    ensures Clean(name) <==> Clean(name[d + 1..])
  {
    var rest := name[d + 1..];
    assert rest[|rest| - 1] == name[|name| - 1];
    if NoGap(rest) {
      forall i | 0 < i < |name| ensures !(name[i - 1] == name[i] == DOT) {
        if i > d + 1 {
          assert rest[i - d - 2] == name[i - 1] && rest[i - d - 1] == name[i];
        }
      }
    }
    if NoGap(name) {
      forall i | 0 < i < |rest| ensures !(rest[i - 1] == rest[i] == DOT) {
        assert rest[i - 1] == name[i + d] && rest[i] == name[i + d + 1];
      }
    }
  }

  // ---------- what a packet says ----------

  /** The 14-bit offset of a compression pointer. */
  function Target(p: seq<byte>, j: nat): nat
    requires j + 1 < |p|
  {
    PointerTo(p[j], p[j + 1])
  }

  /** The low 14 bits of two bytes. */
  function PointerTo(hi: byte, lo: byte): nat {
    (hi as int % 64) * 256 + lo as int
  }

  datatype Walked = Walked(labels: seq<seq<byte>>, stop: nat)

  /** The labels found from position j on after a number of jumps, and where the name ends in the packet. */
  ghost function Walk(p: seq<byte>, j: nat, jumps: nat): Option<Walked>
    requires jumps <= |p|
    decreases |p| - jumps, if j < |p| then |p| - j else 0
  {
    if j >= |p| then None
    else if p[j] == 0 then Some(Walked([], j + 1))
    else if p[j] >= 64 then
      if j + 1 >= |p| || Target(p, j) >= |p| || jumps == |p| then None
      else match Walk(p, Target(p, j), jumps + 1)
        case None => None
        case Some(w) => Some(Walked(w.labels, j + 2))
    else
      match Walk(p, j + 1 + p[j], jumps)
      case None => None
      case Some(w) => if j + 1 + p[j] > |p| then None else Some(Walked([p[j + 1..j + 1 + p[j]]] + w.labels, w.stop))
  }

  lemma WalkStep(p: seq<byte>, j: nat, jumps: nat)
    requires jumps <= |p|
    ensures j >= |p| ==> Walk(p, j, jumps).None?
    ensures j < |p| && p[j] == 0 ==> Walk(p, j, jumps) == Some(Walked([], j + 1))
    ensures j < |p| && p[j] >= 64 && (j + 1 >= |p| || Target(p, j) >= |p| || jumps == |p|) ==> Walk(p, j, jumps).None?
    ensures j < |p| && p[j] >= 64 && j + 1 < |p| && Target(p, j) < |p| && jumps < |p| ==>
      var w := Walk(p, Target(p, j), jumps + 1);
      Walk(p, j, jumps) == if w.None? then None else Some(Walked(w.value.labels, j + 2))
    ensures j < |p| && 0 < p[j] < 64 && j + 1 + p[j] > |p| ==> Walk(p, j, jumps).None?
    ensures j < |p| && 0 < p[j] < 64 && j + 1 + p[j] <= |p| ==>
      var w := Walk(p, j + 1 + p[j], jumps);
      Walk(p, j, jumps) == if w.None? then None else Some(Walked([p[j + 1..j + 1 + p[j]]] + w.value.labels, w.value.stop))
  {
  }

  /**
   * The walk, said of the bytes. A pointer leads to its low 14 bits, the first byte being the high one, and costs a
   * jump; a name with one ends behind its first pointer.
   */
  lemma WalkPointer(p: seq<byte>, j: nat, jumps: nat)
    requires jumps <= |p| && j + 1 < |p| && p[j] >= 0xc0
    ensures var to := 256 * (p[j] as int - 0xc0) + p[j + 1] as int;
      Walk(p, j, jumps) ==
        if to >= |p| || jumps == |p| || Walk(p, to, jumps + 1).None? then None
        else Some(Walked(Walk(p, to, jumps + 1).value.labels, j + 2))
  {
    hide Walk;
    WalkStep(p, j, jumps);
    PointerIs(p[j], p[j + 1]);
  }

  lemma PointerIs(hi: byte, lo: byte)
    ensures hi >= 0xc0 ==> PointerTo(hi, lo) == 256 * (hi as int - 0xc0) + lo as int
    ensures 64 <= hi < 128 ==> PointerTo(hi, lo) == 256 * (hi as int - 64) + lo as int
    ensures 128 <= hi < 0xc0 ==> PointerTo(hi, lo) == 256 * (hi as int - 128) + lo as int
  {
  }

  /** The packet spells these labels from j on, and every pointer on the way leads below `lim` and ever lower. */
  ghost predicate Encodes(p: seq<byte>, j: nat, lim: nat, ls: seq<seq<byte>>)
    decreases lim, |ls|
  {
    && j < |p|
    && if p[j] == 0 then ls == []
       else if p[j] >= 64 then j + 1 < |p| && Target(p, j) < lim && Encodes(p, Target(p, j), Target(p, j), ls)
       else
         && ls != [] && j + 1 + p[j] <= |p| && p[j + 1..j + 1 + p[j]] == ls[0]
         && Encodes(p, j + 1 + p[j], lim, ls[1..])
  }

  /** Where the name at j ends in the packet. */
  ghost function StopAt(p: seq<byte>, j: nat): nat
    decreases if j < |p| then |p| - j else 0
  {
    if j >= |p| then 0 else if p[j] == 0 then j + 1 else if p[j] >= 64 then j + 2 else StopAt(p, j + 1 + p[j])
  }

  /** Descending pointers never use up the jump budget of the decoder. */
  lemma {:induction false} WalkEncodes(p: seq<byte>, j: nat, lim: nat, ls: seq<seq<byte>>, jumps: nat)
    requires Encodes(p, j, lim, ls) && jumps + lim <= |p|
    ensures Walk(p, j, jumps) == Some(Walked(ls, StopAt(p, j)))
    decreases lim, |ls|
  {
    if p[j] >= 64 {
      WalkEncodes(p, Target(p, j), Target(p, j), ls, jumps + 1);
    } else if p[j] > 0 {
      WalkEncodes(p, j + 1 + p[j], lim, ls[1..], jumps);
      assert ls == [ls[0]] + ls[1..];
    }
  }

  /** Bytes appended later do not change what a name says. */
  lemma {:induction false} EncodesLater(p: seq<byte>, q: seq<byte>, j: nat, lim: nat, ls: seq<seq<byte>>)
    requires Encodes(p, j, lim, ls) && p <= q
    ensures Encodes(q, j, lim, ls) && StopAt(q, j) == StopAt(p, j)
    decreases lim, |ls|
  {
    if p[j] >= 64 {
      EncodesLater(p, q, Target(p, j), Target(p, j), ls);
    } else if p[j] > 0 {
      EncodesLater(p, q, j + 1 + p[j], lim, ls[1..]);
      assert q[j + 1..j + 1 + p[j]] == p[j + 1..j + 1 + p[j]];
    }
  }

  lemma {:induction false} EncodesWider(p: seq<byte>, j: nat, lim: nat, more: nat, ls: seq<seq<byte>>)
    requires Encodes(p, j, lim, ls) && lim <= more
    ensures Encodes(p, j, more, ls)
    decreases |ls|
  {
    if 0 < p[j] < 64 {
      EncodesWider(p, j + 1 + p[j], lim, more, ls[1..]);
    }
  }

  // ---------- the decoder ----------

  /** memcpy. */
  method Copy(to: array<byte>, at: nat, from: seq<byte>)
    requires at + |from| <= to.Length
    modifies to
    ensures forall i :: 0 <= i < to.Length ==> to[i] == if at <= i < at + |from| then from[i - at] else old(to[i])
  {
    var k := 0;
    while k < |from|
      invariant k <= |from|
      invariant forall i :: 0 <= i < to.Length ==> to[i] == if at <= i < at + k then from[i - at] else old(to[i])
    {
      to[at + k] := from[k];
      k := k + 1;
    }
  }

  ghost function WithLabel(out: seq<byte>, l: seq<byte>): seq<byte> {
    if out == [] then l else out + [DOT] + l
  }

  /** The name so far with the remaining labels behind it. */
  ghost function Extended(out: seq<byte>, ls: seq<seq<byte>>): seq<byte> {
    if ls == [] then out else if out == [] then Join(ls) else out + [DOT] + Join(ls)
  }

  lemma ExtendedStep(out: seq<byte>, l: seq<byte>, ls: seq<seq<byte>>)
    requires l != []
    ensures Extended(out, [l] + ls) == Extended(WithLabel(out, l), ls)
  {
    assert ([l] + ls)[1..] == ls;
    if ls != [] {
      assert Join([l] + ls) == l + [DOT] + Join(ls);
    }
  }

  lemma ExtendedEnds(out: seq<byte>, ls: seq<seq<byte>>)
    ensures Extended([], ls) == Join(ls) && Extended(out, []) == out
    ensures |Extended(out, ls)| >= |out|
  {
  }

  ghost predicate Holds(a: array<byte>, out: seq<byte>)
    reads a
  {
    |out| <= a.Length && forall i :: 0 <= i < |out| ==> a[i] == out[i]
  }

  /** One label into the name buffer, with a dot before it unless it is the first. */
  method AppendLabel(nameOut: array<byte>, nameOutLen: nat, cp: nat, l: seq<byte>, ghost out: seq<byte>)
    returns (ok: bool, c: nat)
    requires nameOutLen <= nameOut.Length && cp == |out| && l != [] && (cp > 0 ==> cp < nameOutLen) && Holds(nameOut, out)
    modifies nameOut
    ensures ok <==> |WithLabel(out, l)| < nameOutLen
    ensures ok ==> Holds(nameOut, WithLabel(out, l)) && c == |WithLabel(out, l)| > 0
  {
    c := cp;
    if c != 0 {
      if c + 1 >= nameOutLen {
        return false, c;
      }
      nameOut[c] := DOT;
      c := c + 1;
    }
    if c + |l| >= nameOutLen {
      return false, c;
    }
    Copy(nameOut, c, l);
    return true, c + |l|;
  }

  method Terminate(nameOut: array<byte>, cp: nat, ghost out: seq<byte>)
    requires cp == |out| < nameOut.Length && Holds(nameOut, out)
    modifies nameOut
    ensures Holds(nameOut, out + [0])
  {
    nameOut[cp] := 0;
  }

  lemma HoldsNothing(a: array<byte>)
    ensures Holds(a, [])
  {
  }

  lemma SlicePrefix(a: array<byte>, n: nat, i: nat, k: nat)
    requires i <= k <= n <= a.Length
    ensures a[i..k] == a[..n][i..k]
  {
  }

  /** What is left of a walk, seen from where the decoder stands. */
  ghost predicate Remaining(whole: Option<Walked>, rest: Option<Walked>, out: seq<byte>, nameEnd: int) {
    && (whole.Some? <==> rest.Some?)
    && (whole.Some? ==>
        && Join(whole.value.labels) == Extended(out, rest.value.labels)
        && whole.value.stop == (if nameEnd < 0 then rest.value.stop else nameEnd))
  }

  /** name_parse: halts on every packet, and finds exactly what a walk finds if it fits the buffer. */
  method NameParse(packet: array<byte>, length: nat, idx: nat, nameOut: array<byte>, nameOutLen: nat)
    returns (r: int, next: nat)
    requires length <= packet.Length && nameOutLen <= nameOut.Length && nameOut != packet
    modifies nameOut
    ensures r == 0 || (r == -1 && next == idx)
    ensures var w := Walk(packet[..length], idx, 0);
      && (r == 0 <==> w.Some? && |Join(w.value.labels)| < nameOutLen)
      && (r == 0 ==> next == w.value.stop && Holds(nameOut, Join(w.value.labels) + [0]))
  {
    hide Join, Extended, Walk, WithLabel, Holds, PointerTo;
    HoldsNothing(nameOut);
    ghost var p := packet[..length];
    ghost var whole, out := Walk(p, idx, 0), [];
    var nameEnd: int, j: nat, ptrCount: nat, cp: nat := -1, idx, 0, 0;
    if whole.Some? {
      ExtendedEnds([], whole.value.labels);
    }
    while true
      invariant 0 <= ptrCount <= length && cp == |out| && (cp > 0 ==> cp < nameOutLen) && Holds(nameOut, out)
      invariant packet[..length] == p && nameEnd >= -1
      invariant Remaining(whole, Walk(p, j, ptrCount), out, nameEnd)
      decreases length - ptrCount, if j < length then length - j else 0
    {
      WalkStep(p, j, ptrCount);
      if j >= length {
        return -1, idx;
      }
      var labelLen := packet[j];
      assert p[j] == labelLen;
      j := j + 1;
      if labelLen == 0 {
        break;
      }
      if labelLen >= 64 {
        if j >= length {
          return -1, idx;
        }
        var ptrLow := packet[j];
        j := j + 1;
        nameEnd := if nameEnd < 0 then j else nameEnd;
        assert Target(p, j - 2) == PointerTo(labelLen, ptrLow);
        j := PointerTo(labelLen, ptrLow);
        if j >= length {
          return -1, idx;
        }
        ptrCount := ptrCount + 1;
        if ptrCount > length {
          return -1, idx;
        }
        continue;
      }
      // A label that runs past the packet ends the walk.
      if j + labelLen as int > length {
        return -1, idx;
      }
      var l := packet[j..j + labelLen as int];
      SlicePrefix(packet, length, j, j + labelLen as int);
      ghost var rest := Walk(p, j + labelLen as int, ptrCount);
      if rest.Some? {
        ExtendedStep(out, l, rest.value.labels);
        ExtendedEnds(WithLabel(out, l), rest.value.labels);
      }
      var ok, c := AppendLabel(nameOut, nameOutLen, cp, l, out);
      if !ok {
        return -1, idx;
      }
      out := WithLabel(out, l);
      cp := c;
      j := j + labelLen as int;
    }
    ExtendedEnds(out, []);
    if cp >= nameOutLen {
      return -1, idx;
    }
    Terminate(nameOut, cp, out);
    r, next := 0, if nameEnd < 0 then j else nameEnd;
  }

  // ---------- the label table ----------

  /** struct dnslabel_entry: a suffix of a name and where the message spells it. */
  datatype Entry = Entry(v: seq<byte>, pos: nat)

  ghost predicate Knows(es: seq<Entry>, v: seq<byte>) {
    exists k :: 0 <= k < |es| && es[k].v == v
  }

  /** The packet spells every suffix in the table where the table says. */
  ghost predicate TableOk(p: seq<byte>, es: seq<Entry>) {
    forall k :: 0 <= k < |es| ==> es[k].pos < |p| && Encodes(p, es[k].pos, es[k].pos, LabelsOf(es[k].v))
  }

  /** A table takes entries until it is full. */
  ghost function Cap(es: seq<Entry>): seq<Entry> {
    if |es| <= MAX_LABELS then es else es[..MAX_LABELS]
  }

  class LabelTable {
    var entries: seq<Entry>

    /** dnslabel_table_init. */
    constructor ()
      ensures entries == []
    {
      entries := [];
    }

    /** dnslabel_table_get_pos: the first entry for a suffix. */
    method GetPos(v: seq<byte>) returns (pos: int)
      ensures pos == -1 <==> !Knows(entries, v)
      ensures pos != -1 ==> exists k :: 0 <= k < |entries| && entries[k].v == v && entries[k].pos == pos && !Knows(entries[..k], v)
    {
      var i := 0;
      while i < |entries|
        invariant i <= |entries| && !Knows(entries[..i], v)
      {
        if entries[i].v == v {
          return entries[i].pos;
        }
        assert entries[..i + 1] == entries[..i] + [entries[i]];
        i := i + 1;
      }
      assert entries[..i] == entries;
      return -1;
    }

    /** dnslabel_table_add: fails, without harm, when the table is full. */
    method Add(v: seq<byte>, pos: nat) returns (r: int)
      requires |entries| <= MAX_LABELS
      modifies this
      ensures entries == Cap(old(entries) + [Entry(v, pos)]) && |entries| <= MAX_LABELS
      ensures r == if old(|entries|) == MAX_LABELS then -1 else 0
    {
      if |entries| == MAX_LABELS {
        return -1;
      }
      entries := entries + [Entry(v, pos)];
      return 0;
    }
  }

  // ---------- the encoder ----------

  /** A label of the name begins at i. */
  ghost predicate Start(name: seq<byte>, i: nat)
    requires i <= |name|
  {
    i == 0 || name[i - 1] == DOT
  }

  /** The i-th byte of a name on the wire: where a label begins its length, else the name itself moved up by one. */
  ghost function WireAt(name: seq<byte>, i: nat): int
    requires i <= |name|
  {
    if Start(name, i) then DotAt(name[i..]) else name[i - 1]
  }

  /** The first n bytes of a name stand at j. */
  ghost predicate Wrote(p: seq<byte>, j: nat, name: seq<byte>, n: nat) {
    && n <= |name| + 1 && j + n <= |p|
    && forall i :: 0 <= i < n ==> p[j + i] as int == WireAt(name, i) && (Start(name, i) ==> p[j + i] < 64)
  }

  /** The same, said of the bytes; a dot is 46. */
  ghost predicate OnWire(p: seq<byte>, j: nat, name: seq<byte>, n: nat) {
    n <= |name| + 1 && j + n <= |p| && forall i :: 0 <= i < n ==> ByteAt(p, j, name, i)
  }

  /** Where a label begins, the distance to the next dot or to the end; elsewhere the byte before. */
  ghost predicate ByteAt(p: seq<byte>, j: nat, name: seq<byte>, i: nat)
    requires i <= |name| && j + i < |p|
  {
    var b := p[j + i];
    if i == 0 || name[i - 1] == 46 then
      && i + b as int <= |name| && (i + b as int < |name| ==> name[i + b as int] == 46)
      && forall x :: i <= x < i + b as int ==> name[x] != 46
    else b == name[i - 1]
  }

  /** The two bytes of a pointer end at r. */
  ghost predicate PointerBytes(p: seq<byte>, r: int, pos: nat) {
    2 <= r <= |p| && p[r - 2] as int == 0xc0 + pos % 0x4000 / 256 && p[r - 1] as int == pos % 256
  }

  /** A pointer to the first table entry for v ends at r. */
  ghost predicate PointsTo(p: seq<byte>, r: int, es: seq<Entry>, v: seq<byte>) {
    exists i :: 0 <= i < |es| && es[i].v == v && !Knows(es[..i], v) && PointerBytes(p, r, es[i].pos)
  }

  lemma WroteBytes(p: seq<byte>, j: nat, name: seq<byte>, n: nat)
    requires Wrote(p, j, name, n)
    ensures OnWire(p, j, name, n)
  {
    hide DotAt;
    forall i | 0 <= i < n ensures ByteAt(p, j, name, i) {
      assert p[j + i] as int == WireAt(name, i);
      if Start(name, i) {
        var d := DotAt(name[i..]);
        assert forall x :: i <= x < i + d ==> name[x] == name[i..][x - i];
        assert i + d < |name| ==> name[i..][d] == name[i + d];
      }
    }
  }

  /** KnownAt, without the way there: the first label start with a known suffix. */
  lemma {:induction false} KnownAtIs(name: seq<byte>, es: seq<Entry>, i: nat)
    requires i <= |name| && Start(name, i)
    ensures i < KnownAt(name, es) ==> !Knows(es, name[i..])
    ensures i == KnownAt(name, es) ==> Knows(es, name[i..])
    decreases |name|
  {
    hide Knows, DotAt;
    var d := DotAt(name);
    assert name[0..] == name;
    if !Knows(es, name) && i > 0 && d < |name| {
      assert i > d;
      var rest := name[d + 1..];
      assert rest[i - d - 1..] == name[i..];
      KnownAtIs(rest, es, i - d - 1);
    }
  }

  lemma {:induction false} KnownStart(name: seq<byte>, es: seq<Entry>)
    ensures KnownAt(name, es) <= |name| ==> Start(name, KnownAt(name, es))
    decreases |name|
  {
    hide Knows, DotAt;
    var d := DotAt(name);
    if !Knows(es, name) && d < |name| {
      KnownStart(name[d + 1..], es);
    }
  }

  /** The first label start whose suffix the table knows, or one past the end. */
  ghost function KnownAt(name: seq<byte>, es: seq<Entry>): (n: nat)
    ensures n <= |name| + 1
    decreases |name|
  {
    var d := DotAt(name);
    if Knows(es, name) then 0 else if d == |name| then |name| + 1 else d + 1 + KnownAt(name[d + 1..], es)
  }

  /**
   * How far the encoder comes with a name when there is room for so many bytes: 0 at the end, -1 at a label over 63
   * bytes, -2 at one or at a pointer that does not fit; and at which byte of the name.
   */
  ghost function Outcome(name: seq<byte>, es: seq<Entry>, room: int): (o: (int, nat))
    ensures (o.0 == 0 || o.0 == -1 || o.0 == -2) && o.1 <= |name| + 1
    decreases |name|
  {
    var d := DotAt(name);
    if Knows(es, name) then (if room < 2 then -2 else 0, 0)
    else if d > 63 then (-1, 0)
    else if d + 1 > room then (-2, 0)
    else if d == |name| then (0, |name| + 1)
    else var o := Outcome(name[d + 1..], es, room - d - 1); (o.0, d + 1 + o.1)
  }

  lemma OutcomeOnce(name: seq<byte>, es: seq<Entry>, room: int)
    ensures var d, o := DotAt(name), Outcome(name, es, room);
      if Knows(es, name) then o == (if room < 2 then -2 else 0, 0)
      else if d > 63 then o == (-1, 0)
      else if d + 1 > room then o == (-2, 0)
      else if d == |name| then o == (0, |name| + 1)
      else var p := Outcome(name[d + 1..], es, room - d - 1); o == (p.0, d + 1 + p.1)
  {
    hide DotAt, Knows, KnownAt;
  }

  /** No label has more than 63 bytes. */
  ghost predicate AllShort(name: seq<byte>) {
    forall i :: 0 <= i <= |name| ==> ShortAt(name, i)
  }

  ghost predicate ShortAt(name: seq<byte>, i: nat)
    requires i <= |name|
  {
    Start(name, i) ==> DotAt(name[i..]) <= 63
  }

  lemma ShortBehind(name: seq<byte>, d: nat, i: nat)
    requires d < |name| && name[d] == DOT && d + 1 + i <= |name| && ShortAt(name, d + 1 + i)
    ensures ShortAt(name[d + 1..], i)
  {
    hide DotAt;
    assert name[d + 1..][i..] == name[d + 1 + i..];
  }

  lemma ShortRest(name: seq<byte>)
    requires AllShort(name)
    ensures DotAt(name) <= 63 && (DotAt(name) < |name| ==> AllShort(name[DotAt(name) + 1..]))
  {
    hide DotAt;
    var d := DotAt(name);
    assert ShortAt(name, 0) && name[0..] == name;
    if d < |name| {
      var rest := name[d + 1..];
      forall i | 0 <= i <= |rest| ensures ShortAt(rest, i) {
        ShortBehind(name, d, i);
      }
    }
  }

  /** With short labels and room for the plain form there is no error. */
  lemma {:induction false} NoError(name: seq<byte>, es: seq<Entry>, room: int)
    requires room >= |name| + 2 && AllShort(name)
    ensures Outcome(name, es, room).0 == 0
    decreases |name|
  {
    hide DotAt, Knows, Outcome, AllShort;
    OutcomeOnce(name, es, room);
    ShortRest(name);
    var d := DotAt(name);
    if d < |name| {
      NoError(name[d + 1..], es, room - d - 1);
    }
  }

  /** The length of a name on the wire. */
  ghost function Size(name: seq<byte>, es: seq<Entry>): nat {
    var n := KnownAt(name, es);
    if n <= |name| then n + 2 else |name| + if Start(name, |name|) then 1 else 2
  }

  /** The table entries for the labels that begin among the first n bytes. */
  ghost function Added(name: seq<byte>, j: nat, n: nat): seq<Entry>
    requires n <= |name| + 1
  {
    if n == 0 then []
    else Added(name, j, n - 1) + if Start(name, n - 1) then [Entry(name[n - 1..], j + n - 1)] else []
  }

  lemma {:induction false} AddedStep(name: seq<byte>, j: nat, s: nat, n: nat)
    requires s < n <= |name| + 1 && Start(name, s) && n - s - 1 <= DotAt(name[s..])
    ensures Added(name, j, n) == Added(name, j, s) + [Entry(name[s..], j + s)]
  {
    if n > s + 1 {
      AddedStep(name, j, s, n - 1);
      assert name[n - 2] == name[s..][n - 2 - s];
    }
  }

  lemma {:induction false} AddedAt(name: seq<byte>, j: nat, n: nat, k: nat) returns (i: nat)
    requires n <= |name| + 1 && k < |Added(name, j, n)|
    ensures i < n && Start(name, i) && Added(name, j, n)[k] == Entry(name[i..], j + i)
  {
    if k < |Added(name, j, n - 1)| {
      i := AddedAt(name, j, n - 1, k);
    } else {
      i := n - 1;
    }
  }

  /** The label after one that begins at i begins no later than any other behind i. */
  lemma NextStart(name: seq<byte>, i: nat, s: nat)
    requires i < s <= |name| && Start(name, s)
    ensures var d := DotAt(name[i..]);
      i + d + 1 <= s && Start(name, i + d + 1) && name[i + d] == DOT && name[i..][d + 1..] == name[i + d + 1..]
  {
    hide DotAt;
    assert name[i..][s - 1 - i] == name[s - 1];
    var d := DotAt(name[i..]);
    assert name[i..][d] == name[i + d];
  }

  /** Labels written one after the other are spelled in full if the rest is, and end where the rest ends. */
  lemma {:induction false} Backward(p: seq<byte>, j: nat, name: seq<byte>, s: nat, i: nat)
    requires i <= s <= |name| && Start(name, i) && Start(name, s) && Wrote(p, j, name, s)
    requires Encodes(p, j + s, j, LabelsOf(name[s..]))
    ensures Encodes(p, j + i, j, LabelsOf(name[i..]))
    ensures NoGap(name) ==> StopAt(p, j + i) == StopAt(p, j + s)
    decreases s - i
  {
    hide Encodes, StopAt, LabelsOf, Wrote, NoGap, DotAt;
    if i < s {
      NextStart(name, i, s);
      Backward(p, j, name, s, i + DotAt(name[i..]) + 1);
      BackOne(p, j, name, s, i);
    }
  }

  /** One written label in front of a rest that is spelled in full. */
  lemma BackOne(p: seq<byte>, j: nat, name: seq<byte>, s: nat, i: nat)
    requires i < s <= |name| && Start(name, i) && Start(name, s) && Wrote(p, j, name, s)
    requires var k := i + DotAt(name[i..]) + 1; k <= |name| && Encodes(p, j + k, j, LabelsOf(name[k..]))
    ensures Encodes(p, j + i, j, LabelsOf(name[i..]))
    ensures NoGap(name) ==> StopAt(p, j + i) == StopAt(p, j + (i + DotAt(name[i..]) + 1))
  {
    hide Encodes, StopAt, LabelsOf, Wrote, NoGap, DotAt;
    NextStart(name, i, s);
    LabelsStep(name[i..]);
    LabelBytes(p, j, name, s, i);
    var d := DotAt(name[i..]);
    if d > 0 {
      EncodesLabel(p, j + i, j, name[i..][..d], LabelsOf(name[i..][d + 1..]));
    } else {
      EncodesEnd(p, j + i, j);
      GapAt(name, i);
    }
  }

  lemma GapAt(name: seq<byte>, i: nat)
    requires i < |name| && Start(name, i) && name[i] == DOT
    ensures !NoGap(name)
  {
  }

  lemma {:induction false} LabelsStep(name: seq<byte>)
    ensures var d := DotAt(name);
      LabelsOf(name) == if d == 0 then [] else if d == |name| then [name] else [name[..d]] + LabelsOf(name[d + 1..])
  {
  }

  lemma EncodesLabel(p: seq<byte>, j: nat, lim: nat, l: seq<byte>, ls: seq<seq<byte>>)
    requires j + 1 + |l| <= |p| && 0 < |l| < 64 && p[j] as int == |l| && p[j + 1..j + 1 + |l|] == l
    requires Encodes(p, j + 1 + |l|, lim, ls)
    ensures Encodes(p, j, lim, [l] + ls) && StopAt(p, j) == StopAt(p, j + 1 + |l|)
  {
    assert ([l] + ls)[1..] == ls;
  }

  lemma EncodesIn(p: seq<byte>, j: nat, lim: nat, ls: seq<seq<byte>>)
    requires Encodes(p, j, lim, ls)
    ensures j < |p|
  {
  }

  lemma EncodesEnd(p: seq<byte>, j: nat, lim: nat)
    requires j < |p| && p[j] == 0
    ensures Encodes(p, j, lim, []) && StopAt(p, j) == j + 1
  {
  }

  /** Between two starts stand the bytes of the label. */
  lemma LabelBytes(p: seq<byte>, j: nat, name: seq<byte>, n: nat, i: nat)
    requires Wrote(p, j, name, n) && i <= |name| && Start(name, i) && i + DotAt(name[i..]) < n
    ensures var d := DotAt(name[i..]);
      j + i + 1 + d <= |p| && p[j + i] as int == d < 64 && p[j + i + 1..j + i + 1 + d] == name[i..][..d]
  {
    var d := DotAt(name[i..]);
    assert p[j + i] as int == WireAt(name, i);
    forall k | 0 <= k < d ensures p[j + i + 1 + k] == name[i..][k] {
      assert name[i + k] == name[i..][k];
      assert p[j + (i + 1 + k)] as int == WireAt(name, i + 1 + k);
    }
  }

  /** The last label of a name. */
  lemma LastLabel(p: seq<byte>, j: nat, name: seq<byte>, s: nat)
    requires s <= |name| && Start(name, s) && DotAt(name[s..]) == |name| - s && Wrote(p, j, name, |name| + 1)
    requires !Start(name, |name|) ==> |p| > j + |name| + 1 && p[j + |name| + 1] == 0
    ensures Encodes(p, j + s, j, LabelsOf(name[s..]))
    ensures StopAt(p, j + s) == j + |name| + if Start(name, |name|) then 1 else 2
  {
    var rest := name[s..];
    assert p[j + s] as int == WireAt(name, s);
    if rest != [] {
      assert rest[|rest| - 1] == name[|name| - 1];
      LabelBytes(p, j, name, |name| + 1, s);
      assert rest[..|rest|] == rest;
    }
  }

  /** A pointer to a suffix that the table knows. */
  lemma PointerEncodes(p: seq<byte>, j: nat, lim: nat, e: Entry)
    requires j + 1 < |p| && p[j] >= 64 && Target(p, j) == e.pos < lim && Encodes(p, e.pos, e.pos, LabelsOf(e.v))
    ensures Encodes(p, j, lim, LabelsOf(e.v)) && StopAt(p, j) == j + 2
  {
  }

  /** The table stays right when a name has been written behind it. */
  lemma TableGrows(p: seq<byte>, q: seq<byte>, es: seq<Entry>, name: seq<byte>, s: nat, n: nat)
    requires TableOk(p, es) && p <= q && s <= |name| && Start(name, s) && s <= n <= |name| + 1
    requires Wrote(q, |p|, name, s) && Encodes(q, |p| + s, |p|, LabelsOf(name[s..]))
    requires forall i :: s < i < n ==> !Start(name, i)
    ensures TableOk(q, Cap(es + Added(name, |p|, n)))
  {
    hide Encodes, StopAt, LabelsOf, Wrote, Added;
    var all := es + Added(name, |p|, n);
    forall k | 0 <= k < |all| ensures all[k].pos < |q| && Encodes(q, all[k].pos, all[k].pos, LabelsOf(all[k].v)) {
      if k < |es| {
        EncodesLater(p, q, es[k].pos, es[k].pos, LabelsOf(es[k].v));
      } else {
        var i := AddedAt(name, |p|, n, k - |es|);
        Backward(q, |p|, name, s, i);
        EncodesWider(q, |p| + i, |p|, |p| + i, LabelsOf(name[i..]));
        EncodesIn(q, |p| + i, |p|, LabelsOf(name[i..]));
      }
    }
  }

  /** What the encoder promises of a packet p to which it has added a name, making it q. */
  ghost predicate Spelled(p: seq<byte>, q: seq<byte>, name: seq<byte>, es: seq<Entry>) {
    && TableOk(q, es)
    && Encodes(q, |p|, |p|, LabelsOf(name))
    && (NoGap(name) ==> StopAt(q, |p|) == |q|)
  }

  lemma AfterLast(p: seq<byte>, q: seq<byte>, es: seq<Entry>, name: seq<byte>, s: nat)
    requires TableOk(p, es) && p <= q && s <= |name| && Start(name, s) && DotAt(name[s..]) == |name| - s
    requires Wrote(q, |p|, name, |name| + 1) && |q| == |p| + |name| + if Start(name, |name|) then 1 else 2
    requires !Start(name, |name|) ==> q[|q| - 1] == 0
    ensures Spelled(p, q, name, Cap(es + Added(name, |p|, |name| + 1)))
  {
    hide Encodes, StopAt, LabelsOf, Added, TableOk, NoGap, Cap;
    LastLabel(q, |p|, name, s);
    forall i | s < i < |name| + 1 ensures !Start(name, i) {
      assert name[i - 1] == name[s..][i - 1 - s];
    }
    TableGrows(p, q, es, name, s, |name| + 1);
    Backward(q, |p|, name, s, 0);
    assert name[0..] == name;
  }

  lemma TableAt(p: seq<byte>, es: seq<Entry>, k: nat)
    requires TableOk(p, es) && k < |es|
    ensures es[k].pos < |p| && Encodes(p, es[k].pos, es[k].pos, LabelsOf(es[k].v))
  {
  }

  lemma AfterPointer(p: seq<byte>, q: seq<byte>, es: seq<Entry>, name: seq<byte>, s: nat, k: nat)
    requires TableOk(p, es) && p <= q && s <= |name| && Start(name, s) && k < |es| && es[k].v == name[s..]
    requires Wrote(q, |p|, name, s) && |q| == |p| + s + 2 <= 0x4000
    requires q[|p| + s] >= 64 && Target(q, |p| + s) == es[k].pos % 0x4000
    ensures Spelled(p, q, name, Cap(es + Added(name, |p|, s)))
  {
    hide Encodes, StopAt, LabelsOf, Added, Wrote, NoGap, TableOk, Cap, Target, DotAt;
    TableAt(p, es, k);
    EncodesLater(p, q, es[k].pos, es[k].pos, LabelsOf(es[k].v));
    PointerEncodes(q, |p| + s, |p|, es[k]);
    TableGrows(p, q, es, name, s, s);
    Backward(q, |p|, name, s, 0);
    assert name[0..] == name;
  }

  /** strchr from s on. */
  method FindDot(name: seq<byte>, s: nat) returns (d: nat)
    requires s <= |name|
    ensures d == DotAt(name[s..])
  {
    d := 0;
    while s + d < |name| && name[s + d] != DOT
      invariant s + d <= |name| && forall i :: 0 <= i < d ==> name[s..][i] != DOT
    {
      d := d + 1;
    }
    DotAtUnique(name[s..], d);
  }

  /** The length and the bytes of the label that begins at s. */
  method WriteLabel(buf: array<byte>, j: nat, name: seq<byte>, s: nat, d: nat)
    requires s <= |name| && Start(name, s) && d == DotAt(name[s..]) < 64 && j + s + d + 1 <= buf.Length
    requires Wrote(buf[..j + s], j, name, s)
    modifies buf
    ensures Wrote(buf[..j + s + d + 1], j, name, s + d + 1)
    ensures buf[..j] == old(buf[..j])
  {
    ghost var p := buf[..j + s];
    buf[j + s] := d as byte;
    Copy(buf, j + s + 1, name[s..s + d]);
    var q := buf[..j + s + d + 1];
    forall i | 0 <= i < s + d + 1 ensures q[j + i] as int == WireAt(name, i) && (Start(name, i) ==> q[j + i] < 64) {
      if i < s {
        assert q[j + i] == p[j + i];
      } else if i > s {
        assert name[i - 1] == name[s..][i - 1 - s];
      }
    }
  }

  ghost function EntriesOf(table: LabelTable?): seq<Entry>
    reads table
  {
    if table == null then [] else table.entries
  }

  lemma KnownStep(name: seq<byte>, s: nat, es: seq<Entry>)
    requires s <= |name|
    ensures var d := DotAt(name[s..]);
      if Knows(es, name[s..]) then KnownAt(name[s..], es) == 0
      else if s + d == |name| then KnownAt(name[s..], es) == |name| - s + 1
      else s + d + 1 <= |name| && Start(name, s + d + 1) && KnownAt(name[s..], es) == d + 1 + KnownAt(name[s + d + 1..], es)
  {
    hide DotAt;
    var d := DotAt(name[s..]);
    if s + d < |name| {
      assert name[s..][d + 1..] == name[s + d + 1..];
      assert name[s..][d] == name[s + d];
    }
  }

  /** An encoder that has come to s has done so far what it does with the whole name. */
  ghost predicate Along(name: seq<byte>, es: seq<Entry>, room: int, s: nat)
    requires s <= |name|
  {
    && KnownAt(name, es) == s + KnownAt(name[s..], es)
    && var o, p := Outcome(name, es, room), Outcome(name[s..], es, room - s); o == (p.0, s + p.1)
  }

  lemma AlongStart(name: seq<byte>, es: seq<Entry>, room: int)
    ensures Along(name, es, room, 0)
  {
    hide KnownAt, Outcome;
    assert name[0..] == name;
  }

  lemma AlongStep(name: seq<byte>, es: seq<Entry>, room: int, s: nat)
    requires s <= |name| && Along(name, es, room, s)
    ensures var d, o, k := DotAt(name[s..]), Outcome(name, es, room), KnownAt(name, es);
      if Knows(es, name[s..]) then k == s && o == (if room - s < 2 then -2 else 0, s)
      else if d > 63 then o == (-1, s)
      else if d + 1 > room - s then o == (-2, s)
      else if s + d == |name| then k == |name| + 1 && o == (0, |name| + 1)
      else s + d + 1 <= |name| && Start(name, s + d + 1) && Along(name, es, room, s + d + 1)
  {
    hide DotAt, KnownAt, Outcome, Knows;
    KnownStep(name, s, es);
    OutcomeOnce(name[s..], es, room - s);
    var d := DotAt(name[s..]);
    if s + d < |name| {
      assert name[s..][d + 1..] == name[s + d + 1..];
    }
  }

  lemma CapStep(es: seq<Entry>, e: Entry)
    ensures Cap(Cap(es) + [e]) == Cap(es + [e])
  {
  }

  lemma CapAdded(es: seq<Entry>, name: seq<byte>, j: nat, s: nat)
    requires s <= |name| && Start(name, s)
    ensures var n := s + DotAt(name[s..]) + 1;
      Cap(Cap(es + Added(name, j, s)) + [Entry(name[s..], j + s)]) == Cap(es + Added(name, j, n))
  {
    hide Added, Cap, DotAt;
    var n, e := s + DotAt(name[s..]) + 1, Entry(name[s..], j + s);
    AddedStep(name, j, s, n);
    CapStep(es + Added(name, j, s), e);
    assert es + Added(name, j, s) + [e] == es + Added(name, j, n);
  }

  /** A suffix that the table knows was there before this name, whose own suffixes so far are longer. */
  lemma KnownBefore(es: seq<Entry>, name: seq<byte>, j: nat, s: nat, k: nat)
    requires s <= |name| && k < |Cap(es + Added(name, j, s))| && Cap(es + Added(name, j, s))[k].v == name[s..]
    ensures k < |es| && es[k] == Cap(es + Added(name, j, s))[k]
  {
    if k >= |es| {
      var i := AddedAt(name, j, s, k - |es|);
      assert false;
    }
  }

  lemma UnknownBefore(es: seq<Entry>, name: seq<byte>, j: nat, s: nat)
    requires s <= |name| && |es| <= MAX_LABELS && !Knows(Cap(es + Added(name, j, s)), name[s..])
    ensures !Knows(es, name[s..])
  {
    forall k | 0 <= k < |es| ensures es[k].v != name[s..] {
      assert Cap(es + Added(name, j, s))[k] == es[k];
    }
  }

  lemma NothingWritten(p: seq<byte>, name: seq<byte>, es: seq<Entry>)
    requires |es| <= MAX_LABELS
    ensures Wrote(p, |p|, name, 0) && Cap(es + Added(name, |p|, 0)) == es && name[0..] == name
  {
    assert es + [] == es;
  }

  lemma NoTable(p: seq<byte>, q: seq<byte>, name: seq<byte>, es: seq<Entry>)
    ensures Spelled(p, q, name, es) ==> Spelled(p, q, name, [])
  {
  }

  /** Remember the suffix that begins at s. */
  method Remember(table: LabelTable?, j: nat, name: seq<byte>, s: nat, d: nat, ghost es: seq<Entry>)
    requires s <= |name| && Start(name, s) && d == DotAt(name[s..])
    requires table != null ==> |table.entries| <= MAX_LABELS && table.entries == Cap(es + Added(name, j, s))
    modifies table
    ensures table != null ==> |table.entries| <= MAX_LABELS && table.entries == Cap(es + Added(name, j, s + d + 1))
  {
    hide Added, Cap, DotAt;
    if table != null {
      CapAdded(es, name, j, s);
      var _ := table.Add(name[s..], j + s);
    }
  }

  /** Look the suffix that begins at s up. */
  method LookUp(table: LabelTable?, j: nat, name: seq<byte>, s: nat, ghost es: seq<Entry>)
    returns (ref: int, ghost k: nat)
    requires s <= |name| && |es| <= MAX_LABELS
    requires if table != null then table.entries == Cap(es + Added(name, j, s)) else es == []
    ensures ref >= -1 && (ref == -1 <==> !Knows(es, name[s..]))
    ensures ref >= 0 ==> k < |es| && es[k].v == name[s..] && es[k].pos == ref && !Knows(es[..k], name[s..])
  {
    ref, k := -1, 0;
    if table != null {
      ref := table.GetPos(name[s..]);
      if ref != -1 {
        k :| 0 <= k < |table.entries| && table.entries[k].v == name[s..] && table.entries[k].pos == ref
             && !Knows(table.entries[..k], name[s..]);
        KnownBefore(es, name, j, s, k);
        assert table.entries[..k] == es[..k];
      } else {
        UnknownBefore(es, name, j, s);
      }
    }
  }

  lemma WroteLater(p: seq<byte>, q: seq<byte>, j: nat, name: seq<byte>, n: nat)
    requires Wrote(p, j, name, n) && p <= q
    ensures Wrote(q, j, name, n)
  {
  }

  lemma TwoBytes(ref: nat)
    ensures ref % 0x4000 / 0x100 < 0x40 && ref % 0x4000 / 0x100 * 0x100 + ref % 0x100 == ref % 0x4000
  {
  }

  /** The low 16 bits of ref | 0xc000, most significant byte first. */
  method Append16(buf: array<byte>, j: nat, ref: nat)
    requires j + 2 <= buf.Length
    modifies buf
    ensures buf[..j] == old(buf[..j]) && buf[j] >= 0xc0 && Target(buf[..j + 2], j) == ref % 0x4000
    ensures PointerBytes(buf[..j + 2], j + 2, ref)
  {
    var hi, lo := ref % 0x4000 / 0x100, ref % 0x100;
    TwoBytes(ref);
    buf[j] := (0xc0 + hi) as byte;
    buf[j + 1] := lo as byte;
  }

  /** End the name with a pointer to a suffix that the table knew. */
  method WritePointer(buf: array<byte>, j: nat, name: seq<byte>, s: nat, ref: nat, ghost k: nat, ghost es: seq<Entry>)
    requires s <= |name| && Start(name, s) && j + s + 2 <= buf.Length && Wrote(buf[..j + s], j, name, s)
    requires k < |es| && es[k].v == name[s..] && es[k].pos == ref
    modifies buf
    ensures buf[..j] == old(buf[..j])
    ensures Wrote(buf[..j + s + 2], j, name, s) && PointerBytes(buf[..j + s + 2], j + s + 2, ref)
    ensures j + s + 2 <= 0x4000 && old(TableOk(buf[..j], es)) ==>
      Spelled(old(buf[..j]), buf[..j + s + 2], name, Cap(es + Added(name, j, s)))
  {
    hide Encodes, Wrote, Added, Spelled, TableOk, Cap, LabelsOf, PointerBytes;
    ghost var p, before := buf[..j], buf[..j + s];
    Append16(buf, j + s, ref);
    assert before == buf[..j + s] <= buf[..j + s + 2] && p == before[..j];
    WroteLater(before, buf[..j + s + 2], j, name, s);
    if j + s + 2 <= 0x4000 && TableOk(p, es) {
      AfterPointer(p, buf[..j + s + 2], es, name, s, k);
    }
  }

  /** End the name with a zero behind the last label, unless that label is empty. */
  method WriteEnd(buf: array<byte>, j: nat, name: seq<byte>, ghost s: nat, ghost es: seq<Entry>) returns (r: nat)
    requires j + |name| + 1 < buf.Length && 0 !in name && Wrote(buf[..j + |name| + 1], j, name, |name| + 1)
    requires s <= |name| && Start(name, s) && DotAt(name[s..]) == |name| - s
    modifies buf
    ensures r == j + |name| + (if Start(name, |name|) then 1 else 2) && buf[..j] == old(buf[..j])
    ensures Wrote(buf[..r], j, name, |name| + 1) && buf[r - 1] == 0
    ensures r <= 0x4000 && old(TableOk(buf[..j], es)) ==>
      Spelled(old(buf[..j]), buf[..r], name, Cap(es + Added(name, j, |name| + 1)))
  {
    hide Encodes, Added, Spelled, TableOk, Cap, LabelsOf;
    ghost var p, before := buf[..j], buf[..j + |name| + 1];
    r := j + |name| + 1;
    assert before[j + |name|] as int == WireAt(name, |name|);
    assert |name| > 0 ==> name[|name| - 1] in name;
    if buf[r - 1] != 0 {
      buf[r] := 0;
      r := r + 1;
    }
    assert before <= buf[..r] && p == before[..j];
    WroteLater(before, buf[..r], j, name, |name| + 1);
    if r <= 0x4000 && TableOk(p, es) {
      AfterLast(p, buf[..r], es, name, s);
    }
  }

  /**
   * dnsname_to_labels, for a name without NUL bytes and a buffer with one byte to spare behind its bufLen bytes.
   * The result is the first index behind the name, -1 for a label over 63 bytes, -2 for a name that does not fit.
   */
  method DnsnameToLabels(buf: array<byte>, bufLen: nat, j0: nat, name: seq<byte>, table: LabelTable?) returns (r: int)
    requires j0 <= buf.Length && bufLen < buf.Length && 0 !in name
    requires table != null ==> |table.entries| <= MAX_LABELS
    modifies buf, table
    ensures table != null ==> |table.entries| <= MAX_LABELS
    ensures forall i :: 0 <= i < j0 ==> buf[i] == old(buf[i])
    ensures r == -1 || r == -2 || r == j0 + Size(name, old(EntriesOf(table))) <= buf.Length
    ensures if |name| > 255 then r == -2
      else var o := Outcome(name, old(EntriesOf(table)), bufLen - j0); (r < 0 <==> o.0 < 0) && (r < 0 ==> r == o.0)
    ensures r > bufLen <==>
      r >= 0 && KnownAt(name, old(EntriesOf(table))) > |name| && !Start(name, |name|) && j0 + |name| + 1 == bufLen
    ensures table != null && |name| > 255 ==> table.entries == old(EntriesOf(table))
    ensures table != null && |name| <= 255 ==>
      table.entries == Cap(old(EntriesOf(table)) + Added(name, j0, Outcome(name, old(EntriesOf(table)), bufLen - j0).1))
    ensures 0 <= r <= 0x4000 && old(TableOk(buf[..j0], EntriesOf(table))) ==>
      Spelled(old(buf[..j0]), buf[..r], name, EntriesOf(table))
    ensures r >= 0 ==>
      var k := KnownAt(name, old(EntriesOf(table)));
      && OnWire(buf[..r], j0, name, k)
      && (k <= |name| ==> PointsTo(buf[..r], r, old(EntriesOf(table)), name[k..]))
      && (k > |name| ==> r > 0 && buf[r - 1] == 0)
  {
    hide Wrote, Added, KnownAt, Outcome, Spelled, TableOk, Cap, DotAt, OnWire, PointsTo;
    ghost var es, p := EntriesOf(table), buf[..j0];
    if |name| > 255 {
      return -2;
    }
    var s: nat;
    r, s := WriteLabels(buf, bufLen, j0, name, table, es);
    if r == 0 {
      r := WriteEnd(buf, j0, name, s, es);
      WroteBytes(buf[..r], j0, name, |name| + 1);
      NoTable(p, buf[..r], name, Cap(es + Added(name, j0, |name| + 1)));
    }
  }

  /** The loop of dnsname_to_labels: a result other than 0 is the answer, 0 leaves the end of the name to be written. */
  method WriteLabels(buf: array<byte>, bufLen: nat, j0: nat, name: seq<byte>, table: LabelTable?, ghost es: seq<Entry>)
    returns (r: int, s: nat)
    requires j0 <= buf.Length && bufLen < buf.Length && es == EntriesOf(table) && |es| <= MAX_LABELS
    modifies buf, table
    ensures buf[..j0] == old(buf[..j0])
    ensures table != null ==> |table.entries| <= MAX_LABELS
    ensures table != null ==> table.entries == Cap(es + Added(name, j0, Outcome(name, es, bufLen - j0).1))
    ensures r < 0 ==> r == Outcome(name, es, bufLen - j0).0
    ensures r >= 0 ==> Outcome(name, es, bufLen - j0) == (0, KnownAt(name, es))
    ensures r > 0 ==> KnownAt(name, es) <= |name| && r == j0 + KnownAt(name, es) + 2 <= bufLen
    ensures r > 0 ==> OnWire(buf[..r], j0, name, KnownAt(name, es)) && PointsTo(buf[..r], r, es, name[KnownAt(name, es)..])
    ensures 0 < r <= 0x4000 && old(TableOk(buf[..j0], es)) ==> Spelled(old(buf[..j0]), buf[..r], name, EntriesOf(table))
    ensures r == 0 ==>
      && KnownAt(name, es) == |name| + 1 && j0 + |name| + 1 <= bufLen
      && Wrote(buf[..j0 + |name| + 1], j0, name, |name| + 1)
      && s <= |name| && Start(name, s) && DotAt(name[s..]) == |name| - s
  {
    hide Wrote, Added, Along, KnownAt, Outcome, Spelled, TableOk, Cap, Knows, DotAt, OnWire, PointerBytes;
    ghost var p := buf[..j0];
    var j: nat := j0;
    s := 0;
    NothingWritten(p, name, es);
    AlongStart(name, es, bufLen - j0);
    while true
      invariant s <= |name| && Start(name, s) && j == j0 + s <= buf.Length
      invariant Wrote(buf[..j], j0, name, s) && buf[..j0] == p
      invariant if table != null then |table.entries| <= MAX_LABELS && table.entries == Cap(es + Added(name, j0, s)) else es == []
      invariant Along(name, es, bufLen - j0, s)
      decreases |name| - s
    {
      AlongStep(name, es, bufLen - j0, s);
      var ref, k := LookUp(table, j0, name, s, es);
      if ref >= 0 {
        if j + 2 > bufLen {
          return -2, s;
        }
        WritePointer(buf, j0, name, s, ref, k, es);
        WroteBytes(buf[..j + 2], j0, name, s);
        assert PointsTo(buf[..j + 2], j + 2, es, name[s..]);
        NoTable(p, buf[..j + 2], name, Cap(es + Added(name, j0, s)));
        return j + 2, s;
      }
      var d := FindDot(name, s);
      if d > 63 {
        return -1, s;
      }
      if j + d + 1 > bufLen {
        return -2, s;
      }
      Remember(table, j0, name, s, d, es);
      WriteLabel(buf, j0, name, s, d);
      j := j + d + 1;
      if s + d == |name| {
        return 0, s;
      }
      s := s + d + 1;
    }
  }

  // ---------- there and back ----------

  /** A name that a packet spells is what a walk finds there; all of it exactly when it has no empty label. */
  lemma WalkFinds(p: seq<byte>, j: nat, name: seq<byte>)
    requires j <= |p| && Encodes(p, j, j, LabelsOf(name))
    ensures Walk(p, j, 0) == Some(Walked(LabelsOf(name), StopAt(p, j)))
    ensures Join(LabelsOf(name)) == name <==> Clean(name)
  {
    WalkEncodes(p, j, j, LabelsOf(name), 0);
    JoinLabels(name);
  }

  /** Two dots in a row cut a name short: "a..b" is spelled as "a". */
  lemma GapLoses()
    ensures var name := [97, DOT, DOT, 98]; !Clean(name) && Join(LabelsOf(name)) == [97]
  {
    var name: seq<byte> := [97, DOT, DOT, 98];
    assert name[1] == name[2] == DOT;
    DotAtUnique(name, 1);
    DotAtUnique(name[2..], 0);
    assert LabelsOf(name) == [name[..1]] + LabelsOf(name[2..]);
  }

  /** The k-th name stands at starts[k], and ends where the encoder said unless it has a gap. */
  ghost predicate Stands(p: seq<byte>, start: nat, stop: nat, name: seq<byte>) {
    && start <= |p|
    && Encodes(p, start, start, LabelsOf(name))
    && (NoGap(name) ==> StopAt(p, start) == stop)
  }

  lemma StandsLater(p: seq<byte>, q: seq<byte>, start: nat, stop: nat, name: seq<byte>)
    requires Stands(p, start, stop, name) && p <= q
    ensures Stands(q, start, stop, name)
  {
    EncodesLater(p, q, start, start, LabelsOf(name));
  }

  lemma TableLater(p: seq<byte>, q: seq<byte>, es: seq<Entry>)
    requires TableOk(p, es) && p <= q
    ensures TableOk(q, es)
  {
    forall k | 0 <= k < |es| ensures es[k].pos < |q| && Encodes(q, es[k].pos, es[k].pos, LabelsOf(es[k].v)) {
      EncodesLater(p, q, es[k].pos, es[k].pos, LabelsOf(es[k].v));
    }
  }

  /** A name and the bytes that follow it in a message. */
  datatype Item = Item(name: seq<byte>, fill: seq<byte>)

  /** Labels of at most 63 bytes, a name of at most 255, and room for all of it. */
  ghost predicate Fits(it: Item, end: nat, bufLen: nat) {
    && (forall i :: 0 <= i <= |it.name| && Start(it.name, i) ==> DotAt(it.name[i..]) <= 63)
    && |it.name| <= 255
    && end + |it.name| + 2 + |it.fill| <= bufLen
  }

  ghost predicate AllStand(p: seq<byte>, items: seq<Item>, starts: seq<nat>, stops: seq<nat>) {
    |starts| == |stops| <= |items| && forall k :: 0 <= k < |starts| ==> Stands(p, starts[k], stops[k], items[k].name)
  }

  lemma AllStandLater(p: seq<byte>, q: seq<byte>, items: seq<Item>, starts: seq<nat>, stops: seq<nat>)
    requires AllStand(p, items, starts, stops) && p <= q
    ensures AllStand(q, items, starts, stops)
  {
    forall k | 0 <= k < |starts| ensures Stands(q, starts[k], stops[k], items[k].name) {
      StandsLater(p, q, starts[k], stops[k], items[k].name);
    }
  }

  /** A message with many names through one table, other bytes between them. */
  method WriteItems(buf: array<byte>, bufLen: nat, items: seq<Item>, table: LabelTable)
    returns (end: nat, starts: seq<nat>, stops: seq<nat>)
    requires bufLen < buf.Length && bufLen < 0x4000 && table.entries == []
    requires forall k :: 0 <= k < |items| ==> 0 !in items[k].name
    modifies buf, table
    ensures end <= buf.Length && AllStand(buf[..end], items, starts, stops)
    ensures |starts| < |items| ==> !Fits(items[|starts|], end, bufLen)
  {
    hide Encodes, TableOk, Spelled, Stands, AllStand, LabelsOf, KnownAt, Outcome, Size, Fits, Added, Cap;
    end, starts, stops := 0, [], [];
    EmptyMessage(buf[..0], items);
    while |starts| < |items|
      invariant |starts| == |stops| <= |items| && end <= buf.Length && |table.entries| <= MAX_LABELS
      invariant TableOk(buf[..end], table.entries) && AllStand(buf[..end], items, starts, stops)
    {
      var it := items[|starts|];
      ghost var p, es := buf[..end], table.entries;
      var r := DnsnameToLabels(buf, bufLen, end, it.name, table);
      assert buf[..end] == p;
      if r < 0 || r + |it.fill| > bufLen {
        if Fits(it, end, bufLen) {
          FitsSucceeds(it, end, bufLen, es);
        }
        break;
      }
      ghost var q := buf[..r];
      assert p <= q;
      OneMore(p, q, items, starts, stops, table.entries);
      Copy(buf, r, it.fill);
      assert q <= buf[..r + |it.fill|];
      TableLater(q, buf[..r + |it.fill|], table.entries);
      starts, stops := starts + [end], stops + [r];
      AllStandLater(q, buf[..r + |it.fill|], items, starts, stops);
      end := r + |it.fill|;
    }
  }

  /** What fits is written, and its fill has room behind it. */
  lemma FitsSucceeds(it: Item, end: nat, bufLen: nat, es: seq<Entry>)
    requires Fits(it, end, bufLen)
    ensures |it.name| <= 255 && Outcome(it.name, es, bufLen - end).0 == 0 && end + Size(it.name, es) + |it.fill| <= bufLen
  {
    hide Outcome, KnownAt, DotAt;
    NoError(it.name, es, bufLen - end);
  }

  /** The name "a" in a buffer of two bytes: its last zero is a third one. */
  lemma LastByteOutside()
    ensures var name: seq<byte> := [97]; Outcome(name, [], 2) == (0, 2) && Size(name, []) == 3
  {
    DotAtUnique([97], 1);
  }

  lemma EmptyMessage(p: seq<byte>, items: seq<Item>)
    ensures TableOk(p, []) && AllStand(p, items, [], [])
  {
  }

  lemma OneMore(p: seq<byte>, q: seq<byte>, items: seq<Item>, starts: seq<nat>, stops: seq<nat>, es: seq<Entry>)
    requires AllStand(p, items, starts, stops) && p <= q && |starts| < |items| && Spelled(p, q, items[|starts|].name, es)
    ensures TableOk(q, es) && AllStand(q, items, starts + [|p|], stops + [|q|])
  {
    hide Encodes, TableOk;
    AllStandLater(p, q, items, starts, stops);
  }

  /** The C string at the front of a buffer. */
  method ReadString(a: array<byte>, ghost s: seq<byte>) returns (r: seq<byte>)
    requires Holds(a, s + [0]) && 0 !in s
    ensures r == s
  {
    assert a[|s|] == (s + [0])[|s|];
    r := [];
    while a[|r|] != 0
      invariant |r| <= |s| && r == s[..|r|] && a[|r|] == (s + [0])[|r|] && (|r| < |s| ==> s[|r|] in s)
      decreases |s| - |r|
    {
      r := r + [a[|r|]];
      assert a[|r|] == (s + [0])[|r|];
    }
  }

  /** Every clean name comes back from the finished message as it went in, and the decoder stops where the encoder did. */
  method RoundTrip(buf: array<byte>, bufLen: nat, items: seq<Item>, nameOut: array<byte>)
    returns (end: nat, names: seq<seq<byte>>, stops: seq<nat>, nexts: seq<nat>)
    requires bufLen < buf.Length && bufLen < 0x4000 && nameOut.Length > 255 && nameOut != buf
    requires forall k :: 0 <= k < |items| ==> 0 !in items[k].name && Clean(items[k].name) && |items[k].name| <= 255
    modifies buf, nameOut
    ensures |names| <= |items| && nexts == stops
    ensures forall k :: 0 <= k < |names| ==> names[k] == items[k].name
    ensures |names| < |items| ==> !Fits(items[|names|], end, bufLen)
  {
    hide Encodes, TableOk, LabelsOf, Walk, StopAt, Clean, NoGap, Fits;
    var table := new LabelTable();
    var starts;
    end, starts, stops := WriteItems(buf, bufLen, items, table);
    ghost var p := buf[..end];
    names, nexts := [], [];
    while |names| < |starts|
      invariant |names| == |nexts| <= |starts| && p == buf[..end] && nexts == stops[..|names|]
      invariant forall k :: 0 <= k < |names| ==> names[k] == items[k].name
    {
      var k := |names|;
      ghost var name := items[k].name;
      assert Stands(p, starts[k], stops[k], name);
      WalkFinds(p, starts[k], name);
      CleanHasNoGap(name);
      var r, next := NameParse(buf, end, starts[k], nameOut, nameOut.Length);
      var read := ReadString(nameOut, name);
      names, nexts := names + [read], nexts + [next];
    }
  }

  lemma CleanHasNoGap(name: seq<byte>)
    requires Clean(name)
    ensures NoGap(name)
  {
  }
}

/** The tagged wire format (libevent/event_tagging.c). */
module Tagging {
  import opened Bytes
  import opened Evbuffer
  import opened Options

  const TWO_31 := 0x8000_0000
  const TWO_32 := 0x1_0000_0000
  const TWO_63 := 0x8000_0000_0000_0000
  const TWO_64 := 0x1_0000_0000_0000_0000

  // ---------- integers as nibbles ----------

  /** The significant nibbles of a number, the least significant first; zero has one. */
  ghost function Nibbles(n: nat): (ns: seq<nat>)
    ensures ns != [] && forall i :: 0 <= i < |ns| ==> ns[i] < 16
  {
    if n < 16 then [n] else [n % 16] + Nibbles(n / 16)
  }

  ghost function ValueOf(ns: seq<nat>): nat {
    if ns == [] then 0 else ns[0] + 16 * ValueOf(ns[1..])
  }

  ghost function Pow16(k: nat): nat {
    if k == 0 then 1 else 16 * Pow16(k - 1)
  }

  lemma {:induction false} NibblesValue(n: nat)
    ensures ValueOf(Nibbles(n)) == n
  {
    if n >= 16 {
      NibblesValue(n / 16);
      assert Nibbles(n)[1..] == Nibbles(n / 16);
    } else {
      assert Nibbles(n)[1..] == [];
    }
  }

  lemma {:induction false} NibblesCount(n: nat, k: nat)
    requires n < Pow16(k) && k > 0
    ensures |Nibbles(n)| <= k
  {
    if n >= 16 {
      NibblesCount(n / 16, k - 1);
    }
  }

  lemma Pow16Values()
    ensures Pow16(8) == TWO_32 && Pow16(16) == TWO_64
  {
    assert Pow16(4) == 0x1_0000;
    assert Pow16(8) == TWO_32;
    assert Pow16(12) == 0x1_0000_0000_0000;
  }

  /** The i-th nibble of an encoded integer: the number of nibbles less one, the nibbles, padding. */
  ghost function CodeNibble(ns: seq<nat>, i: nat): nat
    requires ns != []
  {
    if i == 0 then |ns| - 1 else if i <= |ns| then ns[i - 1] else 0
  }

  /** An encoded integer of up to sixteen nibbles. */
  ghost function IntCode(ns: seq<nat>): (c: seq<byte>)
    requires 0 < |ns| <= 16 && forall i :: 0 <= i < |ns| ==> ns[i] < 16
    ensures |c| == |ns| / 2 + 1
    ensures forall j :: 0 <= j < |c| ==> c[j] as int == 16 * CodeNibble(ns, 2 * j) + CodeNibble(ns, 2 * j + 1)
  {
    seq(|ns| / 2 + 1, j requires 0 <= j < |ns| / 2 + 1 => (16 * CodeNibble(ns, 2 * j) + CodeNibble(ns, 2 * j + 1)) as byte)
  }

  /** The i-th nibble of a byte string, the high half of a byte first. */
  function NibbleAt(c: seq<byte>, i: nat): nat
    requires i / 2 < |c|
  {
    if i % 2 == 0 then c[i / 2] as int / 16 else c[i / 2] as int % 16
  }

  /** The nibbles that an encoded integer announces. */
  ghost function Announced(c: seq<byte>): seq<nat>
    requires |c| > 0 && NibbleAt(c, 0) / 2 + 1 <= |c| && (NibbleAt(c, 0) + 1) / 2 + 1 <= |c|
  {
    seq(NibbleAt(c, 0) + 1, i requires 0 <= i <= NibbleAt(c, 0) => NibbleAt(c, i + 1))
  }

  /** A number and the length of its code, or nothing if the code is cut short or too wide. */
  ghost function ReadInt(c: seq<byte>, maxNibbles: nat): Option<(nat, nat)> {
    if c == [] then None
    else
      var n := NibbleAt(c, 0) + 1;
      if n > maxNibbles || n / 2 + 1 > |c| then None else Some((ValueOf(Announced(c)), n / 2 + 1))
  }

  /** An encoded integer reads back, whatever follows it. */
  lemma ReadIntCode(n: nat, maxNibbles: nat, rest: seq<byte>)
    requires maxNibbles <= 16 && maxNibbles > 0 && n < Pow16(maxNibbles)
    ensures |Nibbles(n)| <= maxNibbles
    ensures ReadInt(IntCode(Nibbles(n)) + rest, maxNibbles) == Some((n, |IntCode(Nibbles(n))|))
  {
    hide Nibbles, Pow16, ValueOf, Announced, NibbleAt, CodeNibble;
    NibblesCount(n, maxNibbles);
    NibblesValue(n);
    var ns := Nibbles(n);
    var c := IntCode(ns) + rest;
    CodeNibbles(ns, rest, 0);
    FirstNibble(ns);
    AnnouncedNibbles(c);
    forall i | 0 <= i < |ns| ensures Announced(c)[i] == ns[i] {
      CodeNibbles(ns, rest, i + 1);
      NibbleBehind(ns, i);
    }
    assert Announced(c) == ns;
  }

  lemma FirstNibble(ns: seq<nat>)
    requires ns != []
    ensures CodeNibble(ns, 0) == |ns| - 1
  {
  }

  lemma NibbleBehind(ns: seq<nat>, i: nat)
    requires i < |ns|
    ensures CodeNibble(ns, i + 1) == ns[i]
  {
  }

  lemma CodeNibbles(ns: seq<nat>, rest: seq<byte>, i: nat)
    requires 0 < |ns| <= 16 && (forall k :: 0 <= k < |ns| ==> ns[k] < 16) && i <= |ns|
    ensures i / 2 < |IntCode(ns)| && NibbleAt(IntCode(ns) + rest, i) == CodeNibble(ns, i)
  {
    var j := i / 2;
    assert IntCode(ns)[j] as int == 16 * CodeNibble(ns, 2 * j) + CodeNibble(ns, 2 * j + 1);
    assert CodeNibble(ns, 2 * j) < 16 && CodeNibble(ns, 2 * j + 1) < 16;
    assert i == 2 * j || i == 2 * j + 1;
  }

  /** Digit i of a number to the base 16: its lowest four bits after i shifts by four. */
  ghost function Digit16(n: nat, i: nat): nat {
    if i == 0 then n % 16 else Digit16(n / 16, i - 1)
  }

  lemma {:induction false} NibbleIs(n: nat, i: nat)
    requires i < |Nibbles(n)|
    ensures Nibbles(n)[i] == Digit16(n, i)
  {
    if i > 0 {
      NibbleIs(n / 16, i - 1);
    }
  }

  lemma {:induction false} NibblesNeeded(n: nat)
    ensures var k := |Nibbles(n)|; n < Pow16(k) && (k > 1 ==> Pow16(k - 1) <= n)
  {
    if n >= 16 {
      NibblesNeeded(n / 16);
    }
  }

  /**
   * The code of a number on the bytes: the number of its digits to the base 16, less one, in the high half of
   * the first byte; the digits from the least significant on, low half and high half in turn; a zero if a half is left.
   */
  ghost predicate IntBytes(c: seq<byte>, n: nat, k: nat) {
    && k > 0 && n < Pow16(k) && (k > 1 ==> Pow16(k - 1) <= n) && |c| == k / 2 + 1 && c[0] as int / 16 == k - 1
    && (forall i :: 0 <= i < k ==> DigitAt(c, i) == Digit16(n, i))
    && (k % 2 == 0 ==> c[k / 2] as int % 16 == 0)
  }

  ghost function DigitAt(c: seq<byte>, i: nat): nat
    requires (i + 1) / 2 < |c|
  {
    if i % 2 == 0 then c[i / 2] as int % 16 else c[(i + 1) / 2] as int / 16
  }

  lemma IntCodeIs(n: nat)
    requires |Nibbles(n)| <= 16
    ensures IntBytes(IntCode(Nibbles(n)), n, |Nibbles(n)|)
  {
    hide Nibbles, Pow16, Digit16, CodeNibble;
    var ns := Nibbles(n);
    var c := IntCode(ns);
    NibblesNeeded(n);
    CodeByte(ns, 0);
    forall i | 0 <= i < |ns| ensures DigitAt(c, i) == Digit16(n, i) {
      NibbleIs(n, i);
      CodeByte(ns, (i + 1) / 2);
    }
    CodeByte(ns, |ns| / 2);
  }

  lemma CodeByte(ns: seq<nat>, j: nat)
    requires 0 < |ns| <= 16 && (forall i :: 0 <= i < |ns| ==> ns[i] < 16) && j <= |ns| / 2
    ensures IntCode(ns)[j] as int / 16 == if j == 0 then |ns| - 1 else ns[2 * j - 1]
    ensures IntCode(ns)[j] as int % 16 == if 2 * j < |ns| then ns[2 * j] else 0
  {
    assert CodeNibble(ns, 2 * j) < 16 && CodeNibble(ns, 2 * j + 1) < 16;
  }

  /** The nibbles written so far. */
  ghost function Part(ns: seq<nat>, off: nat, i: nat): nat {
    if 1 <= i < off && i <= |ns| then ns[i - 1] else 0
  }

  ghost predicate PartWritten(data: array<byte>, size: nat, ns: seq<nat>, off: nat)
    reads data
  {
    size < data.Length && forall j :: 0 <= j <= size ==> data[j] as int == 16 * Part(ns, off, 2 * j) + Part(ns, off, 2 * j + 1)
  }

  /** memset. */
  method Zero(data: array<byte>, n: nat)
    requires n <= data.Length
    modifies data
    ensures forall i :: 0 <= i < n ==> data[i] == 0
  {
    var i := 0;
    while i < n
      invariant i <= n && forall k :: 0 <= k < i ==> data[k] == 0
    {
      data[i] := 0;
      i := i + 1;
    }
  }

  /** One nibble into its half of a byte. */
  method PutNibble(data: array<byte>, size: nat, off: nat, nib: nat, ghost ns: seq<nat>)
    requires PartWritten(data, size, ns, off) && 1 <= off <= |ns| && off / 2 <= size && nib == ns[off - 1] < 16
    requires forall i :: 0 <= i < |ns| ==> ns[i] < 16
    modifies data
    ensures PartWritten(data, size, ns, off + 1)
  {
    var j, b := off / 2, data[off / 2] as int;
    assert b == 16 * Part(ns, off, 2 * j) + Part(ns, off, 2 * j + 1);
    data[j] := (if off % 2 == 1 then b / 16 * 16 + nib else nib * 16 + b % 16) as byte;
    forall k | 0 <= k <= size ensures data[k] as int == 16 * Part(ns, off + 1, 2 * k) + Part(ns, off + 1, 2 * k + 1) {
      assert k != j ==> data[k] == old(data[k]);
    }
  }

  lemma NibblesTail(ns: seq<nat>, off: nat, n: nat)
    requires 1 <= off <= |ns| && ns[off - 1..] == Nibbles(n)
    ensures ns[off - 1] == n % 16
    ensures if n < 16 then off == |ns| else off < |ns| && ns[off..] == Nibbles(n / 16)
  {
    assert ns[off - 1] == ns[off - 1..][0];
    assert ns[off - 1..][1..] == ns[off..];
  }

  /** The loop of ENCODE_INT_INTERNAL. */
  method EncodeNibbles(data: array<byte>, number: nat, size: nat) returns (off: nat)
    requires 0 < size <= 8 && |Nibbles(number)| <= 2 * size && data.Length > size
    modifies data
    ensures PartWritten(data, size, Nibbles(number), off) && off == if number == 0 then 1 else |Nibbles(number)| + 1
  {
    hide PartWritten, Nibbles;
    ghost var ns := Nibbles(number);
    Zero(data, size + 1);
    NothingWritten(data, size, ns);
    var n := number;
    off := 1;
    while n != 0
      invariant PartWritten(data, size, ns, off) && 1 <= off
      invariant n != 0 ==> off <= |ns| && ns[off - 1..] == Nibbles(n)
      invariant n == 0 ==> off == if number == 0 then 1 else |ns| + 1
      decreases n
    {
      NibblesTail(ns, off, n);
      PutNibble(data, size, off, n % 16, ns);
      n, off := n / 16, off + 1;
    }
  }

  lemma NothingWritten(data: array<byte>, size: nat, ns: seq<nat>)
    requires size < data.Length && forall i :: 0 <= i <= size ==> data[i] == 0
    ensures PartWritten(data, size, ns, 1)
  {
  }

  /** The number of nibbles into the first one. */
  method PutHeader(data: array<byte>, size: nat, nibbles: nat, ghost ns: seq<nat>, ghost off: nat)
    requires 0 < |ns| <= 16 && (forall i :: 0 <= i < |ns| ==> ns[i] < 16) && |ns| / 2 <= size && nibbles == |ns| - 1
    requires PartWritten(data, size, ns, off) && (off == |ns| + 1 || (off == 1 && ns == [0]))
    modifies data
    ensures data[..|ns| / 2 + 1] == IntCode(ns)
  {
    assert data[0] as int == Part(ns, off, 1) < 16;
    data[0] := (nibbles * 16 + data[0] as int % 16) as byte;
    forall j | 0 <= j < |ns| / 2 + 1 ensures data[j] == IntCode(ns)[j] {
      if j > 0 {
        assert data[j] as int == 16 * Part(ns, off, 2 * j) + Part(ns, off, 2 * j + 1);
      }
    }
  }

  /** encode_int_internal and encode_int64_internal, for numbers of `size` bytes. */
  method EncodeIntInternal(data: array<byte>, number: nat, size: nat) returns (len: nat)
    requires 0 < size <= 8 && number < Pow16(2 * size) && data.Length > size
    modifies data
    ensures |Nibbles(number)| <= 16 && len <= size + 1 && data[..len] == IntCode(Nibbles(number))
    ensures IntBytes(data[..len], number, |Nibbles(number)|)
  {
    hide PartWritten, Pow16, IntBytes;
    NibblesCount(number, 2 * size);
    IntCodeIs(number);
    var off := EncodeNibbles(data, number, size);
    var nibbles := if off > 2 then off - 2 else 0;
    PutHeader(data, size, nibbles, Nibbles(number), off);
    len := (off + 1) / 2;
  }

  // ---------- integers in a buffer ----------

  /** What a buffer holds after data were added to its end; nothing is added to a frozen end. */
  ghost function Grown(frozen: bool, c: seq<byte>, data: seq<byte>): seq<byte> {
    if frozen then c else c + data
  }

  /** What a buffer holds after n bytes were drained; nothing is drained from a frozen front. */
  ghost function Left(frozen: bool, c: seq<byte>, n: nat): seq<byte>
    requires n <= |c|
  {
    if frozen then c else c[n..]
  }

  /** evtag_encode_int and evtag_encode_int64. */
  method EncodeInt(evbuf: EvBuffer, number: nat, size: nat)
    requires evbuf.Valid() && 0 < size <= 8 && number < Pow16(2 * size)
    modifies evbuf, evbuf.spine
    ensures evbuf.Valid() && fresh(evbuf.spine - old(evbuf.spine))
    ensures evbuf.freezeStart == old(evbuf.freezeStart) && evbuf.freezeEnd == old(evbuf.freezeEnd)
    ensures |Nibbles(number)| <= 16 && evbuf.Contents() == Grown(evbuf.freezeEnd, old(evbuf.Contents()), IntCode(Nibbles(number)))
  {
    hide EvBuffer.Valid, EvBuffer.Contents, Pow16, Nibbles, IntCode;
    var data := new byte[size + 1];
    var len := EncodeIntInternal(data, number, size);
    var _ := evbuf.Add(data[..len]);
  }

  lemma {:induction false} ValueBound(ns: seq<nat>)
    requires forall i :: 0 <= i < |ns| ==> ns[i] < 16
    ensures ValueOf(ns) < Pow16(|ns|)
  {
    if ns != [] {
      ValueBound(ns[1..]);
    }
  }

  /** The loop of DECODE_INT_INTERNAL, from the most significant nibble down; no bit is shifted out. */
  method DecodeNibbles(data: seq<byte>, count: nat) returns (number: nat)
    requires |data| > 0 && count == NibbleAt(data, 0) + 1 && count / 2 + 1 <= |data|
    ensures number == ValueOf(Announced(data)) < Pow16(count)
  {
    hide ValueOf, Announced, Pow16, NibbleAt;
    ghost var ns := Announced(data);
    AnnouncedNibbles(data);
    var nibbles: nat := count;
    number := 0;
    ValueEnds(ns);
    while nibbles > 0
      invariant nibbles <= count && number == ValueOf(ns[nibbles..])
    {
      ValueStep(ns, nibbles - 1);
      number := number * 16 + NibbleAt(data, nibbles);
      nibbles := nibbles - 1;
    }
    ValueBound(ns);
  }

  lemma AnnouncedNibbles(c: seq<byte>)
    requires |c| > 0 && (NibbleAt(c, 0) + 1) / 2 + 1 <= |c|
    ensures var ns := Announced(c);
      |ns| == NibbleAt(c, 0) + 1 && forall i :: 0 <= i < |ns| ==> ns[i] == NibbleAt(c, i + 1) < 16
  {
  }

  lemma ValueEnds(ns: seq<nat>)
    ensures ValueOf(ns[|ns|..]) == 0 && ns[0..] == ns
  {
  }

  lemma ValueStep(ns: seq<nat>, k: nat)
    requires k < |ns|
    ensures ValueOf(ns[k..]) == ns[k] + 16 * ValueOf(ns[k + 1..])
  {
    assert ns[k..][1..] == ns[k + 1..];
  }

  /** The bytes of a buffer from an offset on, made contiguous. */
  method Peek(evbuf: EvBuffer, offset: nat, len: nat) returns (data: seq<byte>)
    requires evbuf.Valid() && 0 < len && offset + len <= |evbuf.Contents()|
    modifies evbuf, evbuf.spine
    ensures evbuf.Valid() && fresh(evbuf.spine - old(evbuf.spine)) && evbuf.Contents() == old(evbuf.Contents())
    ensures evbuf.freezeStart == old(evbuf.freezeStart) && evbuf.freezeEnd == old(evbuf.freezeEnd)
    ensures data == evbuf.Contents()[offset..offset + len]
  {
    hide EvBuffer.Valid, EvBuffer.Contents;
    var p := evbuf.Pullup(offset + len);
    ghost var c := evbuf.Contents();
    ghost var all := p.buffer[p.misalign..p.misalign + (offset + len)];
    data := p.buffer[p.misalign + offset..p.misalign + offset + len];
    assert data == all[offset..offset + len] == c[..offset + len][offset..offset + len] == c[offset..offset + len];
  }

  /** decode_int_internal and decode_int64_internal. */
  method DecodeIntInternal(evbuf: EvBuffer, offset: nat, maxNibbles: nat) returns (r: int, number: nat)
    requires evbuf.Valid()
    modifies evbuf, evbuf.spine
    ensures evbuf.Valid() && fresh(evbuf.spine - old(evbuf.spine)) && evbuf.Contents() == old(evbuf.Contents())
    ensures evbuf.freezeStart == old(evbuf.freezeStart) && evbuf.freezeEnd == old(evbuf.freezeEnd)
    ensures var c := evbuf.Contents();
      if offset <= |c| && ReadInt(c[offset..], maxNibbles).Some? then
        (number, r) == ReadInt(c[offset..], maxNibbles).value && offset + r <= |c|
      else r == -1
  {
    hide EvBuffer.Valid, EvBuffer.Contents, ValueOf, Announced, Pow16;
    ghost var c := evbuf.Contents();
    number := 0;
    var total := evbuf.GetLength();
    if total <= offset {
      return -1, 0;
    }
    var head := Peek(evbuf, offset, 1);
    var nibbles := NibbleAt(head, 0) + 1;
    assert head[0] == c[offset..][0];
    if nibbles > maxNibbles || nibbles / 2 + 1 > total - offset {
      return -1, 0;
    }
    var len := nibbles / 2 + 1;
    var data := Peek(evbuf, offset, len);
    SameAnnounced(c[offset..], len);
    assert data == c[offset..][..len];
    number := DecodeNibbles(data, nibbles);
    r := len;
  }

  lemma SameAnnounced(c: seq<byte>, len: nat)
    requires |c| > 0 && len <= |c| && len == (NibbleAt(c, 0) + 1) / 2 + 1
    ensures NibbleAt(c[..len], 0) == NibbleAt(c, 0) && Announced(c[..len]) == Announced(c)
  {
  }

  /** evtag_decode_int and evtag_decode_int64. */
  method DecodeInt(evbuf: EvBuffer, maxNibbles: nat) returns (r: int, number: nat)
    requires evbuf.Valid()
    modifies evbuf, evbuf.spine
    ensures evbuf.Valid() && fresh(evbuf.spine - old(evbuf.spine))
    ensures evbuf.freezeStart == old(evbuf.freezeStart) && evbuf.freezeEnd == old(evbuf.freezeEnd)
    ensures var c := old(evbuf.Contents());
      match ReadInt(c, maxNibbles)
      case None => r == -1 && evbuf.Contents() == c
      case Some((v, n)) => r == 0 && number == v && n <= |c| && evbuf.Contents() == Left(evbuf.freezeStart, c, n)
  {
    hide EvBuffer.Valid, EvBuffer.Contents, ReadInt;
    ghost var c := evbuf.Contents();
    assert c[0..] == c;
    var res;
    res, number := DecodeIntInternal(evbuf, 0, maxNibbles);
    if res != -1 {
      var _ := evbuf.Drain(res);
      assert res == |c| ==> c[res..] == [];
    }
    r := if res == -1 then -1 else 0;
  }

  // ---------- tags ----------

  /** A tag in base 128, the low digits first, all but the last with the high bit set. */
  ghost function TagCode(tag: nat): (c: seq<byte>)
    ensures c != []
  {
    if tag < 128 then [tag as byte] else [(tag % 128 + 128) as byte] + TagCode(tag / 128)
  }

  ghost function Pow128(k: nat): nat {
    if k == 0 then 1 else 128 * Pow128(k - 1)
  }

  lemma {:induction false} TagCodeLength(tag: nat, k: nat)
    requires k > 0 && tag < Pow128(k)
    ensures |TagCode(tag)| <= k
  {
    if tag >= 128 {
      TagCodeLength(tag / 128, k - 1);
    }
  }

  /** The code of a tag on the bytes: digits to the base 128, the least significant first, the high bit set on all but the last. */
  ghost predicate TagBytes(c: seq<byte>, tag: nat) {
    && c != [] && tag < Pow128(|c|) && (|c| > 1 ==> Pow128(|c| - 1) <= tag)
    && forall i :: 0 <= i < |c| ==> c[i] as int == Digit128(tag, i) + if i < |c| - 1 then 128 else 0
  }

  ghost function Digit128(n: nat, i: nat): (d: nat)
    ensures d < 128
  {
    if i == 0 then n % 128 else Digit128(n / 128, i - 1)
  }

  lemma {:induction false} TagCodeIs(tag: nat)
    ensures TagBytes(TagCode(tag), tag)
  {
    var c := TagCode(tag);
    if tag >= 128 {
      TagCodeIs(tag / 128);
      var d := TagCode(tag / 128);
      forall i | 0 <= i < |c| ensures c[i] as int == Digit128(tag, i) + if i < |c| - 1 then 128 else 0 {
        assert i > 0 ==> c[i] == d[i - 1];
      }
    }
  }

  /** The tag at the front of a byte string, with its length; nothing if it does not end. */
  ghost function ReadTag(c: seq<byte>): (r: Option<(nat, nat)>)
    ensures r.Some? ==> 0 < r.value.1 <= |c|
  {
    if c == [] then None
    else if c[0] < 128 then Some((c[0] as nat, 1))
    else
      match ReadTag(c[1..])
      case None => None
      case Some((v, n)) => Some((c[0] as nat - 128 + 128 * v, n + 1))
  }

  /** An encoded tag reads back, whatever follows it. */
  lemma {:induction false} ReadTagCode(tag: nat, rest: seq<byte>)
    ensures ReadTag(TagCode(tag) + rest) == Some((tag, |TagCode(tag)|))
  {
    var c := TagCode(tag) + rest;
    if tag >= 128 {
      ReadTagCode(tag / 128, rest);
      assert c[1..] == TagCode(tag / 128) + rest;
    }
  }

  /** evtag_encode_tag. */
  method EncodeTag(evbuf: EvBuffer, tag: nat) returns (bytes: nat)
    requires evbuf.Valid() && tag < TWO_32
    modifies evbuf, evbuf.spine
    ensures evbuf.Valid() && fresh(evbuf.spine - old(evbuf.spine))
    ensures evbuf.freezeStart == old(evbuf.freezeStart) && evbuf.freezeEnd == old(evbuf.freezeEnd)
    ensures evbuf.Contents() == Grown(evbuf.freezeEnd, old(evbuf.Contents()), TagCode(tag)) && bytes == |TagCode(tag)|
  {
    hide EvBuffer.Valid, EvBuffer.Contents;
    var data := new byte[5];
    bytes := EncodeTagBytes(data, tag);
    var _ := evbuf.Add(data[..bytes]);
  }

  /** The loop of evtag_encode_tag. */
  method EncodeTagBytes(data: array<byte>, tag: nat) returns (bytes: nat)
    requires data.Length == 5 && tag < TWO_32
    modifies data
    ensures bytes <= 5 && data[..bytes] == TagCode(tag) && TagBytes(data[..bytes], tag)
  {
    ghost var c := TagCode(tag);
    assert Pow128(5) > TWO_32 by {
      assert Pow128(3) == 0x20_0000;
    }
    TagCodeLength(tag, 5);
    TagCodeIs(tag);
    hide TagBytes;
    bytes := 0;
    var t, more := tag, true;
    while more
      invariant bytes <= |c| && data[..bytes] == c[..bytes]
      invariant if more then c[bytes..] == TagCode(t) else bytes == |c|
      decreases more, t
    {
      var lower, rest := t % 128, t / 128;
      assert c[bytes] == c[bytes..][0] && (rest != 0 ==> c[bytes..][1..] == c[bytes + 1..]);
      data[bytes] := (if rest != 0 then lower + 128 else lower) as byte;
      assert c[..bytes + 1] == c[..bytes] + [c[bytes]];
      bytes, t, more := bytes + 1, rest, rest != 0;
    }
  }

  /** A tag ends within five bytes, or the buffer does. */
  ghost predicate TagInReach(c: seq<byte>) {
    |c| <= 5 || ReadTag(c[..5]).Some?
  }

  /** The loop of decode_tag_internal looks at byte i. */
  ghost predicate LooksAt(c: seq<byte>, i: nat) {
    i < |c| && forall k :: 0 <= k < i ==> c[k] >= 128
  }

  /** It looks beyond the five bytes that are contiguous for sure if and only if the tag is out of reach. */
  lemma SixthByte(c: seq<byte>)
    ensures LooksAt(c, 5) <==> !TagInReach(c)
  {
    if |c| > 5 {
      EndsIfSmall(c[..5]);
    }
  }

  lemma {:induction false} EndsIfSmall(c: seq<byte>)
    ensures ReadTag(c).Some? <==> exists k :: 0 <= k < |c| && c[k] < 128
  {
    if c != [] && c[0] >= 128 {
      EndsIfSmall(c[1..]);
      if k :| 0 <= k < |c| && c[k] < 128 {
        assert c[1..][k - 1] == c[k];
      }
    }
  }

  /** Six bytes with the high bit set: the loop leaves the contiguous bytes. */
  lemma TagOutOfReach()
    ensures var c: seq<byte> := [128, 128, 128, 128, 128, 128]; LooksAt(c, 5) && !TagInReach(c)
  {
    SixthByte([128, 128, 128, 128, 128, 128]);
  }

  lemma {:induction false} ReadTagPrefix(c: seq<byte>, k: nat)
    requires k <= |c| && ReadTag(c[..k]).Some?
    ensures ReadTag(c) == ReadTag(c[..k])
  {
    if k > 0 && c[0] >= 128 {
      assert c[..k][1..] == c[1..][..k - 1];
      ReadTagPrefix(c[1..], k - 1);
    }
  }

  /** Reading on from position i, when the digits before it make `acc`. */
  ghost predicate ReadSoFar(c: seq<byte>, i: nat, acc: nat) {
    && i <= |c|
    && match ReadTag(c[i..])
       case None => ReadTag(c).None?
       case Some((v, n)) => ReadTag(c) == Some((acc + Scaled(i, v), i + n))
  }

  /** A number moved up by i digits. */
  ghost function Scaled(i: nat, v: nat): nat {
    Pow128(i) * v
  }

  lemma ScaledStep(i: nat, d: nat, v: nat)
    ensures Scaled(i, d + 128 * v) == Scaled(i, d) + Scaled(i + 1, v)
  {
    Distribute(Pow128(i), d, v);
    Pow128Step(i);
  }

  lemma ScaledStart(v: nat)
    ensures Scaled(0, v) == v
  {
  }

  lemma ReadStart(c: seq<byte>)
    ensures ReadSoFar(c, 0, 0)
  {
    assert c[0..] == c;
    if ReadTag(c).Some? {
      ScaledStart(ReadTag(c).value.0);
    }
  }

  lemma ReadStep(c: seq<byte>, i: nat, acc: nat)
    requires ReadSoFar(c, i, acc) && i < |c|
    ensures c[i] < 128 ==> ReadTag(c) == Some((acc + Scaled(i, c[i] as nat), i + 1))
    ensures c[i] >= 128 ==> ReadSoFar(c, i + 1, acc + Scaled(i, c[i] as nat - 128))
  {
    hide ReadTag, Scaled;
    assert c[i..][0] == c[i] && c[i..][1..] == c[i + 1..];
    ReadTagStep(c[i..]);
    if c[i] >= 128 && ReadTag(c[i + 1..]).Some? {
      ScaledStep(i, c[i] as nat - 128, ReadTag(c[i + 1..]).value.0);
    }
  }

  lemma Distribute(p: nat, d: nat, v: nat)
    ensures p * (d + 128 * v) == p * d + (p * 128) * v
  {
  }

  lemma ReadTagStep(c: seq<byte>)
    requires c != []
    ensures c[0] < 128 ==> ReadTag(c) == Some((c[0] as nat, 1))
    ensures c[0] >= 128 ==>
      match ReadTag(c[1..])
      case None => ReadTag(c).None?
      case Some((v, n)) => ReadTag(c) == Some((c[0] as nat - 128 + 128 * v, n + 1))
  {
  }

  lemma WrapSum(a: nat, b: nat)
    ensures (a % TWO_32 + b) % TWO_32 == (a + b) % TWO_32
  {
  }

  /** The next digit above the ones there are. */
  method OrShifted(number: nat, digit: nat, shift: nat, ghost acc: nat, ghost i: nat) returns (r: nat)
    requires number == acc % TWO_32 && shift == Pow128(i)
    ensures r == (acc + Scaled(i, digit)) % TWO_32
  {
    ScaledIs(i, digit, shift);
    WrapSum(acc, digit * shift);
    r := (number + digit * shift) % TWO_32;
  }

  /** The loop of decode_tag_internal; what is shifted out of 32 bits is lost. */
  method DecodeTagBytes(data: seq<byte>) returns (number: nat, count: nat, done: bool)
    ensures done <==> ReadTag(data).Some?
    ensures done ==> (number, count) == (ReadTag(data).value.0 % TWO_32, ReadTag(data).value.1)
  {
    hide ReadTag, ReadSoFar, Pow128, Scaled;
    number, count, done := 0, 0, false;
    ghost var acc: nat := 0;
    var shift: nat := 1;
    ReadStart(data);
    Pow128Step(0);
    while count < |data| && !done
      invariant count <= |data| && shift == Pow128(count) && number == acc % TWO_32
      invariant if done then ReadTag(data) == Some((acc, count)) else ReadSoFar(data, count, acc)
      decreases !done, |data| - count
    {
      var lower := data[count] as nat;
      var digit := lower % 128;
      ReadStep(data, count, acc);
      number := OrShifted(number, digit, shift, acc, count);
      acc := acc + Scaled(count, digit);
      Pow128Step(count);
      count, shift, done := count + 1, shift * 128, lower < 128;
    }
    if !done {
      ReadNothing(data, acc);
    }
  }

  lemma ScaledIs(i: nat, v: nat, p: nat)
    requires p == Pow128(i)
    ensures v * p == Scaled(i, v)
  {
  }

  lemma Pow128Step(k: nat)
    ensures Pow128(0) == 1 && Pow128(k + 1) == Pow128(k) * 128
  {
  }

  lemma ReadNothing(c: seq<byte>, acc: nat)
    requires ReadSoFar(c, |c|, acc)
    ensures ReadTag(c).None?
  {
    assert c[|c|..] == [];
  }

  /** decode_tag_internal, when it does not leave the bytes that it has made contiguous. */
  method DecodeTagInternal(evbuf: EvBuffer, dodrain: bool) returns (r: int, tag: nat)
    requires evbuf.Valid() && TagInReach(evbuf.Contents())
    modifies evbuf, evbuf.spine
    ensures evbuf.Valid() && fresh(evbuf.spine - old(evbuf.spine))
    ensures evbuf.freezeStart == old(evbuf.freezeStart) && evbuf.freezeEnd == old(evbuf.freezeEnd)
    ensures var c := old(evbuf.Contents());
      match ReadTag(c)
      case None => r == -1 && evbuf.Contents() == c
      case Some((v, n)) =>
        r == n && tag == v % TWO_32 && evbuf.Contents() == if dodrain then Left(evbuf.freezeStart, c, n) else c
  {
    hide EvBuffer.Valid, EvBuffer.Contents, ReadTag;
    ghost var c := evbuf.Contents();
    var len := evbuf.GetLength();
    if len == 0 {
      ReadNoTag(c);
      return -1, 0;
    }
    var data := Peek(evbuf, 0, if len < 5 then len else 5);
    assert data == c[..|data|];
    assert |data| == len ==> data == c;
    var number, count, done := DecodeTagBytes(data);
    if !done {
      return -1, 0;
    }
    ReadTagPrefix(c, |data|);
    if dodrain {
      var _ := evbuf.Drain(count);
      assert count == |c| ==> c[count..] == [];
    }
    return count, number;
  }

  lemma ReadNoTag(c: seq<byte>)
    requires c == []
    ensures ReadTag(c).None?
  {
  }

  // ---------- records ----------

  /** A marshalled record. */
  ghost function Record(tag: nat, data: seq<byte>): seq<byte>
    requires |data| < TWO_32
  {
    LengthFits(|data|);
    TagCode(tag) + (IntCode(Nibbles(|data|)) + data)
  }

  lemma LengthFits(n: nat)
    requires n < TWO_32
    ensures |Nibbles(n)| <= 8 && n < Pow16(8)
  {
    Pow16Values();
    NibblesCount(n, 8);
  }

  /** evtag_marshal. */
  method Marshal(evbuf: EvBuffer, tag: nat, data: seq<byte>)
    requires evbuf.Valid() && tag < TWO_32 && |data| < TWO_32
    modifies evbuf, evbuf.spine
    ensures evbuf.Valid() && fresh(evbuf.spine - old(evbuf.spine))
    ensures evbuf.freezeStart == old(evbuf.freezeStart) && evbuf.freezeEnd == old(evbuf.freezeEnd)
    ensures evbuf.Contents() == Grown(evbuf.freezeEnd, old(evbuf.Contents()), Record(tag, data))
  {
    hide EvBuffer.Valid, EvBuffer.Contents, Nibbles, IntCode, TagCode, Pow16;
    LengthFits(|data|);
    ghost var c := evbuf.Contents();
    var _ := EncodeTag(evbuf, tag);
    EncodeInt(evbuf, |data|, 4);
    var _ := evbuf.Add(data);
    assert c + TagCode(tag) + IntCode(Nibbles(|data|)) + data == c + Record(tag, data);
  }

  /** A 32-bit length as an int. */
  function AsInt(n: nat): int {
    if n >= TWO_31 then n - TWO_32 else n
  }

  /** A tag, the length of its payload and the bytes of both. */
  datatype Header = Header(tag: nat, length: nat, size: nat)

  /** The header that evtag_unmarshal_header reads. From a frozen front it reads the length where the tag is. */
  ghost function ReadHeader(frozen: bool, c: seq<byte>): (h: Option<Header>)
    ensures h.Some? ==> h.value.size <= |c|
  {
    match ReadTag(c)
    case None => None
    case Some((t, n)) =>
      match ReadInt(Left(frozen, c, n), 8)
      case None => None
      case Some((len, m)) => Some(Header(t, len, if frozen then 0 else n + m))
  }

  /** evtag_unmarshal_header: on an error the bytes that it has read are gone. */
  method UnmarshalHeader(evbuf: EvBuffer) returns (r: int, tag: nat)
    requires evbuf.Valid() && TagInReach(evbuf.Contents())
    modifies evbuf, evbuf.spine
    ensures evbuf.Valid() && fresh(evbuf.spine - old(evbuf.spine))
    ensures evbuf.freezeStart == old(evbuf.freezeStart) && evbuf.freezeEnd == old(evbuf.freezeEnd)
    ensures evbuf.freezeStart ==> evbuf.Contents() == old(evbuf.Contents())
    ensures var c := old(evbuf.Contents());
      match ReadHeader(evbuf.freezeStart, c)
      case None =>
        r == -1 && evbuf.Contents() == if ReadTag(c).Some? then Left(evbuf.freezeStart, c, ReadTag(c).value.1) else c
      case Some(h) =>
        && tag == h.tag % TWO_32 && evbuf.Contents() == c[h.size..]
        && r == if |c| - h.size < h.length then -1 else AsInt(h.length)
  {
    hide EvBuffer.Valid, EvBuffer.Contents, ReadTag, ReadInt, TagInReach;
    ghost var c := evbuf.Contents();
    r, tag := DecodeTagInternal(evbuf, true);
    if r == -1 {
      return;
    }
    ghost var rest := Left(evbuf.freezeStart, c, r);
    var len: nat;
    r, len := DecodeInt(evbuf, 8);
    if r == -1 {
      return;
    }
    ghost var n, m := ReadTag(c).value.1, ReadInt(rest, 8).value.1;
    assert !evbuf.freezeStart ==> c[n..][m..] == c[n + m..];
    assert c[0..] == c;
    var left := evbuf.GetLength();
    r := if left < len then -1 else AsInt(len);
  }

  /** evtag_peek_length: the length of the whole record, in 32 bits. */
  method PeekLength(evbuf: EvBuffer) returns (r: int, length: nat)
    requires evbuf.Valid() && TagInReach(evbuf.Contents())
    modifies evbuf, evbuf.spine
    ensures evbuf.Valid() && fresh(evbuf.spine - old(evbuf.spine)) && evbuf.Contents() == old(evbuf.Contents())
    ensures evbuf.freezeStart == old(evbuf.freezeStart) && evbuf.freezeEnd == old(evbuf.freezeEnd)
    ensures match ReadHeader(false, evbuf.Contents())
      case None => r == -1
      case Some(h) => r == 0 && length == Low32(h.size + h.length)
  {
    hide EvBuffer.Valid, EvBuffer.Contents, ReadTag, ReadInt, TagInReach;
    length := 0;
    var len, _ := DecodeTagInternal(evbuf, false);
    if len == -1 {
      return -1, 0;
    }
    var res, n := DecodeIntInternal(evbuf, len, 8);
    if res == -1 {
      return -1, 0;
    }
    return 0, Low32(n + res + len);
  }

  /** Conversion to 32 bits. */
  function Low32(n: nat): nat {
    n % TWO_32
  }

  lemma Low32Small(n: nat)
    ensures n < TWO_32 ==> Low32(n) == n
  {
  }

  /**
   * evtag_consume. A payload length of 2^31 or more comes back from the header as a negative int: 2^32 - 1 reads as an
   * error, and any other becomes a size_t with which everything is drained.
   */
  method Consume(evbuf: EvBuffer) returns (r: int)
    requires evbuf.Valid() && TagInReach(evbuf.Contents())
    modifies evbuf, evbuf.spine
    ensures evbuf.Valid() && fresh(evbuf.spine - old(evbuf.spine))
    ensures evbuf.freezeStart == old(evbuf.freezeStart) && evbuf.freezeEnd == old(evbuf.freezeEnd)
    ensures evbuf.freezeStart ==> evbuf.Contents() == old(evbuf.Contents())
    ensures var c := old(evbuf.Contents());
      match ReadHeader(evbuf.freezeStart, c)
      case None =>
        r == -1 && evbuf.Contents() == if ReadTag(c).Some? then Left(evbuf.freezeStart, c, ReadTag(c).value.1) else c
      case Some(h) =>
        if |c| < h.size + h.length || h.length == TWO_32 - 1 then r == -1 && evbuf.Contents() == c[h.size..]
        else
          && r == 0
          && (h.length < TWO_31 ==> evbuf.Contents() == Left(evbuf.freezeStart, c[h.size..], h.length))
          && (h.length >= TWO_31 && |c| < TWO_63 ==> evbuf.Contents() == if evbuf.freezeStart then c else [])
  {
    hide EvBuffer.Valid, EvBuffer.Contents, ReadHeader, TagInReach, ReadTag, Left;
    ghost var c := evbuf.Contents();
    HeaderLength(evbuf.freezeStart, c);
    var len, _ := UnmarshalHeader(evbuf);
    if len == -1 {
      return -1;
    }
    DrainInt(evbuf, len);
    return 0;
  }

  /** evbuffer_drain with an int; a negative one becomes a size_t. */
  method DrainInt(evbuf: EvBuffer, len: int)
    requires evbuf.Valid() && -TWO_31 <= len <= |evbuf.Contents()|
    modifies evbuf, evbuf.spine
    ensures evbuf.Valid() && fresh(evbuf.spine - old(evbuf.spine))
    ensures evbuf.freezeStart == old(evbuf.freezeStart) && evbuf.freezeEnd == old(evbuf.freezeEnd)
    ensures evbuf.freezeStart ==> evbuf.Contents() == old(evbuf.Contents())
    ensures len >= 0 ==> evbuf.Contents() == Left(evbuf.freezeStart, old(evbuf.Contents()), len)
    ensures len < 0 && |old(evbuf.Contents())| < TWO_63 ==>
      evbuf.Contents() == if evbuf.freezeStart then old(evbuf.Contents()) else []
  {
    hide EvBuffer.Valid, EvBuffer.Contents;
    ghost var c := evbuf.Contents();
    var _ := evbuf.Drain(if len < 0 then len + TWO_64 else len);
    assert len == |c| ==> c[len..] == [];
  }

  /** A length has eight nibbles at most; of a frozen buffer no byte is gone. */
  lemma HeaderLength(frozen: bool, c: seq<byte>)
    ensures ReadHeader(frozen, c).Some? ==> ReadHeader(frozen, c).value.length < TWO_32
    ensures ReadHeader(frozen, c).Some? && frozen ==> c[ReadHeader(frozen, c).value.size..] == c
  {
    if ReadHeader(frozen, c).Some? {
      var rest := Left(frozen, c, ReadTag(c).value.1);
      AnnouncedNibbles(rest);
      ValueBound(Announced(rest));
      Pow16Values();
      Pow16Monotone(|Announced(rest)|, 8);
    }
  }

  lemma {:induction false} Pow16Monotone(a: nat, b: nat)
    requires a <= b
    ensures Pow16(a) <= Pow16(b)
  {
    if a < b {
      Pow16Monotone(a, b - 1);
    }
  }

  /**
   * evtag_consume takes what evtag_peek_length announces, of every total that fits in 32 bits, if and only if the
   * payload is shorter than 2^31 or nothing follows the record. A buffer with a frozen front loses nothing at all.
   */
  method PeekThenConsume(evbuf: EvBuffer) returns (r: int, length: nat)
    requires evbuf.Valid() && TagInReach(evbuf.Contents())
    modifies evbuf, evbuf.spine
    ensures evbuf.Valid()
    ensures old(evbuf.freezeStart) ==> evbuf.Contents() == old(evbuf.Contents())
    ensures !old(evbuf.freezeStart) ==>
      var c := old(evbuf.Contents());
      match ReadHeader(false, c)
      case None => r == -1
      case Some(h) =>
        && (r == 0 <==> h.size + h.length <= |c| && h.length != TWO_32 - 1)
        && (r == 0 && h.size + h.length < TWO_32 && |c| < TWO_63 ==>
            && length == h.size + h.length <= |c|
            && (evbuf.Contents() == c[length..] <==> h.length < TWO_31 || |c| == length))
  {
    hide EvBuffer.Valid, EvBuffer.Contents, ReadHeader, TagInReach, ReadTag, Low32;
    ghost var c := evbuf.Contents();
    r, length := PeekLength(evbuf);
    if r == 0 {
      r := Consume(evbuf);
      Low32Small(ReadHeader(false, c).value.size + ReadHeader(false, c).value.length);
      RestOf(c, ReadHeader(false, c).value);
    }
  }

  /** What is left behind a complete record, and how long that is. */
  lemma RestOf(c: seq<byte>, h: Header)
    requires h.size <= |c|
    ensures h.size + h.length <= |c| ==> c[h.size..][h.length..] == c[h.size + h.length..]
    ensures h.size + h.length <= |c| ==> |c[h.size + h.length..]| == |c| - h.size - h.length
  {
  }

  /** A record of 2^31 zeros with something behind it: the total fits in 32 bits, yet evtag_consume takes more. */
  lemma LongRecordTakesMore(rest: seq<byte>)
    requires rest != []
    ensures var c := Record(0, seq(TWO_31, _ => 0)) + rest;
      && TagInReach(c) && ReadHeader(false, c).Some?
      && var h := ReadHeader(false, c).value; h.length == TWO_31 && h.size + h.length < TWO_32 && h.size + h.length < |c|
  {
    hide ReadHeader, TagInReach, IntCode, Nibbles;
    var data := seq(TWO_31, _ => 0);
    LengthFits(|data|);
    ReadRecord(0, data, rest);
    assert |TagCode(0)| == 1 && |IntCode(Nibbles(|data|))| <= 5;
    var c := Record(0, data) + rest;
    assert |c| == |TagCode(0)| + |IntCode(Nibbles(|data|))| + |data| + |rest|;
  }

  /** The tail of evtag_unmarshal. */
  method MovePayload(src: EvBuffer, dst: EvBuffer, len: nat) returns (r: int)
    requires src.Valid() && dst.Valid() && src != dst && src.Apart(dst) && len <= |src.Contents()|
    modifies src, src.spine, dst, dst.spine
    ensures src.Valid() && dst.Valid() && src.Apart(dst)
    ensures fresh(src.spine - old(src.spine)) && fresh(dst.spine - old(dst.spine))
    ensures src.freezeStart == old(src.freezeStart) && src.freezeEnd == old(src.freezeEnd)
    ensures dst.freezeStart == old(dst.freezeStart) && dst.freezeEnd == old(dst.freezeEnd)
    ensures r == if dst.freezeEnd then -1 else len
    ensures dst.Contents() == Grown(dst.freezeEnd, old(dst.Contents()), old(src.Contents())[..len])
    ensures src.Contents() == Left(src.freezeStart || dst.freezeEnd, old(src.Contents()), len)
  {
    hide EvBuffer.Valid, EvBuffer.Contents;
    ghost var c := src.Contents();
    var data := [];
    if len > 0 {
      data := Peek(src, 0, len);
    }
    assert data == c[..len];
    var added := dst.Add(data);
    if added == -1 {
      return -1;
    }
    var _ := src.Drain(len);
    assert len == |c| ==> c[len..] == [];
    return len;
  }

  /** evtag_unmarshal, unless a complete payload has 2^31 to 2^32 - 2 bytes. */
  method Unmarshal(src: EvBuffer, dst: EvBuffer) returns (r: int, tag: nat)
    requires src.Valid() && dst.Valid() && src != dst && src.Apart(dst) && TagInReach(src.Contents())
    requires match ReadHeader(src.freezeStart, src.Contents())
      case None => true
      case Some(h) => h.length < TWO_31 || h.length == TWO_32 - 1 || |src.Contents()| < h.size + h.length
    modifies src, src.spine, dst, dst.spine
    ensures src.Valid() && dst.Valid() && src.Apart(dst)
    ensures fresh(src.spine - old(src.spine)) && fresh(dst.spine - old(dst.spine))
    ensures src.freezeStart == old(src.freezeStart) && src.freezeEnd == old(src.freezeEnd)
    ensures dst.freezeStart == old(dst.freezeStart) && dst.freezeEnd == old(dst.freezeEnd)
    ensures var c := old(src.Contents());
      match ReadHeader(src.freezeStart, c)
      case None => r == -1 && dst.Contents() == old(dst.Contents())
      case Some(h) =>
        if |c| < h.size + h.length || h.length == TWO_32 - 1 then
          r == -1 && dst.Contents() == old(dst.Contents()) && src.Contents() == c[h.size..]
        else
          && r == (if dst.freezeEnd then -1 else h.length) && tag == h.tag % TWO_32
          && dst.Contents() == Grown(dst.freezeEnd, old(dst.Contents()), c[h.size..h.size + h.length])
          && src.Contents() == Left(src.freezeStart || dst.freezeEnd, c[h.size..], h.length)
  {
    hide EvBuffer.Valid, EvBuffer.Contents, ReadHeader, TagInReach;
    ghost var c := src.Contents();
    HeaderLength(src.freezeStart, c);
    r, tag := UnmarshalHeader(src);
    if r == -1 {
      return;
    }
    ghost var h := ReadHeader(src.freezeStart, c).value;
    assert c[h.size..][..h.length] == c[h.size..h.size + h.length];
    r := MovePayload(src, dst, r);
  }

  // ---------- streams ----------

  datatype Rec = Rec(tag: nat, data: seq<byte>)

  ghost predicate RecsOk(rs: seq<Rec>) {
    forall i :: 0 <= i < |rs| ==> rs[i].tag < TWO_32 && |rs[i].data| < TWO_31
  }

  ghost function Stream(rs: seq<Rec>): seq<byte>
    requires RecsOk(rs)
  {
    if rs == [] then [] else Record(rs[0].tag, rs[0].data) + Stream(rs[1..])
  }

  /** A record at the front of a byte string is read back, whatever follows it. */
  lemma ReadRecord(tag: nat, data: seq<byte>, rest: seq<byte>)
    requires tag < TWO_32 && |data| < TWO_32
    ensures var c := Record(tag, data) + rest;
      && TagInReach(c) && ReadHeader(false, c).Some?
      && var h := ReadHeader(false, c).value;
         && h.tag == tag && h.length == |data| && h.size + h.length <= |c|
         && c[h.size..h.size + h.length] == data && c[h.size + h.length..] == rest
  {
    hide ReadTag, ReadInt, TagCode, IntCode, Nibbles, Pow16, Pow128;
    LengthFits(|data|);
    var t, l := TagCode(tag), IntCode(Nibbles(|data|));
    var c := Record(tag, data) + rest;
    var behind := l + (data + rest);
    assert c == t + behind && c[|t|..] == behind;
    ReadTagCode(tag, behind);
    ReadIntCode(|data|, 8, data + rest);
    assert c[|t| + |l|..] == data + rest;
    TagShort(tag, behind);
  }

  lemma TagShort(tag: nat, rest: seq<byte>)
    requires tag < TWO_32
    ensures TagInReach(TagCode(tag) + rest)
  {
    assert Pow128(5) > TWO_32 by {
      assert Pow128(3) == 0x20_0000;
    }
    TagCodeLength(tag, 5);
    var t := TagCode(tag);
    if |t + rest| > 5 {
      assert (t + rest)[..5] == t + rest[..5 - |t|];
      ReadTagCode(tag, rest[..5 - |t|]);
    }
  }

  /** Marshal a list of records. */
  method MarshalAll(evbuf: EvBuffer, rs: seq<Rec>)
    requires evbuf.Valid() && RecsOk(rs)
    modifies evbuf, evbuf.spine
    ensures evbuf.Valid() && fresh(evbuf.spine - old(evbuf.spine))
    ensures evbuf.freezeStart == old(evbuf.freezeStart) && evbuf.freezeEnd == old(evbuf.freezeEnd)
    ensures evbuf.Contents() == Grown(evbuf.freezeEnd, old(evbuf.Contents()), Stream(rs))
  {
    hide EvBuffer.Valid, EvBuffer.Contents, Record;
    ghost var c := evbuf.Contents();
    var k := 0;
    while k < |rs|
      invariant k <= |rs| && evbuf.Valid() && fresh(evbuf.spine - old(evbuf.spine))
      invariant evbuf.freezeStart == old(evbuf.freezeStart) && evbuf.freezeEnd == old(evbuf.freezeEnd)
      invariant if evbuf.freezeEnd then evbuf.Contents() == c else c + Stream(rs) == evbuf.Contents() + Stream(rs[k..])
    {
      ghost var before := evbuf.Contents();
      Marshal(evbuf, rs[k].tag, rs[k].data);
      assert rs[k..][1..] == rs[k + 1..];
      assert !evbuf.freezeEnd ==>
        before + (Record(rs[k].tag, rs[k].data) + Stream(rs[k + 1..])) == evbuf.Contents() + Stream(rs[k + 1..]);
      k := k + 1;
    }
  }

  lemma StreamGoesOn(rs: seq<Rec>, k: nat)
    requires RecsOk(rs) && k <= |rs| && Stream(rs[k..]) != []
    ensures k < |rs|
  {
  }

  lemma StreamEnds(rs: seq<Rec>, k: nat)
    requires RecsOk(rs) && k <= |rs| && Stream(rs[k..]) == []
    ensures k == |rs|
  {
  }

  /** The next record of a stream, by way of a buffer of its own. */
  method UnmarshalOne(evbuf: EvBuffer) returns (rec: Rec)
    requires evbuf.Valid() && !evbuf.freezeStart && TagInReach(evbuf.Contents()) && ReadHeader(false, evbuf.Contents()).Some?
    requires var h := ReadHeader(false, evbuf.Contents()).value; h.length < TWO_31 && h.size + h.length <= |evbuf.Contents()|
    modifies evbuf, evbuf.spine
    ensures evbuf.Valid() && !evbuf.freezeStart && fresh(evbuf.spine - old(evbuf.spine))
    ensures var c, h := old(evbuf.Contents()), old(ReadHeader(false, evbuf.Contents()).value);
      rec == Rec(h.tag % TWO_32, c[h.size..h.size + h.length]) && evbuf.Contents() == c[h.size + h.length..]
  {
    hide EvBuffer.Valid, EvBuffer.Contents, ReadHeader, TagInReach;
    var dst := new EvBuffer();
    var r, tag := Unmarshal(evbuf, dst);
    var data := [];
    if r > 0 {
      data := Peek(dst, 0, r);
    }
    rec := Rec(tag, data);
  }

  /** Unmarshalling what was marshalled gives the same records. */
  method UnmarshalAll(evbuf: EvBuffer, ghost rs: seq<Rec>) returns (out: seq<Rec>)
    requires evbuf.Valid() && !evbuf.freezeStart && RecsOk(rs) && evbuf.Contents() == Stream(rs)
    modifies evbuf, evbuf.spine
    ensures evbuf.Valid() && evbuf.Contents() == [] && out == rs
  {
    hide EvBuffer.Valid, EvBuffer.Contents, Record, ReadHeader, TagInReach;
    out := [];
    assert rs[0..] == rs;
    var len := evbuf.GetLength();
    while len > 0
      invariant evbuf.Valid() && !evbuf.freezeStart && fresh(evbuf.spine - old(evbuf.spine))
      invariant |out| <= |rs| && out == rs[..|out|] && evbuf.Contents() == Stream(rs[|out|..]) && len == |evbuf.Contents()|
      decreases |rs| - |out|
    {
      StreamGoesOn(rs, |out|);
      ghost var k, c := |out|, evbuf.Contents();
      assert rs[k..][1..] == rs[k + 1..];
      ReadRecord(rs[k].tag, rs[k].data, Stream(rs[k + 1..]));
      var rec := UnmarshalOne(evbuf);
      out := out + [rec];
      len := evbuf.GetLength();
    }
    StreamEnds(rs, |out|);
  }
}

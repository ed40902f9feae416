/** The chunked byte buffer of libevent/buffer.c, as a mutable linked list of chunks. */
module Evbuffer {
  import opened Bytes

  const MIN_BUFFER_SIZE := 1024
  const EVBUFFER_CHAIN_SIZE := 48
  const EVBUFFER_CHAIN_MAX_AUTO_SIZE := 4096
  const MAX_TO_REALIGN_IN_EXPAND := 2048

  /** One chunk: `off` bytes of data starting at `misalign` in a buffer of fixed capacity. */
  class Chain {
    const buffer: array<byte>
    var next: Chain?
    var misalign: nat
    var off: nat

    ghost var data: seq<byte>

    ghost predicate Ok()
      reads this, buffer
    {
      && 0 < buffer.Length
      && misalign + off <= buffer.Length
      && |data| == off
      && forall k :: 0 <= k < |data| ==> data[k] == buffer[misalign + k]
    }

    constructor (size: nat)
      ensures next == null && misalign == 0 && off == 0
      ensures buffer.Length >= size && Ok() && data == [] && fresh(buffer)
    {
      var toAlloc := MIN_BUFFER_SIZE;
      while toAlloc < size + EVBUFFER_CHAIN_SIZE
        invariant toAlloc >= MIN_BUFFER_SIZE
      {
        toAlloc := toAlloc * 2;
      }
      buffer := new byte[toAlloc - EVBUFFER_CHAIN_SIZE];
      next, misalign, off, data := null, 0, 0, [];
    }

    /** memcpy of `src` to buffer + at. */
    method Write(at: nat, src: seq<byte>)
      requires at + |src| <= buffer.Length
      modifies buffer
      ensures forall k :: 0 <= k < buffer.Length ==>
        buffer[k] == if at <= k < at + |src| then src[k - at] else old(buffer[k])
    {
      forall i | 0 <= i < |src| {
        buffer[at + i] := src[i];
      }
    }

    /** Copy `src` behind the data. */
    method Append(src: seq<byte>)
      requires Ok() && misalign + off + |src| <= buffer.Length
      modifies this`off, this`data, buffer
      ensures Ok() && data == old(data) + src
    {
      Write(misalign + off, src);
      off := off + |src|;
      data := data + src;
    }

    /** Copy `src` in front of the data. */
    method Prepend(src: seq<byte>)
      requires Ok() && |src| <= misalign
      modifies this`off, this`misalign, this`data, buffer
      ensures Ok() && data == src + old(data) && misalign == old(misalign) - |src|
    {
      Write(misalign - |src|, src);
      off := off + |src|;
      misalign := misalign - |src|;
      data := src + data;
    }

    /** Drop the first n bytes. */
    method Consume(n: nat)
      requires Ok() && n <= off
      modifies this`off, this`misalign, this`data
      ensures Ok() && data == old(data)[n..]
    {
      misalign := misalign + n;
      off := off - n;
      data := data[n..];
    }

    /** memcpy of the first n bytes of data to dst + at. */
    method ReadInto(n: nat, dst: array<byte>, at: nat)
      requires Ok() && n <= off && at + n <= dst.Length && dst != buffer
      modifies dst
      ensures forall i :: 0 <= i < dst.Length ==> dst[i] == if at <= i < at + n then data[i - at] else old(dst[i])
    {
      forall i | 0 <= i < n {
        dst[at + i] := buffer[misalign + i];
      }
    }

    /** evbuffer_chain_align: move the data to the start of the buffer. */
    method Align()
      requires Ok()
      modifies this`misalign, buffer
      ensures misalign == 0 && Ok()
    {
      Write(0, buffer[misalign..misalign + off]);
      misalign := 0;
    }

    /** evbuffer_chain_should_realign. */
    predicate ShouldRealign(datlen: nat)
      reads this
    {
      && buffer.Length - off >= datlen
      && off < buffer.Length / 2
      && off <= MAX_TO_REALIGN_IN_EXPAND
    }
  }

  /** A new chain of at least `size` bytes with `data` at its start. */
  method BackChain(size: nat, data: seq<byte>) returns (tmp: Chain)
    requires |data| <= size
    ensures fresh(tmp) && fresh(tmp.buffer) && tmp.Ok() && tmp.data == data && tmp.next == null
  {
    tmp := new Chain(size);
    tmp.Append(data);
  }

  /** A new chain with `data` at its end, in front of `next`. */
  method FrontChain(data: seq<byte>, next: Chain?) returns (tmp: Chain)
    ensures fresh(tmp) && fresh(tmp.buffer) && tmp.Ok() && tmp.data == data && tmp.next == next
  {
    tmp := new Chain(|data|);
    tmp.next := next;
    tmp.misalign := tmp.buffer.Length;
    tmp.Prepend(data);
  }

  // ---------- runs of linked chains ----------

  /** The chains `cs`, within `repr`, are linked in this order and lead to `tail`; each holds its piece. */
  ghost predicate Segment(cs: seq<Chain>, ps: seq<seq<byte>>, tail: Chain?, repr: set<object>)
    reads repr
  {
    && |cs| == |ps|
    && (forall i :: 0 <= i < |cs| ==> cs[i] in repr && cs[i].buffer in repr && cs[i].Ok() && cs[i].data == ps[i])
    && (forall i, j {:trigger cs[i].buffer, cs[j].buffer} :: 0 <= i < j < |cs| ==> cs[i].buffer != cs[j].buffer)
    && (forall i {:trigger cs[i].next} :: 0 <= i < |cs| - 1 ==> cs[i].next == cs[i + 1])
    && (cs != [] ==> cs[|cs| - 1].next == tail)
  }

  ghost predicate AllFull(ps: seq<seq<byte>>) {
    forall i :: 0 <= i < |ps| ==> ps[i] != []
  }

  lemma AllFullConcat(ps: seq<seq<byte>>, qs: seq<seq<byte>>)
    ensures AllFull(ps + qs) <==> AllFull(ps) && AllFull(qs)
  {
    if AllFull(ps + qs) {
      forall i | 0 <= i < |ps| ensures ps[i] != [] {
        assert (ps + qs)[i] == ps[i];
      }
      forall i | 0 <= i < |qs| ensures qs[i] != [] {
        assert (ps + qs)[|ps| + i] == qs[i];
      }
    }
  }

  lemma AllFullTail(ps: seq<seq<byte>>, k: nat, p: seq<byte>)
    requires k < |ps|
    ensures AllFull(ps) && p != [] ==> AllFull(ps[k..][0 := p])
  {
  }

  lemma AllFullSuffix(ps: seq<seq<byte>>, k: nat)
    requires k <= |ps|
    ensures AllFull(ps) ==> AllFull(ps[..k]) && AllFull(ps[k..])
  {
  }

  lemma OneFull(p: seq<byte>)
    ensures AllFull([p]) <==> p != []
  {
    assert [p][0] == p;
  }

  ghost function Head(cs: seq<Chain>, tail: Chain?): Chain? {
    if cs == [] then tail else cs[0]
  }

  lemma HeadIs(cs: seq<Chain>)
    requires cs != []
    ensures Head(cs, null) == cs[0]
  {
  }

  lemma JoinEnds(cs: seq<Chain>, ds: seq<Chain>)
    requires cs != [] && ds != []
    ensures Head(cs + ds, null) == cs[0] && (cs + ds)[|cs + ds| - 1] == ds[|ds| - 1]
  {
  }

  lemma SegmentConcat(cs: seq<Chain>, ps: seq<seq<byte>>, r: set<object>,
                      cs': seq<Chain>, ps': seq<seq<byte>>, tail: Chain?, r': set<object>)
    requires Segment(cs, ps, Head(cs', tail), r) && Segment(cs', ps', tail, r') && r !! r'
    ensures Segment(cs + cs', ps + ps', tail, r + r')
  {
  }

  /** The chains of a list and their buffers. */
  ghost function Footprint(cs: seq<Chain>): set<object> {
    (set c | c in cs :: c as object) + (set c | c in cs :: c.buffer as object)
  }

  /** The first k chains, cut off from the others. */
  lemma SegmentApart(cs: seq<Chain>, ps: seq<seq<byte>>, tail: Chain?, r: set<object>, k: nat)
    requires Segment(cs, ps, tail, r) && 0 < k < |cs|
    ensures var fp := Footprint(cs[..k]);
      && fp <= r
      && Segment(cs[..k], ps[..k], cs[k], fp)
      && Segment(cs[k..], ps[k..], tail, r - fp)
      && cs[k - 1] in fp
  {
    hide Footprint;
    var fp := Footprint(cs[..k]);
    assert cs[k - 1] == cs[..k][k - 1];
    forall i | 0 <= i < k
      ensures cs[i] in fp && cs[i].buffer in fp
    {
      assert cs[i] == cs[..k][i];
      InFootprint(cs[..k], cs[i]);
    }
    forall o | o in fp
      ensures exists i :: 0 <= i < k && (o == cs[i] || o == cs[i].buffer)
    {
      var i := FromFootprint(cs[..k], o);
      assert cs[i] == cs[..k][i];
    }
    BackApart(cs, ps, tail, r, k, fp);
  }

  lemma InFootprint(cs: seq<Chain>, c: Chain)
    requires c in cs
    ensures c in Footprint(cs) && c.buffer in Footprint(cs)
  {
  }

  lemma FromFootprint(cs: seq<Chain>, o: object) returns (i: nat)
    requires o in Footprint(cs)
    ensures i < |cs| && (o == cs[i] || o == cs[i].buffer)
  {
    var c :| c in cs && (o == c || o == c.buffer);
    i :| 0 <= i < |cs| && cs[i] == c;
  }

  /** Chains k.. are linked outside the footprint of the chains before them. */
  lemma BackApart(cs: seq<Chain>, ps: seq<seq<byte>>, tail: Chain?, r: set<object>, k: nat, fp: set<object>)
    requires Segment(cs, ps, tail, r) && k < |cs|
    requires forall o :: o in fp ==> exists i :: 0 <= i < k && (o == cs[i] || o == cs[i].buffer)
    ensures Segment(cs[k..], ps[k..], tail, r - fp)
  {
    forall j | k <= j < |cs|
      ensures cs[j] !in fp && cs[j].buffer !in fp
    {
    }
  }

  lemma SegmentOne(c: Chain)
    requires c.Ok()
    ensures Segment([c], [c.data], c.next, {c, c.buffer})
  {
  }

  /** Chain k of a segment. */
  lemma SegmentAt(cs: seq<Chain>, ps: seq<seq<byte>>, tail: Chain?, r: set<object>, k: nat)
    requires Segment(cs, ps, tail, r) && k < |cs|
    ensures |ps| == |cs| && cs[k] in r && cs[k].buffer in r && cs[k].Ok() && cs[k].data == ps[k] && cs[k].off == |ps[k]|
    ensures cs[k].next == if k + 1 < |cs| then cs[k + 1] else tail
    ensures forall j :: 0 <= j < |cs| ==> (cs[j] == cs[k] <==> j == k)
  {
    forall j | 0 <= j < |cs| && j != k ensures cs[j].buffer != cs[k].buffer {
      if j < k {
        assert cs[j].buffer != cs[k].buffer;
      } else {
        assert cs[k].buffer != cs[j].buffer;
      }
    }
  }

  lemma SegmentSplit(cs: seq<Chain>, ps: seq<seq<byte>>, tail: Chain?, r: set<object>, k: nat)
    requires Segment(cs, ps, tail, r) && k <= |cs|
    ensures Segment(cs[..k], ps[..k], Head(cs[k..], tail), r)
    ensures Segment(cs[k..], ps[k..], tail, r)
  {
  }

  /** A segment with chain k taken out of the footprint, so that it may change. */
  ghost predicate Around(cs: seq<Chain>, ps: seq<seq<byte>>, tail: Chain?, repr: set<object>, k: nat)
    reads repr
  {
    && |cs| == |ps|
    && (forall i :: 0 <= i < |cs| && i != k ==>
        cs[i] in repr && cs[i].buffer in repr && cs[i].Ok() && cs[i].data == ps[i])
    && (forall i, j {:trigger cs[i].buffer, cs[j].buffer} :: 0 <= i < j < |cs| ==> cs[i].buffer != cs[j].buffer)
    && (forall i {:trigger cs[i].next} :: 0 <= i < |cs| - 1 && i != k ==> cs[i].next == cs[i + 1])
    && (cs != [] && k != |cs| - 1 ==> cs[|cs| - 1].next == tail)
  }

  lemma TakeOut(cs: seq<Chain>, ps: seq<seq<byte>>, tail: Chain?, r: set<object>, k: nat)
    requires k < |cs| && Segment(cs, ps, tail, r)
    ensures Around(cs, ps, tail, r - {cs[k], cs[k].buffer}, k)
    ensures cs[k] in r && cs[k].buffer in r && cs[k].Ok() && cs[k].data == ps[k]
    ensures cs[k].next == if k + 1 < |cs| then cs[k + 1] else tail
  {
  }

  lemma AroundTail(cs: seq<Chain>, ps: seq<seq<byte>>, tail: Chain?, r: set<object>, tail': Chain?)
    requires cs != [] && Around(cs, ps, tail, r, |cs| - 1)
    ensures Around(cs, ps, tail', r, |cs| - 1)
  {
  }

  lemma PutBack(cs: seq<Chain>, ps: seq<seq<byte>>, tail: Chain?, r: set<object>, k: nat)
    requires k < |cs| && Around(cs, ps, tail, r - {cs[k], cs[k].buffer}, k)
    requires cs[k] in r && cs[k].buffer in r && cs[k].Ok()
    requires cs[k].next == if k + 1 < |cs| then cs[k + 1] else tail
    ensures Segment(cs, ps[k := cs[k].data], tail, r)
  {
  }

  /** Which `next` field a chain pointer-pointer designates: that of the buffer, or of a chain. */
  datatype Link = AtFirst | After(chain: Chain)

  class EvBuffer {
    var first: Chain?
    var last: Chain?
    var lastWithDatap: Link
    var totalLen: nat
    var freezeStart: bool
    var freezeEnd: bool

    ghost var chains: seq<Chain>
    ghost var pieces: seq<seq<byte>>
    ghost var spine: set<object>

    static ghost function LastLink(cs: seq<Chain>): Link
    {
      if |cs| <= 1 then AtFirst else After(cs[|cs| - 2])
    }

    static lemma LastLinkJoin(cs: seq<Chain>, ds: seq<Chain>)
      requires cs != [] && ds != []
      ensures LastLink(ds) == AtFirst <==> |ds| == 1
      ensures LastLink(cs + ds) == if LastLink(ds) == AtFirst then After(cs[|cs| - 1]) else LastLink(ds)
    {
    }

    static lemma SuffixEnds(cs: seq<Chain>, k: nat)
      requires k < |cs|
      ensures Head(cs[k..], null) == cs[k] && cs[k..][|cs[k..]| - 1] == cs[|cs| - 1]
      ensures LastLink(cs[k..]) == if k + 1 < |cs| then LastLink(cs) else AtFirst
    {
    }

    /** The representation invariant, but for the cached length and last_with_datap. */
    ghost predicate Shape()
      reads this, spine
    {
      && this !in spine
      && Segment(chains, pieces, null, spine)
      && first == Head(chains, null)
      && last == (if chains == [] then null else chains[|chains| - 1])
      && (|chains| > 1 ==> AllFull(pieces))
    }

    /** The representation invariant, with `len` in place of the cached length. */
    ghost predicate ValidAt(len: int)
      reads this, spine
    {
      && Shape()
      && len == |Flat(pieces)|
      && lastWithDatap == LastLink(chains)
    }

    ghost predicate Valid()
      reads this, spine
    {
      ValidAt(totalLen)
    }

    ghost function Contents(): seq<byte>
      reads this
    {
      Flat(pieces)
    }

    /** The chain that a link leads to. */
    function Deref(l: Link): Chain?
      reads this, if l.After? then {l.chain} else {}
    {
      match l
      case AtFirst => first
      case After(c) => c.next
    }

    /** Assignment through a link. */
    method Store(l: Link, c: Chain?)
      modifies this`first, (if l.After? then {l.chain} else {})`next
      ensures l == AtFirst ==> first == c
      ensures l.After? ==> l.chain.next == c && first == old(first)
    {
      match l
      case AtFirst => first := c;
      case After(o) => o.next := c;
    }

    constructor ()
      ensures Valid() && Contents() == [] && spine == {}
      ensures !freezeStart && !freezeEnd
    {
      first, last, lastWithDatap, totalLen := null, null, AtFirst, 0;
      freezeStart, freezeEnd := false, false;
      chains, pieces, spine := [], [], {};
    }

    /** The first link, from last_with_datap on, that leads to no chain or to an empty one. */
    method FirstEmptyLink() returns (ch: Link)
      requires Valid()
      ensures ch == if Flat(pieces) == [] then AtFirst else After(last)
      ensures Flat(pieces) == [] ==> |chains| <= 1
      ensures Flat(pieces) != [] ==> AllFull(pieces)
    {
      ch := lastWithDatap;
      while Deref(ch) != null && Deref(ch).off != 0
        invariant ch != lastWithDatap ==> chains != [] && ch == After(last) && last.off != 0
        invariant ch == lastWithDatap ==> Deref(ch) == last
        decreases if ch == lastWithDatap then 1 else 0
      {
        ch := After(Deref(ch));
      }
      FlatEmpty(pieces);
    }

    /** evbuffer_get_length. */
    method GetLength() returns (n: nat)
      requires Valid()
      ensures n == |Contents()|
    {
      n := totalLen;
    }

    /** evbuffer_freeze. */
    method Freeze(atFront: bool)
      requires Valid()
      modifies this`freezeStart, this`freezeEnd
      ensures Valid() && Contents() == old(Contents())
      ensures freezeStart == (atFront || old(freezeStart)) && freezeEnd == (!atFront || old(freezeEnd))
    {
      hide Segment;
      if atFront {
        freezeStart := true;
      } else {
        freezeEnd := true;
      }
    }

    /** evbuffer_unfreeze. */
    method Unfreeze(atFront: bool)
      requires Valid()
      modifies this`freezeStart, this`freezeEnd
      ensures Valid() && Contents() == old(Contents())
      ensures freezeStart == (!atFront && old(freezeStart)) && freezeEnd == (atFront && old(freezeEnd))
    {
      hide Segment;
      if atFront {
        freezeStart := false;
      } else {
        freezeEnd := false;
      }
    }

    /** evbuffer_chain_insert: put `chain` at the end, in place of trailing empty chains. */
    method ChainInsert(chain: Chain)
      requires Valid()
      requires chain !in spine && chain.buffer !in spine
      requires chain.next == null && chain.Ok()
      requires chains == [] || chain.off > 0
      modifies this, spine
      ensures Valid() && spine <= old(spine) + {chain, chain.buffer}
      ensures Contents() == old(Contents()) + chain.data
      ensures last == chain
      ensures freezeStart == old(freezeStart) && freezeEnd == old(freezeEnd)
    {
      if Deref(lastWithDatap) == null {
        first, last := chain, chain;
        totalLen := totalLen + chain.off;
        OnlyChain(chain);
      } else {
        var ch := FirstEmptyLink();
        if Deref(ch) == null {
          LinkAtEnd(chain);
        } else {
          Store(ch, chain);
          last := chain;
          totalLen := totalLen + chain.off;
          OnlyChain(chain);
        }
      }
    }

    /** Ghost update for a buffer that now holds the single chain `chain`. */
    ghost method OnlyChain(chain: Chain)
      requires first == last == chain && lastWithDatap == AtFirst
      requires chain.Ok() && chain.next == null && totalLen == chain.off
      modifies this`chains, this`pieces, this`spine
      ensures Valid() && spine == {chain, chain.buffer}
      ensures Contents() == chain.data && chains == [chain]
    {
      hide Segment, FlatTo, AllFull;
      FlatOne(chain.data);
      SegmentOne(chain);
      SetModel([chain], [chain.data], {chain, chain.buffer});
    }

    method LinkAtEnd(chain: Chain)
      requires Valid() && chains != [] && AllFull(pieces)
      requires chain !in spine && chain.buffer !in spine
      requires chain.next == null && chain.Ok() && chain.off > 0
      modifies this, last`next
      ensures Valid() && spine == old(spine) + {chain, chain.buffer}
      ensures Contents() == old(Contents()) + chain.data
      ensures last == chain
      ensures freezeStart == old(freezeStart) && freezeEnd == old(freezeEnd)
    {
      hide Segment, FlatTo, AllFull;
      FlatAppend(pieces, chain.data);
      AllFullConcat(pieces, [chain.data]);
      OneFull(chain.data);
      Relink(After(last), chain);
      SegmentOne(chain);
      SegmentConcat(chains, pieces, spine, [chain], [chain.data], null, {chain, chain.buffer});
      lastWithDatap := if chain.off > 0 then After(last) else lastWithDatap;
      last := chain;
      totalLen := totalLen + chain.off;
      SetModel(chains + [chain], pieces + [chain.data], spine + {chain, chain.buffer});
    }

    /** Record the chains that the buffer now holds. */
    ghost method SetModel(cs: seq<Chain>, ps: seq<seq<byte>>, r: set<object>)
      requires this !in r && Segment(cs, ps, null, r)
      requires first == Head(cs, null) && last == (if cs == [] then null else cs[|cs| - 1])
      requires totalLen == |Flat(ps)| && (|cs| > 1 ==> AllFull(ps)) && lastWithDatap == LastLink(cs)
      modifies this`chains, this`pieces, this`spine
      ensures Valid() && chains == cs && pieces == ps && spine == r
    {
      hide Segment, FlatTo, AllFull;
      chains, pieces, spine := cs, ps, r;
    }

    /** Record the chains that the buffer now holds, when last_with_datap is yet to be set. */
    ghost method SetShape(cs: seq<Chain>, ps: seq<seq<byte>>, r: set<object>)
      requires this !in r && Segment(cs, ps, null, r)
      requires first == Head(cs, null) && last == (if cs == [] then null else cs[|cs| - 1])
      requires |cs| > 1 ==> AllFull(ps)
      modifies this`chains, this`pieces, this`spine
      ensures Shape() && chains == cs && pieces == ps && spine == r
    {
      hide Segment, AllFull;
      chains, pieces, spine := cs, ps, r;
    }

    /** Let the last chain lead to `c`, through the link behind it. */
    method Relink(l: Link, c: Chain?)
      requires Shape() && chains != [] && l == After(last)
      modifies last`next
      ensures Segment(chains, pieces, c, spine) && last in spine
    {
      hide Segment, Around, AllFull;
      ghost var n := |chains| - 1;
      TakeOut(chains, pieces, null, spine, n);
      l.chain.next := c;
      AroundTail(chains, pieces, null, spine - {last, last.buffer}, c);
      PutBack(chains, pieces, c, spine, n);
      assert pieces[n := pieces[n]] == pieces;
    }

    // ---------- adding bytes ----------

    /** Copy `data` behind the data of the last chain, which has room for it. */
    method FillLast(data: seq<byte>)
      requires Valid() && last != null
      requires last.misalign + last.off + |data| <= last.buffer.Length
      modifies this, last, last.buffer
      ensures Valid() && spine == old(spine) && chains == old(chains)
      ensures Contents() == old(Contents()) + data
      ensures freezeStart == old(freezeStart) && freezeEnd == old(freezeEnd)
    {
      hide Segment, Around, FlatTo;
      TakeOut(chains, pieces, null, spine, |chains| - 1);
      FlatGrowLast(pieces, data);
      last.Append(data);
      PutBack(chains, pieces, null, spine, |chains| - 1);
      totalLen := totalLen + |data|;
      pieces := pieces[|chains| - 1 := last.data];
    }

    method RealignLast()
      requires Valid() && last != null
      modifies last`misalign, last.buffer
      ensures Valid() && last.misalign == 0
    {
      ghost var n := |chains| - 1;
      last.Align();
    }

    /** evbuffer_add. */
    method Add(data: seq<byte>) returns (r: int)
      requires Valid()
      modifies this, spine
      ensures Valid() && fresh(spine - old(spine))
      ensures freezeStart == old(freezeStart) && freezeEnd == old(freezeEnd)
      ensures r == if freezeEnd then -1 else 0
      ensures Contents() == if freezeEnd then old(Contents()) else old(Contents()) + data
    {
      if freezeEnd {
        return -1;
      }
      if last == null {
        var chain := new Chain(|data|);
        ChainInsert(chain);
      }
      var remain := last.buffer.Length - last.misalign - last.off;
      if remain >= |data| {
        FillLast(data);
      } else if last.ShouldRealign(|data|) {
        RealignLast();
        FillLast(data);
      } else {
        AddSplit(data, remain);
      }
      r := 0;
    }

    /** The part of evbuffer_add that needs another chain. */
    method AddSplit(data: seq<byte>, remain: nat)
      requires Valid() && last != null
      requires remain == last.buffer.Length - last.misalign - last.off < |data|
      modifies this, spine
      ensures Valid() && fresh(spine - old(spine))
      ensures freezeStart == old(freezeStart) && freezeEnd == old(freezeEnd)
      ensures Contents() == old(Contents()) + data
    {
      hide Segment, Flat, AllFull;
      LastIn();
      var toAlloc := last.buffer.Length;
      if toAlloc <= EVBUFFER_CHAIN_MAX_AUTO_SIZE / 2 {
        toAlloc := toAlloc * 2;
      }
      if |data| > toAlloc {
        toAlloc := |data|;
      }
      var tmp := BackChain(toAlloc, data[remain..]);
      if remain > 0 {
        FillLast(data[..remain]);
      }
      ChainInsert(tmp);
      assert data == data[..remain] + data[remain..];
    }

    /** Copy `data` in front of the data of the first chain, which has room for it. */
    method FillFirst(data: seq<byte>)
      requires Valid() && first != null
      requires |data| <= first.misalign
      modifies this, first, first.buffer
      ensures Valid() && spine == old(spine) && chains == old(chains)
      ensures pieces == old(pieces[0 := data + pieces[0]]) && Contents() == data + old(Contents())
      ensures first.misalign == old(first.misalign) - |data|
      ensures freezeStart == old(freezeStart) && freezeEnd == old(freezeEnd)
    {
      hide Segment, Around, FlatTo;
      TakeOut(chains, pieces, null, spine, 0);
      FlatGrowFirst(pieces, data);
      first.Prepend(data);
      PutBack(chains, pieces, null, spine, 0);
      totalLen := totalLen + |data|;
      pieces := pieces[0 := first.data];
    }

    /** Put a new chain that holds `data` in front. */
    method LinkAtFront(data: seq<byte>)
      requires Valid() && chains != [] && data != [] && AllFull(pieces)
      modifies this
      ensures Valid() && fresh(spine - old(spine))
      ensures Contents() == data + old(Contents())
      ensures freezeStart == old(freezeStart) && freezeEnd == old(freezeEnd)
    {
      hide Segment, Flat, AllFull, LastLink, Head;
      var tmp := FrontChain(data, first);
      LinkFirst(tmp);
    }

    /** Let `tmp`, which leads to the first chain, be the first one. */
    method LinkFirst(tmp: Chain)
      requires Valid() && chains != [] && tmp.Ok() && tmp.data != [] && AllFull(pieces)
      requires tmp.next == first && {tmp, tmp.buffer} !! spine
      modifies this
      ensures Valid() && spine == {tmp, tmp.buffer} + old(spine)
      ensures Contents() == tmp.data + old(Contents())
      ensures freezeStart == old(freezeStart) && freezeEnd == old(freezeEnd)
    {
      hide Segment, Flat, AllFull, LastLink, Head;
      FlatPrepend(tmp.data, pieces);
      AllFullConcat([tmp.data], pieces);
      OneFull(tmp.data);
      LastLinkJoin([tmp], chains);
      JoinEnds([tmp], chains);
      SegmentOne(tmp);
      SegmentConcat([tmp], [tmp.data], {tmp, tmp.buffer}, chains, pieces, null, spine);
      first := tmp;
      if lastWithDatap == AtFirst {
        lastWithDatap := After(tmp);
      }
      totalLen := totalLen + tmp.off;
      SetModel([tmp] + chains, [tmp.data] + pieces, {tmp, tmp.buffer} + spine);
    }

    /** evbuffer_prepend. */
    method Prepend(data: seq<byte>) returns (r: int)
      requires Valid()
      modifies this, spine
      ensures Valid() && fresh(spine - old(spine))
      ensures freezeStart == old(freezeStart) && freezeEnd == old(freezeEnd)
      ensures r == if freezeStart then -1 else 0
      ensures Contents() == if freezeStart then old(Contents()) else data + old(Contents())
    {
      hide Segment, Flat, AllFull;
      FirstIn();
      if freezeStart {
        return -1;
      }
      if first == null {
        var chain := new Chain(|data|);
        ChainInsert(chain);
        FirstIn();
      }
      EmptyAtFront();
      if first.misalign >= |data| {
        FillFirst(data);
      } else {
        PrependSplit(data);
      }
      r := 0;
    }

    /** The part of evbuffer_prepend that needs another chain. */
    method PrependSplit(data: seq<byte>)
      requires Valid() && first != null && first.misalign < |data|
      requires first.misalign == 0 ==> AllFull(pieces)
      modifies this, spine
      ensures Valid() && fresh(spine - old(spine))
      ensures freezeStart == old(freezeStart) && freezeEnd == old(freezeEnd)
      ensures Contents() == data + old(Contents())
    {
      hide FlatTo;
      var room := first.misalign;
      if room > 0 {
        FillFirst(data[|data| - room..]);
      }
      LinkAtFront(data[..|data| - room]);
      assert data == data[..|data| - room] + data[|data| - room..];
    }

    /** An empty first chain is treated as empty at the beginning rather than at the end. */
    method EmptyAtFront()
      requires Valid() && first != null
      modifies first`misalign
      ensures Valid()
      ensures first.misalign == 0 ==> AllFull(pieces)
    {
      if first.off == 0 {
        first.misalign := first.buffer.Length;
      }
    }

    // ---------- taking bytes away ----------

    method ZeroChain()
      modifies this
      ensures Valid() && Contents() == [] && spine == {}
      ensures freezeStart == old(freezeStart) && freezeEnd == old(freezeEnd)
    {
      first, last, lastWithDatap, totalLen := null, null, AtFirst, 0;
      chains, pieces, spine := [], [], {};
    }

    /** evbuffer_drain. */
    method Drain(len: nat) returns (r: int)
      requires Valid()
      modifies this, spine
      ensures Valid() && spine <= old(spine)
      ensures freezeStart == old(freezeStart) && freezeEnd == old(freezeEnd)
      ensures r == if freezeStart && old(Contents()) != [] then -1 else 0
      ensures Contents() == if freezeStart then old(Contents())
                            else if len >= |old(Contents())| then [] else old(Contents())[len..]
    {
      if totalLen == 0 {
        return 0;
      }
      if freezeStart {
        return -1;
      }
      if len >= totalLen {
        ZeroChain();
      } else {
        DrainSome(len);
      }
      r := 0;
    }

    lemma SomeChain()
      requires Shape()
      ensures |chains| == |pieces| && (Flat(pieces) != [] ==> chains != [])
    {
    }

    lemma LastLinkLeads()
      requires Shape() && chains != []
      ensures Deref(LastLink(chains)) == last && last != null
      ensures LastLink(chains).After? ==> LastLink(chains).chain in spine
    {
    }

    lemma LastIn()
      requires Shape() && last != null
      ensures last in spine && last.buffer in spine
    {
    }

    lemma FirstIn()
      requires Shape()
      ensures first != null ==> first in spine && first.buffer in spine
      ensures Flat(pieces) != [] ==> first != null
    {
    }

    /** The branch of evbuffer_drain that leaves some data. */
    method DrainSome(len: nat)
      requires Valid() && len < totalLen
      modifies this, spine
      ensures Valid() && spine == old(spine)
      ensures freezeStart == old(freezeStart) && freezeEnd == old(freezeEnd)
      ensures Contents() == old(Contents())[len..]
    {
      hide Segment, Around, FlatTo, AllFull;
      totalLen := totalLen - len;
      var chain, remaining, k := SkipDrained(len);
      first := chain;
      DropFront(k, remaining);
    }

    /** Chains k.. remain, the first of them without its first `remaining` bytes. */
    method DropFront(ghost k: nat, remaining: nat)
      requires k < |chains| == |pieces| && this !in spine && Segment(chains, pieces, null, spine)
      requires remaining < |pieces[k]| && |FlatTo(pieces, k)| + remaining + totalLen == |Flat(pieces)|
      requires first == chains[k] && last == chains[|chains| - 1]
      requires |chains| > 1 ==> AllFull(pieces)
      requires lastWithDatap == if k + 1 < |chains| then LastLink(chains) else AtFirst
      modifies this`chains, this`pieces, this`spine, first
      ensures Valid() && spine == old(spine)
      ensures Contents() == old(Flat(pieces)[|FlatTo(pieces, k)| + remaining..])
    {
      hide Segment, Around, Flat, FlatTo, AllFull, LastLink, Head;
      ghost var cs, ps := chains[k..], pieces[k..];
      SuffixEnds(chains, k);
      FlatDrain(pieces, k, remaining);
      AllFullTail(pieces, k, pieces[k][remaining..]);
      SegmentSplit(chains, pieces, null, spine, k);
      TakeOut(cs, ps, null, spine, 0);
      first.Consume(remaining);
      PutBack(cs, ps, null, spine, 0);
      SetModel(cs, ps[0 := first.data], spine);
    }

    /** The loop of evbuffer_drain: pass over the chains that go, keeping last_with_datap right. */
    method SkipDrained(len: nat) returns (chain: Chain, remaining: nat, ghost k: nat)
      requires ValidAt(totalLen + len) && 0 < totalLen
      modifies this`lastWithDatap
      ensures k < |chains| == |pieces| && chain == chains[k] && chain in spine
      ensures remaining < |pieces[k]| && |FlatTo(pieces, k)| + remaining == len
      ensures lastWithDatap == if k + 1 < |chains| then LastLink(chains) else AtFirst
    {
      hide Segment, FlatTo, AllFull;
      SomeChain();
      FlatZero(pieces);
      SegmentAt(chains, pieces, null, spine, 0);
      chain, remaining, k := first, len, 0;
      while remaining >= chain.off
        invariant k < |chains| == |pieces| && chain == chains[k] && chain in spine && chain.off == |pieces[k]|
        invariant |FlatTo(pieces, k)| + remaining == len
        invariant lastWithDatap == if k + 1 < |chains| then LastLink(chains) else AtFirst
        decreases |chains| - k
      {
        SegmentAt(chains, pieces, null, spine, k);
        FlatPiece(pieces, k);
        LastLinkLeads();
        var next := chain.next;
        remaining := remaining - chain.off;
        lastWithDatap := if Deref(lastWithDatap) == chain then AtFirst else lastWithDatap;
        lastWithDatap := if lastWithDatap == After(chain) then AtFirst else lastWithDatap;
        chain, k := next, k + 1;
        SegmentAt(chains, pieces, null, spine, k);
      }
    }

    /** How many bytes a request for `datlen` bytes yields. */
    ghost function Available(datlen: nat): nat
      reads this
    {
      if datlen >= |Contents()| then |Contents()| else datlen
    }

    /** evbuffer_copyout. */
    method CopyOut(data: array<byte>, datlen: nat) returns (r: int)
      requires Valid() && data !in spine && datlen <= data.Length
      modifies data
      ensures Valid()
      ensures r == if freezeStart && Available(datlen) > 0 then -1 else Available(datlen)
      ensures forall i :: 0 <= i < data.Length ==> data[i] == if i < r then Contents()[i] else old(data[i])
    {
      hide Segment, Flat, FlatTo, AllFull;
      SomeChain();
      var chain := first;
      var left: nat := if datlen >= totalLen then totalLen else datlen;
      if left == 0 {
        return 0;
      }
      if freezeStart {
        return -1;
      }
      var nread := left;
      ghost var k := 0;
      FlatZero(pieces);
      while left > 0 && left >= chain.off
        invariant k <= |chains| == |pieces| && chain == (if k < |chains| then chains[k] else null)
        invariant left + |FlatTo(pieces, k)| == nread <= |Contents()| && (k == |chains| ==> left == 0)
        invariant forall i :: 0 <= i < data.Length ==> data[i] == if i < nread - left then Contents()[i] else old(data[i])
        decreases |chains| - k
      {
        SegmentAt(chains, pieces, null, spine, k);
        FlatPiece(pieces, k);
        chain.ReadInto(chain.off, data, nread - left);
        left := left - chain.off;
        chain, k := chain.next, k + 1;
      }
      if left > 0 {
        SegmentAt(chains, pieces, null, spine, k);
        FlatPiece(pieces, k);
        chain.ReadInto(left, data, nread - left);
      }
      r := nread;
    }

    /** evbuffer_remove. */
    method Remove(data: array<byte>, datlen: nat) returns (r: int)
      requires Valid() && data !in spine && datlen <= data.Length
      modifies this, spine, data
      ensures Valid() && spine <= old(spine)
      ensures freezeStart == old(freezeStart) && freezeEnd == old(freezeEnd)
      ensures r == if freezeStart && old(Available(datlen)) > 0 then -1 else old(Available(datlen))
      ensures r < 0 ==> Contents() == old(Contents())
      ensures r >= 0 ==> old(Contents()) == data[..r] + Contents()
      ensures forall i :: 0 <= i < data.Length && r <= i ==> data[i] == old(data[i])
    {
      hide Segment, Flat, AllFull;
      r := CopyOut(data, datlen);
      if r > 0 {
        var d := Drain(r);
        r := if d < 0 then -1 else r;
      }
    }

    // ---------- moving whole buffers ----------

    /** Two buffers that share no storage (or are the same buffer). */
    ghost predicate Apart(o: EvBuffer)
      reads this, o
    {
      o == this || (spine !! o.spine && this !in o.spine && o !in spine)
    }

    /** COPY_CHAIN: take over all chains of src. A link at src's first becomes a link at our own. */
    method CopyChain(src: EvBuffer)
      requires src != this && src.Valid() && this !in src.spine
      modifies this
      ensures Valid() && spine == src.spine && Contents() == src.Contents()
      ensures freezeStart == old(freezeStart) && freezeEnd == old(freezeEnd)
    {
      hide Segment, FlatTo, AllFull;
      first := src.first;
      lastWithDatap := if src.lastWithDatap == AtFirst then AtFirst else src.lastWithDatap;
      last := src.last;
      totalLen := src.totalLen;
      SetModel(src.chains, src.pieces, src.spine);
    }

    /** APPEND_CHAIN: all chains of src go behind ours. */
    method AppendChain(src: EvBuffer)
      requires Valid() && src != this && src.Valid() && Apart(src)
      requires totalLen > 0 && src.totalLen > 0
      modifies this, last`next
      ensures Valid() && spine == old(spine) + src.spine
      ensures Contents() == old(Contents()) + src.Contents()
      ensures freezeStart == old(freezeStart) && freezeEnd == old(freezeEnd)
    {
      hide Segment, Flat, AllFull, LastLink;
      FlatConcat(pieces, src.pieces);
      DataMeansFull();
      src.DataMeansFull();
      AllFullConcat(pieces, src.pieces);
      LastLinkJoin(chains, src.chains);
      Relink(After(last), src.first);
      SegmentConcat(chains, pieces, spine, src.chains, src.pieces, null, src.spine);
      lastWithDatap := if src.lastWithDatap == AtFirst then After(last) else src.lastWithDatap;
      last := src.last;
      totalLen := totalLen + src.totalLen;
      SetModel(chains + src.chains, pieces + src.pieces, spine + src.spine);
    }

    /** PREPEND_CHAIN: all chains of src go in front of ours. */
    method PrependChain(src: EvBuffer)
      requires Valid() && src != this && src.Valid() && Apart(src)
      requires totalLen > 0 && src.totalLen > 0
      modifies this, src.last`next
      ensures Valid() && spine == src.spine + old(spine)
      ensures Contents() == src.Contents() + old(Contents())
      ensures freezeStart == old(freezeStart) && freezeEnd == old(freezeEnd)
    {
      hide Segment, Flat, AllFull, LastLink;
      FlatConcat(src.pieces, pieces);
      DataMeansFull();
      src.DataMeansFull();
      AllFullConcat(src.pieces, pieces);
      LastLinkJoin(src.chains, chains);
      LastLinkLeads();
      src.Relink(After(src.last), first);
      SegmentConcat(src.chains, src.pieces, src.spine, chains, pieces, null, spine);
      var srcLink, srcLast := src.lastWithDatap, src.last;
      first := src.first;
      totalLen := totalLen + src.totalLen;
      lastWithDatap :=
        if Deref(lastWithDatap) == null then (if srcLink == AtFirst then AtFirst else srcLink)
        else if lastWithDatap == AtFirst then After(srcLast)
        else lastWithDatap;
      SetModel(src.chains + chains, src.pieces + pieces, src.spine + spine);
    }

    /** A buffer with data has chains, all with data. */
    lemma DataMeansFull()
      requires Valid() && totalLen > 0
      ensures chains != [] && AllFull(pieces)
    {
      FlatEmpty(pieces);
    }

    /** evbuffer_add_buffer: move the contents of inbuf to our end. */
    method AddBuffer(inbuf: EvBuffer) returns (r: int)
      requires Valid() && inbuf.Valid() && Apart(inbuf)
      modifies this, spine, inbuf
      ensures Valid() && inbuf.Valid() && Apart(inbuf)
      ensures spine <= old(spine + inbuf.spine) && inbuf.spine <= old(inbuf.spine)
      ensures freezeStart == old(freezeStart) && freezeEnd == old(freezeEnd)
      ensures inbuf.freezeStart == old(inbuf.freezeStart) && inbuf.freezeEnd == old(inbuf.freezeEnd)
      ensures r == if inbuf != this && old(inbuf.Contents()) != [] && (freezeEnd || inbuf.freezeStart) then -1 else 0
      ensures inbuf == this || r < 0 ==> Contents() == old(Contents()) && inbuf.Contents() == old(inbuf.Contents())
      ensures inbuf != this && r == 0 ==> Contents() == old(Contents() + inbuf.Contents()) && inbuf.Contents() == []
    {
      hide Segment, FlatTo, AllFull;
      if inbuf.totalLen == 0 || inbuf == this {
        return 0;
      }
      if freezeEnd || inbuf.freezeStart {
        return -1;
      }
      if totalLen == 0 {
        CopyChain(inbuf);
      } else {
        LastInSpine();
        AppendChain(inbuf);
      }
      inbuf.ZeroChain();
      r := 0;
    }

    /** evbuffer_prepend_buffer: move the contents of inbuf to our front. */
    method PrependBuffer(inbuf: EvBuffer) returns (r: int)
      requires Valid() && inbuf.Valid() && Apart(inbuf)
      modifies this, inbuf, inbuf.spine
      ensures Valid() && inbuf.Valid() && Apart(inbuf)
      ensures spine <= old(spine + inbuf.spine) && inbuf.spine <= old(inbuf.spine)
      ensures freezeStart == old(freezeStart) && freezeEnd == old(freezeEnd)
      ensures inbuf.freezeStart == old(inbuf.freezeStart) && inbuf.freezeEnd == old(inbuf.freezeEnd)
      ensures r == if inbuf != this && old(inbuf.Contents()) != [] && (freezeStart || inbuf.freezeStart) then -1 else 0
      ensures inbuf == this || r < 0 ==> Contents() == old(Contents()) && inbuf.Contents() == old(inbuf.Contents())
      ensures inbuf != this && r == 0 ==> Contents() == old(inbuf.Contents() + Contents()) && inbuf.Contents() == []
    {
      hide Segment, FlatTo, AllFull;
      if inbuf.totalLen == 0 || inbuf == this {
        return 0;
      }
      if freezeStart || inbuf.freezeStart {
        return -1;
      }
      if totalLen == 0 {
        CopyChain(inbuf);
      } else {
        inbuf.LastInSpine();
        PrependChain(inbuf);
      }
      inbuf.ZeroChain();
      r := 0;
    }

    lemma LastInSpine()
      requires Valid() && totalLen > 0
      ensures last != null && last in spine
    {
      FlatEmpty(pieces);
      assert chains[|chains| - 1] in spine;
    }

    // ---------- evbuffer_remove_buffer ----------

    /** Where in `chains` a link leads to chain j. */
    static ghost function LinkAt(cs: seq<Chain>, j: nat): Link
      requires j <= |cs|
    {
      if j == 0 then AtFirst else After(cs[j - 1])
    }

    /** advance_last_with_data: move last_with_datap forward from chain j to the last chain. */
    method AdvanceLastWithData(ghost start: nat) returns (n: nat)
      requires Shape() && AllFull(pieces) && if chains == [] then lastWithDatap == AtFirst
                                             else start < |chains| && lastWithDatap == LinkAt(chains, start)
      modifies this`lastWithDatap
      ensures lastWithDatap == LastLink(chains) && n == if chains == [] then 0 else |chains| - 1 - start
    {
      ghost var j := start;
      n := 0;
      if Deref(lastWithDatap) == null {
        return;
      }
      while Deref(lastWithDatap).next != null && Deref(lastWithDatap).next.off != 0
        invariant j < |chains| && lastWithDatap == LinkAt(chains, j) && Deref(lastWithDatap) == chains[j] && n == j - start
        decreases |chains| - j
      {
        lastWithDatap := After(Deref(lastWithDatap));
        n, j := n + 1, j + 1;
      }
    }

    /** The loop of evbuffer_remove_buffer: the chains that fit whole into `datlen` bytes. */
    method PassWhole(datlen: nat) returns (chain: Chain, previous: Chain, nread: nat, ghost k: nat)
      requires Valid() && datlen < totalLen
      modifies this`lastWithDatap
      ensures k < |chains| == |pieces| && chain == chains[k] && chain in spine
      ensures nread == |FlatTo(pieces, k)| <= datlen && datlen - nread < |pieces[k]|
      ensures if k == 0 then nread == 0 else nread > 0 && previous == chains[k - 1]
      ensures lastWithDatap == if k + 1 < |chains| then LastLink(chains) else AtFirst
    {
      hide Segment, FlatTo;
      DataMeansFull();
      FlatZero(pieces);
      SegmentAt(chains, pieces, null, spine, 0);
      chain, previous, nread, k := first, first, 0, 0;
      while chain.off <= datlen - nread
        invariant k < |chains| == |pieces| && chain == chains[k] && chain in spine && chain.off == |pieces[k]|
        invariant nread == |FlatTo(pieces, k)| <= datlen
        invariant if k == 0 then nread == 0 else nread > 0 && previous == chains[k - 1]
        invariant lastWithDatap == if k + 1 < |chains| then LastLink(chains) else AtFirst
        decreases |chains| - k
      {
        SegmentAt(chains, pieces, null, spine, k);
        FlatPiece(pieces, k);
        nread := nread + chain.off;
        previous := chain;
        lastWithDatap := if lastWithDatap == After(chain) then AtFirst else lastWithDatap;
        chain, k := chain.next, k + 1;
        SegmentAt(chains, pieces, null, spine, k);
      }
    }

    /** Cut the first k chains off this buffer. */
    method CutWhole(chain: Chain, previous: Chain, ghost k: nat) returns (ghost fp: set<object>)
      requires Shape() && 0 < k < |chains| == |pieces| && chain == chains[k] && previous == chains[k - 1]
      requires lastWithDatap == if k + 1 < |chains| then LastLink(chains) else AtFirst
      modifies this`first, this`chains, this`pieces, this`spine, previous`next
      ensures Shape() && lastWithDatap == LastLink(chains) && first == chain
      ensures chains == old(chains[k..]) && pieces == old(pieces[k..])
      ensures Segment(old(chains[..k]), old(pieces[..k]), null, fp)
      ensures fp <= old(spine) && spine == old(spine) - fp
    {
      hide Segment, Around, FlatTo, AllFull;
      ghost var cs, ps := chains[..k], pieces[..k];
      AllFullSuffix(pieces, k);
      SegmentApart(chains, pieces, null, spine, k);
      fp := Footprint(cs);
      Detach(previous, cs, ps, chains[k], fp);
      first := chain;
      SetShape(chains[k..], pieces[k..], spine - fp);
    }

    /** End a run of chains behind `previous`, its last one. */
    static method Detach(previous: Chain, ghost cs: seq<Chain>, ghost ps: seq<seq<byte>>, ghost tail: Chain?, ghost fp: set<object>)
      requires cs != [] && Segment(cs, ps, tail, fp) && previous == cs[|cs| - 1]
      modifies previous`next
      ensures Segment(cs, ps, null, fp)
    {
      hide Segment, Around;
      ghost var n := |cs| - 1;
      TakeOut(cs, ps, tail, fp, n);
      previous.next := null;
      AroundTail(cs, ps, tail, fp - {previous, previous.buffer}, null);
      PutBack(cs, ps, null, fp, n);
      SameUpdate(ps, n);
    }

    static lemma SameUpdate(ps: seq<seq<byte>>, n: nat)
      ensures n < |ps| ==> ps[n := ps[n]] == ps
    {
    }

    /** evbuffer_free_trailing_empty_chains: afterwards the link leads to nothing. */
    method FreeTrailingEmptyChains() returns (ch: Link)
      requires Valid()
      modifies this`first, spine
      ensures old(Contents()) != [] ==>
        Valid() && chains != [] && AllFull(pieces) && ch == After(last) && last in spine && first != null
      ensures old(Contents()) == [] ==> first == null && lastWithDatap == AtFirst && ch == AtFirst
    {
      ch := FirstEmptyLink();
      if Deref(ch) != null {
        Store(ch, null);
      }
    }

    /** Put the linked chains `cs`, from `head` to `tail`, behind our own. */
    method Receive(head: Chain, tail: Chain, nread: nat, ghost cs: seq<Chain>, ghost ps: seq<seq<byte>>, ghost fp: set<object>)
      requires Valid() && this !in fp && fp !! spine
      requires Segment(cs, ps, null, fp) && cs != [] && AllFull(ps) && nread == |Flat(ps)|
      requires head == cs[0] && tail == cs[|cs| - 1]
      modifies this, spine
      ensures Valid() && spine <= old(spine) + fp
      ensures Contents() == old(Contents()) + Flat(ps)
      ensures freezeStart == old(freezeStart) && freezeEnd == old(freezeEnd)
    {
      hide Segment, FlatTo, AllFull;
      var chp := FreeTrailingEmptyChains();
      if first == null {
        ReceiveAlone(head, tail, cs, ps, fp);
      } else {
        ReceiveBehind(head, tail, chp, cs, ps, fp);
      }
      totalLen := totalLen + nread;
    }

    method ReceiveAlone(head: Chain, tail: Chain, ghost cs: seq<Chain>, ghost ps: seq<seq<byte>>, ghost fp: set<object>)
      requires this !in fp && lastWithDatap == AtFirst
      requires Segment(cs, ps, null, fp) && cs != [] && AllFull(ps)
      requires head == cs[0] && tail == cs[|cs| - 1]
      modifies this
      ensures ValidAt(|Flat(ps)|) && spine == fp && totalLen == old(totalLen)
      ensures Contents() == Flat(ps)
      ensures freezeStart == old(freezeStart) && freezeEnd == old(freezeEnd)
    {
      hide Segment, FlatTo, AllFull;
      first := head;
      last := tail;
      SetShape(cs, ps, fp);
      var _ := AdvanceLastWithData(0);
    }

    method ReceiveBehind(head: Chain, tail: Chain, chp: Link, ghost cs: seq<Chain>, ghost ps: seq<seq<byte>>, ghost fp: set<object>)
      requires Valid() && chains != [] && AllFull(pieces) && chp == After(last) && this !in fp && fp !! spine
      requires Segment(cs, ps, null, fp) && cs != [] && AllFull(ps)
      requires head == cs[0] && tail == cs[|cs| - 1]
      modifies this, last`next
      ensures ValidAt(totalLen + |Flat(ps)|) && spine == old(spine) + fp && totalLen == old(totalLen)
      ensures Contents() == old(Contents()) + Flat(ps)
      ensures freezeStart == old(freezeStart) && freezeEnd == old(freezeEnd)
    {
      hide Segment, Flat, AllFull, Head;
      HeadIs(chains);
      HeadIs(cs);
      JoinEnds(chains, cs);
      FlatConcat(pieces, ps);
      AllFullConcat(pieces, ps);
      ghost var n := |chains|;
      Relink(chp, head);
      SegmentConcat(chains, pieces, spine, cs, ps, null, fp);
      last := tail;
      SetShape(chains + cs, pieces + ps, spine + fp);
      var _ := AdvanceLastWithData(n - 1);
    }

    /** Move the first k chains, with their nread bytes, to the end of dst. */
    method MoveWhole(dst: EvBuffer, chain: Chain, previous: Chain, nread: nat, ghost k: nat)
      requires dst != this && Apart(dst) && dst.Valid()
      requires Shape() && totalLen == |Contents()| && 0 < k < |chains| == |pieces| && AllFull(pieces)
      requires chain == chains[k] && previous == chains[k - 1] && nread == |FlatTo(pieces, k)|
      requires lastWithDatap == if k + 1 < |chains| then LastLink(chains) else AtFirst
      modifies this`first, this`chains, this`pieces, this`spine, spine, dst, dst.spine
      ensures ValidAt(totalLen - nread) && first == chain && chain.off == old(chain.off)
      ensures dst.Valid() && Apart(dst) && spine <= old(spine) && dst.spine <= old(spine + dst.spine)
      ensures nread <= old(totalLen)
      ensures dst.Contents() == old(dst.Contents() + Contents()[..nread]) && Contents() == old(Contents()[nread..])
      ensures dst.freezeStart == old(dst.freezeStart) && dst.freezeEnd == old(dst.freezeEnd)
    {
      hide Segment, FlatTo, AllFull;
      ghost var cs, ps := chains[..k], pieces[..k];
      FlatCut(pieces, k);
      FlatToPrefix(pieces, ps, k);
      AllFullSuffix(pieces, k);
      PreviousInSpine(k);
      ChainOff(k);
      var head := first;
      ghost var fp := CutWhole(chain, previous, k);
      dst.Receive(head, previous, nread, cs, ps, fp);
      ChainOff(0);
    }

    lemma ChainOff(k: nat)
      requires Shape() && k < |chains| == |pieces|
      ensures chains[k].off == |pieces[k]|
    {
    }

    lemma PreviousInSpine(k: nat)
      requires Shape() && 0 < k < |chains|
      ensures chains[k - 1] in spine
    {
    }

    /** Drop the first n bytes of the first chain, leaving the cached length to the caller. */
    method ConsumeFirst(n: nat)
      requires Shape() && lastWithDatap == LastLink(chains) && first != null && n < first.off
      modifies this`pieces, first
      ensures Shape() && lastWithDatap == LastLink(chains)
      ensures n <= |old(Contents())| && Contents() == old(Contents()[n..])
    {
      hide Segment, Around, Flat, FlatTo, AllFull;
      FirstIn();
      SegmentAt(chains, pieces, null, spine, 0);
      FlatDrain(pieces, 0, n);
      FlatZero(pieces);
      AllFullTail(pieces, 0, pieces[0][n..]);
      TakeOut(chains, pieces, null, spine, 0);
      first.Consume(n);
      PutBack(chains, pieces, null, spine, 0);
      assert pieces[0..] == pieces;
      pieces := pieces[0 := first.data];
    }

    /** The bytes at the start of the first chain are the first bytes of the buffer. */
    lemma HeadData(n: nat)
      requires Shape() && first != null && n <= first.off
      ensures first in spine && first.buffer in spine && first.misalign + first.off <= first.buffer.Length
      ensures n <= |Contents()| && first.buffer[first.misalign..first.misalign + n] == Contents()[..n]
    {
      FlatPiece(pieces, 0);
      FlatZero(pieces);
      var v := first.buffer[first.misalign..first.misalign + n];
      forall i | 0 <= i < n
        ensures v[i] == Contents()[i]
      {
        assert v[i] == first.data[i] == pieces[0][i];
      }
      assert v == Contents()[..n];
    }

    /** Move to dst the chains that fit whole into `datlen` bytes; the rest is in our first chain. */
    method PassAndMove(dst: EvBuffer, datlen: nat) returns (nread: nat)
      requires Valid() && dst.Valid() && dst != this && Apart(dst)
      requires 0 < datlen < totalLen
      modifies this`first, this`chains, this`pieces, this`spine, this`lastWithDatap, spine, dst, dst.spine
      ensures nread <= datlen && ValidAt(totalLen - nread) && first != null && datlen - nread < first.off
      ensures dst.Valid() && Apart(dst) && spine <= old(spine) && dst.spine <= old(spine + dst.spine)
      ensures dst.Contents() == old(dst.Contents() + Contents()[..nread]) && Contents() == old(Contents()[nread..])
      ensures dst.freezeStart == old(dst.freezeStart) && dst.freezeEnd == old(dst.freezeEnd)
    {
      hide FlatTo, AllFull;
      var chain, previous, n, k := PassWhole(datlen);
      nread := n;
      if nread > 0 {
        MoveWhole(dst, chain, previous, nread, k);
      }
    }

    /** The part of evbuffer_remove_buffer that leaves some data. */
    method RemoveSome(dst: EvBuffer, datlen: nat)
      requires Valid() && dst.Valid() && dst != this && Apart(dst) && !dst.freezeEnd
      requires 0 < datlen < totalLen
      modifies this, spine, dst, dst.spine
      ensures Valid() && dst.Valid() && Apart(dst)
      ensures spine <= old(spine) && fresh(dst.spine - old(spine) - old(dst.spine))
      ensures freezeStart == old(freezeStart) && freezeEnd == old(freezeEnd)
      ensures dst.freezeStart == old(dst.freezeStart) && dst.freezeEnd == old(dst.freezeEnd)
      ensures dst.Contents() == old(dst.Contents() + Contents()[..datlen]) && Contents() == old(Contents()[datlen..])
    {
      hide Segment, Flat, AllFull, LastLink, Head, Contents;
      LengthIs();
      var nread := PassAndMove(dst, datlen);
      CopyRest(dst, nread, datlen - nread);
      CutTwice(old(dst.Contents()), old(Contents()), nread, datlen - nread);
    }

    /** Copy the last `rest` bytes, which are in our first chain, and account for all nread + rest bytes. */
    method CopyRest(dst: EvBuffer, nread: nat, rest: nat)
      requires dst.Valid() && dst != this && Apart(dst) && !dst.freezeEnd
      requires nread + rest <= totalLen && ValidAt(totalLen - nread) && first != null && rest < first.off
      modifies this, spine, dst, dst.spine
      ensures Valid() && dst.Valid() && Apart(dst)
      ensures spine == old(spine) && fresh(dst.spine - old(dst.spine))
      ensures freezeStart == old(freezeStart) && freezeEnd == old(freezeEnd)
      ensures dst.freezeStart == old(dst.freezeStart) && dst.freezeEnd == old(dst.freezeEnd)
      ensures rest <= |old(Contents())|
      ensures dst.Contents() == old(dst.Contents() + Contents()[..rest]) && Contents() == old(Contents()[rest..])
    {
      hide Segment, FlatTo, AllFull;
      var chain := first;
      HeadData(rest);
      var _ := dst.Add(chain.buffer[chain.misalign..chain.misalign + rest]);
      ConsumeFirst(rest);
      totalLen := totalLen - (nread + rest);
    }

    lemma LengthIs()
      requires Valid()
      ensures totalLen == |Contents()|
    {
    }

    static lemma CutTwice(d: seq<byte>, s: seq<byte>, m: nat, n: nat)
      requires m + n <= |s|
      ensures d + s[..m] + s[m..][..n] == d + s[..m + n] && s[m..][n..] == s[m + n..]
    {
    }

    /** evbuffer_remove_buffer: move the first `datlen` bytes to the end of dst. */
    method RemoveBuffer(dst: EvBuffer, datlen: nat) returns (r: int)
      requires Valid() && dst.Valid() && Apart(dst)
      modifies this, spine, dst, dst.spine
      ensures Valid() && dst.Valid() && Apart(dst)
      ensures spine <= old(spine) && fresh(dst.spine - old(spine) - old(dst.spine))
      ensures freezeStart == old(freezeStart) && freezeEnd == old(freezeEnd)
      ensures dst.freezeStart == old(dst.freezeStart) && dst.freezeEnd == old(dst.freezeEnd)
      ensures r == if datlen == 0 || dst == this then 0
                   else if dst.freezeEnd || freezeStart then -1 else old(Available(datlen))
      ensures r <= 0 ==> Contents() == old(Contents()) && dst.Contents() == old(dst.Contents())
      ensures r >= 0 && dst != this ==>
        r <= |old(Contents())| && dst.Contents() == old(dst.Contents()) + old(Contents())[..r] && Contents() == old(Contents())[r..]
    {
      hide Segment, FlatTo, AllFull;
      if datlen == 0 || dst == this {
        return 0;
      }
      if dst.freezeEnd || freezeStart {
        return -1;
      }
      if datlen >= totalLen {
        r := totalLen;
        var _ := dst.AddBuffer(this);
      } else {
        r := datlen;
        RemoveSome(dst, datlen);
      }
    }

    // ---------- evbuffer_pullup ----------

    /** The copying loop: append to tmp every chain of `cs` that goes into it whole. */
    method AbsorbWhole(tmp: Chain, chain0: Chain?, size: nat, ghost cs: seq<Chain>, ghost ps: seq<seq<byte>>, ghost r: set<object>)
      returns (chain: Chain?, left: nat, removedLast: bool, removedLastp: bool, ghost k: nat)
      requires Segment(cs, ps, null, r) && cs != [] && chain0 == cs[0] && tmp !in r && tmp.buffer !in r && this !in r
      requires tmp.Ok() && tmp.misalign + tmp.off + size <= tmp.buffer.Length && size <= |Flat(ps)|
      requires lastWithDatap == (if |cs| >= 2 then After(cs[|cs| - 2]) else After(tmp))
      requires Deref(lastWithDatap) == cs[|cs| - 1]
      modifies tmp`off, tmp`data, tmp.buffer
      ensures k <= |cs| && chain == (if k < |cs| then cs[k] else null)
      ensures left + |FlatTo(ps, k)| == size && (k < |cs| ==> left < |ps[k]|) && (k == |cs| ==> left == 0)
      ensures tmp.Ok() && tmp.data == old(tmp.data) + FlatTo(ps, k)
      ensures removedLast <==> k == |cs|
      ensures removedLastp <==> |cs| >= 2 && k >= |cs| - 1
    {
      hide Segment, FlatTo;
      SegmentAt(cs, ps, null, r, 0);
      chain, left, removedLast, removedLastp, k := chain0, size, false, false, 0;
      var lastWithData := Deref(lastWithDatap);
      FlatZero(ps);
      while chain != null && left >= chain.off
        invariant k <= |cs| == |ps| && chain == (if k < |cs| then cs[k] else null)
        invariant left + |FlatTo(ps, k)| == size && (k == |cs| ==> left == 0)
        invariant tmp.Ok() && tmp.data == old(tmp.data) + FlatTo(ps, k)
        invariant removedLast <==> k == |cs|
        invariant removedLastp <==> |cs| >= 2 && k >= |cs| - 1
        decreases |cs| - k
      {
        SegmentAt(cs, ps, null, r, k);
        FlatPiece(ps, k);
        FlatToNext(ps, k);
        CopyChainInto(tmp, chain, chain.off);
        left := left - chain.off;
        if chain == lastWithData {
          removedLast := true;
        }
        if lastWithDatap == After(chain) {
          removedLastp := true;
        }
        chain, k := chain.next, k + 1;
      }
      if k < |cs| {
        SegmentAt(cs, ps, null, r, k);
      }
    }

    /** memcpy of the first n bytes of `chain` behind the data of tmp. */
    static method CopyChainInto(tmp: Chain, chain: Chain, n: nat)
      requires tmp.Ok() && chain.Ok() && n <= chain.off && tmp.misalign + tmp.off + n <= tmp.buffer.Length
      requires tmp != chain && tmp.buffer != chain.buffer
      modifies tmp`off, tmp`data, tmp.buffer
      ensures tmp.Ok() && tmp.data == old(tmp.data) + chain.data[..n]
    {
      var bytes := chain.buffer[chain.misalign..chain.misalign + n];
      assert bytes == chain.data[..n];
      tmp.Append(bytes);
    }

    /** All chains went into tmp. */
    method PulledAll(tmp: Chain, removedLast: bool)
      requires removedLast && tmp.Ok() && this as object != tmp && totalLen == tmp.off && first == tmp
      modifies this, tmp`next
      ensures Valid() && first == tmp && spine == {tmp, tmp.buffer} && Contents() == tmp.data
      ensures freezeStart == old(freezeStart) && freezeEnd == old(freezeEnd) && totalLen == old(totalLen)
    {
      last := tmp;
      tmp.next := null;
      lastWithDatap := if removedLast then AtFirst else lastWithDatap;
      OnlyChain(tmp);
    }

    /** The first `left` bytes of cs[k] still go into tmp; that chain and the later ones stay. */
    method PulledPart(tmp: Chain, chain: Chain, left: nat, removedLast: bool, removedLastp: bool,
                      ghost cs: seq<Chain>, ghost ps: seq<seq<byte>>, ghost r: set<object>, ghost k: nat)
      requires Segment(cs, ps, null, r) && AllFull(ps) && k < |cs| == |ps| && tmp !in r && tmp.buffer !in r && this !in r
      requires chain == cs[k] && left < |ps[k]| && first == tmp && last == cs[|cs| - 1]
      requires tmp.Ok() && tmp.misalign + tmp.off + left <= tmp.buffer.Length && tmp.off + left > 0
      requires lastWithDatap == (if |cs| >= 2 then After(cs[|cs| - 2]) else After(tmp))
      requires !removedLast && (removedLastp <==> |cs| >= 2 && k >= |cs| - 1)
      requires totalLen + |FlatTo(ps, k)| == tmp.off + |Flat(ps)|
      modifies this, tmp, tmp.buffer, r
      ensures Valid() && first == tmp && spine == {tmp, tmp.buffer} + r && tmp.off == old(tmp.off) + left
      ensures |FlatTo(ps, k)| <= |Flat(ps)| && Contents() == old(tmp.data) + Flat(ps)[|FlatTo(ps, k)|..]
      ensures freezeStart == old(freezeStart) && freezeEnd == old(freezeEnd) && totalLen == old(totalLen)
    {
      hide Segment, Around, FlatTo, AllFull;
      ghost var data := tmp.data;
      FlatPull(ps, k, left, data);
      AllFullTail(ps, k, ps[k][left..]);
      PullSome(tmp, chain, left, cs, ps, r, k);
      ghost var cs', qs := cs[k..], ps[k..][0 := ps[k][left..]];
      tmp.next := chain;
      lastWithDatap := if removedLast then AtFirst
                       else if removedLastp then (if first.next != null && first.next.off != 0 then After(first) else AtFirst)
                       else lastWithDatap;
      SegmentOne(tmp);
      SegmentConcat([tmp], [tmp.data], {tmp, tmp.buffer}, cs', qs, null, r);
      OneFull(tmp.data);
      AllFullConcat([tmp.data], qs);
      SetModel([tmp] + cs', [tmp.data] + qs, {tmp, tmp.buffer} + r);
    }

    static method PullSome(tmp: Chain, chain: Chain, left: nat,
                           ghost cs: seq<Chain>, ghost ps: seq<seq<byte>>, ghost r: set<object>, ghost k: nat)
      requires Segment(cs, ps, null, r) && k < |cs| == |ps| && tmp !in r && tmp.buffer !in r
      requires chain == cs[k] && left < |ps[k]|
      requires tmp.Ok() && tmp.misalign + tmp.off + left <= tmp.buffer.Length
      modifies tmp`off, tmp`data, tmp.buffer, r
      ensures tmp.Ok() && tmp.data == old(tmp.data) + ps[k][..left]
      ensures Segment(cs[k..], ps[k..][0 := ps[k][left..]], null, r) && chain.off > 0
    {
      hide Segment, Around;
      ghost var cs', ps' := cs[k..], ps[k..];
      SegmentSplit(cs, ps, null, r, k);
      TakeOut(cs', ps', null, r, 0);
      CopyChainInto(tmp, chain, left);
      chain.Consume(left);
      PutBack(cs', ps', null, r, 0);
    }

    /** Bring the first `size` bytes of the chains `cs` into tmp, which is already the first chain. */
    method Gather(tmp: Chain, chain0: Chain, size: nat, ghost cs: seq<Chain>, ghost ps: seq<seq<byte>>, ghost r: set<object>)
      requires Segment(cs, ps, null, r) && AllFull(ps) && 0 < |cs| == |ps| && tmp !in r && tmp.buffer !in r && this !in r
      requires chain0 == cs[0] && first == tmp && last == cs[|cs| - 1]
      requires tmp.Ok() && tmp.misalign + tmp.off + size <= tmp.buffer.Length && 0 < size <= |Flat(ps)|
      requires lastWithDatap == (if |cs| >= 2 then After(cs[|cs| - 2]) else After(tmp))
      requires Deref(lastWithDatap) == cs[|cs| - 1]
      requires totalLen == tmp.off + |Flat(ps)|
      modifies this, tmp, tmp.buffer, r
      ensures Valid() && first == tmp && spine <= {tmp, tmp.buffer} + r && tmp.off == old(tmp.off) + size
      ensures Contents() == old(tmp.data) + Flat(ps)
      ensures freezeStart == old(freezeStart) && freezeEnd == old(freezeEnd) && totalLen == old(totalLen)
    {
      hide Segment, FlatTo, AllFull;
      var chain, left, removedLast, removedLastp, k := AbsorbWhole(tmp, chain0, size, cs, ps, r);
      FlatCut(ps, k);
      if chain != null {
        PulledPart(tmp, chain, left, removedLast, removedLastp, cs, ps, r, k);
      } else {
        PulledAll(tmp, removedLast);
      }
    }

    /** evbuffer_pullup: make the first `wanted` bytes (all, if negative) contiguous in the first chain. */
    method Pullup(wanted: int) returns (p: Chain?)
      requires Valid()
      modifies this, spine
      ensures Valid() && fresh(spine - old(spine))
      ensures freezeStart == old(freezeStart) && freezeEnd == old(freezeEnd)
      ensures Contents() == old(Contents())
      ensures var size := if wanted < 0 then |Contents()| else wanted;
        && (p != null <==> 0 < size <= |Contents()|)
        && (p != null ==> && p == first && size <= p.off && p.misalign + p.off <= p.buffer.Length
                          && p.buffer[p.misalign..p.misalign + size] == Contents()[..size])
    {
      hide Segment, Flat, AllFull;
      var size := if wanted < 0 then totalLen else wanted;
      if size == 0 || size > totalLen {
        return null;
      }
      FirstIn();
      if first.off < size {
        if first.buffer.Length - first.misalign >= size {
          PullIntoFirst(size);
        } else {
          PullIntoNew(size);
        }
      }
      HeadData(size);
      p := first;
    }

    /** There is room in the first chain. */
    method PullIntoFirst(size: nat)
      requires Valid() && first != null && first.off < size <= totalLen
      requires first.buffer.Length - first.misalign >= size
      modifies this, spine
      ensures Valid() && spine <= old(spine) && Contents() == old(Contents())
      ensures freezeStart == old(freezeStart) && freezeEnd == old(freezeEnd) && totalLen == old(totalLen)
      ensures first != null && first.off >= size
    {
      TwoChains();
      SegmentApart(chains, pieces, null, spine, 1);
      assert Footprint(chains[..1]) == {first, first.buffer};
      AllFullSuffix(pieces, 1);
      assert pieces == [pieces[0]] + pieces[1..];
      FlatPrepend(pieces[0], pieces[1..]);
      Gather(first, first.next, size - first.off, chains[1..], pieces[1..], spine - {first, first.buffer});
    }

    /** A new first chain takes the bytes. */
    method PullIntoNew(size: nat)
      requires Valid() && first != null && first.off < size <= totalLen
      modifies this, spine
      ensures Valid() && fresh(spine - old(spine)) && Contents() == old(Contents())
      ensures freezeStart == old(freezeStart) && freezeEnd == old(freezeEnd) && totalLen == old(totalLen)
      ensures first != null && first.off >= size
    {
      TwoChains();
      var tmp := new Chain(size);
      var chain := first;
      first := tmp;
      Gather(tmp, chain, size, chains, pieces, spine);
    }

    /** More data than the first chain holds means at least two chains, all with data. */
    lemma TwoChains()
      requires Valid() && first != null && first.off < totalLen
      ensures |chains| >= 2 && AllFull(pieces) && Deref(lastWithDatap) == chains[|chains| - 1]
    {
      if |chains| == 1 {
        assert pieces == [pieces[0]];
        FlatOne(pieces[0]);
      }
    }
  }
}

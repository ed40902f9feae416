/** Searching a chunked buffer (libevent/buffer.c): byte and string search, line ends, readln. */
module EvbufferSearch {
  import opened Bytes
  import opened Evbuffer
  import opened Options

  const EV_SSIZE_MAX := 0x7fff_ffff_ffff_ffff
  const CR: byte := 13
  const LF: byte := 10
  const CHUNK_SZ := 128

  /** struct evbuffer_ptr: a flat position together with the chain it falls in. */
  datatype Ptr = Ptr(pos: int, chain: Chain?, posInChain: nat)

  /** `it` designates a position in chain k of `buf`, or the end of the buffer if k is past the chains. */
  ghost predicate PtrAt(buf: EvBuffer, it: Ptr, k: nat)
    reads buf, buf.spine
  {
    && buf.Valid() && k <= |buf.chains|
    && it.chain == (if k < |buf.chains| then buf.chains[k] else null)
    && it.posInChain <= (if k < |buf.chains| then |buf.pieces[k]| else 0)
    && it.pos == |FlatTo(buf.pieces, k)| + it.posInChain
  }

  ghost predicate PtrOk(buf: EvBuffer, it: Ptr)
    reads buf, buf.spine
  {
    buf.Valid() && exists k :: PtrAt(buf, it, k)
  }

  lemma PtrBound(buf: EvBuffer, it: Ptr, k: nat)
    requires PtrAt(buf, it, k)
    ensures 0 <= it.pos <= |buf.Contents()|
    ensures it.chain != null && it.posInChain < it.chain.off ==> it.pos < |buf.Contents()|
    ensures it.chain == null ==> it.pos == |buf.Contents()|
  {
    if k < |buf.chains| {
      FlatPiece(buf.pieces, k);
    }
  }

  /** What a pointer into chain k knows about that chain. */
  lemma PtrChain(buf: EvBuffer, it: Ptr, k: nat)
    requires PtrAt(buf, it, k) && it.chain != null
    ensures k < |buf.chains| == |buf.pieces|
    ensures it.chain.Ok() && it.chain.data == buf.pieces[k] && it.posInChain <= it.chain.off
    ensures it.pos == |FlatTo(buf.pieces, k)| + it.posInChain
    ensures it.chain.next == if k + 1 < |buf.chains| then buf.chains[k + 1] else null
    ensures |FlatTo(buf.pieces, k + 1)| == |FlatTo(buf.pieces, k)| + it.chain.off <= |buf.Contents()|
    ensures forall i {:trigger buf.Contents()[i]} :: |FlatTo(buf.pieces, k)| <= i < |FlatTo(buf.pieces, k + 1)| ==>
      buf.Contents()[i] == it.chain.data[i - |FlatTo(buf.pieces, k)|]
    ensures k + 1 == |buf.chains| ==> |FlatTo(buf.pieces, k + 1)| == |buf.Contents()|
  {
    hide FlatTo;
    FlatPiece(buf.pieces, k);
  }

  lemma PtrStart(buf: EvBuffer)
    requires buf.Valid()
    ensures PtrAt(buf, Ptr(0, buf.first, 0), 0)
  {
    FlatZero(buf.pieces);
  }

  /** Moving within a chain. */
  lemma PtrMove(buf: EvBuffer, it: Ptr, k: nat, p: nat)
    requires PtrAt(buf, it, k) && it.chain != null && p <= it.chain.off
    ensures PtrAt(buf, Ptr(it.pos + (p - it.posInChain), it.chain, p), k)
  {
    hide FlatTo;
  }

  /** The end of one chain is the start of the next. */
  lemma PtrNext(buf: EvBuffer, it: Ptr, k: nat)
    requires PtrAt(buf, it, k) && it.chain != null && it.posInChain == it.chain.off
    ensures k < |buf.chains| && PtrAt(buf, Ptr(it.pos, it.chain.next, 0), k + 1)
  {
    hide FlatTo;
    FlatPiece(buf.pieces, k);
  }

  // ---------- the flat reference ----------

  /** `what` occurs in s at position m. */
  ghost predicate MatchAt(s: seq<byte>, what: seq<byte>, m: int) {
    0 <= m && m + |what| <= |s| && s[m..m + |what|] == what
  }

  predicate IsEol(b: byte) {
    b == CR || b == LF
  }

  // ---------- scanning one chain ----------

  /** memchr in the data of a chain, from `from` to `to`. */
  method Memchr(chain: Chain, from: nat, to: nat, b: byte) returns (r: int)
    requires chain.Ok() && from <= to <= chain.off
    ensures r == -1 || from <= r < to
    ensures r >= 0 ==> chain.data[r] == b
    ensures forall j :: from <= j < (if r >= 0 then r else to) ==> chain.data[j] != b
  {
    r := from;
    while r < to
      invariant from <= r <= to && forall j :: from <= j < r ==> chain.data[j] != b
    {
      if chain.buffer[chain.misalign + r] == b {
        return;
      }
      r := r + 1;
    }
    r := -1;
  }

  /** find_eol_char: the first CR or LF, looked for in chunks of 128 bytes. */
  method FindEolIn(chain: Chain, from: nat) returns (r: int)
    requires chain.Ok() && from <= chain.off
    ensures r == -1 || from <= r < chain.off
    ensures r >= 0 ==> IsEol(chain.data[r])
    ensures forall j :: from <= j < (if r >= 0 then r else chain.off) ==> !IsEol(chain.data[j])
  {
    var s := from;
    while s < chain.off
      invariant from <= s
      invariant forall j :: from <= j < s && j < chain.off ==> !IsEol(chain.data[j])
    {
      var chunk := if s + CHUNK_SZ < chain.off then CHUNK_SZ else chain.off - s;
      var cr := Memchr(chain, s, s + chunk, CR);
      var lf := Memchr(chain, s, s + chunk, LF);
      if cr >= 0 {
        if lf >= 0 && lf < cr {
          return lf;
        }
        return cr;
      } else if lf >= 0 {
        return lf;
      }
      s := s + CHUNK_SZ;
    }
    r := -1;
  }

  // ---------- scanning the chains ----------

  /** evbuffer_strchr: the first byte `chr` at or after the pointer. */
  method Strchr(buf: EvBuffer, it0: Ptr, chr: byte) returns (it: Ptr, found: bool)
    requires PtrOk(buf, it0)
    ensures found ==> PtrOk(buf, it) && it0.pos <= it.pos < |buf.Contents()| && buf.Contents()[it.pos] == chr
    ensures forall j :: it0.pos <= j < (if found then it.pos else |buf.Contents()|) ==> buf.Contents()[j] != chr
  {
    hide FlatTo, PtrAt, EvBuffer.Valid, EvBuffer.Contents;
    ghost var k: nat :| PtrAt(buf, it0, k);
    PtrBound(buf, it0, k);
    it := it0;
    var chain, i := it0.chain, it0.posInChain;
    while chain != null
      invariant PtrAt(buf, Ptr(it.pos, chain, i), k) && it0.pos <= it.pos <= |buf.Contents()|
      invariant forall j :: it0.pos <= j < it.pos ==> buf.Contents()[j] != chr
      decreases |buf.chains| - k
    {
      PtrChain(buf, Ptr(it.pos, chain, i), k);
      var cp := Memchr(chain, i, chain.off, chr);
      if cp >= 0 {
        PtrMove(buf, Ptr(it.pos, chain, i), k, cp);
        it := Ptr(it.pos + (cp - i), chain, cp);
        return it, true;
      }
      PtrMove(buf, Ptr(it.pos, chain, i), k, chain.off);
      PtrNext(buf, Ptr(it.pos + (chain.off - i), chain, chain.off), k);
      it := it.(pos := it.pos + (chain.off - i));
      i, chain, k := 0, chain.next, k + 1;
    }
    PtrBound(buf, Ptr(it.pos, chain, i), k);
    found := false;
  }

  /** evbuffer_find_eol_char: the first CR or LF at or after the pointer. */
  method FindEolChar(buf: EvBuffer, it0: Ptr) returns (it: Ptr, found: bool)
    requires PtrOk(buf, it0)
    ensures found ==> PtrOk(buf, it) && it0.pos <= it.pos < |buf.Contents()| && IsEol(buf.Contents()[it.pos])
    ensures found ==> it.chain != null && it.posInChain < it.chain.off
    ensures forall j :: it0.pos <= j < (if found then it.pos else |buf.Contents()|) ==> !IsEol(buf.Contents()[j])
  {
    hide FlatTo, PtrAt, EvBuffer.Valid, EvBuffer.Contents;
    ghost var k: nat :| PtrAt(buf, it0, k);
    PtrBound(buf, it0, k);
    it := it0;
    var chain, i := it0.chain, it0.posInChain;
    while chain != null
      invariant PtrAt(buf, Ptr(it.pos, chain, i), k) && it0.pos <= it.pos <= |buf.Contents()|
      invariant forall j :: it0.pos <= j < it.pos ==> !IsEol(buf.Contents()[j])
      decreases |buf.chains| - k
    {
      PtrChain(buf, Ptr(it.pos, chain, i), k);
      var cp := FindEolIn(chain, i);
      if cp >= 0 {
        PtrMove(buf, Ptr(it.pos, chain, i), k, cp);
        it := Ptr(it.pos + (cp - i), chain, cp);
        return it, true;
      }
      PtrMove(buf, Ptr(it.pos, chain, i), k, chain.off);
      PtrNext(buf, Ptr(it.pos + (chain.off - i), chain, chain.off), k);
      it := it.(pos := it.pos + (chain.off - i));
      i, chain, k := 0, chain.next, k + 1;
    }
    PtrBound(buf, Ptr(it.pos, chain, i), k);
    found := false;
  }

  /** evbuffer_strspn: how many bytes from the pointer on are in `chrset`. */
  method Strspn(buf: EvBuffer, it: Ptr, chrset: seq<byte>) returns (count: int, moved: Ptr)
    requires PtrOk(buf, it)
    ensures count == -1 <==> it.chain == null
    ensures it.chain == null ==> moved == it
    ensures it.chain != null ==>
      && 0 <= count && it.pos + count <= |buf.Contents()|
      && (forall j :: it.pos <= j < it.pos + count ==> buf.Contents()[j] in chrset)
      && moved.pos == it.pos + count
      && (moved.pos < |buf.Contents()| ==> buf.Contents()[moved.pos] !in chrset && PtrOk(buf, moved))
      && (moved.pos == |buf.Contents()| ==> moved.chain == buf.last && moved.posInChain == 0)
  {
    hide FlatTo;
    ghost var k: nat :| PtrAt(buf, it, k);
    PtrBound(buf, it, k);
    count := 0;
    var chain, i: nat := it.chain, it.posInChain;
    if chain == null {
      return -1, it;
    }
    while true
      invariant chain != null && PtrAt(buf, Ptr(it.pos + count, chain, i), k)
      invariant 0 <= count && it.pos + count <= |buf.Contents()|
      invariant forall j :: it.pos <= j < it.pos + count ==> buf.Contents()[j] in chrset
      decreases |buf.chains| - k
    {
      FlatPiece(buf.pieces, k);
      while i < chain.off
        invariant i <= chain.off && it.pos + count == |FlatTo(buf.pieces, k)| + i
        invariant 0 <= count && it.pos + count <= |buf.Contents()|
        invariant forall j :: it.pos <= j < it.pos + count ==> buf.Contents()[j] in chrset
      {
        if chain.buffer[chain.misalign + i] !in chrset {
          assert chain.data[i] == buf.Contents()[it.pos + count];
          assert PtrAt(buf, Ptr(it.pos + count, chain, i), k);
          return count, Ptr(it.pos + count, chain, i);
        }
        assert chain.data[i] == buf.Contents()[it.pos + count];
        count, i := count + 1, i + 1;
      }
      i := 0;
      if chain.next == null {
        return count, Ptr(it.pos + count, chain, 0);
      }
      chain, k := chain.next, k + 1;
    }
  }

  datatype How = PtrSetTo | PtrAdd

  /** evbuffer_ptr_set: an absolute or relative move, which fails when it leaves the data. */
  method PtrSet(buf: EvBuffer, from: Ptr, position: nat, how: How) returns (pos: Ptr, r: int)
    requires buf.Valid() && (how == PtrAdd ==> PtrOk(buf, from))
    ensures var target := if how == PtrSetTo then position else from.pos + position;
      && r == (if target < |buf.Contents()| then 0 else -1)
      && (r == 0 ==> PtrOk(buf, pos) && pos.pos == target && pos.chain != null && pos.posInChain < pos.chain.off)
      && (r == -1 ==> pos.pos == -1 && pos.chain == null)
  {
    hide FlatTo, PtrAt, EvBuffer.Valid, EvBuffer.Contents;
    var left: nat := position;
    PtrStart(buf);
    ghost var k: nat := 0;
    var chain, inChain: nat := buf.first, 0;
    pos := from.(pos := position);
    match how {
      case PtrSetTo =>
      case PtrAdd =>
        k :| PtrAt(buf, from, k);
        chain, inChain := from.chain, from.posInChain;
        pos := from.(pos := from.pos + position);
    }
    while chain != null && inChain + left >= chain.off
      invariant PtrAt(buf, Ptr(pos.pos - left, chain, inChain), k)
      decreases |buf.chains| - k
    {
      ghost var at := Ptr(pos.pos - left, chain, inChain);
      PtrChain(buf, at, k);
      PtrMove(buf, at, k, chain.off);
      PtrNext(buf, Ptr(at.pos + (chain.off - inChain), chain, chain.off), k);
      left := left - (chain.off - inChain);
      inChain, chain, k := 0, chain.next, k + 1;
    }
    PtrBound(buf, Ptr(pos.pos - left, chain, inChain), k);
    if chain != null {
      PtrChain(buf, Ptr(pos.pos - left, chain, inChain), k);
      PtrMove(buf, Ptr(pos.pos - left, chain, inChain), k, inChain + left);
      pos := Ptr(pos.pos, chain, inChain + left);
      r := 0;
    } else {
      pos := Ptr(-1, null, pos.posInChain);
      r := -1;
    }
  }

  /** memcmp of n bytes of a chain with n bytes of mem: the sign of the first difference. */
  method Memcmp(chain: Chain, position: nat, mem: seq<byte>, from: nat, n: nat) returns (r: int, ghost i: nat)
    requires chain.Ok() && position + n <= chain.off && from + n <= |mem|
    ensures r == 0 <==> chain.data[position..position + n] == mem[from..from + n]
    ensures r != 0 ==> i < n && Differ(chain.data[position..position + n], mem[from..from + n], i, r)
  {
    var k := 0;
    i := 0;
    while k < n
      invariant i == k <= n && chain.data[position..position + k] == mem[from..from + k]
    {
      var x, y := chain.buffer[chain.misalign + position + k], mem[from + k];
      if x != y {
        ghost var a, b := chain.data[position..position + n], mem[from..from + n];
        assert a[k] != b[k] && a[..k] == chain.data[position..position + k] && b[..k] == mem[from..from + k];
        r := if x < y then -1 else 1;
        return;
      }
      assert chain.data[position..position + (k + 1)] == chain.data[position..position + k] + [x];
      assert mem[from..from + (k + 1)] == mem[from..from + k] + [y];
      k, i := k + 1, i + 1;
    }
    r := 0;
  }

  /** Two byte strings differ first at i, and r has the sign of the difference. */
  ghost predicate Differ(a: seq<byte>, b: seq<byte>, i: nat, r: int) {
    i < |a| && i < |b| && a[..i] == b[..i] && (if r < 0 then a[i] < b[i] else a[i] > b[i])
  }

  /** evbuffer_ptr_memcmp: zero exactly when `mem` occurs at the pointer. */
  method PtrMemcmp(buf: EvBuffer, pos: Ptr, mem: seq<byte>) returns (r: int)
    requires PtrOk(buf, pos)
    ensures r == 0 <==> MatchAt(buf.Contents(), mem, pos.pos)
    ensures pos.pos + |mem| > |buf.Contents()| ==> r == -1
    ensures r != 0 && pos.pos + |mem| <= |buf.Contents()| ==>
      exists i :: DifferAt(buf.Contents(), pos.pos, mem, i, r)
  {
    hide PtrAt, DifferAt, MatchAt, SameTo, EvBuffer.Valid, EvBuffer.Contents;
    TotalIs(buf);
    TooLong(buf.Contents(), mem, pos.pos);
    if pos.pos + |mem| > buf.totalLen {
      return -1;
    }
    ghost var k: nat :| PtrAt(buf, pos, k);
    PtrBound(buf, pos, k);
    var chain, position: nat, done: nat := pos.chain, pos.posInChain, 0;
    NoneDone(buf.Contents(), pos.pos, mem);
    while done < |mem| && chain != null
      invariant done <= |mem| && (done < |mem| ==> chain != null && PtrAt(buf, Ptr(pos.pos + done, chain, position), k))
      invariant SameTo(buf.Contents(), pos.pos, mem, done)
      decreases |mem| - done, |buf.chains| - k
    {
      ghost var at := Ptr(pos.pos + done, chain, position);
      PtrIn(buf, at, k);
      var len := |mem| - done;
      var comparable := if len + position > chain.off then chain.off - position else len;
      r := CompareIn(buf, at, chain, position, mem, pos.pos, done, comparable, k);
      if r != 0 {
        return;
      }
      PtrMove(buf, at, k, position + comparable);
      if done + comparable < |mem| {
        PtrNext(buf, Ptr(at.pos + comparable, chain, position + comparable), k);
        PtrBound(buf, Ptr(at.pos + comparable, chain.next, 0), k + 1);
      }
      done, position, chain, k := done + comparable, 0, chain.next, k + 1;
    }
    AllDone(buf.Contents(), pos.pos, mem);
    r := 0;
  }

  /** The first n bytes of mem stand at `at`. */
  ghost predicate SameTo(s: seq<byte>, at: int, mem: seq<byte>, n: int) {
    0 <= at && 0 <= n <= |mem| && at + n <= |s| && s[at..at + n] == mem[..n]
  }

  lemma NoneDone(s: seq<byte>, at: int, mem: seq<byte>)
    requires 0 <= at <= |s|
    ensures SameTo(s, at, mem, 0)
  {
  }

  lemma AllDone(s: seq<byte>, at: int, mem: seq<byte>)
    requires SameTo(s, at, mem, |mem|)
    ensures MatchAt(s, mem, at)
  {
  }

  lemma PtrIn(buf: EvBuffer, it: Ptr, k: nat)
    requires PtrAt(buf, it, k) && it.chain != null
    ensures k < |buf.chains| && it.chain.Ok() && it.posInChain <= it.chain.off
  {
    PtrChain(buf, it, k);
  }

  /** One turn of the loop of evbuffer_ptr_memcmp: the next n bytes, all in one chain. */
  method CompareIn(buf: EvBuffer, ghost it: Ptr, chain: Chain, position: nat, mem: seq<byte>, at: nat, done: nat, n: nat, ghost k: nat)
    returns (r: int)
    requires PtrAt(buf, it, k) && it == Ptr(at + done, chain, position) && chain.Ok() && position + n <= chain.off
    requires done + n <= |mem| && at + |mem| <= |buf.Contents()| && SameTo(buf.Contents(), at, mem, done)
    ensures r == 0 ==> SameTo(buf.Contents(), at, mem, done + n)
    ensures r != 0 ==> !MatchAt(buf.Contents(), mem, at) && exists i :: DifferAt(buf.Contents(), at, mem, i, r)
  {
    hide FlatTo, PtrAt, Differ, DifferAt, MatchAt, EvBuffer.Valid, EvBuffer.Contents;
    ChainPiece(buf, it, k, n);
    ghost var i;
    r, i := Memcmp(chain, position, mem, done, n);
    SplitMatch(buf.Contents(), mem, at, done, n);
    if r != 0 {
      DifferInPart(buf.Contents(), at, mem, done, n, i, r);
    }
  }

  lemma TotalIs(buf: EvBuffer)
    requires buf.Valid()
    ensures buf.totalLen == |buf.Contents()|
  {
  }

  lemma TooLong(s: seq<byte>, mem: seq<byte>, at: int)
    ensures at + |mem| > |s| ==> !MatchAt(s, mem, at)
  {
  }

  /** What stands at `at` differs from mem first at its byte i, and r has the sign of the difference. */
  ghost predicate DifferAt(s: seq<byte>, at: int, mem: seq<byte>, i: int, r: int) {
    && 0 <= at && 0 <= i < |mem| && at + i < |s| && s[at..at + i] == mem[..i]
    && (if r < 0 then s[at + i] < mem[i] else s[at + i] > mem[i])
  }

  /** A difference in a part, behind an equal part, is the first difference. */
  lemma DifferInPart(s: seq<byte>, at: nat, mem: seq<byte>, done: nat, n: nat, i: nat, r: int)
    requires done + n <= |mem| && at + |mem| <= |s| && s[at..at + done] == mem[..done]
    requires Differ(s[at + done..at + done + n], mem[done..done + n], i, r)
    ensures DifferAt(s, at, mem, done + i, r)
  {
    assert s[at..at + (done + i)] == s[at..at + done] + s[at + done..at + done + n][..i];
    assert mem[..done + i] == mem[..done] + mem[done..done + n][..i];
  }

  /** n bytes from a pointer on, in the chain and in the flat string. */
  lemma ChainPiece(buf: EvBuffer, it: Ptr, k: nat, n: nat)
    requires PtrAt(buf, it, k) && it.chain != null && it.chain.Ok() && it.posInChain + n <= it.chain.off
    ensures 0 <= it.pos && it.pos + n <= |buf.Contents()|
    ensures buf.Contents()[it.pos..it.pos + n] == it.chain.data[it.posInChain..it.posInChain + n]
  {
    hide FlatTo, PtrAt, EvBuffer.Valid, EvBuffer.Contents;
    PtrChain(buf, it, k);
    PieceMatch(buf.Contents(), it.chain.data, it.posInChain, it.pos, n);
  }

  /** A stretch of chain data and the stretch of the flat string it stands for. */
  lemma PieceMatch(s: seq<byte>, data: seq<byte>, position: nat, at: nat, n: nat)
    requires position + n <= |data| && at + n <= |s|
    requires forall i {:trigger s[i]} :: at <= i < at + n ==> s[i] == data[i - at + position]
    ensures s[at..at + n] == data[position..position + n]
  {
  }

  lemma SplitMatch(s: seq<byte>, mem: seq<byte>, at: nat, done: nat, n: nat)
    requires done + n <= |mem| && at + |mem| <= |s| && s[at..at + done] == mem[..done]
    ensures s[at + done..at + done + n] == mem[done..done + n] ==> s[at..at + done + n] == mem[..done + n]
    ensures s[at + done..at + done + n] != mem[done..done + n] ==> !MatchAt(s, mem, at)
  {
    assert s[at..at + done + n] == s[at..at + done] + s[at + done..at + done + n];
    assert mem[..done + n] == mem[..done] + mem[done..done + n];
    if MatchAt(s, mem, at) {
      var a, b := s[at + done..at + done + n], mem[done..done + n];
      forall i | 0 <= i < n
        ensures a[i] == b[i]
      {
        assert s[at..at + |mem|][done + i] == mem[done + i];
      }
      assert a == b;
    }
  }

  // ---------- evbuffer_search_range ----------

  /** No occurrence of `what` starts in [from, to). */
  ghost predicate NoMatch(s: seq<byte>, what: seq<byte>, from: int, to: int) {
    forall m :: from <= m < to ==> !MatchAt(s, what, m)
  }

  /** The answer to a search for `what` in [from, limit): the least occurrence, or -1. */
  ghost predicate SearchResult(s: seq<byte>, what: seq<byte>, from: int, limit: int, pos: int) {
    if pos >= 0 then from <= pos && MatchAt(s, what, pos) && pos + |what| <= limit && NoMatch(s, what, from, pos)
    else pos == -1 && NoMatch(s, what, from, limit - |what| + 1)
  }

  /** evbuffer_search_range: the least occurrence at or after `start` that ends by `end`; pos -1 if there is none. */
  method SearchRange(buf: EvBuffer, what: seq<byte>, start: Option<Ptr>, end: Option<Ptr>) returns (pos: Ptr)
    requires buf.Valid() && (start.Some? ==> PtrOk(buf, start.value)) && (end.Some? ==> PtrOk(buf, end.value))
    ensures var from := if start.Some? then start.value.pos else 0;
      var limit := if end.Some? then end.value.pos else |buf.Contents()|;
      if what == [] || |what| > EV_SSIZE_MAX then PtrOk(buf, pos) && pos.pos == from
      else SearchResult(buf.Contents(), what, from, limit, pos.pos) && (pos.pos >= 0 ==> PtrOk(buf, pos))
  {
    PtrStart(buf);
    pos := if start.Some? then start.value else Ptr(0, buf.first, 0);
    if what != [] && |what| <= EV_SSIZE_MAX {
      pos := SearchFrom(buf, what, pos, end);
    }
  }

  /** The loop of evbuffer_search_range. */
  method SearchFrom(buf: EvBuffer, what: seq<byte>, start: Ptr, end: Option<Ptr>) returns (pos: Ptr)
    requires PtrOk(buf, start) && what != [] && (end.Some? ==> PtrOk(buf, end.value))
    ensures SearchResult(buf.Contents(), what, start.pos, if end.Some? then end.value.pos else |buf.Contents()|, pos.pos)
    ensures pos.pos >= 0 ==> PtrOk(buf, pos)
  {
    hide FlatTo, MatchAt, NoMatch, SearchResult, PtrAt, EvBuffer.Valid, EvBuffer.Contents;
    pos := start;
    ghost var k: nat :| PtrAt(buf, pos, k);
    var chain := pos.chain;
    var lastChain := if end.Some? then end.value.chain else null;
    ghost var from, s := pos.pos, buf.Contents();
    NoMatchEmpty(s, what, from);
    PtrBound(buf, pos, k);
    while chain != null
      invariant PtrAt(buf, pos, k) && chain == pos.chain && 0 <= from <= pos.pos && NoMatch(s, what, from, pos.pos)
      decreases |buf.chains| - k, if chain != null then chain.off - pos.posInChain else 0
    {
      PtrChain(buf, pos, k);
      var p := Memchr(chain, pos.posInChain, chain.off, what[0]);
      NoFirst(buf, pos, k, what, if p >= 0 then p else chain.off);
      if p >= 0 {
        NoMatchJoin(s, what, from, pos.pos, pos.pos + (p - pos.posInChain));
        PtrMove(buf, pos, k, p);
        pos := Ptr(pos.pos + (p - pos.posInChain), chain, p);
        var c := PtrMemcmp(buf, pos, what);
        if c == 0 {
          if end.Some? && pos.pos + |what| > end.value.pos {
            NotFound(s, what, from, pos.pos, end.value.pos);
            return Ptr(-1, null, pos.posInChain);
          }
          Found(s, what, from, pos.pos, if end.Some? then end.value.pos else |s|);
          return;
        }
        NoMatchNext(s, what, from, pos.pos);
        pos, k := StepOver(buf, pos, k);
        chain := pos.chain;
      } else {
        NoMatchJoin(s, what, from, pos.pos, pos.pos + chain.off - pos.posInChain);
        if chain == lastChain {
          EndInChain(buf, pos, k, end.value);
          NotFound(s, what, from, pos.pos + chain.off - pos.posInChain, end.value.pos);
          return Ptr(-1, null, pos.posInChain);
        }
        PtrMove(buf, pos, k, chain.off);
        PtrNext(buf, Ptr(pos.pos + chain.off - pos.posInChain, chain, chain.off), k);
        pos, k := Ptr(pos.pos + chain.off - pos.posInChain, chain.next, 0), k + 1;
        chain := pos.chain;
      }
    }
    PtrBound(buf, pos, k);
    if end.Some? {
      PtrOkBound(buf, end.value);
    }
    NotFound(s, what, from, pos.pos, if end.Some? then end.value.pos else |s|);
    pos := Ptr(-1, null, pos.posInChain);
  }

  /** The next position, at the start of the next chain if this one ends. */
  method StepOver(buf: EvBuffer, it: Ptr, ghost k: nat) returns (pos: Ptr, ghost k': nat)
    requires PtrAt(buf, it, k) && it.chain != null && it.posInChain < it.chain.off
    ensures pos.pos == it.pos + 1 && PtrAt(buf, pos, k')
    ensures k' == k + 1 || (k' == k && pos.chain == it.chain && pos.posInChain == it.posInChain + 1)
    ensures k' <= |buf.chains|
  {
    hide FlatTo;
    PtrMove(buf, it, k, it.posInChain + 1);
    pos, k' := Ptr(it.pos + 1, it.chain, it.posInChain + 1), k;
    if pos.posInChain == it.chain.off {
      PtrNext(buf, pos, k);
      pos, k' := Ptr(pos.pos, it.chain.next, 0), k + 1;
    }
  }

  lemma NoMatchEmpty(s: seq<byte>, what: seq<byte>, a: int)
    ensures NoMatch(s, what, a, a)
  {
  }

  lemma NoMatchJoin(s: seq<byte>, what: seq<byte>, a: int, b: int, c: int)
    requires NoMatch(s, what, a, b) && NoMatch(s, what, b, c)
    ensures NoMatch(s, what, a, c)
  {
  }

  lemma NoMatchNext(s: seq<byte>, what: seq<byte>, a: int, b: int)
    requires NoMatch(s, what, a, b) && !MatchAt(s, what, b)
    ensures NoMatch(s, what, a, b + 1)
  {
  }

  /** An end at or before the place searched up to: nothing that fits was found. */
  lemma NotFound(s: seq<byte>, what: seq<byte>, from: int, to: int, limit: int)
    requires NoMatch(s, what, from, to) && limit - |what| < to
    ensures SearchResult(s, what, from, limit, -1)
  {
  }

  lemma Found(s: seq<byte>, what: seq<byte>, from: int, p: int, limit: int)
    requires NoMatch(s, what, from, p) && MatchAt(s, what, p) && from <= p && (p + |what| <= limit || limit == |s|)
    ensures SearchResult(s, what, from, limit, p)
  {
  }

  lemma PtrOkBound(buf: EvBuffer, it: Ptr)
    requires PtrOk(buf, it)
    ensures 0 <= it.pos <= |buf.Contents()|
  {
    var k: nat :| PtrAt(buf, it, k);
    PtrBound(buf, it, k);
  }

  /** A pointer into the same chain lies before the end of that chain. */
  lemma EndInChain(buf: EvBuffer, pos: Ptr, k: nat, end: Ptr)
    requires PtrAt(buf, pos, k) && pos.chain != null && PtrOk(buf, end) && end.chain == pos.chain
    ensures end.pos <= pos.pos + pos.chain.off - pos.posInChain
  {
    var j: nat :| PtrAt(buf, end, j);
    assert buf.chains[j].buffer == buf.chains[k].buffer;
  }

  /** No occurrence starts where the chain data differs from the first byte. */
  lemma NoFirst(buf: EvBuffer, pos: Ptr, k: nat, what: seq<byte>, to: nat)
    requires PtrAt(buf, pos, k) && pos.chain != null && what != []
    requires pos.chain.Ok() && pos.posInChain <= to <= pos.chain.off
    requires forall j :: pos.posInChain <= j < to ==> pos.chain.data[j] != what[0]
    ensures NoMatch(buf.Contents(), what, pos.pos, pos.pos + to - pos.posInChain)
  {
    hide FlatTo, Segment, AllFull;
    PtrChain(buf, pos, k);
    var s := buf.Contents();
    forall m | pos.pos <= m < pos.pos + to - pos.posInChain
      ensures !MatchAt(s, what, m)
    {
      assert s[m] != what[0];
      assert m + |what| <= |s| ==> s[m..m + |what|][0] == s[m];
    }
  }

  // ---------- lines ----------

  datatype EolStyle = EolAny | EolCrlf | EolCrlfStrict | EolLf

  /** The length of the run of CR and LF bytes that starts at p. */
  ghost function RunLen(s: seq<byte>, p: nat): nat
    requires p <= |s|
    decreases |s| - p
  {
    if p < |s| && IsEol(s[p]) then 1 + RunLen(s, p + 1) else 0
  }

  /** The length of the line terminator that starts at p; 0 if none does. */
  ghost function EolLen(style: EolStyle, s: seq<byte>, p: nat): nat
    requires p < |s|
  {
    match style
    case EolAny => RunLen(s, p)
    case EolCrlfStrict => if MatchAt(s, [CR, LF], p) then 2 else 0
    case EolCrlf => if s[p] == LF then 1 else if MatchAt(s, [CR, LF], p) then 2 else 0
    case EolLf => if s[p] == LF then 1 else 0
  }

  ghost predicate NoEol(style: EolStyle, s: seq<byte>, from: nat, to: nat) {
    to <= |s| && forall j :: from <= j < to ==> EolLen(style, s, j) == 0
  }

  /** p is where the first line at or after `from` ends. */
  ghost predicate FirstEol(style: EolStyle, s: seq<byte>, from: nat, p: nat) {
    from <= p < |s| && EolLen(style, s, p) > 0 && NoEol(style, s, from, p)
  }

  /** CR is 13 and LF is 10: what ends a line, between the line and what follows. */
  ghost predicate Terminated(style: EolStyle, line: seq<byte>, t: seq<byte>, rest: seq<byte>) {
    match style
    case EolLf => t == [10] && 10 !in line
    case EolCrlfStrict => t == [13, 10] && NoPair(line + t)
    case EolCrlf => (t == [13, 10] || (t == [10] && (line == [] || line[|line| - 1] != 13))) && 10 !in line
    case EolAny =>
      && t != [] && (forall i :: 0 <= i < |t| ==> t[i] == 10 || t[i] == 13)
      && (rest == [] || (rest[0] != 10 && rest[0] != 13))
      && 10 !in line && 13 !in line
  }

  /** No 13, 10 but for one at the very end. */
  ghost predicate NoPair(s: seq<byte>) {
    forall i :: 0 <= i && i + 2 < |s| ==> !(s[i] == 13 && s[i + 1] == 10)
  }

  /** A byte string without the end of a line. */
  ghost predicate Unterminated(style: EolStyle, s: seq<byte>) {
    match style
    case EolLf => 10 !in s
    case EolCrlfStrict => forall i :: 0 <= i && i + 1 < |s| ==> !(s[i] == 13 && s[i + 1] == 10)
    case EolCrlf => 10 !in s
    case EolAny => 10 !in s && 13 !in s
  }

  ghost predicate PairOn(s: seq<byte>, p: int) {
    0 <= p && p + 1 < |s| && s[p] == 13 && s[p + 1] == 10
  }

  /** The terminators, byte by byte. */
  lemma EolLenIs(style: EolStyle, s: seq<byte>, p: nat)
    requires p < |s|
    ensures style == EolLf ==> EolLen(style, s, p) == if s[p] == 10 then 1 else 0
    ensures style == EolCrlfStrict ==> EolLen(style, s, p) == if PairOn(s, p) then 2 else 0
    ensures style == EolCrlf ==> EolLen(style, s, p) == if s[p] == 10 then 1 else if PairOn(s, p) then 2 else 0
    ensures style == EolAny ==> (EolLen(style, s, p) > 0 <==> s[p] == 10 || s[p] == 13)
  {
    if p + 1 < |s| {
      assert s[p..p + 2] == [s[p], s[p + 1]];
    }
  }

  /** Where the first line ends, on the bytes. */
  lemma FirstEolIs(style: EolStyle, s: seq<byte>, from: nat, p: nat)
    requires FirstEol(style, s, from, p)
    ensures var n := EolLen(style, s, p); p + n <= |s| && Terminated(style, s[from..p], s[p..p + n], s[p + n..])
  {
    hide EolLen;
    var n := EolLen(style, s, p);
    EolLenIs(style, s, p);
    match style
    case EolAny =>
      AnyEol(s, p);
      forall j | from <= j < p ensures s[j] != 10 && s[j] != 13 {
        EolLenIs(style, s, j);
      }
    case EolLf =>
      forall j | from <= j < p ensures s[j] != 10 {
        EolLenIs(style, s, j);
      }
    case EolCrlfStrict =>
      forall j | from <= j < p ensures !PairOn(s, j) {
        EolLenIs(style, s, j);
      }
      StrictEnd(s, from, p);
    case EolCrlf =>
      forall j | from <= j < p ensures s[j] != 10 && !PairOn(s, j) {
        EolLenIs(style, s, j);
      }
      assert n == 1 && from < p ==> !PairOn(s, p - 1);
      assert s[p..p + n] == if n == 1 then [s[p]] else [s[p], s[p + 1]];
  }

  lemma StrictEnd(s: seq<byte>, from: nat, p: nat)
    requires from <= p && PairOn(s, p) && forall j :: from <= j < p ==> !PairOn(s, j)
    ensures s[p..p + 2] == [13, 10] && NoPair(s[from..p] + s[p..p + 2])
  {
    var t := s[from..p] + s[p..p + 2];
    assert t == s[from..p + 2];
    forall i | 0 <= i && i + 2 < |t| ensures !(t[i] == 13 && t[i + 1] == 10) {
      assert t[i] == s[from + i] && t[i + 1] == s[from + i + 1] && !PairOn(s, from + i);
    }
  }

  lemma AnyEol(s: seq<byte>, p: nat)
    requires p < |s|
    ensures var n := EolLen(EolAny, s, p); p + n <= |s| && (p + n < |s| ==> s[p + n] != 10 && s[p + n] != 13)
    ensures forall i :: p <= i < p + EolLen(EolAny, s, p) ==> s[i] == 10 || s[i] == 13
  {
    RunBytes(s, p);
  }

  lemma {:induction false} RunBytes(s: seq<byte>, p: nat)
    requires p <= |s|
    ensures p + RunLen(s, p) <= |s| && (p + RunLen(s, p) < |s| ==> !IsEol(s[p + RunLen(s, p)]))
    ensures forall i :: p <= i < p + RunLen(s, p) ==> IsEol(s[i])
    decreases |s| - p
  {
    if p < |s| && IsEol(s[p]) {
      RunBytes(s, p + 1);
    }
  }

  lemma NoEolIs(style: EolStyle, s: seq<byte>, from: nat)
    requires from <= |s|
    ensures NoEol(style, s, from, |s|) <==> Unterminated(style, s[from..])
  {
    hide EolLen, NoneAt, Unterminated;
    var r := s[from..];
    UnterminatedIs(style, r);
    forall j | from <= j < |s|
      ensures EolLen(style, s, j) == 0 <==> NoneAt(style, r, j - from)
    {
      NoneIs(style, s, j);
      NoneShifted(style, s, from, j);
    }
    if NoEol(style, s, from, |s|) {
      forall i | 0 <= i < |r| ensures NoneAt(style, r, i) {
        assert EolLen(style, s, from + i) == 0;
      }
    }
  }

  lemma NoneIs(style: EolStyle, s: seq<byte>, j: nat)
    requires j < |s|
    ensures EolLen(style, s, j) == 0 <==> NoneAt(style, s, j)
  {
    hide EolLen;
    EolLenIs(style, s, j);
  }

  lemma NoneShifted(style: EolStyle, s: seq<byte>, from: nat, j: nat)
    requires from <= j < |s|
    ensures NoneAt(style, s[from..], j - from) <==> NoneAt(style, s, j)
  {
    var r := s[from..];
    assert r[j - from] == s[j] && (j + 1 < |s| ==> r[j - from + 1] == s[j + 1]);
  }

  lemma UnterminatedIs(style: EolStyle, r: seq<byte>)
    ensures Unterminated(style, r) <==> forall i :: 0 <= i < |r| ==> NoneAt(style, r, i)
  {
    if !Unterminated(style, r) {
      var i := EndIn(style, r);
    }
  }

  ghost predicate NoneAt(style: EolStyle, s: seq<byte>, j: nat)
    requires j < |s|
  {
    match style
    case EolLf => s[j] != 10
    case EolCrlfStrict => !PairOn(s, j)
    case EolCrlf => s[j] != 10 && !PairOn(s, j)
    case EolAny => s[j] != 10 && s[j] != 13
  }

  lemma EndIn(style: EolStyle, r: seq<byte>) returns (i: nat)
    requires !Unterminated(style, r)
    ensures i < |r| && !NoneAt(style, r, i)
  {
    if style == EolCrlfStrict {
      i :| 0 <= i && i + 1 < |r| && r[i] == 13 && r[i + 1] == 10;
    } else {
      i :| 0 <= i < |r| && (r[i] == 10 || (style == EolAny && r[i] == 13));
    }
  }

  lemma {:induction false} RunLenIs(s: seq<byte>, p: nat, n: nat)
    requires p + n <= |s| && (forall j :: p <= j < p + n ==> IsEol(s[j]))
    requires p + n < |s| ==> !IsEol(s[p + n])
    ensures RunLen(s, p) == n
    decreases n
  {
    if n > 0 {
      RunLenIs(s, p + 1, n - 1);
    }
  }

  /** evbuffer_search_eol: where the first line at or after `start` ends, and its terminator's length. */
  method SearchEol(buf: EvBuffer, start: Option<Ptr>, style: EolStyle) returns (it: Ptr, eolLen: nat)
    requires buf.Valid() && (start.Some? ==> PtrOk(buf, start.value))
    ensures var from := if start.Some? then start.value.pos else 0;
      && 0 <= from <= |buf.Contents()|
      && (it.pos >= 0 ==> PtrOk(buf, it) && FirstEol(style, buf.Contents(), from, it.pos)
                          && eolLen == EolLen(style, buf.Contents(), it.pos))
      && (it.pos < 0 ==> it.pos == -1 && eolLen == 0 && NoEol(style, buf.Contents(), from, |buf.Contents()|))
    ensures var from, s := if start.Some? then start.value.pos else 0, buf.Contents();
      if it.pos < 0 then Unterminated(style, s[from..])
      else it.pos + eolLen <= |s| && Terminated(style, s[from..it.pos], s[it.pos..it.pos + eolLen], s[it.pos + eolLen..])
  {
    hide EolLen, FirstEol, NoEol, Terminated, Unterminated, PtrOk, EvBuffer.Valid, EvBuffer.Contents;
    it, eolLen := FindEol(buf, start, style);
    ghost var from := if start.Some? then start.value.pos else 0;
    if it.pos >= 0 {
      FirstEolIs(style, buf.Contents(), from, it.pos);
    } else {
      NoEolIs(style, buf.Contents(), from);
    }
  }

  /** The same, in terms of the lengths of terminators. */
  method FindEol(buf: EvBuffer, start: Option<Ptr>, style: EolStyle) returns (it: Ptr, eolLen: nat)
    requires buf.Valid() && (start.Some? ==> PtrOk(buf, start.value))
    ensures var from := if start.Some? then start.value.pos else 0;
      && 0 <= from <= |buf.Contents()|
      && (it.pos >= 0 ==> PtrOk(buf, it) && FirstEol(style, buf.Contents(), from, it.pos)
                          && eolLen == EolLen(style, buf.Contents(), it.pos))
      && (it.pos < 0 ==> it.pos == -1 && eolLen == 0 && NoEol(style, buf.Contents(), from, |buf.Contents()|))
  {
    hide FlatTo, Segment, AllFull;
    PtrStart(buf);
    it := if start.Some? then start.value else Ptr(0, buf.first, 0);
    PtrOkBound(buf, it);
    ghost var from, s := it.pos, buf.Contents();
    eolLen := 0;
    match style {
      case EolAny =>
        var found;
        it, found := FindEolChar(buf, it);
        if found {
          var n, _ := Strspn(buf, it, [CR, LF]);
          RunLenIs(s, it.pos, n);
          eolLen := n;
        }
        it := if found then it else it.(pos := -1);
      case EolCrlfStrict =>
        it := SearchRange(buf, [CR, LF], Some(it), None);
        eolLen := if it.pos >= 0 then 2 else 0;
      case EolCrlf =>
        it, eolLen := SearchCrlf(buf, it);
      case EolLf =>
        var found;
        it, found := Strchr(buf, it, LF);
        eolLen := if found then 1 else 0;
        it := if found then it else it.(pos := -1);
    }
  }

  /** The EVBUFFER_EOL_CRLF loop: an LF, or a CR with an LF right behind it. */
  method SearchCrlf(buf: EvBuffer, it0: Ptr) returns (it: Ptr, eolLen: nat)
    requires PtrOk(buf, it0) && 0 <= it0.pos
    ensures it.pos >= 0 ==> PtrOk(buf, it) && FirstEol(EolCrlf, buf.Contents(), it0.pos, it.pos)
                            && eolLen == EolLen(EolCrlf, buf.Contents(), it.pos)
    ensures it.pos < 0 ==> it.pos == -1 && eolLen == 0 && NoEol(EolCrlf, buf.Contents(), it0.pos, |buf.Contents()|)
  {
    hide FlatTo, Segment, AllFull;
    it, eolLen := it0, 0;
    ghost var s := buf.Contents();
    PtrOkBound(buf, it);
    while true
      invariant PtrOk(buf, it) && eolLen == 0 && 0 <= it0.pos <= it.pos <= |s| && NoEol(EolCrlf, s, it0.pos, it.pos)
      decreases |s| - it.pos
    {
      ghost var before := it.pos;
      var next, found := FindEolChar(buf, it);
      it := next;
      assert s == buf.Contents();
      if !found {
        NoCrlf(s, it0.pos, before, |s|);
        it := it.(pos := -1);
        return;
      }
      NoCrlf(s, it0.pos, before, it.pos);
      var c := GetChr(buf, it);
      if c == LF {
        eolLen := 1;
        return;
      }
      var m := PtrMemcmp(buf, it, [CR, LF]);
      if m == 0 {
        eolLen := 2;
        return;
      }
      ghost var at := it.pos;
      var r;
      it, r := PtrSet(buf, it, 1, PtrAdd);
      NoCrlfNext(s, it0.pos, at);
      if r < 0 {
        return;
      }
    }
  }

  /** evbuffer_getchr. */
  method GetChr(buf: EvBuffer, it: Ptr) returns (b: byte)
    requires PtrOk(buf, it) && it.chain != null && it.posInChain < it.chain.off
    ensures 0 <= it.pos < |buf.Contents()| && b == buf.Contents()[it.pos]
  {
    hide FlatTo, Segment, AllFull;
    ghost var k: nat :| PtrAt(buf, it, k);
    PtrChain(buf, it, k);
    b := it.chain.buffer[it.chain.misalign + it.posInChain];
  }

  lemma NoCrlf(s: seq<byte>, a: nat, b: nat, c: nat)
    requires NoEol(EolCrlf, s, a, b) && a <= b <= c <= |s| && forall j :: b <= j < c ==> !IsEol(s[j])
    ensures NoEol(EolCrlf, s, a, c)
  {
    forall j | b <= j < c
      ensures EolLen(EolCrlf, s, j) == 0
    {
      assert j + 2 <= |s| ==> s[j..j + 2][0] == s[j];
    }
  }

  lemma NoCrlfNext(s: seq<byte>, a: nat, b: nat)
    requires b < |s| && NoEol(EolCrlf, s, a, b) && EolLen(EolCrlf, s, b) == 0
    ensures NoEol(EolCrlf, s, a, b + 1)
  {
  }

  /** evbuffer_readln: take the first line off the buffer. The copy is NUL-terminated. */
  method Readln(buf: EvBuffer, style: EolStyle) returns (line: array?<byte>, nRead: nat)
    requires buf.Valid()
    modifies buf, buf.spine
    ensures buf.Valid() && buf.spine <= old(buf.spine)
    ensures buf.freezeStart == old(buf.freezeStart) && buf.freezeEnd == old(buf.freezeEnd)
    ensures line == null <==> old(buf.freezeStart) || NoEol(style, old(buf.Contents()), 0, |old(buf.Contents())|)
    ensures line == null ==> nRead == 0 && buf.Contents() == old(buf.Contents())
    ensures line != null ==>
      var s := old(buf.Contents());
      && FirstEol(style, s, 0, nRead) && fresh(line) && line.Length == nRead + 1 && line[nRead] == 0
      && nRead + EolLen(style, s, nRead) <= |s|
      && line[..nRead] == s[..nRead] && buf.Contents() == s[nRead + EolLen(style, s, nRead)..]
    ensures line == null && !old(buf.freezeStart) ==> Unterminated(style, old(buf.Contents()))
    ensures line != null ==>
      var s := old(buf.Contents());
      var n := |s| - |buf.Contents()|;
      nRead <= n && s == line[..nRead] + s[nRead..n] + buf.Contents() && Terminated(style, line[..nRead], s[nRead..n], buf.Contents())
  {
    hide EvBuffer.Valid, EvBuffer.Contents, EolLen, FirstEol, NoEol, Terminated, Unterminated;
    if buf.freezeStart {
      return null, 0;
    }
    ghost var s := buf.Contents();
    var it, extra := SearchEol(buf, None, style);
    if it.pos < 0 {
      assert s[0..] == s;
      return null, 0;
    }
    nRead := it.pos;
    LineFound(style, s, nRead);
    assert s[0..nRead] == s[..nRead];
    line := new byte[nRead + 1];
    var _ := buf.Remove(line, nRead);
    line[nRead] := 0;
    assert s[nRead..] == buf.Contents() && line[..nRead] == s[..nRead];
    var _ := buf.Drain(extra);
    assert s[nRead..][extra..] == s[nRead + extra..];
    assert s == s[..nRead] + s[nRead..nRead + extra] + s[nRead + extra..];
  }

  lemma {:induction false} RunFits(s: seq<byte>, p: nat)
    requires p <= |s|
    ensures p + RunLen(s, p) <= |s|
    decreases |s| - p
  {
    if p < |s| && IsEol(s[p]) {
      RunFits(s, p + 1);
    }
  }

  lemma LineFound(style: EolStyle, s: seq<byte>, p: nat)
    requires FirstEol(style, s, 0, p)
    ensures p < |s| && p + EolLen(style, s, p) <= |s| && !NoEol(style, s, 0, |s|)
  {
    RunFits(s, p);
  }
}

/** Token buckets (libevent/bufferevent_ratelim.c): the refill arithmetic and the bandwidth it allows. */
module TokenBucket {

  const TWO_32 := 0x1_0000_0000
  const TWO_63 := 0x8000_0000_0000_0000
  const TWO_64 := 0x1_0000_0000_0000_0000
  const INT_MAX := 0x7fff_ffff

  type uint32 = x: int | 0 <= x < TWO_32

  /** A value of type size_t. */
  function Wrap64(x: int): int {
    x % TWO_64
  }

  /** A value of type ev_ssize_t. */
  function Signed64(x: int): int {
    var u := x % TWO_64;
    if u >= TWO_63 then u - TWO_64 else u
  }

  /** Bytes per tick, and at most. */
  datatype Rate = Rate(rate: nat, maximum: nat) {
    /** What ev_token_bucket_cfg_new accepts. */
    predicate Ok() {
      1 <= rate <= maximum < TWO_63
    }
  }

  datatype Cfg = Cfg(read: Rate, write: Rate, msecPerTick: nat) {
    predicate Ok() {
      read.Ok() && write.Ok()
    }
  }

  /** A limit after n ticks, in the division-first form and the machine's arithmetic. */
  function Refilled(limit: int, r: Rate, n: nat): int
    requires n > 0
  {
    if Wrap64(r.maximum - limit) / n < r.rate then r.maximum else Signed64(limit + Wrap64(n * r.rate))
  }

  /** What a refill should give. */
  ghost function Naive(limit: int, r: Rate, n: nat): int {
    if limit + n * r.rate < r.maximum then limit + n * r.rate else r.maximum
  }

  lemma MulMonotone(a: nat, b: nat, n: nat)
    requires a <= b
    ensures a * n <= b * n
  {
  }

  lemma DivLess(d: nat, n: nat, r: nat)
    requires n > 0
    ensures d / n < r <==> d < n * r
  {
    var q, m := d / n, d % n;
    assert d == q * n + m && m < n;
    if q < r {
      MulMonotone(q + 1, r, n);
      assert (q + 1) * n == q * n + n;
    } else {
      MulMonotone(r, q, n);
    }
  }

  /** No overflow can make the refill differ from the naive one, as long as the limit is not above the maximum. */
  lemma RefilledIsNaive(limit: int, r: Rate, n: nat)
    requires n > 0 && -TWO_63 <= limit <= r.maximum < TWO_63
    ensures Refilled(limit, r, n) == Naive(limit, r, n)
  {
    var p := n * r.rate;
    assert 0 <= p;
    DivLess(r.maximum - limit, n, r.rate);
    NoWrap(limit, r.maximum, p);
  }

  lemma NoWrap(limit: int, maximum: int, p: nat)
    requires -TWO_63 <= limit <= maximum < TWO_63
    ensures Wrap64(maximum - limit) == maximum - limit
    ensures p <= maximum - limit ==> Signed64(limit + Wrap64(p)) == limit + p
  {
  }

  /**
   * The refill is the naive one if and only if the limit is not above the maximum, or so many ticks have passed that the
   * wrapped distance to the maximum is covered.
   */
  lemma RefilledExactly(limit: int, r: Rate, n: nat)
    requires n > 0 && r.Ok() && -TWO_63 <= limit < TWO_63
    ensures Refilled(limit, r, n) == Naive(limit, r, n) <==> limit <= r.maximum || n * r.rate >= TWO_64 - (limit - r.maximum)
  {
    if limit <= r.maximum {
      RefilledIsNaive(limit, r, n);
    } else {
      var p := n * r.rate;
      assert 0 <= p;
      DivLess(TWO_64 - (limit - r.maximum), n, r.rate);
      Overfull(limit, r.maximum, p);
    }
  }

  lemma Overfull(limit: int, maximum: nat, p: nat)
    requires maximum < limit < TWO_63
    ensures Wrap64(maximum - limit) == TWO_64 - (limit - maximum)
    ensures p < TWO_64 - (limit - maximum) ==> Signed64(limit + Wrap64(p)) != maximum
    ensures p == TWO_64 - (limit - maximum) ==> Signed64(limit + Wrap64(p)) == maximum
  {
  }

  /** A limit of one byte above the maximum, and one tick: it grows instead of being cut back. */
  lemma OverfullGrows()
    ensures var r := Rate(1, 1); r.Ok() && Refilled(2, r, 1) == 3 && Naive(2, r, 1) == 1
  {
  }

  /** struct ev_token_bucket. */
  class Bucket {
    var readLimit: int
    var writeLimit: int
    var lastUpdated: uint32

    ghost predicate Valid(cfg: Cfg)
      reads this
    {
      cfg.Ok() && -TWO_63 <= readLimit <= cfg.read.maximum && -TWO_63 <= writeLimit <= cfg.write.maximum
    }

    constructor ()
      ensures readLimit == 0 && writeLimit == 0 && lastUpdated == 0
    {
      readLimit, writeLimit, lastUpdated := 0, 0, 0;
    }

    /** ev_token_bucket_init of a new bucket. */
    method Init(cfg: Cfg, tick: uint32)
      requires cfg.Ok()
      modifies this
      ensures Valid(cfg) && readLimit == cfg.read.rate && writeLimit == cfg.write.rate && lastUpdated == tick
    {
      readLimit, writeLimit, lastUpdated := cfg.read.rate, cfg.write.rate, tick;
    }

    /** ev_token_bucket_init of a bucket in use: clipped downwards only. */
    method Reinit(cfg: Cfg)
      requires cfg.Ok() && -TWO_63 <= readLimit && -TWO_63 <= writeLimit
      modifies this`readLimit, this`writeLimit
      ensures Valid(cfg)
      ensures readLimit == (if old(readLimit) <= cfg.read.maximum then old(readLimit) else cfg.read.maximum)
      ensures writeLimit == (if old(writeLimit) <= cfg.write.maximum then old(writeLimit) else cfg.write.maximum)
    {
      if readLimit > cfg.read.maximum {
        readLimit := cfg.read.maximum;
      }
      if writeLimit > cfg.write.maximum {
        writeLimit := cfg.write.maximum;
      }
    }

    /** ev_token_bucket_update: ticks wrap around, and a step back in time is ignored. */
    method Update(cfg: Cfg, tick: uint32) returns (r: int)
      requires Valid(cfg)
      modifies this
      ensures Valid(cfg)
      ensures var n := (tick - old(lastUpdated)) % TWO_32;
        if n == 0 || n > INT_MAX then
          r == 0 && readLimit == old(readLimit) && writeLimit == old(writeLimit) && lastUpdated == old(lastUpdated)
        else
          && r == 1 && lastUpdated == tick
          && readLimit == Naive(old(readLimit), cfg.read, n) && writeLimit == Naive(old(writeLimit), cfg.write, n)
      ensures readLimit >= old(readLimit) && writeLimit >= old(writeLimit)
      ensures readLimit == After(old(readLimit), cfg.read, old(lastUpdated), tick)
      ensures writeLimit == After(old(writeLimit), cfg.write, old(lastUpdated), tick)
      ensures lastUpdated == LastAfter(old(lastUpdated), tick)
    {
      SeenNow(lastUpdated, tick);
      var n := (tick as int - lastUpdated as int) % TWO_32;
      if n == 0 || n > INT_MAX {
        return 0;
      }
      RefilledIsNaive(readLimit, cfg.read, n);
      RefilledIsNaive(writeLimit, cfg.write, n);
      assert 0 <= n * cfg.read.rate && 0 <= n * cfg.write.rate;
      readLimit := Refilled(readLimit, cfg.read, n);
      writeLimit := Refilled(writeLimit, cfg.write, n);
      lastUpdated := tick;
      return 1;
    }
  }

  // ---------- bandwidth over whole runs ----------

  /** At a tick of the unbounded clock, a caller wants to read and write so much. */
  datatype Turn = Turn(tick: nat, wantRead: nat, wantWrite: nat)

  ghost predicate InOrder(turns: seq<Turn>, from: nat) {
    forall i :: 0 <= i < |turns| ==> from <= turns[i].tick && forall j :: i < j < |turns| ==> turns[i].tick <= turns[j].tick
  }

  function Allowed(limit: int, want: nat): nat {
    if want <= limit then want else if limit < 0 then 0 else limit
  }

  function Positive(x: int): nat {
    if x < 0 then 0 else x
  }

  /** What was spent and may still be spent stays below the maximum and the refills since a tick. */
  ghost predicate Within(spent: nat, limit: int, r: Rate, ticks: nat) {
    spent + Positive(limit) <= r.maximum + ticks * r.rate
  }

  /** The ticks that an update sees: the difference of two clock readings of 32 bits. */
  function Seen(last: uint32, tick: nat): nat {
    (tick % TWO_32 - last as int) % TWO_32
  }

  lemma SeenNow(last: uint32, tick: uint32)
    ensures Seen(last, tick) == (tick - last) % TWO_32
  {
  }

  /** The tick of a bucket after an update. */
  ghost function LastAfter(last: uint32, tick: uint32): uint32 {
    if 0 < Seen(last, tick) <= INT_MAX then tick else last
  }

  /** A limit after an update. */
  ghost function After(limit: int, r: Rate, last: uint32, tick: nat): int {
    if 0 < Seen(last, tick) <= INT_MAX then Naive(limit, r, Seen(last, tick)) else limit
  }

  /** The tick of the last update that was not ignored. */
  ghost function BaseAfter(base: nat, tick: nat): nat {
    if 0 < Seen(base % TWO_32, tick) <= INT_MAX then tick else base
  }

  /** The ticks up to `now` have been taken or ignored. */
  ghost predicate Taken(base: nat, now: nat) {
    base <= now && (Seen(base % TWO_32, now) == 0 || Seen(base % TWO_32, now) > INT_MAX)
  }

  lemma BaseIsTaken(base: nat, tick: nat)
    requires base <= tick
    ensures Taken(BaseAfter(base, tick), tick)
  {
  }

  lemma SeenIs(base: nat, tick: nat)
    requires base <= tick
    ensures Seen(base % TWO_32, tick) == (tick - base) % TWO_32
  {
  }

  /** An update sees no more ticks than have passed since the last one, taken or ignored. */
  lemma TicksSeen(base: nat, now: nat, tick: nat)
    requires Taken(base, now) && now <= tick
    ensures Seen(base % TWO_32, tick) <= INT_MAX ==> Seen(base % TWO_32, tick) <= tick - now
  {
    hide Seen;
    var d, more := (now - base) % TWO_32, tick - now;
    SeenIs(base, now);
    SeenIs(base, tick);
    assert Seen(base % TWO_32, tick) == (d + more) % TWO_32;
  }

  lemma Refills(spent: nat, limit: int, r: Rate, n: nat, ticks: nat, more: nat)
    requires Within(spent, limit, r, ticks) && n <= more
    ensures Within(spent, Naive(limit, r, n), r, ticks + more) && Within(spent, limit, r, ticks + more)
  {
    assert n * r.rate <= more * r.rate;
    assert (ticks + more) * r.rate == ticks * r.rate + more * r.rate;
    assert 0 <= more * r.rate;
  }

  /** The first turn spends no more than the maximum. */
  lemma FirstTurn(limit: int, r: Rate, last: uint32, tick: nat, c: nat, left: int)
    requires limit <= r.maximum && left + c == After(limit, r, last, tick) && (c > 0 ==> left >= 0)
    ensures Within(c, left, r, 0)
  {
  }

  /** A turn keeps the bound. */
  lemma NextTurn(spent: nat, limit: int, r: Rate, first: nat, base: nat, now: nat, tick: nat, c: nat, left: int)
    requires first <= now <= tick && Within(spent, limit, r, now - first) && Taken(base, now)
    requires left + c == After(limit, r, base % TWO_32, tick) && (c > 0 ==> left >= 0)
    ensures Within(spent + c, left, r, tick - first)
  {
    TicksSeen(base, now, tick);
    var n := Seen(base % TWO_32, tick);
    Refills(spent, limit, r, if n <= INT_MAX then n else 0, now - first, tick - now);
  }

  /** One turn: refill, then spend what is wanted and allowed. */
  method SpendTurn(b: Bucket, cfg: Cfg, t: Turn) returns (read: nat, written: nat)
    requires b.Valid(cfg)
    modifies b
    ensures b.Valid(cfg)
    ensures b.lastUpdated == if 0 < Seen(old(b.lastUpdated), t.tick) <= INT_MAX then t.tick % TWO_32 else old(b.lastUpdated)
    ensures b.readLimit + read == After(old(b.readLimit), cfg.read, old(b.lastUpdated), t.tick)
    ensures b.writeLimit + written == After(old(b.writeLimit), cfg.write, old(b.lastUpdated), t.tick)
    ensures (read > 0 ==> b.readLimit >= 0) && (written > 0 ==> b.writeLimit >= 0)
  {
    var _ := b.Update(cfg, t.tick % TWO_32);
    read, written := Allowed(b.readLimit, t.wantRead), Allowed(b.writeLimit, t.wantWrite);
    b.readLimit, b.writeLimit := b.readLimit - read, b.writeLimit - written;
  }

  /**
   * Turns at non-decreasing ticks, each spending no more than the bucket allows: between the first tick and the last
   * no more is spent than the maximum and a rate's worth for every tick.
   */
  method Spend(b: Bucket, cfg: Cfg, turns: seq<Turn>, ghost last: nat) returns (read: nat, written: nat)
    requires b.Valid(cfg) && InOrder(turns, last) && b.lastUpdated == last % TWO_32
    modifies b
    ensures b.Valid(cfg)
    ensures turns == [] ==> read == written == 0
    ensures turns != [] ==>
      var ticks := turns[|turns| - 1].tick - turns[0].tick;
      read <= cfg.read.maximum + ticks * cfg.read.rate && written <= cfg.write.maximum + ticks * cfg.write.rate
  {
    hide After, Seen, Taken, Within;
    if turns == [] {
      return 0, 0;
    }
    ghost var r0, w0, first := b.readLimit, b.writeLimit, turns[0].tick;
    read, written := SpendTurn(b, cfg, turns[0]);
    FirstTurn(r0, cfg.read, last % TWO_32, first, read, b.readLimit);
    FirstTurn(w0, cfg.write, last % TWO_32, first, written, b.writeLimit);
    BaseIsTaken(last, first);
    ghost var base: nat := BaseAfter(last, first);
    var k := 1;
    while k < |turns|
      invariant 1 <= k <= |turns| && b.Valid(cfg) && Taken(base, turns[k - 1].tick) && b.lastUpdated == base % TWO_32
      invariant base <= turns[k - 1].tick
      invariant Within(read, b.readLimit, cfg.read, turns[k - 1].tick - first)
      invariant Within(written, b.writeLimit, cfg.write, turns[k - 1].tick - first)
    {
      ghost var now, tick := turns[k - 1].tick, turns[k].tick;
      r0, w0 := b.readLimit, b.writeLimit;
      var r, w := SpendTurn(b, cfg, turns[k]);
      NextTurn(read, r0, cfg.read, first, base, now, tick, r, b.readLimit);
      NextTurn(written, w0, cfg.write, first, base, now, tick, w, b.writeLimit);
      BaseIsTaken(base, tick);
      base := BaseAfter(base, tick);
      read, written := read + r, written + w;
      k := k + 1;
    }
    WithinBounds(read, b.readLimit, cfg.read, turns[|turns| - 1].tick - first);
    WithinBounds(written, b.writeLimit, cfg.write, turns[|turns| - 1].tick - first);
  }

  lemma WithinBounds(spent: nat, limit: int, r: Rate, ticks: nat)
    requires Within(spent, limit, r, ticks)
    ensures spent <= r.maximum + ticks * r.rate
  {
  }
}

/** Suspending and waking a rate-limited connection (libevent/bufferevent_ratelim.c, libevent/bufferevent.c). */
module Throttle {
  import opened Options
  import opened TokenBucket

  /** The BEV_SUSPEND_ flags. */
  datatype Reason = WM | BW | BwGroup | Lookup | FiltRead

  /** One direction of a bufferevent: EV_READ or EV_WRITE. */
  class Channel {
    var enabled: bool
    var suspended: set<Reason>
    /** Whether the backend reads (writes): what be_ops->enable and be_ops->disable leave behind. */
    var backendOn: bool

    /** The backend works exactly when the direction is enabled and nothing suspends it. */
    ghost predicate Valid()
      reads this
    {
      backendOn <==> enabled && suspended == {}
    }

    constructor ()
      ensures Valid() && suspended == {} && !enabled
    {
      enabled, suspended, backendOn := false, {}, false;
    }

    /** bufferevent_suspend_read and bufferevent_suspend_write. */
    method Suspend(what: Reason)
      requires Valid()
      modifies this
      ensures Valid() && suspended == old(suspended) + {what} && enabled == old(enabled)
    {
      if suspended == {} {
        backendOn := false;
      }
      suspended := suspended + {what};
      assert what in suspended;
    }

    /** bufferevent_unsuspend_read and bufferevent_unsuspend_write. */
    method Unsuspend(what: Reason)
      requires Valid()
      modifies this
      ensures Valid() && suspended == old(suspended) - {what} && enabled == old(enabled)
    {
      suspended := suspended - {what};
      if suspended == {} && enabled {
        backendOn := true;
      }
    }

    /** bufferevent_enable. */
    method Enable()
      requires Valid()
      modifies this
      ensures Valid() && enabled && suspended == old(suspended)
    {
      enabled := true;
      if suspended == {} {
        backendOn := true;
      }
    }

    /** bufferevent_disable. */
    method Disable()
      requires Valid()
      modifies this
      ensures Valid() && !enabled && suspended == old(suspended)
    {
      enabled := false;
      backendOn := false;
    }
  }

  const MAX_TO_READ_EVER := 16384
  const MAX_TO_WRITE_EVER := 16384

  /** What a member sees of its group. */
  datatype GroupView = GroupView(limit: int, members: nat, minShare: int, suspended: bool)

  /** Division as in C, towards zero. */
  function TruncatedDiv(a: int, n: nat): (q: int)
    requires n > 0
    ensures a >= 0 ==> q == a / n
    ensures a < 0 ==> q <= 0
  {
    if a >= 0 then a / n else -((-a) / n)
  }

  ghost function Lesser(a: int, b: int): int {
    if a <= b then a else b
  }

  ghost function Greater(a: int, b: int): int {
    if a >= b then a else b
  }

  /** The rate-limiting part of a bufferevent. */
  class Connection {
    const rd: Channel
    const wr: Channel
    const bucket: Bucket
    var cfg: Option<Cfg>
    /** The refill timer is pending. */
    var refillPending: bool

    /** A direction that is throttled has a wake-up, and one without tokens is throttled. */
    ghost predicate Valid()
      reads this, rd, wr, bucket
    {
      && rd != wr && rd.Valid() && wr.Valid()
      && (BW in rd.suspended || BW in wr.suspended ==> refillPending && cfg.Some?)
      && (cfg.Some? ==>
          && bucket.Valid(cfg.value)
          && (bucket.readLimit <= 0 ==> BW in rd.suspended)
          && (bucket.writeLimit <= 0 ==> BW in wr.suspended))
    }

    constructor ()
      ensures Valid() && cfg.None? && fresh(rd) && fresh(wr) && fresh(bucket)
    {
      rd := new Channel();
      wr := new Channel();
      bucket := new Bucket();
      cfg, refillPending := None, false;
    }

    /** The bucket has been refilled for the ticks seen since `last`, when it held `read` and `write`. */
    ghost predicate Refreshed(read: int, write: int, last: uint32, tick: uint32)
      requires cfg.Some?
      reads this, bucket
    {
      && bucket.readLimit == After(read, cfg.value.read, last, tick)
      && bucket.writeLimit == After(write, cfg.value.write, last, tick)
      && bucket.lastUpdated == LastAfter(last, tick)
    }

    /** At the tick of the last update there is nothing to refill. */
    lemma SameTick(b: Bucket, c: Cfg, tick: uint32)
      ensures tick == b.lastUpdated ==>
        && After(b.readLimit, c.read, tick, tick) == b.readLimit && After(b.writeLimit, c.write, tick, tick) == b.writeLimit
        && LastAfter(tick, tick) == tick
    {
    }

    /** bufferevent_update_buckets. */
    method UpdateBuckets(tick: uint32)
      requires Valid() && cfg.Some?
      modifies bucket
      ensures Valid() && bucket.readLimit >= old(bucket.readLimit) && bucket.writeLimit >= old(bucket.writeLimit)
      ensures Refreshed(old(bucket.readLimit), old(bucket.writeLimit), old(bucket.lastUpdated), tick)
    {
      hide After, LastAfter, Naive, Seen;
      SameTick(bucket, cfg.value, tick);
      if tick != bucket.lastUpdated {
        var _ := bucket.Update(cfg.value, tick);
      }
    }

    ghost function Limit(write: bool): int
      reads bucket
    {
      if write then bucket.writeLimit else bucket.readLimit
    }

    /** The bucket's own allowance, or the fixed one. */
    ghost function Own(write: bool): int
      reads this, bucket
    {
      if cfg.Some? then Limit(write) else if write then MAX_TO_WRITE_EVER else MAX_TO_READ_EVER
    }

    /**
     * _bufferevent_get_rlim_max: the lesser of what the bucket holds and of the member's share of the group, which is at
     * least the minimum share, and nothing while the group is suspended.
     */
    method GetRlimMax(write: bool, tick: uint32, group: Option<GroupView>) returns (max: nat)
      requires Valid() && (group.Some? ==> group.value.members > 0)
      modifies rd, wr, bucket
      ensures Valid() && rd.enabled == old(rd.enabled) && wr.enabled == old(wr.enabled)
      ensures cfg.Some? ==> Refreshed(old(bucket.readLimit), old(bucket.writeLimit), old(bucket.lastUpdated), tick)
      ensures cfg.None? ==> unchanged(bucket)
      ensures rd.suspended == old(rd.suspended) + if !write && group.Some? && group.value.suspended then {BwGroup} else {}
      ensures wr.suspended == old(wr.suspended) + if write && group.Some? && group.value.suspended then {BwGroup} else {}
      ensures group.None? ==> max == Positive(Own(write))
      ensures group.Some? && group.value.suspended ==> max == 0
      ensures group.Some? && !group.value.suspended ==>
        var share := if group.value.limit >= 0 then group.value.limit / group.value.members else 0;
        max == Lesser(Positive(Own(write)), Greater(Positive(group.value.minShare), share))
    {
      var m := if write then MAX_TO_WRITE_EVER else MAX_TO_READ_EVER;
      if cfg.Some? {
        UpdateBuckets(tick);
        m := if write then bucket.writeLimit else bucket.readLimit;
      }
      if group.Some? {
        var share := 0;
        if group.value.suspended {
          if write {
            wr.Suspend(BwGroup);
          } else {
            rd.Suspend(BwGroup);
          }
        } else {
          share := TruncatedDiv(group.value.limit, group.value.members);
          if share < group.value.minShare {
            share := group.value.minShare;
          }
        }
        if m > share {
          m := share;
        }
      }
      max := if m < 0 then 0 else m;
    }

    /** bufferevent_decrement_read_limit: the signs before and after decide, not the flag. */
    method DecrementReadLimit(decr: int)
      requires Valid() && cfg.Some? && -TWO_63 <= bucket.readLimit - decr <= cfg.value.read.maximum
      modifies this`refillPending, rd, bucket`readLimit
      ensures Valid() && bucket.readLimit == old(bucket.readLimit) - decr && rd.enabled == old(rd.enabled)
      ensures rd.suspended - {BW} == old(rd.suspended) - {BW}
      ensures rd.suspended == old(rd.suspended) + (if old(bucket.readLimit) > 0 >= bucket.readLimit then {BW} else {})
                              - (if old(bucket.readLimit) <= 0 < bucket.readLimit then {BW} else {})
    {
      var before := bucket.readLimit;
      bucket.readLimit := bucket.readLimit - decr;
      if before > 0 && bucket.readLimit <= 0 {
        rd.Suspend(BW);
        refillPending := true;
      } else if before <= 0 && bucket.readLimit > 0 {
        if BW !in wr.suspended {
          refillPending := false;
        }
        rd.Unsuspend(BW);
      }
    }

    /** bufferevent_decrement_write_limit. */
    method DecrementWriteLimit(decr: int)
      requires Valid() && cfg.Some? && -TWO_63 <= bucket.writeLimit - decr <= cfg.value.write.maximum
      modifies this`refillPending, wr, bucket`writeLimit
      ensures Valid() && bucket.writeLimit == old(bucket.writeLimit) - decr && wr.enabled == old(wr.enabled)
      ensures wr.suspended - {BW} == old(wr.suspended) - {BW}
      ensures wr.suspended == old(wr.suspended) + (if old(bucket.writeLimit) > 0 >= bucket.writeLimit then {BW} else {})
                              - (if old(bucket.writeLimit) <= 0 < bucket.writeLimit then {BW} else {})
    {
      var before := bucket.writeLimit;
      bucket.writeLimit := bucket.writeLimit - decr;
      if before > 0 && bucket.writeLimit <= 0 {
        wr.Suspend(BW);
        refillPending := true;
      } else if before <= 0 && bucket.writeLimit > 0 {
        if BW !in rd.suspended {
          refillPending := false;
        }
        wr.Unsuspend(BW);
      }
    }

    /** _bufferevent_decrement_read_buckets. */
    method DecrementRead(bytes: nat)
      requires Valid() && (cfg.Some? ==> bucket.readLimit - bytes >= -TWO_63)
      modifies this`refillPending, rd, bucket`readLimit
      ensures Valid() && rd.suspended - {BW} == old(rd.suspended) - {BW} && rd.enabled == old(rd.enabled)
      ensures cfg.Some? ==> bucket.readLimit == old(bucket.readLimit) - bytes && (BW in rd.suspended <==> bucket.readLimit <= 0)
      ensures cfg.None? ==> bucket.readLimit == old(bucket.readLimit)
    {
      if cfg.Some? {
        bucket.readLimit := bucket.readLimit - bytes;
        if bucket.readLimit <= 0 {
          rd.Suspend(BW);
          refillPending := true;
        } else if BW in rd.suspended {
          if BW !in wr.suspended {
            refillPending := false;
          }
          rd.Unsuspend(BW);
        }
      }
    }

    /** _bufferevent_decrement_write_buckets. */
    method DecrementWrite(bytes: nat)
      requires Valid() && (cfg.Some? ==> bucket.writeLimit - bytes >= -TWO_63)
      modifies this`refillPending, wr, bucket`writeLimit
      ensures Valid() && wr.suspended - {BW} == old(wr.suspended) - {BW} && wr.enabled == old(wr.enabled)
      ensures cfg.Some? ==> bucket.writeLimit == old(bucket.writeLimit) - bytes && (BW in wr.suspended <==> bucket.writeLimit <= 0)
      ensures cfg.None? ==> bucket.writeLimit == old(bucket.writeLimit)
    {
      if cfg.Some? {
        bucket.writeLimit := bucket.writeLimit - bytes;
        if bucket.writeLimit <= 0 {
          wr.Suspend(BW);
          refillPending := true;
        } else if BW in wr.suspended {
          if BW !in rd.suspended {
            refillPending := false;
          }
          wr.Unsuspend(BW);
        }
      }
    }

    /** _bev_refill_callback: the timer has gone off, and is set again if a bucket is still empty. */
    method Refill(tick: uint32)
      requires Valid() && refillPending
      modifies this`refillPending, rd, wr, bucket
      ensures Valid() && rd.enabled == old(rd.enabled) && wr.enabled == old(wr.enabled)
      ensures rd.suspended - {BW} == old(rd.suspended) - {BW} && wr.suspended - {BW} == old(wr.suspended) - {BW}
      ensures cfg.Some? ==>
        && (BW in rd.suspended <==> bucket.readLimit <= 0) && (BW in wr.suspended <==> bucket.writeLimit <= 0)
        && (refillPending <==> BW in rd.suspended || BW in wr.suspended)
        && Refreshed(old(bucket.readLimit), old(bucket.writeLimit), old(bucket.lastUpdated), tick)
      ensures cfg.None? ==> unchanged(bucket) && !refillPending
    {
      hide After, LastAfter, Naive, Seen;
      refillPending := false;
      if cfg.None? {
        return;
      }
      var _ := bucket.Update(cfg.value, tick);
      var again := false;
      if BW in rd.suspended {
        if bucket.readLimit > 0 {
          rd.Unsuspend(BW);
        } else {
          again := true;
        }
      }
      if BW in wr.suspended {
        if bucket.writeLimit > 0 {
          wr.Unsuspend(BW);
        } else {
          again := true;
        }
      }
      if again {
        refillPending := true;
      }
    }

    /** bufferevent_set_rate_limit; `same` says that it is given the very configuration in use. */
    method SetRateLimit(newCfg: Option<Cfg>, same: bool, tick: uint32)
      requires Valid() && (newCfg.Some? ==> newCfg.value.Ok()) && (same ==> newCfg == cfg)
      modifies this, rd, wr, bucket
      ensures Valid() && cfg == newCfg && rd.enabled == old(rd.enabled) && wr.enabled == old(wr.enabled)
      ensures rd.suspended - {BW} == old(rd.suspended) - {BW} && wr.suspended - {BW} == old(wr.suspended) - {BW}
      ensures newCfg.Some? && !same ==>
        (BW in rd.suspended <==> bucket.readLimit <= 0) && (BW in wr.suspended <==> bucket.writeLimit <= 0)
      ensures newCfg.None? ==> !refillPending
      ensures newCfg.None? || same ==> unchanged(bucket)
      ensures newCfg.Some? && !same && old(cfg).None? ==>
        && bucket.readLimit == newCfg.value.read.rate && bucket.writeLimit == newCfg.value.write.rate
        && bucket.lastUpdated == tick
      ensures newCfg.Some? && !same && old(cfg).Some? ==>
        && bucket.readLimit == Lesser(old(bucket.readLimit), newCfg.value.read.maximum)
        && bucket.writeLimit == Lesser(old(bucket.writeLimit), newCfg.value.write.maximum)
        && bucket.lastUpdated == old(bucket.lastUpdated)
        && (refillPending <==> BW in rd.suspended || BW in wr.suspended)
    {
      if newCfg.None? {
        cfg := None;
        rd.Unsuspend(BW);
        wr.Unsuspend(BW);
        refillPending := false;
        return;
      }
      if same {
        return;
      }
      if cfg.Some? {
        bucket.Reinit(newCfg.value);
        refillPending := false;
      } else {
        bucket.Init(newCfg.value, tick);
      }
      cfg := newCfg;
      var suspended := Throttled(rd, bucket.readLimit);
      var alsoSuspended := Throttled(wr, bucket.writeLimit);
      if suspended || alsoSuspended {
        refillPending := true;
      }
    }

    /** Suspend a direction without tokens, wake one with some. */
    method Throttled(ch: Channel, limit: int) returns (yes: bool)
      requires ch.Valid()
      modifies ch
      ensures ch.Valid() && ch.enabled == old(ch.enabled) && ch.suspended - {BW} == old(ch.suspended) - {BW}
      ensures yes == (limit <= 0) == (BW in ch.suspended)
    {
      if limit > 0 {
        ch.Unsuspend(BW);
        return false;
      }
      ch.Suspend(BW);
      return true;
    }

    /** A throttled connection that nothing else disturbs is woken by its own timer, tick by tick. */
    method Awaken(start: uint32)
      requires Valid() && (cfg.Some? ==> bucket.lastUpdated == start)
      modifies this`refillPending, rd, wr, bucket
      ensures Valid() && BW !in rd.suspended && BW !in wr.suspended
      ensures rd.suspended == old(rd.suspended) - {BW} && wr.suspended == old(wr.suspended) - {BW}
    {
      var tick: uint32 := start;
      while BW in rd.suspended || BW in wr.suspended
        invariant Valid() && (cfg.Some? ==> bucket.lastUpdated == tick)
        invariant rd.suspended - {BW} == old(rd.suspended) - {BW} && wr.suspended - {BW} == old(wr.suspended) - {BW}
        decreases Debt(BW in rd.suspended, bucket.readLimit) + Debt(BW in wr.suspended, bucket.writeLimit)
      {
        hide After, LastAfter, Naive, Seen, NextTick;
        if cfg.Some? {
          OneTick(bucket.readLimit, cfg.value.read, tick);
          OneTick(bucket.writeLimit, cfg.value.write, tick);
        }
        tick := NextTick(tick);
        Refill(tick);
      }
    }
  }

  function NextTick(tick: uint32): uint32 {
    (tick as int + 1) % TWO_32
  }

  /** A tick gives a bucket that is not full something. */
  lemma OneTick(limit: int, r: Rate, last: uint32)
    requires r.Ok()
    ensures LastAfter(last, NextTick(last)) == NextTick(last)
    ensures limit < r.maximum ==> After(limit, r, last, NextTick(last)) > limit
    ensures limit == r.maximum ==> After(limit, r, last, NextTick(last)) == limit
  {
    hide Naive;
    assert Seen(last, NextTick(last)) == 1;
    OneMore(limit, r);
  }

  lemma OneMore(limit: int, r: Rate)
    requires r.Ok()
    ensures limit < r.maximum ==> Naive(limit, r, 1) > limit
    ensures limit == r.maximum ==> Naive(limit, r, 1) == limit
  {
  }

  datatype Op =
    | Enable(read: bool)
    | Disable(read: bool)
    | Suspend(read: bool, what: Reason)
    | Unsuspend(read: bool, what: Reason)
    | Read(bytes: nat)
    | Write(bytes: nat)
    | Look(write: bool, tick: uint32, group: Option<GroupView>)
    | Decrement(write: bool, decr: int)
    | Timer(tick: uint32)
    | Configure(cfg: Option<Cfg>, tick: uint32)

  /** The reference: what is enabled, why other than for want of tokens it is suspended, and the bucket. */
  datatype Plain = Plain(
    readOn: bool, writeOn: bool, readReasons: set<Reason>, writeReasons: set<Reason>,
    cfg: Option<Cfg>, read: int, write: int, last: uint32)

  ghost function Refreshing(p: Plain, tick: uint32): Plain
    requires p.cfg.Some?
  {
    p.(read := After(p.read, p.cfg.value.read, p.last, tick), write := After(p.write, p.cfg.value.write, p.last, tick),
       last := LastAfter(p.last, tick))
  }

  ghost function PlainStep(p: Plain, pending: bool, op: Op): Plain {
    match op
    case Enable(read) => if read then p.(readOn := true) else p.(writeOn := true)
    case Disable(read) => if read then p.(readOn := false) else p.(writeOn := false)
    case Suspend(read, what) =>
      if read then p.(readReasons := p.readReasons + {what}) else p.(writeReasons := p.writeReasons + {what})
    case Unsuspend(read, what) =>
      if read then p.(readReasons := p.readReasons - {what}) else p.(writeReasons := p.writeReasons - {what})
    case Read(bytes) => if p.cfg.Some? && p.read - bytes >= -TWO_63 then p.(read := p.read - bytes) else p
    case Write(bytes) => if p.cfg.Some? && p.write - bytes >= -TWO_63 then p.(write := p.write - bytes) else p
    case Look(write, tick, group) =>
      var more := if group.Some? && group.value.suspended then {BwGroup} else {};
      var q := if write then p.(writeReasons := p.writeReasons + more) else p.(readReasons := p.readReasons + more);
      if p.cfg.Some? then Refreshing(q, tick) else q
    case Decrement(write, decr) =>
      if p.cfg.None? then p
      else if write && -TWO_63 <= p.write - decr <= p.cfg.value.write.maximum then p.(write := p.write - decr)
      else if !write && -TWO_63 <= p.read - decr <= p.cfg.value.read.maximum then p.(read := p.read - decr)
      else p
    case Timer(tick) => if pending && p.cfg.Some? then Refreshing(p, tick) else p
    case Configure(cfg, tick) =>
      if cfg.None? then p.(cfg := None)
      else if p.cfg.None? then p.(cfg := cfg, read := cfg.value.read.rate, write := cfg.value.write.rate, last := tick)
      else p.(cfg := cfg, read := Lesser(p.read, cfg.value.read.maximum), write := Lesser(p.write, cfg.value.write.maximum))
  }

  ghost function View(c: Connection): Plain
    reads c, c.rd, c.wr, c.bucket
  {
    Plain(c.rd.enabled, c.wr.enabled, c.rd.suspended - {BW}, c.wr.suspended - {BW},
          c.cfg, c.bucket.readLimit, c.bucket.writeLimit, c.bucket.lastUpdated)
  }

  /** The reference run, with what the refill timer was at each step. */
  ghost function PlainRun(p: Plain, ops: seq<Op>, pending: seq<bool>): Plain
    requires |pending| == |ops|
  {
    if ops == [] then p
    else PlainStep(PlainRun(p, ops[..|ops| - 1], pending[..|ops| - 1]), pending[|ops| - 1], ops[|ops| - 1])
  }

  /**
   * In every run the throttled directions have a wake-up and the backend works exactly when it should; and what is
   * enabled, the other reasons and the bucket are those of the reference.
   */
  method Run(c: Connection, ops: seq<Op>) returns (ghost pending: seq<bool>)
    requires c.Valid()
    requires forall i :: 0 <= i < |ops| && (ops[i].Suspend? || ops[i].Unsuspend?) ==> ops[i].what != BW
    requires forall i :: 0 <= i < |ops| && ops[i].Configure? && ops[i].cfg.Some? ==> ops[i].cfg.value.Ok()
    requires forall i :: 0 <= i < |ops| && ops[i].Look? && ops[i].group.Some? ==> ops[i].group.value.members > 0
    modifies c, c.rd, c.wr, c.bucket
    ensures c.Valid() && |pending| == |ops| && View(c) == PlainRun(old(View(c)), ops, pending)
  {
    hide PlainStep, View;
    ghost var start := View(c);
    var k := 0;
    pending := [];
    while k < |ops|
      invariant k <= |ops| && c.Valid() && |pending| == k && View(c) == PlainRun(start, ops[..k], pending)
    {
      assert ops[..k + 1][..k] == ops[..k] && (pending + [c.refillPending])[..k] == pending;
      pending := pending + [c.refillPending];
      Perform(c, ops[k]);
      k := k + 1;
    }
    assert ops[..k] == ops;
  }

  method Perform(c: Connection, op: Op)
    requires c.Valid() && (op.Suspend? || op.Unsuspend? ==> op.what != BW)
    requires op.Configure? && op.cfg.Some? ==> op.cfg.value.Ok()
    requires op.Look? && op.group.Some? ==> op.group.value.members > 0
    modifies c, c.rd, c.wr, c.bucket
    ensures c.Valid() && View(c) == PlainStep(old(View(c)), old(c.refillPending), op)
  {
    hide View, PlainStep;
    if op.Look? {
      PerformLook(c, op.write, op.tick, op.group);
    } else if op.Timer? {
      PerformTimer(c, op.tick);
    } else if op.Configure? {
      PerformConfigure(c, op.cfg, op.tick);
    } else if op.Read? || op.Write? {
      PerformCharge(c, op);
    } else if op.Decrement? {
      PerformDecrement(c, op.write, op.decr);
    } else {
      PerformSwitch(c, op);
    }
  }

  method PerformSwitch(c: Connection, op: Op)
    requires c.Valid() && (op.Enable? || op.Disable? || ((op.Suspend? || op.Unsuspend?) && op.what != BW))
    modifies c, c.rd, c.wr
    ensures c.Valid() && View(c) == PlainStep(old(View(c)), old(c.refillPending), op)
  {
    hide After, LastAfter, Naive, Seen;
    var ch := if op.read then c.rd else c.wr;
    match op
    case Enable(_) => ch.Enable();
    case Disable(_) => ch.Disable();
    case Suspend(_, what) => ch.Suspend(what);
    case Unsuspend(_, what) => ch.Unsuspend(what);
  }

  method PerformCharge(c: Connection, op: Op)
    requires c.Valid() && (op.Read? || op.Write?)
    modifies c, c.rd, c.wr, c.bucket
    ensures c.Valid() && View(c) == PlainStep(old(View(c)), old(c.refillPending), op)
  {
    hide Channel.Valid, Bucket.Valid;
    match op
    case Read(bytes) =>
      // Beyond this the limit would overflow.
      if c.bucket.readLimit - bytes >= -TWO_63 {
        c.DecrementRead(bytes);
      }
    case Write(bytes) =>
      if c.bucket.writeLimit - bytes >= -TWO_63 {
        c.DecrementWrite(bytes);
      }
  }

  /** Without a limit the source asserts; above the maximum the refill differs. */
  method PerformDecrement(c: Connection, write: bool, decr: int)
    requires c.Valid()
    modifies c, c.rd, c.wr, c.bucket
    ensures c.Valid() && View(c) == PlainStep(old(View(c)), old(c.refillPending), Decrement(write, decr))
  {
    hide Channel.Valid, Bucket.Valid;
    if c.cfg.Some? {
      if write && -TWO_63 <= c.bucket.writeLimit - decr <= c.cfg.value.write.maximum {
        c.DecrementWriteLimit(decr);
      } else if !write && -TWO_63 <= c.bucket.readLimit - decr <= c.cfg.value.read.maximum {
        c.DecrementReadLimit(decr);
      }
    }
  }

  method PerformLook(c: Connection, write: bool, tick: uint32, group: Option<GroupView>)
    requires c.Valid() && (group.Some? ==> group.value.members > 0)
    modifies c, c.rd, c.wr, c.bucket
    ensures c.Valid() && View(c) == PlainStep(old(View(c)), old(c.refillPending), Look(write, tick, group))
  {
    hide After, LastAfter, Connection.Valid;
    var _ := c.GetRlimMax(write, tick, group);
  }

  method PerformTimer(c: Connection, tick: uint32)
    requires c.Valid()
    modifies c, c.rd, c.wr, c.bucket
    ensures c.Valid() && View(c) == PlainStep(old(View(c)), old(c.refillPending), Timer(tick))
  {
    hide After, LastAfter, Connection.Valid;
    if c.refillPending {
      c.Refill(tick);
    }
  }

  method PerformConfigure(c: Connection, cfg: Option<Cfg>, tick: uint32)
    requires c.Valid() && (cfg.Some? ==> cfg.value.Ok())
    modifies c, c.rd, c.wr, c.bucket
    ensures c.Valid() && View(c) == PlainStep(old(View(c)), old(c.refillPending), Configure(cfg, tick))
  {
    hide Connection.Valid;
    c.SetRateLimit(cfg, false, tick);
  }

  /** How many ticks a throttled direction may have to wait. */
  function Debt(throttled: bool, limit: int): nat {
    if !throttled then 0 else if limit <= 0 then 2 - limit else 1
  }
}

/**
 * Suspending a whole rate-limit group (libevent/bufferevent_ratelim.c), for one direction.
 *
 * Ordinarily the lock of a group nests inside the lock of a bufferevent. A sweep over the members of a group holds
 * the group lock and only tries the members' locks, so it can miss some. The model interleaves any number of threads,
 * a sweep taking one step for each member.
 */
module GroupSuspend {
  import opened Options

  /** Where a thread is: without a lock, with that of a bufferevent, or past the group lock when joining or leaving. */
  datatype Pc = Idle | Holding(bev: nat) | Joining(bev: nat, suspend: bool) | Leaving(bev: nat)

  function HeldBev(pc: Pc): Option<nat> {
    if pc.Idle? then None else Some(pc.bev)
  }

  /** The thread that holds the group lock, and how far it has come with the members. */
  datatype Sweep =
    | NoSweep
    | Suspending(owner: nat, todo: seq<nat>)
    | Unsuspending(owner: nat, todo: seq<nat>, again: bool)

  /** The group and its bucket, the bufferevents with BEV_SUSPEND_BW_GROUP set, those being freed, and the threads. */
  datatype State = State(
    suspended: bool, pending: bool, limit: int, minShare: nat, members: seq<nat>, flagged: set<nat>, freed: set<nat>,
    sweep: Sweep, pcs: map<nat, Pc>)

  datatype Act =
    | Lock(bev: nat)
    | Unlock
    | Join
    | JoinTail
    | Leave
    | LeaveTail
    | Free
    | Look
    | Charge(bytes: int, which: nat)
    | GroupCharge(bytes: int, which: nat)
    | Clip(maximum: nat)
    | Refill(limit: int, which: nat)
    | SuspendNext
    | EndSuspend
    | UnsuspendNext
    | EndUnsuspend

  /** Nobody but t holds the lock of m, so that t can have it. */
  ghost predicate BevFree(s: State, m: nat, t: nat) {
    forall u :: u in s.pcs && u != t ==> HeldBev(s.pcs[u]) != Some(m)
  }

  /** FOREACH_RANDOM_ORDER: from a random member to the last, then from the first up to it. */
  function SweepOrder(members: seq<nat>, which: nat): seq<nat> {
    if members == [] then [] else members[which % |members|..] + members[..which % |members|]
  }

  /** TAILQ_REMOVE. */
  function Without(ms: seq<nat>, m: nat): seq<nat> {
    if ms == [] then []
    else if ms[|ms| - 1] == m then Without(ms[..|ms| - 1], m)
    else Without(ms[..|ms| - 1], m) + [ms[|ms| - 1]]
  }

  /** The heads of _bev_group_suspend_reading and _bev_group_unsuspend_reading. */
  function BeginSuspend(s: State, t: nat): State {
    s.(suspended := true, pending := false, sweep := Suspending(t, s.members))
  }

  function BeginUnsuspend(s: State, t: nat, which: nat): State {
    s.(suspended := false, sweep := Unsuspending(t, SweepOrder(s.members, which), false))
  }

  /** The code that a thread may run in a state. */
  ghost predicate CanAct(s: State, t: nat, act: Act) {
    && t in s.pcs
    && var pc := s.pcs[t];
    match act
    case SuspendNext => s.sweep.Suspending? && s.sweep.owner == t && s.sweep.todo != []
    case EndSuspend => s.sweep.Suspending? && s.sweep.owner == t && s.sweep.todo == []
    case UnsuspendNext => s.sweep.Unsuspending? && s.sweep.owner == t && s.sweep.todo != []
    case EndUnsuspend => s.sweep.Unsuspending? && s.sweep.owner == t && s.sweep.todo == []
    case JoinTail => pc.Joining?
    case LeaveTail => pc.Leaving?
    case Lock(m) => pc.Idle? && BevFree(s, m, t) && m !in s.freed && (s.sweep.NoSweep? || s.sweep.owner != t)
    case Unlock => pc.Holding? && (s.sweep.NoSweep? || s.sweep.owner != t)
    case Join => pc.Holding? && s.sweep.NoSweep? && pc.bev !in s.members
    case Leave => pc.Holding? && s.sweep.NoSweep? && pc.bev in s.members
    case Free => pc.Holding? && s.sweep.NoSweep?
    case Look => pc.Holding? && s.sweep.NoSweep? && pc.bev in s.members
    case Charge(_, _) => pc.Holding? && s.sweep.NoSweep? && pc.bev in s.members
    case GroupCharge(_, _) => (pc.Idle? || pc.Holding?) && s.sweep.NoSweep?
    case Clip(maximum) => (pc.Idle? || pc.Holding?) && s.sweep.NoSweep? && maximum > 0
    case Refill(limit, _) => pc.Idle? && s.sweep.NoSweep? && limit >= s.limit
  }

  /** What it does there. */
  ghost function Do(s: State, t: nat, act: Act): State
    requires CanAct(s, t, act)
  {
    var pc := s.pcs[t];
    match act
    case Lock(m) => s.(pcs := s.pcs[t := Holding(m)])
    case Unlock => s.(pcs := s.pcs[t := Idle])
    case Join => s.(members := s.members + [pc.bev], pcs := s.pcs[t := Joining(pc.bev, s.suspended)])
    case JoinTail =>
      s.(flagged := if pc.suspend then s.flagged + {pc.bev} else s.flagged, pcs := s.pcs[t := Holding(pc.bev)])
    case Leave => s.(members := Without(s.members, pc.bev), pcs := s.pcs[t := Leaving(pc.bev)])
    case LeaveTail => s.(flagged := s.flagged - {pc.bev}, pcs := s.pcs[t := Holding(pc.bev)])
    case Look => s.(flagged := if s.suspended then s.flagged + {pc.bev} else s.flagged)
    case Free => s.(members := Without(s.members, pc.bev), freed := s.freed + {pc.bev}, pcs := s.pcs[t := Idle])
    case Charge(bytes, which) =>
      var n := s.(limit := s.limit - bytes);
      if n.limit <= 0 then BeginSuspend(n, t) else if n.suspended then BeginUnsuspend(n, t, which) else n
    case GroupCharge(bytes, which) =>
      var n := s.(limit := s.limit - bytes);
      if s.limit > 0 && n.limit <= 0 then BeginSuspend(n, t)
      else if s.limit <= 0 && n.limit > 0 then BeginUnsuspend(n, t, which)
      else n
    case Clip(maximum) => s.(limit := if s.limit > maximum then maximum else s.limit)
    case Refill(limit, which) =>
      var n := s.(limit := limit);
      if n.pending || (n.suspended && n.limit >= n.minShare) then BeginUnsuspend(n, t, which) else n
    case SuspendNext =>
      var m := s.sweep.todo[0];
      s.(flagged := if BevFree(s, m, t) then s.flagged + {m} else s.flagged, sweep := Suspending(t, s.sweep.todo[1..]))
    case EndSuspend => s.(sweep := NoSweep)
    case UnsuspendNext =>
      var m := s.sweep.todo[0];
      if BevFree(s, m, t) then
        s.(flagged := s.flagged - {m}, sweep := Unsuspending(t, s.sweep.todo[1..], s.sweep.again))
      else
        s.(sweep := Unsuspending(t, s.sweep.todo[1..], true))
    case EndUnsuspend => s.(pending := s.sweep.again, sweep := NoSweep)
  }

  // ---------- the invariant ----------

  /** A bufferevent that carries the flag, or is about to, will be looked at again. */
  ghost predicate Covered(s: State, m: nat) {
    match s.sweep
    case NoSweep => s.suspended || s.pending
    case Suspending(_, _) => s.suspended
    case Unsuspending(_, todo, again) => again || m in todo
  }

  /** No two threads hold one lock. */
  ghost predicate Exclusive(pcs: map<nat, Pc>) {
    forall t, u :: t in pcs && u in pcs && t != u && HeldBev(pcs[t]).Some? ==> HeldBev(pcs[t]) != HeldBev(pcs[u])
  }

  /** A thread that joins has entered its member, and knows that the flag it may set will not be forgotten. */
  ghost predicate JoinOk(s: State, pc: Pc) {
    pc.Joining? ==> pc.bev in s.members && (pc.suspend ==> Covered(s, pc.bev))
  }

  ghost predicate FlagOk(s: State, m: nat) {
    if m in s.members then Covered(s, m) else m in s.freed || exists t :: t in s.pcs && s.pcs[t] == Leaving(m)
  }

  ghost predicate SweepOk(s: State) {
    match s.sweep
    case NoSweep => !(s.suspended && s.pending)
    case Suspending(t, todo) =>
      t in s.pcs && (s.pcs[t].Idle? || s.pcs[t].Holding?) && s.suspended && !s.pending && (forall m :: m in todo ==> m in s.members)
    case Unsuspending(t, _, _) => t in s.pcs && (s.pcs[t].Idle? || s.pcs[t].Holding?) && !s.suspended
  }

  /** An exhausted group is suspended, unless its minimum share lets a refill wake it with nothing in the bucket. */
  ghost predicate BucketOk(s: State) {
    s.minShare > 0 && s.limit <= 0 ==> s.suspended
  }

  /** What is being freed is in no list and in nobody's hands. */
  ghost predicate FreedOk(s: State) {
    && (forall m :: m in s.freed ==> m !in s.members)
    && (forall t :: t in s.pcs && HeldBev(s.pcs[t]).Some? ==> HeldBev(s.pcs[t]).value !in s.freed)
  }

  /** The invariant, but for the bucket. */
  ghost predicate Sound(s: State) {
    && Exclusive(s.pcs) && SweepOk(s) && FreedOk(s)
    && (forall t :: t in s.pcs ==> JoinOk(s, s.pcs[t]))
    && (forall m :: m in s.flagged ==> FlagOk(s, m))
  }

  ghost predicate Inv(s: State) {
    Sound(s) && BucketOk(s)
  }

  // ---------- every step keeps it ----------

  lemma {:induction false} WithoutMembers(ms: seq<nat>, m: nat)
    ensures forall x :: x in Without(ms, m) <==> x in ms && x != m
  {
    if ms != [] {
      WithoutMembers(ms[..|ms| - 1], m);
      assert ms == ms[..|ms| - 1] + [ms[|ms| - 1]];
    }
  }

  /** A bufferevent outside the group that carries the flag is still being cleared by the thread that took it out. */
  lemma StillLeaving(s: State, t: nat, pc: Pc, m: nat)
    requires m in s.flagged && m !in s.members && m !in s.freed && FlagOk(s, m) && t in s.pcs && s.pcs[t] != Leaving(m)
    ensures var pcs := s.pcs[t := pc]; exists u :: u in pcs && pcs[u] == Leaving(m)
  {
    var u :| u in s.pcs && s.pcs[u] == Leaving(m);
    assert s.pcs[t := pc][u] == Leaving(m);
  }

  lemma LocksKeep(s: State, t: nat, act: Act)
    requires Inv(s) && CanAct(s, t, act) && (act.Lock? || act.Unlock? || act.JoinTail? || act.LeaveTail? || act.Look?)
    ensures Inv(Do(s, t, act))
  {
    var n := Do(s, t, act);
    forall m | m in n.flagged ensures FlagOk(n, m) {
      if m !in s.members && m !in s.freed {
        StillLeaving(s, t, n.pcs[t], m);
      }
    }
  }

  lemma JoinKeeps(s: State, t: nat)
    requires Inv(s) && CanAct(s, t, Join)
    ensures Inv(Do(s, t, Join))
  {
    var n := Do(s, t, Join);
    forall m | m in n.flagged ensures FlagOk(n, m) {
      if m !in s.members && m !in s.freed {
        StillLeaving(s, t, n.pcs[t], m);
      }
    }
  }

  lemma LeaveKeeps(s: State, t: nat)
    requires Inv(s) && CanAct(s, t, Leave)
    ensures Inv(Do(s, t, Leave))
  {
    var n := Do(s, t, Leave);
    WithoutMembers(s.members, s.pcs[t].bev);
    forall m | m in n.flagged ensures FlagOk(n, m) {
      if m == s.pcs[t].bev {
        assert n.pcs[t] == Leaving(m);
      } else if m !in s.members && m !in s.freed {
        StillLeaving(s, t, n.pcs[t], m);
      }
    }
    forall u | u in n.pcs ensures JoinOk(n, n.pcs[u]) {
      assert u != t ==> HeldBev(s.pcs[u]) != HeldBev(s.pcs[t]);
    }
  }

  lemma FreeKeeps(s: State, t: nat)
    requires Inv(s) && CanAct(s, t, Free)
    ensures Inv(Do(s, t, Free))
  {
    var n := Do(s, t, Free);
    WithoutMembers(s.members, s.pcs[t].bev);
    forall m | m in n.flagged ensures FlagOk(n, m) {
      if m !in s.members && m !in n.freed {
        StillLeaving(s, t, n.pcs[t], m);
      }
    }
    forall u | u in n.pcs ensures JoinOk(n, n.pcs[u]) && (HeldBev(n.pcs[u]).Some? ==> HeldBev(n.pcs[u]).value !in n.freed) {
      assert u != t ==> HeldBev(s.pcs[u]) != HeldBev(s.pcs[t]);
    }
  }

  lemma {:induction false} SweepKeeps(s: State, t: nat, act: Act)
    requires Inv(s) && CanAct(s, t, act)
    requires act.SuspendNext? || act.EndSuspend? || act.UnsuspendNext? || act.EndUnsuspend?
    ensures Inv(Do(s, t, act))
  {
  }

  lemma SuspendBegins(s: State, t: nat)
    requires Sound(s) && s.sweep.NoSweep? && t in s.pcs && (s.pcs[t].Idle? || s.pcs[t].Holding?)
    ensures Inv(BeginSuspend(s, t))
  {
    forall m | m in s.flagged ensures FlagOk(BeginSuspend(s, t), m) {
      assert FlagOk(s, m);
    }
  }

  lemma UnsuspendBegins(s: State, t: nat, which: nat)
    requires Sound(s) && s.sweep.NoSweep? && t in s.pcs && (s.pcs[t].Idle? || s.pcs[t].Holding?)
    requires s.minShare > 0 ==> s.limit > 0
    ensures Inv(BeginUnsuspend(s, t, which))
  {
    var n := BeginUnsuspend(s, t, which);
    SweepOrderOnce(s.members, which);
    forall m | m in s.members ensures m in n.sweep.todo {
      assert m in multiset(n.sweep.todo);
    }
    forall m | m in s.flagged ensures FlagOk(n, m) {
      assert FlagOk(s, m);
    }
  }

  /** The bucket itself matters to nobody's flag. */
  lemma AnyLimit(s: State, limit: int)
    requires Sound(s)
    ensures Sound(s.(limit := limit))
  {
    var n := s.(limit := limit);
    forall m | m in n.flagged ensures FlagOk(n, m) {
      assert FlagOk(s, m);
    }
    forall t | t in n.pcs ensures JoinOk(n, n.pcs[t]) {
      assert JoinOk(s, s.pcs[t]);
    }
  }

  /** Whatever happens to the bucket, a sweep is begun when there is need of one. */
  lemma BucketKeeps(s: State, t: nat, act: Act)
    requires Inv(s) && CanAct(s, t, act) && (act.Charge? || act.GroupCharge? || act.Clip? || act.Refill?)
    ensures Inv(Do(s, t, act))
  {
    assert SweepOk(s);
    hide Sound, BeginSuspend, BeginUnsuspend;
    if act.Clip? {
      AnyLimit(s, if s.limit > act.maximum then act.maximum else s.limit);
    } else {
      var limit := if act.Refill? then act.limit else s.limit - act.bytes;
      var n := s.(limit := limit);
      AnyLimit(s, limit);
      SuspendBegins(n, t);
      if s.minShare > 0 ==> limit > 0 {
        UnsuspendBegins(n, t, act.which);
      }
    }
  }

  lemma ActKeeps(s: State, t: nat, act: Act)
    requires Inv(s) && CanAct(s, t, act)
    ensures Inv(Do(s, t, act))
  {
    hide Inv, CanAct, Do;
    match act
    case Join => JoinKeeps(s, t);
    case Leave => LeaveKeeps(s, t);
    case Free => FreeKeeps(s, t);
    case Lock(_) => LocksKeep(s, t, act);
    case Unlock => LocksKeep(s, t, act);
    case JoinTail => LocksKeep(s, t, act);
    case LeaveTail => LocksKeep(s, t, act);
    case Look => LocksKeep(s, t, act);
    case Charge(_, _) => BucketKeeps(s, t, act);
    case GroupCharge(_, _) => BucketKeeps(s, t, act);
    case Clip(_) => BucketKeeps(s, t, act);
    case Refill(_, _) => BucketKeeps(s, t, act);
    case _ => SweepKeeps(s, t, act);
  }

  // ---------- whole runs ----------

  datatype Step = Step(thread: nat, act: Act)

  ghost predicate CanRun(s: State, steps: seq<Step>)
    decreases |steps|
  {
    steps == [] || (CanAct(s, steps[0].thread, steps[0].act) && CanRun(Do(s, steps[0].thread, steps[0].act), steps[1..]))
  }

  ghost function Run(s: State, steps: seq<Step>): State
    requires CanRun(s, steps)
    decreases |steps|
  {
    if steps == [] then s else Run(Do(s, steps[0].thread, steps[0].act), steps[1..])
  }

  ghost predicate Initial(s: State) {
    && !s.suspended && !s.pending && s.limit > 0 && s.members == [] && s.flagged == {} && s.freed == {} && s.sweep.NoSweep?
    && forall t :: t in s.pcs ==> s.pcs[t].Idle?
  }

  lemma {:induction false} RunKeeps(s: State, steps: seq<Step>)
    requires Inv(s) && CanRun(s, steps)
    ensures Inv(Run(s, steps))
    decreases |steps|
  {
    hide Inv, CanAct, Do;
    if steps != [] {
      ActKeeps(s, steps[0].thread, steps[0].act);
      RunKeeps(Do(s, steps[0].thread, steps[0].act), steps[1..]);
    }
  }

  /**
   * No member is stranded: in every interleaving of charges, refills, joins and leaves with the sweeps they set off, when
   * nobody holds the group lock a member that carries the flag belongs to a group that is suspended or has an unsuspend
   * pending, and the group is never both. An exhausted group is suspended.
   */
  lemma NoneStranded(s: State, steps: seq<Step>, m: nat)
    requires Initial(s) && CanRun(s, steps)
    ensures var e := Run(s, steps);
      e.sweep.NoSweep? ==>
        && !(e.suspended && e.pending)
        && (e.minShare > 0 && e.limit <= 0 ==> e.suspended)
        && (m in e.members && m in e.flagged ==> e.suspended || e.pending)
  {
    assert Inv(s);
    RunKeeps(s, steps);
    var e := Run(s, steps);
    assert m in e.flagged ==> FlagOk(e, m);
  }

  /** With a minimum share of zero a refill wakes a group whose bucket is empty. */
  lemma ZeroShareWakes()
    ensures var s := State(true, false, 0, 0, [], {}, {}, NoSweep, map[0 := Idle]);
      Inv(s) && CanAct(s, 0, Refill(0, 0)) && var e := Do(s, 0, Refill(0, 0)); e.limit == 0 && !e.suspended
  {
  }

  // ---------- what a sweep does when nobody else does anything ----------

  /** The rest of a sweep. */
  ghost function FinishSweep(s: State, t: nat): State
    requires t in s.pcs && !s.sweep.NoSweep? && s.sweep.owner == t
    decreases |s.sweep.todo|
  {
    if s.sweep.Suspending? then
      if s.sweep.todo == [] then Do(s, t, EndSuspend) else FinishSweep(Do(s, t, SuspendNext), t)
    else
      if s.sweep.todo == [] then Do(s, t, EndUnsuspend) else FinishSweep(Do(s, t, UnsuspendNext), t)
  }

  /** The group is suspended, and so is every member whose lock is free. */
  ghost predicate SuspendedBy(s: State, t: nat, e: State) {
    && e == s.(suspended := true, pending := false, flagged := e.flagged)
    && forall m :: m in e.flagged <==> m in s.flagged || (m in s.members && BevFree(s, m, t))
  }

  /** The group is awake, and so is every member whose lock is free; an unsuspend is pending exactly if one is not. */
  ghost predicate WokenBy(s: State, t: nat, e: State) {
    && e == s.(suspended := false, pending := e.pending, flagged := e.flagged)
    && (forall m :: m in e.flagged <==> m in s.flagged && !(m in s.members && BevFree(s, m, t)))
    && (e.pending <==> exists m :: m in s.members && !BevFree(s, m, t))
  }

  lemma {:induction false} FinishSuspends(s: State, t: nat)
    requires t in s.pcs && s.sweep.Suspending? && s.sweep.owner == t
    ensures var e := FinishSweep(s, t);
      && e == s.(sweep := NoSweep, flagged := e.flagged)
      && forall m :: m in e.flagged <==> m in s.flagged || (m in s.sweep.todo && BevFree(s, m, t))
    decreases |s.sweep.todo|
  {
    var todo := s.sweep.todo;
    if todo != [] {
      assert todo == [todo[0]] + todo[1..];
      var n := Do(s, t, SuspendNext);
      assert forall m :: BevFree(n, m, t) <==> BevFree(s, m, t);
      FinishSuspends(n, t);
    }
  }

  lemma {:induction false} FinishWakes(s: State, t: nat)
    requires t in s.pcs && s.sweep.Unsuspending? && s.sweep.owner == t
    ensures var e := FinishSweep(s, t);
      && e == s.(pending := e.pending, sweep := NoSweep, flagged := e.flagged)
      && (forall m :: m in e.flagged <==> m in s.flagged && !(m in s.sweep.todo && BevFree(s, m, t)))
      && (e.pending <==> s.sweep.again || exists m :: m in s.sweep.todo && !BevFree(s, m, t))
    decreases |s.sweep.todo|
  {
    var todo := s.sweep.todo;
    if todo != [] {
      assert todo == [todo[0]] + todo[1..];
      var n := Do(s, t, UnsuspendNext);
      assert forall m :: BevFree(n, m, t) <==> BevFree(s, m, t);
      FinishWakes(n, t);
    }
  }

  lemma SuspendAlone(s: State, t: nat)
    requires t in s.pcs && s.sweep.NoSweep?
    ensures SuspendedBy(s, t, FinishSweep(BeginSuspend(s, t), t))
  {
    var n := BeginSuspend(s, t);
    assert forall m :: BevFree(n, m, t) <==> BevFree(s, m, t);
    FinishSuspends(n, t);
  }

  lemma WakeAlone(s: State, t: nat, which: nat)
    requires t in s.pcs && s.sweep.NoSweep?
    ensures WokenBy(s, t, FinishSweep(BeginUnsuspend(s, t, which), t))
  {
    var n := BeginUnsuspend(s, t, which);
    assert forall m :: BevFree(n, m, t) <==> BevFree(s, m, t);
    SweepOrderOnce(s.members, which);
    forall m ensures m in n.sweep.todo <==> m in s.members {
      assert m in n.sweep.todo <==> m in multiset(n.sweep.todo);
      assert m in s.members <==> m in multiset(s.members);
    }
    FinishWakes(n, t);
  }

  /**
   * A charge by a member: when it uses up the bucket the group is suspended with every member that is not locked; when
   * tokens are left a suspended group wakes; and otherwise only the bucket changes.
   */
  lemma ChargeEffect(s: State, t: nat, bytes: int, which: nat)
    requires CanAct(s, t, Charge(bytes, which))
    ensures var n, b := s.(limit := s.limit - bytes), Do(s, t, Charge(bytes, which));
      if n.limit <= 0 then b.sweep.Suspending? && b.sweep.owner == t && SuspendedBy(n, t, FinishSweep(b, t))
      else if s.suspended then b.sweep.Unsuspending? && b.sweep.owner == t && WokenBy(n, t, FinishSweep(b, t))
      else b == n
  {
    hide SuspendedBy, WokenBy, FinishSweep, SweepOrder;
    SuspendAlone(s.(limit := s.limit - bytes), t);
    WakeAlone(s.(limit := s.limit - bytes), t, which);
  }

  /** A charge of the group itself suspends or wakes it only when the bucket changes sign. */
  lemma GroupChargeEffect(s: State, t: nat, bytes: int, which: nat)
    requires CanAct(s, t, GroupCharge(bytes, which))
    ensures var n, b := s.(limit := s.limit - bytes), Do(s, t, GroupCharge(bytes, which));
      if s.limit > 0 >= n.limit then b.sweep.Suspending? && b.sweep.owner == t && SuspendedBy(n, t, FinishSweep(b, t))
      else if s.limit <= 0 < n.limit then b.sweep.Unsuspending? && b.sweep.owner == t && WokenBy(n, t, FinishSweep(b, t))
      else b == n
  {
    hide SuspendedBy, WokenBy, FinishSweep, SweepOrder;
    SuspendAlone(s.(limit := s.limit - bytes), t);
    WakeAlone(s.(limit := s.limit - bytes), t, which);
  }

  /** From every reachable state, exhausting the bucket while no member is locked suspends every member. */
  lemma ExhaustionSuspendsAll(s: State, t: nat, act: Act)
    requires Inv(s) && CanAct(s, t, act) && (forall u :: u in s.pcs && u != t ==> s.pcs[u].Idle?)
    requires act.Charge? || (act.GroupCharge? && s.limit > 0)
    requires s.limit - act.bytes <= 0
    ensures var b := Do(s, t, act);
      && b.sweep.Suspending? && b.sweep.owner == t
      && var e := FinishSweep(b, t);
         e.suspended && !e.pending && e.members == s.members && forall m :: m in e.members ==> m in e.flagged
  {
    if act.Charge? {
      ChargeEffect(s, t, act.bytes, act.which);
    } else {
      GroupChargeEffect(s, t, act.bytes, act.which);
    }
  }

  // ---------- whole calls, when nobody else does anything ----------

  /** bufferevent_add_to_rate_limit_group: a member more, suspended exactly if the group is. */
  lemma JoinCall(s: State, t: nat, m: nat)
    requires CanAct(s, t, Lock(m)) && s.sweep.NoSweep? && m !in s.members
    ensures var steps := [Step(t, Lock(m)), Step(t, Join), Step(t, JoinTail), Step(t, Unlock)];
      && CanRun(s, steps)
      && Run(s, steps) == s.(members := s.members + [m], flagged := if s.suspended then s.flagged + {m} else s.flagged)
  {
    hide BevFree, CanRun, Run, BeginSuspend, BeginUnsuspend, Without;
    var steps := [Step(t, Lock(m)), Step(t, Join), Step(t, JoinTail), Step(t, Unlock)];
    var s1 := Do(s, t, Lock(m));
    var s2 := Do(s1, t, Join);
    var s3 := Do(s2, t, JoinTail);
    FourSteps(s, steps, s1, s2, s3);
    assert s.pcs[t := Idle] == s.pcs;
  }

  /** bufferevent_remove_from_rate_limit_group: a member less, and not suspended by the group. */
  lemma LeaveCall(s: State, t: nat, m: nat)
    requires CanAct(s, t, Lock(m)) && s.sweep.NoSweep? && m in s.members
    ensures var steps := [Step(t, Lock(m)), Step(t, Leave), Step(t, LeaveTail), Step(t, Unlock)];
      CanRun(s, steps) && Run(s, steps) == s.(members := Without(s.members, m), flagged := s.flagged - {m})
  {
    hide BevFree, CanRun, Run, BeginSuspend, BeginUnsuspend, Without;
    var steps := [Step(t, Lock(m)), Step(t, Leave), Step(t, LeaveTail), Step(t, Unlock)];
    var s1 := Do(s, t, Lock(m));
    var s2 := Do(s1, t, Leave);
    var s3 := Do(s2, t, LeaveTail);
    FourSteps(s, steps, s1, s2, s3);
    assert s.pcs[t := Idle] == s.pcs;
  }

  /** The same without the unsuspending, for a bufferevent that is freed. */
  lemma FreeCall(s: State, t: nat, m: nat)
    requires CanAct(s, t, Lock(m)) && s.sweep.NoSweep?
    ensures var steps := [Step(t, Lock(m)), Step(t, Free)];
      CanRun(s, steps) && Run(s, steps) == s.(members := Without(s.members, m), freed := s.freed + {m})
  {
    hide BevFree, CanRun, Run, BeginSuspend, BeginUnsuspend, Without;
    var steps := [Step(t, Lock(m)), Step(t, Free)];
    TwoSteps(s, steps, Do(s, t, Lock(m)));
    assert s.pcs[t := Idle] == s.pcs;
  }

  /** A lower maximum takes away what is above it and gives nothing. */
  lemma ClipEffect(s: State, t: nat, maximum: nat)
    requires CanAct(s, t, Clip(maximum))
    ensures var e := Do(s, t, Clip(maximum));
      && e == s.(limit := e.limit)
      && e.limit <= maximum && e.limit <= s.limit && (e.limit == maximum || e.limit == s.limit)
  {
  }

  lemma TwoSteps(s: State, steps: seq<Step>, s1: State)
    requires |steps| == 2 && CanAct(s, steps[0].thread, steps[0].act) && s1 == Do(s, steps[0].thread, steps[0].act)
    requires CanAct(s1, steps[1].thread, steps[1].act)
    ensures CanRun(s, steps) && Run(s, steps) == Do(s1, steps[1].thread, steps[1].act)
  {
    hide CanAct, Do;
    var r1 := steps[1..];
    assert r1[1..] == [];
    assert CanRun(s1, r1) && Run(s1, r1) == Do(s1, steps[1].thread, steps[1].act);
  }

  lemma FourSteps(s: State, steps: seq<Step>, s1: State, s2: State, s3: State)
    requires |steps| == 4 && CanAct(s, steps[0].thread, steps[0].act) && s1 == Do(s, steps[0].thread, steps[0].act)
    requires CanAct(s1, steps[1].thread, steps[1].act) && s2 == Do(s1, steps[1].thread, steps[1].act)
    requires CanAct(s2, steps[2].thread, steps[2].act) && s3 == Do(s2, steps[2].thread, steps[2].act)
    requires CanAct(s3, steps[3].thread, steps[3].act)
    ensures CanRun(s, steps) && Run(s, steps) == Do(s3, steps[3].thread, steps[3].act)
  {
    hide CanAct, Do;
    var r3 := steps[3..];
    assert r3[1..] == [];
    assert CanRun(s3, r3) && Run(s3, r3) == Do(s3, steps[3].thread, steps[3].act);
    var r2 := steps[2..];
    assert r2[1..] == r3;
    assert CanRun(s2, r2) && Run(s2, r2) == Run(s3, r3);
    var r1 := steps[1..];
    assert r1[1..] == r2;
    assert CanRun(s1, r1) && Run(s1, r1) == Run(s2, r2);
  }

  /** A look at the group catches up with a sweep that has missed the member; and so does the end of joining. */
  lemma LookSuspends(s: State, t: nat)
    ensures CanAct(s, t, Look) ==>
      var e := Do(s, t, Look);
      && e == s.(flagged := e.flagged)
      && forall m :: m in e.flagged <==> m in s.flagged || (s.suspended && m == s.pcs[t].bev)
    ensures CanAct(s, t, JoinTail) && s.pcs[t].suspend ==> s.pcs[t].bev in Do(s, t, JoinTail).flagged
  {
  }

  /** Every member is visited, and none twice. */
  lemma SweepOrderOnce(members: seq<nat>, which: nat)
    ensures multiset(SweepOrder(members, which)) == multiset(members)
  {
    if members != [] {
      var k := which % |members|;
      assert members == members[..k] + members[k..];
    }
  }

  /**
   * A refill that meets no locked member leaves nothing suspended, whatever went before, if an unsuspend was pending or
   * the bucket has reached the minimum share; otherwise it begins no sweep, and what carries the flag is suspended for
   * want of tokens.
   */
  lemma RefillWakesAll(s: State, t: nat, limit: int, which: nat)
    requires Inv(s) && s.sweep.NoSweep? && t in s.pcs && limit >= s.limit && forall u :: u in s.pcs ==> s.pcs[u].Idle?
    ensures var b := Do(s, t, Refill(limit, which));
      if s.pending || (s.suspended && limit >= s.minShare) then
        && b.sweep.Unsuspending? && b.sweep.owner == t
        && var e := FinishSweep(b, t);
           !e.suspended && !e.pending && e.members == s.members && forall m :: m in e.flagged ==> m !in e.members
      else
        && b == s.(limit := limit)
        && forall m :: m in b.members && m in b.flagged ==> b.suspended && b.limit < b.minShare
  {
    var b := Do(s, t, Refill(limit, which));
    if s.pending || (s.suspended && limit >= s.minShare) {
      WakeAlone(s.(limit := limit), t, which);
    } else {
      forall m | m in b.members && m in b.flagged ensures b.suspended && b.limit < b.minShare {
        assert FlagOk(s, m);
      }
    }
  }

  /** FOREACH_RANDOM_ORDER as it runs: two loops around a member drawn at random. */
  method ForeachRandomOrder(members: seq<nat>, random: nat) returns (visited: seq<nat>)
    ensures visited == SweepOrder(members, random)
  {
    visited := [];
    if |members| == 0 {
      return;
    }
    var first := random % |members|;
    var i := first;
    while i < |members|
      invariant first <= i <= |members| && visited == members[first..i]
    {
      visited := visited + [members[i]];
      i := i + 1;
    }
    i := 0;
    while i < first
      invariant 0 <= i <= first && visited == members[first..] + members[..i]
    {
      visited := visited + [members[i]];
      i := i + 1;
    }
  }
}

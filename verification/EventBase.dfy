/** The queues, counters and timers of an event base (libevent/event.c). */
module EventBase {
  import opened EventQueues
  import opened Events
  import opened Evmap
  import opened Options

  /** The timeout given to event_add_internal: absolute, or relative to now. */
  datatype Timeout = Absolute(d: Deadline) | Relative(usec: nat, common: int) {
    function Common(): int {
      if Absolute? then d.common else common
    }

    function At(now: int): Deadline {
      if Absolute? then d else Deadline(now + usec, common)
    }
  }

  // ---------- counting ----------

  /** The number of events that are not internal. */
  ghost function Weight(es: seq<Event>): nat {
    if es == [] then 0 else Weight(es[..|es| - 1]) + if es[|es| - 1].internal then 0 else 1
  }

  ghost function SumWeight(qs: seq<seq<Event>>): nat {
    if qs == [] then 0 else SumWeight(qs[..|qs| - 1]) + Weight(qs[|qs| - 1])
  }

  ghost function SumLen(qs: seq<seq<Event>>): nat {
    if qs == [] then 0 else SumLen(qs[..|qs| - 1]) + |qs[|qs| - 1]|
  }

  ghost function One(e: Event): nat {
    if e.internal then 0 else 1
  }

  lemma WeightAppend(es: seq<Event>, e: Event)
    ensures Weight(es + [e]) == Weight(es) + One(e)
  {
    assert (es + [e])[..|es|] == es;
  }

  lemma {:induction false} WeightInsert(es: seq<Event>, k: nat, e: Event)
    requires k <= |es|
    ensures Weight(InsertAt(es, k, e)) == Weight(es) + One(e)
  {
    var n := |es| - 1;
    if k == |es| {
      assert es[..k] + [e] + es[k..] == es + [e];
      WeightAppend(es, e);
    } else {
      var r := es[..k] + [e] + es[k..];
      assert r[..|r| - 1] == es[..n][..k] + [e] + es[..n][k..] && r[|r| - 1] == es[n];
      WeightInsert(es[..n], k, e);
    }
  }

  lemma WeightStep(es: seq<Event>)
    requires es != []
    ensures Weight(es) == Weight(es[..|es| - 1]) + One(es[|es| - 1])
  {
  }

  lemma {:induction false} WeightWithout(es: seq<Event>, e: Event)
    requires Distinct(es) && e in es
    ensures Weight(es) == Weight(Without(es, e)) + One(e)
    ensures |Without(es, e)| == |es| - 1
  {
    hide Weight, Without, Distinct, One;
    var n := |es| - 1;
    WeightStep(es);
    WithoutStep(es, e);
    DistinctStep(es);
    if es[n] != e {
      assert es == es[..n] + [es[n]];
      WeightWithout(es[..n], e);
      WeightAppend(Without(es[..n], e), es[n]);
    }
  }

  lemma {:induction false} SumUpdate(qs: seq<seq<Event>>, i: nat, q: seq<Event>)
    requires i < |qs|
    ensures SumWeight(qs[i := q]) == SumWeight(qs) - Weight(qs[i]) + Weight(q)
    ensures SumLen(qs[i := q]) == SumLen(qs) - |qs[i]| + |q|
  {
    var n := |qs| - 1;
    if i < n {
      SumUpdate(qs[..n], i, q);
      assert qs[i := q][..n] == qs[..n][i := q];
    } else {
      assert qs[i := q][..n] == qs[..n];
    }
  }

  lemma {:induction false} SumEmpty(qs: seq<seq<Event>>)
    requires forall i :: 0 <= i < |qs| ==> qs[i] == []
    ensures SumWeight(qs) == 0 && SumLen(qs) == 0
  {
    if qs != [] {
      SumEmpty(qs[..|qs| - 1]);
    }
  }

  lemma SumAppend(qs: seq<seq<Event>>)
    ensures SumWeight(qs + [[]]) == SumWeight(qs)
  {
    assert (qs + [[]])[..|qs|] == qs;
  }

  // ---------- the base ----------

  /** Events in order of their deadlines. */
  ghost predicate Sorted(es: seq<Event>)
    reads es`deadline
  {
    forall i, j :: 0 <= i < j < |es| ==> es[i].deadline.at <= es[j].deadline.at
  }

  lemma EmptyInOrder()
    ensures Sorted([]) && Distinct([])
  {
  }

  /** TAILQ_INSERT_AFTER the k-th event (or at the head). */
  function InsertAt(es: seq<Event>, k: nat, e: Event): seq<Event>
    requires k <= |es|
  {
    es[..k] + [e] + es[k..]
  }

  lemma InsertAtMembers(es: seq<Event>, k: nat, e: Event)
    requires k <= |es| && Distinct(es) && e !in es
    ensures var r := InsertAt(es, k, e); Distinct(r) && forall x :: x in r <==> x in es || x == e
    ensures var r := InsertAt(es, k, e); r != [] && (r[0] == e || (es != [] && r[0] == es[0]))
  {
    var r := InsertAt(es, k, e);
    assert es == es[..k] + es[k..];
    assert r[k] == e;
  }

  lemma SortedInsert(es: seq<Event>, k: nat, e: Event)
    requires k <= |es| && Sorted(es)
    requires k > 0 ==> es[k - 1].deadline.at <= e.deadline.at
    requires forall j :: k <= j < |es| ==> e.deadline.at < es[j].deadline.at
    ensures Sorted(InsertAt(es, k, e))
  {
  }

  lemma SortedAppend(es: seq<Event>, e: Event)
    requires Sorted(es) && forall x :: x in es ==> x.deadline.at <= e.deadline.at
    ensures Sorted(es + [e])
  {
  }

  lemma {:induction false} SortedWithout(es: seq<Event>, e: Event)
    requires Sorted(es)
    ensures Sorted(Without(es, e))
    ensures forall x :: x in Without(es, e) ==> x in es
  {
    if es != [] {
      var n := |es| - 1;
      SortedWithout(es[..n], e);
      assert es == es[..n] + [es[n]];
      if es[n] != e {
        SortedAppend(Without(es[..n], e), es[n]);
      }
    }
  }

  /** Removing an event from a sorted list moves the first deadline later, if at all. */
  lemma FirstRemaining(es: seq<Event>, e: Event)
    requires Sorted(es) && Without(es, e) != []
    ensures es != [] && es[0].deadline.at <= Without(es, e)[0].deadline.at
  {
    SortedWithout(es, e);
    assert Without(es, e)[0] in es;
  }

  const MAX_COMMON_TIMEOUTS := 256

  /**
   * What happens to a base: a new event or common timeout, add, delete, activate, a callback that begins or returns,
   * a turn of the loop for the timers, a reading of the clock. The others may happen between Begin and End, that is,
   * inside a callback.
   */
  datatype Op =
    | New(ev: Event)
    | InitCommon(duration: int)
    | Add(ev: Event, tv: Option<Timeout>, at: int)
    | Delete(ev: Event)
    | Activate(ev: Event, res: Res)
    | Begin(ev: Event)
    | End
    | Turn(now: int)
    | Clock(now: int, monotonic: bool)

  /**
   * The reference: the last clock reading, the callers' events, the common timeouts, one table of deadlines, the active
   * events with their reasons, the inserted events, the event whose callback runs.
   */
  datatype Flat = Flat(
    tv: int, events: set<Event>, durations: seq<int>, due: map<Event, Deadline>, active: map<Event, Res>,
    inserted: set<Event>, running: Event?)

  /** The inserted events that read (write) on an fd. */
  ghost function ReadersOn(inserted: set<Event>, fd: int): set<Event> {
    set e | e in inserted && e.fd == fd && e.read
  }

  ghost function WritersOn(inserted: set<Event>, fd: int): set<Event> {
    set e | e in inserted && e.fd == fd && e.write
  }

  /** The fd map refuses the event. */
  ghost predicate Refused(s: Flat, ev: Event) {
    && (ev.read || ev.write) && ev !in s.inserted && ev !in s.active && ev.fd >= 0
    && ((ev.read && |ReadersOn(s.inserted, ev.fd)| == 0xffff) || (ev.write && |WritersOn(s.inserted, ev.fd)| == 0xffff))
  }

  ghost function Joined(a: Res, b: Res): Res {
    Res(a.timeout || b.timeout, a.read || b.read, a.write || b.write)
  }

  ghost function FlatAdd(s: Flat, ev: Event, tv: Option<Timeout>, now: int): Flat {
    s.(inserted := if (ev.read || ev.write) && ev !in s.active then s.inserted + {ev} else s.inserted,
       due := if tv.Some? then s.due[ev := tv.value.At(now)] else s.due,
       active := if tv.Some? && ev in s.active && s.active[ev].timeout then s.active - {ev} else s.active)
  }

  /** The active events, and those that a timeout makes active. */
  ghost function FiredOver(active: map<Event, Res>, fired: set<Event>): map<Event, Res> {
    map e | e in active.Keys + fired :: if e in fired then Res(true, false, false) else active[e]
  }

  ghost function FlatTurn(s: Flat, now: int): Flat {
    var fired := Overdue(s.due, now);
    s.(due := s.due - fired, inserted := s.inserted - fired, active := FiredOver(s.active, fired))
  }

  ghost function FlatStep(s: Flat, op: Op): Flat {
    match op
    case New(ev) => s.(events := s.events + {ev})
    case InitCommon(d) => if d in s.durations || |s.durations| == MAX_COMMON_TIMEOUTS then s else s.(durations := s.durations + [d])
    case Add(ev, tv, now) => if Refused(s, ev) then s else FlatAdd(s, ev, tv, now)
    case Delete(ev) => s.(due := s.due - {ev}, active := s.active - {ev}, inserted := s.inserted - {ev})
    case Activate(ev, res) => s.(active := s.active[ev := if ev in s.active then Joined(s.active[ev], res) else res])
    case Begin(ev) =>
      if s.running != null || ev !in s.active then s
      else if ev.persist then s.(active := s.active - {ev}, running := ev)
      else s.(active := s.active - {ev}, running := ev, due := s.due - {ev}, inserted := s.inserted - {ev})
    case End => s.(running := null)
    case Turn(now) => if s.running != null then s else FlatTurn(s, now)
    case Clock(now, monotonic) =>
      if monotonic then s
      else s.(tv := now, due := if now < s.tv then map e | e in s.due :: Deadline(s.due[e].at - (s.tv - now), s.due[e].common) else s.due)
  }

  ghost function FlatRun(s: Flat, ops: seq<Op>): Flat {
    if ops == [] then s else FlatStep(FlatRun(s, ops[..|ops| - 1]), ops[|ops| - 1])
  }

  /** The active queues after one operation, from a state of the reference; `fired` says in which order a turn fires. */
  ghost function QueueStep(s: Flat, qs: seq<seq<Event>>, op: Op, fired: seq<Event>): seq<seq<Event>> {
    match op
    case Add(ev, tv, _) =>
      if !Refused(s, ev) && tv.Some? && ev in s.active && s.active[ev].timeout then Drop(qs, ev) else qs
    case Delete(ev) => Drop(qs, ev)
    case Activate(ev, _) => if ev in s.active then qs else Push(qs, ev)
    case Begin(ev) => if s.running != null || ev !in s.active then qs else Drop(qs, ev)
    case Turn(_) => if s.running != null then qs else Served(qs, fired)
    case _ => qs
  }

  ghost function QueueRun(s: Flat, qs: seq<seq<Event>>, ops: seq<Op>, fires: seq<seq<Event>>): seq<seq<Event>>
    requires |fires| == |ops|
  {
    if ops == [] then qs
    else
      var n := |ops| - 1;
      QueueStep(FlatRun(s, ops[..n]), QueueRun(s, qs, ops[..n], fires[..n]), ops[n], fires[n])
  }

  lemma RunStart(s: Flat, qs: seq<seq<Event>>)
    ensures FlatRun(s, []) == s && QueueRun(s, qs, [], []) == qs
  {
  }

  lemma RunOn(s: Flat, qs: seq<seq<Event>>, ops: seq<Op>, k: nat, fires: seq<seq<Event>>, fired: seq<Event>)
    requires k < |ops| && |fires| == k
    ensures FlatRun(s, ops[..k + 1]) == FlatStep(FlatRun(s, ops[..k]), ops[k])
    ensures QueueRun(s, qs, ops[..k + 1], fires + [fired]) ==
      QueueStep(FlatRun(s, ops[..k]), QueueRun(s, qs, ops[..k], fires), ops[k], fired)
  {
    hide FlatStep, QueueStep;
    assert ops[..k + 1][..k] == ops[..k] && (fires + [fired])[..k] == fires;
  }

  /** An order in which a turn may fire: all that is overdue, once each, in turn. */
  ghost predicate FiresRight(s: Flat, op: Op, fired: seq<Event>) {
    op.Turn? && s.running == null ==>
      Distinct(fired) && InTurn(s.due, fired) && Members(fired) == Overdue(s.due, op.now)
  }

  /** A caller may do this: with an event of its own, and with a common timeout that exists. */
  ghost predicate Allowed(s: Flat, op: Op) {
    match op
    case New(ev) => ev !in s.events
    case Add(ev, tv, _) =>
      ev in s.events && (tv.Some? && tv.value.Common() != -1 ==> 0 <= tv.value.Common() < |s.durations| && !ev.internal)
    case Delete(ev) => ev in s.events
    case Activate(ev, _) => ev in s.events
    case Begin(ev) => ev in s.events
    case _ => true
  }

  /** When a persistent event runs next: never before now, and without drift as long as no interval is missed. */
  function NextRun(last: int, delay: nat, byTimeout: bool, now: int): (at: int)
    ensures now <= at <= (if byTimeout && last > now then last else now) + delay
    ensures byTimeout && last + delay >= now ==> at - last == delay
    ensures !byTimeout || last + delay < now ==> at - now == delay
  {
    var at := (if byTimeout then last else now) + delay;
    if at < now then now + delay else at
  }

  class Base {
    var eventqueue: seq<Event>
    var activequeues: seq<seq<Event>>
    var timeheap: seq<Event>
    /** The timers and the event lists of common_timeout_queues. */
    var timers: seq<Event>
    var commons: seq<seq<Event>>
    /** The duration that each of those lists is for. */
    var durations: seq<int>
    var eventCount: int
    var eventCountActive: int
    var running: Event?
    /** The time when timeouts were last corrected. */
    var eventTv: int
    const io: IoMap
    /** nactivequeues. */
    const priorities: nat

    ghost var known: set<Event>

    ghost predicate InsertedOk()
      reads this`eventqueue, this`known, known`inserted
    {
      && Distinct(eventqueue)
      && (forall e :: e in eventqueue ==> e in known && (e.read || e.write))
      && (forall e :: e in known ==> (e.inserted <==> e in eventqueue))
    }

    ghost predicate ActiveOk()
      reads this`activequeues, this`known, known`active
    {
      && |activequeues| == priorities > 0
      && (forall p :: 0 <= p < |activequeues| ==> Distinct(activequeues[p]))
      && (forall p, e :: 0 <= p < |activequeues| && e in activequeues[p] ==> e in known && e.pri == p)
      && (forall e :: e in known ==> e.pri < priorities && (e.active <==> e in activequeues[e.pri]))
    }

    ghost predicate TimeoutOk()
      reads this`timeheap, this`commons, this`known, known`timeout, known`deadline
    {
      && Distinct(timeheap)
      && (forall e :: e in timeheap ==> e in known && e.timeout && e.deadline.common == -1)
      && (forall c, e :: 0 <= c < |commons| && e in commons[c] ==>
          e in known && e.timeout && e.deadline.common == c && !e.internal)
      && (forall c :: 0 <= c < |commons| ==> Distinct(commons[c]) && Sorted(commons[c]))
      && (forall e :: e in known && e.timeout ==>
          if e.deadline.common == -1 then e in timeheap
          else 0 <= e.deadline.common < |commons| && e in commons[e.deadline.common])
    }

    ghost predicate CountOk()
      reads this`eventqueue, this`activequeues, this`timeheap, this`commons, this`eventCount, this`eventCountActive
    {
      && eventCount == Weight(eventqueue) + SumWeight(activequeues) + Weight(timeheap) + SumWeight(commons)
      && eventCountActive == SumLen(activequeues)
    }

    /** The fd map lists exactly the inserted events, `but` possibly excepted. */
    ghost predicate MapOk(but: Event?)
      reads this`known, known`inserted, io, io.kernel
    {
      && io.Valid()
      && MapListed()
      && MapLists(but)
    }

    ghost predicate MapListed()
      reads this`known, io
    {
      forall fd :: ListedOn(fd, io.EventsOn(fd))
    }

    ghost predicate ListedOn(fd: int, es: seq<Event>)
      reads this`known
    {
      forall e :: e in es ==> e in known && e.fd == fd >= 0
    }

    ghost predicate MapLists(but: Event?)
      reads this`known, known`inserted, io
    {
      forall e :: e in known && e != but && e.fd >= 0 ==> (e.inserted <==> e in io.EventsOn(e.fd))
    }

    /** Each common-timeout list has an internal timer of its own. */
    ghost predicate TimersOk()
      reads this`timers, this`known, known`deadline
    {
      && Distinct(timers)
      && (forall t :: t in timers ==> t in known && t.internal && !t.read && !t.write && !t.persist && t.pri == 0 && t.deadline.common == -1)
    }

    /** The queues, flags, counters and the fd map agree. */
    ghost predicate Core()
      reads this`eventqueue, this`activequeues, this`timeheap, this`timers, this`commons, this`eventCount
      reads this`eventCountActive, this`known, known, io, io.kernel
    {
      InsertedOk() && ActiveOk() && TimeoutOk() && CountOk() && TimersOk() && MapOk(null) && |timers| == |commons|
    }

    /** The timer of list c is due no later than its first event, or has fired, or is being served by `run`. */
    ghost predicate Woken(c: nat, run: Event?)
      requires c < |commons| && c < |timers|
      reads this`timers, this`commons, this`known, known`active, known`timeout, known`deadline
    {
      commons[c] != [] ==>
        && timers[c] in known && commons[c][0] in known
        && (|| timers[c].active || run == timers[c]
            || (timers[c].timeout && timers[c].deadline.at <= commons[c][0].deadline.at))
    }

    /** Every list but `but` will be looked at in time. */
    ghost predicate Mirrored(but: int, run: Event?)
      reads this`timers, this`commons, this`known, known`active, known`timeout, known`deadline
    {
      |timers| == |commons| && forall c :: 0 <= c < |commons| && c != but ==> Woken(c, run)
    }

    ghost predicate Valid()
      reads this`eventqueue, this`activequeues, this`timeheap, this`timers, this`commons, this`eventCount
      reads this`eventCountActive, this`running, this`known, known, io, io.kernel
    {
      Core() && Mirrored(-1, running)
    }

    constructor (backend: Backend, nevents: nat, priorities: nat)
      requires nevents > 0 && priorities > 0
      ensures Valid() && DurationsOk() && known == {} && running == null && fresh(io) && fresh(io.kernel)
    {
      eventqueue, timeheap, timers, commons, durations := [], [], [], [], [];
      activequeues := seq(priorities, _ => []);
      eventCount, eventCountActive := 0, 0;
      running, eventTv := null, 0;
      this.priorities := priorities;
      known := {};
      io := new IoMap(backend, nevents);
      new;
      SumEmpty(activequeues);
    }

    // ---------- new events and new common timeouts ----------

    /** event_assign: an event of this base, on none of its queues. */
    method Register(ev: Event)
      requires Valid() && ev !in known && ev.pri < priorities
      requires !ev.inserted && !ev.active && !ev.timeout && ev.deadline.common == -1
      modifies this`known
      ensures Valid() && known == old(known) + {ev} && Due() == old(Due())
    {
      hide CountOk, Distinct, Sorted, IoMap.Valid, MapListed, MapLists, Mirrored;
      known := known + {ev};
      MapWith(ev);
      MirrorWith(ev);
    }

    twostate lemma MapWith(ev: Event)
      requires old(MapListed() && MapLists(null)) && known == old(known) + {ev} && ev !in old(known) && !ev.inserted
      requires unchanged(io) && unchanged(known`inserted)
      ensures MapListed() && MapLists(null)
    {
      assert old(ListedOn(ev.fd, io.EventsOn(ev.fd)));
      forall fd ensures ListedOn(fd, io.EventsOn(fd)) {
        assert old(ListedOn(fd, io.EventsOn(fd)));
      }
    }

    twostate lemma MirrorWith(ev: Event)
      requires old(Mirrored(-1, running)) && known == old(known) + {ev}
      requires unchanged(this`timers, this`commons, this`running) && unchanged(known)
      ensures Mirrored(-1, running)
    {
      forall c | 0 <= c < |commons| ensures Woken(c, running) {
        assert old(Woken(c, running));
      }
    }

    /** At most 256 common timeouts, all different. */
    ghost predicate DurationsOk()
      reads this`durations, this`timers, this`commons
    {
      && |durations| == |timers| == |commons| <= MAX_COMMON_TIMEOUTS
      && forall i, j :: 0 <= i < j < |durations| ==> durations[i] != durations[j]
    }

    /** event_base_init_common_timeout: the list for a duration, made if need be; -1 when there are too many. */
    method InitCommonTimeout(duration: int) returns (c: int)
      requires Valid() && DurationsOk()
      modifies this`timers, this`commons, this`durations, this`known
      ensures Valid() && DurationsOk() && Due() == old(Due()) && Queues() == old(Queues())
      ensures c == -1 <==> duration !in old(durations) && |old(durations)| == MAX_COMMON_TIMEOUTS
      ensures c != -1 ==> 0 <= c < |commons| && durations[c] == duration
      ensures forall i :: 0 <= i < |old(durations)| ==>
        i < |durations| && durations[i] == old(durations)[i] && timers[i] == old(timers)[i] && commons[i] == old(commons)[i]
      ensures c == -1 || duration in old(durations) ==>
        durations == old(durations) && known == old(known) && timers == old(timers)
      ensures c != -1 && duration !in old(durations) ==>
        && durations == old(durations) + [duration] && c == |old(durations)| == |timers| - 1
        && fresh(timers[c]) && timers == old(timers) + [timers[c]] && known == old(known) + {timers[c]}
    {
      hide Valid;
      c := 0;
      while c < |durations|
        invariant 0 <= c <= |durations| && duration !in durations[..c]
      {
        if durations[c] == duration {
          return;
        }
        c := c + 1;
      }
      if |durations| == MAX_COMMON_TIMEOUTS {
        return -1;
      }
      var t := new Event(-1, false, false, false, 0, true);
      AddList(t);
      durations := durations + [duration];
    }

    method AddQueue()
      requires TimeoutOk() && CountOk()
      modifies this`commons
      ensures TimeoutOk() && CountOk() && commons == old(commons) + [[]]
    {
      hide Weight, SumWeight, SumLen, Distinct, Sorted;
      SumAppend(commons);
      EmptyInOrder();
      commons := commons + [[]];
    }

    lemma SomePriority()
      requires ActiveOk()
      ensures priorities > 0
    {
    }

    /** A new, empty list with its timer. */
    method AddList(t: Event)
      requires Valid() && t !in known && t.internal && !t.read && !t.write && !t.persist && t.pri == 0
      requires !t.inserted && !t.active && !t.timeout && t.deadline.common == -1
      modifies this`timers, this`commons, this`known
      ensures Valid() && timers == old(timers) + [t] && commons == old(commons) + [[]] && known == old(known) + {t}
      ensures Due() == old(Due()) && Queues() == old(Queues())
    {
      hide InsertedOk, ActiveOk, TimeoutOk, CountOk, MapOk, Mirrored, Distinct, Due;
      SomePriority();
      NeverQueued(t);
      VisibleUnseen(activequeues, timers, t);
      DistinctAppend(timers, t);
      Register(t);
      AddQueue();
      timers := timers + [t];
      MirrorLonger(t);
      DueLonger(t);
    }

    lemma NeverQueued(t: Event)
      requires ActiveOk() && t !in known
      ensures forall p :: 0 <= p < |activequeues| ==> t !in activequeues[p]
    {
    }

    twostate lemma MirrorLonger(t: Event)
      requires old(Mirrored(-1, running)) && known == old(known) + {t} && unchanged(known) && unchanged(this`running)
      requires timers == old(timers) + [t] && commons == old(commons) + [[]]
      ensures Mirrored(-1, running)
    {
      forall c | 0 <= c < |commons| ensures Woken(c, running) {
        assert c < |old(commons)| ==> old(Woken(c, running));
      }
    }

    twostate lemma DueLonger(t: Event)
      requires known == old(known) + {t} && t !in old(known) && unchanged(known) && timers == old(timers) + [t] && !t.timeout
      ensures Due() == old(Due())
    {
    }

    // ---------- event_queue_insert and event_queue_remove ----------

    method InsertInserted(ev: Event)
      requires InsertedOk() && CountOk() && ev in known && !ev.inserted && (ev.read || ev.write)
      modifies this`eventqueue, this`eventCount, ev`inserted
      ensures InsertedOk() && CountOk() && eventqueue == old(eventqueue) + [ev]
      ensures ev.inserted
    {
      hide Weight, SumWeight, SumLen, Distinct;
      WeightAppend(eventqueue, ev);
      DistinctAppend(eventqueue, ev);
      if !ev.internal {
        eventCount := eventCount + 1;
      }
      ev.inserted := true;
      eventqueue := eventqueue + [ev];
    }

    method RemoveInserted(ev: Event)
      requires InsertedOk() && CountOk() && ev in known && ev.inserted
      modifies this`eventqueue, this`eventCount, ev`inserted
      ensures InsertedOk() && CountOk() && eventqueue == Without(old(eventqueue), ev)
      ensures !ev.inserted
    {
      hide Weight, SumWeight, SumLen, Distinct, Without;
      WeightWithout(eventqueue, ev);
      WithoutMembers(eventqueue, ev);
      if !ev.internal {
        eventCount := eventCount - 1;
      }
      ev.inserted := false;
      eventqueue := Without(eventqueue, ev);
    }

    method InsertActive(ev: Event)
      requires ActiveOk() && CountOk() && ev in known
      modifies this`activequeues, this`eventCount, this`eventCountActive, ev`active
      ensures ActiveOk() && CountOk()
      ensures ev.active
      ensures activequeues == old(if ev.active then activequeues else Push(activequeues, ev))
    {
      if ev.active {
        return;
      }
      hide CountOk, Distinct;
      DistinctAppend(activequeues[ev.pri], ev);
      ev.active := true;
      LinkActive(ev);
    }

    /** Link an event at the end of its active queue and count it. */
    method LinkActive(ev: Event)
      requires CountOk() && ev.pri < |activequeues|
      modifies this`activequeues, this`eventCount, this`eventCountActive
      ensures CountOk() && activequeues == old(activequeues[ev.pri := activequeues[ev.pri] + [ev]])
    {
      hide SumWeight, SumLen, Weight;
      WeightAppend(activequeues[ev.pri], ev);
      SumUpdate(activequeues, ev.pri, activequeues[ev.pri] + [ev]);
      if !ev.internal {
        eventCount := eventCount + 1;
      }
      eventCountActive := eventCountActive + 1;
      activequeues := activequeues[ev.pri := activequeues[ev.pri] + [ev]];
    }

    method RemoveActive(ev: Event)
      requires ActiveOk() && CountOk() && ev in known && ev.active
      modifies this`activequeues, this`eventCount, this`eventCountActive, ev`active
      ensures ActiveOk() && CountOk()
      ensures !ev.active
      ensures activequeues == Drop(old(activequeues), ev)
    {
      hide SumWeight, SumLen, Weight, Without, Distinct;
      ghost var q := activequeues[ev.pri];
      WeightWithout(q, ev);
      WithoutMembers(q, ev);
      SumUpdate(activequeues, ev.pri, Without(q, ev));
      if !ev.internal {
        eventCount := eventCount - 1;
      }
      ev.active := false;
      eventCountActive := eventCountActive - 1;
      activequeues := activequeues[ev.pri := Without(activequeues[ev.pri], ev)];
    }

    /** insert_common_timeout_inorder: behind the last event that is not due later. */
    method InOrder(c: nat, ev: Event) returns (k: nat)
      requires c < |commons|
      ensures k <= |commons[c]|
      ensures k > 0 ==> commons[c][k - 1].deadline.at <= ev.deadline.at
      ensures forall j :: k <= j < |commons[c]| ==> ev.deadline.at < commons[c][j].deadline.at
    {
      k := |commons[c]|;
      while k > 0 && !(ev.deadline.at >= commons[c][k - 1].deadline.at)
        invariant k <= |commons[c]|
        invariant forall j :: k <= j < |commons[c]| ==> ev.deadline.at < commons[c][j].deadline.at
      {
        k := k - 1;
      }
    }

    method InsertTimeout(ev: Event)
      requires TimeoutOk() && CountOk() && ev in known && !ev.timeout
      requires ev.deadline.common == -1 || (0 <= ev.deadline.common < |commons| && !ev.internal)
      modifies this`timeheap, this`commons, this`eventCount, ev`timeout
      ensures TimeoutOk() && CountOk()
      ensures ev.timeout
      ensures |commons| == |old(commons)|
      ensures forall c :: 0 <= c < |commons| && c != ev.deadline.common ==> commons[c] == old(commons)[c]
      ensures ev.deadline.common >= 0 ==>
        var q, q0 := commons[ev.deadline.common], old(commons)[ev.deadline.common];
        timeheap == old(timeheap) && q != [] && (q[0] == ev || (q0 != [] && q[0] == q0[0]))
      ensures ev.deadline.common == -1 ==> timeheap == old(timeheap) + [ev]
    {
      hide SumWeight, SumLen, Weight, Distinct, Sorted;
      if ev.deadline.common >= 0 {
        InsertCommon(ev);
      } else {
        WeightAppend(timeheap, ev);
        DistinctAppend(timeheap, ev);
        if !ev.internal {
          eventCount := eventCount + 1;
        }
        ev.timeout := true;
        timeheap := timeheap + [ev];
      }
    }

    method InsertCommon(ev: Event)
      requires TimeoutOk() && CountOk() && ev in known && !ev.timeout
      requires 0 <= ev.deadline.common < |commons| && !ev.internal
      modifies this`commons, this`eventCount, ev`timeout
      ensures TimeoutOk() && CountOk()
      ensures ev.timeout
      ensures |commons| == |old(commons)|
      ensures forall c :: 0 <= c < |commons| && c != ev.deadline.common ==> commons[c] == old(commons)[c]
      ensures var q, q0 := commons[ev.deadline.common], old(commons)[ev.deadline.common];
        q != [] && (q[0] == ev || (q0 != [] && q[0] == q0[0]))
    {
      hide CountOk, Sorted, Distinct, InsertAt;
      var c := ev.deadline.common;
      var k := InOrder(c, ev);
      ev.timeout := true;
      SortedInsert(commons[c], k, ev);
      PutAt(c, k, ev);
      InsertAtMembers(old(commons)[c], k, ev);
      Joins(ev);
    }

    /** An event joins its list, in order, with its timeout flag. */
    twostate lemma Joins(ev: Event)
      requires old(TimeoutOk()) && unchanged(this`timeheap, this`known) && ev in known && !old(ev.timeout) && ev.timeout
      requires unchanged(known`deadline) && unchanged((known - {ev})`timeout)
      requires 0 <= ev.deadline.common < |commons| == |old(commons)| && !ev.internal
      requires forall d :: 0 <= d < |commons| && d != ev.deadline.common ==> commons[d] == old(commons)[d]
      requires Distinct(commons[ev.deadline.common]) && Sorted(commons[ev.deadline.common])
      requires forall e :: e in commons[ev.deadline.common] <==> e in old(commons)[ev.deadline.common] || e == ev
      ensures TimeoutOk()
    {
      hide Sorted, Distinct;
    }

    /** Link an event into list c and count it. */
    method PutAt(c: nat, k: nat, ev: Event)
      requires CountOk() && c < |commons| && k <= |commons[c]|
      modifies this`commons, this`eventCount
      ensures CountOk() && commons == old(commons)[c := InsertAt(old(commons)[c], k, ev)]
    {
      hide SumWeight, SumLen, Weight, InsertAt;
      WeightInsert(commons[c], k, ev);
      SumUpdate(commons, c, InsertAt(commons[c], k, ev));
      if !ev.internal {
        eventCount := eventCount + 1;
      }
      commons := commons[c := InsertAt(commons[c], k, ev)];
    }

    method RemoveTimeout(ev: Event)
      requires TimeoutOk() && CountOk() && ev in known && ev.timeout
      modifies this`timeheap, this`commons, this`eventCount, ev`timeout
      ensures TimeoutOk() && CountOk()
      ensures !ev.timeout
      ensures -1 <= ev.deadline.common < |commons| == |old(commons)|
      ensures ev.deadline.common == -1 ==> timeheap == Without(old(timeheap), ev) && commons == old(commons)
      ensures ev.deadline.common >= 0 ==> timeheap == old(timeheap)
      ensures ev.deadline.common >= 0 ==>
        commons == old(commons)[ev.deadline.common := Without(old(commons)[ev.deadline.common], ev)]
    {
      hide TimeoutOk, CountOk, Without;
      OnItsQueue(ev);
      if ev.deadline.common >= 0 {
        RemoveCommon(ev);
      } else {
        RemoveFromHeap(ev);
      }
    }

    lemma OnItsQueue(ev: Event)
      requires TimeoutOk() && ev in known && ev.timeout
      ensures -1 <= ev.deadline.common < |commons|
    {
    }

    method RemoveFromHeap(ev: Event)
      requires TimeoutOk() && CountOk() && ev in known && ev.timeout && ev.deadline.common == -1
      modifies this`timeheap, this`eventCount, ev`timeout
      ensures TimeoutOk() && CountOk() && !ev.timeout && timeheap == Without(old(timeheap), ev)
    {
      hide SumWeight, SumLen, Weight, Sorted, Distinct, Without;
      WeightWithout(timeheap, ev);
      WithoutMembers(timeheap, ev);
      if !ev.internal {
        eventCount := eventCount - 1;
      }
      timeheap := Without(timeheap, ev);
      ev.timeout := false;
    }

    method RemoveCommon(ev: Event)
      requires TimeoutOk() && CountOk() && ev in known && ev.timeout && 0 <= ev.deadline.common < |commons|
      modifies this`commons, this`eventCount, ev`timeout
      ensures TimeoutOk() && CountOk() && !ev.timeout
      ensures commons == old(commons)[ev.deadline.common := Without(old(commons)[ev.deadline.common], ev)]
    {
      hide CountOk, Sorted, Distinct, Without;
      var c := ev.deadline.common;
      WithoutMembers(commons[c], ev);
      TakeFrom(c, ev);
      ev.timeout := false;
      SortedWithout(old(commons)[c], ev);
      Leaves(ev);
    }

    /** An event leaves its list, which stays in order, with its timeout flag. */
    twostate lemma Leaves(ev: Event)
      requires old(TimeoutOk()) && unchanged(this`timeheap, this`known) && ev in known && !ev.timeout
      requires unchanged(known`deadline) && unchanged((known - {ev})`timeout)
      requires 0 <= ev.deadline.common < |commons| == |old(commons)|
      requires forall d :: 0 <= d < |commons| && d != ev.deadline.common ==> commons[d] == old(commons)[d]
      requires Distinct(commons[ev.deadline.common]) && Sorted(commons[ev.deadline.common])
      requires forall e :: e in commons[ev.deadline.common] <==> e in old(commons)[ev.deadline.common] && e != ev
      ensures TimeoutOk()
    {
      hide Sorted, Distinct;
    }

    /** Unlink an event from list c and uncount it. */
    method TakeFrom(c: nat, ev: Event)
      requires CountOk() && c < |commons| && Distinct(commons[c]) && ev in commons[c]
      modifies this`commons, this`eventCount
      ensures CountOk() && commons == old(commons)[c := Without(old(commons)[c], ev)]
    {
      hide SumWeight, SumLen, Weight, Distinct, Without;
      WeightWithout(commons[c], ev);
      SumUpdate(commons, c, Without(commons[c], ev));
      if !ev.internal {
        eventCount := eventCount - 1;
      }
      commons := commons[c := Without(commons[c], ev)];
    }

    // ---------- event_del_internal, event_active_nolock, event_add_internal ----------

    /** Leaving a timeout queue keeps the timers early enough: the next event of a list is due later. */
    method DropTimeout(ev: Event, ghost but: int, ghost run: Event?)
      requires TimeoutOk() && CountOk() && TimersOk() && Mirrored(but, run) && ev in known && ev.timeout
      requires ev in timers ==> 0 <= but < |timers| && timers[but] == ev
      modifies this`timeheap, this`commons, this`eventCount, ev`timeout
      ensures TimeoutOk() && CountOk() && Mirrored(but, run) && !ev.timeout
      ensures -1 <= ev.deadline.common < |commons| == |old(commons)|
      ensures ev.deadline.common == -1 ==> timeheap == Without(old(timeheap), ev) && commons == old(commons)
      ensures ev.deadline.common >= 0 ==> timeheap == old(timeheap)
      ensures ev.deadline.common >= 0 ==>
        commons == old(commons)[ev.deadline.common := Without(old(commons)[ev.deadline.common], ev)]
    {
      hide CountOk, Without, Sorted;
      ghost var c := ev.deadline.common;
      if c >= 0 {
        if Without(commons[c], ev) != [] {
          FirstRemaining(commons[c], ev);
        }
      }
      RemoveTimeout(ev);
      forall d | 0 <= d < |commons| && d != but ensures Woken(d, run) {
        assert old(Woken(d, run));
        assert timers[d] in timers;
        assert commons[d] != [] ==> commons[d][0] in commons[d];
      }
    }

    /** event_del_internal: off every queue. */
    method DelInternal(ev: Event, ghost but: int, ghost run: Event?)
      requires Core() && Mirrored(but, run) && ev in known
      requires ev in timers ==> 0 <= but < |timers| && timers[but] == ev
      modifies this`eventqueue, this`activequeues, this`timeheap, this`commons, this`eventCount, this`eventCountActive
      modifies io, io.kernel, ev`inserted, ev`active, ev`timeout
      ensures Core() && Mirrored(but, run) && !ev.inserted && !ev.active && !ev.timeout
      ensures commons == old(if ev.timeout && ev.deadline.common >= 0
                             then commons[ev.deadline.common := Without(commons[ev.deadline.common], ev)] else commons)
      ensures timeheap == old(if ev.timeout && ev.deadline.common == -1 then Without(timeheap, ev) else timeheap)
      ensures activequeues == Drop(old(activequeues), ev)
    {
      hide InsertedOk, ActiveOk, TimeoutOk, CountOk, TimersOk, MapOk, Mirrored, Without, Drop;
      if ev.timeout {
        DropTimeout(ev, but, run);
      }
      if ev.active {
        DropActive(ev, but, run);
      } else {
        NotQueued(ev);
      }
      if ev.inserted {
        Uninsert(ev);
      }
    }

    /** An event that is not active is in no active queue. */
    lemma NotQueued(ev: Event)
      requires ActiveOk() && ev in known && !ev.active
      ensures Drop(activequeues, ev) == activequeues
    {
      WithoutAbsent(activequeues[ev.pri], ev);
    }

    method DropActive(ev: Event, ghost but: int, ghost run: Event?)
      requires ActiveOk() && CountOk() && TimersOk() && Mirrored(but, run) && ev in known && ev.active
      requires ev in timers ==> 0 <= but < |timers| && timers[but] == ev
      modifies this`activequeues, this`eventCount, this`eventCountActive, ev`active
      ensures ActiveOk() && CountOk() && Mirrored(but, run) && !ev.active && activequeues == Drop(old(activequeues), ev)
    {
      hide CountOk, ActiveOk, Drop;
      RemoveActive(ev);
      forall c | 0 <= c < |commons| && c != but ensures Woken(c, run) {
        assert old(Woken(c, run));
        assert timers[c] in timers;
      }
    }

    /** Take an event off the queue of inserted events and off the fd map. */
    method Uninsert(ev: Event)
      requires InsertedOk() && CountOk() && MapOk(null) && ev in known && ev.inserted
      modifies this`eventqueue, this`eventCount, io, io.kernel, ev`inserted
      ensures InsertedOk() && CountOk() && MapOk(null) && !ev.inserted
    {
      hide CountOk, InsertedOk, IoMap.Valid, Without;
      RemoveInserted(ev);
      io.EventsDistinct(ev.fd);
      ghost var before := io.EventsOn(ev.fd);
      var _ := io.IoDel(ev.fd, ev);
      WithoutMembers(before, ev);
    }

    /** event_active_nolock: mark active for the given reasons, once. */
    method ActiveNolock(ev: Event, res: Res, ghost but: int, ghost run: Event?)
      requires Core() && Mirrored(but, run) && ev in known
      modifies this`activequeues, this`eventCount, this`eventCountActive, ev`active, ev`res
      ensures Core() && Mirrored(but, run) && ev.active
      ensures ev in timers && 0 <= but < |timers| && timers[but] == ev ==> Mirrored(-1, run)
      ensures ev.res == if old(ev.active)
        then Res(old(ev.res).timeout || res.timeout, old(ev.res).read || res.read, old(ev.res).write || res.write) else res
      ensures activequeues == old(if ev.active then activequeues else Push(activequeues, ev))
    {
      hide InsertedOk, ActiveOk, TimeoutOk, CountOk, TimersOk, MapOk, Push;
      if ev.active {
        ev.res := Res(ev.res.timeout || res.timeout, ev.res.read || res.read, ev.res.write || res.write);
      } else {
        ev.res := res;
        InsertActive(ev);
      }
      forall c | 0 <= c < |commons| && c != but && timers[c] != ev ensures Woken(c, run) {
        assert old(Woken(c, run));
      }
      MirrorActive(ev, but, run);
    }

    /** A fired timer covers its list. */
    lemma MirrorActive(ev: Event, but: int, run: Event?)
      requires ev in known && ev.active && TimeoutOk() && TimersOk() && |timers| == |commons|
      requires forall c :: 0 <= c < |commons| && c != but && timers[c] != ev ==> Woken(c, run)
      ensures Mirrored(but, run)
      ensures ev in timers && 0 <= but < |timers| && timers[but] == ev ==> Mirrored(-1, run)
    {
      forall c | 0 <= c < |commons| && timers[c] == ev ensures Woken(c, run) {
        assert commons[c] != [] ==> commons[c][0] in commons[c];
      }
    }

    /** The fd of an event has all the readers or writers that its counters can count. */
    ghost predicate Crowded(ev: Event)
      reads io
    {
      && ev.fd >= 0
      && ((ev.read && Readers(io.EventsOn(ev.fd)) == 0xffff) || (ev.write && Writers(io.EventsOn(ev.fd)) == 0xffff))
    }

    /** Put an event on the queue of inserted events and on the fd map; -1 if the map refuses it. */
    method Insert(ev: Event) returns (r: int)
      requires InsertedOk() && CountOk() && MapOk(null) && ev in known && !ev.inserted && (ev.read || ev.write)
      modifies this`eventqueue, this`eventCount, io, io.kernel, ev`inserted
      ensures InsertedOk() && CountOk() && MapOk(null)
      ensures r == -1 || r == 0 || r == 1
      ensures ev.inserted <==> r != -1
      ensures r == -1 <==> old(Crowded(ev))
    {
      hide CountOk, InsertedOk, IoMap.Valid;
      assert ListedOn(ev.fd, io.EventsOn(ev.fd));
      r := io.IoAdd(ev.fd, ev);
      if r != -1 {
        InsertInserted(ev);
      }
    }

    /** Take an event off its timeout queue, and off the active queue if a timeout put it there. */
    method LeaveTimeout(ev: Event, ghost but: int, ghost run: Event?)
      requires Core() && Mirrored(but, run) && ev in known
      requires if ev in timers then 0 <= but < |timers| && timers[but] == ev && ev.deadline.common == -1 else but == -1
      modifies this`activequeues, this`timeheap, this`commons, this`eventCount, this`eventCountActive
      modifies ev`active, ev`timeout
      ensures Core() && Mirrored(but, run) && !ev.timeout && |commons| == |old(commons)|
      ensures ev.active == old(ev.active && !ev.res.timeout)
      ensures activequeues == old(if ev.active && ev.res.timeout then Drop(activequeues, ev) else activequeues)
      ensures ev in timers ==> commons == old(commons)
    {
      hide InsertedOk, ActiveOk, TimeoutOk, CountOk, TimersOk, MapOk, Mirrored, Drop;
      if ev.timeout {
        DropTimeout(ev, but, run);
      }
      if ev.active && ev.res.timeout {
        DropActive(ev, but, run);
      }
    }

    /** The timeout part of event_add_internal: leave the old timeout and an activation by timeout, take the new one. */
    method SetTimeout(ev: Event, d: Deadline, ghost but: int, ghost run: Event?)
      requires Core() && Mirrored(but, run) && ev in known
      requires if ev in timers then 0 <= but < |timers| && timers[but] == ev && d.common == ev.deadline.common == -1 else but == -1
      requires d.common == -1 || (0 <= d.common < |commons| && !ev.internal)
      modifies this`activequeues, this`timeheap, this`commons, this`eventCount, this`eventCountActive
      modifies ev`active, ev`timeout, ev`deadline
      ensures Core() && ev.timeout && ev.deadline == d
      ensures ev.active == old(ev.active && !ev.res.timeout)
      ensures Mirrored(if d.common >= 0 then d.common else but, run)
      ensures d.common >= 0 ==> commons[d.common] != [] && (commons[d.common][0] != ev ==> Mirrored(-1, run))
      ensures activequeues == old(if ev.active && ev.res.timeout then Drop(activequeues, ev) else activequeues)
      ensures ev in timers ==> commons == old(commons)
    {
      hide InsertedOk, ActiveOk, TimeoutOk, CountOk, TimersOk, MapOk, Mirrored, Drop;
      LeaveTimeout(ev, but, run);
      NewDeadline(ev, d, but, run);
      TakeTimeout(ev, but, run);
    }

    /** event_queue_insert for a timeout, with what it does to the lists' timers. */
    method TakeTimeout(ev: Event, ghost but: int, ghost run: Event?)
      requires TimeoutOk() && CountOk() && TimersOk() && Mirrored(but, run) && ev in known && !ev.timeout
      requires if ev in timers then 0 <= but < |timers| && timers[but] == ev && ev.deadline.common == -1 else but == -1
      requires ev.deadline.common == -1 || (0 <= ev.deadline.common < |commons| && !ev.internal)
      modifies this`timeheap, this`commons, this`eventCount, ev`timeout
      ensures TimeoutOk() && CountOk() && ev.timeout && |commons| == |old(commons)|
      ensures Mirrored(if ev.deadline.common >= 0 then ev.deadline.common else but, run)
      ensures ev.deadline.common >= 0 ==>
        commons[ev.deadline.common] != [] && (commons[ev.deadline.common][0] != ev ==> Mirrored(-1, run))
      ensures ev.deadline.common == -1 ==> commons == old(commons)
    {
      hide CountOk, InsertAt;
      InsertTimeout(ev);
      forall c | 0 <= c < |commons| && c != but && (commons[c] == [] || commons[c][0] != ev) ensures Woken(c, run) {
        assert old(Woken(c, run));
        assert timers[c] in timers;
        assert commons[c] != [] ==> commons[c][0] in commons[c];
      }
      forall c | 0 <= c < |commons| && commons[c] != [] && commons[c][0] == ev ensures c == ev.deadline.common {
        assert ev in commons[c];
      }
    }

    /** Change the deadline of an event that is on no timeout queue. */
    method NewDeadline(ev: Event, d: Deadline, ghost but: int, ghost run: Event?)
      requires TimeoutOk() && TimersOk() && Mirrored(but, run) && ev in known && !ev.timeout
      requires if ev in timers then 0 <= but < |timers| && timers[but] == ev && d.common == -1 else but == -1
      modifies ev`deadline
      ensures TimeoutOk() && TimersOk() && Mirrored(but, run) && ev.deadline == d
    {
      hide Distinct, Sorted;
      ev.deadline := d;
      OrderKept(ev);
      forall c | 0 <= c < |commons| && c != but ensures Woken(c, run) {
        assert old(Woken(c, run));
        assert timers[c] in timers;
        assert commons[c] != [] ==> commons[c][0] in commons[c];
      }
    }

    /** The lists stay in order when an event outside them changes. */
    twostate lemma OrderKept(ev: Event)
      requires old(TimeoutOk()) && ev in known && !old(ev.timeout)
      requires unchanged(this`commons, this`known)
      requires forall e :: e in known && e != ev ==> e.deadline == old(e.deadline)
      ensures forall c :: 0 <= c < |commons| ==> Sorted(commons[c])
    {
      forall c | 0 <= c < |commons| ensures Sorted(commons[c]) {
        assert old(Sorted(commons[c]));
        assert forall i :: 0 <= i < |commons[c]| ==> commons[c][i] in commons[c];
      }
    }

    /** common_timeout_schedule: let the timer of list c go off with its first event. */
    method Schedule(c: nat, ghost run: Event?)
      requires Core() && Mirrored(c, run) && c < |commons| && commons[c] != []
      modifies this`activequeues, this`timeheap, this`commons, this`eventCount, this`eventCountActive
      modifies timers[c]
      ensures Core() && Mirrored(-1, run)
      ensures commons == old(commons) && timers[c].timeout && timers[c].deadline == Deadline(commons[c][0].deadline.at, -1)
      ensures Queues() == old(Queues())
    {
      hide InsertedOk, ActiveOk, CountOk, MapOk, Drop, Visible;
      assert timers[c] in timers && commons[c][0] in commons[c];
      VisibleDrop(activequeues, timers, timers[c]);
      SetTimeout(timers[c], Deadline(commons[c][0].deadline.at, -1), c, run);
      assert Woken(c, run);
    }

    /** The active queues as callers know them. */
    ghost function Queues(): seq<seq<Event>>
      reads this`activequeues, this`timers
    {
      Visible(activequeues, timers)
    }

    /** They hold exactly the callers' active events, none twice, each in the queue of its priority. */
    lemma QueuesHold()
      requires Valid()
      ensures |Queues()| == priorities && InQueues(Queues())
      ensures forall e :: e in known && e !in timers ==> e.pri < priorities && (e.active <==> e in Queues()[e.pri])
    {
      hide InsertedOk, TimeoutOk, CountOk, TimersOk, MapOk, Mirrored, Distinct, Others;
      forall p | 0 <= p < |activequeues|
        ensures Distinct(Queues()[p]) && (forall e :: e in Queues()[p] <==> e in activequeues[p] && e !in timers)
        ensures forall k :: 0 <= k < |Queues()[p]| ==> Queues()[p][k].pri == p
      {
        assert Queues()[p] == Others(activequeues[p], timers);
        OthersDistinct(activequeues[p], timers);
        OthersMembers(activequeues[p], timers);
        forall k | 0 <= k < |Queues()[p]| ensures Queues()[p][k].pri == p {
          OthersAt(activequeues[p], timers, k);
        }
      }
    }

    // ---------- the flat view of the timers ----------

    /** All deadlines that callers asked for, in one flat table. */
    ghost function Due(): map<Event, Deadline>
      reads this`known, this`timers, known`timeout, known`deadline
    {
      map e | e in known && e.timeout && e !in timers :: e.deadline
    }

    /** Timed out: off the timeout and fd queues, active for that reason alone. */
    ghost predicate Fired(e: Event)
      reads e
    {
      !e.timeout && e.active && !e.inserted && e.res == Res(true, false, false)
    }

    /** event_add_internal. */
    method AddInternal(ev: Event, tv: Option<Timeout>, now: int) returns (r: int)
      requires Valid() && ev in known && ev !in timers
      requires tv.Some? && tv.value.Common() != -1 ==> 0 <= tv.value.Common() < |commons| && !ev.internal
      modifies this`eventqueue, this`activequeues, this`timeheap, this`commons, this`eventCount, this`eventCountActive
      modifies io, io.kernel, ev`inserted, ev`active, ev`timeout, ev`deadline, timers
      ensures Valid() && (r == 0 || r == -1)
      ensures r == -1 <==> old((ev.read || ev.write) && !ev.inserted && !ev.active && Crowded(ev))
      ensures r == -1 ==> !ev.inserted && ev.timeout == old(ev.timeout) && Due() == old(Due())
      ensures r == 0 ==> ev.inserted == old(ev.inserted || ((ev.read || ev.write) && !ev.active))
      ensures ev.active == (old(ev.active) && !(r == 0 && tv.Some? && old(ev.res.timeout)))
      ensures r == 0 && tv.Some? ==> ev.timeout && ev.deadline == tv.value.At(now)
      ensures r == 0 ==> Due() == if tv.None? then old(Due()) else old(Due())[ev := tv.value.At(now)]
      ensures Queues() == old(if ev.active && ev.res.timeout && tv.Some? then Drop(Queues(), ev) else Queues())
    {
      hide InsertedOk, ActiveOk, TimeoutOk, CountOk, TimersOk, MapOk, Mirrored, Due, Visible, Drop;
      r := 0;
      if (ev.read || ev.write) && !ev.inserted && !ev.active {
        r := Insert(ev);
        r := if r == 1 then 0 else r;
      }
      if r != -1 && tv.Some? {
        ChangeTimeout(ev, tv.value.At(now));
        DueWith(ev);
      }
    }

    twostate lemma DueWith(ev: Event)
      requires ev in known && ev !in timers && ev.timeout && unchanged(this`known, this`timers)
      requires forall e :: e in known && e != ev && e !in timers ==> e.timeout == old(e.timeout) && e.deadline == old(e.deadline)
      ensures Due() == old(Due())[ev := ev.deadline]
    {
    }

    /** Take a new timeout and let the timer of its list know. */
    method ChangeTimeout(ev: Event, d: Deadline)
      requires Valid() && ev in known && ev !in timers
      requires d.common == -1 || (0 <= d.common < |commons| && !ev.internal)
      modifies this`activequeues, this`timeheap, this`commons, this`eventCount, this`eventCountActive
      modifies ev`active, ev`timeout, ev`deadline, timers
      ensures Valid() && ev.timeout && ev.deadline == d && ev.active == old(ev.active && !ev.res.timeout)
      ensures Queues() == old(if ev.active && ev.res.timeout then Drop(Queues(), ev) else Queues())
    {
      hide InsertedOk, ActiveOk, TimeoutOk, CountOk, TimersOk, MapOk, Mirrored, Visible, Drop;
      VisibleDrop(activequeues, timers, ev);
      SetTimeout(ev, d, -1, running);
      if d.common >= 0 && commons[d.common][0] == ev {
        Schedule(d.common, running);
      }
    }

    /**
     * The rescheduling part of event_persist_closure, for an event with a timeout of its own that is about to run: at
     * the interval after the last deadline if that was the reason and is not over yet, else after now.
     */
    method PersistClosure(ev: Event, delay: nat, now: int) returns (r: int)
      requires Valid() && ev in known && ev !in timers && ev.persist && delay > 0
      requires ev.deadline.common != -1 ==> 0 <= ev.deadline.common < |commons| && !ev.internal
      modifies this`eventqueue, this`activequeues, this`timeheap, this`commons, this`eventCount, this`eventCountActive
      modifies io, io.kernel, ev`inserted, ev`active, ev`timeout, ev`deadline, timers
      ensures Valid() && (r == 0 || r == -1)
      ensures r == -1 <==> old((ev.read || ev.write) && !ev.inserted && !ev.active && Crowded(ev))
      ensures r == -1 ==> Due() == old(Due())
      ensures Queues() == old(if ev.active && ev.res.timeout then Drop(Queues(), ev) else Queues())
      ensures r == 0 ==>
        var at := NextRun(old(ev.deadline.at), delay, ev.res.timeout, now);
        ev.deadline == Deadline(at, old(ev.deadline.common)) && Due() == old(Due())[ev := ev.deadline]
    {
      hide Valid;
      var at := NextRun(ev.deadline.at, delay, ev.res.timeout, now);
      r := AddInternal(ev, Some(Absolute(Deadline(at, ev.deadline.common))), now);
    }

    /** event_del on a caller's event. */
    method Del(ev: Event)
      requires Valid() && ev in known && ev !in timers
      modifies this`eventqueue, this`activequeues, this`timeheap, this`commons, this`eventCount, this`eventCountActive
      modifies io, io.kernel, ev`inserted, ev`active, ev`timeout
      ensures Valid() && !ev.inserted && !ev.active && !ev.timeout
      ensures Due() == old(Due()) - {ev} && Queues() == Drop(old(Queues()), ev)
    {
      hide InsertedOk, ActiveOk, TimeoutOk, CountOk, TimersOk, MapOk, Mirrored, Visible, Drop;
      VisibleDrop(activequeues, timers, ev);
      DelInternal(ev, -1, running);
    }

    /** event_active on any event. */
    method Activate(ev: Event, res: Res)
      requires Valid() && ev in known
      modifies this`activequeues, this`eventCount, this`eventCountActive, ev`active, ev`res
      ensures Valid() && ev.active && Due() == old(Due())
      ensures ev.res == if old(ev.active)
        then Res(old(ev.res).timeout || res.timeout, old(ev.res).read || res.read, old(ev.res).write || res.write) else res
      ensures Queues() == old(if ev.active || ev in timers then Queues() else Push(Queues(), ev))
    {
      hide InsertedOk, ActiveOk, TimeoutOk, CountOk, TimersOk, MapOk, Mirrored, Visible, Push;
      VisiblePush(activequeues, timers, ev);
      ActiveNolock(ev, res, -1, running);
    }

    // ---------- timeout_process ----------

    /** min_heap_top. */
    method HeapTop() returns (top: Event?)
      ensures top == null <==> timeheap == []
      ensures top != null ==> top in timeheap && forall e :: e in timeheap ==> top.deadline.at <= e.deadline.at
    {
      top := null;
      var i := 0;
      while i < |timeheap|
        invariant i <= |timeheap| && (top == null <==> i == 0)
        invariant top != null ==> top in timeheap && forall j :: 0 <= j < i ==> top.deadline.at <= timeheap[j].deadline.at
      {
        if top == null || timeheap[i].deadline.at < top.deadline.at {
          top := timeheap[i];
        }
        i := i + 1;
      }
    }

    /** The pass of one expired event of the heap: delete it, then activate it. */
    method Expire(ev: Event, ghost but: int, ghost run: Event?)
      requires Core() && Mirrored(but, run) && ev in known && ev.timeout
      requires ev in timers ==> but == -1
      modifies this`eventqueue, this`activequeues, this`timeheap, this`commons, this`eventCount, this`eventCountActive
      modifies io, io.kernel, ev
      ensures Core() && Mirrored(but, run) && Fired(ev) && ev.deadline == old(ev.deadline)
      ensures |commons| == |old(commons)|
      ensures ev.deadline.common == -1 ==> timeheap == Without(old(timeheap), ev) && commons == old(commons)
      ensures ev.deadline.common >= 0 ==>
        ev.deadline.common < |commons| && timeheap == old(timeheap)
        && commons == old(commons)[ev.deadline.common := Without(old(commons)[ev.deadline.common], ev)]
      ensures activequeues == Fire(old(activequeues), ev)
    {
      hide InsertedOk, ActiveOk, TimeoutOk, CountOk, TimersOk, MapOk, Mirrored, Without, Drop, Push;
      ghost var b := but;
      if ev in timers {
        b :| 0 <= b < |timers| && timers[b] == ev;
        MirrorLess(b, run);
      }
      OnItsQueue(ev);
      DelInternal(ev, b, run);
      ActiveNolock(ev, Res(true, false, false), b, run);
    }

    /** No event of the heap is due. */
    ghost predicate HeapServed(now: int)
      reads this`known, known`timeout, known`deadline
    {
      forall e :: e in known && e.timeout && e.deadline.common == -1 ==> e.deadline.at > now
    }

    /** timeout_process: activate what the heap holds that is due, the earliest first. */
    method TimeoutProcess(now: int) returns (ghost fired: seq<Event>)
      requires Valid()
      modifies this`eventqueue, this`activequeues, this`timeheap, this`commons, this`eventCount, this`eventCountActive
      modifies io, io.kernel, known
      ensures Valid() && HeapServed(now) && commons == old(commons)
      ensures forall e :: e in known ==> e.deadline == old(e.deadline)
      ensures forall e :: e in known && old(e.timeout && e.deadline.common == -1 && e.deadline.at <= now) ==> Fired(e)
      ensures forall e :: e in known && !old(e.timeout && e.deadline.common == -1 && e.deadline.at <= now) ==>
        e.timeout == old(e.timeout) && e.active == old(e.active) && e.inserted == old(e.inserted) && e.res == old(e.res)
      ensures activequeues == FireAll(old(activequeues), fired) && Distinct(fired) && Sorted(fired)
      ensures forall i :: 0 <= i < |fired| ==> fired[i] in known
      ensures forall e :: e in known ==> (e in fired <==> old(e.timeout && e.deadline.common == -1 && e.deadline.at <= now))
    {
      hide Core, Mirrored, Without, Fired, Swept, Firing;
      HeapHolds();
      NoneSwept(-1, now);
      fired := [];
      var ev := HeapTop();
      FiringStart(ev);
      while ev != null && ev.deadline.at <= now
        invariant Core() && Mirrored(-1, running) && commons == old(commons)
        invariant ev == null <==> timeheap == []
        invariant ev != null ==> ev in timeheap && forall e :: e in timeheap ==> ev.deadline.at <= e.deadline.at
        invariant forall e :: e in known ==> Swept(e, -1, now)
        invariant Firing(fired, old(activequeues)) && (ev != null ==> UpTo(fired, ev.deadline.at))
        invariant forall e :: e in known ==> (e in fired <==> old(e.timeout) && !e.timeout)
        decreases |timeheap|
      {
        HeapShrinks(ev);
        OneSwept(ev, -1, now);
        ghost var was := ev;
        ev := FireTop(ev, fired, old(activequeues));
        SweptNow(was, -1, now);
        FiredOff(was);
        fired := fired + [was];
      }
      HeapHolds();
      AllSwept(now);
      FiringIs(fired, old(activequeues));
    }

    /** What has fired so far has done so in the order of the deadlines. */
    ghost predicate Firing(fired: seq<Event>, qs: seq<seq<Event>>)
      reads this`activequeues, this`known, known
    {
      && activequeues == FireAll(qs, fired) && Distinct(fired)
      && (forall i :: 0 <= i < |fired| ==> fired[i] in known && !fired[i].timeout)
      && (forall i, j :: 0 <= i < j < |fired| ==> fired[i].deadline.at <= fired[j].deadline.at)
    }

    ghost predicate UpTo(fired: seq<Event>, at: int)
      reads fired`deadline
    {
      forall i :: 0 <= i < |fired| ==> fired[i].deadline.at <= at
    }

    lemma FiringStart(ev: Event?)
      ensures Firing([], activequeues) && (ev != null ==> UpTo([], ev.deadline.at))
    {
    }

    lemma FiringIs(fired: seq<Event>, qs: seq<seq<Event>>)
      requires Firing(fired, qs)
      ensures activequeues == FireAll(qs, fired) && Distinct(fired) && Sorted(fired)
      ensures forall i :: 0 <= i < |fired| ==> fired[i] in known
    {
    }

    /** One turn of the loop of timeout_process. */
    method FireTop(ev: Event, ghost fired: seq<Event>, ghost qs: seq<seq<Event>>) returns (top: Event?)
      requires Core() && Mirrored(-1, running) && ev in timeheap && ev in known && ev.timeout && ev.deadline.common == -1
      requires forall e :: e in timeheap ==> ev.deadline.at <= e.deadline.at
      requires Firing(fired, qs) && UpTo(fired, ev.deadline.at)
      modifies this`eventqueue, this`activequeues, this`timeheap, this`commons, this`eventCount, this`eventCountActive
      modifies io, io.kernel, ev
      ensures Core() && Mirrored(-1, running) && Fired(ev) && ev.deadline == old(ev.deadline)
      ensures timeheap == Without(old(timeheap), ev) && commons == old(commons)
      ensures top == null <==> timeheap == []
      ensures top != null ==> top in timeheap && forall e :: e in timeheap ==> top.deadline.at <= e.deadline.at
      ensures Firing(fired + [ev], qs) && (top != null ==> UpTo(fired + [ev], top.deadline.at))
    {
      hide Core, Mirrored, Without, FireAll, Fire, Distinct;
      HeapShrinks(ev);
      FireAllStep(qs, fired, ev);
      DistinctAppend(fired, ev);
      Expire(ev, -1, running);
      FiredOff(ev);
      top := HeapTop();
    }

    /** What serving the heap or list c may do to an event: nothing, or let it fire if it was due. */
    twostate predicate Swept(e: Event, c: int, now: int)
      reads e
    {
      && e.deadline == old(e.deadline)
      && if old(e.timeout) && !e.timeout then e.deadline.common == c && e.deadline.at <= now && Fired(e)
         else e.timeout == old(e.timeout) && e.active == old(e.active) && e.inserted == old(e.inserted) && e.res == old(e.res)
    }

    twostate lemma NoneSwept(new c: int, new now: int)
      requires unchanged(this`known) && unchanged(known)
      ensures forall e :: e in known ==> Swept(e, c, now)
    {
    }

    twostate lemma OneSwept(ev: Event, new c: int, new now: int)
      requires Swept(ev, c, now) && ev.timeout
      ensures old(ev.timeout) && ev.deadline == old(ev.deadline)
    {
    }

    twostate lemma SweptNow(ev: Event, new c: int, new now: int)
      requires old(ev.timeout) && ev.deadline == old(ev.deadline) && ev.deadline.common == c && ev.deadline.at <= now && Fired(ev)
      ensures Swept(ev, c, now)
    {
    }

    /** Once the heap has nothing due, exactly what was due has fired. */
    twostate lemma AllSwept(new now: int)
      requires unchanged(this`known) && forall e :: e in known ==> Swept(e, -1, now)
      requires HeapServed(now)
      ensures forall e :: e in known ==> e.deadline == old(e.deadline)
      ensures forall e :: e in known && old(e.timeout && e.deadline.common == -1 && e.deadline.at <= now) ==> Fired(e)
      ensures forall e :: e in known && !old(e.timeout && e.deadline.common == -1 && e.deadline.at <= now) ==>
        e.timeout == old(e.timeout) && e.active == old(e.active) && e.inserted == old(e.inserted) && e.res == old(e.res)
    {
    }

    lemma FiredOff(ev: Event)
      requires Fired(ev)
      ensures !ev.timeout
    {
    }

    lemma HeapShrinks(ev: Event)
      requires Core() && ev in timeheap
      ensures |Without(timeheap, ev)| < |timeheap| && ev in known && ev.timeout && ev.deadline.common == -1
      ensures forall i :: 0 <= i < |Without(timeheap, ev)| ==> Without(timeheap, ev)[i] in timeheap && Without(timeheap, ev)[i] != ev
    {
      hide InsertedOk, ActiveOk, CountOk, MapOk, TimersOk, Without;
      WeightWithout(timeheap, ev);
      WithoutMembers(timeheap, ev);
      forall i | 0 <= i < |Without(timeheap, ev)|
        ensures Without(timeheap, ev)[i] in timeheap && Without(timeheap, ev)[i] != ev
      {
        WithoutAt(timeheap, ev, i);
        assert Without(timeheap, ev)[i] in Without(timeheap, ev);
      }
    }

    /** The heap holds every event with a timeout of its own. */
    lemma HeapHolds()
      requires Core()
      ensures forall e :: e in known && e.timeout && e.deadline.common == -1 ==> e in timeheap
    {
    }

    // ---------- running callbacks ----------

    /** The choice of event_process_active: the first event of the first queue that is not empty. */
    method NextActive() returns (ev: Event?)
      requires Valid()
      ensures ev == null ==> forall p :: 0 <= p < |activequeues| ==> activequeues[p] == []
      ensures ev != null ==> ev in known && ev.active && ev.pri < |activequeues| && activequeues[ev.pri] != []
      ensures ev != null ==> ev == activequeues[ev.pri][0] && forall p :: 0 <= p < ev.pri ==> activequeues[p] == []
    {
      hide InsertedOk, TimeoutOk, CountOk, TimersOk, MapOk, Mirrored, Distinct;
      var i := 0;
      while i < |activequeues|
        invariant i <= |activequeues| && forall p :: 0 <= p < i ==> activequeues[p] == []
      {
        if activequeues[i] != [] {
          assert activequeues[i][0] in activequeues[i];
          return activequeues[i][0];
        }
        i := i + 1;
      }
      return null;
    }

    /** The head of event_process_active_single_queue: take an active event off its queues and make it current. */
    method BeginRun(ev: Event)
      requires Valid() && running == null && ev in known && ev.active
      modifies this`eventqueue, this`activequeues, this`timeheap, this`commons, this`eventCount, this`eventCountActive
      modifies this`running, io, io.kernel, ev`inserted, ev`active, ev`timeout
      ensures Valid() && running == ev && !ev.active
      ensures ev in timers ==> commons == old(commons)
      ensures if ev.persist then ev.inserted == old(ev.inserted) && ev.timeout == old(ev.timeout) else !ev.inserted && !ev.timeout
      ensures Due() == if ev.persist then old(Due()) else old(Due()) - {ev}
      ensures Queues() == old(if ev in timers then Queues() else Drop(Queues(), ev))
    {
      hide Core, Mirrored, Without, Visible, Drop;
      VisibleDrop(activequeues, timers, ev);
      if ev.persist {
        DropActiveToRun(ev);
      } else {
        DropToRun(ev);
      }
    }

    /** A timer waits on the heap. */
    lemma TimersDiffer(ev: Event)
      requires Core() && ev in timers
      ensures ev.deadline.common == -1
    {
    }

    /** An event that is not persistent leaves all its queues to run. */
    method DropToRun(ev: Event)
      requires Valid() && running == null && ev in known
      modifies this`eventqueue, this`activequeues, this`timeheap, this`commons, this`eventCount, this`eventCountActive
      modifies this`running, io, io.kernel, ev`inserted, ev`active, ev`timeout
      ensures Valid() && running == ev && !ev.active && !ev.inserted && !ev.timeout
      ensures ev in timers ==> commons == old(commons)
      ensures activequeues == Drop(old(activequeues), ev)
    {
      hide Core, Mirrored, Without, Drop;
      ghost var b := -1;
      if ev in timers {
        TimersDiffer(ev);
        b :| 0 <= b < |timers| && timers[b] == ev;
      }
      MirrorLess(b, null);
      DelInternal(ev, b, null);
      running := ev;
      MirrorRunning(ev, b);
    }

    lemma MirrorLess(but: int, run: Event?)
      requires Mirrored(-1, run)
      ensures Mirrored(but, run)
    {
    }

    /** A running timer covers its list. */
    lemma MirrorRunning(ev: Event, b: int)
      requires Core() && Mirrored(b, null) && running == ev && (b == -1 || (0 <= b < |timers| && timers[b] == ev))
      ensures Mirrored(-1, running)
    {
      forall c | 0 <= c < |commons| ensures Woken(c, running) {
        assert c != b ==> Woken(c, null);
        assert commons[c] != [] ==> commons[c][0] in commons[c];
        assert timers[c] in timers;
      }
    }

    /** The callback of a caller's event has returned. */
    method EndRun()
      requires Valid() && running != null && running !in timers
      modifies this`running
      ensures Valid() && running == null
    {
      hide Core;
      running := null;
      forall c | 0 <= c < |commons| ensures Woken(c, null) {
        assert old(Woken(c, running));
        assert timers[c] in timers;
      }
    }

    /** A persistent event stays on its other queues while it runs. */
    method DropActiveToRun(ev: Event)
      requires Valid() && running == null && ev in known && ev.active
      modifies this`activequeues, this`eventCount, this`eventCountActive, this`running, ev`active
      ensures Valid() && running == ev && !ev.active && activequeues == Drop(old(activequeues), ev)
    {
      hide InsertedOk, ActiveOk, CountOk, MapOk, Distinct, Sorted, Drop;
      ghost var b := -1;
      if ev in timers {
        b :| 0 <= b < |timers| && timers[b] == ev;
      }
      DropActive(ev, b, null);
      running := ev;
      MirrorRunning(ev, b);
    }

    /** common_timeout_callback, and the end of its run: the due events of list c, in its order. */
    method RunTimer(c: nat, now: int) returns (ghost fired: seq<Event>)
      requires Valid() && c < |timers| && running == timers[c]
      modifies this`eventqueue, this`activequeues, this`timeheap, this`commons, this`eventCount, this`eventCountActive
      modifies this`running, io, io.kernel, known
      ensures Valid() && running == null
      ensures |commons| == |old(commons)| && forall d :: 0 <= d < |commons| && d != c ==> commons[d] == old(commons)[d]
      ensures forall e :: e in commons[c] ==> e in old(commons)[c] && e.deadline.at > now
      ensures forall e :: e in known && old(e in commons[c] && e.deadline.at <= now) ==> Fired(e)
      ensures forall e :: e in known && !old(e in commons[c] && e.deadline.at <= now) && e != timers[c] ==>
        e.timeout == old(e.timeout) && e.active == old(e.active) && e.inserted == old(e.inserted) && e.res == old(e.res)
      ensures forall e :: e in known && e != timers[c] ==> e.deadline == old(e.deadline)
      ensures timers[c].timeout ==> old(timers[c].timeout) || timers[c].deadline.at > now
      ensures old(commons)[c] == fired + commons[c] && fired == old(RipeOf(commons[c], now))
      ensures Queues() == FireAll(old(Queues()), fired)
    {
      hide Core, Mirrored, Visible, FireAll, RipeOf, Others;
      MirrorBut(c);
      ListHolds(c);
      fired := ServeDue(c, now);
      VisibleFireAll(old(activequeues), timers, fired);
      OthersAll(fired, timers);
      if commons[c] != [] {
        assert commons[c][0] in commons[c];
        Schedule(c, null);
      } else {
        MirrorEmpty(c);
      }
      running := null;
    }

    /** The events of list c are not its timer. */
    lemma ListHolds(c: nat)
      requires Core() && c < |timers|
      ensures c < |commons| && timers[c] in known && forall e :: e in commons[c] ==> e in known && e != timers[c] && e !in timers
    {
    }

    /** While the timer of list c runs, the other lists are covered without it. */
    lemma MirrorBut(c: nat)
      requires Core() && c < |timers| && Mirrored(-1, timers[c])
      ensures Mirrored(c, null)
    {
      forall d | 0 <= d < |commons| && d != c ensures Woken(d, null) {
        assert Woken(d, timers[c]);
      }
    }

    lemma MirrorEmpty(c: nat)
      requires c < |commons| && Mirrored(c, null) && commons[c] == []
      ensures Mirrored(-1, null)
    {
    }

    /** The loop of common_timeout_callback: activate the events of list c that are due. */
    method ServeDue(c: nat, now: int) returns (ghost fired: seq<Event>)
      requires Core() && Mirrored(c, null) && c < |commons|
      modifies this`eventqueue, this`activequeues, this`timeheap, this`commons, this`eventCount, this`eventCountActive
      modifies io, io.kernel, commons[c]
      ensures Core() && Mirrored(c, null)
      ensures |commons| == |old(commons)| && forall d :: 0 <= d < |commons| && d != c ==> commons[d] == old(commons)[d]
      ensures forall e :: e in commons[c] ==> e in old(commons)[c] && e.deadline.at > now
      ensures forall e :: e in old(commons)[c] && old(e.deadline.at) <= now ==> Fired(e)
      ensures forall e :: e in old(commons)[c] && old(e.deadline.at) > now ==>
        e.timeout == old(e.timeout) && e.active == old(e.active) && e.inserted == old(e.inserted) && e.res == old(e.res)
      ensures forall e :: e in old(commons)[c] ==> e.deadline == old(e.deadline)
      ensures timeheap == old(timeheap)
      ensures old(commons)[c] == fired + commons[c] && fired == old(RipeOf(commons[c], now))
      ensures activequeues == FireAll(old(activequeues), fired)
    {
      hide Core, Mirrored, Fired, Swept, Fire, FireAll, RipeOf;
      ghost var q := commons[c];
      fired := [];
      FireNone(activequeues);
      ListKnown(c);
      NoneSwept(c, now);
      while commons[c] != [] && commons[c][0].deadline.at <= now
        invariant Core() && Mirrored(c, null) && timeheap == old(timeheap)
        invariant |commons| == |old(commons)| && forall d :: 0 <= d < |commons| && d != c ==> commons[d] == old(commons)[d]
        invariant q == fired + commons[c] && forall i :: 0 <= i < |fired| ==> !fired[i].timeout
        invariant forall i :: 0 <= i < |q| ==> q[i] in known && Swept(q[i], c, now)
        invariant activequeues == FireAll(old(activequeues), fired)
        decreases |commons[c]|
      {
        var ev := commons[c][0];
        assert ev == q[|fired|];
        ListKnown(c);
        OneSwept(ev, c, now);
        ServeFirst(c);
        SweptNow(ev, c, now);
        FiredOff(ev);
        FireAllStep(old(activequeues), fired, ev);
        fired := fired + [ev];
      }
      ListKnown(c);
      AllServed(c, q, fired, now);
      Ripened(c, q, fired, now);
      RipeSame(q, now);
    }

    /** One turn of the loop of common_timeout_callback. */
    method ServeFirst(c: nat)
      requires Core() && Mirrored(c, null) && c < |commons| && commons[c] != []
      modifies this`eventqueue, this`activequeues, this`timeheap, this`commons, this`eventCount, this`eventCountActive
      modifies io, io.kernel, commons[c][0]
      ensures Core() && Mirrored(c, null) && timeheap == old(timeheap) && commons == old(commons[c := commons[c][1..]])
      ensures old(commons[c][0]).deadline == old(commons[c][0].deadline) && Fired(old(commons[c][0]))
      ensures activequeues == Fire(old(activequeues), old(commons[c][0]))
    {
      hide InsertedOk, ActiveOk, CountOk, MapOk, Mirrored, Without, Fired, Fire;
      ListTail(c);
      assert commons[c][0] in commons[c];
      Expire(commons[c][0], c, null);
    }

    lemma ListKnown(c: nat)
      requires Core() && c < |commons|
      ensures forall i :: 0 <= i < |commons[c]| ==> commons[c][i] in known && commons[c][i].timeout && commons[c][i].deadline.common == c
      ensures forall i :: 0 <= i < |commons[c]| ==> commons[c][0].deadline.at <= commons[c][i].deadline.at
    {
      hide InsertedOk, ActiveOk, CountOk, MapOk, TimersOk;
      assert forall i :: 0 <= i < |commons[c]| ==> commons[c][i] in commons[c];
    }

    /** Once the first event of list c is not due, exactly what was due in it has fired. */
    twostate lemma AllServed(new c: nat, q: seq<Event>, new fired: seq<Event>, new now: int)
      requires c < |commons| && q == fired + commons[c] && forall i :: 0 <= i < |q| ==> Swept(q[i], c, now)
      requires forall i :: 0 <= i < |fired| ==> !fired[i].timeout && old(q[i].timeout)
      requires forall i :: 0 <= i < |commons[c]| ==> commons[c][i].timeout && commons[c][i].deadline.at > now
      ensures forall e :: e in q ==> e.deadline == old(e.deadline) && (e.timeout <==> e.deadline.at > now)
      ensures forall e :: e in q && old(e.deadline.at) <= now ==> Fired(e)
      ensures forall e :: e in q && old(e.deadline.at) > now ==>
        e.timeout == old(e.timeout) && e.active == old(e.active) && e.inserted == old(e.inserted) && e.res == old(e.res)
    {
    }

    /** What was taken off the front of list c is what was due in it. */
    lemma Ripened(c: nat, q: seq<Event>, fired: seq<Event>, now: int)
      requires c < |commons| && q == fired + commons[c]
      requires forall e :: e in q && !e.timeout ==> e.deadline.at <= now
      requires forall i :: 0 <= i < |fired| ==> !fired[i].timeout
      requires forall e :: e in commons[c] ==> e.deadline.at > now
      ensures fired == RipeOf(q, now)
    {
      forall i | 0 <= i < |q| ensures q[i].deadline.at <= now <==> i < |fired| {
        assert i < |fired| ==> q[i] == fired[i];
        assert i >= |fired| ==> q[i] == commons[c][i - |fired|] && q[i] in commons[c];
      }
      RipeSplit(q, |fired|, now);
      assert q[..|fired|] == fired;
    }

    lemma ListShrinks(c: nat, ev: Event)
      requires TimeoutOk() && TimersOk() && c < |commons| && ev in commons[c]
      ensures |Without(commons[c], ev)| < |commons[c]| && ev in known && ev.timeout && ev.deadline.common == c && ev !in timers
      ensures var rest := Without(commons[c], ev);
        && (forall i :: 0 <= i < |rest| ==> rest[i] in commons[c])
        && (forall e :: e in commons[c] && e != ev ==> e in rest)
    {
      WeightWithout(commons[c], ev);
      WithoutMembers(commons[c], ev);
      forall i | 0 <= i < |Without(commons[c], ev)| ensures Without(commons[c], ev)[i] in commons[c] {
        WithoutAt(commons[c], ev, i);
      }
    }

    lemma ListTail(c: nat)
      requires TimeoutOk() && c < |commons| && commons[c] != []
      ensures commons[c] == [commons[c][0]] + Without(commons[c], commons[c][0])
    {
      WithoutFirst(commons[c]);
    }

    lemma FirstIsLeast(c: nat)
      requires TimeoutOk() && c < |commons|
      ensures forall e :: e in commons[c] ==> commons[c][0].deadline.at <= e.deadline.at && e.timeout
    {
    }

    /** Waiting in list c for a deadline that has passed. */
    ghost predicate Late(e: Event, c: int, now: int)
      reads e`timeout, e`deadline
    {
      e.timeout && e.deadline.common == c && e.deadline.at <= now
    }

    /** What a sweep does to an event: if its list is done it fires when it is due, and otherwise nothing happens to it. */
    twostate predicate Turned(e: Event, done: bool, now: int)
      reads e
    {
      && e.deadline == old(e.deadline)
      && if done && old(e.timeout && e.deadline.at <= now) then Fired(e)
         else e.timeout == old(e.timeout) && e.active == old(e.active) && e.inserted == old(e.inserted) && e.res == old(e.res)
    }

    /** Run the timer of list c, if it has fired. */
    method SweepOne(c: nat, now: int) returns (ghost fired: seq<Event>)
      requires Valid() && running == null && c < |timers| && HeapServed(now)
      modifies this`eventqueue, this`activequeues, this`timeheap, this`commons, this`eventCount, this`eventCountActive
      modifies this`running, io, io.kernel, known
      ensures Valid() && running == null && HeapServed(now)
      ensures forall e :: e in known && e !in timers ==> Turned(e, e.deadline.common == c, now)
      ensures |commons| == |old(commons)| && forall d :: 0 <= d < |commons| && d != c ==> commons[d] == old(commons)[d]
      ensures fired == RipeIn(old(commons)[c], old(Due()), now) && Queues() == FireAll(old(Queues()), fired)
    {
      hide Core, Mirrored, Due, RipeOf, RipeIn, Visible, FireAll;
      TimerKnown(c);
      RipeDue(c, now);
      if timers[c].active {
        BeginRun(timers[c]);
        fired := RunTimer(c, now);
      } else {
        NoneLate(c, now);
        NoneRipe(c, now);
        FireNone(Queues());
        fired := [];
      }
    }

    /** What is due in list c is what the flat table says. */
    lemma RipeDue(c: nat, now: int)
      requires Valid() && c < |timers|
      ensures c < |commons| && RipeIn(commons[c], Due(), now) == RipeOf(commons[c], now)
    {
      hide InsertedOk, ActiveOk, CountOk, MapOk, Mirrored, RipeIn, RipeOf;
      ListHolds(c);
      ListKnown(c);
      assert forall i :: 0 <= i < |commons[c]| ==> commons[c][i] in commons[c];
      RipeInIs(commons[c], Due(), now);
    }

    lemma NoneRipe(c: nat, now: int)
      requires Core() && c < |commons| && forall e :: e in known ==> !Late(e, c, now)
      ensures RipeOf(commons[c], now) == []
    {
      hide Core;
      ListKnown(c);
      assert forall i :: 0 <= i < |commons[c]| ==> !Late(commons[c][i], c, now);
      RipeSplit(commons[c], 0, now);
    }

    lemma TimerKnown(c: nat)
      requires Valid() && c < |timers|
      ensures c < |commons| && timers[c] in known && timers[c] in timers && !timers[c].persist
      ensures forall e :: e in known ==> (e in commons[c] <==> e.timeout && e.deadline.common == c)
    {
      hide InsertedOk, ActiveOk, CountOk, MapOk;
      assert timers[c] in timers;
    }

    /** A timer that has not fired, on a heap where nothing is due, has a list where nothing is due. */
    lemma NoneLate(c: nat, now: int)
      requires Valid() && running == null && c < |timers| && HeapServed(now) && timers[c] in known && !timers[c].active
      ensures forall e :: e in known ==> !Late(e, c, now)
    {
      hide InsertedOk, ActiveOk, CountOk, MapOk, Distinct, Sorted;
      assert timers[c] in timers && Woken(c, null);
      FirstIsLeast(c);
    }

    lemma LateFires(e: Event, c: nat, now: int)
      requires Valid() && running == null && c < |timers| && HeapServed(now) && timers[c] in known && e in known && Late(e, c, now)
      ensures timers[c].active
    {
      hide Valid;
      if !timers[c].active {
        NoneLate(c, now);
      }
    }

    /** Run every timer that has fired, in the order of the queue. */
    method SweepAll(now: int) returns (ghost fired: seq<Event>)
      requires Valid() && running == null && HeapServed(now)
      modifies this`eventqueue, this`activequeues, this`timeheap, this`commons, this`eventCount, this`eventCountActive
      modifies this`running, io, io.kernel, known
      ensures Valid() && running == null
      ensures forall e :: e in known && e !in timers && old(e.timeout && e.deadline.at <= now) ==> Fired(e)
      ensures forall e :: e in known && e !in timers && !old(e.timeout && e.deadline.at <= now) ==>
        e.timeout == old(e.timeout) && e.active == old(e.active) && e.inserted == old(e.inserted) && e.res == old(e.res)
      ensures forall e :: e in known && e !in timers ==> e.deadline == old(e.deadline)
      ensures |old(activequeues)| > 0
      ensures fired == RipeAll(old(commons), Marks(old(activequeues)[0], timers), old(Due()), now)
      ensures Queues() == FireAll(old(Queues()), fired)
    {
      hide Valid, Due, Visible, FireAll, RipeAll, RipeIn, Marks, InTurn, Distinct, ListsOf;
      ghost var cs := FirstQueue();
      InOrderOfQueue(now);
      var order := Marks(activequeues[0], timers);
      fired := [];
      FireNone(Queues());
      RipeNone(commons, Due(), now);
      ListsAre();
      var k := 0;
      while k < |order|
        invariant Valid() && running == null && HeapServed(now) && k <= |order| && |commons| == |old(commons)|
        invariant forall e :: e in known && e !in timers ==> Turned(e, e.deadline.common in order[..k], now)
        invariant forall d :: 0 <= d < |commons| && d !in order[..k] ==> commons[d] == old(commons)[d]
        invariant fired == RipeAll(old(commons), order[..k], old(Due()), now) && Queues() == FireAll(old(Queues()), fired)
      {
        ghost var c := order[k];
        assert order[..k + 1] == order[..k] + [c];
        NextMark(order, k);
        OfLists(old(commons), old(Due()), c);
        ListSame(c, old(Due()), now);
        RipeAllStep(old(commons), order[..k], c, old(Due()), now);
        ghost var f := SweepOne(order[k], now);
        FireAllMore(old(Queues()), fired, f);
        fired := fired + f;
        k := k + 1;
      }
      assert order[..k] == order;
    }

    /** A list that was not swept yet has the deadlines that it had. */
    lemma ListSame(c: nat, due: map<Event, Deadline>, now: int)
      requires Valid() && c < |commons|
      requires forall i :: 0 <= i < |commons[c]| ==> commons[c][i] in due && due[commons[c][i]] == commons[c][i].deadline
      ensures RipeIn(commons[c], Due(), now) == RipeIn(commons[c], due, now)
    {
      hide Valid, RipeIn, Due;
      ListedDue(c);
      RipeAgree(commons[c], Due(), due, now);
    }

    lemma ListedDue(c: nat)
      requires Valid() && c < |commons|
      ensures forall i :: 0 <= i < |commons[c]| ==>
        commons[c][i] in known && commons[c][i] !in timers && commons[c][i] in Due() && Due()[commons[c][i]] == commons[c][i].deadline
    {
      hide InsertedOk, ActiveOk, CountOk, MapOk, Mirrored;
      ListHolds(c);
      ListKnown(c);
      assert forall i :: 0 <= i < |commons[c]| ==> commons[c][i] in commons[c];
    }

    /** The lists are those of the flat table. */
    lemma ListsAre()
      requires Valid()
      ensures ListsOf(commons, Due())
      ensures forall e :: e in Due() ==> e in known && e !in timers && Due()[e] == e.deadline && -1 <= Due()[e].common < |commons|
    {
      hide InsertedOk, ActiveOk, CountOk, MapOk, Mirrored;
      forall c | 0 <= c < |commons| ensures Distinct(commons[c]) && InTurn(Due(), commons[c]) {
        ListedDue(c);
        ListKnown(c);
      }
      forall c, i | 0 <= c < |commons| && 0 <= i < |commons[c]|
        ensures commons[c][i] in Due() && Due()[commons[c][i]].common == c
      {
        ListedDue(c);
        ListKnown(c);
      }
    }

    lemma FirstQueue() returns (order: seq<nat>)
      requires Valid()
      ensures |activequeues| > 0 && order == Marks(activequeues[0], timers) && |timers| == |commons|
      ensures forall i :: 0 <= i < |order| ==> order[i] < |commons|
      ensures forall i, j :: 0 <= i < j < |order| ==> order[i] != order[j]
    {
      hide InsertedOk, TimeoutOk, CountOk, TimersOk, MapOk, Mirrored, Marks;
      order := Marks(activequeues[0], timers);
      MarksHold(activequeues[0], timers);
      assert forall i :: 0 <= i < |order| ==> order[i] in order;
    }

    /** When nothing on the heap is due, the lists with something due have their timers in the first queue. */
    lemma InOrderOfQueue(now: int)
      requires Valid() && running == null && HeapServed(now)
      ensures |activequeues| > 0
      ensures forall e :: e in known && e !in timers && e.timeout && e.deadline.at <= now ==>
        e.deadline.common in Marks(activequeues[0], timers)
    {
      hide InsertedOk, CountOk, MapOk, Mirrored, Marks;
      forall e | e in known && e !in timers && e.timeout && e.deadline.at <= now
        ensures e.deadline.common in Marks(activequeues[0], timers)
      {
        var c := e.deadline.common;
        assert timers[c] in timers;
        LateFires(e, c, now);
        MarksHold(activequeues[0], timers);
        IndexUnique(timers, c);
      }
    }

    lemma ListRange()
      requires Valid()
      ensures forall e :: e in known && e.timeout ==> -1 <= e.deadline.common < |timers|
    {
    }

    /**
     * A turn of the loop at time `now`: timeout_process, then the callbacks of the internal timers that fired.
     * It activates exactly the events whose deadline has passed in the flat table: those of the heap in the order of
     * their deadlines, then list by list, in the order in which the timers stand in the queue, each list in its order.
     */
    method ProcessTimeouts(now: int) returns (ghost heap: seq<Event>, ghost fired: seq<Event>)
      requires Valid() && running == null
      modifies this`eventqueue, this`activequeues, this`timeheap, this`commons, this`eventCount, this`eventCountActive
      modifies this`running, io, io.kernel, known
      ensures Valid() && running == null
      ensures forall e :: e in known && e !in timers && old(e.timeout && e.deadline.at <= now) ==> Fired(e)
      ensures forall e :: e in known && e !in timers && !old(e.timeout && e.deadline.at <= now) ==>
        e.timeout == old(e.timeout) && e.active == old(e.active) && e.inserted == old(e.inserted) && e.res == old(e.res)
      ensures Due() == map e | e in old(Due()) && old(Due())[e].at > now :: old(Due())[e]
      ensures forall e :: e in known && e !in timers ==> Turned(e, true, now)
      ensures Distinct(heap) && forall i :: 0 <= i < |heap| ==> heap[i] in known
      ensures forall e :: e in known ==> (e in heap <==> old(e.timeout && e.deadline.common == -1 && e.deadline.at <= now))
      ensures forall i, j :: 0 <= i < j < |heap| ==> old(heap[i].deadline.at <= heap[j].deadline.at)
      ensures var first := FireAll(old(activequeues), heap);
        |first| > 0 && fired == Others(heap, timers) + RipeAll(old(commons), Marks(first[0], timers), old(Due()), now)
      ensures Distinct(fired) && InTurn(old(Due()), fired) && Members(fired) == Overdue(old(Due()), now)
      ensures Queues() == Served(old(Queues()), fired)
    {
      hide Valid, Fired, Due, Visible, FireAll, RipeAll, Marks, Others, Served, InTurn, Distinct, InQueues, ListsOf, Overdue;
      QueuesHold();
      ListsAre();
      DueAre();
      ghost var cs;
      heap, cs := ServeBoth(now);
      fired := Others(heap, timers) + RipeAll(old(commons), cs, old(Due()), now);
      TurnOrder(heap, timers, old(commons), cs, old(Due()), now);
      FireAllIs(old(Queues()), fired);
      DueLeft(now);
    }

    /** The heap, and then the lists in the order of their timers. */
    method ServeBoth(now: int) returns (ghost heap: seq<Event>, ghost cs: seq<nat>)
      requires Valid() && running == null
      modifies this`eventqueue, this`activequeues, this`timeheap, this`commons, this`eventCount, this`eventCountActive
      modifies this`running, io, io.kernel, known
      ensures Valid() && running == null
      ensures forall e :: e in known && e !in timers ==> Turned(e, true, now)
      ensures Distinct(heap) && forall i :: 0 <= i < |heap| ==> heap[i] in known
      ensures forall e :: e in known ==> (e in heap <==> old(e.timeout && e.deadline.common == -1 && e.deadline.at <= now))
      ensures forall i, j :: 0 <= i < j < |heap| ==> old(heap[i].deadline.at <= heap[j].deadline.at)
      ensures |FireAll(old(activequeues), heap)| > 0 && cs == Marks(FireAll(old(activequeues), heap)[0], timers)
      ensures forall i :: 0 <= i < |cs| ==> cs[i] < |old(commons)|
      ensures forall i, j :: 0 <= i < j < |cs| ==> cs[i] != cs[j]
      ensures forall e :: e in known && e !in timers && old(e.timeout && e.deadline.common != -1 && e.deadline.at <= now) ==>
        old(e.deadline.common) in cs
      ensures Queues() == FireAll(old(Queues()), Others(heap, timers) + RipeAll(old(commons), cs, old(Due()), now))
    {
      hide Valid, Due, Visible, FireAll, RipeAll, Marks, Others, Distinct, Sorted, ListsOf;
      ghost var due := Due();
      ListsAre();
      heap := TimeoutProcess(now);
      HeapOrder(heap);
      cs := FirstQueue();
      InOrderOfQueue(now);
      VisibleFireAll(old(activequeues), timers, heap);
      ListsAgree(old(commons), cs, due, now);
      ghost var lists := SweepAll(now);
      FireAllMore(old(Queues()), Others(heap, timers), lists);
    }

    lemma DueAre()
      requires Valid()
      ensures forall e :: e in known && e !in timers && e.timeout ==> e in Due()
      ensures forall e :: e in Due() ==> e.timeout
    {
    }

    lemma HeapOrder(heap: seq<Event>)
      requires Sorted(heap)
      ensures forall i, j :: 0 <= i < j < |heap| ==> heap[i].deadline.at <= heap[j].deadline.at
    {
    }

    /** The lists have not changed, and neither have their deadlines. */
    lemma ListsAgree(lists: seq<seq<Event>>, cs: seq<nat>, due: map<Event, Deadline>, now: int)
      requires Valid() && lists == commons && ListsOf(lists, due)
      requires forall e :: e in due ==> due[e] == e.deadline
      ensures RipeAll(lists, cs, Due(), now) == RipeAll(lists, cs, due, now)
    {
      hide Valid, RipeAll, Due;
      forall c, i | 0 <= c < |lists| && 0 <= i < |lists[c]|
        ensures lists[c][i] in Due() && lists[c][i] in due && Due()[lists[c][i]] == due[lists[c][i]]
      {
        ListedDue(c);
      }
      RipeAllAgree(lists, cs, Due(), due, now);
    }

    /** What has fired has left the flat table, and nothing else. */
    twostate lemma DueLeft(new now: int)
      requires unchanged(this`known, this`timers)
      requires forall e :: e in known && e !in timers ==> Turned(e, true, now)
      ensures Due() == map e | e in old(Due()) && old(Due())[e].at > now :: old(Due())[e]
    {
    }

    // ---------- the clock ----------

    /** Move every deadline of a queue back by `off`. */
    method ShiftQueue(es: seq<Event>, off: int)
      requires Distinct(es)
      modifies es`deadline
      ensures forall e :: e in es ==>
        e.deadline == Deadline(old(e.deadline.at) - off, old(e.deadline.common))
    {
      var i := 0;
      while i < |es|
        invariant i <= |es|
        invariant forall j :: 0 <= j < i ==> es[j].deadline == Deadline(old(es[j].deadline.at) - off, old(es[j].deadline.common))
        invariant forall j :: i <= j < |es| ==> es[j].deadline == old(es[j].deadline)
      {
        es[i].deadline := Deadline(es[i].deadline.at - off, es[i].deadline.common);
        i := i + 1;
      }
    }

    /** timeout_correct: when the clock has stepped back, every deadline steps back with it. */
    method TimeoutCorrect(now: int, useMonotonic: bool)
      requires Valid()
      modifies this`eventTv, known`deadline
      ensures Valid()
      ensures eventTv == if useMonotonic then old(eventTv) else now
      ensures var off := if useMonotonic || now >= old(eventTv) then 0 else old(eventTv) - now;
        && Due() == (map e | e in old(Due()) :: Deadline(old(Due())[e].at - off, old(Due())[e].common))
        && (forall e :: e in known && !e.timeout ==> e.deadline == old(e.deadline))
        && (forall e :: e in known && e.timeout ==> e.deadline == Deadline(old(e.deadline.at) - off, old(e.deadline.common)))
    {
      hide Valid;
      if useMonotonic {
        return;
      }
      if now < eventTv {
        ShiftAll(eventTv - now);
      }
      eventTv := now;
    }

    /** The loops of timeout_correct over the heap and over the common-timeout lists. */
    method ShiftQueues(off: int)
      requires TimeoutOk()
      modifies known`deadline
      ensures forall e :: e in known && !e.timeout ==> e.deadline == old(e.deadline)
      ensures forall e :: e in known && e.timeout ==> e.deadline == Deadline(old(e.deadline.at) - off, old(e.deadline.common))
    {
      hide Distinct, Sorted;
      ShiftQueue(timeheap, off);
      var c := 0;
      while c < |commons|
        invariant c <= |commons|
        invariant forall e :: e in known && !e.timeout ==> e.deadline == old(e.deadline)
        invariant forall e :: e in known && e.timeout ==>
          if old(e.deadline.common) < c then e.deadline == Deadline(old(e.deadline.at) - off, old(e.deadline.common))
          else e.deadline == old(e.deadline)
      {
        ShiftQueue(commons[c], off);
        c := c + 1;
      }
    }

    /** Shifting every pending deadline by the same amount keeps the queues in order and the lists covered. */
    method ShiftAll(off: int)
      requires Valid()
      modifies known`deadline
      ensures Valid()
      ensures forall e :: e in known && !e.timeout ==> e.deadline == old(e.deadline)
      ensures forall e :: e in known && e.timeout ==> e.deadline == Deadline(old(e.deadline.at) - off, old(e.deadline.common))
    {
      hide InsertedOk, ActiveOk, TimeoutOk, CountOk, TimersOk, MapOk, Mirrored;
      ShiftQueues(off);
      ShiftedQueues(off);
      ShiftedMirror(off);
    }

    twostate lemma ShiftedQueues(off: int)
      requires old(TimeoutOk() && TimersOk())
      requires unchanged(this) && unchanged(known`timeout)
      requires forall e :: e in known && !e.timeout ==> e.deadline == old(e.deadline)
      requires forall e :: e in known && e.timeout ==> e.deadline == Deadline(old(e.deadline.at) - off, old(e.deadline.common))
      ensures TimeoutOk() && TimersOk()
    {
      hide Distinct, Sorted;
      ShiftedOrder(off);
    }

    twostate lemma ShiftedOrder(off: int)
      requires old(TimeoutOk()) && unchanged(this) && unchanged(known`timeout)
      requires forall e :: e in known && e.timeout ==> e.deadline == Deadline(old(e.deadline.at) - off, old(e.deadline.common))
      ensures forall c :: 0 <= c < |commons| ==> Sorted(commons[c])
    {
      forall c | 0 <= c < |commons| ensures Sorted(commons[c]) {
        assert old(Sorted(commons[c]));
        assert forall i :: 0 <= i < |commons[c]| ==> commons[c][i] in commons[c];
      }
    }

    twostate lemma ShiftedMirror(off: int)
      requires old(Core() && Mirrored(-1, running))
      requires unchanged(this) && unchanged(known`timeout, known`active)
      requires forall e :: e in known && e.timeout ==> e.deadline == Deadline(old(e.deadline.at) - off, old(e.deadline.common))
      ensures Mirrored(-1, running)
    {
      hide InsertedOk, ActiveOk, CountOk, MapOk, Distinct, Sorted;
      forall d | 0 <= d < |commons| ensures Woken(d, running) {
        assert old(Woken(d, running));
        assert commons[d] != [] ==> commons[d][0] in commons[d];
      }
    }

    /** How long until an event is due. */
    ghost function TimeLeft(e: Event, now: int): int
      reads e`deadline
    {
      if e.deadline.at <= now then 0 else e.deadline.at - now
    }

    /** timeout_next: how long the backend may wait, or None to wait for ever. */
    method TimeoutNext(now: int) returns (wait: Option<int>)
      requires Valid()
      ensures wait.None? ==> forall e :: e in known && e.timeout ==> e.deadline.common != -1
      ensures wait.Some? ==> forall e :: e in known && e.timeout && e.deadline.common == -1 ==> wait.value <= TimeLeft(e, now)
      ensures wait.Some? ==> exists e :: e in known && e.timeout && e.deadline.common == -1 && wait.value == TimeLeft(e, now)
      ensures running == null && (forall t :: t in timers ==> !t.active) ==>
        forall e :: e in Due() ==> wait.Some? && (wait.value == 0 || now + wait.value <= Due()[e].at)
    {
      hide InsertedOk, ActiveOk, CountOk, MapOk;
      var ev := HeapTop();
      if ev == null {
        wait := None;
      } else {
        wait := Some(if ev.deadline.at <= now then 0 else ev.deadline.at - now);
      }
      if running == null && (forall t :: t in timers ==> !t.active) {
        forall e | e in Due() ensures wait.Some? && (wait.value == 0 || now + wait.value <= Due()[e].at) {
          WokenInHeap(e);
        }
      }
    }

    /** An event with a timeout has an entry in the heap, its own or its list's, that is due no later. */
    lemma WokenInHeap(e: Event)
      requires Valid() && running == null && (forall t :: t in timers ==> !t.active) && e in known && e.timeout
      ensures exists t :: t in timeheap && t.deadline.at <= e.deadline.at
    {
      hide InsertedOk, ActiveOk, CountOk, MapOk;
      if e.deadline.common == -1 {
        assert e in timeheap;
      } else {
        var c := e.deadline.common;
        assert timers[c] in timers && Woken(c, null);
        FirstIsLeast(c);
        assert timers[c] in timeheap;
      }
    }

    // ---------- whole runs ----------

    /** The callers' events. */
    ghost function Mine(): set<Event>
      reads this`known, this`timers
    {
      set e | e in known && e !in timers
    }

    ghost function ActiveNow(): map<Event, Res>
      reads this`known, this`timers, known`active, known`res
    {
      map e | e in Mine() && e.active :: e.res
    }

    ghost function InsertedNow(): set<Event>
      reads this`known, this`timers, known`inserted
    {
      set e | e in Mine() && e.inserted
    }

    /** The base as the reference sees it. */
    ghost function View(): Flat
      reads this, known
    {
      Flat(eventTv, Mine(), durations, Due(), ActiveNow(), InsertedNow(), running)
    }

    /** Consistent, and no internal timer is in the middle of its callback. */
    ghost predicate Ready()
      reads this, known, io, io.kernel
    {
      Valid() && DurationsOk() && (running != null ==> running !in timers)
    }

    /** An event as event_assign leaves it. */
    ghost predicate Blank(ev: Event)
      reads ev`inserted, ev`active, ev`timeout, ev`deadline
    {
      !ev.inserted && !ev.active && !ev.timeout && ev.deadline.common == -1 && ev.pri < priorities
    }

    lemma TimerPerList()
      requires Valid()
      ensures |timers| == |commons| && forall t :: t in timers ==> t in known
    {
    }

    method PerformNew(ev: Event)
      requires Ready() && ev !in known && Blank(ev)
      modifies this`known
      ensures Ready() && View() == old(FlatStep(View(), New(ev))) && known == old(known) + {ev} && Queues() == old(Queues())
    {
      hide Valid;
      assert ev !in timers by {
        TimerPerList();
      }
      Register(ev);
    }

    method PerformInit(duration: int)
      requires Ready()
      modifies this`timers, this`commons, this`durations, this`known
      ensures Ready() && View() == old(FlatStep(View(), InitCommon(duration))) && Queues() == old(Queues())
      ensures forall t :: t in timers ==> t in old(timers) || fresh(t)
      ensures forall e :: e in known ==> e in old(known) || fresh(e)
      ensures forall e :: e in old(known) ==> e in known
    {
      hide Valid;
      var _ := InitCommonTimeout(duration);
    }

    method PerformAdd(ev: Event, tv: Option<Timeout>, now: int) returns (r: int)
      requires Ready() && Allowed(View(), Add(ev, tv, now))
      modifies this`eventqueue, this`activequeues, this`timeheap, this`commons, this`eventCount, this`eventCountActive
      modifies io, io.kernel, known
      ensures Ready() && View() == old(FlatStep(View(), Add(ev, tv, now)))
      ensures r == if old(Refused(View(), ev)) then -1 else 0
      ensures Queues() == old(QueueStep(View(), Queues(), Add(ev, tv, now), []))
    {
      hide Valid, Refused, Crowded, ActiveNow, InsertedNow, Due, Queues, Drop;
      TimerPerList();
      RefusedIs(ev);
      FlagsAre(ev);
      r := AddParts(ev, tv, now);
    }

    lemma FlagsAre(ev: Event)
      requires ev in Mine()
      ensures (ev in InsertedNow() <==> ev.inserted) && (ev in ActiveNow() <==> ev.active)
      ensures ev.active ==> ActiveNow()[ev] == ev.res
    {
    }

    method AddParts(ev: Event, tv: Option<Timeout>, now: int) returns (r: int)
      requires Valid() && ev in Mine()
      requires tv.Some? && tv.value.Common() != -1 ==> 0 <= tv.value.Common() < |commons| && !ev.internal
      modifies this`eventqueue, this`activequeues, this`timeheap, this`commons, this`eventCount, this`eventCountActive
      modifies io, io.kernel, known
      ensures Valid() && DurationsOk() == old(DurationsOk())
      ensures r == if old((ev.read || ev.write) && !ev.inserted && !ev.active && Crowded(ev)) then -1 else 0
      ensures r == -1 ==>
        InsertedNow() == old(InsertedNow()) && ActiveNow() == old(ActiveNow()) && Due() == old(Due())
      ensures r == 0 ==>
        && InsertedNow() == old(if (ev.read || ev.write) && !ev.active then InsertedNow() + {ev} else InsertedNow())
        && ActiveNow() == old(if tv.Some? && ev.active && ev.res.timeout then ActiveNow() - {ev} else ActiveNow())
        && Due() == if tv.None? then old(Due()) else old(Due())[ev := tv.value.At(now)]
      ensures Queues() == old(if ev.active && ev.res.timeout && tv.Some? then Drop(Queues(), ev) else Queues())
    {
      hide Valid, Crowded, Due, InsertedNow, ActiveNow, Queues, Drop;
      TimerPerList();
      r := AddInternal(ev, tv, now);
      TimerPerList();
      InsertedWith(ev);
      ActiveWith(ev);
    }

    twostate lemma InsertedWith(ev: Event)
      requires ev in Mine() && unchanged(this`known, this`timers) && unchanged((Mine() - {ev})`inserted)
      ensures InsertedNow() == if ev.inserted then old(InsertedNow()) + {ev} else old(InsertedNow()) - {ev}
      ensures !old(ev.inserted) ==> old(InsertedNow()) - {ev} == old(InsertedNow())
      ensures old(ev.inserted) ==> old(InsertedNow()) + {ev} == old(InsertedNow())
    {
    }

    twostate lemma ActiveWith(ev: Event)
      requires ev in Mine() && unchanged(this`known, this`timers) && unchanged(Mine()`res) && unchanged((Mine() - {ev})`active)
      requires ev.active ==> old(ev.active)
      ensures ActiveNow() == if ev.active then old(ActiveNow()) else old(ActiveNow()) - {ev}
      ensures !old(ev.active) ==> old(ActiveNow()) - {ev} == old(ActiveNow())
    {
    }

    /** The fd map refuses an event exactly when the reference does. */
    lemma RefusedIs(ev: Event)
      requires Ready() && ev in Mine()
      ensures Refused(View(), ev) <==> (ev.read || ev.write) && !ev.inserted && !ev.active && Crowded(ev)
    {
      hide InsertedOk, ActiveOk, TimeoutOk, CountOk, TimersOk, MapOk;
      if ev.fd >= 0 {
        OnFd(ev.fd);
      }
    }

    /** The counts of the fd map are the numbers of inserted readers and writers. */
    lemma OnFd(fd: int)
      requires Valid() && fd >= 0
      ensures Readers(io.EventsOn(fd)) == |ReadersOn(InsertedNow(), fd)|
      ensures Writers(io.EventsOn(fd)) == |WritersOn(InsertedNow(), fd)|
    {
      hide InsertedOk, ActiveOk, TimeoutOk, CountOk, IoMap.Valid, IoMap.EventsOn;
      var es := io.EventsOn(fd);
      assert ListedOn(fd, es);
      io.EventsDistinct(fd);
      ReadersAreSet(es);
      WritersAreSet(es);
      assert ReadersOn(InsertedNow(), fd) == ReaderSet(es);
      assert WritersOn(InsertedNow(), fd) == WriterSet(es);
    }

    method PerformDelete(ev: Event)
      requires Ready() && Allowed(View(), Delete(ev))
      modifies this`eventqueue, this`activequeues, this`timeheap, this`commons, this`eventCount, this`eventCountActive
      modifies io, io.kernel, known
      ensures Ready() && View() == old(FlatStep(View(), Delete(ev))) && Queues() == Drop(old(Queues()), ev)
    {
      hide Valid, ActiveNow, InsertedNow, Due, Queues, Drop;
      DeleteParts(ev);
    }

    method DeleteParts(ev: Event)
      requires Valid() && ev in Mine()
      modifies this`eventqueue, this`activequeues, this`timeheap, this`commons, this`eventCount, this`eventCountActive
      modifies io, io.kernel, known
      ensures Valid() && DurationsOk() == old(DurationsOk())
      ensures InsertedNow() == old(InsertedNow()) - {ev} && ActiveNow() == old(ActiveNow()) - {ev}
      ensures Due() == old(Due()) - {ev} && Queues() == Drop(old(Queues()), ev)
    {
      hide Valid, Due, Queues, Drop;
      TimerPerList();
      Del(ev);
      TimerPerList();
    }

    method PerformActivate(ev: Event, res: Res)
      requires Ready() && Allowed(View(), Op.Activate(ev, res))
      modifies this`activequeues, this`eventCount, this`eventCountActive, known
      ensures Ready() && View() == old(FlatStep(View(), Op.Activate(ev, res)))
      ensures Queues() == old(QueueStep(View(), Queues(), Op.Activate(ev, res), []))
    {
      hide Valid, ActiveNow, InsertedNow, Due, Queues, Push;
      FlagsAre(ev);
      ActivateParts(ev, res);
    }

    method ActivateParts(ev: Event, res: Res)
      requires Valid() && ev in Mine()
      modifies this`activequeues, this`eventCount, this`eventCountActive, known
      ensures Valid() && InsertedNow() == old(InsertedNow()) && Due() == old(Due())
      ensures ActiveNow() == old(ActiveNow()[ev := if ev.active then Joined(ev.res, res) else res])
      ensures Queues() == old(if ev.active then Queues() else Push(Queues(), ev))
    {
      hide Valid, Due, Queues, Push;
      Activate(ev, res);
    }

    method PerformBegin(ev: Event)
      requires Ready() && Allowed(View(), Begin(ev))
      modifies this`eventqueue, this`activequeues, this`timeheap, this`commons, this`eventCount, this`eventCountActive
      modifies this`running, io, io.kernel, known
      ensures Ready() && View() == old(FlatStep(View(), Begin(ev)))
      ensures Queues() == old(QueueStep(View(), Queues(), Begin(ev), []))
    {
      hide Valid, ActiveNow, InsertedNow, Due, Queues, Drop;
      FlagsAre(ev);
      if running == null && ev.active {
        BeginParts(ev);
      }
    }

    method BeginParts(ev: Event)
      requires Valid() && running == null && ev in Mine() && ev.active
      modifies this`eventqueue, this`activequeues, this`timeheap, this`commons, this`eventCount, this`eventCountActive
      modifies this`running, io, io.kernel, known
      ensures Valid() && running == ev && DurationsOk() == old(DurationsOk()) && ActiveNow() == old(ActiveNow()) - {ev}
      ensures InsertedNow() == old(if ev.persist then InsertedNow() else InsertedNow() - {ev})
      ensures Due() == old(if ev.persist then Due() else Due() - {ev})
      ensures Queues() == Drop(old(Queues()), ev)
    {
      hide Valid, Due, Queues, Drop;
      TimerPerList();
      BeginRun(ev);
      TimerPerList();
    }

    method PerformTurn(now: int) returns (ghost fired: seq<Event>)
      requires Ready()
      modifies this`eventqueue, this`activequeues, this`timeheap, this`commons, this`eventCount, this`eventCountActive
      modifies this`running, io, io.kernel, known
      ensures Ready() && View() == old(FlatStep(View(), Turn(now))) && FiresRight(old(View()), Turn(now), fired)
      ensures Queues() == QueueStep(old(View()), old(Queues()), Turn(now), fired)
    {
      hide Valid, Mine, ActiveNow, InsertedNow, Due, Queues, Served, InTurn, Distinct;
      fired := [];
      if running == null {
        fired := TurnParts(now);
      }
    }

    method TurnParts(now: int) returns (ghost fired: seq<Event>)
      requires Valid() && running == null
      modifies this`eventqueue, this`activequeues, this`timeheap, this`commons, this`eventCount, this`eventCountActive
      modifies this`running, io, io.kernel, known
      ensures Valid() && running == null && DurationsOk() == old(DurationsOk()) && Mine() == old(Mine())
      ensures var late := Overdue(old(Due()), now);
        && Due() == old(Due()) - late && InsertedNow() == old(InsertedNow()) - late
        && ActiveNow() == FiredOver(old(ActiveNow()), late)
      ensures Distinct(fired) && InTurn(old(Due()), fired) && Members(fired) == Overdue(old(Due()), now)
      ensures Queues() == Served(old(Queues()), fired)
    {
      hide Valid, Queues, Served, InTurn, Distinct, Overdue, InsertedNow, ActiveNow, Due, Turned;
      TimerPerList();
      ghost var heap;
      heap, fired := ProcessTimeouts(now);
      TimerPerList();
      TurnedView(now);
    }

    twostate lemma TurnedView(new now: int)
      requires unchanged(this`known, this`timers) && forall e :: e in known && e !in timers ==> Turned(e, true, now)
      ensures var late := Overdue(old(Due()), now);
        && Due() == old(Due()) - late && InsertedNow() == old(InsertedNow()) - late
        && ActiveNow() == FiredOver(old(ActiveNow()), late)
    {
    }

    method PerformClock(now: int, monotonic: bool)
      requires Ready()
      modifies this`eventTv, known`deadline
      ensures Ready() && View() == old(FlatStep(View(), Clock(now, monotonic))) && Queues() == old(Queues())
    {
      hide Valid;
      TimeoutCorrect(now, monotonic);
    }

    method PerformEnd()
      requires Ready()
      modifies this`running
      ensures Ready() && View() == old(FlatStep(View(), End)) && Queues() == old(Queues())
    {
      hide Valid;
      if running != null {
        EndRun();
      }
    }

    /** An operation of a caller, also from inside a callback. */
    method Perform(op: Op, ghost evs: set<Event>) returns (ghost fired: seq<Event>)
      requires Ready() && Allowed(View(), op) && Announced(op, evs)
      requires forall e :: e in evs && e !in known ==> Blank(e) && e !in timers
      modifies this, io, io.kernel, known
      ensures Ready() && View() == FlatStep(old(View()), op)
      ensures FiresRight(old(View()), op, fired) && Queues() == QueueStep(old(View()), old(Queues()), op, fired)
      ensures forall e :: e in known ==> e in old(known) || e in evs || fresh(e)
      ensures forall t :: t in timers ==> t in old(timers) || fresh(t)
      ensures forall e :: e in old(known) ==> e in known
    {
      hide Ready, View, FlatStep, Blank, Queues, Drop, Push, Served, Refused, InTurn, Distinct;
      fired := [];
      match op {
        case New(ev) =>
          NotKnown(ev);
          PerformNew(ev);
        case InitCommon(d) => PerformInit(d);
        case Add(ev, tv, now) => var _ := PerformAdd(ev, tv, now);
        case Delete(ev) => PerformDelete(ev);
        case Activate(ev, res) => PerformActivate(ev, res);
        case Begin(ev) => PerformBegin(ev);
        case End => PerformEnd();
        case Turn(now) => fired := PerformTurn(now);
        case Clock(now, monotonic) => PerformClock(now, monotonic);
      }
    }

    /** A new event is one of those that the run will bring in. */
    ghost predicate Announced(op: Op, evs: set<Event>)
      reads this`timers
    {
      op.New? ==> op.ev in evs && op.ev !in timers
    }

    lemma NotKnown(ev: Event)
      requires Allowed(View(), New(ev)) && ev !in timers
      ensures ev !in known
    {
    }

    /**
     * In every run, callbacks that call the library included, flags, queues, counters and the fd map stay consistent;
     * deadlines, active events with their reasons and inserted events are those of the reference; and the active queues
     * are in the order of the reference, where each turn fires all that is overdue in turn.
     */
    method Run(ops: seq<Op>, ghost evs: set<Event>) returns (ghost fires: seq<seq<Event>>)
      requires Ready()
      requires forall k :: 0 <= k < |ops| ==> Allowed(FlatRun(View(), ops[..k]), ops[k]) && Announced(ops[k], evs)
      requires forall e :: e in evs && e !in known ==> Blank(e) && e !in timers
      modifies this, io, io.kernel, known, evs
      ensures Ready() && View() == FlatRun(old(View()), ops)
      ensures |fires| == |ops| && Queues() == QueueRun(old(View()), old(Queues()), ops, fires)
      ensures forall k :: 0 <= k < |ops| ==> FiresRight(FlatRun(old(View()), ops[..k]), ops[k], fires[k])
    {
      hide Ready, View, FlatStep, FlatRun, Blank, Allowed, Queues, QueueStep, QueueRun, FiresRight;
      ghost var start, qs := View(), Queues();
      var k := 0;
      fires := [];
      RunStart(start, qs);
      while k < |ops|
        invariant k <= |ops| && Ready() && View() == FlatRun(start, ops[..k])
        invariant |fires| == k && Queues() == QueueRun(start, qs, ops[..k], fires)
        invariant forall j :: 0 <= j < k ==> FiresRight(FlatRun(start, ops[..j]), ops[j], fires[j])
        invariant forall e :: e in evs && e !in known ==> Blank(e) && e !in timers
        invariant forall e :: e in known ==> e in old(known) || e in evs || fresh(e)
        invariant forall t :: t in timers ==> t in old(timers) || fresh(t)
      {
        assert Announced(ops[k], evs);
        ghost var fired := Perform(ops[k], evs);
        RunOn(start, qs, ops, k, fires, fired);
        fires := fires + [fired];
        k := k + 1;
      }
      assert ops[..k] == ops;
    }
  }

  ghost function ReaderSet(es: seq<Event>): set<Event> {
    set e | e in es && e.read
  }

  ghost function WriterSet(es: seq<Event>): set<Event> {
    set e | e in es && e.write
  }

  lemma ReaderSetAppend(es: seq<Event>, ev: Event)
    ensures ReaderSet(es + [ev]) == ReaderSet(es) + (if ev.read then {ev} else {})
    ensures ev !in es ==> ev !in ReaderSet(es)
  {
  }

  lemma WriterSetAppend(es: seq<Event>, ev: Event)
    ensures WriterSet(es + [ev]) == WriterSet(es) + (if ev.write then {ev} else {})
    ensures ev !in es ==> ev !in WriterSet(es)
  {
  }

  lemma CountersStep(es: seq<Event>)
    requires es != []
    ensures Readers(es) == Readers(es[..|es| - 1]) + if es[|es| - 1].read then 1 else 0
    ensures Writers(es) == Writers(es[..|es| - 1]) + if es[|es| - 1].write then 1 else 0
  {
  }

  /** In a list without repetition the counted events are a set. */
  lemma {:induction false} ReadersAreSet(es: seq<Event>)
    requires Distinct(es)
    ensures Readers(es) == |ReaderSet(es)|
  {
    if es != [] {
      hide Readers, ReaderSet, Distinct;
      var rest, last := es[..|es| - 1], es[|es| - 1];
      assert es == rest + [last];
      DistinctStep(es);
      CountersStep(es);
      ReaderSetAppend(rest, last);
      ReadersAreSet(rest);
    }
  }

  lemma {:induction false} WritersAreSet(es: seq<Event>)
    requires Distinct(es)
    ensures Writers(es) == |WriterSet(es)|
  {
    if es != [] {
      hide Writers, WriterSet, Distinct;
      var rest, last := es[..|es| - 1], es[|es| - 1];
      assert es == rest + [last];
      DistinctStep(es);
      CountersStep(es);
      WriterSetAppend(rest, last);
      WritersAreSet(rest);
    }
  }
}

/** The fd map of libevent/evmap.c with its changelist, over the epoll and /dev/poll backends. */
module Evmap {
  import opened Events

  /** The events of one fd, as far as the backends are concerned. */
  datatype Mask = Mask(read: bool, write: bool)

  const NONE := Mask(false, false)

  /** struct evmap_io. */
  datatype IoEntry = IoEntry(events: seq<Event>, nread: nat, nwrite: nat)

  datatype ChangeBit = NoChange | ChangeAdd | ChangeDel

  /** struct event_change. */
  datatype Change = Change(fd: int, oldEvents: Mask, readChange: ChangeBit, writeChange: ChangeBit)

  datatype Backend = EpollDirect | EpollChangelist | Devpoll

  datatype PollFd = PollAdd(fd: int, mask: Mask) | PollRemove(fd: int)

  // ---------- what the kernel should watch ----------

  ghost function Readers(es: seq<Event>): nat {
    if es == [] then 0 else Readers(es[..|es| - 1]) + if es[|es| - 1].read then 1 else 0
  }

  ghost function Writers(es: seq<Event>): nat {
    if es == [] then 0 else Writers(es[..|es| - 1]) + if es[|es| - 1].write then 1 else 0
  }

  /** READ iff some event reads, WRITE iff some event writes. */
  ghost predicate Wants(es: seq<Event>, m: Mask) {
    && (m.read <==> exists e :: e in es && e.read)
    && (m.write <==> exists e :: e in es && e.write)
  }

  ghost function MaskOf(kernel: map<int, Mask>, fd: int): Mask {
    if fd in kernel then kernel[fd] else NONE
  }

  ghost function ApplyBit(was: bool, c: ChangeBit): bool {
    match c
    case NoChange => was
    case ChangeAdd => true
    case ChangeDel => false
  }

  /** What a change makes of the events that were enabled before it. */
  ghost function Applied(c: Change): Mask {
    Mask(ApplyBit(c.oldEvents.read, c.readChange), ApplyBit(c.oldEvents.write, c.writeChange))
  }

  /** One pollfd entry written to /dev/poll: events are or-ed in, POLLREMOVE drops the fd. */
  ghost function PollOne(before: Mask, p: PollFd, fd: int): Mask {
    if p.fd != fd then before
    else match p
      case PollAdd(_, m) => Mask(before.read || m.read, before.write || m.write)
      case PollRemove(_) => NONE
  }

  /** The mask of fd after a queue of entries is written. */
  ghost function PollWrite(kernel: map<int, Mask>, queue: seq<PollFd>, fd: int): Mask {
    if queue == [] then MaskOf(kernel, fd)
    else PollOne(PollWrite(kernel, queue[..|queue| - 1], fd), queue[|queue| - 1], fd)
  }

  // ---------- epoll ----------

  datatype EpollOp = CtlAdd | CtlMod | CtlDel
  datatype Errno = Ok | ENOENT | EEXIST

  /** A change deletes only what was on before. */
  ghost predicate LeanChange(c: Change) {
    (c.readChange == ChangeDel ==> c.oldEvents.read) && (c.writeChange == ChangeDel ==> c.oldEvents.write)
  }

  /** An fd is registered only for some event. */
  ghost predicate Registered(table: map<int, Mask>) {
    forall fd :: fd in table ==> table[fd] != NONE
  }

  /** The kernel's side: which fds are registered, with which events. */
  class Kernel {
    var table: map<int, Mask>
    /** How many calls of epoll_ctl have failed. */
    ghost var refused: nat

    constructor ()
      ensures table == map[] && refused == 0
    {
      table, refused := map[], 0;
    }

    /** epoll_ctl. */
    method Ctl(op: EpollOp, fd: int, mask: Mask) returns (e: Errno)
      modifies this
      ensures e == (if op == CtlAdd then (if fd in old(table) then EEXIST else Ok)
                    else (if fd in old(table) then Ok else ENOENT))
      ensures table == if e != Ok then old(table) else if op == CtlDel then old(table) - {fd} else old(table)[fd := mask]
      ensures refused == old(refused) + if e != Ok then 1 else 0
    {
      e := if op == CtlAdd then (if fd in table then EEXIST else Ok) else (if fd in table then Ok else ENOENT);
      if e != Ok {
        refused := refused + 1;
        return;
      }
      table := if op == CtlDel then table - {fd} else table[fd := mask];
    }

    /** epoll_apply_one_change. */
    method ApplyOne(ch: Change)
      modifies this
      ensures ch.readChange == NoChange && ch.writeChange == NoChange ==> table == old(table)
      ensures ch.readChange != NoChange || ch.writeChange != NoChange ==> MaskOf(table, ch.fd) == Applied(ch)
      ensures forall fd :: fd != ch.fd ==> (fd in table <==> fd in old(table)) && MaskOf(table, fd) == MaskOf(old(table), fd)
      ensures table.Keys <= old(table).Keys + {ch.fd}
      ensures old(Registered(table)) ==> Registered(table)
      ensures old(Registered(table)) && LeanChange(ch) && MaskOf(old(table), ch.fd) == ch.oldEvents ==> refused == old(refused)
    {
      var op, events := CtlAdd, NONE;
      if ch.readChange == ChangeAdd || ch.writeChange == ChangeAdd {
        events := Mask(
          ch.readChange == ChangeAdd || (ch.readChange != ChangeDel && ch.oldEvents.read),
          ch.writeChange == ChangeAdd || (ch.writeChange != ChangeDel && ch.oldEvents.write));
        op := if ch.oldEvents != NONE then CtlMod else CtlAdd;
      } else if ch.readChange == ChangeDel || ch.writeChange == ChangeDel {
        op := CtlDel;
        if ch.readChange == ChangeDel {
          if ch.writeChange == ChangeDel {
            events := Mask(true, true);
          } else if ch.oldEvents.write {
            events, op := Mask(false, true), CtlMod;
          } else {
            events := Mask(true, false);
          }
        } else {
          if ch.oldEvents.read {
            events, op := Mask(true, false), CtlMod;
          } else {
            events := Mask(false, true);
          }
        }
      }
      if events == NONE {
        return;
      }
      var e := Ctl(op, ch.fd, events);
      if e != Ok {
        if op == CtlMod && e == ENOENT {
          var _ := Ctl(CtlAdd, ch.fd, events);
        } else if op == CtlAdd && e == EEXIST {
          var _ := Ctl(CtlMod, ch.fd, events);
        }
      }
    }
  }

  // ---------- the map ----------

  ghost function Want(e: IoEntry): Mask {
    Mask(e.nread > 0, e.nwrite > 0)
  }

  /** What the entries want of the backend. */
  ghost function WantsOf(entries: map<int, IoEntry>): map<int, Mask> {
    map fd | fd in entries :: Want(entries[fd])
  }

  lemma WantsOfUpdate(entries: map<int, IoEntry>, fd: int, e: IoEntry)
    ensures WantsOf(entries[fd := e]) == WantsOf(entries)[fd := Want(e)]
  {
  }

  lemma WantsOfKeys(entries: map<int, IoEntry>, fd: int)
    ensures fd in WantsOf(entries) <==> fd in entries
    ensures fd in entries ==> WantsOf(entries)[fd] == Want(entries[fd])
  {
  }

  /** The counters of an entry count the readers and writers in its list. */
  ghost predicate Counted(fd: int, e: IoEntry) {
    && e.nread == Readers(e.events) <= 0xffff && e.nwrite == Writers(e.events) <= 0xffff
    && Distinct(e.events)
    && forall ev :: ev in e.events ==> ev.fd == fd
  }

  /** Without a pending change the kernel watches what is wanted; with one, applying it gets there. */
  ghost predicate Pending(fd: int, idxplus1: nat, want: Mask, changes: seq<Change>, mask: Mask) {
    if idxplus1 == 0 then mask == want
    else
      && idxplus1 <= |changes|
      && var c := changes[idxplus1 - 1]; c.fd == fd && c.oldEvents == mask && Applied(c) == want
  }

  lemma CountAppend(fd: int, e: IoEntry, ev: Event)
    requires Counted(fd, e) && ev.fd == fd && ev !in e.events
    requires (ev.read ==> e.nread < 0xffff) && (ev.write ==> e.nwrite < 0xffff)
    ensures Counted(fd, IoEntry(e.events + [ev], e.nread + (if ev.read then 1 else 0), e.nwrite + (if ev.write then 1 else 0)))
  {
    assert (e.events + [ev])[..|e.events|] == e.events;
  }

  lemma {:induction false} WithoutCounts(es: seq<Event>, ev: Event)
    requires ev in es
    ensures Readers(es) == Readers(Without(es, ev)) + if ev.read then 1 else 0
    ensures Writers(es) == Writers(Without(es, ev)) + if ev.write then 1 else 0
  {
    var n := |es| - 1;
    if es[n] != ev {
      WithoutCounts(es[..n], ev);
      var ws := Without(es[..n], ev);
      assert (ws + [es[n]])[..|ws|] == ws;
    }
  }

  lemma CountRemove(fd: int, e: IoEntry, ev: Event)
    requires Counted(fd, e) && ev in e.events
    ensures (ev.read ==> e.nread > 0) && (ev.write ==> e.nwrite > 0)
    ensures Counted(fd, IoEntry(Without(e.events, ev), e.nread - (if ev.read then 1 else 0), e.nwrite - (if ev.write then 1 else 0)))
  {
    hide Without, Readers, Writers;
    WithoutMembers(e.events, ev);
    WithoutCounts(e.events, ev);
    var ws := Without(e.events, ev);
    assert Distinct(ws);
    assert forall x :: x in ws ==> x in e.events;
  }

  lemma {:induction false} CountsMean(es: seq<Event>)
    ensures Wants(es, Mask(Readers(es) > 0, Writers(es) > 0))
  {
    if es != [] {
      var n := |es| - 1;
      CountsMean(es[..n]);
      assert es == es[..n] + [es[n]];
    }
  }

  lemma PollWriteEmpty(kernel: map<int, Mask>)
    ensures forall fd :: PollWrite(kernel, [], fd) == MaskOf(kernel, fd)
  {
  }

  lemma PollWriteAppend(kernel: map<int, Mask>, queue: seq<PollFd>, p: PollFd)
    ensures forall fd :: PollWrite(kernel, queue + [p], fd) == PollOne(PollWrite(kernel, queue, fd), p, fd)
  {
    assert (queue + [p])[..|queue|] == queue;
  }

  lemma {:induction false} PollWriteAbsent(kernel: map<int, Mask>, queue: seq<PollFd>, fd: int)
    requires fd !in kernel && forall i :: 0 <= i < |queue| ==> queue[i].fd != fd
    ensures PollWrite(kernel, queue, fd) == NONE
  {
    if queue != [] {
      PollWriteAbsent(kernel, queue[..|queue| - 1], fd);
    }
  }

  class IoMap {
    const backend: Backend
    const nevents: nat
    var entries: map<int, IoEntry>
    /** The backend's data behind each entry: the index plus one of its pending change. */
    var fdinfo: map<int, nat>
    var changes: seq<Change>
    const kernel: Kernel
    var queue: seq<PollFd>

    ghost predicate Valid()
      reads this, kernel
    {
      && (forall fd :: fd in entries ==> fd >= 0 && Counted(fd, entries[fd]))
      && BackendOk(WantsOf(entries)) && Lean()
    }

    /** No call of epoll_ctl has failed, and none of those to come will. */
    ghost predicate Lean()
      reads this`changes, kernel
    {
      backend != Devpoll ==>
        kernel.refused == 0 && Registered(kernel.table) && forall i :: 0 <= i < |changes| ==> LeanChange(changes[i])
    }

    /** An event added and deleted again before the dispatch leaves no change. */
    lemma Collapsed(i: nat)
      requires Valid() && backend == EpollChangelist && i < |changes|
      ensures var c := changes[i];
        && c.fd in entries && c.oldEvents == MaskOf(kernel.table, c.fd)
        && (!c.oldEvents.read && entries[c.fd].nread == 0 ==> c.readChange == NoChange)
        && (!c.oldEvents.write && entries[c.fd].nwrite == 0 ==> c.writeChange == NoChange)
    {
      var fd := changes[i].fd;
      assert BackendOk(WantsOf(entries)) && fd in WantsOf(entries);
      WantsOfKeys(entries, fd);
      assert Pending(fd, fdinfo[fd], WantsOf(entries)[fd], changes, MaskOf(kernel.table, fd));
    }

    /** The backend has been told, or is about to be told, to watch exactly `want`. */
    ghost predicate BackendOk(want: map<int, Mask>)
      reads this`fdinfo, this`changes, this`queue, kernel
    {
      && nevents > 0
      && want.Keys == fdinfo.Keys
      && (forall fd :: fd in kernel.table ==> fd in want)
      && match backend
         case EpollDirect =>
           && changes == [] && queue == []
           && forall fd :: fd in want ==> fdinfo[fd] == 0 && MaskOf(kernel.table, fd) == want[fd]
         case EpollChangelist =>
           && queue == []
           && (forall fd :: fd in want ==> Pending(fd, fdinfo[fd], want[fd], changes, MaskOf(kernel.table, fd)))
           && (forall i :: 0 <= i < |changes| ==> changes[i].fd in want && fdinfo[changes[i].fd] == i + 1)
         case Devpoll =>
           && changes == [] && |queue| <= nevents
           && (forall i :: 0 <= i < |queue| ==> queue[i].fd in want)
           && forall fd :: fd in want ==> fdinfo[fd] == 0 && PollWrite(kernel.table, queue, fd) == want[fd]
    }

    /** Each fd has at most one pending change, and its idxplus1 says exactly where. */
    lemma OneChangePerFd()
      requires Valid()
      ensures forall i, j :: 0 <= i < j < |changes| ==> changes[i].fd != changes[j].fd
      ensures forall i :: 0 <= i < |changes| ==> changes[i].fd in fdinfo && fdinfo[changes[i].fd] == i + 1
      ensures forall fd :: fd in fdinfo && fdinfo[fd] > 0 ==> fdinfo[fd] <= |changes| && changes[fdinfo[fd] - 1].fd == fd
    {
      var want := WantsOf(entries);
      assert BackendOk(want);
      forall i, j | 0 <= i < j < |changes| ensures changes[i].fd != changes[j].fd {
        assert fdinfo[changes[i].fd] == i + 1 && fdinfo[changes[j].fd] == j + 1;
      }
      forall fd | fd in fdinfo && fdinfo[fd] > 0 ensures fdinfo[fd] <= |changes| && changes[fdinfo[fd] - 1].fd == fd {
        assert fd in want;
      }
    }

    constructor (backend: Backend, nevents: nat)
      requires nevents > 0
      ensures Valid() && this.backend == backend && fresh(kernel)
      ensures forall fd :: EventsOn(fd) == []
    {
      this.backend, this.nevents := backend, nevents;
      entries, fdinfo, changes, queue := map[], map[], [], [];
      kernel := new Kernel();
    }

    // ---------- the changelist ----------

    /** event_changelist_get_or_construct: the index of the one change of this fd. */
    method GetOrConstruct(fd: int, oldEvents: Mask, ghost want: map<int, Mask>) returns (idx: nat)
      requires backend == EpollChangelist && BackendOk(want) && fd in want && want[fd] == oldEvents
      modifies this`fdinfo, this`changes
      ensures BackendOk(want) && fd in fdinfo && fdinfo[fd] == idx + 1 && idx < |changes|
      ensures old(Lean()) ==> Lean()
    {
      if fdinfo[fd] == 0 {
        idx := |changes|;
        fdinfo := fdinfo[fd := idx + 1];
        changes := changes + [Change(fd, oldEvents, NoChange, NoChange)];
      } else {
        idx := fdinfo[fd] - 1;
      }
    }

    /** Write the one change of an fd. */
    method SetChange(idx: nat, c: Change, ghost want: map<int, Mask>)
      requires backend == EpollChangelist && BackendOk(want) && idx < |changes|
      requires c.fd == changes[idx].fd && c.oldEvents == changes[idx].oldEvents
      modifies this`changes
      ensures BackendOk(want[c.fd := Applied(c)])
      ensures old(Lean()) && LeanChange(c) ==> Lean()
    {
      hide Applied, LeanChange, Registered;
      changes := changes[idx := c];
    }

    lemma ChangeAt(fd: int, want: map<int, Mask>)
      requires backend == EpollChangelist && BackendOk(want) && fd in want && fd in fdinfo && fdinfo[fd] > 0
      ensures fdinfo[fd] <= |changes| && var c := changes[fdinfo[fd] - 1]; c.fd == fd && Applied(c) == want[fd]
      ensures Lean() ==> LeanChange(changes[fdinfo[fd] - 1])
    {
    }

    /** event_changelist_add: an add replaces any previous delete. */
    method ChangelistAdd(fd: int, oldEvents: Mask, events: Mask, ghost want: map<int, Mask>)
      requires backend == EpollChangelist && BackendOk(want) && fd in want && want[fd] == oldEvents
      modifies this`fdinfo, this`changes
      ensures BackendOk(want[fd := Mask(oldEvents.read || events.read, oldEvents.write || events.write)])
      ensures old(Lean()) ==> Lean()
    {
      hide BackendOk, Lean;
      var idx := GetOrConstruct(fd, oldEvents, want);
      ChangeAt(fd, want);
      var c := changes[idx];
      SetChange(idx, c.(
        readChange := if events.read then ChangeAdd else c.readChange,
        writeChange := if events.write then ChangeAdd else c.writeChange), want);
    }

    /** event_changelist_del: a delete cancels an add of this round, unless the event was on before it. */
    method ChangelistDel(fd: int, oldEvents: Mask, events: Mask, ghost want: map<int, Mask>)
      requires backend == EpollChangelist && BackendOk(want) && fd in want && want[fd] == oldEvents
      modifies this`fdinfo, this`changes
      ensures BackendOk(want[fd := Mask(oldEvents.read && !events.read, oldEvents.write && !events.write)])
      ensures old(Lean()) && (events.read ==> oldEvents.read) && (events.write ==> oldEvents.write) ==> Lean()
    {
      hide BackendOk, Lean;
      var idx := GetOrConstruct(fd, oldEvents, want);
      ChangeAt(fd, want);
      var c := changes[idx];
      SetChange(idx, c.(
        readChange := if !events.read then c.readChange
                      else if !c.oldEvents.read && c.readChange == ChangeAdd then NoChange else ChangeDel,
        writeChange := if !events.write then c.writeChange
                       else if !c.oldEvents.write && c.writeChange == ChangeAdd then NoChange else ChangeDel), want);
    }

    /** epoll_apply_changes followed by event_changelist_remove_all. */
    method DispatchChangelist(ghost want: map<int, Mask>)
      requires backend == EpollChangelist && BackendOk(want)
      modifies this`fdinfo, this`changes, kernel
      ensures BackendOk(want) && changes == []
      ensures forall fd :: fd in want ==> MaskOf(kernel.table, fd) == want[fd]
      ensures old(Lean()) ==> Lean()
    {
      ApplyChanges(want);
      RemoveAllChanges();
    }

    /** epoll_apply_changes. */
    method ApplyChanges(ghost want: map<int, Mask>)
      requires backend == EpollChangelist && BackendOk(want)
      modifies kernel
      ensures forall fd :: fd in want ==> MaskOf(kernel.table, fd) == want[fd]
      ensures forall fd :: fd in kernel.table ==> fd in want
      ensures old(Lean()) ==> Lean()
    {
      hide LeanChange, Registered;
      var i := 0;
      while i < |changes|
        invariant i <= |changes|
        invariant old(Lean()) ==> Lean()
        invariant forall fd :: fd in kernel.table ==> fd in want
        invariant forall fd :: fd in want ==>
          if 0 < fdinfo[fd] <= i then MaskOf(kernel.table, fd) == want[fd]
          else MaskOf(kernel.table, fd) == MaskOf(old(kernel.table), fd)
      {
        kernel.ApplyOne(changes[i]);
        i := i + 1;
      }
    }

    /** event_changelist_remove_all. */
    method RemoveAllChanges()
      requires forall fd :: fd in fdinfo && fdinfo[fd] > 0 ==>
        fdinfo[fd] <= |changes| && changes[fdinfo[fd] - 1].fd == fd
      requires forall i :: 0 <= i < |changes| ==> changes[i].fd in fdinfo
      modifies this`fdinfo, this`changes
      ensures changes == [] && fdinfo.Keys == old(fdinfo).Keys
      ensures forall fd :: fd in fdinfo ==> fdinfo[fd] == 0
    {
      var i := 0;
      while i < |changes|
        invariant i <= |changes| && changes == old(changes) && fdinfo.Keys == old(fdinfo).Keys
        invariant forall fd :: fd in fdinfo ==> fdinfo[fd] == 0 || fdinfo[fd] == old(fdinfo)[fd] > i
      {
        fdinfo := fdinfo[changes[i].fd := 0];
        i := i + 1;
      }
      changes := [];
    }

    // ---------- epoll without a changelist ----------

    /** epoll_nochangelist_add. */
    method NochangelistAdd(fd: int, oldEvents: Mask, events: Mask, ghost want: map<int, Mask>)
      requires backend == EpollDirect && BackendOk(want) && fd in want && want[fd] == oldEvents
      modifies kernel
      ensures BackendOk(want[fd := Mask(oldEvents.read || events.read, oldEvents.write || events.write)])
      ensures old(Lean()) ==> Lean()
    {
      kernel.ApplyOne(Change(fd, oldEvents,
        if events.read then ChangeAdd else NoChange, if events.write then ChangeAdd else NoChange));
    }

    /** epoll_nochangelist_del. */
    method NochangelistDel(fd: int, oldEvents: Mask, events: Mask, ghost want: map<int, Mask>)
      requires backend == EpollDirect && BackendOk(want) && fd in want && want[fd] == oldEvents
      modifies kernel
      ensures BackendOk(want[fd := Mask(oldEvents.read && !events.read, oldEvents.write && !events.write)])
      ensures old(Lean()) && (events.read ==> oldEvents.read) && (events.write ==> oldEvents.write) ==> Lean()
    {
      kernel.ApplyOne(Change(fd, oldEvents,
        if events.read then ChangeDel else NoChange, if events.write then ChangeDel else NoChange));
    }

    // ---------- /dev/poll ----------

    /** devpoll_commit: one write of all queued entries. */
    method DevpollCommit()
      requires forall i :: 0 <= i < |queue| ==> queue[i].fd in fdinfo
      requires forall fd :: fd in kernel.table ==> fd in fdinfo
      modifies this`queue, kernel
      ensures queue == [] && forall fd :: fd in kernel.table ==> fd in fdinfo
      ensures forall fd :: MaskOf(kernel.table, fd) == PollWrite(old(kernel.table), old(queue), fd)
    {
      var i := 0;
      while i < |queue|
        invariant i <= |queue| && queue == old(queue)
        invariant forall fd :: fd in kernel.table ==> fd in fdinfo
        invariant forall fd :: MaskOf(kernel.table, fd) == PollWrite(old(kernel.table), queue[..i], fd)
      {
        assert queue[..i + 1][..i] == queue[..i];
        var fd := queue[i].fd;
        match queue[i] {
          case PollAdd(_, m) =>
            var was := if fd in kernel.table then kernel.table[fd] else NONE;
            kernel.table := kernel.table[fd := Mask(was.read || m.read, was.write || m.write)];
          case PollRemove(_) =>
            kernel.table := kernel.table - {fd};
        }
        i := i + 1;
      }
      assert queue[..|queue|] == queue;
      queue := [];
    }

    /** devpoll_queue. */
    method DevpollQueue(p: PollFd)
      requires nevents > 0 && |queue| <= nevents && p.fd in fdinfo
      requires forall i :: 0 <= i < |queue| ==> queue[i].fd in fdinfo
      requires forall fd :: fd in kernel.table ==> fd in fdinfo
      modifies this`queue, kernel
      ensures |queue| <= nevents
      ensures forall i :: 0 <= i < |queue| ==> queue[i].fd in fdinfo
      ensures forall fd :: fd in kernel.table ==> fd in fdinfo
      ensures forall fd :: PollWrite(kernel.table, queue, fd) == PollOne(PollWrite(old(kernel.table), old(queue), fd), p, fd)
    {
      hide PollWrite;
      if |queue| >= nevents {
        DevpollCommit();
        PollWriteEmpty(kernel.table);
      }
      PollWriteAppend(kernel.table, queue, p);
      queue := queue + [p];
    }

    /** devpoll_add: the driver ors the new events in. */
    method DevpollAdd(fd: int, oldEvents: Mask, events: Mask, ghost want: map<int, Mask>)
      requires backend == Devpoll && BackendOk(want) && fd in want && want[fd] == oldEvents
      modifies this`queue, kernel
      ensures BackendOk(want[fd := Mask(oldEvents.read || events.read, oldEvents.write || events.write)])
      ensures old(Lean()) ==> Lean()
    {
      hide PollWrite;
      DevpollQueue(PollAdd(fd, events));
    }

    /** devpoll_del: drop the fd, then ask again for what is left of it. */
    method DevpollDel(fd: int, oldEvents: Mask, events: Mask, ghost want: map<int, Mask>)
      requires backend == Devpoll && BackendOk(want) && fd in want && want[fd] == oldEvents && events != NONE
      modifies this`queue, kernel
      ensures BackendOk(want[fd := Mask(oldEvents.read && !events.read, oldEvents.write && !events.write)])
      ensures old(Lean()) && (events.read ==> oldEvents.read) && (events.write ==> oldEvents.write) ==> Lean()
    {
      hide PollWrite;
      DevpollQueue(PollRemove(fd));
      if events != Mask(true, true) {
        if events.read && oldEvents.write {
          DevpollQueue(PollAdd(fd, Mask(false, true)));
        } else if events.write && oldEvents.read {
          DevpollQueue(PollAdd(fd, Mask(true, false)));
        }
      }
    }

    // ---------- adding and deleting events ----------

    /** evsel->add of the selected backend. */
    method BackendAdd(fd: int, oldEvents: Mask, events: Mask, ghost want: map<int, Mask>)
      requires BackendOk(want) && fd in want && want[fd] == oldEvents
      modifies this`fdinfo, this`changes, this`queue, kernel
      ensures BackendOk(want[fd := Mask(oldEvents.read || events.read, oldEvents.write || events.write)])
      ensures old(Lean()) ==> Lean()
    {
      match backend
      case EpollDirect => NochangelistAdd(fd, oldEvents, events, want);
      case EpollChangelist => ChangelistAdd(fd, oldEvents, events, want);
      case Devpoll => DevpollAdd(fd, oldEvents, events, want);
    }

    /** evsel->del of the selected backend. */
    method BackendDel(fd: int, oldEvents: Mask, events: Mask, ghost want: map<int, Mask>)
      requires BackendOk(want) && fd in want && want[fd] == oldEvents && events != NONE
      modifies this`fdinfo, this`changes, this`queue, kernel
      ensures BackendOk(want[fd := Mask(oldEvents.read && !events.read, oldEvents.write && !events.write)])
      ensures old(Lean()) && (events.read ==> oldEvents.read) && (events.write ==> oldEvents.write) ==> Lean()
    {
      match backend
      case EpollDirect => NochangelistDel(fd, oldEvents, events, want);
      case EpollChangelist => ChangelistDel(fd, oldEvents, events, want);
      case Devpoll => DevpollDel(fd, oldEvents, events, want);
    }

    /** Whether an event is on the list of its fd. */
    predicate Holds(ev: Event)
      reads this
    {
      ev.fd in entries && ev in entries[ev.fd].events
    }

    /** The events on the list of fd. */
    ghost function EventsOn(fd: int): seq<Event>
      reads this
    {
      if fd in entries then entries[fd].events else []
    }

    lemma EventsDistinct(fd: int)
      requires Valid()
      ensures Distinct(EventsOn(fd))
    {
    }

    /** evmap_io_add: -1 when a counter would overflow, 1 when the backend was told something. */
    method IoAdd(fd: int, ev: Event) returns (r: int)
      requires Valid() && ev.fd == fd && ev !in EventsOn(fd)
      modifies this, kernel
      ensures Valid()
      ensures forall f :: f != fd ==> EventsOn(f) == old(EventsOn(f))
      ensures EventsOn(fd) == if fd < 0 || r == -1 then old(EventsOn(fd)) else old(EventsOn(fd)) + [ev]
      ensures -1 <= r <= 1
      ensures r == 1 <==> r != -1 && fd >= 0 && ((ev.read && Readers(old(EventsOn(fd))) == 0)
                                                || (ev.write && Writers(old(EventsOn(fd))) == 0))
      ensures r == -1 <==> fd >= 0 && ((ev.read && Readers(old(EventsOn(fd))) == 0xffff)
                                       || (ev.write && Writers(old(EventsOn(fd))) == 0xffff))
    {
      hide BackendOk, Lean, Readers, Writers, WantsOf;
      if fd < 0 {
        return 0;
      }
      OpenSlot(fd);
      var ctx := entries[fd];
      ghost var want := WantsOf(entries);
      WantsOfKeys(entries, fd);
      var nread, nwrite := ctx.nread, ctx.nwrite;
      var oldEvents := Mask(nread > 0, nwrite > 0);
      var res := NONE;
      if ev.read {
        nread := nread + 1;
        if nread == 1 {
          res := res.(read := true);
        }
      }
      if ev.write {
        nwrite := nwrite + 1;
        if nwrite == 1 {
          res := res.(write := true);
        }
      }
      if nread > 0xffff || nwrite > 0xffff {
        return -1;
      }
      r := 0;
      if res != NONE {
        BackendAdd(fd, oldEvents, res, want);
        r := 1;
        want := want[fd := Mask(oldEvents.read || res.read, oldEvents.write || res.write)];
      }
      CountAppend(fd, ctx, ev);
      Store(fd, ctx.events + [ev], nread, nwrite, want);
    }

    /** GET_IO_SLOT_AND_CTOR: an entry for fd, new and empty if there was none. */
    method OpenSlot(fd: int)
      requires Valid() && fd >= 0
      modifies this`entries, this`fdinfo
      ensures Valid() && fd in entries
      ensures forall f :: EventsOn(f) == old(EventsOn(f))
    {
      hide BackendOk, Lean, WantsOf;
      if fd !in entries {
        WantsOfKeys(entries, fd);
        WantsOfUpdate(entries, fd, IoEntry([], 0, 0));
        OpenFdinfo(fd, WantsOf(entries));
        entries := entries[fd := IoEntry([], 0, 0)];
      }
    }

    /** The backend's data of a new entry is all zero. */
    method OpenFdinfo(fd: int, ghost want: map<int, Mask>)
      requires BackendOk(want) && fd !in want
      modifies this`fdinfo
      ensures BackendOk(want[fd := NONE])
    {
      if backend == Devpoll {
        PollWriteAbsent(kernel.table, queue, fd);
      }
      fdinfo := fdinfo[fd := 0];
    }

    /** Write the new counters and list of an entry, once the backend knows. */
    method Store(fd: int, events: seq<Event>, nread: nat, nwrite: nat, ghost want: map<int, Mask>)
      requires fd >= 0 && BackendOk(want) && want == WantsOf(entries)[fd := Mask(nread > 0, nwrite > 0)]
      requires forall f :: f in entries && f != fd ==> f >= 0 && Counted(f, entries[f])
      requires Counted(fd, IoEntry(events, nread, nwrite)) && Lean()
      modifies this`entries
      ensures Valid() && EventsOn(fd) == events
      ensures forall f :: f != fd ==> EventsOn(f) == old(EventsOn(f))
    {
      hide BackendOk, Lean, Counted, WantsOf;
      WantsOfUpdate(entries, fd, IoEntry(events, nread, nwrite));
      entries := entries[fd := IoEntry(events, nread, nwrite)];
    }

    /** evmap_io_del. */
    method IoDel(fd: int, ev: Event) returns (r: int)
      requires Valid() && ev.fd == fd && (fd >= 0 ==> ev in EventsOn(fd))
      modifies this, kernel
      ensures Valid()
      ensures forall f :: f != fd ==> EventsOn(f) == old(EventsOn(f))
      ensures fd < 0 ==> EventsOn(fd) == old(EventsOn(fd)) && r == 0
      ensures fd >= 0 ==> EventsOn(fd) == Without(old(EventsOn(fd)), ev)
      ensures 0 <= r <= 1
      ensures r == 1 <==> fd >= 0 && ((ev.read && Readers(EventsOn(fd)) == 0) || (ev.write && Writers(EventsOn(fd)) == 0))
    {
      hide BackendOk, Lean, Readers, Writers, Without, WantsOf;
      if fd < 0 {
        return 0;
      }
      var ctx := entries[fd];
      ghost var want := WantsOf(entries);
      WantsOfKeys(entries, fd);
      CountRemove(fd, ctx, ev);
      var nread: nat, nwrite: nat := ctx.nread, ctx.nwrite;
      var oldEvents := Mask(nread > 0, nwrite > 0);
      var res := NONE;
      if ev.read {
        nread := nread - 1;
        if nread == 0 {
          res := res.(read := true);
        }
      }
      if ev.write {
        nwrite := nwrite - 1;
        if nwrite == 0 {
          res := res.(write := true);
        }
      }
      r := 0;
      if res != NONE {
        BackendDel(fd, oldEvents, res, want);
        r := 1;
        want := want[fd := Mask(oldEvents.read && !res.read, oldEvents.write && !res.write)];
      }
      Store(fd, Without(ctx.events, ev), nread, nwrite, want);
    }

    /** The dispatch of the selected backend, up to the system call that waits. */
    method Dispatch()
      requires Valid()
      modifies this, kernel
      ensures Valid() && forall fd :: EventsOn(fd) == old(EventsOn(fd))
      ensures forall fd :: fd in entries ==> MaskOf(kernel.table, fd) == Want(entries[fd])
      ensures forall fd :: Wants(EventsOn(fd), MaskOf(kernel.table, fd))
    {
      hide BackendOk, Lean, Counted, WantsOf, Wants;
      BackendDispatch(WantsOf(entries));
      forall fd
        ensures fd in entries ==> MaskOf(kernel.table, fd) == Want(entries[fd])
        ensures Wants(EventsOn(fd), MaskOf(kernel.table, fd))
      {
        WantsOfKeys(entries, fd);
        EntryWants(fd);
      }
    }

    /** Tell the kernel whatever is still pending. */
    method BackendDispatch(ghost want: map<int, Mask>)
      requires BackendOk(want)
      modifies this`fdinfo, this`changes, this`queue, kernel
      ensures BackendOk(want) && forall fd :: MaskOf(kernel.table, fd) == if fd in want then want[fd] else NONE
      ensures old(Lean()) ==> Lean()
    {
      hide Pending, PollWrite;
      match backend {
        case EpollDirect =>
        case EpollChangelist => DispatchChangelist(want);
        case Devpoll =>
          if |queue| > 0 {
            DevpollCommit();
          }
          PollWriteEmpty(kernel.table);
      }
    }

    lemma EntryWants(fd: int)
      requires fd in entries ==> Counted(fd, entries[fd])
      ensures Wants(EventsOn(fd), if fd in entries then Want(entries[fd]) else NONE)
    {
      hide Wants, Readers, Writers;
      CountsMean(EventsOn(fd));
      NoneListed();
    }

    lemma NoneListed()
      ensures Wants([], NONE)
    {
    }
  }

  // ---------- whole runs ----------

  datatype Op = OpAdd(ev: Event) | OpDel(ev: Event) | OpDispatch

  /** The list of fd after one operation, whatever the backend. */
  ghost function ListStep(before: seq<Event>, op: Op, fd: int): seq<Event> {
    match op
    case OpAdd(ev) =>
      if ev.fd != fd || fd < 0 || ev in before
         || (ev.read && Readers(before) == 0xffff) || (ev.write && Writers(before) == 0xffff) then before
      else before + [ev]
    case OpDel(ev) => if ev.fd != fd || ev !in before then before else Without(before, ev)
    case OpDispatch => before
  }

  /** The events that a run leaves on the list of fd. */
  ghost function Listed(ops: seq<Op>, fd: int): seq<Event> {
    if ops == [] then [] else ListStep(Listed(ops[..|ops| - 1], fd), ops[|ops| - 1], fd)
  }

  /** In every run, with any backend, a dispatch leaves the kernel watching exactly what the added events want. */
  method Run(backend: Backend, nevents: nat, ops: seq<Op>) returns (io: IoMap)
    requires nevents > 0
    ensures io.Valid() && forall fd :: io.EventsOn(fd) == Listed(ops, fd)
    ensures ops != [] && ops[|ops| - 1] == OpDispatch ==> forall fd :: Wants(Listed(ops, fd), MaskOf(io.kernel.table, fd))
    ensures backend != Devpoll ==> io.kernel.refused == 0
  {
    hide Wants, ListStep, IoMap.Valid, IoMap.EventsOn;
    io := new IoMap(backend, nevents);
    var i := 0;
    while i < |ops|
      invariant i <= |ops| && io.Valid() && fresh(io) && fresh(io.kernel)
      invariant forall fd :: io.EventsOn(fd) == Listed(ops[..i], fd)
      invariant i > 0 && ops[i - 1] == OpDispatch ==>
        forall fd :: Wants(Listed(ops[..i], fd), MaskOf(io.kernel.table, fd))
    {
      assert ops[..i + 1][..i] == ops[..i];
      Perform(io, ops[i]);
      i := i + 1;
    }
    assert ops[..|ops|] == ops;
    NoneRefused(io);
  }

  lemma NoneRefused(io: IoMap)
    requires io.Valid()
    ensures io.backend != Devpoll ==> io.kernel.refused == 0
  {
  }

  /** One operation; an event is added only when absent and deleted only when present. */
  method Perform(io: IoMap, op: Op)
    requires io.Valid()
    modifies io, io.kernel
    ensures io.Valid()
    ensures forall fd :: io.EventsOn(fd) == ListStep(old(io.EventsOn(fd)), op, fd)
    ensures op == OpDispatch ==> forall fd :: Wants(io.EventsOn(fd), MaskOf(io.kernel.table, fd))
  {
    match op
    case OpAdd(ev) =>
      if !io.Holds(ev) {
        var _ := io.IoAdd(ev.fd, ev);
      }
    case OpDel(ev) =>
      if io.Holds(ev) {
        var _ := io.IoDel(ev.fd, ev);
      }
    case OpDispatch => io.Dispatch();
  }

  /** What a run asks of the kernel does not depend on the backend: the wanted mask is unique. */
  lemma WantedMaskUnique(ops: seq<Op>, fd: int, m: Mask, m': Mask)
    requires Wants(Listed(ops, fd), m) && Wants(Listed(ops, fd), m')
    ensures m == m'
  {
  }
}

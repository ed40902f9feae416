/** struct event, and lists of events. */
module Events {

  /** A deadline in microseconds; `common` is the index of its common-timeout queue, or -1. */
  datatype Deadline = Deadline(at: int, common: int)

  /** Why an event is active: the EV_ bits of ev_res. */
  datatype Res = Res(timeout: bool, read: bool, write: bool)

  class Event {
    const fd: int
    const read: bool
    const write: bool
    const persist: bool
    const pri: nat
    const internal: bool
    /** EVLIST_INSERTED, EVLIST_ACTIVE and EVLIST_TIMEOUT: the bits of ev_flags that say which queues it is on. */
    var inserted: bool
    var active: bool
    var timeout: bool
    var deadline: Deadline
    var res: Res

    constructor (fd: int, read: bool, write: bool, persist: bool, pri: nat, internal: bool)
      ensures this.fd == fd && this.read == read && this.write == write && this.persist == persist
      ensures this.pri == pri && this.internal == internal
      ensures !inserted && !active && !timeout && deadline.common == -1
    {
      this.fd, this.read, this.write, this.persist, this.pri, this.internal := fd, read, write, persist, pri, internal;
      inserted, active, timeout := false, false, false;
      deadline, res := Deadline(0, -1), Res(false, false, false);
    }
  }

  ghost predicate Distinct(es: seq<Event>) {
    forall i, j :: 0 <= i < j < |es| ==> es[i] != es[j]
  }

  /** TAILQ_REMOVE of an event. */
  function Without(es: seq<Event>, ev: Event): seq<Event> {
    if es == [] then [] else if es[|es| - 1] == ev then es[..|es| - 1] else Without(es[..|es| - 1], ev) + [es[|es| - 1]]
  }

  lemma WithoutStep(es: seq<Event>, ev: Event)
    requires es != []
    ensures var n := |es| - 1; Without(es, ev) == if es[n] == ev then es[..n] else Without(es[..n], ev) + [es[n]]
  {
  }

  lemma DistinctStep(es: seq<Event>)
    requires Distinct(es) && es != []
    ensures Distinct(es[..|es| - 1]) && es[|es| - 1] !in es[..|es| - 1]
  {
  }

  lemma DistinctAppend(es: seq<Event>, e: Event)
    requires Distinct(es) && e !in es
    ensures Distinct(es + [e])
  {
  }

  lemma {:induction false} WithoutMembers(es: seq<Event>, ev: Event)
    requires Distinct(es)
    ensures var ws := Without(es, ev); Distinct(ws) && forall e :: e in ws <==> e in es && e != ev
  {
    if es != [] {
      hide Without, Distinct;
      var n := |es| - 1;
      WithoutStep(es, ev);
      DistinctStep(es);
      assert es == es[..n] + [es[n]];
      WithoutMembers(es[..n], ev);
      if es[n] != ev {
        DistinctAppend(Without(es[..n], ev), es[n]);
      }
    }
  }

  lemma {:induction false} WithoutAt(es: seq<Event>, ev: Event, i: nat)
    requires i < |Without(es, ev)|
    ensures Without(es, ev)[i] in es
  {
    var n := |es| - 1;
    if es[n] != ev && i < |Without(es[..n], ev)| {
      WithoutAt(es[..n], ev, i);
    }
  }
}

/** Lists of events in order: what leaves, what joins, what fires. */
module EventQueues {
  import opened Events

  /** What of q is not in ts, and what of it is; both in the order of q. */
  function Others(q: seq<Event>, ts: seq<Event>): seq<Event> {
    if q == [] then [] else Others(q[..|q| - 1], ts) + if q[|q| - 1] in ts then [] else [q[|q| - 1]]
  }

  function Among(q: seq<Event>, ts: seq<Event>): seq<Event> {
    if q == [] then [] else Among(q[..|q| - 1], ts) + if q[|q| - 1] in ts then [q[|q| - 1]] else []
  }

  /** The events of q of one priority. */
  ghost function OfPri(q: seq<Event>, p: nat): seq<Event> {
    if q == [] then [] else OfPri(q[..|q| - 1], p) + if q[|q| - 1].pri == p then [q[|q| - 1]] else []
  }

  /** The queues as callers know them, without the internal timers. */
  ghost function Visible(qs: seq<seq<Event>>, ts: seq<Event>): seq<seq<Event>> {
    seq(|qs|, p requires 0 <= p < |qs| => Others(qs[p], ts))
  }

  /** An event leaves its queue, joins it at the tail, or leaves its place for the tail. */
  ghost function Drop(qs: seq<seq<Event>>, ev: Event): seq<seq<Event>> {
    if ev.pri < |qs| then qs[ev.pri := Without(qs[ev.pri], ev)] else qs
  }

  ghost function Push(qs: seq<seq<Event>>, ev: Event): seq<seq<Event>> {
    if ev.pri < |qs| then qs[ev.pri := qs[ev.pri] + [ev]] else qs
  }

  ghost function Fire(qs: seq<seq<Event>>, ev: Event): seq<seq<Event>> {
    Push(Drop(qs, ev), ev)
  }

  ghost function FireAll(qs: seq<seq<Event>>, fired: seq<Event>): seq<seq<Event>> {
    if fired == [] then qs else Fire(FireAll(qs, fired[..|fired| - 1]), fired[|fired| - 1])
  }

  /** Events that fire: what stays keeps its order, and they follow in theirs, each in the queue of its priority. */
  ghost function Served(qs: seq<seq<Event>>, fired: seq<Event>): seq<seq<Event>> {
    seq(|qs|, p requires 0 <= p < |qs| => Others(qs[p], fired) + OfPri(fired, p))
  }

  lemma OthersStep(q: seq<Event>, ev: Event, ts: seq<Event>)
    ensures Others(q + [ev], ts) == if ev in ts then Others(q, ts) else Others(q, ts) + [ev]
    ensures Among(q + [ev], ts) == if ev in ts then Among(q, ts) + [ev] else Among(q, ts)
  {
    assert (q + [ev])[..|q|] == q;
    assert Others(q, ts) + [] == Others(q, ts) && Among(q, ts) + [] == Among(q, ts);
  }

  lemma OfPriStep(q: seq<Event>, ev: Event, p: nat)
    ensures OfPri(q + [ev], p) == if ev.pri == p then OfPri(q, p) + [ev] else OfPri(q, p)
  {
    assert (q + [ev])[..|q|] == q;
    assert OfPri(q, p) + [] == OfPri(q, p);
  }

  lemma FireNone(qs: seq<seq<Event>>)
    ensures FireAll(qs, []) == qs
  {
  }

  lemma FireAllStep(qs: seq<seq<Event>>, fired: seq<Event>, ev: Event)
    ensures FireAll(qs, fired + [ev]) == Fire(FireAll(qs, fired), ev)
  {
    assert (fired + [ev])[..|fired|] == fired;
  }

  lemma {:induction false} FireAllMore(qs: seq<seq<Event>>, a: seq<Event>, b: seq<Event>)
    ensures FireAll(qs, a + b) == FireAll(FireAll(qs, a), b)
  {
    if b == [] {
      assert a + b == a;
    } else {
      var n := |b| - 1;
      assert a + b == a + b[..n] + [b[n]] && b == b[..n] + [b[n]];
      FireAllMore(qs, a, b[..n]);
      FireAllStep(qs, a + b[..n], b[n]);
      FireAllStep(FireAll(qs, a), b[..n], b[n]);
    }
  }

  lemma {:induction false} WithoutAbsent(q: seq<Event>, ev: Event)
    requires ev !in q
    ensures Without(q, ev) == q
  {
    if q != [] {
      WithoutAbsent(q[..|q| - 1], ev);
      assert q == q[..|q| - 1] + [q[|q| - 1]];
    }
  }

  lemma {:induction false} OthersNone(q: seq<Event>)
    ensures Others(q, []) == q
  {
    if q != [] {
      OthersNone(q[..|q| - 1]);
      assert q == q[..|q| - 1] + [q[|q| - 1]];
    }
  }

  lemma {:induction false} OthersMembers(q: seq<Event>, ts: seq<Event>)
    ensures forall e :: e in Others(q, ts) <==> e in q && e !in ts
    ensures forall e :: e in Among(q, ts) <==> e in q && e in ts
  {
    if q != [] {
      OthersMembers(q[..|q| - 1], ts);
      assert q == q[..|q| - 1] + [q[|q| - 1]];
    }
  }

  lemma {:induction false} OthersAt(q: seq<Event>, ts: seq<Event>, k: nat)
    requires k < |Others(q, ts)|
    ensures Others(q, ts)[k] in q
  {
    if k < |Others(q[..|q| - 1], ts)| {
      OthersAt(q[..|q| - 1], ts, k);
    }
  }

  /** Leaving and hiding commute. */
  lemma {:induction false} OthersWithout(q: seq<Event>, ev: Event, ts: seq<Event>)
    ensures Others(Without(q, ev), ts) == if ev in ts then Others(q, ts) else Without(Others(q, ts), ev)
  {
    if q != [] {
      hide Others, Without;
      var rest, last := q[..|q| - 1], q[|q| - 1];
      assert q == rest + [last];
      OthersStep(rest, last, ts);
      WithoutStep(q, ev);
      WithoutLast(Others(rest, ts), last, ev);
      if last != ev {
        OthersWithout(rest, ev, ts);
        OthersStep(Without(rest, ev), last, ts);
      }
    }
  }

  lemma WithoutLast(q: seq<Event>, last: Event, ev: Event)
    ensures Without(q + [last], ev) == if last == ev then q else Without(q, ev) + [last]
  {
    assert (q + [last])[..|q|] == q;
  }

  /** Hiding one event more, in a queue without repetition, is leaving. */
  lemma {:induction false} OthersOneMore(q: seq<Event>, fired: seq<Event>, ev: Event)
    requires Distinct(q) && ev !in fired
    ensures Others(q, fired + [ev]) == Without(Others(q, fired), ev)
  {
    if q != [] {
      hide Others, Without, Distinct;
      var rest, last := q[..|q| - 1], q[|q| - 1];
      assert q == rest + [last];
      DistinctStep(q);
      OthersStep(rest, last, fired);
      OthersStep(rest, last, fired + [ev]);
      OthersOneMore(rest, fired, ev);
      WithoutLast(Others(rest, fired), last, ev);
      if last == ev {
        OthersMembers(rest, fired);
        WithoutAbsent(Others(rest, fired), ev);
      }
    }
  }

  lemma VisibleDrop(qs: seq<seq<Event>>, ts: seq<Event>, ev: Event)
    ensures Visible(Drop(qs, ev), ts) == if ev in ts then Visible(qs, ts) else Drop(Visible(qs, ts), ev)
  {
    hide Others, Without;
    if ev.pri < |qs| {
      OthersWithout(qs[ev.pri], ev, ts);
    }
  }

  lemma VisiblePush(qs: seq<seq<Event>>, ts: seq<Event>, ev: Event)
    ensures Visible(Push(qs, ev), ts) == if ev in ts then Visible(qs, ts) else Push(Visible(qs, ts), ev)
  {
    hide Others;
    if ev.pri < |qs| {
      OthersStep(qs[ev.pri], ev, ts);
    }
  }

  lemma VisibleFire(qs: seq<seq<Event>>, ts: seq<Event>, ev: Event)
    ensures Visible(Fire(qs, ev), ts) == if ev in ts then Visible(qs, ts) else Fire(Visible(qs, ts), ev)
  {
    hide Visible, Drop, Push;
    VisibleDrop(qs, ts, ev);
    VisiblePush(Drop(qs, ev), ts, ev);
  }

  lemma {:induction false} VisibleFireAll(qs: seq<seq<Event>>, ts: seq<Event>, fired: seq<Event>)
    ensures Visible(FireAll(qs, fired), ts) == FireAll(Visible(qs, ts), Others(fired, ts))
  {
    if fired != [] {
      hide Visible, Fire, Others, FireAll;
      var rest, last := fired[..|fired| - 1], fired[|fired| - 1];
      assert fired == rest + [last];
      FireAllStep(qs, rest, last);
      VisibleFireAll(qs, ts, rest);
      VisibleFire(FireAll(qs, rest), ts, last);
      OthersStep(rest, last, ts);
      FireAllStep(Visible(qs, ts), Others(rest, ts), last);
    }
  }

  lemma {:induction false} OthersUnseen(q: seq<Event>, ts: seq<Event>, t: Event)
    requires t !in q
    ensures Others(q, ts + [t]) == Others(q, ts)
  {
    if q != [] {
      OthersUnseen(q[..|q| - 1], ts, t);
    }
  }

  lemma VisibleUnseen(qs: seq<seq<Event>>, ts: seq<Event>, t: Event)
    requires forall p :: 0 <= p < |qs| ==> t !in qs[p]
    ensures Visible(qs, ts + [t]) == Visible(qs, ts)
  {
    hide Others;
    forall p | 0 <= p < |qs| ensures Others(qs[p], ts + [t]) == Others(qs[p], ts) {
      OthersUnseen(qs[p], ts, t);
    }
  }

  lemma {:induction false} WithoutConcat(a: seq<Event>, b: seq<Event>, ev: Event)
    requires ev !in b
    ensures Without(a + b, ev) == Without(a, ev) + b
  {
    if b == [] {
      assert a + b == a && Without(a, ev) + b == Without(a, ev);
    } else {
      hide Without;
      var rest, last := b[..|b| - 1], b[|b| - 1];
      assert b == rest + [last] && a + b == (a + rest) + [last];
      WithoutConcat(a, rest, ev);
      WithoutLast(a + rest, last, ev);
      assert Without(a, ev) + rest + [last] == Without(a, ev) + b;
    }
  }

  lemma {:induction false} OfPriMembers(q: seq<Event>, p: nat)
    ensures forall e :: e in OfPri(q, p) <==> e in q && e.pri == p
  {
    if q != [] {
      OfPriMembers(q[..|q| - 1], p);
      assert q == q[..|q| - 1] + [q[|q| - 1]];
    }
  }

  /** No repetition, and every event in the queue of its priority. */
  ghost predicate InQueues(qs: seq<seq<Event>>) {
    forall p :: 0 <= p < |qs| ==> Distinct(qs[p]) && forall k :: 0 <= k < |qs[p]| ==> qs[p][k].pri == p
  }

  /** One event more fires. */
  lemma ServedStep(qs: seq<seq<Event>>, fired: seq<Event>, ev: Event)
    requires InQueues(qs) && ev !in fired
    ensures Served(qs, fired + [ev]) == Fire(Served(qs, fired), ev)
  {
    hide Others, OfPri, Without, Distinct;
    var a, b := Served(qs, fired + [ev]), Fire(Served(qs, fired), ev);
    forall p | 0 <= p < |qs| ensures a[p] == b[p] {
      OfPriStep(fired, ev, p);
      OfPriMembers(fired, p);
      if p == ev.pri {
        OthersOneMore(qs[p], fired, ev);
        WithoutConcat(Others(qs[p], fired), OfPri(fired, p), ev);
        assert Others(qs[p], fired + [ev]) + (OfPri(fired, p) + [ev]) == Others(qs[p], fired + [ev]) + OfPri(fired, p) + [ev];
      } else {
        OthersUnseen(qs[p], fired, ev);
      }
    }
    assert |a| == |b|;
  }

  /** Firing one after the other leaves what stays in its order, followed by what fired in its order. */
  lemma {:induction false} FireAllIs(qs: seq<seq<Event>>, fired: seq<Event>)
    requires InQueues(qs) && Distinct(fired)
    ensures FireAll(qs, fired) == Served(qs, fired)
  {
    if fired == [] {
      forall p | 0 <= p < |qs| ensures Others(qs[p], []) + OfPri([], p) == qs[p] {
        OthersNone(qs[p]);
      }
    } else {
      hide InQueues, Distinct, FireAll, Fire, Served;
      var rest, last := fired[..|fired| - 1], fired[|fired| - 1];
      assert fired == rest + [last];
      DistinctStep(fired);
      FireAllStep(qs, rest, last);
      FireAllIs(qs, rest);
      ServedStep(qs, rest, last);
    }
  }

  lemma {:induction false} OthersDistinct(q: seq<Event>, ts: seq<Event>)
    requires Distinct(q)
    ensures Distinct(Others(q, ts)) && Distinct(Among(q, ts))
  {
    if q != [] {
      hide Distinct, Others, Among;
      var rest, last := q[..|q| - 1], q[|q| - 1];
      assert q == rest + [last];
      DistinctStep(q);
      OthersStep(rest, last, ts);
      OthersDistinct(rest, ts);
      OthersMembers(rest, ts);
      if last in ts {
        DistinctAppend(Among(rest, ts), last);
      } else {
        DistinctAppend(Others(rest, ts), last);
      }
    }
  }

  /**
   * The order in which events with these deadlines fire in one turn: those with a timeout of their own first, and of any
   * two with timeouts of their own, or of one common timeout, the earlier one first.
   */
  ghost predicate InTurn(due: map<Event, Deadline>, fired: seq<Event>) {
    && (forall i :: 0 <= i < |fired| ==> fired[i] in due)
    && (forall i, j :: 0 <= i < j < |fired| ==> Before(due[fired[i]], due[fired[j]]))
  }

  ghost predicate Before(a: Deadline, b: Deadline) {
    && (a.common == b.common ==> a.at <= b.at)
    && (b.common == -1 ==> a.common == -1)
  }

  /** The events of a common timeout, in their order, behind events of others. */
  lemma InTurnMore(due: map<Event, Deadline>, a: seq<Event>, b: seq<Event>, c: nat)
    requires InTurn(due, a) && InTurn(due, b)
    requires forall i :: 0 <= i < |a| ==> due[a[i]].common != c
    requires forall i :: 0 <= i < |b| ==> due[b[i]].common == c
    ensures InTurn(due, a + b)
  {
  }

  lemma {:induction false} OthersAll(q: seq<Event>, ts: seq<Event>)
    requires forall i :: 0 <= i < |q| ==> q[i] !in ts
    ensures Others(q, ts) == q
  {
    if q != [] {
      OthersAll(q[..|q| - 1], ts);
      assert q == q[..|q| - 1] + [q[|q| - 1]];
    }
  }

  lemma {:induction false} WithoutFirst(q: seq<Event>)
    requires q != [] && Distinct(q)
    ensures Without(q, q[0]) == q[1..]
  {
    if |q| > 1 {
      var n := |q| - 1;
      WithoutFirst(q[..n]);
      assert q[1..] == q[..n][1..] + [q[n]];
    }
  }

  // ---------- the events that are due ----------

  /** The events of a list that are due, in its order. */
  ghost function RipeOf(q: seq<Event>, now: int): seq<Event>
    reads q`deadline
  {
    if q == [] then [] else RipeOf(q[..|q| - 1], now) + if q[|q| - 1].deadline.at <= now then [q[|q| - 1]] else []
  }

  /** A list whose first k events are due, and no others. */
  lemma {:induction false} RipeSplit(q: seq<Event>, k: nat, now: int)
    requires k <= |q|
    requires forall i :: 0 <= i < |q| ==> (q[i].deadline.at <= now <==> i < k)
    ensures RipeOf(q, now) == q[..k]
  {
    if q != [] {
      var n := |q| - 1;
      RipeSplit(q[..n], if k <= n then k else n, now);
      if k <= n {
        assert q[..n][..k] == q[..k];
      } else {
        assert q[..k] == q[..n] + [q[n]];
      }
    }
  }

  lemma {:induction false} RipeMembers(q: seq<Event>, now: int)
    ensures forall e :: e in RipeOf(q, now) <==> e in q && e.deadline.at <= now
  {
    if q != [] {
      RipeMembers(q[..|q| - 1], now);
      assert q == q[..|q| - 1] + [q[|q| - 1]];
    }
  }

  lemma {:induction false} RipeDistinct(q: seq<Event>, now: int)
    requires Distinct(q)
    ensures Distinct(RipeOf(q, now))
  {
    if q != [] {
      DistinctStep(q);
      RipeDistinct(q[..|q| - 1], now);
      RipeMembers(q[..|q| - 1], now);
    }
  }

  lemma {:induction false} RipeAt(q: seq<Event>, now: int, i: nat)
    requires i < |RipeOf(q, now)|
    ensures RipeOf(q, now)[i] in q && RipeOf(q, now)[i].deadline.at <= now
  {
    if i < |RipeOf(q[..|q| - 1], now)| {
      RipeAt(q[..|q| - 1], now, i);
    }
  }

  twostate lemma {:induction false} RipeSame(q: seq<Event>, new now: int)
    requires forall i :: 0 <= i < |q| ==> q[i].deadline == old(q[i].deadline)
    ensures RipeOf(q, now) == old(RipeOf(q, now))
  {
    if q != [] {
      RipeSame(q[..|q| - 1], now);
    }
  }

  /** Where an event stands in ts. */
  function IndexIn(ts: seq<Event>, e: Event): (k: nat)
    requires e in ts
    ensures k < |ts| && ts[k] == e
  {
    if ts[|ts| - 1] == e then |ts| - 1 else IndexIn(ts[..|ts| - 1], e)
  }

  /** Which of ts are in q, in the order of q. */
  function Marks(q: seq<Event>, ts: seq<Event>): seq<nat> {
    if q == [] then [] else Marks(q[..|q| - 1], ts) + if q[|q| - 1] in ts then [IndexIn(ts, q[|q| - 1])] else []
  }

  lemma {:induction false} MarksHold(q: seq<Event>, ts: seq<Event>)
    requires Distinct(q)
    ensures forall k :: k in Marks(q, ts) ==> k < |ts| && ts[k] in q
    ensures forall e :: e in q && e in ts ==> IndexIn(ts, e) in Marks(q, ts)
    ensures forall i, j :: 0 <= i < j < |Marks(q, ts)| ==> Marks(q, ts)[i] != Marks(q, ts)[j]
  {
    if q != [] {
      var rest, last := q[..|q| - 1], q[|q| - 1];
      assert q == rest + [last];
      DistinctStep(q);
      MarksHold(rest, ts);
    }
  }

  lemma {:induction false} IndexUnique(ts: seq<Event>, k: nat)
    requires Distinct(ts) && k < |ts|
    ensures IndexIn(ts, ts[k]) == k
  {
    if k < |ts| - 1 {
      IndexUnique(ts[..|ts| - 1], k);
    }
  }

  // ---------- the same, of a table of deadlines ----------

  ghost function RipeIn(q: seq<Event>, due: map<Event, Deadline>, now: int): seq<Event> {
    if q == [] then []
    else
      var last := q[|q| - 1];
      RipeIn(q[..|q| - 1], due, now) + if last in due && due[last].at <= now then [last] else []
  }

  /** The due events of several lists, list by list. */
  ghost function RipeAll(lists: seq<seq<Event>>, cs: seq<nat>, due: map<Event, Deadline>, now: int): seq<Event> {
    if cs == [] then []
    else
      var last := cs[|cs| - 1];
      RipeAll(lists, cs[..|cs| - 1], due, now) + if last < |lists| then RipeIn(lists[last], due, now) else []
  }

  lemma {:induction false} RipeInIs(q: seq<Event>, due: map<Event, Deadline>, now: int)
    requires forall i :: 0 <= i < |q| ==> q[i] in due && due[q[i]] == q[i].deadline
    ensures RipeIn(q, due, now) == RipeOf(q, now)
  {
    if q != [] {
      RipeInIs(q[..|q| - 1], due, now);
    }
  }

  lemma {:induction false} RipeAgree(q: seq<Event>, a: map<Event, Deadline>, b: map<Event, Deadline>, now: int)
    requires forall i :: 0 <= i < |q| ==> q[i] in a && q[i] in b && a[q[i]] == b[q[i]]
    ensures RipeIn(q, a, now) == RipeIn(q, b, now)
  {
    if q != [] {
      RipeAgree(q[..|q| - 1], a, b, now);
    }
  }

  lemma {:induction false} RipeAllAgree(lists: seq<seq<Event>>, cs: seq<nat>, a: map<Event, Deadline>, b: map<Event, Deadline>, now: int)
    requires forall c, i :: 0 <= c < |lists| && 0 <= i < |lists[c]| ==>
      lists[c][i] in a && lists[c][i] in b && a[lists[c][i]] == b[lists[c][i]]
    ensures RipeAll(lists, cs, a, now) == RipeAll(lists, cs, b, now)
  {
    if cs != [] {
      RipeAllAgree(lists, cs[..|cs| - 1], a, b, now);
      if cs[|cs| - 1] < |lists| {
        RipeAgree(lists[cs[|cs| - 1]], a, b, now);
      }
    }
  }

  lemma RipeNone(lists: seq<seq<Event>>, due: map<Event, Deadline>, now: int)
    ensures RipeAll(lists, [], due, now) == []
  {
  }

  lemma RipeAllStep(lists: seq<seq<Event>>, cs: seq<nat>, c: nat, due: map<Event, Deadline>, now: int)
    requires c < |lists|
    ensures RipeAll(lists, cs + [c], due, now) == RipeAll(lists, cs, due, now) + RipeIn(lists[c], due, now)
  {
    assert (cs + [c])[..|cs|] == cs;
  }

  lemma {:induction false} RipeInHolds(q: seq<Event>, due: map<Event, Deadline>, now: int)
    requires Distinct(q)
    ensures Distinct(RipeIn(q, due, now))
    ensures forall e :: e in RipeIn(q, due, now) <==> e in q && e in due && due[e].at <= now
  {
    if q != [] {
      hide Distinct;
      var rest, last := q[..|q| - 1], q[|q| - 1];
      assert q == rest + [last];
      DistinctStep(q);
      RipeInHolds(rest, due, now);
      if last in due && due[last].at <= now {
        DistinctAppend(RipeIn(rest, due, now), last);
      }
    }
  }

  lemma {:induction false} RipeInTurn(q: seq<Event>, due: map<Event, Deadline>, now: int)
    requires InTurn(due, q)
    ensures InTurn(due, RipeIn(q, due, now))
    ensures forall i :: 0 <= i < |RipeIn(q, due, now)| ==> RipeIn(q, due, now)[i] in q
  {
    if q != [] {
      var rest, last := q[..|q| - 1], q[|q| - 1];
      assert q == rest + [last];
      RipeInTurn(rest, due, now);
      forall i | 0 <= i < |RipeIn(rest, due, now)| ensures Before(due[RipeIn(rest, due, now)[i]], due[last]) {
        var k :| 0 <= k < |rest| && rest[k] == RipeIn(rest, due, now)[i];
        assert q[k] == rest[k] && q[|q| - 1] == last;
      }
    }
  }

  /** These are the lists, each in order, of the events with a common timeout in a table of deadlines. */
  ghost predicate ListsOf(lists: seq<seq<Event>>, due: map<Event, Deadline>) {
    && (forall c :: 0 <= c < |lists| ==> Distinct(lists[c]) && InTurn(due, lists[c]))
    && (forall c, i :: 0 <= c < |lists| && 0 <= i < |lists[c]| ==> lists[c][i] in due && due[lists[c][i]].common == c)
    && (forall e :: e in due && 0 <= due[e].common < |lists| ==> e in lists[due[e].common])
  }

  lemma OfLists(lists: seq<seq<Event>>, due: map<Event, Deadline>, c: nat)
    requires ListsOf(lists, due) && c < |lists|
    ensures forall i :: 0 <= i < |lists[c]| ==> lists[c][i] in due
  {
  }

  lemma NextMark(order: seq<nat>, k: nat)
    requires k < |order| && forall i, j :: 0 <= i < j < |order| ==> order[i] != order[j]
    ensures order[k] !in order[..k] && forall x :: x in order[..k + 1] <==> x in order[..k] || x == order[k]
  {
    assert order[..k + 1] == order[..k] + [order[k]];
  }

  lemma {:induction false} RipeAllHolds(lists: seq<seq<Event>>, cs: seq<nat>, due: map<Event, Deadline>, now: int)
    requires ListsOf(lists, due) && (forall i, j :: 0 <= i < j < |cs| ==> cs[i] != cs[j])
    requires forall i :: 0 <= i < |cs| ==> cs[i] < |lists|
    ensures Distinct(RipeAll(lists, cs, due, now)) && InTurn(due, RipeAll(lists, cs, due, now))
    ensures forall e :: e in RipeAll(lists, cs, due, now) <==>
      e in due && due[e].at <= now && exists i :: 0 <= i < |cs| && due[e].common == cs[i]
  {
    if cs != [] {
      var rest, c := cs[..|cs| - 1], cs[|cs| - 1];
      assert cs == rest + [c];
      RipeAllHolds(lists, rest, due, now);
      RipeInHolds(lists[c], due, now);
      RipeInTurn(lists[c], due, now);
      JoinLists(lists, rest, c, due, now);
    }
  }

  lemma JoinLists(lists: seq<seq<Event>>, rest: seq<nat>, c: nat, due: map<Event, Deadline>, now: int)
    requires ListsOf(lists, due) && c < |lists| && forall i :: 0 <= i < |rest| ==> rest[i] != c
    requires var a := RipeAll(lists, rest, due, now); Distinct(a) && InTurn(due, a)
    requires forall e :: e in RipeAll(lists, rest, due, now) <==>
      e in due && due[e].at <= now && exists i :: 0 <= i < |rest| && due[e].common == rest[i]
    requires var b := RipeIn(lists[c], due, now); Distinct(b) && InTurn(due, b)
    requires forall e :: e in RipeIn(lists[c], due, now) <==> e in lists[c] && e in due && due[e].at <= now
    ensures var r := RipeAll(lists, rest + [c], due, now); Distinct(r) && InTurn(due, r)
    ensures forall e :: e in RipeAll(lists, rest + [c], due, now) <==>
      e in due && due[e].at <= now && exists i :: 0 <= i < |rest + [c]| && due[e].common == (rest + [c])[i]
  {
    hide RipeAll, RipeIn;
    RipeAllStep(lists, rest, c, due, now);
    var a, b := RipeAll(lists, rest, due, now), RipeIn(lists[c], due, now);
    forall i | 0 <= i < |a| ensures due[a[i]].common != c {
      assert a[i] in a;
    }
    forall i | 0 <= i < |b| ensures due[b[i]].common == c {
      assert b[i] in b;
    }
    InTurnMore(due, a, b, c);
    DistinctJoin(a, b, due, c);
    forall e | e in due && due[e].at <= now
      ensures e in a + b <==> exists i :: 0 <= i < |rest + [c]| && due[e].common == (rest + [c])[i]
    {
      if e in a {
        var i :| 0 <= i < |rest| && due[e].common == rest[i];
        assert (rest + [c])[i] == rest[i];
      } else if e in b {
        assert (rest + [c])[|rest|] == c;
      }
      if i :| 0 <= i < |rest + [c]| && due[e].common == (rest + [c])[i] {
        assert i < |rest| ==> due[e].common == rest[i];
        assert i == |rest| ==> due[e].common == c && e in lists[c];
      }
    }
  }

  lemma DistinctJoin(a: seq<Event>, b: seq<Event>, due: map<Event, Deadline>, c: int)
    requires Distinct(a) && Distinct(b)
    requires forall i :: 0 <= i < |a| ==> a[i] in due && due[a[i]].common != c
    requires forall i :: 0 <= i < |b| ==> b[i] in due && due[b[i]].common == c
    ensures Distinct(a + b)
  {
  }

  // ---------- one turn ----------

  ghost function Members(es: seq<Event>): set<Event> {
    set e | e in es
  }

  /** The events whose deadline has passed. */
  ghost function Overdue(due: map<Event, Deadline>, now: int): set<Event> {
    set e | e in due && due[e].at <= now
  }

  lemma {:induction false} HeapInTurn(heap: seq<Event>, ts: seq<Event>, due: map<Event, Deadline>)
    requires Distinct(heap)
    requires forall i :: 0 <= i < |heap| && heap[i] !in ts ==> heap[i] in due && due[heap[i]].common == -1
    requires forall i, j :: 0 <= i < j < |heap| && heap[i] !in ts && heap[j] !in ts ==> due[heap[i]].at <= due[heap[j]].at
    ensures Distinct(Others(heap, ts)) && InTurn(due, Others(heap, ts))
    ensures forall i :: 0 <= i < |Others(heap, ts)| ==> Others(heap, ts)[i] in due && due[Others(heap, ts)[i]].common == -1
  {
    OthersDistinct(heap, ts);
    if heap != [] {
      var rest, last := heap[..|heap| - 1], heap[|heap| - 1];
      DistinctStep(heap);
      HeapInTurn(rest, ts, due);
      if last !in ts {
        forall i | 0 <= i < |Others(rest, ts)| ensures Before(due[Others(rest, ts)[i]], due[last]) {
          OthersAt(rest, ts, i);
          OthersMembers(rest, ts);
          assert Others(rest, ts)[i] in Others(rest, ts);
          var k :| 0 <= k < |rest| && rest[k] == Others(rest, ts)[i];
          assert heap[k] == rest[k];
        }
      }
    }
  }

  lemma HeapThenLists(due: map<Event, Deadline>, a: seq<Event>, b: seq<Event>)
    requires Distinct(a) && InTurn(due, a) && Distinct(b) && InTurn(due, b)
    requires forall i :: 0 <= i < |a| ==> due[a[i]].common == -1
    requires forall i :: 0 <= i < |b| ==> due[b[i]].common != -1
    ensures Distinct(a + b) && InTurn(due, a + b)
  {
  }

  /** The due events of the heap and then those of the lists: all that are due, once each, in turn. */
  lemma TurnOrder(heap: seq<Event>, ts: seq<Event>, lists: seq<seq<Event>>, cs: seq<nat>, due: map<Event, Deadline>, now: int)
    requires ListsOf(lists, due) && (forall i, j :: 0 <= i < j < |cs| ==> cs[i] != cs[j])
    requires (forall i :: 0 <= i < |cs| ==> cs[i] < |lists|) && Distinct(heap)
    requires forall i :: 0 <= i < |heap| && heap[i] !in ts ==> heap[i] in due && due[heap[i]].common == -1 && due[heap[i]].at <= now
    requires forall i, j :: 0 <= i < j < |heap| && heap[i] !in ts && heap[j] !in ts ==> due[heap[i]].at <= due[heap[j]].at
    requires forall e :: e in due && due[e].at <= now ==> if due[e].common == -1 then e in heap && e !in ts else due[e].common in cs
    ensures var fired := Others(heap, ts) + RipeAll(lists, cs, due, now); Distinct(fired) && InTurn(due, fired)
    ensures Members(Others(heap, ts) + RipeAll(lists, cs, due, now)) == Overdue(due, now)
  {
    hide ListsOf, RipeAll, Others, InTurn, Distinct, Members;
    var a, b := Others(heap, ts), RipeAll(lists, cs, due, now);
    HeapInTurn(heap, ts, due);
    OthersMembers(heap, ts);
    RipeAllHolds(lists, cs, due, now);
    forall i | 0 <= i < |b| ensures b[i] in due && due[b[i]].common != -1 {
      assert b[i] in b;
    }
    HeapThenLists(due, a, b);
    MembersAre(a + b, Overdue(due, now));
  }

  lemma MembersAre(es: seq<Event>, s: set<Event>)
    requires forall e :: e in es <==> e in s
    ensures Members(es) == s
  {
  }
}

/** The round-robin ring of nameservers (libevent/evdns.c). */
module DnsServers {

  class Nameserver {
    var next: Nameserver?
    var prev: Nameserver?
    /** state: zero if we think that the server is down. */
    var up: bool
    var failedTimes: nat

    constructor ()
      ensures up
    {
      next, prev, up, failedTimes := null, null, true, 0;
    }
  }

  /** The servers of a list that are up, in order. */
  ghost function Ups(rs: seq<Nameserver>): seq<Nameserver>
    reads rs`up
  {
    if rs == [] then [] else Ups(rs[..|rs| - 1]) + if rs[|rs| - 1].up then [rs[|rs| - 1]] else []
  }

  lemma {:induction false} UpsConcat(a: seq<Nameserver>, b: seq<Nameserver>)
    ensures Ups(a + b) == Ups(a) + Ups(b)
  {
    if b == [] {
      assert a + b == a;
    } else {
      var n := |b| - 1;
      assert (a + b)[..|a + b| - 1] == a + b[..n];
      UpsConcat(a, b[..n]);
    }
  }

  lemma {:induction false} UpsNone(a: seq<Nameserver>)
    requires forall k :: 0 <= k < |a| ==> !a[k].up
    ensures Ups(a) == []
  {
    if a != [] {
      UpsNone(a[..|a| - 1]);
    }
  }

  lemma {:induction false} UpsMembers(a: seq<Nameserver>)
    ensures forall s :: s in Ups(a) <==> s in a && s.up
  {
    if a != [] {
      UpsMembers(a[..|a| - 1]);
      assert a == a[..|a| - 1] + [a[|a| - 1]];
    }
  }

  lemma {:induction false} UpsDistinct(a: seq<Nameserver>)
    requires forall i, j :: 0 <= i < j < |a| ==> a[i] != a[j]
    ensures var u := Ups(a); forall i, j :: 0 <= i < j < |u| ==> u[i] != u[j]
  {
    if a != [] {
      var n := |a| - 1;
      UpsDistinct(a[..n]);
      UpsMembers(a[..n]);
      assert a[n] !in a[..n];
      assert a[n] !in Ups(a[..n]);
    }
  }

  /** A list begun at position k. */
  ghost function Rotated(rs: seq<Nameserver>, k: nat): (r: seq<Nameserver>)
    requires k <= |rs|
    ensures |r| == |rs|
  {
    rs[k..] + rs[..k]
  }

  lemma RotatedMore(rs: seq<Nameserver>, k: nat)
    requires k < |rs|
    ensures Rotated(rs, 0) == rs && Rotated(rs, k) != [] && Rotated(rs, k)[0] == rs[k]
    ensures Rotated(Rotated(rs, k), 1) == Rotated(rs, k + 1)
  {
  }

  lemma UpsRotated(rs: seq<Nameserver>, k: nat)
    requires k <= |rs|
    ensures |Ups(Rotated(rs, k))| == |Ups(rs)|
  {
    assert rs == rs[..k] + rs[k..];
    UpsConcat(rs[..k], rs[k..]);
    UpsConcat(rs[k..], rs[..k]);
  }

  /** A server goes down or comes back up. */
  lemma UpsChange(a: seq<Nameserver>, s: Nameserver, b: seq<Nameserver>)
    ensures |Ups(a + [s] + b)| == |Ups(a)| + |Ups(b)| + if s.up then 1 else 0
  {
    UpsConcat(a + [s], b);
    UpsConcat(a, [s]);
    assert [s][..0] == [];
  }

  lemma UpsInserted(a: seq<Nameserver>, s: Nameserver, b: seq<Nameserver>)
    requires s.up
    ensures |Ups(a + [s] + b)| == |Ups(a + b)| + 1
  {
    UpsChange(a, s, b);
    UpsConcat(a, b);
  }

  lemma OneMoreUp(rs: seq<Nameserver>, ns: Nameserver)
    requires ns.up
    ensures |Ups(if rs == [] then [ns] else [rs[0], ns] + rs[1..])| == |Ups(rs)| + 1
  {
    hide Ups;
    var n := if rs == [] then 0 else 1;
    UpsInserted(rs[..n], ns, rs[n..]);
    assert rs[..n] + rs[n..] == rs;
    assert rs[..n] + [ns] + rs[n..] == if rs == [] then [ns] else [rs[0], ns] + rs[1..];
  }

  ghost predicate Linked(head: Nameserver?, rs: seq<Nameserver>)
    reads rs`next, rs`prev
  {
    && (head == null <==> rs == [])
    && (rs != [] ==> head == rs[0] && rs[0].prev == rs[|rs| - 1] && rs[|rs| - 1].next == rs[0])
    && (forall i, j :: 0 <= i < |rs| && j == i + 1 < |rs| ==> rs[i].next == rs[j] && rs[j].prev == rs[i])
    && (forall i, j :: 0 <= i < j < |rs| ==> rs[i] != rs[j])
  }

  class Servers {
    var head: Nameserver?
    /** global_good_nameservers. */
    var good: int
    /** The ring, begun at the head. */
    ghost var ring: seq<Nameserver>

    ghost predicate Valid()
      reads this, ring`next, ring`prev, ring`up
    {
      Linked(head, ring) && good == |Ups(ring)|
    }

    constructor ()
      ensures Valid() && ring == []
    {
      head, good, ring := null, 0, [];
    }

    /** The tail of evdns_nameserver_add_impl: behind the head. */
    method Add(ns: Nameserver)
      requires Valid() && ns !in ring && ns.up
      modifies this, ring`next, ring`prev, ns`next, ns`prev
      ensures Valid() && good == old(good) + 1
      ensures ring == if old(ring) == [] then [ns] else [old(ring)[0], ns] + old(ring)[1..]
    {
      hide Ups;
      OneMoreUp(ring, ns);
      if head == null {
        ns.next, ns.prev := ns, ns;
        head := ns;
        ring := [ns];
      } else {
        LinkBehindHead(ns);
        ring := [ring[0], ns] + ring[1..];
      }
      good := good + 1;
    }

    /** The links of a server that goes in behind the head. */
    method LinkBehindHead(ns: Nameserver)
      requires Linked(head, ring) && ring != [] && ns !in ring
      modifies ring`next, ring`prev, ns`next, ns`prev
      ensures Linked(head, [ring[0], ns] + ring[1..])
    {
      assert |ring| > 1 ==> ring[0].next == ring[1];
      ns.next := head.next;
      ns.prev := head;
      head.next := ns;
      ns.next.prev := ns;
    }

    /** The server that comes round first. */
    method Advance()
      requires Valid() && ring != []
      modifies this`head, this`ring
      ensures Valid() && ring == Rotated(old(ring), 1) && ring != [] && head == ring[0]
    {
      UpsRotated(ring, 1);
      assert |ring| > 1 ==> ring[0].next == ring[1];
      head := head.next;
      ring := Rotated(ring, 1);
    }

    /** nameserver_pick: the first server that is up, from the head on, and the head moves behind it. */
    method Pick() returns (picked: Nameserver?, ghost i: nat)
      requires Valid()
      modifies this`head, this`ring
      ensures Valid()
      ensures old(ring) == [] ==> picked == null && ring == []
      ensures old(ring) != [] && good == 0 ==> ring == Rotated(old(ring), 1) && picked == ring[0]
      ensures good > 0 ==>
        && i < |old(ring)| && picked == old(ring)[i] && picked.up && ring == Rotated(old(ring), i + 1)
        && forall k :: 0 <= k < i ==> !old(ring)[k].up
    {
      hide Linked, Ups, Rotated;
      i, picked := 0, null;
      HeadIsFirst();
      if head == null {
        return;
      }
      if good == 0 {
        Advance();
        picked := head;
        return;
      }
      ghost var was := ring;
      SomeUp();
      RotatedMore(was, 0);
      while !head.up
        invariant Valid() && good > 0 && i < |was| && ring == Rotated(was, i) && head == was[i]
        invariant forall k :: 0 <= k < i ==> !was[k].up
        invariant exists k :: 0 <= k < |was| && was[k].up
        decreases |was| - i
      {
        RotatedMore(was, i);
        RotatedMore(was, if i + 1 < |was| then i + 1 else i);
        Advance();
        i := i + 1;
      }
      RotatedMore(was, i);
      picked := head;
      Advance();
    }

    /** Any number of picks while nothing changes: the servers that are up in turn, over and over. */
    method PickMany(n: nat) returns (picks: seq<Nameserver>, ghost k: nat)
      requires Valid() && good > 0
      modifies this`head, this`ring
      ensures Valid() && good == |Ups(old(ring))| && |picks| == n && InTurn(picks, Ups(old(ring)))
      ensures k <= |old(ring)| && ring == Rotated(old(ring), k) && (n == 0 ==> ring == old(ring))
    {
      hide Linked, Ups, Rotated, InTurn;
      ghost var was, u := ring, Ups(ring);
      picks, k := [], 0;
      SomeUp();
      RotatedMore(was, 0);
      NoTurns(u);
      while |picks| < n
        invariant Valid() && good == |u| && |picks| <= n && k <= |was| && ring == Rotated(was, k) && (picks == [] ==> ring == was)
        invariant InTurn(picks + Ups(ring), u)
      {
        ghost var r := ring;
        var s, i := Pick();
        PickTurns(r, i);
        OneMoreTurn(picks, Ups(r), u);
        k := RotatedSum(was, k, i + 1);
        picks := picks + [s];
      }
      TurnsSoFar(picks, Ups(ring), u);
    }

    lemma HeadIsFirst()
      requires Valid()
      ensures (head == null <==> ring == []) && (ring != [] ==> head == ring[0]) && (ring == [] ==> good == 0)
    {
    }

    lemma SomeUp()
      requires Valid() && good > 0
      ensures exists k :: 0 <= k < |ring| && ring[k].up
    {
      if forall k :: 0 <= k < |ring| ==> !ring[k].up {
        UpsNone(ring);
      }
    }

    /** nameserver_failed: the count goes down once, and the requests that wait for the server are given others in turn. */
    method Failed(ns: Nameserver, reassigned: nat) returns (picks: seq<Nameserver>)
      requires Valid() && ns in ring
      modifies this, ns`up, ns`failedTimes
      ensures Valid() && !ns.up && good == old(good) - (if old(ns.up) then 1 else 0)
      ensures ns.failedTimes == if old(ns.up) then 1 else old(ns.failedTimes)
      ensures good == 0 || old(!ns.up) || reassigned == 0 ==> ring == old(ring) && picks == []
      ensures exists k :: 0 <= k <= |old(ring)| && ring == Rotated(old(ring), k)
      ensures good > 0 && old(ns.up) ==> |picks| == reassigned && InTurn(picks, Ups(old(ring))) && ns !in Ups(old(ring))
    {
      hide Linked, Ups, Rotated, InTurn;
      picks := [];
      RotatedMore(ring, 0);
      if !ns.up {
        return;
      }
      SetState(ns, false);
      ns.failedTimes := 1;
      UpsMembers(ring);
      if good == 0 {
        return;
      }
      ghost var k;
      picks, k := PickMany(reassigned);
    }

    /** nameserver_up. */
    method Up(ns: Nameserver)
      requires Valid() && ns in ring
      modifies this, ns`up, ns`failedTimes
      ensures Valid() && ns.up && good == old(good) + (if old(ns.up) then 0 else 1) && ring == old(ring)
      ensures ns.failedTimes == if old(ns.up) then old(ns.failedTimes) else 0
    {
      if ns.up {
        return;
      }
      hide Linked, Ups;
      SetState(ns, true);
      ns.failedTimes := 0;
    }

    /** Change what we think of a server, and the count with it. */
    method SetState(ns: Nameserver, up: bool)
      requires Valid() && ns in ring && ns.up != up
      modifies this`good, ns`up
      ensures Valid() && ns.up == up && good == old(good) + if up then 1 else -1
    {
      hide Linked, Ups;
      ghost var k :| 0 <= k < |ring| && ring[k] == ns;
      SplitApart(k);
      ghost var a, b := ring[..k], ring[k + 1..];
      assert ring == a + [ns] + b;
      UpsChange(a, ns, b);
      ns.up := up;
      good := if up then good + 1 else good - 1;
      UpsChange(a, ns, b);
    }

    lemma SplitApart(k: nat)
      requires Valid() && k < |ring|
      ensures ring[k] !in ring[..k] && ring[k] !in ring[k + 1..]
    {
    }

    /** As many picks as there are servers up: each of them once, in the order of the ring. */
    method PickRound() returns (picks: seq<Nameserver>)
      requires Valid()
      modifies this`head, this`ring
      ensures Valid() && picks == Ups(old(ring)) && |picks| == good
    {
      picks := [];
      if good > 0 {
        ghost var u := Ups(ring);
        var ps, _ := PickMany(good);
        picks := ps;
        OneRound(ps, u);
      }
    }
  }

  ghost predicate TurnAt(picks: seq<Nameserver>, u: seq<Nameserver>, i: nat)
    requires u != [] && i < |picks|
  {
    picks[i] == if i < |u| then u[i] else picks[i - |u|]
  }

  /** Picks that go through a list again and again. */
  ghost predicate InTurn(picks: seq<Nameserver>, u: seq<Nameserver>) {
    u != [] && forall i :: 0 <= i < |picks| ==> TurnAt(picks, u, i)
  }

  lemma NoTurns(u: seq<Nameserver>)
    ensures u != [] ==> InTurn([] + u, u)
  {
  }

  lemma OneMoreTurn(picks: seq<Nameserver>, t: seq<Nameserver>, u: seq<Nameserver>)
    requires |t| == |u| > 0 && InTurn(picks + t, u)
    ensures InTurn(picks + [t[0]] + (t[1..] + [t[0]]), u)
  {
    var e := picks + t;
    var f := e + [e[|picks|]];
    assert picks + [t[0]] + (t[1..] + [t[0]]) == f;
    forall i | 0 <= i < |f| ensures TurnAt(f, u, i) {
      assert i < |e| ==> TurnAt(e, u, i);
    }
  }

  lemma TurnsSoFar(picks: seq<Nameserver>, t: seq<Nameserver>, u: seq<Nameserver>)
    requires InTurn(picks + t, u)
    ensures InTurn(picks, u)
  {
    forall i | 0 <= i < |picks| ensures TurnAt(picks, u, i) {
      assert TurnAt(picks + t, u, i);
    }
  }

  lemma OneRound(picks: seq<Nameserver>, u: seq<Nameserver>)
    requires InTurn(picks, u) && |picks| == |u|
    ensures picks == u
  {
    forall i | 0 <= i < |picks| ensures picks[i] == u[i] {
      assert TurnAt(picks, u, i);
    }
  }

  /** A pick takes the first server that is up and puts it behind the others. */
  lemma PickTurns(rs: seq<Nameserver>, i: nat)
    requires i < |rs| && rs[i].up && forall k :: 0 <= k < i ==> !rs[k].up
    ensures Ups(rs) != [] && Ups(rs)[0] == rs[i] && Ups(Rotated(rs, i + 1)) == Ups(rs)[1..] + [rs[i]]
  {
    hide Ups;
    var a, b := rs[..i], rs[i + 1..];
    UpsNone(a);
    UpsOne(rs[i]);
    assert rs == a + [rs[i]] + b;
    UpsConcat(a + [rs[i]], b);
    UpsConcat(a, [rs[i]]);
    assert Rotated(rs, i + 1) == b + (a + [rs[i]]);
    UpsConcat(b, a + [rs[i]]);
  }

  /** Two turns of the ring are one. */
  lemma RotatedSum(rs: seq<Nameserver>, k: nat, i: nat) returns (r: nat)
    requires k <= |rs| && i <= |rs|
    ensures r <= |rs| && Rotated(Rotated(rs, k), i) == Rotated(rs, r)
    ensures k + i <= |rs| ==> r == k + i
  {
    r := if k + i <= |rs| then k + i else k + i - |rs|;
  }

  lemma UpsOne(ns: Nameserver)
    requires ns.up
    ensures Ups([ns]) == [ns]
  {
    assert [ns][..0] == [];
  }

  /** In a round no server comes twice, and it is the servers that are up which come. */
  lemma RoundIsFair(rs: seq<Nameserver>)
    requires forall i, j :: 0 <= i < j < |rs| ==> rs[i] != rs[j]
    ensures var u := Ups(rs);
      && (forall i, j :: 0 <= i < j < |u| ==> u[i] != u[j])
      && (forall s :: s in u <==> s in rs && s.up)
  {
    UpsDistinct(rs);
    UpsMembers(rs);
  }
}

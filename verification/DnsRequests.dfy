/** The in-flight and waiting requests of a resolver (libevent/evdns.c). */
module DnsRequests {

  class Request {
    var transId: nat
    var next: Request?
    var prev: Request?
    /** The list the request is on. */
    ghost var home: RequestList?

    constructor (transId: nat)
      ensures this.transId == transId && home == null
    {
      this.transId, next, prev, home := transId, null, null, null;
    }
  }

  /** All but the k-th. */
  ghost function Less(rs: seq<Request>, k: nat): (less: seq<Request>)
    requires k < |rs|
    ensures |less| == |rs| - 1
    ensures forall i {:trigger less[i]} :: 0 <= i < |less| ==> less[i] == if i < k then rs[i] else rs[i + 1]
  {
    rs[..k] + rs[k + 1..]
  }

  ghost predicate NoRepeat(rs: seq<Request>) {
    forall i, j :: 0 <= i < j < |rs| ==> rs[i] != rs[j]
  }

  lemma LessDistinct(rs: seq<Request>, k: nat)
    requires k < |rs| && NoRepeat(rs)
    ensures NoRepeat(Less(rs, k)) && forall i :: 0 <= i < |rs| && i != k ==> rs[i] != rs[k]
  {
  }

  /** Linked in a circle, both ways. */
  ghost predicate Ring(rs: seq<Request>)
    reads rs`next, rs`prev
  {
    && (rs != [] ==> rs[0].prev == rs[|rs| - 1] && rs[|rs| - 1].next == rs[0])
    && (forall i, j :: 0 <= i < |rs| && j == i + 1 < |rs| ==> rs[i].next == rs[j] && rs[j].prev == rs[i])
  }

  lemma RingAt(rs: seq<Request>, k: nat)
    requires Ring(rs) && k < |rs|
    ensures rs[k].next == rs[if k + 1 < |rs| then k + 1 else 0] && rs[k].prev == rs[if k > 0 then k - 1 else |rs| - 1]
  {
    assert k > 0 ==> rs[k - 1].next == rs[k];
    assert k + 1 < |rs| ==> rs[k].next == rs[k + 1];
  }

  /** What a removal leaves in the circle. */
  twostate lemma RingLess(rs: seq<Request>, new k: nat)
    requires k < |rs| && old(Ring(rs)) && NoRepeat(rs)
    requires |rs| > 1 ==> old(rs[k].prev != null && rs[k].next != null)
    requires |rs| > 1 ==> old(rs[k].prev).next == old(rs[k].next) && old(rs[k].next).prev == old(rs[k].prev)
    requires forall i :: 0 <= i < |rs| && i != k && rs[i] != old(rs[k].prev) ==> rs[i].next == old(rs[i].next)
    requires forall i :: 0 <= i < |rs| && i != k && rs[i] != old(rs[k].next) ==> rs[i].prev == old(rs[i].prev)
    ensures Ring(Less(rs, k))
  {
    hide Less;
    RingAtOld(rs, k);
    var less := Less(rs, k);
    forall i, j | 0 <= i < |less| && j == i + 1 < |less|
      ensures less[i].next == less[j] && less[j].prev == less[i]
    {
    }
  }

  twostate lemma RingAtOld(rs: seq<Request>, new k: nat)
    requires old(Ring(rs)) && k < |rs|
    ensures old(rs[k].next) == rs[if k + 1 < |rs| then k + 1 else 0]
    ensures old(rs[k].prev) == rs[if k > 0 then k - 1 else |rs| - 1]
  {
    assert k > 0 ==> old(rs[k - 1].next) == rs[k];
    assert k + 1 < |rs| ==> old(rs[k].next) == rs[k + 1];
  }

  /** A circular, doubly linked list known by a pointer to its first request. */
  class RequestList {
    var head: Request?
    /** Its requests in order. */
    ghost var rs: seq<Request>

    ghost predicate Valid()
      reads this, rs`next, rs`prev, rs`home
    {
      && (head == null <==> rs == [])
      && (rs != [] ==> head == rs[0])
      && Ring(rs)
      && NoRepeat(rs)
      && (forall i :: 0 <= i < |rs| ==> rs[i].home == this)
    }

    constructor ()
      ensures Valid() && rs == []
    {
      head, rs := null, [];
    }

    /** Once around the list. */
    method Find(transId: nat) returns (req: Request?)
      requires Valid()
      ensures req == null ==> forall r :: r in rs ==> r.transId != transId
      ensures req != null ==> req in rs && req.transId == transId
    {
      req := head;
      ghost var i := 0;
      while req != null && req.transId != transId
        invariant req == null ==> forall k :: 0 <= k < |rs| ==> rs[k].transId != transId
        invariant req != null ==> i < |rs| && req == rs[i] && forall k :: 0 <= k < i ==> rs[k].transId != transId
        decreases req != null, |rs| - i
      {
        assert i + 1 < |rs| ==> rs[i].next == rs[i + 1];
        req, i := if req.next == head then null else req.next, i + 1;
      }
    }

    /** evdns_request_insert: at the tail. */
    method Insert(req: Request)
      requires Valid() && req.home == null
      modifies this, rs`next, rs`prev, req`next, req`prev, req`home
      ensures Valid() && rs == old(rs) + [req] && req.home == this
    {
      if head == null {
        head := req;
        req.next, req.prev := req, req;
      } else {
        req.prev := head.prev;
        req.prev.next := req;
        req.next := head;
        head.prev := req;
      }
      req.home := this;
      rs := rs + [req];
    }

    /** evdns_request_remove. */
    method Remove(req: Request, ghost k: nat)
      requires Valid() && k < |rs| && rs[k] == req
      modifies this, rs`next, rs`prev, req`home
      ensures Valid() && rs == Less(old(rs), k)
      ensures req.home == null && req.next == null && req.prev == null && forall i :: 0 <= i < |rs| ==> rs[i].home == this
    {
      hide Ring, NoRepeat, Less;
      LessDistinct(rs, k);
      RingAt(rs, k);
      if req.next == req {
        head := null;
      } else {
        req.next.prev := req.prev;
        req.prev.next := req.next;
        if head == req {
          head := req.next;
        }
      }
      req.next, req.prev := null, null;
      req.home := null;
      RingLess(rs, k);
      rs := Less(rs, k);
    }
  }

  ghost predicate DistinctLists(hs: seq<RequestList>) {
    forall i, j :: 0 <= i < j < |hs| ==> hs[i] != hs[j]
  }

  ghost predicate ApartLists(hs: seq<RequestList>, news: seq<RequestList>) {
    forall h :: h in hs ==> h !in news
  }

  /** REQ_HEAD: which of n lists an id belongs to. */
  function Bucket(id: nat, n: nat): (b: nat)
    requires n > 0
    ensures b < n
  {
    id % n
  }

  ghost function Elems(rs: seq<Request>): set<Request> {
    set r | r in rs
  }

  /** The requests from the m-th on, and those before it. */
  ghost function From(rs: seq<Request>, m: nat): seq<Request>
    requires m <= |rs|
  {
    rs[m..]
  }

  ghost function UpTo(rs: seq<Request>, m: nat): set<Request>
    requires m <= |rs|
  {
    Elems(rs[..m])
  }

  lemma Cut(rs: seq<Request>, m: nat)
    requires m <= |rs|
    ensures From(rs, m) == rs[m..] && UpTo(rs, m) == Elems(rs[..m])
    ensures From(rs, 0) == rs && UpTo(rs, 0) == {}
  {
  }

  lemma OneFurther(rs: seq<Request>, m: nat, fs: set<Request>)
    requires m < |rs|
    ensures var tail := From(rs, m); tail != [] && tail[0] == rs[m] && tail[1..] == From(rs, m + 1)
    ensures fs + UpTo(rs, m + 1) == fs + UpTo(rs, m) + {rs[m]}
    ensures (forall i :: 0 <= i < |From(rs, m)| ==> From(rs, m)[i] in rs) && forall r :: r in UpTo(rs, m) ==> r in rs
  {
    assert rs[..m + 1] == rs[..m] + [rs[m]];
  }

  lemma ElemsSplit(rs: seq<Request>, m: nat)
    requires m <= |rs|
    ensures Elems(rs) == Elems(rs[..m]) + Elems(rs[m..])
  {
    assert rs == rs[..m] + rs[m..];
  }

  lemma ElemsLess(rs: seq<Request>, k: nat)
    requires k < |rs| && NoRepeat(rs)
    ensures Elems(Less(rs, k)) == Elems(rs) - {rs[k]}
    ensures var less := Less(rs, k); forall i :: 0 <= i < |less| ==> less[i] in rs
  {
    var less := Less(rs, k);
    forall r | r in rs && r != rs[k] ensures r in less {
      var i :| 0 <= i < |rs| && rs[i] == r;
      assert less[if i < k then i else i - 1] == r;
    }
  }

  ghost predicate IdsDistinct(rs: set<Request>)
    reads rs`transId
  {
    forall r, q :: r in rs && q in rs && r.transId == q.transId ==> r == q
  }

  lemma OneMoreId(rs: set<Request>, req: Request)
    requires IdsDistinct(rs) && forall r :: r in rs ==> r.transId != req.transId
    ensures IdsDistinct(rs + {req})
  {
  }

  lemma OneIdLess(rs: set<Request>, req: Request)
    requires IdsDistinct(rs)
    ensures IdsDistinct(rs - {req})
  {
  }

  /** The request queues of struct evdns_base. */
  class RequestBase {
    /** req_heads: request r is in heads[Bucket(r.transId, |heads|)]. */
    var heads: seq<RequestList>
    const waitingList: RequestList
    var inflight: int
    var waiting: int
    var maxInflight: int
    /** Every request in flight. */
    ghost var flying: set<Request>

    /** The lists are lists of requests in flight. */
    ghost predicate HeadsOk(hs: seq<RequestList>)
      reads this`flying, hs, flying`next, flying`prev, flying`home
    {
      && DistinctLists(hs) && waitingList !in hs
      && (forall i, k :: 0 <= i < |hs| && 0 <= k < |hs[i].rs| ==> hs[i].rs[k] in flying && hs[i].rs[k].home == hs[i])
      && (forall i :: 0 <= i < |hs| ==> hs[i].Valid())
    }

    ghost predicate InPlace(r: Request, hs: seq<RequestList>)
      requires |hs| > 0
      reads r`transId, hs
    {
      r in hs[Bucket(r.transId, |hs|)].rs
    }

    ghost predicate AllInPlace(hs: seq<RequestList>)
      requires |hs| > 0
      reads this`flying, flying`transId, hs
    {
      forall r :: r in flying ==> InPlace(r, hs)
    }

    ghost predicate WaitingOk()
      reads this`waiting, waitingList, waitingList.rs`next, waitingList.rs`prev, waitingList.rs`home
    {
      waitingList.Valid() && waiting == |waitingList.rs| && forall k :: 0 <= k < |waitingList.rs| ==> waitingList.rs[k].home == waitingList
    }

    ghost predicate Valid()
      reads this`heads, this`flying, this`inflight, this`waiting, heads, flying, waitingList, waitingList.rs
    {
      && |heads| > 0 && HeadsOk(heads) && AllInPlace(heads)
      && IdsDistinct(flying) && inflight == |flying| && WaitingOk()
    }

    /** A list of req_heads holds the requests in flight whose id leaves its index when divided by their number. */
    lemma InItsList(r: Request, i: nat)
      requires Valid() && i < |heads|
      ensures r in heads[i].rs <==> r in flying && i == r.transId % |heads|
    {
      if r in heads[i].rs {
        var k :| 0 <= k < |heads[i].rs| && heads[i].rs[k] == r;
        assert InPlace(r, heads);
      } else if r in flying {
        assert InPlace(r, heads);
      }
    }

    /** No request in flight has this id. */
    ghost predicate Unused(id: nat)
      reads this`flying, flying`transId
    {
      forall r :: r in flying ==> r.transId != id
    }

    constructor (max: nat)
      requires max > 0
      ensures Valid() && fresh(waitingList) && flying == {} && waitingList.rs == [] && maxInflight == max
    {
      waitingList := new RequestList();
      var list := new RequestList();
      heads := [list];
      inflight, waiting, maxInflight, flying := 0, 0, max, {};
    }

    /** request_find_from_trans_id: the one bucket holds what a scan of everything in flight would find. */
    method FindFromTransId(transId: nat) returns (found: Request?)
      requires Valid()
      ensures found == null <==> Unused(transId)
      ensures found != null ==> found in flying && found.transId == transId
    {
      found := heads[Bucket(transId, |heads|)].Find(transId);
      assert found == null ==> forall r :: r in flying ==> InPlace(r, heads) && r.transId != transId;
    }

    /** evdns_request_insert into one of the lists. */
    method Place(req: Request, ghost hs: seq<RequestList>, list: RequestList)
      requires HeadsOk(hs) && WaitingOk() && req.home == null && list in hs
      modifies this`flying, list, list.rs`next, list.rs`prev, req`next, req`prev, req`home
      ensures HeadsOk(hs) && WaitingOk() && list.rs == old(list.rs) + [req] && flying == old(flying) + {req}
    {
      hide RequestList.Valid;
      flying := flying + {req};
      list.Insert(req);
    }

    /** evdns_request_remove from one of the lists. */
    method Unplace(req: Request, ghost hs: seq<RequestList>, list: RequestList, ghost k: nat)
      requires HeadsOk(hs) && WaitingOk() && list in hs && k < |list.rs| && list.rs[k] == req
      modifies this`flying, list, list.rs`next, list.rs`prev, req`home
      ensures HeadsOk(hs) && WaitingOk() && list.rs == Less(old(list.rs), k)
      ensures flying == old(flying) - {req} && req.home == null
    {
      hide RequestList.Valid;
      list.Remove(req, k);
      flying := flying - {req};
    }

    /** Put a request into the bucket of its id. */
    method Launch(req: Request)
      requires Valid() && req.home == null && Unused(req.transId)
      modifies this`inflight, this`flying, heads, flying`next, flying`prev, req`next, req`prev, req`home
      ensures Valid() && flying == old(flying) + {req} && req !in old(flying) && inflight == old(inflight) + 1
      ensures waitingList.rs == old(waitingList.rs)
    {
      hide HeadsOk, WaitingOk, AllInPlace, Bucket, IdsDistinct;
      var list := heads[Bucket(req.transId, |heads|)];
      ListFlies(heads, list);
      OneMoreId(flying, req);
      assert req !in flying;
      Place(req, heads, list);
      OneMorePlaced(req);
      inflight := inflight + 1;
    }

    /** Lists that only grow keep everything in place. */
    twostate lemma OneMorePlaced(req: Request)
      requires |heads| > 0 && heads == old(heads) && old(AllInPlace(heads)) && flying == old(flying) + {req}
      requires unchanged(flying`transId) && InPlace(req, heads)
      requires forall i :: 0 <= i < |heads| ==> old(heads[i].rs) <= heads[i].rs
      ensures AllInPlace(heads)
    {
      forall r | r in flying ensures InPlace(r, heads) {
        assert r in old(flying) ==> old(InPlace(r, heads));
      }
    }

    lemma ListFlies(hs: seq<RequestList>, list: RequestList)
      requires HeadsOk(hs) && list in hs
      ensures waitingList !in hs && forall k :: 0 <= k < |list.rs| ==> list.rs[k] in flying
    {
    }

    /** Take a request in flight out of its bucket. */
    method Land(req: Request)
      requires Valid() && req in flying
      modifies this`inflight, this`flying, heads, flying`next, flying`prev, flying`home
      ensures Valid() && flying == old(flying) - {req} && req.home == null && inflight == old(inflight) - 1
      ensures waitingList.rs == old(waitingList.rs)
    {
      hide HeadsOk, WaitingOk, AllInPlace, Bucket, IdsDistinct;
      ListFlies(heads, heads[Bucket(req.transId, |heads|)]);
      OneIdLess(flying, req);
      PlaceOf(req);
      ghost var b := Bucket(req.transId, |heads|);
      ghost var k :| 0 <= k < |heads[b].rs| && heads[b].rs[k] == req;
      Unplace(req, heads, heads[Bucket(req.transId, |heads|)], k);
      OneLessPlaced(req);
      inflight := inflight - 1;
    }

    lemma PlaceOf(req: Request)
      requires |heads| > 0 && AllInPlace(heads) && req in flying
      ensures InPlace(req, heads)
    {
    }

    twostate lemma OneLessPlaced(req: Request)
      requires |heads| > 0 && heads == old(heads) && old(AllInPlace(heads)) && flying == old(flying) - {req}
      requires unchanged(flying`transId)
      requires forall j, k :: 0 <= j < |heads| && 0 <= k < |old(heads[j].rs)| && old(heads[j].rs)[k] != req ==>
        old(heads[j].rs)[k] in heads[j].rs
      ensures AllInPlace(heads)
    {
      hide Bucket;
      forall r | r in flying ensures InPlace(r, heads) {
        assert old(InPlace(r, heads));
      }
    }

    /** evdns_request_insert into the waiting queue. */
    method Wait(req: Request)
      requires HeadsOk(heads) && WaitingOk() && req.home == null
      modifies this`waiting, waitingList, waitingList.rs`next, waitingList.rs`prev, req`next, req`prev, req`home
      ensures HeadsOk(heads) && WaitingOk() && waitingList.rs == old(waitingList.rs) + [req]
    {
      hide RequestList.Valid;
      waitingList.Insert(req);
      waiting := waiting + 1;
    }

    /** evdns_request_remove from the waiting queue. */
    method Unwait(req: Request, ghost k: nat)
      requires HeadsOk(heads) && WaitingOk() && k < |waitingList.rs| && waitingList.rs[k] == req
      modifies this`waiting, waitingList, waitingList.rs`next, waitingList.rs`prev, req`home
      ensures HeadsOk(heads) && WaitingOk() && waitingList.rs == Less(old(waitingList.rs), k)
      ensures req.home == null && waiting == old(waiting) - 1
    {
      hide RequestList.Valid;
      waitingList.Remove(req, k);
      waiting := waiting - 1;
    }

    /** A waiting request is not in flight. */
    lemma WaitingNotFlying(k: nat)
      requires Valid() && k < |waitingList.rs|
      ensures waitingList.rs[k] !in flying
    {
    }

    /** Put a request at the end of the waiting queue. */
    method Enqueue(req: Request)
      requires Valid() && req.home == null
      modifies this`waiting, waitingList, waitingList.rs`next, waitingList.rs`prev, req`next, req`prev, req`home
      ensures Valid() && waitingList.rs == old(waitingList.rs) + [req]
    {
      hide HeadsOk, WaitingOk, Bucket, IdsDistinct;
      ListFlies(heads, heads[0]);
      Wait(req);
    }

    /** Take a request out of the waiting queue. */
    method Dequeue(req: Request, ghost k: nat)
      requires Valid() && k < |waitingList.rs| && waitingList.rs[k] == req
      modifies this`waiting, waitingList, waitingList.rs`next, waitingList.rs`prev, req`home
      ensures Valid() && waitingList.rs == Less(old(waitingList.rs), k)
      ensures req.home == null && req !in flying && waiting == old(waiting) - 1
    {
      hide HeadsOk, WaitingOk, Bucket, IdsDistinct;
      ListFlies(heads, heads[0]);
      WaitingNotFlying(k);
      Unwait(req, k);
    }

    /** request_submit. */
    method Submit(req: Request, hasNameserver: bool)
      requires Valid() && req.home == null && (hasNameserver ==> Unused(req.transId))
      modifies this`inflight, this`waiting, this`flying, heads, flying`next, flying`prev, req`next, req`prev, req`home
      modifies waitingList, waitingList.rs`next, waitingList.rs`prev
      ensures Valid()
      ensures hasNameserver ==> flying == old(flying) + {req} && waitingList.rs == old(waitingList.rs)
      ensures !hasNameserver ==> flying == old(flying) && waitingList.rs == old(waitingList.rs) + [req]
    {
      hide Valid;
      if hasNameserver {
        Launch(req);
      } else {
        Enqueue(req);
      }
    }

    /** Ids that transaction_id_pick may draw one after the other, from the m-th on, while `fs` fly: new and different. */
    ghost predicate Drawn(ids: seq<nat>, m: nat, fs: set<Request>)
      reads fs`transId
    {
      && (forall i, r :: m <= i < |ids| && r in fs ==> r.transId != ids[i])
      && (forall i :: m <= i < |ids| ==> ids[i] < 0xffff)
      && (forall i, j :: m <= i < j < |ids| ==> ids[i] != ids[j])
    }

    method Oldest() returns (req: Request)
      requires Valid() && waitingList.rs != []
      ensures req == waitingList.rs[0]
    {
      req := waitingList.head;
    }

    /** One turn of the pump. */
    method Promote(ids: seq<nat>, m: nat)
      requires Valid() && waitingList.rs != [] && m < |ids| && Drawn(ids, m, flying)
      modifies this`inflight, this`waiting, this`flying, heads, flying`next, flying`prev
      modifies waitingList, waitingList.rs`next, waitingList.rs`prev, waitingList.rs[0]
      ensures Valid() && inflight == old(inflight) + 1 && waiting == old(waiting) - 1
      ensures waitingList.rs == old(waitingList.rs)[1..] && flying == old(flying) + {old(waitingList.rs)[0]}
      ensures old(waitingList.rs)[0].transId == ids[m] && Drawn(ids, m + 1, flying)
    {
      hide Valid;
      var req := Oldest();
      Dequeue(req, 0);
      Retag(req, ids[m]);
      Launch(req);
    }

    /** request_trans_id_set on a request that is on no list. */
    method Retag(req: Request, id: nat)
      requires Valid() && req.home == null && req !in flying
      modifies req`transId
      ensures Valid() && req.transId == id
    {
      hide HeadsOk, Bucket, IdsDistinct;
      req.transId := id;
    }

    /** The first m requests have the first m ids. */
    ghost predicate Tagged(rs: seq<Request>, m: nat, ids: seq<nat>)
      reads rs`transId
    {
      m <= |rs| && m <= |ids| && forall i :: 0 <= i < m ==> rs[i].transId == ids[i]
    }

    lemma NoneTagged(rs: seq<Request>, ids: seq<nat>)
      ensures Tagged(rs, 0, ids)
    {
    }

    twostate lemma OneMoreTagged(rs: seq<Request>, new m: nat, new ids: seq<nat>)
      requires m < |rs| && m < |ids| && NoRepeat(rs) && old(Tagged(rs, m, ids)) && rs[m].transId == ids[m]
      requires forall r :: r in rs && r != rs[m] ==> r.transId == old(r.transId)
      ensures Tagged(rs, m + 1, ids)
    {
      forall i | 0 <= i < m ensures rs[i].transId == ids[i] {
        assert rs[i] in rs && rs[i] != rs[m];
      }
    }

    /** evdns_requests_pump_waiting_queue: the oldest waiting requests take off until the limit. */
    method Pump(ids: seq<nat>) returns (m: nat)
      requires Valid() && Drawn(ids, 0, flying) && (|ids| >= waiting || |ids| >= maxInflight - inflight)
      modifies this`inflight, this`waiting, this`flying, heads, flying`next, flying`prev
      modifies waitingList, waitingList.rs
      ensures Valid() && inflight + waiting == old(inflight + waiting)
      ensures inflight >= maxInflight || waiting == 0
      ensures m > 0 ==> inflight <= maxInflight
      ensures m <= |old(waitingList.rs)| && waitingList.rs == old(waitingList.rs)[m..]
      ensures flying == old(flying) + Elems(old(waitingList.rs)[..m])
      ensures Tagged(old(waitingList.rs), m, ids)
    {
      hide Valid, Drawn, From, UpTo, Elems, Tagged, NoRepeat;
      ghost var was := waitingList.rs;
      m := 0;
      Lengths();
      Apart();
      NoneTagged(was, ids);
      Cut(was, 0);
      while inflight < maxInflight && waiting > 0
        invariant Valid() && m <= |was| && waitingList.rs == From(was, m) && waiting == |was| - m
        invariant inflight == old(inflight) + m && (m > 0 ==> inflight <= maxInflight)
        invariant flying == old(flying) + UpTo(was, m) && Drawn(ids, m, flying)
        invariant Tagged(was, m, ids)
        decreases waiting
      {
        OneFurther(was, m, old(flying));
        label turn:
        Promote(ids, m);
        OneMoreTagged@turn(was, m, ids);
        m := m + 1;
      }
      Cut(was, m);
    }

    lemma Lengths()
      requires Valid()
      ensures waiting == |waitingList.rs| && inflight == |flying|
    {
    }

    /** request_finished: a request leaves its list, and the pump runs. */
    method Finish(req: Request, wasInflight: bool, ghost k: nat, ids: seq<nat>) returns (m: nat)
      requires Valid() && Drawn(ids, 0, flying - {req})
      requires |ids| >= waiting || |ids| >= maxInflight - inflight + if wasInflight then 1 else 0
      requires if wasInflight then req in flying else k < |waitingList.rs| && waitingList.rs[k] == req
      modifies this`inflight, this`waiting, this`flying, heads, flying`next, flying`prev, flying`home
      modifies waitingList, waitingList.rs
      ensures Valid() && inflight + waiting == old(inflight + waiting) - 1
      ensures inflight >= maxInflight || waiting == 0
      ensures m > 0 ==> inflight <= maxInflight
      ensures var queue := old(if wasInflight then waitingList.rs else Less(waitingList.rs, k));
        && m <= |queue| && waitingList.rs == queue[m..] && flying == old(flying) - {req} + Elems(queue[..m])
        && Tagged(queue, m, ids)
      ensures flying + Elems(waitingList.rs) == old(flying + Elems(waitingList.rs)) - {req}
    {
      hide Valid, Elems, Drawn, Less, Tagged;
      LeaveOne(req, wasInflight, k);
      m := PumpOn(ids);
    }

    /** The pump moves requests and loses none. */
    method PumpOn(ids: seq<nat>) returns (m: nat)
      requires Valid() && Drawn(ids, 0, flying) && (|ids| >= waiting || |ids| >= maxInflight - inflight)
      modifies this`inflight, this`waiting, this`flying, heads, flying`next, flying`prev
      modifies waitingList, waitingList.rs
      ensures Valid() && inflight + waiting == old(inflight + waiting) && (inflight >= maxInflight || waiting == 0)
      ensures flying + Elems(waitingList.rs) == old(flying + Elems(waitingList.rs)) && (m > 0 ==> inflight <= maxInflight)
      ensures m <= |old(waitingList.rs)| && waitingList.rs == old(waitingList.rs)[m..]
      ensures flying == old(flying) + Elems(old(waitingList.rs)[..m])
      ensures Tagged(old(waitingList.rs), m, ids)
    {
      hide Valid, Elems, Drawn, Tagged;
      ghost var f, was := flying, waitingList.rs;
      m := Pump(ids);
      ElemsSplit(was, m);
      assert f + Elems(was[..m]) + Elems(was[m..]) == f + (Elems(was[..m]) + Elems(was[m..]));
    }

    /** The first half of request_finished. */
    method LeaveOne(req: Request, wasInflight: bool, ghost k: nat)
      requires Valid()
      requires if wasInflight then req in flying else k < |waitingList.rs| && waitingList.rs[k] == req
      modifies this`inflight, this`waiting, this`flying, heads, flying`next, flying`prev, flying`home
      modifies waitingList, waitingList.rs`next, waitingList.rs`prev, req`home
      ensures Valid() && inflight + waiting == old(inflight + waiting) - 1 && waiting <= old(waiting)
      ensures flying == old(flying) - {req} && inflight == old(inflight) - (if wasInflight then 1 else 0)
      ensures (forall i :: 0 <= i < |waitingList.rs| ==> waitingList.rs[i] in old(waitingList.rs))
      ensures waitingList.rs == old(if wasInflight then waitingList.rs else Less(waitingList.rs, k))
      ensures flying + Elems(waitingList.rs) == old(flying + Elems(waitingList.rs)) - {req}
    {
      hide Valid, Elems;
      Apart();
      if wasInflight {
        Land(req);
      } else {
        ElemsLess(waitingList.rs, k);
        Dequeue(req, k);
      }
    }

    /** Nothing is both in flight and waiting, and nothing waits twice. */
    lemma Apart()
      requires Valid()
      ensures forall r :: r in Elems(waitingList.rs) ==> r !in flying
      ensures NoRepeat(waitingList.rs)
    {
    }

    // ---------- resizing ----------

    method NewLists(n: nat, ghost others: seq<RequestList>) returns (hs: seq<RequestList>)
      ensures |hs| == n && forall i :: 0 <= i < n ==> fresh(hs[i]) && hs[i].Valid() && hs[i].rs == []
      ensures DistinctLists(hs) && ApartLists(others, hs) && waitingList !in hs
    {
      hs := [];
      while |hs| < n
        invariant |hs| <= n && forall i :: 0 <= i < |hs| ==> fresh(hs[i]) && hs[i].Valid() && hs[i].rs == []
        invariant DistinctLists(hs)
      {
        var list := new RequestList();
        hs := hs + [list];
      }
    }

    /** A request that is still in the first lists, in none before list i, or already in the new ones. */
    ghost predicate Between(r: Request, i: nat, hs: seq<RequestList>, news: seq<RequestList>)
      requires |hs| > 0 && |news| > 0
      reads r`transId, hs, news
    {
      InPlace(r, news) || (i <= Bucket(r.transId, |hs|) && InPlace(r, hs))
    }

    ghost predicate AllBetween(i: nat, hs: seq<RequestList>, news: seq<RequestList>)
      requires |hs| > 0 && |news| > 0
      reads this`flying, flying`transId, hs, news
    {
      forall r :: r in flying ==> Between(r, i, hs, news)
    }

    lemma NoneMoved(hs: seq<RequestList>, news: seq<RequestList>)
      requires |hs| > 0 && |news| > 0 && AllInPlace(hs)
      ensures AllBetween(0, hs, news)
    {
    }

    lemma ListMoved(i: nat, hs: seq<RequestList>, news: seq<RequestList>)
      requires |news| > 0 && i < |hs| && AllBetween(i, hs, news) && hs[i].rs == []
      ensures AllBetween(i + 1, hs, news)
    {
      forall r | r in flying ensures Between(r, i + 1, hs, news) {
        assert Between(r, i, hs, news);
      }
    }

    lemma AllMoved(hs: seq<RequestList>, news: seq<RequestList>)
      requires |hs| > 0 && |news| > 0 && AllBetween(|hs|, hs, news)
      ensures AllInPlace(news)
    {
      forall r | r in flying ensures InPlace(r, news) {
        assert Between(r, |hs|, hs, news);
      }
    }

    /** Move the first request of list i to its new list. */
    method MoveOne(hs: seq<RequestList>, i: nat, news: seq<RequestList>)
      requires |news| > 0 && i < |hs| && hs[i].rs != [] && HeadsOk(hs + news) && WaitingOk()
      requires AllBetween(i, hs, news)
      modifies this`flying, hs[i], news, flying`next, flying`prev, flying`home
      ensures HeadsOk(hs + news) && WaitingOk() && flying == old(flying) && waitingList.rs == old(waitingList.rs)
      ensures AllBetween(i, hs, news)
      ensures |hs[i].rs| == old(|hs[i].rs|) - 1
    {
      hide HeadsOk, WaitingOk, Bucket, AllBetween;
      ghost var all := hs + news;
      ListFlies(all, all[i]);
      var req := First(hs[i], all);
      var list := news[Bucket(req.transId, |news|)];
      ListsApart(hs, news);
      ListFlies(all, all[|hs| + Bucket(req.transId, |news|)]);
      assert all[i] == hs[i] && all[|hs| + Bucket(req.transId, |news|)] == list;
      Unplace(req, all, hs[i], 0);
      Place(req, all, list);
      StillBetween(req, i, hs, news);
    }

    /** One request goes to its new list; everything else stays where it was. */
    twostate lemma StillBetween(req: Request, new i: nat, new hs: seq<RequestList>, new news: seq<RequestList>)
      requires |hs| > 0 && |news| > 0 && old(allocated(hs) && allocated(news))
      requires old(AllBetween(i, hs, news)) && flying == old(flying) && unchanged(flying`transId)
      requires forall j :: 0 <= j < |news| ==> old(news[j].rs) <= news[j].rs
      requires forall j, k :: 0 <= j < |hs| && 0 <= k < |old(hs[j].rs)| && old(hs[j].rs)[k] != req ==>
        old(hs[j].rs)[k] in hs[j].rs
      requires InPlace(req, news)
      ensures AllBetween(i, hs, news)
    {
      hide Bucket;
      forall r | r in flying ensures Between(r, i, hs, news) {
        assert old(Between(r, i, hs, news));
      }
    }

    lemma ListsApart(hs: seq<RequestList>, news: seq<RequestList>)
      requires HeadsOk(hs + news)
      ensures ApartLists(hs, news) && HeadsOk(news)
    {
      var all := hs + news;
      assert forall i :: 0 <= i < |hs| ==> all[i] == hs[i];
      assert forall j :: 0 <= j < |news| ==> all[|hs| + j] == news[j];
    }

    /** Fresh lists beside the ones in use. */
    lemma ListsAdded(hs: seq<RequestList>, news: seq<RequestList>)
      requires HeadsOk(hs) && waitingList !in news && ApartLists(hs, news) && DistinctLists(news)
      requires forall i :: 0 <= i < |news| ==> news[i].Valid() && news[i].rs == []
      ensures HeadsOk(hs + news)
    {
      hide RequestList.Valid;
      var all := hs + news;
      forall i, j | 0 <= i < j < |all| ensures all[i] != all[j] {
        assert i < |hs| <= j ==> all[i] in hs && all[j] in news;
      }
    }

    method First(list: RequestList, ghost hs: seq<RequestList>) returns (req: Request)
      requires HeadsOk(hs) && list in hs && list.rs != []
      ensures req == list.rs[0]
    {
      req := list.head;
    }

    /** Empty all the lists. */
    method MoveAll(hs: seq<RequestList>, news: seq<RequestList>)
      requires |hs| > 0 && |news| > 0 && HeadsOk(hs + news) && WaitingOk()
      requires AllInPlace(hs)
      modifies this`flying, hs, news, flying`next, flying`prev, flying`home
      ensures HeadsOk(news) && WaitingOk() && flying == old(flying) && waitingList.rs == old(waitingList.rs)
      ensures AllInPlace(news)
    {
      hide HeadsOk, WaitingOk, Bucket, InPlace, AllInPlace, AllBetween;
      NoneMoved(hs, news);
      var i := 0;
      while i < |hs|
        invariant i <= |hs| && HeadsOk(hs + news) && WaitingOk() && flying == old(flying) && waitingList.rs == old(waitingList.rs)
        invariant AllBetween(i, hs, news)
      {
        Empty(hs, i, news);
        ListMoved(i, hs, news);
        i := i + 1;
      }
      AllMoved(hs, news);
      ListsApart(hs, news);
    }

    /** Empty list i. */
    method Empty(hs: seq<RequestList>, i: nat, news: seq<RequestList>)
      requires |news| > 0 && i < |hs| && HeadsOk(hs + news) && WaitingOk() && AllBetween(i, hs, news)
      modifies this`flying, hs[i], news, flying`next, flying`prev, flying`home
      ensures HeadsOk(hs + news) && WaitingOk() && flying == old(flying) && waitingList.rs == old(waitingList.rs)
      ensures AllBetween(i, hs, news) && hs[i].rs == []
    {
      hide HeadsOk, WaitingOk, Bucket, InPlace, AllBetween;
      var empty := IsEmpty(hs[i], hs + news);
      while !empty
        invariant HeadsOk(hs + news) && WaitingOk() && flying == old(flying) && waitingList.rs == old(waitingList.rs)
        invariant AllBetween(i, hs, news)
        invariant empty <==> hs[i].rs == []
        decreases |hs[i].rs|
      {
        MoveOne(hs, i, news);
        empty := IsEmpty(hs[i], hs + news);
      }
    }

    method IsEmpty(list: RequestList, ghost hs: seq<RequestList>) returns (empty: bool)
      requires HeadsOk(hs) && list in hs
      ensures empty <==> list.rs == []
    {
      empty := list.head == null;
    }

    /** evdns_base_set_max_requests_inflight: the same requests, in a new number of lists. */
    method SetMaxRequestsInflight(max: int)
      requires Valid()
      modifies this`heads, this`maxInflight, this`flying, heads, flying`next, flying`prev, flying`home
      ensures Valid() && flying == old(flying) && waitingList.rs == old(waitingList.rs)
      ensures maxInflight == (if max < 1 then 1 else max) && |heads| == (maxInflight + 4) / 5
      ensures inflight == old(inflight) && waiting == old(waiting)
    {
      hide Valid, HeadsOk, DistinctLists, ApartLists, RequestList.Valid;
      var m := if max < 1 then 1 else max;
      var news := NewLists((m + 4) / 5, heads);
      ReadyToMove(news);
      Rehash(news);
      maxInflight := m;
    }

    lemma ReadyToMove(news: seq<RequestList>)
      requires Valid() && waitingList !in news && ApartLists(heads, news) && DistinctLists(news)
      requires forall i :: 0 <= i < |news| ==> news[i].Valid() && news[i].rs == []
      ensures HeadsOk(heads + news)
    {
      ListsAdded(heads, news);
    }

    /** Take the new lists into use. */
    method Rehash(news: seq<RequestList>)
      requires Valid() && |news| > 0 && HeadsOk(heads + news)
      modifies this`heads, this`flying, heads, news, flying`next, flying`prev, flying`home
      ensures Valid() && heads == news && flying == old(flying) && waitingList.rs == old(waitingList.rs)
    {
      hide HeadsOk, WaitingOk, AllInPlace, Bucket, IdsDistinct;
      MoveAll(heads, news);
      heads := news;
    }
  }
}

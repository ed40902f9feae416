/** The chained hash table of libevent/ht-internal.h. */
module HashTable {

  /** An element with its HT_ENTRY; equal keys are what eqfn calls a match. */
  class Elem {
    const key: nat
    var next: Elem?
    /** The bucket the element is in. */
    ghost var home: Slot?

    constructor (key: nat)
      ensures this.key == key && home == null
    {
      this.key, next, home := key, null, null;
    }
  }

  /** A word of hth_table: the head of a chain. */
  class Slot {
    var head: Elem?
    /** The chain. */
    ghost var es: seq<Elem>

    ghost predicate Valid()
      reads this, es`next, es`home
    {
      && head == (if es == [] then null else es[0])
      && (forall i, j :: 0 <= i < |es| && j == i + 1 < |es| ==> es[i].next == es[j])
      && (es != [] ==> es[|es| - 1].next == null)
      && (forall i, j :: 0 <= i < j < |es| ==> es[i] != es[j])
      && (forall i :: 0 <= i < |es| ==> es[i].home == this)
    }

    /** The link that leads to the k-th element: the word itself or the next field before it. */
    ghost predicate At(prev: Elem?, k: nat)
      reads this
    {
      k <= |es| && prev == if k == 0 then null else es[k - 1]
    }

    constructor ()
      ensures Valid() && es == []
    {
      head, es := null, [];
    }

    /** What the link at prev points to. */
    method Deref(prev: Elem?, ghost k: nat) returns (e: Elem?)
      requires Valid() && At(prev, k)
      ensures e == if k < |es| then es[k] else null
    {
      assert 0 < k < |es| ==> es[k - 1].next == es[k];
      e := if prev == null then head else prev.next;
    }

    method PushFront(e: Elem)
      requires Valid() && e.home == null
      modifies this, e`next, e`home
      ensures Valid() && es == [e] + old(es) && e.home == this
    {
      e.next := head;
      head := e;
      e.home := this;
      es := [e] + es;
    }

    /** Take out the element that the link at prev points to. */
    method Unlink(prev: Elem?, ghost k: nat) returns (e: Elem)
      requires Valid() && At(prev, k) && k < |es|
      modifies this, es`next, es`home
      ensures Valid() && At(prev, k) && e == old(es)[k] && e.home == null && e.next == null
      ensures es == old(es)[..k] + old(es)[k + 1..]
    {
      assert k > 0 ==> es[k - 1].next == es[k];
      assert k + 1 < |es| ==> es[k].next == es[k + 1];
      if prev == null {
        e := head;
        head := e.next;
      } else {
        e := prev.next;
        prev.next := e.next;
      }
      e.next := null;
      e.home := null;
      es := es[..k] + es[k + 1..];
    }

    lemma NextIs(k: nat)
      requires Valid() && k < |es|
      ensures es[k].next == if k + 1 < |es| then es[k + 1] else null
    {
    }

    /** The chain part of HT_FIND_P: the link to the first match, or to the end. */
    method Find(key: nat) returns (prev: Elem?, ghost k: nat)
      requires Valid()
      ensures At(prev, k) && (forall i :: 0 <= i < k ==> es[i].key != key) && (k < |es| ==> es[k].key == key)
    {
      prev, k := null, 0;
      var p := head;
      while p != null && p.key != key
        invariant At(prev, k) && p == (if k < |es| then es[k] else null)
        invariant forall i :: 0 <= i < k ==> es[i].key != key
        decreases |es| - k
      {
        assert k + 1 < |es| ==> es[k].next == es[k + 1];
        prev, p, k := p, p.next, k + 1;
      }
    }
  }

  /** _HT_BUCKET. */
  function Bucket(h: nat, n: nat): (b: nat)
    requires n > 0
    ensures b < n
  {
    h % n
  }

  ghost predicate DistinctSlots(hs: seq<Slot>) {
    forall i, j :: 0 <= i < j < |hs| ==> hs[i] != hs[j]
  }

  ghost predicate ApartSlots(hs: seq<Slot>, news: seq<Slot>) {
    forall h :: h in hs ==> h !in news
  }

  ghost predicate KeysDistinct(es: set<Elem>) {
    forall e, f :: e in es && f in es && e.key == f.key ==> e == f
  }

  /** An element that is in the chain of its bucket, one of these. */
  ghost predicate Somewhere(e: Elem, hs: seq<Slot>)
    reads e`home, hs
  {
    e.home != null && e.home in hs && e in e.home.es
  }

  /** The elements of some buckets, in order. */
  ghost function Listed(hs: seq<Slot>): seq<Elem>
    reads hs
  {
    if hs == [] then [] else hs[0].es + Listed(hs[1..])
  }

  lemma {:induction false} ListedMember(hs: seq<Slot>, e: Elem)
    ensures e in Listed(hs) <==> exists i :: 0 <= i < |hs| && e in hs[i].es
  {
    if hs != [] {
      ListedMember(hs[1..], e);
      if e in Listed(hs[1..]) {
        var i :| 0 <= i < |hs[1..]| && e in hs[1..][i].es;
        assert e in hs[i + 1].es;
      }
      if i :| 0 <= i < |hs| && e in hs[i].es {
        assert i > 0 ==> hs[1..][i - 1] == hs[i];
      }
    }
  }

  ghost predicate Unique(l: seq<Elem>) {
    forall i, j :: 0 <= i < j < |l| ==> l[i] != l[j]
  }

  /** Chains that share nothing. */
  ghost predicate Tidy(hs: seq<Slot>)
    reads hs, set i, k | 0 <= i < |hs| && 0 <= k < |hs[i].es| :: hs[i].es[k]
  {
    && DistinctSlots(hs)
    && (forall i :: 0 <= i < |hs| ==> Unique(hs[i].es))
    && (forall i, k :: 0 <= i < |hs| && 0 <= k < |hs[i].es| ==> hs[i].es[k].home == hs[i])
  }

  lemma {:induction false} ListedDistinct(hs: seq<Slot>)
    requires Tidy(hs)
    ensures Unique(Listed(hs))
  {
    if hs != [] {
      ListedDistinct(hs[1..]);
      var a, l := hs[0].es, Listed(hs[1..]);
      forall i, j | 0 <= i < |a| && 0 <= j < |l| ensures a[i] != l[j] {
        ListedMember(hs[1..], l[j]);
      }
    }
  }

  lemma OneMoreKey(es: set<Elem>, e: Elem)
    requires KeysDistinct(es) && forall f :: f in es ==> f.key != e.key
    ensures KeysDistinct(es + {e})
  {
  }

  lemma OneKeyLess(es: set<Elem>, e: Elem)
    requires KeysDistinct(es)
    ensures KeysDistinct(es - {e})
  {
  }

  lemma StillThere(es: seq<Elem>, k: nat, e: Elem)
    requires k < |es| && e in es && e != es[k]
    ensures e in es[..k] + es[k + 1..]
  {
    var i :| 0 <= i < |es| && es[i] == e;
    assert (es[..k] + es[k + 1..])[if i < k then i else i - 1] == e;
  }

  class Table {
    const hash: nat -> nat
    var table: seq<Slot>
    var nEntries: nat
    var loadLimit: nat
    var primeIdx: int
    /** The elements in the table. */
    ghost var elems: set<Elem>

    /** These buckets hold the elements of the table, each once. */
    ghost predicate SlotsOk(hs: seq<Slot>)
      reads this`elems, hs, elems`next, elems`home
    {
      && DistinctSlots(hs)
      && (forall i, k :: 0 <= i < |hs| && 0 <= k < |hs[i].es| ==> hs[i].es[k] in elems && hs[i].es[k].home == hs[i])
      && (forall i :: 0 <= i < |hs| ==> hs[i].Valid())
      && (forall e :: e in elems ==> Somewhere(e, hs))
    }

    /** What is in bucket i of n belongs there. */
    ghost predicate Right(slot: Slot, i: nat, n: nat)
      requires n > 0
      reads slot
    {
      forall k :: 0 <= k < |slot.es| ==> Bucket(hash(slot.es[k].key), n) == i
    }

    method Place(e: Elem, ghost hs: seq<Slot>, slot: Slot)
      requires SlotsOk(hs) && e.home == null && slot in hs
      modifies this`elems, slot, e`next, e`home
      ensures SlotsOk(hs) && slot.es == [e] + old(slot.es) && elems == old(elems) + {e}
    {
      hide Slot.Valid;
      elems := elems + {e};
      slot.PushFront(e);
    }

    method Unplace(ghost hs: seq<Slot>, slot: Slot, prev: Elem?, ghost k: nat) returns (e: Elem)
      requires SlotsOk(hs) && slot in hs && slot.At(prev, k) && k < |slot.es|
      modifies this`elems, slot, slot.es`next, slot.es`home
      ensures SlotsOk(hs) && slot.At(prev, k) && e == old(slot.es)[k] && e.home == null && e.next == null
      ensures slot.es == old(slot.es)[..k] + old(slot.es)[k + 1..] && elems == old(elems) - {e}
    {
      hide Slot.Valid;
      ghost var es := slot.es;
      e := slot.Unlink(prev, k);
      elems := elems - {e};
      forall x | x in elems ensures Somewhere(x, hs) {
        assert old(Somewhere(x, hs));
        if x in es {
          StillThere(es, k, x);
        }
      }
    }

    // ---------- growing ----------

    method NewSlots(n: nat, ghost others: seq<Slot>) returns (hs: seq<Slot>)
      ensures |hs| == n && forall i :: 0 <= i < n ==> fresh(hs[i]) && hs[i].Valid() && hs[i].es == []
      ensures DistinctSlots(hs) && ApartSlots(others, hs)
    {
      hs := [];
      while |hs| < n
        invariant |hs| <= n && forall i :: 0 <= i < |hs| ==> fresh(hs[i]) && hs[i].Valid() && hs[i].es == []
        invariant DistinctSlots(hs)
      {
        var slot := new Slot();
        hs := hs + [slot];
      }
    }

    lemma SlotsAdded(hs: seq<Slot>, news: seq<Slot>)
      requires SlotsOk(hs) && DistinctSlots(news) && ApartSlots(hs, news)
      requires forall i :: 0 <= i < |news| ==> news[i].Valid() && news[i].es == []
      ensures SlotsOk(hs + news)
    {
      hide Slot.Valid;
      var all := hs + news;
      forall i, j | 0 <= i < j < |all| ensures all[i] != all[j] {
        assert i < |hs| <= j ==> all[i] in hs && all[j] in news;
      }
      forall e | e in elems ensures Somewhere(e, all) {
        assert Somewhere(e, hs);
      }
    }

    lemma SlotsDropped(hs: seq<Slot>, news: seq<Slot>)
      requires SlotsOk(hs + news) && forall i :: 0 <= i < |hs| ==> hs[i].es == []
      ensures SlotsOk(news)
    {
      hide Slot.Valid;
      var all := hs + news;
      assert forall j :: 0 <= j < |news| ==> all[|hs| + j] == news[j];
      forall e | e in elems ensures Somewhere(e, news) {
        assert Somewhere(e, all);
      }
    }

    lemma NewApart(hs: seq<Slot>, b: nat, news: seq<Slot>)
      requires SlotsOk(hs + news) && b < |hs|
      ensures hs[b] !in news && DistinctSlots(news) && (hs + news)[b] == hs[b] && hs[b] in hs + news
    {
      var all := hs + news;
      assert all[b] == hs[b];
      assert forall j :: 0 <= j < |news| ==> all[|hs| + j] == news[j];
    }

    /** Every bucket from `from` on, among n. */
    ghost predicate RightFrom(hs: seq<Slot>, from: nat, to: nat, n: nat)
      requires n > 0 && to <= |hs|
      reads hs
    {
      forall i :: from <= i < to ==> Right(hs[i], i, n)
    }

    /** The element at the head of an old bucket goes to the head of its new one. */
    method MoveFront(hs: seq<Slot>, b: nat, news: seq<Slot>)
      requires SlotsOk(hs + news) && b < |hs| && hs[b].es != [] && |news| > 0 && RightFrom(news, 0, |news|, |news|)
      modifies this`elems, hs[b], news, elems`next, elems`home
      ensures SlotsOk(hs + news) && RightFrom(news, 0, |news|, |news|) && elems == old(elems)
      ensures |hs[b].es| == old(|hs[b].es|) - 1
    {
      hide SlotsOk, Bucket;
      ghost var all := hs + news;
      SlotElems(all, b);
      NewApart(hs, b, news);
      var e := Unplace(all, hs[b], null, 0);
      var b2 := Bucket(hash(e.key), |news|);
      assert all[|hs| + b2] == news[b2];
      Place(e, all, news[b2]);
      forall i | 0 <= i < |news| ensures Right(news[i], i, |news|) {
        assert old(Right(news[i], i, |news|));
      }
    }

    lemma SlotElems(hs: seq<Slot>, i: nat)
      requires SlotsOk(hs) && i < |hs|
      ensures hs[i] in hs && forall k :: 0 <= k < |hs[i].es| ==> hs[i].es[k] in elems
    {
    }

    /** The malloc path of HT_GROW: every element goes over to a new table. */
    method RehashFresh(newLen: nat) returns (news: seq<Slot>)
      requires SlotsOk(table) && newLen > 0
      modifies this`elems, table, elems`next, elems`home
      ensures |news| == newLen && SlotsOk(news) && RightFrom(news, 0, newLen, newLen) && elems == old(elems)
      ensures forall i :: 0 <= i < newLen ==> fresh(news[i])
    {
      hide SlotsOk, Bucket, Slot.Valid, DistinctSlots, ApartSlots;
      news := NewSlots(newLen, table);
      SlotsAdded(table, news);
      var hs := table;
      var b := 0;
      while b < |hs|
        invariant b <= |hs| && hs == table && SlotsOk(hs + news) && RightFrom(news, 0, newLen, newLen) && elems == old(elems)
        invariant forall i :: 0 <= i < b ==> hs[i].es == []
      {
        NewApart(hs, b, news);
        var e := First(hs + news, hs[b]);
        while e != null
          invariant SlotsOk(hs + news) && RightFrom(news, 0, newLen, newLen) && elems == old(elems)
          invariant forall i :: 0 <= i < b ==> hs[i].es == []
          invariant e == null <==> hs[b].es == []
          decreases |hs[b].es|
        {
          MoveFront(hs, b, news);
          e := First(hs + news, hs[b]);
        }
        b := b + 1;
      }
      SlotsDropped(hs, news);
    }

    method First(ghost hs: seq<Slot>, slot: Slot) returns (e: Elem?)
      requires SlotsOk(hs) && slot in hs
      ensures e == null <==> slot.es == []
    {
      e := slot.head;
    }

    /** The element that a link in the middle of a chain points to. */
    method Follow(ghost hs: seq<Slot>, slot: Slot, prev: Elem?, ghost k: nat) returns (e: Elem?)
      requires SlotsOk(hs) && slot in hs && slot.At(prev, k)
      ensures e == if k < |slot.es| then slot.es[k] else null
    {
      e := slot.Deref(prev, k);
    }

    /** The first k elements of bucket b belong there. */
    ghost predicate RightUpTo(slot: Slot, k: nat, b: nat, n: nat)
      requires n > 0
      reads slot
    {
      k <= |slot.es| && forall j :: 0 <= j < k ==> Bucket(hash(slot.es[j].key), n) == b
    }

    /** An element found in the wrong bucket goes to the head of its own. */
    method MoveAway(hs: seq<Slot>, b: nat, prev: Elem?, ghost k: nat, ghost from: nat)
      requires SlotsOk(hs) && b < from <= |hs| && hs[b].At(prev, k) && k < |hs[b].es|
      requires Bucket(hash(hs[b].es[k].key), |hs|) != b && RightUpTo(hs[b], k, b, |hs|)
      requires RightFrom(hs, 0, b, |hs|) && RightFrom(hs, from, |hs|, |hs|)
      modifies this`elems, hs, elems`next, elems`home
      ensures SlotsOk(hs) && elems == old(elems) && hs[b].At(prev, k) && RightUpTo(hs[b], k, b, |hs|)
      ensures RightFrom(hs, 0, b, |hs|) && RightFrom(hs, from, |hs|, |hs|) && |hs[b].es| == old(|hs[b].es|) - 1
    {
      hide SlotsOk, Bucket;
      SlotElems(hs, b);
      var e := Unplace(hs, hs[b], prev, k);
      var b2 := Bucket(hash(e.key), |hs|);
      Place(e, hs, hs[b2]);
      Distinct(hs);
      forall i | 0 <= i < |hs| && (i < b || from <= i) ensures Right(hs[i], i, |hs|) {
        assert old(Right(hs[i], i, |hs|));
      }
    }

    lemma Distinct(hs: seq<Slot>)
      requires SlotsOk(hs)
      ensures DistinctSlots(hs)
    {
    }

    /** The realloc path of HT_GROW: more buckets behind the old ones, and elements move about among them. */
    method RehashInPlace(newLen: nat) returns (hs: seq<Slot>)
      requires SlotsOk(table) && newLen > 0 && newLen >= |table|
      modifies this`elems, table, elems`next, elems`home
      ensures |hs| == newLen && SlotsOk(hs) && RightFrom(hs, 0, newLen, newLen) && elems == old(elems)
      ensures forall i :: 0 <= i < newLen ==> hs[i] in table || fresh(hs[i])
    {
      hide SlotsOk, Bucket, Slot.Valid, DistinctSlots, ApartSlots;
      var news := NewSlots(newLen - |table|, table);
      SlotsAdded(table, news);
      hs := table + news;
      var n := |table|;
      var b := 0;
      while b < n
        invariant b <= n == |table| && SlotsOk(hs) && elems == old(elems)
        invariant RightFrom(hs, 0, b, newLen) && RightFrom(hs, n, newLen, newLen)
      {
        SortBucket(hs, b, n);
        b := b + 1;
      }
    }

    /** One bucket of the in-place rehash. */
    method SortBucket(hs: seq<Slot>, b: nat, ghost from: nat)
      requires SlotsOk(hs) && b < from <= |hs| && RightFrom(hs, 0, b, |hs|) && RightFrom(hs, from, |hs|, |hs|)
      modifies this`elems, hs, elems`next, elems`home
      ensures SlotsOk(hs) && RightFrom(hs, 0, b + 1, |hs|) && RightFrom(hs, from, |hs|, |hs|) && elems == old(elems)
    {
      hide SlotsOk, RightFrom, RightUpTo, Bucket, Slot.Valid;
      var prev, e: Elem?;
      ghost var k := 0;
      prev := null;
      NoneSorted(hs[b], b, |hs|);
      e := Follow(hs, hs[b], prev, k);
      while e != null
        invariant SlotsOk(hs) && elems == old(elems) && RightFrom(hs, 0, b, |hs|) && RightFrom(hs, from, |hs|, |hs|)
        invariant hs[b].At(prev, k) && RightUpTo(hs[b], k, b, |hs|)
        invariant e == if k < |hs[b].es| then hs[b].es[k] else null
        decreases |hs[b].es| - k
      {
        if Bucket(hash(e.key), |hs|) == b {
          OneSorted(hs[b], k, b, |hs|);
          prev, k := e, k + 1;
        } else {
          MoveAway(hs, b, prev, k, from);
        }
        e := Follow(hs, hs[b], prev, k);
      }
      BucketSorted(hs, k, b);
    }

    lemma NoneSorted(slot: Slot, b: nat, n: nat)
      requires n > 0
      ensures RightUpTo(slot, 0, b, n)
    {
    }

    lemma OneSorted(slot: Slot, k: nat, b: nat, n: nat)
      requires n > 0 && RightUpTo(slot, k, b, n) && k < |slot.es| && Bucket(hash(slot.es[k].key), n) == b
      ensures RightUpTo(slot, k + 1, b, n)
    {
    }

    lemma BucketSorted(hs: seq<Slot>, k: nat, b: nat)
      requires b < |hs| && RightFrom(hs, 0, b, |hs|) && RightUpTo(hs[b], k, b, |hs|) && k >= |hs[b].es|
      ensures RightFrom(hs, 0, b + 1, |hs|)
    {
    }

    // ---------- the table ----------

    /** The checks that HT_REP_IS_BAD makes of the sizes. */
    ghost predicate SizesOk()
      reads this`table, this`nEntries, this`loadLimit, this`primeIdx
    {
      if table == [] then nEntries == 0 && loadLimit == 0 && primeIdx == -1
      else
        && 0 <= primeIdx < |PRIMES| && |table| == PRIMES[primeIdx]
        && loadLimit == |table| / 2 && (primeIdx < |PRIMES| - 1 ==> nEntries <= loadLimit)
    }

    ghost predicate Valid()
      reads this, table, elems
    {
      && SlotsOk(table) && (table != [] ==> RightFrom(table, 0, |table|, |table|))
      && KeysDistinct(elems) && nEntries == |elems| && SizesOk()
    }

    /** HT_INIT. */
    constructor (hash: nat -> nat)
      ensures Valid() && elems == {} && this.hash == hash
    {
      this.hash, table, nEntries, loadLimit, primeIdx, elems := hash, [], 0, 0, -1, {};
    }

    /** HT_GROW looks for a prime behind the last one. */
    ghost predicate Overruns(size: nat)
      reads this`primeIdx, this`loadLimit
    {
      primeIdx < |PRIMES| - 1 && loadLimit <= size && forall i :: 0 <= i && primeIdx < i < |PRIMES| ==> PRIMES[i] / 2 <= size
    }

    /** It does so exactly for sizes from the load limit of the last prime on. */
    lemma OverrunsIf(size: nat)
      requires SizesOk()
      ensures Overruns(size) <==> primeIdx < |PRIMES| - 1 && size >= LIMIT
    {
      if primeIdx < |PRIMES| - 1 {
        PrimesBounded();
        if Overruns(size) {
          assert PRIMES[|PRIMES| - 1] / 2 <= size;
        }
      }
    }

    /** An insertion never makes it do so. */
    lemma NextPrimeFits()
      requires SizesOk()
      ensures !Overruns(nEntries + 1)
    {
      if primeIdx < |PRIMES| - 1 {
        PrimesBounded();
        OverrunsIf(nEntries + 1);
      }
    }

    /** HT_GROW, where a prime is large enough or none is looked for; `malloced` says which of its two paths it takes. */
    method Grow(size: nat, malloced: bool)
      requires Valid() && !Overruns(size)
      modifies this`table, this`loadLimit, this`primeIdx, this`elems, table, elems`next, elems`home
      ensures Valid() && elems == old(elems) && table != []
      ensures loadLimit > size || primeIdx == |PRIMES| - 1
      ensures old(loadLimit) > size ==> table == old(table)
      ensures forall i :: 0 <= i && old(primeIdx) < i < primeIdx ==> PRIMES[i] / 2 <= size
      ensures forall i :: 0 <= i < |table| ==> table[i] in old(table) || fresh(table[i])
    {
      if primeIdx == |PRIMES| - 1 {
        return;
      }
      if loadLimit > size {
        return;
      }
      var idx := NextPrime(PRIMES, primeIdx, size);
      PrimesGrow(primeIdx, idx);
      Resize(idx, malloced);
    }

    method Resize(idx: nat, malloced: bool)
      requires Valid() && idx < |PRIMES| && PRIMES[idx] >= |table| && nEntries <= PRIMES[idx] / 2
      modifies this`table, this`loadLimit, this`primeIdx, this`elems, table, elems`next, elems`home
      ensures Valid() && elems == old(elems) && primeIdx == idx && |table| == PRIMES[idx] && loadLimit == PRIMES[idx] / 2
      ensures forall i :: 0 <= i < |table| ==> table[i] in old(table) || fresh(table[i])
    {
      hide SlotsOk, RightFrom, KeysDistinct;
      PrimesPositive(idx);
      var hs;
      if malloced {
        hs := RehashFresh(PRIMES[idx]);
      } else {
        hs := RehashInPlace(PRIMES[idx]);
      }
      table, primeIdx, loadLimit := hs, idx, PRIMES[idx] / 2;
    }

    /** An element of the table is in the bucket of its key. */
    lemma InBucket(e: Elem)
      requires Valid() && e in elems
      ensures table != [] && e in table[Bucket(hash(e.key), |table|)].es
    {
      assert Somewhere(e, table);
      var i :| 0 <= i < |table| && table[i] == e.home;
      var k :| 0 <= k < |table[i].es| && table[i].es[k] == e;
      assert Right(table[i], i, |table|);
    }

    /** A bucket holds the elements of the table whose hash leaves its index when divided by the number of buckets. */
    lemma InItsBucket(e: Elem, i: nat)
      requires Valid() && i < |table|
      ensures e in table[i].es <==> e in elems && i == hash(e.key) % |table|
    {
      if e in table[i].es {
        var k :| 0 <= k < |table[i].es| && table[i].es[k] == e;
        assert Right(table[i], i, |table|);
      } else if e in elems {
        InBucket(e);
      }
    }

    lemma BucketFine(b: nat)
      requires Valid() && b < |table|
      ensures table[b].Valid() && forall k :: 0 <= k < |table[b].es| ==> table[b].es[k] in elems
    {
    }

    /** HT_FIND_P: the link to the match, or to the end of its bucket. */
    method FindP(key: nat) returns (b: nat, prev: Elem?, found: Elem?, ghost k: nat)
      requires Valid()
      ensures table != [] ==> b < |table| && table[b].At(prev, k) && found == if k < |table[b].es| then table[b].es[k] else null
      ensures found == null ==> forall e :: e in elems ==> e.key != key
      ensures found != null ==> table != [] && found in elems && found.key == key
    {
      hide Valid, Bucket, Slot.Valid;
      b, prev, found, k := 0, null, null, 0;
      forall e | e in elems ensures table != [] && e in table[Bucket(hash(e.key), |table|)].es {
        InBucket(e);
      }
      if |table| == 0 {
        return;
      }
      b := Bucket(hash(key), |table|);
      BucketFine(b);
      prev, k := table[b].Find(key);
      found := table[b].Deref(prev, k);
    }

    /** HT_FIND. */
    method Find(key: nat) returns (found: Elem?)
      requires Valid()
      ensures found == null ==> forall e :: e in elems ==> e.key != key
      ensures found != null ==> found in elems && found.key == key
    {
      var _, _, e, _ := FindP(key);
      found := e;
    }

    /** HT_INSERT of an element without a match in the table. */
    method Insert(e: Elem, malloced: bool)
      requires Valid() && e.home == null && (forall f :: f in elems ==> f.key != e.key)
      modifies this, table, elems`next, elems`home, e`next, e`home
      ensures Valid() && elems == old(elems) + {e} && table != []
      ensures var b := Bucket(hash(e.key), |table|); table[b].es != [] && table[b].es[0] == e
      ensures forall i :: 0 <= i < |table| ==> table[i] in old(table) || fresh(table[i])
    {
      hide SlotsOk, RightFrom, KeysDistinct;
      if |table| == 0 || nEntries >= loadLimit {
        NextPrimeFits();
        Grow(nEntries + 1, malloced);
      }
      Link(e);
    }

    method Link(e: Elem)
      requires Valid() && e.home == null && (forall f :: f in elems ==> f.key != e.key) && table != []
      requires nEntries < loadLimit || primeIdx == |PRIMES| - 1
      modifies this`elems, this`nEntries, table, e`next, e`home
      ensures Valid() && elems == old(elems) + {e}
      ensures var b := Bucket(hash(e.key), |table|); table[b].es == [e] + old(table[b].es)
    {
      hide SlotsOk, KeysDistinct, Bucket;
      Distinct(table);
      OneMoreKey(elems, e);
      assert e !in elems;
      nEntries := nEntries + 1;
      var b := Bucket(hash(e.key), |table|);
      Place(e, table, table[b]);
      forall i | 0 <= i < |table| ensures Right(table[i], i, |table|) {
        assert old(Right(table[i], i, |table|));
      }
    }

    /** HT_REMOVE. */
    method Remove(key: nat) returns (r: Elem?)
      requires Valid()
      modifies this`elems, this`nEntries, table, elems`next, elems`home
      ensures Valid()
      ensures r == null ==> elems == old(elems) && forall e :: e in elems ==> e.key != key
      ensures r != null ==> r in old(elems) && r.key == key && elems == old(elems) - {r} && r.home == null && r.next == null
    {
      hide Valid;
      var b, prev, e, k := FindP(key);
      r := e;
      if e != null {
        r := CutOut(b, prev, k);
      }
    }

    /** Unlink an element, and count it out. */
    method CutOut(b: nat, prev: Elem?, ghost k: nat) returns (e: Elem)
      requires Valid() && b < |table| && table[b].At(prev, k) && k < |table[b].es|
      modifies this`elems, this`nEntries, table[b], elems`next, elems`home
      ensures Valid() && e in old(elems) && e == old(table[b].es)[k] && elems == old(elems) - {e}
      ensures e.home == null && e.next == null && table[b].At(prev, k)
      ensures table[b].es == old(table[b].es)[..k] + old(table[b].es)[k + 1..]
    {
      hide SlotsOk, KeysDistinct, Bucket;
      Distinct(table);
      SlotElems(table, b);
      e := Unplace(table, table[b], prev, k);
      nEntries := nEntries - 1;
      forall i | 0 <= i < |table| ensures Right(table[i], i, |table|) {
        assert old(Right(table[i], i, |table|));
      }
      OneKeyLess(old(elems), e);
    }

    // ---------- going through the table ----------

    /** The first bucket that is not empty, from `from` on. */
    method NextBucket(from: nat) returns (b: nat)
      requires Valid() && from <= |table|
      ensures from <= b <= |table| && (b < |table| ==> table[b].es != [])
      ensures Listed(table[b..]) == Listed(table[from..])
    {
      hide Valid;
      b := from;
      while b < |table| && table[b].head == null
        invariant from <= b <= |table| && Listed(table[b..]) == Listed(table[from..])
      {
        BucketFine(b);
        assert table[b..][1..] == table[b + 1..];
        b := b + 1;
      }
      if b < |table| {
        BucketFine(b);
      }
    }

    /** A link to the k-th element of bucket b, or, past the last bucket, the end. */
    ghost predicate Cursor(b: nat, prev: Elem?, k: nat)
      reads this`table, table
    {
      b <= |table| && if b == |table| then k == 0 else table[b].At(prev, k) && k < |table[b].es|
    }

    /** The elements from the cursor on. */
    ghost function Rest(b: nat, k: nat): seq<Elem>
      reads this`table, table
    {
      if b >= |table| || k > |table[b].es| then [] else table[b].es[k..] + Listed(table[b + 1..])
    }

    /** HT_START. */
    method Start() returns (b: nat, prev: Elem?)
      requires Valid()
      ensures Cursor(b, prev, 0) && Rest(b, 0) == Listed(table)
    {
      prev := null;
      b := NextBucket(0);
      assert table[0..] == table;
      RestAt(b);
    }

    lemma RestAt(b: nat)
      requires b <= |table|
      ensures Rest(b, 0) == Listed(table[b..])
    {
      if b < |table| {
        assert table[b..][1..] == table[b + 1..] && table[b].es[0..] == table[b].es;
      }
    }

    /** HT_NEXT. */
    method Next(b: nat, prev: Elem?, ghost k: nat) returns (b': nat, prev': Elem?, ghost k': nat)
      requires Valid() && b < |table| && Cursor(b, prev, k)
      ensures Cursor(b', prev', k') && Rest(b, k) == [table[b].es[k]] + Rest(b', k')
    {
      hide Valid, Slot.Valid, Listed, Bucket;
      BucketFine(b);
      var e := table[b].Deref(prev, k);
      ghost var es := table[b].es;
      table[b].NextIs(k);
      assert es[k..] == [es[k]] + es[k + 1..];
      if e.next != null {
        b', prev', k' := b, e, k + 1;
      } else {
        InBucketIs(b, k);
        prev', k' := null, 0;
        b' := NextBucket(Bucket(hash(e.key), |table|) + 1);
        RestAt(b');
      }
    }

    /** HT_NEXT_RMV: take out the element at the cursor, and go on with the one behind it. */
    method NextRmv(b: nat, prev: Elem?, ghost k: nat) returns (b': nat, prev': Elem?, ghost k': nat)
      requires Valid() && b < |table| && Cursor(b, prev, k)
      modifies this`elems, this`nEntries, table, elems`next, elems`home
      ensures Valid() && elems == old(elems) - {old(table[b].es)[k]}
      ensures Cursor(b', prev', k') && old(Rest(b, k)) == [old(table[b].es)[k]] + Rest(b', k')
    {
      hide Valid, Slot.Valid, Listed, Bucket;
      ghost var es := table[b].es;
      InBucketIs(b, k);
      BucketsApart(b);
      var e := CutOut(b, prev, k);
      assert es[k..] == [es[k]] + table[b].es[k..];
      BucketFine(b);
      var next := table[b].Deref(prev, k);
      if next != null {
        b', prev', k' := b, prev, k;
      } else {
        prev', k' := null, 0;
        b' := NextBucket(Bucket(hash(e.key), |table|) + 1);
        RestAt(b');
      }
    }

    lemma BucketsApart(b: nat)
      requires Valid() && b < |table|
      ensures table[b] !in table[b + 1..]
    {
    }

    /** The element at the cursor. */
    method Current(b: nat, prev: Elem?, ghost k: nat) returns (e: Elem)
      requires Valid() && b < |table| && Cursor(b, prev, k)
      ensures e == table[b].es[k] && e in elems
    {
      BucketFine(b);
      e := table[b].Deref(prev, k);
    }

    lemma RestEnds(b: nat, k: nat)
      requires b >= |table|
      ensures Rest(b, k) == []
    {
    }

    /** HT_START and HT_NEXT come by every element of the table, and by none twice. */
    method Enumerate() returns (visited: seq<Elem>)
      requires Valid()
      ensures Unique(visited) && (forall i :: 0 <= i < |visited| ==> visited[i] in elems)
      ensures forall e :: e in elems ==> e in visited
    {
      hide Valid, Listed, Unique, Rest, Cursor;
      visited := [];
      ghost var k: nat, all := 0, Listed(table);
      ListedOnce();
      var b: nat, prev: Elem? := Start();
      while b < |table|
        invariant Cursor(b, prev, k) && all == visited + Rest(b, k)
        decreases |Rest(b, k)|
      {
        var e := Current(b, prev, k);
        ghost var seen := visited;
        visited := visited + [e];
        b, prev, k := Next(b, prev, k);
        Regroup(seen, e, Rest(b, k));
      }
      RestEnds(b, k);
      assert visited + [] == visited;
    }

    /** Every element is listed, and none twice. */
    lemma ListedOnce()
      requires Valid()
      ensures var l := Listed(table);
        Unique(l) && (forall i :: 0 <= i < |l| ==> l[i] in elems) && forall e :: e in elems ==> e in l
    {
      var l := Listed(table);
      TableTidy();
      ListedDistinct(table);
      forall e | e in elems ensures e in l {
        InBucket(e);
        ListedMember(table, e);
      }
      forall i | 0 <= i < |l| ensures l[i] in elems {
        ListedMember(table, l[i]);
      }
    }

    lemma TableTidy()
      requires Valid()
      ensures Tidy(table)
    {
      forall i | 0 <= i < |table| ensures Unique(table[i].es) {
        assert table[i].Valid();
      }
    }

    /** Go through the table and take some elements out. */
    method RemoveAll(keys: set<nat>)
      requires Valid()
      modifies this`elems, this`nEntries, table, elems`next, elems`home
      ensures Valid() && elems == set e | e in old(elems) && e.key !in keys
    {
      hide Valid, Listed, Unique, Rest, Cursor;
      ghost var k: nat, seen: set<Elem> := 0, {};
      ListedOnce();
      var b: nat, prev: Elem? := Start();
      while b < |table|
        invariant Valid() && Cursor(b, prev, k) && elems <= old(elems)
        invariant forall e :: e in old(elems) ==> e in seen || e in Rest(b, k)
        invariant forall e :: e in old(elems) && e in seen ==> (e in elems <==> e.key !in keys)
        invariant forall e :: e in old(elems) && e !in seen ==> e in elems
        decreases |Rest(b, k)|
      {
        var e := Current(b, prev, k);
        seen := seen + {e};
        if e.key in keys {
          b, prev, k := NextRmv(b, prev, k);
        } else {
          b, prev, k := Next(b, prev, k);
        }
      }
      RestEnds(b, k);
    }

    lemma InBucketIs(b: nat, k: nat)
      requires Valid() && b < |table| && k < |table[b].es|
      ensures Bucket(hash(table[b].es[k].key), |table|) == b
    {
      assert Right(table[b], b, |table|);
    }
  }

  const PRIMES: seq<nat> := [
    53, 97, 193, 389,
    769, 1543, 3079, 6151,
    12289, 24593, 49157, 98317,
    196613, 393241, 786433, 1572869,
    3145739, 6291469, 12582917, 25165843,
    50331653, 100663319, 201326611, 402653189,
    805306457, 1610612741
  ]

  /** The load limit of the last prime. */
  const LIMIT := 805306370

  /** The loop of HT_GROW: the first prime behind the current one with a load limit above the size. */
  method NextPrime(primes: seq<nat>, from: int, size: nat) returns (idx: nat)
    requires -1 <= from && exists i :: 0 <= i && from < i < |primes| && primes[i] / 2 > size
    ensures from < idx < |primes| && primes[idx] / 2 > size
    ensures forall i :: 0 <= i && from < i < idx ==> primes[i] / 2 <= size
  {
    idx := from + 1;
    while primes[idx] / 2 <= size
      invariant from < idx < |primes|
      invariant forall i :: 0 <= i && from < i < idx ==> primes[i] / 2 <= size
      decreases |primes| - idx
    {
      idx := idx + 1;
    }
  }

  lemma PrimesBounded()
    ensures forall i :: 0 <= i < |PRIMES| ==> PRIMES[i] / 2 <= LIMIT
    ensures forall i :: 0 <= i < |PRIMES| - 1 ==> PRIMES[i] / 2 + 1 < LIMIT
    ensures PRIMES[|PRIMES| - 1] / 2 == LIMIT
  {
  }

  lemma PrimesPositive(i: nat)
    requires i < |PRIMES|
    ensures PRIMES[i] > 0
  {
  }

  lemma PrimesGrow(i: int, j: nat)
    requires -1 <= i < j < |PRIMES|
    ensures i >= 0 ==> PRIMES[i] < PRIMES[j]
  {
  }

  // ---------- whole runs ----------

  /** Add a key unless it is there, remove one, look one up, grow; with the path that a growth takes. */
  datatype Op = Put(key: nat, malloced: bool) | Take(key: nat) | Has(key: nat) | Enlarge(size: nat, malloced: bool)

  /** The reference: a set of keys. */
  ghost function KeysAfter(ks: set<nat>, ops: seq<Op>): set<nat> {
    if ops == [] then ks
    else
      var before := KeysAfter(ks, ops[..|ops| - 1]);
      match ops[|ops| - 1]
      case Put(k, _) => before + {k}
      case Take(k) => before - {k}
      case Has(_) => before
      case Enlarge(_, _) => before
  }

  lemma Regroup(seen: seq<Elem>, e: Elem, rest: seq<Elem>)
    ensures seen + ([e] + rest) == seen + [e] + rest
  {
  }

  ghost function Keys(es: set<Elem>): set<nat> {
    set e | e in es :: e.key
  }

  lemma KeysAfterOne(ks: set<nat>, op: Op)
    ensures KeysAfter(ks, [op]) == if op.Put? then ks + {op.key} else if op.Take? then ks - {op.key} else ks
  {
    assert [op][..0] == [];
  }

  lemma KeysMember(es: set<Elem>, e: Elem)
    requires e in es
    ensures e.key in Keys(es) && Keys(es) + {e.key} == Keys(es)
  {
  }

  lemma KeysAbsent(es: set<Elem>, k: nat)
    requires forall e :: e in es ==> e.key != k
    ensures k !in Keys(es) && Keys(es) - {k} == Keys(es)
  {
  }

  lemma KeysWith(es: set<Elem>, e: Elem)
    ensures Keys(es + {e}) == Keys(es) + {e.key}
  {
  }

  lemma KeysWithout(es: set<Elem>, e: Elem)
    requires KeysDistinct(es) && e in es
    ensures Keys(es - {e}) == Keys(es) - {e.key}
  {
  }

  lemma EnlargeFits(t: Table, size: nat)
    requires t.Valid() && size < LIMIT
    ensures !t.Overruns(size)
  {
    t.OverrunsIf(size);
  }

  lemma Counts(t: Table)
    requires t.Valid()
    ensures t.nEntries == |t.elems| && KeysDistinct(t.elems)
  {
  }

  /** One operation: what it answers and what it leaves. */
  method Perform(t: Table, op: Op) returns (found: bool)
    requires t.Valid() && (op.Enlarge? ==> op.size < LIMIT)
    modifies t, t.table, t.elems`next, t.elems`home
    ensures t.Valid()
    ensures Keys(t.elems) == KeysAfter(old(Keys(t.elems)), [op])
    ensures !op.Enlarge? ==> (found <==> op.key in old(Keys(t.elems)))
    ensures forall i :: 0 <= i < |t.table| ==> t.table[i] in old(t.table) || fresh(t.table[i])
    ensures forall e :: e in t.elems ==> e in old(t.elems) || fresh(e)
  {
    hide Table.Valid, Keys, KeysDistinct, KeysAfter;
    ghost var es := t.elems;
    KeysAfterOne(Keys(es), op);
    match op {
      case Put(k, malloced) =>
        var e := t.Find(k);
        found := e != null;
        if e == null {
          KeysAbsent(es, k);
          var n := new Elem(k);
          t.Insert(n, malloced);
          KeysWith(es, n);
        } else {
          KeysMember(es, e);
        }
      case Take(k) =>
        Counts(t);
        var e := t.Remove(k);
        found := e != null;
        if e == null {
          KeysAbsent(es, k);
        } else {
          KeysMember(es, e);
          KeysWithout(es, e);
        }
      case Has(k) =>
        var e := t.Find(k);
        found := e != null;
        if e == null {
          KeysAbsent(es, k);
        } else {
          KeysMember(es, e);
        }
      case Enlarge(size, malloced) =>
        EnlargeFits(t, size);
        t.Grow(size, malloced);
        found := false;
    }
  }

  /** In every run the table is the set of its keys, and answers as the set would. */
  method Run(t: Table, ops: seq<Op>) returns (found: seq<bool>)
    requires t.Valid()
    requires forall i :: 0 <= i < |ops| && ops[i].Enlarge? ==> ops[i].size < LIMIT
    modifies t, t.table, t.elems`next, t.elems`home
    ensures t.Valid() && |found| == |ops| && Keys(t.elems) == KeysAfter(old(Keys(t.elems)), ops)
    ensures forall i :: 0 <= i < |ops| && !ops[i].Enlarge? ==>
      (found[i] <==> ops[i].key in KeysAfter(old(Keys(t.elems)), ops[..i]))
  {
    hide Table.Valid, Keys;
    ghost var ks := Keys(t.elems);
    found := [];
    while |found| < |ops|
      invariant t.Valid() && |found| <= |ops|
      invariant Keys(t.elems) == KeysAfter(ks, ops[..|found|])
      invariant forall i :: 0 <= i < |found| && !ops[i].Enlarge? ==> (found[i] <==> ops[i].key in KeysAfter(ks, ops[..i]))
      invariant forall i :: 0 <= i < |t.table| ==> t.table[i] in old(t.table) || fresh(t.table[i])
      invariant forall e :: e in t.elems ==> e in old(t.elems) || fresh(e)
    {
      var k := |found|;
      KeysStep(ks, ops, k);
      var f := Perform(t, ops[k]);
      found := found + [f];
    }
    assert ops[..|found|] == ops;
  }

  lemma KeysStep(ks: set<nat>, ops: seq<Op>, k: nat)
    requires k < |ops|
    ensures KeysAfter(ks, ops[..k + 1]) == KeysAfter(KeysAfter(ks, ops[..k]), [ops[k]])
  {
    assert ops[..k + 1][..k] == ops[..k];
    assert [ops[k]][..0] == [];
  }
}

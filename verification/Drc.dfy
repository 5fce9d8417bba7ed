/**
  The duplicate request cache of the NFS server: a ring of 256 slots, each reply valid for
  30 seconds. `Cache` works in place on the ring; its abstract value is the plain history
  of every reply ever stored.
*/
module Drc {
  import opened Bytes

  const SLOTS := 256
  const REPLY_MAX := 512
  const TTL := 30

  datatype Key = Key(addr: u32, port: int, xid: u32)
  datatype Entry = Entry(key: Key, when: int, reply: seq<byte>)

  predicate Live(e: Entry, key: Key, now: int) {
    e.key == key && now - e.when <= TTL
  }

  /** Index of the oldest store still in the ring. */
  function Oldest(stores: seq<Entry>): (k: nat)
    ensures k <= |stores|
  {
    if |stores| > SLOTS then |stores| - SLOTS else 0
  }

  /** The newest store among the last 256 that answers `key` at time `now`. */
  function Lookup(stores: seq<Entry>, key: Key, now: int): (r: Option<nat>)
    ensures r.Some? ==> Oldest(stores) <= r.value < |stores| && Live(stores[r.value], key, now)
    ensures r.None? ==> forall k :: Oldest(stores) <= k < |stores| ==> !Live(stores[k], key, now)
  {
    LookupFrom(stores, |stores|, key, now)
  }

  function LookupFrom(stores: seq<Entry>, n: nat, key: Key, now: int): (r: Option<nat>)
    requires Oldest(stores) <= n <= |stores|
    ensures r.Some? ==> Oldest(stores) <= r.value < n && Live(stores[r.value], key, now)
    ensures r.None? ==> forall k :: Oldest(stores) <= k < n ==> !Live(stores[k], key, now)
  {
    if n == Oldest(stores) then None
    else if Live(stores[n - 1], key, now) then Some(n - 1)
    else LookupFrom(stores, n - 1, key, now)
  }

  function Store(stores: seq<Entry>, e: Entry): seq<Entry> {
    if |e.reply| > REPLY_MAX then stores else stores + [e]
  }

  /** At time `now` no key has two live replies within reach of each other in the ring. */
  predicate OneLive(stores: seq<Entry>, now: int) {
    forall j, k :: 0 <= j < k < |stores| && k - j < SLOTS && stores[j].key == stores[k].key ==> !Live(stores[j], stores[j].key, now)
  }

  /** A store made only after a lookup found nothing keeps replies unambiguous from then on. */
  lemma StoreKeepsOneLive(stores: seq<Entry>, e: Entry, asked: int, later: int)
    requires OneLive(stores, asked) && Lookup(stores, e.key, asked).None? && asked <= later
    ensures OneLive(Store(stores, e), later)
  {
    var s := Store(stores, e);
    forall j, k | 0 <= j < k < |s| && k - j < SLOTS && s[j].key == s[k].key
      ensures !Live(s[j], s[j].key, later)
    {
      if k < |stores| {
        assert !Live(stores[j], stores[j].key, asked);
      } else {
        assert j >= Oldest(stores);
        assert !Live(stores[j], e.key, asked);
      }
    }
  }

  /** When replies are unambiguous every live match in the ring is the one the lookup finds. */
  lemma LookupUnique(stores: seq<Entry>, key: Key, now: int, k: nat)
    requires OneLive(stores, now) && Oldest(stores) <= k < |stores| && Live(stores[k], key, now)
    ensures Lookup(stores, key, now) == Some(k)
  {
    assert Lookup(stores, key, now).Some?;
  }

  /** The ring. Slot `k % 256` holds store number `k` for the last 256 stores. */
  class Cache {
    const slots: array<Option<Entry>>
    var next: nat
    ghost var stores: seq<Entry>

    ghost predicate Valid()
      reads this, slots
    {
      && slots.Length == SLOTS
      && next == |stores| % SLOTS
      && (forall i :: 0 <= i < SLOTS ==> slots[i] == SlotOf(stores, i))
    }

    /** The store a slot holds: the newest whose number is `i` modulo 256. */
    static ghost function SlotOf(stores: seq<Entry>, i: nat): Option<Entry>
      requires i < SLOTS
    {
      var k := Owner(|stores|, i);
      if k < 0 then None else Some(stores[k])
    }

    /** Number of the newest store in slot `i` after `n` stores, negative if there is none. */
    static ghost function Owner(n: nat, i: nat): (k: int)
      requires i < SLOTS
      ensures n - SLOTS <= k < n
    {
      var r := n % SLOTS;
      if i < r then n - r + i else n - r - SLOTS + i
    }

    static lemma OwnerCovers(n: nat, k: nat)
      requires n - SLOTS <= k < n
      ensures Owner(n, k % SLOTS) == k
    {
      var r, q := n % SLOTS, n / SLOTS;
      assert n == q * SLOTS + r;
      if k >= q * SLOTS {
        assert (k - q * SLOTS) % SLOTS == k % SLOTS;
      } else {
        assert (k - (q - 1) * SLOTS) % SLOTS == k % SLOTS;
      }
    }

    static lemma OwnerNext(n: nat, i: nat)
      requires i < SLOTS
      ensures Owner(n + 1, i) == if i == n % SLOTS then n else Owner(n, i)
    {
    }

    constructor ()
      ensures Valid() && stores == [] && fresh(slots)
    {
      slots := new Option<Entry>[SLOTS](_ => None);
      next, stores := 0, [];
    }

    /**
      Scan the slots in index order. A reply is found exactly when one of the last 256
      stores has this key and is at most 30 seconds old, and it is that of the newest
      such store whenever keys are unambiguous.
    */
    method Find(key: Key, now: int) returns (hit: Option<Entry>)
      requires Valid()
      ensures hit.Some? <==> exists k :: Oldest(stores) <= k < |stores| && Live(stores[k], key, now)
      ensures hit.Some? ==> hit.value in stores && Live(hit.value, key, now)
      ensures OneLive(stores, now) ==>
        hit == match Lookup(stores, key, now) case None => None case Some(k) => Some(stores[k])
    {
      var i := 0;
      while i < SLOTS
        invariant 0 <= i <= SLOTS
        invariant forall j :: 0 <= j < i ==> slots[j].None? || !Live(slots[j].value, key, now)
      {
        if slots[i].Some? && Live(slots[i].value, key, now) {
          ghost var k := Owner(|stores|, i);
          assert slots[i] == SlotOf(stores, i);
          assert k >= Oldest(stores) && Live(stores[k], key, now);
          if OneLive(stores, now) { LookupUnique(stores, key, now, k); }
          return slots[i];
        }
        i := i + 1;
      }
      forall k | Oldest(stores) <= k < |stores| ensures !Live(stores[k], key, now) {
        OwnerCovers(|stores|, k);
        assert slots[k % SLOTS] == SlotOf(stores, k % SLOTS);
      }
      return None;
    }

    /** Remember a reply in the slot under the write cursor, unless it is oversize. */
    method Put(key: Key, reply: seq<byte>, now: int)
      requires Valid()
      modifies this, slots
      ensures Valid() && stores == Store(old(stores), Entry(key, now, reply))
    {
      if |reply| > REPLY_MAX {
        return;
      }
      forall i | 0 <= i < SLOTS
        ensures Owner(|stores| + 1, i) == if i == next then |stores| else Owner(|stores|, i)
      {
        OwnerNext(|stores|, i);
      }
      slots[next] := Some(Entry(key, now, reply));
      next := (next + 1) % SLOTS;
      stores := stores + [Entry(key, now, reply)];
    }
  }
}

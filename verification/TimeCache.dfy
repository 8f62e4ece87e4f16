/** A cache whose entries expire: a lazily cleaned list that stands for a filter by time. */
module TimeCache {

  datatype Expiring<+T> = Expiring(element: T, expires: nat)

  type Entries<K, V> = map<K, Expiring<V>>

  /** The entries that are still alive at `now`. */
  function Alive<K, V>(m: Entries<K, V>, now: nat): Entries<K, V> {
    map k | k in m && m[k].expires > now :: m[k]
  }

  /** Expiry times in the list never decrease and are at most `limit`. */
  ghost predicate Sorted<K>(list: seq<Expiring<K>>, limit: nat) {
    && (forall i, j :: 0 <= i < j < |list| ==> list[i].expires <= list[j].expires)
    && (forall i :: 0 <= i < |list| ==> list[i].expires <= limit)
  }

  /** Every key is listed with its current expiry, among possibly older listings of it. */
  ghost predicate Covered<K, V>(m: Entries<K, V>, list: seq<Expiring<K>>) {
    forall k :: k in m ==> Expiring(k, m[k].expires) in list
  }

  /** When the head of the list is alive, so is everything. */
  lemma AliveHead<K, V>(m: Entries<K, V>, list: seq<Expiring<K>>, limit: nat, now: nat)
    requires Sorted(list, limit) && Covered(m, list) && list != [] && list[0].expires > now
    ensures m == Alive(m, now)
  {
    forall k | k in m ensures m[k].expires > now {
      var i :| 0 <= i < |list| && list[i] == Expiring(k, m[k].expires);
    }
  }

  function WithoutExpired<K, V>(m: Entries<K, V>, k: K, now: nat): Entries<K, V> {
    if k in m && m[k].expires <= now then m - {k} else m
  }

  /** An expired head is dropped, with its key if that is expired too: what is alive stays, and what stays is listed. */
  lemma DropHead<K, V>(m: Entries<K, V>, list: seq<Expiring<K>>, limit: nat, now: nat)
    requires Sorted(list, limit) && Covered(m, list) && list != [] && list[0].expires <= now
    ensures var left := WithoutExpired(m, list[0].element, now);
            Sorted(list[1..], limit) && Covered(left, list[1..]) && Alive(left, now) == Alive(m, now)
  {
    var left := WithoutExpired(m, list[0].element, now);
    ExpiredIsNotAlive(m, list[0].element, now);
    hide Alive;
    assert Sorted(list[1..], limit) by {
      assert forall i :: 0 <= i < |list| - 1 ==> list[1..][i] == list[i + 1];
    }
    hide Sorted;
    forall k | k in left ensures Expiring(k, left[k].expires) in list[1..] {
      var i :| 0 <= i < |list| && list[i] == Expiring(k, m[k].expires);
      assert i > 0 && list[1..][i - 1] == list[i];
    }
  }

  lemma ExpiredIsNotAlive<K, V>(m: Entries<K, V>, k: K, now: nat)
    ensures Alive(WithoutExpired(m, k, now), now) == Alive(m, now)
  {
  }

  lemma NothingListed<K, V>(m: Entries<K, V>, now: nat)
    requires Covered(m, [])
    ensures m == map[] && Alive(m, now) == m
  {
  }

  class TimeCache<K(==), V> {
    var entries: Entries<K, V>
    var list: seq<Expiring<K>>
    const ttl: nat

    /** `clock` is a time not later than any coming call. */
    ghost predicate Valid(clock: nat)
      reads this
    {
      Sorted(list, clock + ttl) && Covered(entries, list)
    }

    constructor (ttl: nat)
      ensures this.ttl == ttl && entries == map[] && list == [] && Valid(0)
    {
      this.ttl, entries, list := ttl, map[], [];
    }

    method RemoveExpiredKeys(now: nat)
      requires Valid(now)
      modifies this
      ensures Valid(now) && entries == Alive(old(entries), now)
    {
      hide Sorted, Covered, Alive;
      ghost var was := entries;
      while list != []
        invariant Sorted(list, now + ttl) && Covered(entries, list)
        invariant Alive(entries, now) == Alive(was, now)
        decreases |list|
      {
        var element := list[0];
        ghost var before := list;
        list := list[1..];
        if element.expires > now {
          list := [element] + list;
          assert list == before;
          AliveHead(entries, list, now + ttl, now);
          return;
        }
        DropHead(entries, before, now + ttl, now);
        if element.element in entries && entries[element.element].expires <= now {
          entries := entries - {element.element};
        }
      }
      NothingListed(entries, now);
    }

    /** `entry`: what is left at `now` under `key`, and when a new value for it would expire. */
    method Entry(key: K, now: nat) returns (occupied: bool, expiration: nat)
      requires Valid(now)
      modifies this
      ensures Valid(now) && entries == Alive(old(entries), now)
      ensures occupied == (key in entries) && expiration == now + ttl
    {
      RemoveExpiredKeys(now);
      occupied, expiration := key in entries, now + ttl;
    }

    method Push(key: K, value: V, expiration: nat, ghost now: nat)
      requires Valid(now) && expiration == now + ttl
      modifies this
      ensures Valid(now) && entries == old(entries)[key := Expiring(value, expiration)]
    {
      list := list + [Expiring(key, expiration)];
      entries := entries[key := Expiring(value, expiration)];
      assert list[|list| - 1] == Expiring(key, expiration);
      assert forall e :: e in old(list) ==> e in list;
    }

    /** `VacantEntry::insert` and `OccupiedEntry::insert_and_update_expiration`, after `entry`. */
    method Insert(key: K, value: V, now: nat)
      requires Valid(now)
      modifies this
      ensures Valid(now) && entries == Alive(old(entries), now)[key := Expiring(value, now + ttl)]
    {
      var _, expiration := Entry(key, now);
      Push(key, value, expiration, now);
    }

    /** `OccupiedEntry::insert_without_updating_expiration`, after `entry`; a vacant entry is left alone. */
    method Replace(key: K, value: V, now: nat)
      requires Valid(now)
      modifies this
      ensures Valid(now)
      ensures var alive := Alive(old(entries), now);
              entries == if key in alive then alive[key := Expiring(value, alive[key].expires)] else alive
    {
      var occupied, _ := Entry(key, now);
      if occupied { entries := entries[key := Expiring(value, entries[key].expires)]; }
    }

    /** `Entry::or_insert_with`, after `entry`. */
    method OrInsert(key: K, value: V, now: nat) returns (inserted: bool)
      requires Valid(now)
      modifies this
      ensures Valid(now)
      ensures var alive := Alive(old(entries), now);
              inserted == (key !in alive)
              && entries == if inserted then alive[key := Expiring(value, now + ttl)] else alive
    {
      var occupied, expiration := Entry(key, now);
      if !occupied { Push(key, value, expiration, now); }
      inserted := !occupied;
    }

    method Clear()
      modifies this
      ensures entries == map[] && list == [] && Valid(0)
    {
      entries, list := map[], [];
    }
  }

  /** A listing stays sorted below the expiry of a new entry as the clock advances. */
  lemma LaterClock<K>(list: seq<Expiring<K>>, clock: nat, now: nat, ttl: nat)
    requires Sorted(list, clock + ttl) && clock <= now
    ensures Sorted(list, now + ttl)
  {
  }

  // The duplicate filter

  datatype Offer<+K> = Offer(key: K, now: nat)

  /** `DuplicateCache::insert` on the entries: what it answers and what it leaves. */
  function InsertKey<K>(m: Entries<K, ()>, o: Offer<K>, ttl: nat): (bool, Entries<K, ()>) {
    var alive := Alive(m, o.now);
    if o.key in alive then (false, alive) else (true, alive[o.key := Expiring((), o.now + ttl)])
  }

  class DuplicateCache<K(==)> {
    const inner: TimeCache<K, ()>

    constructor (ttl: nat)
      ensures inner.ttl == ttl && inner.entries == map[] && inner.Valid(0) && fresh(inner)
    {
      inner := new TimeCache(ttl);
    }

    method Insert(key: K, now: nat) returns (accepted: bool)
      requires inner.Valid(now)
      modifies inner
      ensures inner.Valid(now) && (accepted, inner.entries) == InsertKey(old(inner.entries), Offer(key, now), inner.ttl)
    {
      accepted := inner.OrInsert(key, (), now);
    }

    /** A run of inserts into a new cache, at times that do not go back. */
    method InsertAll(offers: seq<Offer<K>>) returns (answers: seq<bool>)
      requires inner.Valid(0) && inner.entries == map[] && Monotone(offers)
      modifies inner
      ensures |answers| == |offers|
      ensures forall i :: 0 <= i < |offers| ==>
                (answers[i] <==> !AcceptedRecently(offers, i, offers[i].key, offers[i].now, inner.ttl))
    {
      hide Alive, Sorted, Covered, AcceptedRecently;
      answers := [];
      ghost var clock: nat := 0;
      for i := 0 to |offers|
        invariant |answers| == i && inner.Valid(clock) && (i < |offers| ==> clock <= offers[i].now)
        invariant inner.entries == After(offers[..i], inner.ttl)
        invariant forall j :: 0 <= j < i ==> answers[j] == Accepted(offers, j, inner.ttl)
      {
        var offer := offers[i];
        LaterClock(inner.list, clock, offer.now, inner.ttl);
        var accepted := Insert(offer.key, offer.now);
        assert offers[..i + 1][..i] == offers[..i];
        answers := answers + [accepted];
        clock := offer.now;
      }
      forall i | 0 <= i < |offers|
        ensures answers[i] <==> !AcceptedRecently(offers, i, offers[i].key, offers[i].now, inner.ttl)
      {
        RefusedIffRecentlyAccepted(offers, i, inner.ttl);
      }
    }
  }

  /** The entries after a series of inserts. */
  function After<K>(offers: seq<Offer<K>>, ttl: nat): Entries<K, ()> {
    if offers == [] then map[]
    else InsertKey(After(offers[..|offers| - 1], ttl), offers[|offers| - 1], ttl).1
  }

  predicate Accepted<K(==)>(offers: seq<Offer<K>>, i: nat, ttl: nat)
    requires i < |offers|
  {
    InsertKey(After(offers[..i], ttl), offers[i], ttl).0
  }

  predicate Monotone<K>(offers: seq<Offer<K>>) {
    forall i, j :: 0 <= i < j < |offers| ==> offers[i].now <= offers[j].now
  }

  /** Among the first `n` offers, `key` was accepted at a time from which it has not expired at `t`. */
  predicate AcceptedRecently<K(==)>(offers: seq<Offer<K>>, n: nat, key: K, t: nat, ttl: nat)
    requires n <= |offers|
  {
    exists j :: 0 <= j < n && offers[j].key == key && Accepted(offers, j, ttl) && t < offers[j].now + ttl
  }

  /** What an insert changes of whether a key is alive at a later time. */
  lemma InsertedAlive<K>(before: Entries<K, ()>, o: Offer<K>, ttl: nat, key: K, t: nat)
    requires o.now <= t
    ensures var (accepted, m) := InsertKey(before, o, ttl);
            (key in m && m[key].expires > t) <==>
            if o.key == key && accepted then t < o.now + ttl else key in before && before[key].expires > t
    ensures InsertKey(before, o, ttl).0 <==> !(o.key in before && before[o.key].expires > o.now)
  {
  }

  lemma RecentlySnoc<K>(offers: seq<Offer<K>>, n: nat, key: K, t: nat, ttl: nat)
    requires 0 < n <= |offers|
    ensures var o := offers[n - 1];
            AcceptedRecently(offers, n, key, t, ttl) <==>
            || AcceptedRecently(offers, n - 1, key, t, ttl)
            || (o.key == key && Accepted(offers, n - 1, ttl) && t < o.now + ttl)
  {
    hide Accepted;
    if AcceptedRecently(offers, n - 1, key, t, ttl) {
      var j :| 0 <= j < n - 1 && offers[j].key == key && Accepted(offers, j, ttl) && t < offers[j].now + ttl;
      assert 0 <= j < n;
    }
  }

  lemma RecentAtALaterTime<K>(offers: seq<Offer<K>>, n: nat, key: K, now: nat, t: nat, ttl: nat)
    requires n <= |offers| && now <= t
    ensures AcceptedRecently(offers, n, key, t, ttl) ==> AcceptedRecently(offers, n, key, now, ttl)
  {
    hide Accepted;
    if j :| 0 <= j < n && offers[j].key == key && Accepted(offers, j, ttl) && t < offers[j].now + ttl {
      assert now < offers[j].now + ttl;
    }
  }

  lemma AfterSnoc<K>(offers: seq<Offer<K>>, n: nat, ttl: nat)
    requires 0 < n <= |offers|
    ensures After(offers[..n], ttl) == InsertKey(After(offers[..n - 1], ttl), offers[n - 1], ttl).1
    ensures Accepted(offers, n - 1, ttl) == InsertKey(After(offers[..n - 1], ttl), offers[n - 1], ttl).0
  {
    assert offers[..n][..n - 1] == offers[..n - 1];
  }

  lemma {:induction false} EntriesAreRecent<K>(offers: seq<Offer<K>>, n: nat, key: K, t: nat, ttl: nat)
    requires Monotone(offers) && n <= |offers| && (n > 0 ==> offers[n - 1].now <= t)
    ensures var m := After(offers[..n], ttl);
            (key in m && m[key].expires > t) <==> AcceptedRecently(offers, n, key, t, ttl)
  {
    if n > 0 {
      hide After, InsertKey, Accepted, AcceptedRecently;
      var o := offers[n - 1];
      AfterSnoc(offers, n, ttl);
      RecentlySnoc(offers, n, key, t, ttl);
      InsertedAlive(After(offers[..n - 1], ttl), o, ttl, key, t);
      EntriesAreRecent(offers, n - 1, key, t, ttl);
      if o.key == key && Accepted(offers, n - 1, ttl) {
        EntriesAreRecent(offers, n - 1, key, o.now, ttl);
        RecentAtALaterTime(offers, n - 1, key, o.now, t, ttl);
      }
    }
  }

  /** An insert is refused if and only if the key was accepted less than `ttl` before. */
  lemma RefusedIffRecentlyAccepted<K>(offers: seq<Offer<K>>, i: nat, ttl: nat)
    requires Monotone(offers) && i < |offers|
    ensures !Accepted(offers, i, ttl) <==> AcceptedRecently(offers, i, offers[i].key, offers[i].now, ttl)
  {
    EntriesAreRecent(offers, i, offers[i].key, offers[i].now, ttl);
  }

  /** Two accepted inserts of one key are at least `ttl` apart. */
  lemma AcceptedInsertsAreApart<K>(offers: seq<Offer<K>>, i: nat, j: nat, ttl: nat)
    requires Monotone(offers) && i < j < |offers| && offers[i].key == offers[j].key
    requires Accepted(offers, i, ttl) && Accepted(offers, j, ttl)
    ensures offers[j].now >= offers[i].now + ttl
  {
    RefusedIffRecentlyAccepted(offers, j, ttl);
  }
}

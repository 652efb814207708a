/**
 `ExpiringMap<K, V>`: a key/value map in which every entry is evicted a fixed
 time-to-live after its most recent `set`. The backing JavaScript `Map` is
 the key order `order` together with `store`, which gives each key its value
 and the handle of the timer that will evict it. The container owns its
 scheduler `sched`.
 */
module ExpiringMaps {
  import opened Timers
  import opened InsertionOrder

  /** What the backing map stores per key: the value and its eviction timer's handle. */
  datatype Entry<V> = Entry(value: V, timeout: Handle)

  /** `V | undefined`, the result of `get`. */
  datatype Option<T> = None | Some(value: T)

  /** The handle each present key holds. */
  function LiveTimers<K, V>(store: map<K, Entry<V>>): map<K, Handle>
  {
    map k | k in store :: store[k].timeout
  }

  /** The key order paired with each stored value, as `entries()` copies it out. */
  function Snapshot<K, V>(keys: seq<K>, store: map<K, Entry<V>>): (r: seq<(K, V)>)
    requires forall k :: k in keys ==> k in store
    ensures |r| == |keys|
    ensures forall i :: 0 <= i < |keys| ==> r[i] == (keys[i], store[keys[i]].value)
  {
    if keys == [] then [] else [(keys[0], store[keys[0]].value)] + Snapshot(keys[1..], store)
  }

  /** The stored values in key order, as `values()` copies them out. */
  function ValuesOf<K, V>(keys: seq<K>, store: map<K, Entry<V>>): (r: seq<V>)
    requires forall k :: k in keys ==> k in store
    ensures |r| == |keys|
    ensures forall i :: 0 <= i < |keys| ==> r[i] == store[keys[i]].value
  {
    if keys == [] then [] else [store[keys[0]].value] + ValuesOf(keys[1..], store)
  }

  /**
   The invariant of the map: the key order lists each stored key once, and
   the stored handles are exactly the pending timers, each evicting the key
   that holds it.
   */
  ghost predicate Consistent<K, V>(order: seq<K>, store: map<K, Entry<V>>, sched: Scheduler<K>)
  {
    && Distinct(order)
    && (forall k :: k in order ==> k in store)
    && (forall k :: k in store ==> k in order)
    && WellFormed(sched)
    && Tracks(LiveTimers(store), sched.pending)
  }

  /**
   No two present keys share a timer handle, so cancelling one key's timer
   never disturbs another key's eviction.
   */
  lemma HandlesDistinct<K, V>(order: seq<K>, store: map<K, Entry<V>>, sched: Scheduler<K>, a: K, b: K)
    requires Consistent(order, store, sched)
    requires a in store && b in store && a != b
    ensures store[a].timeout != store[b].timeout
  {
    var live := LiveTimers(store);
    assert live[a] == store[a].timeout && live[b] == store[b].timeout;
    assert sched.pending[live[a]].key == a && sched.pending[live[b]].key == b;
  }

  /**
   `set` keeps the invariant: the old timer of the key (if any) is cancelled,
   the fresh handle is the key's only pending timer, and it is due one TTL
   from now.
   */
  lemma SetKeepsConsistent<K, V>(order: seq<K>, store: map<K, Entry<V>>, sched: Scheduler<K>, key: K, value: V, ttl: nat)
    requires Consistent(order, store, sched)
    ensures var base := if key in store then Cancel(sched, store[key].timeout) else sched;
            var sched' := Schedule(base, key, ttl);
            && Consistent(Insert(order, key), store[key := Entry(value, sched.next)], sched')
            && sched.next !in sched.pending
            && (key in store ==> store[key].timeout !in sched'.pending)
            && TimersOf(sched'.pending, key) == {sched.next}
            && sched'.pending[sched.next].deadline == sched.now + ttl
  {
    var base := if key in store then Cancel(sched, store[key].timeout) else sched;
    var sched' := Schedule(base, key, ttl);
    var store' := store[key := Entry(value, sched.next)];
    assert LiveTimers(store') == LiveTimers(store)[key := sched.next];
    TracksRefresh(LiveTimers(store), sched, key, ttl);
    OneTimerPerKey(LiveTimers(store'), sched'.pending, key);
  }

  /**
   Dropping a present key together with its timer keeps the invariant; this
   is what `delete` does, and what the eviction callback does when the key's
   timer runs.
   */
  lemma DropKeepsConsistent<K, V>(order: seq<K>, store: map<K, Entry<V>>, sched: Scheduler<K>, key: K)
    requires Consistent(order, store, sched) && key in store
    ensures Consistent(Remove(order, key), store - {key}, Cancel(sched, store[key].timeout))
    ensures TimersOf(Cancel(sched, store[key].timeout).pending, key) == {}
  {
    assert LiveTimers(store - {key}) == LiveTimers(store) - {key};
    TracksDrop(LiveTimers(store), sched.pending, key);
    OneTimerPerKey(LiveTimers(store - {key}), Cancel(sched, store[key].timeout).pending, key);
  }

  /**
   `set` of a key that is not present followed by `delete` of it restores the
   key order, the entries and the pending timers.
   */
  lemma SetThenDeleteRestores<K, V>(order: seq<K>, store: map<K, Entry<V>>, sched: Scheduler<K>, key: K, value: V, ttl: nat)
    requires key !in order && key !in store && WellFormed(sched)
    ensures var store' := store[key := Entry(value, sched.next)];
            && Remove(Insert(order, key), key) == order
            && store' - {key} == store
            && Cancel(Schedule(sched, key, ttl), store'[key].timeout).pending == sched.pending
  {
    var store' := store[key := Entry(value, sched.next)];
    assert Remove(Insert(order, key), key) == order by {
      RemoveInserted(order, key);
    }
    assert store' - {key} == store by {
      assert (store' - {key}).Keys == store.Keys;
    }
    assert Cancel(Schedule(sched, key, ttl), store'[key].timeout).pending == sched.pending by {
      CancelUndoesSchedule(sched, key, ttl);
    }
  }

  class ExpiringMap<K(==), V> {
    const ttl: nat
    var order: seq<K>
    var store: map<K, Entry<V>>
    var sched: Scheduler<K>

    ghost predicate Valid()
      reads this
    {
      Consistent(order, store, sched)
    }

    constructor (ttl: nat)
      ensures Valid() && this.ttl == ttl
      ensures order == [] && store == map[] && sched == Idle()
    {
      this.ttl := ttl;
      order, store, sched := [], map[], Idle();
    }

    /** `has(key)`: the key is present exactly when a pending timer will evict it. */
    function Has(key: K): (r: bool)
      requires Valid()
      reads this
      ensures r <==> key in Keys()
      ensures r <==> TimersOf(sched.pending, key) != {}
    {
      OneTimerPerKey(LiveTimers(store), sched.pending, key);
      key in store
    }

    /** `get(key)`: the value that `entries()` pairs with the key, if any. */
    function Get(key: K): (r: Option<V>)
      requires Valid()
      reads this
      ensures r.Some? <==> Has(key)
      ensures r.Some? ==> (key, r.value) in Entries()
      ensures forall e :: e in Entries() && e.0 == key ==> r == Some(e.1)
    {
      if key in store then
        assert (key, store[key].value) in Entries() by {
          var i :| 0 <= i < |order| && order[i] == key;
          assert Entries()[i] == (key, store[key].value);
        }
        Some(store[key].value)
      else
        None
    }

    /** `size`: the number of entries, which is also the number of pending timers. */
    function Size(): (r: nat)
      requires Valid()
      reads this
      ensures r == |Keys()| && r == |store|
      ensures r == |sched.pending|
    {
      DistinctCovers(order, store.Keys);
      TracksCard(LiveTimers(store), sched.pending);
      assert LiveTimers(store).Keys == store.Keys;
      |order|
    }

    /** `keys()`: every present key once, in insertion order. */
    function Keys(): (r: seq<K>)
      requires Valid()
      reads this
      ensures Distinct(r)
      ensures forall k :: k in r ==> k in store
      ensures forall k :: k in store ==> k in r
    {
      order
    }

    /** `entries()`: a snapshot pairing each key, in order, with its stored value. */
    function Entries(): (r: seq<(K, V)>)
      requires Valid()
      reads this
      ensures |r| == |Keys()|
      ensures forall i :: 0 <= i < |r| ==> r[i].0 == Keys()[i] && r[i].0 in store && r[i].1 == store[r[i].0].value
    {
      Snapshot(order, store)
    }

    /** `values()`: a snapshot of the second components of `entries()`. */
    function Values(): (r: seq<V>)
      requires Valid()
      reads this
      ensures |r| == |Entries()|
      ensures forall i :: 0 <= i < |r| ==> r[i] == Entries()[i].1
    {
      ValuesOf(order, store)
    }

    /** The time at which the one pending timer of a present key becomes due. */
    function Deadline(key: K): (d: nat)
      requires Valid() && Has(key)
      reads this
      ensures forall h :: h in TimersOf(sched.pending, key) ==> sched.pending[h].deadline == d
    {
      OneTimerPerKey(LiveTimers(store), sched.pending, key);
      sched.pending[store[key].timeout].deadline
    }

    /**
     `set(key, value)`: cancels the key's old timer, schedules a fresh one for
     the full TTL and stores the value with the fresh handle.
     */
    method Set(key: K, value: V)
      requires Valid()
      modifies this
      ensures Valid()
      ensures order == Insert(old(order), key)
      ensures store == old(store)[key := Entry(value, old(sched.next))]
      ensures sched == Schedule(if key in old(store) then Cancel(old(sched), old(store[key].timeout)) else old(sched), key, ttl)
      ensures Get(key) == Some(value)
      ensures key in old(store) ==> old(store[key].timeout) !in sched.pending
      ensures store[key].timeout !in old(sched.pending)
      ensures TimersOf(sched.pending, key) == {store[key].timeout}
      ensures Deadline(key) == old(sched.now) + ttl
    {
      SetKeepsConsistent(order, store, sched, key, value, ttl);
      if key in store {
        sched := Cancel(sched, store[key].timeout);
      }
      var timeout := sched.next;
      sched := Schedule(sched, key, ttl);
      order := Insert(order, key);
      store := store[key := Entry(value, timeout)];
    }

    /** `delete(key)`: reports whether the key was present, and if so cancels its timer and drops it. */
    method Delete(key: K) returns (existed: bool)
      requires Valid()
      modifies this
      ensures Valid()
      ensures existed == (key in old(store))
      ensures existed ==> && order == Remove(old(order), key) && store == old(store) - {key}
                          && sched == Cancel(old(sched), old(store[key].timeout))
      ensures !existed ==> order == old(order) && store == old(store) && sched == old(sched)
      ensures !Has(key)
    {
      if key in store {
        DropKeepsConsistent(order, store, sched, key);
        var entry := store[key];
        sched := Cancel(sched, entry.timeout);
        order := Remove(order, key);
        store := store - {key};
        existed := true;
      } else {
        existed := false;
      }
    }

    /** `clear()`: cancels every entry's timer, in key order, then empties the map. */
    method Clear()
      requires Valid()
      modifies this
      ensures Valid()
      ensures order == [] && store == map[]
      ensures sched == old(sched).(pending := map[])
      ensures old(store) == map[] ==> sched == old(sched)
      ensures Size() == 0
    {
      var s := sched;
      var i := 0;
      while i < |order|
        invariant i <= |order|
        invariant s.now == sched.now && s.next == sched.next
        invariant forall h :: h in s.pending ==> h in sched.pending && s.pending[h] == sched.pending[h]
        invariant forall j :: 0 <= j < i ==> store[order[j]].timeout !in s.pending
      {
        s := Cancel(s, store[order[i]].timeout);
        i := i + 1;
      }
      forall h | h in sched.pending
        ensures h !in s.pending
      {
        var key := sched.pending[h].key;
        assert key in store && store[key].timeout == h;
        var j :| 0 <= j < |order| && order[j] == key;
      }
      assert s.pending == map[];
      sched := s;
      order, store := [], map[];
    }

    /**
     The host runs the due timer `h`; its callback deletes the key it was
     scheduled for. That key is present and holds `h`, so a timer that `set`
     or `delete` replaced can never evict a newer entry.
     */
    method Fire(h: Handle)
      requires Valid()
      requires Due(sched, h)
      modifies this
      ensures Valid()
      ensures var key := old(sched.pending[h].key);
              && key in old(store) && old(store[key].timeout) == h
              && old(Deadline(key)) <= old(sched.now)
              && order == Remove(old(order), key) && store == old(store) - {key}
              && sched == Cancel(old(sched), h)
    {
      var key := sched.pending[h].key;
      assert h in TimersOf(sched.pending, key);
      DropKeepsConsistent(order, store, sched, key);
      sched := Cancel(sched, h);
      order := Remove(order, key);
      store := store - {key};
    }

    /** Virtual time passes; the entries and the timers stay as they are. */
    method Elapse(d: nat)
      requires Valid()
      modifies this
      ensures Valid()
      ensures order == old(order) && store == old(store)
      ensures sched == Timers.Elapse(old(sched), d)
    {
      sched := Timers.Elapse(sched, d);
    }
  }
}

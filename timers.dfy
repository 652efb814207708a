/**
 The host's single-shot timer service (`setTimeout` / `clearTimeout`), made
 explicit so that the containers can reason about it: a virtual clock, a
 counter that issues handles, and the table of timers that are still pending.
 A timer leaves the table when it is cancelled or when the host runs it.
 */
module Timers {

  type Handle = nat

  /** A pending timer: the entry whose eviction it runs, and the earliest time it may run. */
  datatype Timer<K> = Timer(key: K, deadline: nat)

  datatype Scheduler<K> = Scheduler(now: nat, next: Handle, pending: map<Handle, Timer<K>>)

  /** Every pending handle was issued earlier, so `next` is a handle nobody holds yet. */
  predicate WellFormed<K>(s: Scheduler<K>)
  {
    forall h :: h in s.pending ==> h < s.next
  }

  /** The scheduler a fresh container starts with: nothing issued, nothing pending. */
  function Idle<K>(): Scheduler<K>
  {
    Scheduler(0, 0, map[])
  }

  /** `setTimeout(evict key, delay)`: the handle it returns is `s.next`. */
  function Schedule<K>(s: Scheduler<K>, key: K, delay: nat): (r: Scheduler<K>)
    ensures WellFormed(s) ==> s.next !in s.pending && WellFormed(r)
    ensures r.now == s.now && r.next > s.next
    ensures r.pending.Keys == s.pending.Keys + {s.next}
    ensures r.pending[s.next] == Timer(key, s.now + delay)
    ensures forall h :: h in s.pending && h != s.next ==> r.pending[h] == s.pending[h]
  {
    Scheduler(s.now, s.next + 1, s.pending[s.next := Timer(key, s.now + delay)])
  }

  /**
   `clearTimeout(h)`. The host retires a timer it has just run in the same way.
   Cancelling a handle that is no longer pending changes nothing.
   */
  function Cancel<K>(s: Scheduler<K>, h: Handle): (r: Scheduler<K>)
    ensures WellFormed(s) ==> WellFormed(r)
    ensures r.now == s.now && r.next == s.next
    ensures r.pending.Keys == s.pending.Keys - {h}
    ensures forall g :: g in r.pending ==> r.pending[g] == s.pending[g]
    ensures h !in s.pending ==> r == s
  {
    s.(pending := s.pending - {h})
  }

  /** Cancelling a timer straight after scheduling it leaves only the handle counter advanced. */
  lemma CancelUndoesSchedule<K>(s: Scheduler<K>, key: K, delay: nat)
    requires WellFormed(s)
    ensures Cancel(Schedule(s, key, delay), s.next) == s.(next := s.next + 1)
  {
    var r := Cancel(Schedule(s, key, delay), s.next);
    assert r.pending.Keys == s.pending.Keys;
  }

  /** Virtual time passes; no timer is added, removed or moved. */
  function Elapse<K>(s: Scheduler<K>, d: nat): Scheduler<K>
  {
    s.(now := s.now + d)
  }

  /** The host may run timer `h` now: it is pending and its delay has passed. */
  predicate Due<K>(s: Scheduler<K>, h: Handle)
  {
    h in s.pending && s.pending[h].deadline <= s.now
  }

  /** The pending timers whose callback evicts `key`. */
  ghost function TimersOf<K>(pending: map<Handle, Timer<K>>, key: K): set<Handle>
  {
    set h | h in pending && pending[h].key == key
  }

  /**
   The container's handles `live` (one per present key) and the pending
   timers are the same thing seen from two sides: each present key's handle
   is pending and evicts that key, and each pending timer is the handle its
   key holds.
   */
  predicate Tracks<K>(live: map<K, Handle>, pending: map<Handle, Timer<K>>)
  {
    && (forall k :: k in live ==> live[k] in pending && pending[live[k]].key == k)
    && (forall h :: h in pending ==> pending[h].key in live && live[pending[h].key] == h)
  }

  /** A key has a pending timer exactly when it is present, and then exactly one. */
  lemma OneTimerPerKey<K>(live: map<K, Handle>, pending: map<Handle, Timer<K>>, key: K)
    requires Tracks(live, pending)
    ensures TimersOf(pending, key) == if key in live then {live[key]} else {}
  {
    forall h | h in TimersOf(pending, key)
      ensures key in live && h == live[key]
    {
      assert pending[h].key == key;
    }
    if key in live {
      assert live[key] in TimersOf(pending, key);
    }
  }

  /** There are as many pending timers as present keys. */
  lemma {:induction false} TracksCard<K>(live: map<K, Handle>, pending: map<Handle, Timer<K>>)
    requires Tracks(live, pending)
    ensures |live| == |pending|
    decreases |live|
  {
    if live == map[] {
      assert pending.Keys == {};
    } else {
      var k :| k in live;
      var h := live[k];
      TracksDrop(live, pending, k);
      assert (live - {k}).Keys == live.Keys - {k};
      assert (pending - {h}).Keys == pending.Keys - {h};
      TracksCard(live - {k}, pending - {h});
    }
  }

  /** Dropping a present key together with its timer keeps the two sides in step. */
  lemma TracksDrop<K>(live: map<K, Handle>, pending: map<Handle, Timer<K>>, key: K)
    requires Tracks(live, pending) && key in live
    ensures Tracks(live - {key}, pending - {live[key]})
  {
    var live', pending' := live - {key}, pending - {live[key]};
    forall h | h in pending'
      ensures pending'[h].key in live' && live'[pending'[h].key] == h
    {
      assert pending[h].key != key;
    }
  }

  /**
   Cancelling a key's current timer (if any) and scheduling a fresh one for it
   keeps the two sides in step once the key holds the fresh handle.
   */
  lemma TracksRefresh<K>(live: map<K, Handle>, s: Scheduler<K>, key: K, delay: nat)
    requires WellFormed(s) && Tracks(live, s.pending)
    ensures var base := if key in live then Cancel(s, live[key]) else s;
            Tracks(live[key := s.next], Schedule(base, key, delay).pending)
  {
    var base := if key in live then Cancel(s, live[key]) else s;
    var live', pending' := live[key := s.next], Schedule(base, key, delay).pending;
    forall k | k in live'
      ensures live'[k] in pending' && pending'[live'[k]].key == k
    {
      if k != key {
        assert live[k] != s.next;
        assert live[k] in base.pending;
      }
    }
    forall h | h in pending'
      ensures pending'[h].key in live' && live'[pending'[h].key] == h
    {
      if h != s.next {
        assert h in base.pending;
        assert pending'[h] == s.pending[h];
      }
    }
  }
}

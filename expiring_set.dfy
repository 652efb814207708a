/**
 `ExpiringSet<T>`: a set in which every member is evicted a fixed
 time-to-live after its most recent `add`. It keeps two structures side by
 side: the membership `Set` (the insertion-ordered sequence `members`) and
 the map `timers` from each member to the handle of the timer that will
 evict it. The container owns its scheduler `sched`.
 */
module ExpiringSets {
  import opened Timers
  import opened InsertionOrder

  /**
   The invariant of the set: `members` lists each member once, the membership
   set and `timers` have the same domain, and the handles in `timers` are
   exactly the pending timers, each evicting the member that holds it.
   */
  ghost predicate InStep<T>(members: seq<T>, timers: map<T, Handle>, sched: Scheduler<T>)
  {
    && Distinct(members)
    && (forall x :: x in members ==> x in timers)
    && (forall x :: x in timers ==> x in members)
    && WellFormed(sched)
    && Tracks(timers, sched.pending)
  }

  /**
   `add` keeps the invariant: the old timer of the value (if any) is
   cancelled, the fresh handle is the value's only pending timer, and it is
   due one TTL from now.
   */
  lemma AddKeepsInStep<T>(members: seq<T>, timers: map<T, Handle>, sched: Scheduler<T>, value: T, ttl: nat)
    requires InStep(members, timers, sched)
    ensures var base := if value in members then Cancel(sched, timers[value]) else sched;
            var sched' := Schedule(base, value, ttl);
            && InStep(Insert(members, value), timers[value := sched.next], sched')
            && sched.next !in sched.pending
            && (value in timers ==> timers[value] !in sched'.pending)
            && TimersOf(sched'.pending, value) == {sched.next}
            && sched'.pending[sched.next].deadline == sched.now + ttl
  {
    var sched' := Schedule(if value in timers then Cancel(sched, timers[value]) else sched, value, ttl);
    TracksRefresh(timers, sched, value, ttl);
    OneTimerPerKey(timers[value := sched.next], sched'.pending, value);
  }

  /**
   Removing a member from both structures together with its timer keeps the
   invariant; this is what `delete` does, and what the eviction callback does
   when the member's timer runs.
   */
  lemma DropKeepsInStep<T>(members: seq<T>, timers: map<T, Handle>, sched: Scheduler<T>, value: T)
    requires InStep(members, timers, sched) && value in timers
    ensures InStep(Remove(members, value), timers - {value}, Cancel(sched, timers[value]))
    ensures TimersOf(Cancel(sched, timers[value]).pending, value) == {}
  {
    TracksDrop(timers, sched.pending, value);
    OneTimerPerKey(timers - {value}, Cancel(sched, timers[value]).pending, value);
  }

  /**
   `add` of a value that is not a member followed by `delete` of it restores
   the membership order, the timer map and the pending timers.
   */
  lemma AddThenDeleteRestores<T>(members: seq<T>, timers: map<T, Handle>, sched: Scheduler<T>, value: T, ttl: nat)
    requires value !in members && value !in timers && WellFormed(sched)
    ensures var timers' := timers[value := sched.next];
            && Remove(Insert(members, value), value) == members
            && timers' - {value} == timers
            && Cancel(Schedule(sched, value, ttl), timers'[value]).pending == sched.pending
  {
    var timers' := timers[value := sched.next];
    assert Remove(Insert(members, value), value) == members by {
      RemoveInserted(members, value);
    }
    assert timers' - {value} == timers by {
      assert (timers' - {value}).Keys == timers.Keys;
    }
    assert Cancel(Schedule(sched, value, ttl), timers'[value]).pending == sched.pending by {
      CancelUndoesSchedule(sched, value, ttl);
    }
  }

  class ExpiringSet<T(==)> {
    const ttl: nat
    var members: seq<T>
    var timers: map<T, Handle>
    var sched: Scheduler<T>

    ghost predicate Valid()
      reads this
    {
      InStep(members, timers, sched)
    }

    constructor (ttl: nat)
      ensures Valid() && this.ttl == ttl
      ensures members == [] && timers == map[] && sched == Idle()
    {
      this.ttl := ttl;
      members, timers, sched := [], map[], Idle();
    }

    /** `has(value)`: membership, which agrees with the timer map and with the pending timers. */
    function Has(value: T): (r: bool)
      requires Valid()
      reads this
      ensures r <==> value in Values()
      ensures r <==> value in timers
      ensures r <==> TimersOf(sched.pending, value) != {}
    {
      OneTimerPerKey(timers, sched.pending, value);
      value in members
    }

    /** `size`: the number of members, which is also the number of timers and of pending timers. */
    function Size(): (r: nat)
      requires Valid()
      reads this
      ensures r == |Values()| && r == |timers|
      ensures r == |sched.pending|
    {
      DistinctCovers(members, timers.Keys);
      TracksCard(timers, sched.pending);
      |members|
    }

    /** `values()`: every member once, in insertion order. */
    function Values(): (r: seq<T>)
      requires Valid()
      reads this
      ensures Distinct(r)
      ensures forall x :: x in r ==> x in timers
      ensures forall x :: x in timers ==> x in r
    {
      members
    }

    /** `keys()`: the same sequence as `values()`, as for a JavaScript `Set`. */
    function Keys(): (r: seq<T>)
      requires Valid()
      reads this
      ensures r == Values()
    {
      members
    }

    /** `entries()`: each member paired with itself, in the order of `values()`. */
    function Entries(): (r: seq<(T, T)>)
      requires Valid()
      reads this
      ensures |r| == |Values()|
      ensures forall i :: 0 <= i < |r| ==> r[i] == (Values()[i], Values()[i])
    {
      var m := members;
      seq(|m|, i requires 0 <= i < |m| => (m[i], m[i]))
    }

    /** The time at which the one pending timer of a member becomes due. */
    function Deadline(value: T): (d: nat)
      requires Valid() && Has(value)
      reads this
      ensures forall h :: h in TimersOf(sched.pending, value) ==> sched.pending[h].deadline == d
    {
      OneTimerPerKey(timers, sched.pending, value);
      sched.pending[timers[value]].deadline
    }

    /**
     `add(value)`: cancels the value's old timer, adds the value and schedules
     a fresh timer for the full TTL, recorded in `timers`.
     */
    method Add(value: T)
      requires Valid()
      modifies this
      ensures Valid()
      ensures members == Insert(old(members), value)
      ensures timers == old(timers)[value := old(sched.next)]
      ensures sched == Schedule(if value in old(members) then Cancel(old(sched), old(timers[value])) else old(sched), value, ttl)
      ensures Has(value)
      ensures value in old(timers) ==> old(timers[value]) !in sched.pending
      ensures timers[value] !in old(sched.pending)
      ensures TimersOf(sched.pending, value) == {timers[value]}
      ensures Deadline(value) == old(sched.now) + ttl
    {
      AddKeepsInStep(members, timers, sched, value, ttl);
      if value in members {
        sched := Cancel(sched, timers[value]);
      }
      members := Insert(members, value);
      var timeout := sched.next;
      sched := Schedule(sched, value, ttl);
      timers := timers[value := timeout];
    }

    /** `delete(value)`: reports prior membership, and if so cancels the timer and drops the value from both structures. */
    method Delete(value: T) returns (existed: bool)
      requires Valid()
      modifies this
      ensures Valid()
      ensures existed == (value in old(members))
      ensures members == Remove(old(members), value) && timers == old(timers) - {value}
      ensures sched == if existed then Cancel(old(sched), old(timers[value])) else old(sched)
      ensures !existed ==> members == old(members) && timers == old(timers)
      ensures !Has(value)
    {
      if value in timers {
        DropKeepsInStep(members, timers, sched, value);
      }
      existed := value in members;
      members := Remove(members, value);
      if existed {
        sched := Cancel(sched, timers[value]);
        timers := timers - {value};
      }
    }

    /** `clear()`: cancels every member's timer, in order, then empties both structures. */
    method Clear()
      requires Valid()
      modifies this
      ensures Valid()
      ensures members == [] && timers == map[]
      ensures sched == old(sched).(pending := map[])
      ensures old(members) == [] ==> sched == old(sched)
      ensures Size() == 0
    {
      var s := sched;
      var i := 0;
      while i < |members|
        invariant i <= |members|
        invariant s.now == sched.now && s.next == sched.next
        invariant forall h :: h in s.pending ==> h in sched.pending && s.pending[h] == sched.pending[h]
        invariant forall j :: 0 <= j < i ==> timers[members[j]] !in s.pending
      {
        s := Cancel(s, timers[members[i]]);
        i := i + 1;
      }
      forall h | h in sched.pending
        ensures h !in s.pending
      {
        var value := sched.pending[h].key;
        assert value in timers && timers[value] == h;
        var j :| 0 <= j < |members| && members[j] == value;
      }
      assert s.pending == map[];
      sched := s;
      members, timers := [], map[];
    }

    /**
     The host runs the due timer `h`; its callback removes the value it was
     scheduled for from both structures. That value is a member and holds
     `h`, so a timer that `add` or `delete` replaced can never evict it.
     */
    method Fire(h: Handle)
      requires Valid()
      requires Due(sched, h)
      modifies this
      ensures Valid()
      ensures var value := old(sched.pending[h].key);
              && value in old(members) && old(timers[value]) == h
              && old(Deadline(value)) <= old(sched.now)
              && members == Remove(old(members), value) && timers == old(timers) - {value}
              && sched == Cancel(old(sched), h)
    {
      var value := sched.pending[h].key;
      assert h in TimersOf(sched.pending, value);
      DropKeepsInStep(members, timers, sched, value);
      sched := Cancel(sched, h);
      members := Remove(members, value);
      timers := timers - {value};
    }

    /** Virtual time passes; the members and the timers stay as they are. */
    method Elapse(d: nat)
      requires Valid()
      modifies this
      ensures Valid()
      ensures members == old(members) && timers == old(timers)
      ensures sched == Timers.Elapse(old(sched), d)
    {
      sched := Timers.Elapse(sched, d);
    }
  }
}

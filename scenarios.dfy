/**
 Client code that checks TTL refresh on both containers against their
 contracts, on the virtual clock.
 */
module Scenarios {
  import opened Timers
  import opened ExpiringMaps
  import opened ExpiringSets

  /** An overwrite at half the TTL cancels the first timer and pushes the eviction back. */
  method MapOverwriteRefreshesTtl()
  {
    var m := new ExpiringMap<int, int>(100);
    m.Set(0, 1);
    var first := m.store[0].timeout;
    m.Elapse(50);
    m.Set(0, 2);
    var second := m.store[0].timeout;
    assert first !in m.sched.pending;
    m.Elapse(50);
    assert m.sched.now == 100 && m.Deadline(0) == 150;
    assert !Due(m.sched, first) && !Due(m.sched, second);
    assert m.Get(0) == Some(2);
    m.Elapse(50);
    assert Due(m.sched, second);
    m.Fire(second);
    assert !m.Has(0) && m.Size() == 0;
    assert m.sched.pending == map[];
  }

  /** Re-adding a value resets its expiry; it is evicted once, one TTL after the second add. */
  method SetReAddRefreshesTtl()
  {
    var s := new ExpiringSet<int>(50);
    s.Add(10);
    var first := s.timers[10];
    s.Elapse(10);
    s.Add(10);
    var second := s.timers[10];
    assert first !in s.sched.pending;
    assert s.sched.now == 10 && s.Deadline(10) == 60;
    s.Elapse(40);
    assert s.sched.now == 50 && 10 in s.timers;
    assert s.Has(10) && first !in s.sched.pending;
    assert !Due(s.sched, second);
    s.Elapse(10);
    assert Due(s.sched, second);
    s.Fire(second);
    assert !s.Has(10) && s.Size() == 0;
    assert |s.sched.pending| == 0;
    assert s.sched.pending == map[];
  }
}

# Expiring map and expiring set

A Dafny model of `ExpiringMap<K, V>` and `ExpiringSet<T>`. These are two
containers in which every entry is evicted a fixed time-to-live (TTL) after
its most recent insertion. Each entry owns a single-shot eviction timer:

- an overwrite (`set`, `add`) cancels the entry's old timer and schedules a
  new one;
- `delete` and `clear` cancel timers eagerly;
- a timer that fires removes its entry.

The host's `setTimeout` / `clearTimeout` become an explicit scheduler that
each container owns (module `Timers`, file `timers.dfy`). It has a virtual
clock `now`, a counter `next` that issues fresh handles, and a table
`pending` from each pending handle to the key it evicts and its deadline.
Virtual time passes with `Elapse(d)`. `Fire(h)` is the host running timer
`h`. It is allowed only when `h` is pending and its deadline has passed:
a timer never runs early, but it may run late.

- `ExpiringMaps.ExpiringMap` (`expiring_map.dfy`) is a class. Its fields
  mirror the source's private state. The backing `Map` is the insertion
  order `order` together with `store`, which gives each key its value and
  its timer handle. `set`, `delete`, `clear`, `Fire` and `Elapse` are
  methods that change those fields. `get`, `has`, `size`, `keys`, `values`
  and `entries` are functions that read them. Because they are functions,
  reading cannot refresh a TTL or touch a timer.
- `ExpiringSets.ExpiringSet` (`expiring_set.dfy`) keeps the two structures
  of the source: the membership set (its insertion order, `members`) and
  `timers`.
- `InsertionOrder` (`insertion_order.dfy`) models how a JavaScript `Map` or
  `Set` orders its keys. Re-inserting a key keeps its position, a new key
  goes last, and deleting a key keeps the others in order.
- Each class's `Valid()` is a pure invariant over its fields:
  `ExpiringMaps.Consistent` for the map and `ExpiringSets.InStep` for the
  set. It says that the present keys are exactly the keys with a pending
  timer, with one timer each. For the set, it also says that the membership
  set and `timers` have the same domain. Lemmas over plain values prove
  that every mutation keeps this invariant. These are `SetKeepsConsistent`,
  `DropKeepsConsistent`, `AddKeepsInStep` and `DropKeepsInStep`, used by
  `set`/`add`, `delete` and the eviction callback. `Clear` proves it
  directly. From the invariant, `Timers.TracksCard` derives
  `size == |pending|`, and `Timers.OneTimerPerKey` derives "exactly one
  pending timer per present key".
- `scenarios.dfy` replays two usage scenarios against the contracts. In
  both, an overwrite part-way through the TTL cancels the first timer, the
  entry survives the original deadline, and it is evicted exactly once at
  the new deadline.

The constructor does not validate the TTL, so there is no rejection case,
and the TTL is a `nat`. The set's `values()`/`keys()`/`entries()` follow
`Set` insertion order.

## Model

| member | source | states |
|---|---|---|
| `Timers.Schedule` | src/index.ts:21-23 | the handle it issues was not pending before; the new timer evicts `key` at `now + delay`; other pending timers are unchanged; well-formedness is kept |
| `Timers.Cancel` | src/index.ts:18 | the handle leaves the pending table and nothing else changes; cancelling a handle that is no longer pending is a no-op |
| `Timers.CancelUndoesSchedule` | src/index.ts:37-45 | cancelling a timer straight after scheduling it restores the scheduler, except that the handle counter has moved on |
| `Timers.OneTimerPerKey` | src/index.ts:16-25 | under the pairing invariant, a key's pending timers are exactly `{its handle}` when it is present and none otherwise |
| `Timers.TracksCard` | src/index.ts:70-72 | under the pairing invariant, the number of present keys equals the number of pending timers |
| `Timers.TracksDrop` | src/index.ts:37-45 | removing a present key together with its handle keeps the pairing invariant |
| `Timers.TracksRefresh` | src/index.ts:16-25 | cancelling a key's old timer, scheduling a new one and recording the new handle keeps the pairing invariant |
| `InsertionOrder.Insert` | src/index.ts:25 | `Map.set` on the key order: the key is present afterwards; every earlier key keeps its index; the length grows by one exactly when the key is new; no repeats are introduced |
| `InsertionOrder.Remove` | src/index.ts:41 | `Map.delete` on the key order: exactly the key is gone, all other keys stay, no repeats are introduced, an absent key changes nothing |
| `InsertionOrder.RemoveAt` | src/index.ts:41 | on a repeat-free order, removing the key at position `i` cuts out exactly that position |
| `InsertionOrder.RemoveInserted` | src/index.ts:37-45 | inserting a new key and then removing it gives back the original order |
| `InsertionOrder.DistinctCovers` | src/index.ts:70-72 | a repeat-free order is as long as its key set is large (so `size` counts keys) |
| `ExpiringMaps.Snapshot` | src/index.ts:62-64 | `entries()`: position `i` is the `i`-th key paired with its stored value |
| `ExpiringMaps.ValuesOf` | src/index.ts:58-60 | `values()`: position `i` is the stored value of the `i`-th key |
| `ExpiringMaps.HandlesDistinct` | src/index.ts:16-25 | under the map invariant, two different present keys never hold the same timer handle, so cancelling one key's timer leaves every other key's eviction in place |
| `ExpiringMaps.SetKeepsConsistent` | src/index.ts:16-27 | `set` keeps the map invariant; the issued handle is fresh; the old timer is no longer pending; the key's only pending timer is the new one, due one TTL from now |
| `ExpiringMaps.DropKeepsConsistent` | src/index.ts:37-45 | removing a present key and cancelling its timer (by `delete`, or the eviction at lines 21-23) keeps the invariant and leaves no timer for the key |
| `ExpiringMaps.SetThenDeleteRestores` | src/index.ts:16-45 | `set` of an absent key followed by `delete` restores the key order, the entries and the pending timers |
| `ExpiringMaps.ExpiringMap.constructor` | src/index.ts:12-14 | a new map is empty, has no pending timers and keeps the TTL it was given |
| `ExpiringMaps.ExpiringMap.Has` | src/index.ts:33-35 | a key is present exactly when it is among `keys()`, and exactly when some pending timer will evict it |
| `ExpiringMaps.ExpiringMap.Get` | src/index.ts:29-31 | `get` returns a value exactly when `has` holds; the value is the one `entries()` pairs with the key |
| `ExpiringMaps.ExpiringMap.Size` | src/index.ts:70-72 | `size` equals the number of keys, the number of entries and the number of pending timers |
| `ExpiringMaps.ExpiringMap.Keys` | src/index.ts:54-56 | `keys()` lists every present key exactly once and nothing else |
| `ExpiringMaps.ExpiringMap.Entries` | src/index.ts:62-64 | `entries()` follows `keys()` order, pairing each key with its stored value |
| `ExpiringMaps.ExpiringMap.Values` | src/index.ts:58-60 | `values()` is the second components of `entries()`, in the same order |
| `ExpiringMaps.ExpiringMap.Deadline` | src/index.ts:21-23 | every pending timer of a present key falls due at the same time, the key's deadline |
| `ExpiringMaps.ExpiringMap.Set` | src/index.ts:16-27 | new state: the order and store as `Map.set` leaves them, and the scheduler with the old timer cancelled and a new one scheduled; then `get(key) == value`; the old handle is no longer pending; the new handle is fresh and the key's only timer; the deadline is `now + ttl` |
| `ExpiringMaps.ExpiringMap.Delete` | src/index.ts:37-45 | returns true exactly when the key was present. If so, its timer is cancelled and only that key is removed. If not, the order, entries and scheduler are unchanged. `has(key)` is false afterwards |
| `ExpiringMaps.ExpiringMap.Clear` | src/index.ts:47-52 | the loop cancels every entry's timer; the map is empty; no timers are pending; the clock and handle counter are unchanged; on an empty map it changes nothing, so a second `clear` is a no-op |
| `ExpiringMaps.ExpiringMap.Fire` | src/index.ts:21-23 | a due timer evicts a key that is present and holds that very handle, and whose deadline has passed; only that key is removed; the timer leaves the table. A timer replaced by `set` or `delete` is not pending, so it can never evict a newer value |
| `ExpiringMaps.ExpiringMap.Elapse` | src/index.ts:21-23 | virtual time advances; entries and timers are unchanged |
| `ExpiringSets.AddKeepsInStep` | src/index.ts:84-97 | `add` keeps the set invariant (same domains for members and `timers`); the old timer is no longer pending; the value's only pending timer is the new one, due one TTL from now |
| `ExpiringSets.DropKeepsInStep` | src/index.ts:103-110 | removing a member from both structures and cancelling its timer (by `delete`, or the eviction at lines 90-93) keeps the invariant and leaves no timer for it |
| `ExpiringSets.AddThenDeleteRestores` | src/index.ts:84-110 | `add` of a non-member followed by `delete` restores the members, `timers` and the pending timers |
| `ExpiringSets.ExpiringSet.constructor` | src/index.ts:80-82 | a new set is empty, has no pending timers and keeps the TTL it was given |
| `ExpiringSets.ExpiringSet.Has` | src/index.ts:99-101 | membership agrees with `values()`, with the domain of `timers`, and with the existence of a pending timer for the value |
| `ExpiringSets.ExpiringSet.Size` | src/index.ts:136-138 | `size` equals the number of members, the number of entries in `timers` and the number of pending timers |
| `ExpiringSets.ExpiringSet.Values` | src/index.ts:120-122 | `values()` lists each value in `timers` exactly once and nothing else |
| `ExpiringSets.ExpiringSet.Keys` | src/index.ts:128-130 | `keys()` is the same sequence as `values()` |
| `ExpiringSets.ExpiringSet.Entries` | src/index.ts:124-126 | `entries()` pairs each value of `values()` with itself, in the same order |
| `ExpiringSets.ExpiringSet.Deadline` | src/index.ts:90-93 | every pending timer of a member falls due at the same time, the member's deadline |
| `ExpiringSets.ExpiringSet.Add` | src/index.ts:84-97 | new state: the members and `timers` as `Set.add`/`Map.set` leave them, and the scheduler with the old timer cancelled and a new one scheduled; then `has(value)`; the old handle is no longer pending; the new handle is fresh and the value's only timer; the deadline is `now + ttl` |
| `ExpiringSets.ExpiringSet.Delete` | src/index.ts:103-110 | returns prior membership; removes the value from both structures; cancels its timer exactly when it was a member; otherwise nothing changes |
| `ExpiringSets.ExpiringSet.Clear` | src/index.ts:112-118 | the loop cancels every member's timer; both structures are empty; no timers are pending; on an empty set it changes nothing |
| `ExpiringSets.ExpiringSet.Fire` | src/index.ts:90-93 | a due timer evicts a value that is a member and holds that very handle, and whose deadline has passed; it is removed from both structures; the timer leaves the table |
| `ExpiringSets.ExpiringSet.Elapse` | src/index.ts:90-93 | virtual time advances; members and timers are unchanged |

## Left out

- Real `setTimeout` / `clearTimeout` and wall-clock time belong to the host's event loop. They are replaced by the scheduler value described above, and the host's firing step is the explicit `Fire`.
- `Fire` lets any due timer run, in any order. The host would run due timers in deadline order. The model is more permissive, so every property proved about `Fire` also holds for the host's order.
- The TTL is a JavaScript `number` (a float). It is modelled as a `nat`. The constructor does no validation, so there is no error case.
- `Symbol.iterator` (lines 66-68 and 132-134) returns `entries()` on the map and `values()` on the set. It is not modelled separately.
- ExpiringMaps.ExpiringMap.Keys: returns the key sequence at call time. The source returns the backing map's live iterator (line 55), which would also show later insertions.
- ExpiringSets.ExpiringSet.Values: returns the member sequence at call time, not the set's live iterator (lines 120-122). `Keys` and `Entries` (lines 124-130) are treated the same way.
- JavaScript's lazy iterator protocol is left out. `values()` and `entries()` on the map are snapshots in the source too. Being Dafny values, they cannot change after the call.
- Key equality is Dafny equality on an equality-supporting type, not SameValueZero or object identity.
- Returning `this` for chaining from `set`/`add` is left out; the methods return nothing.
- Timers left pending when a container is dropped without `clear()` are left out. The model has no notion of garbage collection.
- The model assumes the TTL lies within the host's timer delay range. A host such as Node replaces a delay above 2^31-1 ms (and a delay of 0 or less, or NaN) with 1 ms. With a TTL above 2^31-1 the host evicts early, which `Fire` does not allow; a TTL of 0 becomes 1 ms, a late firing the model permits.
- ExpiringMaps.ExpiringMap.Get: returns `Option`, which tells an absent key apart from a present key whose stored value is `undefined`. `get` (line 30) returns `undefined` for both.

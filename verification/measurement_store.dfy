/**
 The measurement ring buffer of `mems_data_buffer.c`: a fixed array of 2048
 records, a cursor `first` at the oldest stored record, a cursor `last` at the
 most recently WRITTEN slot (not the next free one), and an explicit count.
 The C pointers are modelled as indices into `data`.

 The cursor step only moves when the store is non-empty. The fetch that
 drains the store still advances `first`, because the count is decremented
 after the step. The next append sees a count of 0 and writes at `last`
 without stepping, so `first` is one slot past the record just written: the
 FIFO order holds from a cleared store until the first drain, not forever.
 */
module MeasurementStore {
  import opened Bytes
  import opened Wrappers

  /** MAX_MEASUREMENTS_STORED */
  const CAPACITY: nat := 2048

  /** WeatherStationMeasurement: readings ×100 (int32), then time and date bytes. */
  datatype Measurement = Measurement(
    temperature: int32, pressure: int32, humidity: int32,
    hour: uint8, minute: uint8, second: uint8,
    year: uint8, month: uint8, day: uint8)

  const ZERO_MEASUREMENT: Measurement := Measurement(0, 0, 0, 0, 0, 0, 0, 0, 0)

  datatype Store = Store(data: seq<Measurement>, first: nat, last: nat, count: nat)

  /** Both cursors point into the array and the count never exceeds the capacity. */
  predicate Valid(s: Store) {
    && |s.data| == CAPACITY
    && s.first < CAPACITY
    && s.last < CAPACITY
    && s.count <= CAPACITY
  }

  /** The static initial state: zeroed array, both cursors at slot 0, nothing stored. */
  function Initial(): (s: Store)
    ensures Valid(s) && s.count == 0 && s.first == 0 && s.last == 0
  {
    Store(seq(CAPACITY, _ => ZERO_MEASUREMENT), 0, 0, 0)
  }

  /** get_next_element: steps a cursor by one (wrapping past the end) only when something is stored. */
  function NextElement(s: Store, current: nat): (next: nat)
    requires current < CAPACITY
    ensures next < CAPACITY
    ensures s.count == 0 ==> next == current
    ensures s.count > 0 ==> next == (current + 1) % CAPACITY
  {
    var step := if s.count > 0 then 1 else 0;
    if current + step == CAPACITY then 0 else current + step
  }

  /** measurements_stored_count: the length of the queue the store represents. */
  function StoredCount(s: Store): (n: nat)
    requires Valid(s)
    ensures n <= CAPACITY
    ensures n == |Contents(s)|
  {
    s.count
  }

  /** measurements_slots_left */
  function SlotsLeft(s: Store): (left: nat)
    requires Valid(s)
    ensures left + StoredCount(s) == CAPACITY
    ensures left == 0 <==> s.count == CAPACITY
  {
    CAPACITY - StoredCount(s)
  }

  /** clear_stored_measurements: resets count and cursors; the payloads stay where they are. */
  function Clear(s: Store): (r: Store)
    requires Valid(s)
    ensures Valid(r)
    ensures r.count == 0 && r.first == 0 && r.last == 0
    ensures r.data == s.data
  {
    s.(count := 0, first := 0, last := 0)
  }

  /** append_measurement: refuses when full, otherwise writes at the slot after `last` (at `last` itself when empty). */
  function Append(s: Store, m: Measurement): (r: (bool, Store))
    requires Valid(s)
    ensures Valid(r.1)
    ensures s.count == CAPACITY ==> r == (false, s)
    ensures s.count < CAPACITY ==>
      && r.0
      && r.1.count == s.count + 1
      && r.1.first == s.first
      && r.1.last == (if s.count == 0 then s.last else (s.last + 1) % CAPACITY)
      && r.1.data == s.data[r.1.last := m]
  {
    if SlotsLeft(s) == 0 then (false, s)
    else
      var slot := NextElement(s, s.last);
      (true, s.(data := s.data[slot := m], last := slot, count := s.count + 1))
  }

  /** fetch_measurement: nothing when empty, otherwise the record at `first`, and `first` moves on. */
  function Fetch(s: Store): (r: (Option<Measurement>, Store))
    requires Valid(s)
    ensures Valid(r.1)
    ensures s.count == 0 ==> r == (None, s)
    ensures s.count > 0 ==>
      && r.0 == Some(s.data[s.first])
      && r.1 == s.(first := (s.first + 1) % CAPACITY, count := s.count - 1)
  {
    if StoredCount(s) == 0 then (None, s)
    else
      // the cursor step sees the count before the decrement
      (Some(s.data[s.first]), s.(first := NextElement(s, s.first), count := s.count - 1))
  }

  // ---------------------------------------------------------------------------
  // The queue a store represents

  /** The slot `i` places after `first`, wrapping once around the array. */
  function Slot(first: nat, i: nat): (slot: nat)
    requires first < CAPACITY && i < CAPACITY
    ensures slot < CAPACITY
    ensures slot == (first + i) % CAPACITY
  {
    if first + i < CAPACITY then first + i else first + i - CAPACITY
  }

  /** The records a store holds, oldest first, read from `first` onwards. */
  function Contents(s: Store): seq<Measurement>
    requires Valid(s)
  {
    seq(s.count, i requires 0 <= i < s.count => s.data[Slot(s.first, i)])
  }

  /**
   The cursor relation the code relies on: `last` is `count - 1` slots after
   `first`, and the cursors coincide when the store is empty (head == tail).
   */
  predicate Coherent(s: Store) {
    && Valid(s)
    && (if s.count == 0 then s.first == s.last else s.last == Slot(s.first, s.count - 1))
  }

  lemma ClearIsCoherent(s: Store)
    requires Valid(s)
    ensures Coherent(Clear(s)) && Contents(Clear(s)) == []
  {
  }

  /** A successful append on a coherent store keeps it coherent and enqueues the record at the back. */
  lemma AppendKeepsFifo(s: Store, m: Measurement)
    requires Coherent(s) && s.count < CAPACITY
    ensures Coherent(Append(s, m).1)
    ensures Contents(Append(s, m).1) == Contents(s) + [m]
  {
  }

  /**
   A fetch on a coherent non-empty store dequeues the front record. The store
   stays coherent while something is left; the fetch that drains it does not.
   */
  lemma FetchKeepsFifo(s: Store)
    requires Coherent(s) && s.count > 0
    ensures Fetch(s).0 == Some(Contents(s)[0])
    ensures Contents(Fetch(s).1) == Contents(s)[1..]
    ensures s.count > 1 ==> Coherent(Fetch(s).1)
    ensures s.count == 1 ==> !Coherent(Fetch(s).1)
  {
  }

  /** Appends a run of records in order; once the store is full, every further record is refused. */
  function AppendAll(s: Store, ms: seq<Measurement>): (r: Store)
    requires Valid(s)
    ensures Valid(r)
    decreases |ms|
  {
    if ms == [] then s else AppendAll(Append(s, ms[0]).1, ms[1..])
  }

  /** From a coherent store, a run that fits is enqueued in order. */
  lemma {:induction false} AppendAllKeepsFifo(s: Store, ms: seq<Measurement>)
    requires Coherent(s) && s.count + |ms| <= CAPACITY
    ensures Coherent(AppendAll(s, ms))
    ensures Contents(AppendAll(s, ms)) == Contents(s) + ms
    decreases |ms|
  {
    if ms != [] {
      AppendKeepsFifo(s, ms[0]);
      var s' := Append(s, ms[0]).1;
      AppendAllKeepsFifo(s', ms[1..]);
      assert ms == [ms[0]] + ms[1..];
    }
  }

  /**
   The drain defect: clear, append `a`, fetch (gets `a`), append `b`, fetch.
   The second fetch returns whatever slot 1 held before, not `b`.
   */
  lemma DrainThenAppendFetchesStale(s: Store, a: Measurement, b: Measurement)
    requires Valid(s)
    ensures var s1 := Append(Clear(s), a).1;
            var f1 := Fetch(s1);
            var s2 := Append(f1.1, b).1;
            var f2 := Fetch(s2);
            && f1.0 == Some(a)
            && f2.0 == Some(s.data[1])
            && (s.data[1] != b ==> f2.0 != Some(b))
  {
  }

  /**
   Each further drain-then-append widens the gap: in a third round (append
   `c`, fetch) `c` is written at slot 0 again while the read cursor has moved
   on to slot 2, so the fetch returns whatever slot 2 held.
   */
  lemma RepeatedDrainsWidenTheGap(s: Store, a: Measurement, b: Measurement, c: Measurement)
    requires Valid(s)
    ensures var s1 := Fetch(Append(Clear(s), a).1).1;
            var s2 := Fetch(Append(s1, b).1).1;
            var s3 := Append(s2, c).1;
            && s1.first == 1 && s2.first == 2
            && s3.last == 0 && s3.first == 2 && s3.data[0] == c
            && Fetch(s3).0 == Some(s.data[2])
  {
  }

  /** `k` rounds of append-then-fetch, each of which drains the store again. */
  function DrainRounds(s: Store, m: Measurement, k: nat): (r: Store)
    requires Valid(s)
    ensures Valid(r)
    decreases k
  {
    if k == 0 then s else DrainRounds(Fetch(Append(s, m).1).1, m, k - 1)
  }

  /**
   The drift in general: after `k` drain-then-append rounds from a cleared
   store, the write cursor is still at slot 0 but the read cursor is at slot
   `k`, wrapping around every 2048 rounds.
   */
  lemma {:induction false} DrainRoundsDrift(s: Store, m: Measurement, k: nat)
    requires Valid(s)
    ensures var r := DrainRounds(Clear(s), m, k);
            r.first == k % CAPACITY && r.last == 0 && r.count == 0
  {
    if k > 0 {
      DrainRoundsStep(Clear(s), m, k - 1);
      DrainRoundsDrift(s, m, k - 1);
    }
  }

  /** One more round on top of `k` rounds moves `first` on by one slot and leaves `last` in place. */
  lemma {:induction false} DrainRoundsStep(s: Store, m: Measurement, k: nat)
    requires Valid(s) && s.count == 0
    ensures var r := DrainRounds(s, m, k);
            var r1 := DrainRounds(s, m, k + 1);
            r.count == 0 && r1.count == 0 && r1.last == r.last
            && r1.first == (r.first + 1) % CAPACITY
    decreases k
  {
    var s1 := Fetch(Append(s, m).1).1;
    assert s1.count == 0 && s1.last == s.last && s1.first == (s.first + 1) % CAPACITY;
    if k > 0 {
      DrainRoundsStep(s1, m, k - 1);
    }
  }

  // ---------------------------------------------------------------------------
  // Corrected append: write at `first` when the store is empty

  /** The append a FIFO needs: an empty store restarts at `first`, so the cursors never drift apart. */
  function AppendCorrected(s: Store, m: Measurement): (r: (bool, Store))
    requires Valid(s)
    ensures Valid(r.1)
    ensures s.count == CAPACITY ==> r == (false, s)
    ensures s.count < CAPACITY ==>
      && r.0
      && r.1.count == s.count + 1
      && r.1.first == s.first
      && r.1.last == (if s.count == 0 then s.first else (s.last + 1) % CAPACITY)
      && r.1.data == s.data[r.1.last := m]
  {
    if SlotsLeft(s) == 0 then (false, s)
    else
      var slot := if s.count == 0 then s.first else NextElement(s, s.last);
      (true, s.(data := s.data[slot := m], last := slot, count := s.count + 1))
  }

  /** The relation the corrected store keeps: `last` trails `first` by `count - 1` whenever something is stored. */
  predicate Ordered(s: Store) {
    && Valid(s)
    && (s.count > 0 ==> s.last == Slot(s.first, s.count - 1))
  }

  lemma CoherentIsOrdered(s: Store)
    requires Coherent(s)
    ensures Ordered(s)
  {
  }

  /** With the corrected append the queue is FIFO in every reachable state, drains included. */
  lemma AppendCorrectedKeepsFifo(s: Store, m: Measurement)
    requires Ordered(s) && s.count < CAPACITY
    ensures Ordered(AppendCorrected(s, m).1)
    ensures Contents(AppendCorrected(s, m).1) == Contents(s) + [m]
  {
  }

  lemma FetchKeepsOrdered(s: Store)
    requires Ordered(s) && s.count > 0
    ensures Ordered(Fetch(s).1)
    ensures Fetch(s).0 == Some(Contents(s)[0])
    ensures Contents(Fetch(s).1) == Contents(s)[1..]
  {
  }

  /** The trace of the drain defect, replayed with the corrected append, returns `b`. */
  lemma DrainThenAppendCorrectedFetchesLatest(s: Store, a: Measurement, b: Measurement)
    requires Valid(s)
    ensures var s1 := AppendCorrected(Clear(s), a).1;
            var f1 := Fetch(s1);
            var s2 := AppendCorrected(f1.1, b).1;
            Fetch(s2).0 == Some(b)
  {
  }
}

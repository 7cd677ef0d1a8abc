/** The growable output buffer the three bindings share: doubling growth under `size_t` limits. */
module OutputBuffer {
  import opened Prelude

  const INITIAL_CAPACITY: nat := 256

  /** What a caller can observe, plus the bytes moved by reallocation so far. */
  datatype State = State(contents: Bytes, capacity: nat, copied: nat)

  const EMPTY := State([], 0, 0)

  /** The capacity doubling arrives at; past half of `sizeMax` it settles for the exact need. */
  function Grown(capacity: nat, needed: nat, sizeMax: nat): (r: nat)
    requires 0 < capacity <= sizeMax && needed <= sizeMax
    ensures needed <= r <= sizeMax && capacity <= r
    ensures capacity < needed ==> r < 2 * needed
    decreases needed - capacity
  {
    if needed <= capacity then capacity
    else if capacity > sizeMax / 2 then needed
    else Grown(capacity * 2, needed, sizeMax)
  }

  predicate Fits(state: State, bytes: Bytes, sizeMax: nat) {
    |state.contents| + |bytes| <= sizeMax
  }

  predicate MustGrow(state: State, bytes: Bytes) {
    |state.contents| + |bytes| > state.capacity
  }

  function Accepts(state: State, bytes: Bytes, allocates: bool, sizeMax: nat): bool {
    Fits(state, bytes, sizeMax) && (MustGrow(state, bytes) ==> allocates)
  }

  /** The state after one write; `allocates` says whether the allocator would satisfy a request. */
  function Written(state: State, bytes: Bytes, allocates: bool, sizeMax: nat): State
    requires INITIAL_CAPACITY <= sizeMax && state.capacity <= sizeMax
  {
    if !Accepts(state, bytes, allocates, sizeMax) then state
    else if !MustGrow(state, bytes) then state.(contents := state.contents + bytes)
    else
      var start := if state.capacity == 0 then INITIAL_CAPACITY else state.capacity;
      State(state.contents + bytes, Grown(start, |state.contents| + |bytes|, sizeMax), state.copied + state.capacity)
  }

  class Output {
    const sizeMax: nat
    var data: array<byte>
    var length: nat
    var capacity: nat
    ghost var copied: nat

    ghost predicate Valid()
      reads this
    {
      && INITIAL_CAPACITY <= sizeMax
      && length <= capacity == data.Length <= sizeMax
    }

    ghost function Abstract(): State
      reads this, data
      requires Valid()
    {
      State(data[..length], capacity, copied)
    }

    constructor (sizeMax: nat)
      requires INITIAL_CAPACITY <= sizeMax
      ensures Valid() && fresh(data) && Abstract() == EMPTY && this.sizeMax == sizeMax
    {
      this.sizeMax := sizeMax;
      data := new byte[0];
      length, capacity, copied := 0, 0, 0;
    }

    /** Appends `bytes`, or fails and changes nothing. */
    method Write(bytes: Bytes, allocates: bool) returns (failed: bool)
      requires Valid() && |bytes| <= sizeMax
      modifies this, data
      ensures Valid() && (data == old(data) || fresh(data))
      ensures Abstract() == Written(old(Abstract()), bytes, allocates, sizeMax)
      ensures failed <==> !Accepts(old(Abstract()), bytes, allocates, sizeMax)
    {
      hide Grown;
      if |bytes| > sizeMax - length {
        return true;
      }
      var needed := length + |bytes|;
      if needed > capacity {
        var grown := Doubled(needed);
        if !allocates {
          return true;
        }
        var resized := Reallocate(grown);
        copied := copied + capacity;
        data := resized;
        capacity := grown;
      }
      CopyIn(bytes);
      length := needed;
      return false;
    }

    /** The doubling loop. */
    method Doubled(needed: nat) returns (grown: nat)
      requires Valid() && capacity < needed <= sizeMax
      ensures grown == Grown(if capacity == 0 then INITIAL_CAPACITY else capacity, needed, sizeMax)
    {
      grown := if capacity != 0 then capacity else INITIAL_CAPACITY;
      ghost var target := Grown(grown, needed, sizeMax);
      while grown < needed
        invariant 0 < grown <= sizeMax
        invariant Grown(grown, needed, sizeMax) == target
        decreases needed - grown
      {
        if grown > sizeMax / 2 {
          grown := needed;
          break;
        }
        grown := grown * 2;
      }
    }

    /** The `memcpy` behind the current contents. */
    method CopyIn(bytes: Bytes)
      requires length + |bytes| <= data.Length
      modifies data
      ensures data[..length + |bytes|] == old(data[..length]) + bytes
    {
      forall i | 0 <= i < |bytes| {
        data[length + i] := bytes[i];
      }
      assert data[..length] == old(data[..length]);
    }

    /** The allocator's part of `realloc`: a larger block that starts with the old bytes. */
    method Reallocate(size: nat) returns (resized: array<byte>)
      requires Valid() && capacity <= size
      ensures fresh(resized) && resized.Length == size
      ensures resized[..length] == data[..length]
    {
      resized := new byte[size];
      forall i | 0 <= i < data.Length {
        resized[i] := data[i];
      }
      assert forall i | 0 <= i < length :: resized[i] == data[i];
    }
  }

  // ----- whole runs

  datatype Attempt = Attempt(bytes: Bytes, allocates: bool)

  ghost function Run(state: State, attempts: seq<Attempt>, sizeMax: nat): (r: State)
    requires INITIAL_CAPACITY <= sizeMax && state.capacity <= sizeMax
    ensures r.capacity <= sizeMax
  {
    if attempts == [] then state else
      var last := attempts[|attempts| - 1];
      Written(Run(state, attempts[..|attempts| - 1], sizeMax), last.bytes, last.allocates, sizeMax)
  }

  /** The bytes of the accepted attempts, joined in order. */
  ghost function Accepted(state: State, attempts: seq<Attempt>, sizeMax: nat): Bytes
    requires INITIAL_CAPACITY <= sizeMax && state.capacity <= sizeMax
  {
    if attempts == [] then [] else
      var init, last := attempts[..|attempts| - 1], attempts[|attempts| - 1];
      var before := Run(state, init, sizeMax);
      Accepted(state, init, sizeMax) + if Accepts(before, last.bytes, last.allocates, sizeMax) then last.bytes else []
  }

  /** After any writes the buffer holds exactly the accepted bytes, within its block and within `size_t`. */
  lemma {:induction false} RefinesConcatenation(attempts: seq<Attempt>, sizeMax: nat)
    requires INITIAL_CAPACITY <= sizeMax
    ensures var end := Run(EMPTY, attempts, sizeMax);
            && end.contents == Accepted(EMPTY, attempts, sizeMax)
            && |end.contents| <= end.capacity <= sizeMax
  {
    if attempts != [] {
      RefinesConcatenation(attempts[..|attempts| - 1], sizeMax);
    }
  }

  // ----- one write, exactly

  function Doublings(start: nat, k: nat): nat {
    if k == 0 then start else 2 * Doublings(start, k - 1)
  }

  /** `k` doublings, each of a capacity that is too small and at most half of `sizeMax`, and none more. */
  ghost predicate DoublesTo(start: nat, needed: nat, sizeMax: nat, k: nat) {
    && (forall j: nat | j < k :: Doublings(start, j) < needed && Doublings(start, j) <= sizeMax / 2)
    && (Doublings(start, k) >= needed || Doublings(start, k) > sizeMax / 2)
  }

  /** The new capacity is the first doubling that covers the need, or the exact need once a doubling that does not cover it
      has passed half of `sizeMax`. */
  lemma {:induction false} GrownExactly(start: nat, needed: nat, sizeMax: nat) returns (k: nat)
    requires 0 < start <= sizeMax && needed <= sizeMax
    ensures DoublesTo(start, needed, sizeMax, k)
    ensures Grown(start, needed, sizeMax) == if Doublings(start, k) >= needed then Doublings(start, k) else needed
    decreases needed - start
  {
    if needed <= start || start > sizeMax / 2 {
      k := 0;
    } else {
      var rest := GrownExactly(start * 2, needed, sizeMax);
      k := rest + 1;
      forall j: nat
        ensures Doublings(start, j + 1) == Doublings(start * 2, j)
      {
        DoublingsShift(start, j);
      }
      forall j: nat | j < k
        ensures Doublings(start, j) < needed && Doublings(start, j) <= sizeMax / 2
      {
        if j > 0 { assert Doublings(start, j) == Doublings(start * 2, j - 1); }
      }
    }
  }

  lemma {:induction false} DoublingsShift(start: nat, j: nat)
    ensures Doublings(start, j + 1) == Doublings(start * 2, j)
  {
    if j > 0 { DoublingsShift(start, j - 1); }
  }

  /** A write is refused, changing nothing, exactly when the output would exceed `sizeMax` or it does not fit the block and
      the allocator refuses. Otherwise the bytes are appended, in the block if they fit and else in one of the grown
      capacity, starting from 256. */
  lemma WriteExactly(state: State, bytes: Bytes, allocates: bool, sizeMax: nat) returns (k: nat)
    requires 256 <= sizeMax && state.capacity <= sizeMax
    ensures var needed, after := |state.contents| + |bytes|, Written(state, bytes, allocates, sizeMax);
            var start := if state.capacity == 0 then 256 else state.capacity;
            if needed > sizeMax || (needed > state.capacity && !allocates) then
              after == state && !Accepts(state, bytes, allocates, sizeMax)
            else
              && Accepts(state, bytes, allocates, sizeMax) && after.contents == state.contents + bytes
              && if needed <= state.capacity then after.capacity == state.capacity && after.copied == state.copied
                 else
                   && DoublesTo(start, needed, sizeMax, k) && after.copied == state.copied + state.capacity
                   && after.capacity == if Doublings(start, k) >= needed then Doublings(start, k) else needed
  {
    var needed, start := |state.contents| + |bytes|, if state.capacity == 0 then 256 else state.capacity;
    k := 0;
    if needed <= sizeMax { k := GrownExactly(start, needed, sizeMax); }
    hide Grown, Doublings, DoublesTo;
  }

  // ----- cost

  /** The blocks given up so far are smaller together than the one in use, which stays below twice the contents. */
  ghost predicate Amortised(state: State) {
    if state.capacity <= INITIAL_CAPACITY then state.copied == 0
    else state.copied + INITIAL_CAPACITY <= state.capacity && state.capacity < 2 * |state.contents|
  }

  /** Doubling from `capacity` reaches at least twice as much while the need is at most half of `size_t`. */
  lemma {:induction false} GrownDoubles(capacity: nat, needed: nat, sizeMax: nat)
    requires 0 < capacity < needed <= sizeMax / 2
    ensures Grown(capacity, needed, sizeMax) >= 2 * capacity
  {
    assert Grown(capacity, needed, sizeMax) == Grown(capacity * 2, needed, sizeMax);
  }

  lemma WrittenAmortised(state: State, bytes: Bytes, allocates: bool, sizeMax: nat)
    requires INITIAL_CAPACITY <= sizeMax && state.capacity <= sizeMax
    requires Amortised(state) && |state.contents| + |bytes| <= sizeMax / 2
    requires state.capacity == 0 || INITIAL_CAPACITY <= state.capacity
    ensures var after := Written(state, bytes, allocates, sizeMax);
            Amortised(after) && (after.capacity == 0 || INITIAL_CAPACITY <= after.capacity)
  {
    var needed := |state.contents| + |bytes|;
    if MustGrow(state, bytes) && allocates {
      if state.capacity != 0 {
        GrownDoubles(state.capacity, needed, sizeMax);
      }
    }
  }

  lemma {:induction false} RunAmortised(attempts: seq<Attempt>, sizeMax: nat)
    requires INITIAL_CAPACITY <= sizeMax
    requires |Run(EMPTY, attempts, sizeMax).contents| <= sizeMax / 2
    ensures var end := Run(EMPTY, attempts, sizeMax);
            Amortised(end) && (end.capacity == 0 || INITIAL_CAPACITY <= end.capacity)
  {
    if attempts != [] {
      var init, last := attempts[..|attempts| - 1], attempts[|attempts| - 1];
      var before := Run(EMPTY, init, sizeMax);
      RunAmortised(init, sizeMax);
      if Accepts(before, last.bytes, last.allocates, sizeMax) {
        WrittenAmortised(before, last.bytes, last.allocates, sizeMax);
      }
    }
  }

  /** Linear cost: however the output was cut into writes, reallocation moved at most twice the bytes written, as
      long as the output stayed within half of `size_t`. */
  lemma LinearCost(attempts: seq<Attempt>, sizeMax: nat)
    requires INITIAL_CAPACITY <= sizeMax
    requires |Accepted(EMPTY, attempts, sizeMax)| <= sizeMax / 2
    ensures Run(EMPTY, attempts, sizeMax).copied <= 2 * |Accepted(EMPTY, attempts, sizeMax)|
  {
    RefinesConcatenation(attempts, sizeMax);
    RunAmortised(attempts, sizeMax);
  }
}

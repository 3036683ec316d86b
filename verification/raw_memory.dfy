/** The storage layer: an exclusively owned block of `capacity` slots that
    knows nothing about which slots hold live objects. */
module RawStorage {
  import opened Outcomes

  class RawMemory<T> {
    /** The owned block; null exactly when no block was allocated. */
    var buffer: array?<Option<T>>
    /** Number of slots in the block (not bytes). */
    var capacity: nat

    /** The block is null exactly when the capacity is 0, and otherwise has
        `capacity` slots. */
    ghost predicate Valid()
      reads this
    {
      && (buffer == null <==> capacity == 0)
      && (buffer != null ==> buffer.Length == capacity)
    }

    /** The objects that make up this storage. */
    ghost function Repr(): set<object>
      reads this
    {
      if buffer == null then {this} else {this, buffer}
    }

    /** No slot holds a live object: the block may be released. */
    ghost predicate Unoccupied()
      reads this, buffer
    {
      buffer != null ==> forall i :: 0 <= i < buffer.Length ==> buffer[i].None?
    }

    /** Slots `[0, |s|)` hold the live objects `s`, in order, and every
        later slot is raw memory. */
    ghost predicate Holds(s: seq<T>)
      reads this, buffer
    {
      && Valid()
      && |s| <= capacity
      && (forall i :: 0 <= i < |s| ==> buffer[i] == Some(s[i]))
      && (forall i :: |s| <= i < capacity ==> buffer[i] == None)
    }

    /** An empty storage (the default constructor): no block, capacity 0. */
    constructor Empty()
      ensures Valid() && buffer == null && capacity == 0
    {
      buffer := null;
      capacity := 0;
    }

    /** Storage for `n` objects, none of them constructed yet. */
    constructor (n: nat)
      ensures Valid() && capacity == n && Holds([])
      ensures buffer != null ==> fresh(buffer)
    {
      var b := Allocate(n);
      buffer := b;
      capacity := n;
    }

    /** Takes over the block of `rhs`, which is left empty (null, 0). */
    constructor Moved(rhs: RawMemory<T>)
      requires rhs.Valid()
      modifies rhs
      ensures Valid() && buffer == old(rhs.buffer) && capacity == old(rhs.capacity)
      ensures rhs.Valid() && rhs.buffer == null && rhs.capacity == 0
    {
      buffer := rhs.buffer;
      capacity := rhs.capacity;
      new;
      rhs.buffer := null;
      rhs.capacity := 0;
    }

    /** Move assignment: unless `rhs` is this storage itself, takes over its
        block and leaves `rhs` empty. */
    method MoveAssign(rhs: RawMemory<T>)
      requires Valid() && rhs.Valid()
      modifies this, rhs
      ensures Valid() && rhs.Valid()
      ensures rhs == this ==> buffer == old(buffer) && capacity == old(capacity)
      ensures rhs != this ==> buffer == old(rhs.buffer) && capacity == old(rhs.capacity)
      ensures rhs != this ==> rhs.buffer == null && rhs.capacity == 0
    {
      if this != rhs {
        buffer := rhs.buffer;
        capacity := rhs.capacity;
        rhs.buffer := null;
        rhs.capacity := 0;
      }
    }

    /** Exchanges blocks and capacities with `other`; no slot is touched. */
    method Swap(other: RawMemory<T>)
      modifies this, other
      ensures buffer == old(other.buffer) && capacity == old(other.capacity)
      ensures other.buffer == old(buffer) && other.capacity == old(capacity)
    {
      var b, c := buffer, capacity;
      buffer, capacity := other.buffer, other.capacity;
      other.buffer, other.capacity := b, c;
    }

    /** The slot at `index`, which must lie inside the block. */
    method Get(index: nat) returns (slot: Option<T>)
      requires Valid() && index < capacity
      ensures buffer != null && slot == buffer[index]
    {
      slot := buffer[index];
    }

    method Capacity() returns (c: nat)
      ensures c == capacity
    {
      c := capacity;
    }

    /** Releases the block (the destructor). The caller must already have
        destroyed every object in it; the storage is left empty. */
    method Dispose()
      requires Valid() && Unoccupied()
      modifies this
      ensures Valid() && buffer == null && capacity == 0
    {
      buffer := null;
      capacity := 0;
    }

    /** A block of `n` raw slots, or null without allocating when `n` is 0. */
    static method Allocate(n: nat) returns (b: array?<Option<T>>)
      ensures b == null <==> n == 0
      ensures b != null ==> fresh(b) && b.Length == n
      ensures b != null ==> forall i :: 0 <= i < n ==> b[i] == None
    {
      if n != 0 {
        b := new Option<T>[n](_ => None);
      } else {
        b := null;
      }
    }
  }
}

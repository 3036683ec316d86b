/** The container: one exclusively owned RawMemory plus the number of live
    objects at its front. Positions (iterators) are indices: begin() is 0
    and end() is the size. Every operation that may throw returns an
    Outcome; the caller supplies what the element type does during the call
    (see Outcomes): whether the new element's construction throws, which
    copy throws, and whether relocation moves (T's move constructor is
    noexcept or T cannot be copied) or copies. */
module AdvancedVector {
  import opened Outcomes
  import opened Memory
  import opened RawStorage
  import opened VectorSpec

  class Vector<T> {
    const data: RawMemory<T>
    var size: nat
    /** The live objects, front to back. */
    ghost var Elements: seq<T>

    ghost function Repr(): set<object>
      reads this, data
    {
      {this} + data.Repr()
    }

    /** The representation invariant: the storage holds exactly `Elements`
        in slots `[0, size)` and raw memory after them, so
        `size <= capacity`. */
    ghost predicate Valid()
      reads this, data, data.buffer
    {
      data.Holds(Elements) && size == |Elements|
    }

    /** Two distinct containers own disjoint storage. */
    ghost predicate Separate(other: Vector<T>)
      reads this, data, other, other.data
    {
      this != other && Repr() !! other.Repr()
    }

    /** An empty container: no elements, no block. */
    constructor ()
      ensures Valid() && fresh(Repr())
      ensures Elements == [] && data.capacity == 0
    {
      data := new RawMemory.Empty();
      size := 0;
      Elements := [];
    }

    /** `n` value-constructed elements (each `init`) in a block of exactly `n`. */
    constructor Sized(n: nat, init: T)
      ensures Valid() && fresh(Repr())
      ensures Elements == Filled(init, n) && data.capacity == n
    {
      data := new RawMemory(n);
      size := n;
      Elements := Filled(init, n);
      new;
      var _ := UninitializedValueConstructN(data.buffer, 0, n, init, NoFault);
    }

    /** A copy of `other`, in a block of exactly `other`'s size. */
    constructor Copy(other: Vector<T>)
      requires other.Valid()
      ensures Valid() && fresh(Repr())
      ensures Elements == other.Elements && data.capacity == |other.Elements|
    {
      data := new RawMemory(other.size);
      size := other.size;
      Elements := other.Elements;
      new;
      var _ := UninitializedCopyN(other.data.buffer, 0, size, data.buffer, 0, NoFault);
    }

    /** Takes over `other`'s block and elements; `other` is left empty with
        capacity 0. */
    constructor Moved(other: Vector<T>)
      requires other.Valid()
      modifies other, other.data
      ensures Valid() && fresh(data)
      ensures Elements == old(other.Elements) && data.capacity == old(other.data.capacity)
      ensures other.Valid() && other.Elements == [] && other.data.capacity == 0
    {
      data := new RawMemory.Moved(other.data);
      size := other.size;
      Elements := other.Elements;
      new;
      other.size := 0;
      other.Elements := [];
    }

    /** Copy assignment. Self-assignment changes nothing. When `rhs` fits in
        the current block, the overlapping prefix is copy-assigned and the
        rest copy-constructed or destroyed; a throwing copy-construction
        leaves the old size with that prefix already assigned (basic
        guarantee). Otherwise a full copy is built first and swapped in, so a
        throw leaves this container as it was (strong guarantee). */
    method CopyAssign(rhs: Vector<T>, copyFault: Fault) returns (r: Outcome<()>)
      requires Valid() && rhs.Valid()
      requires this == rhs || Separate(rhs)
      modifies Repr()
      ensures Valid() && fresh(Repr() - old(Repr()))
      ensures rhs.Elements == old(rhs.Elements)
      ensures var fits := |old(rhs.Elements)| <= old(data.capacity);
        var copies := if !fits then |old(rhs.Elements)|
                      else if old(size) <= |old(rhs.Elements)| then |old(rhs.Elements)| - old(size)
                      else 0;
        && (r.Threw? <==> this != rhs && copyFault.HitsWithin(copies))
        && (r.Returned? ==> Elements == old(rhs.Elements))
        && (r.Threw? && fits ==> Elements == old(rhs.Elements)[..old(size)])
        && (r.Threw? && !fits ==> Elements == old(Elements))
        && data.capacity == (if fits || r.Threw? then old(data.capacity) else |old(rhs.Elements)|)
    {
      if this != rhs {
        if rhs.size <= data.capacity {
          var common := if size < rhs.size then size else rhs.size;
          Memory.Copy(rhs.data.buffer, common, data.buffer);
          if size <= rhs.size {
            var ok := UninitializedCopyN(rhs.data.buffer, size, rhs.size - size, data.buffer, size, copyFault);
            if !ok {
              Elements := rhs.Elements[..size];
              return Threw;
            }
          } else {
            DestroyN(data.buffer, rhs.size, size - rhs.size);
          }
          size := rhs.size;
          Elements := rhs.Elements;
        } else {
          // Copy-and-swap: the copy constructor builds the temporary in a
          // block of its own, Swap installs it, and the temporary's
          // destructor then destroys the old elements and frees the old block.
          var block := new RawMemory(rhs.size);
          var ok := UninitializedCopyN(rhs.data.buffer, 0, rhs.size, block.buffer, 0, copyFault);
          if !ok {
            block.Dispose();
            return Threw;
          }
          data.Swap(block);
          DestroyN(block.buffer, 0, size);
          block.Dispose();
          size := rhs.size;
          Elements := rhs.Elements;
        }
      }
      r := Returned(());
    }

    /** Move assignment: exchanges contents and capacities with `rhs`. */
    method MoveAssign(rhs: Vector<T>)
      requires Valid() && rhs.Valid()
      requires this == rhs || Separate(rhs)
      modifies this, data, rhs, rhs.data
      ensures Valid() && rhs.Valid()
      ensures Elements == old(rhs.Elements) && rhs.Elements == old(Elements)
      ensures data.capacity == old(rhs.data.capacity) && rhs.data.capacity == old(data.capacity)
    {
      Swap(rhs);
    }

    /** Exchanges blocks, sizes and elements with `other`. */
    method Swap(other: Vector<T>)
      requires Valid() && other.Valid()
      requires this == other || Separate(other)
      modifies this, data, other, other.data
      ensures Valid() && other.Valid()
      ensures Elements == old(other.Elements) && other.Elements == old(Elements)
      ensures data.capacity == old(other.data.capacity) && other.data.capacity == old(data.capacity)
    {
      data.Swap(other.data);
      var s := size;
      size := other.size;
      other.size := s;
      ghost var e := Elements;
      Elements := other.Elements;
      other.Elements := e;
    }

    /** The destructor: destroys every element, then releases the block,
        which by then holds no live object. */
    method Dispose()
      requires Valid()
      modifies this, data, data.buffer
      ensures Valid() && Elements == [] && data.capacity == 0 && data.buffer == null
    {
      DestroyN(data.buffer, 0, size);
      data.Dispose();
      size := 0;
      Elements := [];
    }

    method Size() returns (n: nat)
      requires Valid()
      ensures n == |Elements|
    {
      n := size;
    }

    method Capacity() returns (c: nat)
      requires Valid()
      ensures c == data.capacity && c >= |Elements|
    {
      c := data.Capacity();
    }

    /** The element at `index` (operator[] read through the reference). */
    method Get(index: nat) returns (x: T)
      requires Valid() && index < |Elements|
      ensures x == Elements[index]
    {
      var slot := data.Get(index);
      x := slot.value;
    }

    /** Assigns `x` to the element at `index` (operator[] written through
        the reference); nothing else changes. */
    method Set(index: nat, x: T)
      requires Valid() && index < |Elements|
      modifies this, data.buffer
      ensures Valid() && data.capacity == old(data.capacity)
      ensures Elements == old(Elements)[index := x]
    {
      data.buffer[index] := Some(x);
      Elements := Elements[index := x];
    }

    /** Grows the block to exactly `newCapacity` when that is larger; never
        shrinks it. The elements are relocated by move when that cannot
        throw and by copy otherwise; a throwing copy leaves the container
        exactly as it was (strong guarantee). */
    method Reserve(newCapacity: nat, moveIsSafe: bool, copyFault: Fault) returns (r: Outcome<()>)
      requires Valid()
      modifies Repr()
      ensures Valid() && fresh(Repr() - old(Repr()))
      ensures Elements == old(Elements)
      ensures r.Threw? <==> old(data.capacity) < newCapacity && RelocationThrows(old(size), moveIsSafe, copyFault)
      ensures data.capacity == if r.Threw? then old(data.capacity) else ReservedCapacity(old(data.capacity), newCapacity)
    {
      if newCapacity <= data.capacity {
        return Returned(());
      }
      var block := new RawMemory(newCapacity);
      var ok := IsNothrowMoveOrCopyConstructible(block, moveIsSafe, copyFault);
      if !ok {
        block.Dispose();
        return Threw;
      }
      DestroyN(data.buffer, 0, size);
      data.Swap(block);
      block.Dispose();
      r := Returned(());
    }

    /** Relocates the elements into the fresh block `block`, all by move or
        all by copy. On success `block` holds the elements; when a copy
        throws, `block` holds no live object and the container is untouched. */
    method IsNothrowMoveOrCopyConstructible(block: RawMemory<T>, moveIsSafe: bool, copyFault: Fault)
      returns (ok: bool)
      requires Valid() && block.Holds([]) && size <= block.capacity
      requires block.Repr() !! Repr()
      modifies block.buffer
      ensures ok <==> !RelocationThrows(size, moveIsSafe, copyFault)
      ensures ok ==> block.Holds(Elements)
      ensures !ok ==> block.Holds([])
    {
      if moveIsSafe {
        UninitializedMoveN(data.buffer, 0, size, block.buffer, 0);
        ok := true;
      } else {
        ok := UninitializedCopyN(data.buffer, 0, size, block.buffer, 0, copyFault);
      }
    }

    /** Changes the size to `n`. Shrinking destroys the tail and keeps the
        capacity. Growing first reserves max(2 * capacity, n) when `n` does
        not fit, then value-constructs the new elements (each `init`). A
        throw leaves the elements and size as they were; the capacity stays
        enlarged if the reservation had succeeded. */
    method Resize(n: nat, init: T, moveIsSafe: bool, copyFault: Fault, valueFault: Fault)
      returns (r: Outcome<()>)
      requires Valid()
      modifies Repr()
      ensures Valid() && fresh(Repr() - old(Repr()))
      ensures var reserveThrows := n > old(data.capacity) && RelocationThrows(old(size), moveIsSafe, copyFault);
        && (r.Threw? <==> n > old(size) && (reserveThrows || valueFault.HitsWithin(n - old(size))))
        && (r.Returned? ==> Elements == Resized(old(Elements), n, init))
        && (r.Threw? ==> Elements == old(Elements))
        && data.capacity == (if reserveThrows then old(data.capacity) else ResizedCapacity(old(data.capacity), n))
    {
      if n < size {
        DestroyN(data.buffer, n, size - n);
      } else {
        if n > data.capacity {
          var reserved := Reserve(Max(data.capacity * 2, n), moveIsSafe, copyFault);
          if reserved.Threw? {
            return Threw;
          }
        }
        var ok := UninitializedValueConstructN(data.buffer, size, n - size, init, valueFault);
        if !ok {
          return Threw;
        }
      }
      size := n;
      Elements := Resized(Elements, n, init);
      r := Returned(());
    }

    /** Appends a new element, by copy or by move. `arg` gives its value, or
        says that its construction throws, or refers to one of this
        container's own elements (PushBack(v[i])). */
    method PushBack(arg: Build<T>, moveIsSafe: bool, copyFault: Fault) returns (r: Outcome<()>)
      requires Valid() && arg.RefersWithin(|Elements|)
      modifies Repr()
      ensures Valid() && fresh(Repr() - old(Repr()))
      ensures r.Threw? <==> arg.Fails() || (old(data.capacity) <= old(size) && RelocationThrows(old(size), moveIsSafe, copyFault))
      ensures r.Threw? ==> Elements == old(Elements) && data.capacity == old(data.capacity)
      ensures r.Returned? ==> Elements == old(Elements) + [arg.Value(old(Elements))]
      ensures r.Returned? ==> data.capacity == CapacityAfterInsert(old(size), old(data.capacity))
    {
      var back := EmplaceBack(arg, moveIsSafe, copyFault);
      r := if back.Threw? then Threw else Returned(());
    }

    /** Destroys the last element; the capacity is kept. */
    method PopBack()
      requires Valid() && |Elements| > 0
      modifies this, data.buffer
      ensures Valid() && data.capacity == old(data.capacity)
      ensures Elements == old(Elements)[..|old(Elements)| - 1]
    {
      data.buffer[size - 1] := None;
      size := size - 1;
      Elements := Elements[..size];
    }

    /** Constructs a new element at position `pos` (0 <= pos <= size) and
        returns that position. At full capacity the element is built in a
        new block of GrownCapacity(size) slots before any existing element is
        touched (RegularInsert); otherwise it is placed in the current block
        (ReallocationInsert). A throw from the new element's construction or
        from a relocating copy leaves the container exactly as it was. */
    method Emplace(pos: nat, arg: Build<T>, moveIsSafe: bool, copyFault: Fault) returns (r: Outcome<nat>)
      requires Valid() && pos <= |Elements|
      requires arg.RefersWithin(|Elements|)
      modifies Repr()
      ensures Valid() && fresh(Repr() - old(Repr()))
      ensures r.Threw? <==> arg.Fails() || (old(data.capacity) <= old(size) && RelocationThrows(old(size), moveIsSafe, copyFault))
      ensures r.Threw? ==> Elements == old(Elements) && data.capacity == old(data.capacity)
      ensures r.Returned? ==> r.value == pos && Elements == Inserted(old(Elements), pos, arg.Value(old(Elements)))
      ensures r.Returned? ==> data.capacity == CapacityAfterInsert(old(size), old(data.capacity))
    {
      var ok: bool;
      if data.capacity <= size {
        ok := RegularInsert(pos, arg, moveIsSafe, copyFault);
      } else {
        ok := ReallocationInsert(pos, arg);
      }
      if !ok {
        return Threw;
      }
      size := size + 1;
      Elements := Inserted(Elements, pos, arg.Value(Elements));
      r := Returned(pos);
    }

    /** Emplace at end(); returns the index of the new element. */
    method EmplaceBack(arg: Build<T>, moveIsSafe: bool, copyFault: Fault) returns (r: Outcome<nat>)
      requires Valid() && arg.RefersWithin(|Elements|)
      modifies Repr()
      ensures Valid() && fresh(Repr() - old(Repr()))
      ensures r.Threw? <==> arg.Fails() || (old(data.capacity) <= old(size) && RelocationThrows(old(size), moveIsSafe, copyFault))
      ensures r.Threw? ==> Elements == old(Elements) && data.capacity == old(data.capacity)
      ensures r.Returned? ==> r.value == |old(Elements)| && Elements == old(Elements) + [arg.Value(old(Elements))]
      ensures r.Returned? ==> data.capacity == CapacityAfterInsert(old(size), old(data.capacity))
    {
      r := Emplace(size, arg, moveIsSafe, copyFault);
      if r.Returned? {
        InsertAtEndAppends(old(Elements), arg.Value(old(Elements)));
      }
    }

    /** Removes the element at `pos` (0 <= pos < size), moving the tail down
        by one, and returns `pos`; the capacity is kept. */
    method Erase(pos: nat) returns (r: nat)
      requires Valid() && pos < |Elements|
      modifies this, data.buffer
      ensures Valid() && data.capacity == old(data.capacity)
      ensures r == pos && Elements == Erased(old(Elements), pos)
    {
      Move(data.buffer, pos + 1, size, pos);
      data.buffer[size - 1] := None;
      size := size - 1;
      Elements := Erased(Elements, pos);
      r := pos;
    }

    /** Emplace with a ready-made value. */
    method Insert(pos: nat, arg: Build<T>, moveIsSafe: bool, copyFault: Fault) returns (r: Outcome<nat>)
      requires Valid() && pos <= |Elements|
      requires arg.RefersWithin(|Elements|)
      modifies Repr()
      ensures Valid() && fresh(Repr() - old(Repr()))
      ensures r.Threw? <==> arg.Fails() || (old(data.capacity) <= old(size) && RelocationThrows(old(size), moveIsSafe, copyFault))
      ensures r.Threw? ==> Elements == old(Elements) && data.capacity == old(data.capacity)
      ensures r.Returned? ==> r.value == pos && Elements == Inserted(old(Elements), pos, arg.Value(old(Elements)))
      ensures r.Returned? ==> data.capacity == CapacityAfterInsert(old(size), old(data.capacity))
    {
      r := Emplace(pos, arg, moveIsSafe, copyFault);
    }

    /** Constructs the new element from `arg` (placement new with the
        caller's arguments). A reference to one of this container's own
        elements is read from the storage at this point, before anything is
        relocated or destroyed; `None` means the constructor threw. */
    method Construct(arg: Build<T>) returns (x: Option<T>)
      requires Valid() && arg.RefersWithin(|Elements|)
      ensures x.None? <==> arg.Fails()
      ensures x.Some? ==> x.value == arg.Value(Elements)
    {
      match arg
      case Built(v) =>
        x := Some(v);
      case Throws =>
        x := None;
      case CopyOf(i, copyThrows) =>
        if copyThrows {
          x := None;
        } else {
          x := data.Get(i);
        }
    }

    /** The path Emplace takes at full capacity: the new element is
        constructed in a new block of GrownCapacity(size) slots, the old
        elements are relocated around it, then destroyed, and the blocks are
        swapped. The size is left for Emplace to increment. Whatever throws,
        the new block is released holding no live object and the container
        is untouched. */
    method RegularInsert(pos: nat, arg: Build<T>, moveIsSafe: bool, copyFault: Fault) returns (ok: bool)
      requires Valid() && pos <= size && data.capacity <= size
      requires arg.RefersWithin(|Elements|)
      modifies Repr()
      ensures fresh(Repr() - old(Repr()))
      ensures ok <==> !arg.Fails() && !RelocationThrows(size, moveIsSafe, copyFault)
      ensures size == old(size) && Elements == old(Elements)
      ensures ok ==> data.Holds(Inserted(Elements, pos, arg.Value(Elements)))
      ensures ok ==> data.capacity == GrownCapacity(size)
      ensures !ok ==> Valid() && data.capacity == old(data.capacity)
    {
      var block := new RawMemory(GrownCapacity(size));
      var built := Construct(arg);
      if built.None? {
        block.Dispose();
        return false;
      }
      block.buffer[pos] := built;
      ok := RelocateAround(block, pos, built.value, moveIsSafe, copyFault);
      if !ok {
        block.Dispose();
        return false;
      }
      DestroyN(data.buffer, 0, size);
      data.Swap(block);
      block.Dispose();
    }

    /** The relocation step of RegularInsert: the block holds only the new
        element `x`, at `pos`; the elements before `pos` are moved or copied
        in front of it and the rest behind it. When a copy throws, the copies
        already made and `x` itself are destroyed, so the block can be
        released. */
    method RelocateAround(block: RawMemory<T>, pos: nat, x: T, moveIsSafe: bool, copyFault: Fault)
      returns (ok: bool)
      requires Valid() && pos <= size < block.capacity
      requires block.Repr() !! Repr()
      requires block.Valid() && block.buffer[pos] == Some(x)
      requires forall j :: 0 <= j < block.capacity && j != pos ==> block.buffer[j] == None
      modifies block.buffer
      ensures ok <==> !RelocationThrows(size, moveIsSafe, copyFault)
      ensures ok ==> block.Holds(Inserted(Elements, pos, x))
      ensures !ok ==> block.Holds([])
    {
      if moveIsSafe {
        UninitializedMoveN(data.buffer, 0, pos, block.buffer, 0);
        UninitializedMoveN(data.buffer, pos, size - pos, block.buffer, pos + 1);
        ok := true;
      } else {
        ok := UninitializedCopyN(data.buffer, 0, pos, block.buffer, 0, copyFault);
        if ok {
          ok := UninitializedCopyN(data.buffer, pos, size - pos, block.buffer, pos + 1, copyFault.Skip(pos));
          if !ok {
            DestroyN(block.buffer, 0, pos);
          }
        }
        if !ok {
          DestroyN(block.buffer, pos, 1);
          return;
        }
      }
    }

    /** The relocation step of RegularInsert as the source writes it: the
        same two batches, but a throwing copy propagates at once. The batch
        that throws destroys its own copies, yet nothing destroys `x` or the
        first batch, and the unwinding then releases the block with them
        still alive (RawMemory's destructor only frees the memory). Not used
        by the rest of the model; RelocateAround is the corrected step. */
    method RelocateAroundAsWritten(block: RawMemory<T>, pos: nat, x: T, moveIsSafe: bool, copyFault: Fault)
      returns (ok: bool)
      requires Valid() && pos <= size < block.capacity
      requires block.Repr() !! Repr()
      requires block.Valid() && block.buffer[pos] == Some(x)
      requires forall j :: 0 <= j < block.capacity && j != pos ==> block.buffer[j] == None
      modifies block.buffer
      ensures ok <==> !RelocationThrows(size, moveIsSafe, copyFault)
      ensures ok ==> block.Holds(Inserted(Elements, pos, x))
      ensures !ok ==> block.buffer[pos] == Some(x)
      ensures !ok && !copyFault.HitsWithin(pos) ==> forall j :: 0 <= j < pos ==> block.buffer[j] == Some(Elements[j])
    {
      if moveIsSafe {
        UninitializedMoveN(data.buffer, 0, pos, block.buffer, 0);
        UninitializedMoveN(data.buffer, pos, size - pos, block.buffer, pos + 1);
        ok := true;
      } else {
        ok := UninitializedCopyN(data.buffer, 0, pos, block.buffer, 0, copyFault);
        if ok {
          ok := UninitializedCopyN(data.buffer, pos, size - pos, block.buffer, pos + 1, copyFault.Skip(pos));
        }
      }
    }

    /** The path Emplace takes when there is room: at end() the element is
        constructed in place; elsewhere a temporary is constructed first, the
        last element is moved into the first raw slot, the elements from
        `pos` on are moved up by one from the back, and the temporary is
        moved into `pos`. The size is left for Emplace to increment. */
    method ReallocationInsert(pos: nat, arg: Build<T>) returns (ok: bool)
      requires Valid() && pos <= size && size < data.capacity
      requires arg.RefersWithin(|Elements|)
      modifies data.buffer
      ensures ok <==> !arg.Fails()
      ensures size == old(size) && Elements == old(Elements)
      ensures ok ==> data.Holds(Inserted(Elements, pos, arg.Value(Elements)))
      ensures !ok ==> Valid()
    {
      if pos == size {
        var built := Construct(arg);
        if built.None? {
          return false;
        }
        data.buffer[size] := built;
      } else {
        var tmp := Construct(arg);
        if tmp.None? {
          return false;
        }
        data.buffer[size] := data.buffer[size - 1];
        MoveBackward(data.buffer, pos, size - 1, size);
        data.buffer[pos] := tmp;
      }
      ok := true;
    }
  }
}

/** The strong-exception scenarios of the repository's test program,
    replayed against the model. The element type there relocates by move
    (its move constructor is defaulted, hence noexcept), and with its copy
    failure switched on every copy-construction throws, the first one
    included. */
module Scenarios {
  import opened Outcomes
  import opened RawStorage
  import opened VectorSpec
  import opened AdvancedVector

  /** Pushing a copy into a full vector of one element throws and leaves
      size 1, capacity 1 and the element as it was. */
  method PushCopyIntoFullVector<T>(init: T) returns (r: Outcome<()>, size: nat, cap: nat, first: T)
    ensures r.Threw? && size == 1 && cap == 1 && first == init
  {
    var v := new Vector<T>.Sized(1, init);
    r := v.PushBack(Throws, true, FailAt(0));
    size := v.Size();
    cap := v.Capacity();
    first := v.Get(0);
  }

  /** The same with spare room after Reserve(2): size 1, capacity 2. */
  method PushCopyWithSpareRoom<T>(init: T) returns (r: Outcome<()>, size: nat, cap: nat, first: T)
    ensures r.Threw? && size == 1 && cap == 2 && first == init
  {
    var v := new Vector<T>.Sized(1, init);
    var reserved := v.Reserve(2, true, FailAt(0));
    r := v.PushBack(Throws, true, FailAt(0));
    size := v.Size();
    cap := v.Capacity();
    first := v.Get(0);
  }

  /** Pushing by move into a full vector of one element succeeds although
      copies throw: size 2, capacity 2, both elements live. */
  method PushMoveIntoFullVector<T>(init: T, a: T) returns (r: Outcome<()>, size: nat, cap: nat, first: T, second: T)
    ensures r.Returned? && size == 2 && cap == 2 && first == init && second == a
  {
    var v := new Vector<T>.Sized(1, init);
    r := v.PushBack(Built(a), true, FailAt(0));
    size := v.Size();
    cap := v.Capacity();
    first := v.Get(0);
    second := v.Get(1);
  }

  /** Pushing a copy of the vector's own first element into a full vector,
      with that copy throwing, leaves the vector intact. */
  method PushOwnElementIntoFullVector<T>(init: T) returns (r: Outcome<()>, size: nat, cap: nat, first: T)
    ensures r.Threw? && size == 1 && cap == 1 && first == init
  {
    var v := new Vector<T>.Sized(1, init);
    r := v.PushBack(CopyOf(0, true), true, FailAt(0));
    size := v.Size();
    cap := v.Capacity();
    first := v.Get(0);
  }

  /** The same with spare room after Reserve(2). */
  method PushOwnElementWithSpareRoom<T>(init: T) returns (r: Outcome<()>, size: nat, cap: nat, first: T)
    ensures r.Threw? && size == 1 && cap == 2 && first == init
  {
    var v := new Vector<T>.Sized(1, init);
    var reserved := v.Reserve(2, true, FailAt(0));
    r := v.PushBack(CopyOf(0, true), true, FailAt(0));
    size := v.Size();
    cap := v.Capacity();
    first := v.Get(0);
  }

  /** When the copy of the vector's own first element succeeds, pushing it
      into a full vector appends the value that element had, although the
      old block (and the element itself) is destroyed by the same call, and
      whether relocation moves or copies. */
  method PushOwnElementGrows<T>(init: T, a: T, moveIsSafe: bool) returns (r: Outcome<()>, size: nat, cap: nat, first: T, second: T)
    ensures r.Returned? && size == 2 && cap == 2 && first == a && second == a
  {
    var v := new Vector<T>.Sized(1, init);
    v.Set(0, a);
    r := v.PushBack(CopyOf(0, false), moveIsSafe, NoFault);
    size := v.Size();
    cap := v.Capacity();
    first := v.Get(0);
    second := v.Get(1);
  }

  /** Inserting a copy of the last element in front of the first with spare
      room: the copy is taken before the elements are shifted up. */
  method InsertOwnElementInPlace<T>(a: T, b: T) returns (r: Outcome<nat>, elements: seq<T>)
    ensures r == Returned(0) && elements == [b, a, b]
  {
    var v := new Vector<T>.Sized(2, a);
    var reserved := v.Reserve(3, true, NoFault);
    v.Set(1, b);
    r := v.Insert(0, CopyOf(1, false), true, NoFault);
    var x0 := v.Get(0);
    var x1 := v.Get(1);
    var x2 := v.Get(2);
    elements := [x0, x1, x2];
  }

  /** A second Reserve(n) after a successful first one returns without
      changing the elements or the capacity. */
  method ReserveTwice<T>(v: Vector<T>, n: nat, moveIsSafe: bool, copyFault: Fault)
    returns (first: Outcome<()>, second: Outcome<()>)
    requires v.Valid()
    modifies v.Repr()
    ensures v.Valid() && v.Elements == old(v.Elements)
    ensures first.Returned? ==> second.Returned?
    ensures first.Returned? ==> v.data.capacity == ReservedCapacity(old(v.data.capacity), n)
  {
    first := v.Reserve(n, moveIsSafe, copyFault);
    if first.Returned? {
      second := v.Reserve(n, moveIsSafe, copyFault);
    } else {
      second := Threw;
    }
  }

  /** Emplacing at the end of a full one-element vector whose element type
      relocates by copy, with the new element built and the relocating copy
      of the old element throwing: as written, the block RegularInsert then
      releases still holds the new element alive. */
  method LeakedElementAsWritten<T>(init: T, x: T) returns (ok: bool, abandoned: Option<T>)
    ensures !ok && abandoned == Some(x)
  {
    var v := new Vector<T>.Sized(1, init);
    var block := new RawMemory<T>(GrownCapacity(1));
    block.buffer[1] := Some(x);
    ok := v.RelocateAroundAsWritten(block, 1, x, false, FailAt(0));
    abandoned := block.buffer[1];
  }
}

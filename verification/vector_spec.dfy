/** What the container's operations do to its observable state (the element
    sequence and the capacity), stated as functions on values, and the
    properties that relate several operations to each other. */
module VectorSpec {
  import opened Outcomes

  function Max(a: nat, b: nat): (m: nat)
    ensures m >= a && m >= b && (m == a || m == b)
  {
    if a < b then b else a
  }

  /** `n` copies of `x`: what value-construction of `n` elements yields. */
  function Filled<T>(x: T, n: nat): (r: seq<T>)
    ensures |r| == n
    ensures forall j :: 0 <= j < n ==> r[j] == x
  {
    seq(n, _ => x)
  }

  /** `s` with `x` placed at position `i` and the tail moved up by one. */
  function Inserted<T>(s: seq<T>, i: nat, x: T): (r: seq<T>)
    requires i <= |s|
    ensures |r| == |s| + 1 && r[i] == x
    ensures forall j :: 0 <= j < i ==> r[j] == s[j]
    ensures forall j :: i < j < |r| ==> r[j] == s[j - 1]
  {
    s[..i] + [x] + s[i..]
  }

  /** `s` without its element at position `i`, the tail moved down by one. */
  function Erased<T>(s: seq<T>, i: nat): (r: seq<T>)
    requires i < |s|
    ensures |r| == |s| - 1
    ensures forall j :: 0 <= j < i ==> r[j] == s[j]
    ensures forall j :: i <= j < |r| ==> r[j] == s[j + 1]
  {
    s[..i] + s[i + 1..]
  }

  /** `s` cut down to its first `n` elements, or extended to `n` elements
      with copies of `init`. */
  function Resized<T>(s: seq<T>, n: nat, init: T): (r: seq<T>)
    ensures |r| == n
    ensures forall j :: 0 <= j < n ==> r[j] == if j < |s| then s[j] else init
  {
    if n <= |s| then s[..n] else s + Filled(init, n - |s|)
  }

  /** Capacity of the block allocated when an element is inserted into a
      full container of `size` elements. */
  function GrownCapacity(size: nat): (c: nat)
    ensures c > size
  {
    if size == 0 then 1 else 2 * size
  }

  /** Capacity after a successful insertion into a container of `size`
      elements and capacity `cap`: unchanged while there is room, grown
      otherwise. Growth never shrinks the block and doubles it with a floor
      of one slot. */
  function CapacityAfterInsert(size: nat, cap: nat): (c: nat)
    requires size <= cap
    ensures c > size && c >= cap
    ensures size < cap ==> c == cap
    ensures cap <= size ==> c == Max(2 * cap, 1)
  {
    if cap <= size then GrownCapacity(size) else cap
  }

  /** Capacity after a successful Reserve(n): exactly `n` if that is more
      than `cap`, otherwise `cap`. */
  function ReservedCapacity(cap: nat, n: nat): (c: nat)
    ensures c >= cap && c >= n
    ensures c == cap || c == n
  {
    if n <= cap then cap else n
  }

  /** Capacity after Resize(n) once any reservation it needs succeeded:
      unchanged while `n` fits, otherwise at least `n` and at least twice
      the old capacity. */
  function ResizedCapacity(cap: nat, n: nat): (c: nat)
    ensures c >= cap && c >= n
    ensures n <= cap ==> c == cap
    ensures c != cap ==> c == Max(2 * cap, n)
  {
    if n > cap then Max(cap * 2, n) else cap
  }

  /** Does relocating `n` elements into a new block throw? Relocation by
      move is chosen only when it cannot throw; relocation by copy throws
      when one of the `n` copies does. */
  predicate RelocationThrows(n: nat, moveIsSafe: bool, copyFault: Fault) {
    !moveIsSafe && copyFault.HitsWithin(n)
  }

  /** Erasing the element just inserted gives back the original sequence. */
  lemma EraseUndoesInsert<T>(s: seq<T>, i: nat, x: T)
    requires i <= |s|
    ensures Erased(Inserted(s, i, x), i) == s
  {
    var r := Erased(Inserted(s, i, x), i);
    assert |r| == |s|;
    forall j | 0 <= j < |s| ensures r[j] == s[j] {
      if j >= i { assert Inserted(s, i, x)[j + 1] == s[j]; }
    }
  }

  /** Re-inserting an erased element where it was gives back the original. */
  lemma InsertUndoesErase<T>(s: seq<T>, i: nat)
    requires i < |s|
    ensures Inserted(Erased(s, i), i, s[i]) == s
  {
    var r := Inserted(Erased(s, i), i, s[i]);
    assert |r| == |s|;
    forall j | 0 <= j < |s| ensures r[j] == s[j] {
      if j > i { assert Erased(s, i)[j - 1] == s[j]; }
    }
  }

  /** Inserting at the end appends (EmplaceBack, PushBack). */
  lemma InsertAtEndAppends<T>(s: seq<T>, x: T)
    ensures Inserted(s, |s|, x) == s + [x]
  {
    assert Inserted(s, |s|, x)[..|s|] == s;
  }

  /** Erasing the last element drops it (PopBack). */
  lemma EraseLastDropsLast<T>(s: seq<T>)
    requires |s| > 0
    ensures Erased(s, |s| - 1) == s[..|s| - 1]
  {
  }

  /** Resizing to the current size keeps the sequence; growing then
      shrinking back restores it. */
  lemma ResizeRoundTrip<T>(s: seq<T>, n: nat, init: T)
    requires n >= |s|
    ensures Resized(s, |s|, init) == s
    ensures Resized(Resized(s, n, init), |s|, init) == s
  {
    assert Resized(s, n, init)[..|s|] == s;
  }

  ghost predicate IsPowerOfTwo(n: nat)
    decreases n
  {
    n == 1 || (n >= 2 && n % 2 == 0 && IsPowerOfTwo(n / 2))
  }

  /** Capacity of a container that started empty and received `n`
      successful appends. */
  function CapacityAfterAppends(n: nat): (c: nat)
    ensures c >= n
  {
    if n == 0 then 0 else CapacityAfterInsert(n - 1, CapacityAfterAppends(n - 1))
  }

  /** Number of element relocations (moves or copies of existing elements
      into a new block) performed by those `n` appends. */
  function RelocationsAfterAppends(n: nat): (r: nat)
  {
    if n == 0 then 0
    else
      var cap := CapacityAfterAppends(n - 1);
      RelocationsAfterAppends(n - 1) + (if cap <= n - 1 then n - 1 else 0)
  }

  /** After `n >= 1` appends to an empty container the capacity is the
      least power of two that is at least `n`. */
  lemma {:induction false} AppendsGivePowerOfTwo(n: nat)
    requires n >= 1
    ensures IsPowerOfTwo(CapacityAfterAppends(n))
    ensures n <= CapacityAfterAppends(n) < 2 * n
  {
    if n > 1 {
      AppendsGivePowerOfTwo(n - 1);
      var cap := CapacityAfterAppends(n - 1);
      if cap <= n - 1 {
        assert cap == n - 1;
        assert CapacityAfterAppends(n) == 2 * (n - 1);
        assert (2 * (n - 1)) / 2 == n - 1;
      }
    }
  }

  /** Appends cost amortised constant time: `n` appends to an empty
      container relocate fewer than `2 n` elements in all. */
  lemma {:induction false} AppendsRelocateLinearly(n: nat)
    ensures n >= 1 ==> RelocationsAfterAppends(n) == CapacityAfterAppends(n) - 1
    ensures RelocationsAfterAppends(n) < 2 * n || n == 0
  {
    if n > 1 {
      AppendsRelocateLinearly(n - 1);
      AppendsGivePowerOfTwo(n - 1);
    }
    if n >= 1 {
      AppendsGivePowerOfTwo(n);
    }
  }
}

/** The standard-library algorithms the container applies to its storage,
    modelled on arrays of slots. A position is an index into the array; a
    null array stands for the null pointer of an empty block and may only be
    passed with a count of 0. */
module Memory {
  import opened Outcomes

  /** Ends the lifetime of the `n` live objects at `[from, from + n)`
      (std::destroy_n); every other slot is left as it was. */
  method DestroyN<T>(a: array?<Option<T>>, from: nat, n: nat)
    requires n > 0 ==> a != null && from + n <= a.Length
    requires n > 0 ==> forall j :: from <= j < from + n ==> a[j].Some?
    modifies a
    ensures a != null ==> forall j :: 0 <= j < a.Length ==>
      a[j] == (if from <= j < from + n then None else old(a[j]))
  {
    var i := 0;
    while i < n
      invariant i <= n
      invariant a != null ==> forall j :: 0 <= j < a.Length ==>
        a[j] == (if from <= j < from + i then None else old(a[j]))
    {
      a[from + i] := None;
      i := i + 1;
    }
  }

  /** Copy-constructs `src[from .. from + n)` into the raw slots
      `dst[at .. at + n)` (std::uninitialized_copy_n). When construction
      number `fault.k` throws, the copies already made are destroyed before
      the exception leaves, so `dst` is as it was. */
  method UninitializedCopyN<T>(src: array?<Option<T>>, from: nat, n: nat,
                               dst: array?<Option<T>>, at: nat, fault: Fault)
    returns (ok: bool)
    requires n > 0 ==> src != null && dst != null && src != dst
    requires n > 0 ==> from + n <= src.Length && at + n <= dst.Length
    requires n > 0 ==> forall j :: from <= j < from + n ==> src[j].Some?
    requires n > 0 ==> forall j :: at <= j < at + n ==> dst[j].None?
    modifies dst
    ensures ok <==> !fault.HitsWithin(n)
    ensures dst != null ==> forall j :: 0 <= j < dst.Length ==>
      dst[j] == (if ok && at <= j < at + n then src[from + (j - at)] else old(dst[j]))
  {
    var i := 0;
    while i < n
      invariant i <= n
      invariant !fault.HitsWithin(i)
      invariant dst != null ==> forall j :: 0 <= j < dst.Length ==>
        dst[j] == (if at <= j < at + i then src[from + (j - at)] else old(dst[j]))
    {
      if fault == FailAt(i) {
        DestroyN(dst, at, i);
        return false;
      }
      dst[at + i] := src[from + i];
      i := i + 1;
    }
    ok := true;
  }

  /** Move-constructs `src[from .. from + n)` into the raw slots
      `dst[at .. at + n)` (std::uninitialized_move_n). It is used only when
      T's move constructor cannot throw, so it always completes; the
      moved-from sources stay live until the caller destroys them. */
  method UninitializedMoveN<T>(src: array?<Option<T>>, from: nat, n: nat,
                               dst: array?<Option<T>>, at: nat)
    requires n > 0 ==> src != null && dst != null && src != dst
    requires n > 0 ==> from + n <= src.Length && at + n <= dst.Length
    requires n > 0 ==> forall j :: from <= j < from + n ==> src[j].Some?
    requires n > 0 ==> forall j :: at <= j < at + n ==> dst[j].None?
    modifies dst
    ensures dst != null ==> forall j :: 0 <= j < dst.Length ==>
      dst[j] == (if at <= j < at + n then src[from + (j - at)] else old(dst[j]))
  {
    // A non-throwing move transfers the same values as a copy that never fails.
    var _ := UninitializedCopyN(src, from, n, dst, at, NoFault);
  }

  /** Value-constructs `n` objects, each equal to `init` (what `T()`
      yields), in the raw slots `[from, from + n)`
      (std::uninitialized_value_construct_n); on a throw the objects already
      made are destroyed and `a` is as it was. */
  method UninitializedValueConstructN<T>(a: array?<Option<T>>, from: nat, n: nat,
                                         init: T, fault: Fault)
    returns (ok: bool)
    requires n > 0 ==> a != null && from + n <= a.Length
    requires n > 0 ==> forall j :: from <= j < from + n ==> a[j].None?
    modifies a
    ensures ok <==> !fault.HitsWithin(n)
    ensures a != null ==> forall j :: 0 <= j < a.Length ==>
      a[j] == (if ok && from <= j < from + n then Some(init) else old(a[j]))
  {
    var i := 0;
    while i < n
      invariant i <= n
      invariant !fault.HitsWithin(i)
      invariant a != null ==> forall j :: 0 <= j < a.Length ==>
        a[j] == (if from <= j < from + i then Some(init) else old(a[j]))
    {
      if fault == FailAt(i) {
        DestroyN(a, from, i);
        return false;
      }
      a[from + i] := Some(init);
      i := i + 1;
    }
    ok := true;
  }

  /** Copy-assigns `src[0 .. n)` over the live objects `dst[0 .. n)`
      (std::copy into live storage). */
  method Copy<T>(src: array?<Option<T>>, n: nat, dst: array?<Option<T>>)
    requires n > 0 ==> src != null && dst != null && src != dst
    requires n > 0 ==> n <= src.Length && n <= dst.Length
    requires n > 0 ==> forall j :: 0 <= j < n ==> src[j].Some? && dst[j].Some?
    modifies dst
    ensures dst != null ==> forall j :: 0 <= j < dst.Length ==>
      dst[j] == (if j < n then src[j] else old(dst[j]))
  {
    var i := 0;
    while i < n
      invariant i <= n
      invariant dst != null ==> forall j :: 0 <= j < dst.Length ==>
        dst[j] == (if j < i then src[j] else old(dst[j]))
    {
      dst[i] := src[i];
      i := i + 1;
    }
  }

  /** Move-assigns the live objects `a[first .. last)` onto
      `a[dFirst .. dFirst + (last - first))`, front to back, within one
      block (std::move over a range); `dFirst <= first`, so every source is
      read before it is overwritten. */
  method Move<T>(a: array<Option<T>>, first: nat, last: nat, dFirst: nat)
    requires dFirst <= first <= last <= a.Length
    requires forall j :: dFirst <= j < last ==> a[j].Some?
    modifies a
    ensures forall j :: 0 <= j < a.Length ==>
      a[j] == (if dFirst <= j < dFirst + (last - first) then old(a[j + (first - dFirst)]) else old(a[j]))
  {
    var d := first - dFirst;
    var k := dFirst;
    while k < last - d
      invariant dFirst <= k <= last - d
      invariant forall j :: 0 <= j < a.Length ==>
        a[j] == (if dFirst <= j < k then old(a[j + d]) else old(a[j]))
    {
      a[k] := a[k + d];
      k := k + 1;
    }
  }

  /** Move-assigns the live objects `a[first .. last)` onto the range that
      ends at `dEnd`, back to front, within one block (std::move_backward);
      `last <= dEnd`, so every source is read before it is overwritten. */
  method MoveBackward<T>(a: array<Option<T>>, first: nat, last: nat, dEnd: nat)
    requires first <= last <= dEnd <= a.Length
    requires forall j :: first <= j < dEnd ==> a[j].Some?
    modifies a
    ensures forall j :: 0 <= j < a.Length ==>
      a[j] == (if dEnd - (last - first) <= j < dEnd then old(a[j - (dEnd - last)]) else old(a[j]))
  {
    var i := last;
    while i > first
      invariant first <= i <= last
      invariant forall j :: 0 <= j < a.Length ==>
        a[j] == (if i + (dEnd - last) <= j < dEnd then old(a[j - (dEnd - last)]) else old(a[j]))
    {
      i := i - 1;
      a[i + (dEnd - last)] := a[i];
    }
  }
}

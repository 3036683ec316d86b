/** Small value types shared by the storage layer and the container:
    slot contents, the outcome of building one element, where a batch of
    element constructions throws, and how a call ends (return or throw). */
module Outcomes {

  /** A slot of raw storage: `Some(x)` holds a live object `x`, `None` is
      uninitialised memory with no object in it. */
  datatype Option<T> = None | Some(value: T)

  /** The caller's arguments for the new element: a value of its own
      (`Built`), arguments whose constructor throws (`Throws`), or a
      reference to the container's own element at `index` (`CopyOf`), which
      is read when the new element is constructed and whose copy throws when
      `copyThrows` holds. */
  datatype Build<T> = Built(value: T) | Throws | CopyOf(index: nat, copyThrows: bool) {

    /** Does constructing the new element throw? */
    predicate Fails() {
      Throws? || (CopyOf? && copyThrows)
    }

    /** A reference into a container of `n` elements names one of them. */
    predicate RefersWithin(n: nat) {
      CopyOf? ==> index < n
    }

    /** The new element, when it is built while the container holds `s`. */
    function Value(s: seq<T>): (x: T)
      requires !Fails() && RefersWithin(|s|)
    {
      if Built? then value else s[index]
    }
  }

  /** Which element construction of a batch throws, counting from 0 in the
      order the batch constructs them; `NoFault` means none does. */
  datatype Fault = NoFault | FailAt(k: nat) {

    /** Does one of the first `n` constructions throw? */
    predicate HitsWithin(n: nat) {
      FailAt? && k < n
    }

    /** The fault as seen by a batch that starts after `n` constructions
        have already succeeded. */
    function Skip(n: nat): (f: Fault)
      ensures !HitsWithin(n) ==> forall m: nat :: f.HitsWithin(m) <==> HitsWithin(n + m)
    {
      if FailAt? && n <= k then FailAt(k - n) else NoFault
    }
  }

  /** How a call ends: it returns a value, or an exception propagates out of it. */
  datatype Outcome<R> = Returned(value: R) | Threw
}

/** Interleavings of calls on the lock table.

    Each task's calls reach the table one critical section at a time, so
    any concurrent execution is some sequence of atomic steps. An acquire
    whose condition is false leaves the table as it is: the calling task
    yields and tries again in a later step. The release semantics is a
    parameter so that the same schedules can be run with releaseLocks as
    written and with the corrected cleanup.
 */
module Schedule {
  import opened Lock

  datatype Call<K, O> =
    | ReadLockCall(owner: O, key: K)
    | ReadUnLockCall(owner: O, key: K)
    | WriteLockCall(owner: O, key: K)
    | WriteUnLockCall(owner: O, key: K)
    | ReleaseLocksCall(owner: O)

  /** Which releaseLocks the table runs. */
  datatype Release = AsWritten | Corrected

  /** One atomic step: the table after `c` is attempted once. */
  function Step<K(!new), O(==, !new)>(t: Table<K, O>, c: Call<K, O>, rel: Release): (r: Table<K, O>)
    ensures Safe(t) ==> Safe(r)
    ensures Exclusive(t) ==> Exclusive(r)
    ensures rel == Corrected && NoEmptyReaderSets(t) ==> NoEmptyReaderSets(r)
  {
    match c
    case ReadLockCall(o, k) =>
      var a := ReadLock(t, o, k);
      if a.Acquired? then a.table else t
    case ReadUnLockCall(o, k) => ReadUnLock(t, o, k)
    case WriteLockCall(o, k) =>
      var a := WriteLock(t, o, k);
      if a.Acquired? then a.table else t
    case WriteUnLockCall(o, k) => WriteUnLock(t, o, k)
    case ReleaseLocksCall(o) =>
      if rel == AsWritten then ReleaseLocks(t, o) else ReleaseLocksCorrected(t, o)
  }

  /** The table after the calls of `cs`, in order. */
  function Run<K(!new), O(==, !new)>(t: Table<K, O>, cs: seq<Call<K, O>>, rel: Release): Table<K, O>
    decreases |cs|
  {
    if cs == [] then t else Run(Step(t, cs[0], rel), cs[1..], rel)
  }

  /** Every schedule keeps the safety invariant. */
  lemma {:induction false} RunPreservesSafe<K(!new), O(!new)>(t: Table<K, O>, cs: seq<Call<K, O>>, rel: Release)
    requires Safe(t)
    ensures Safe(Run(t, cs, rel))
    decreases |cs|
  {
    if cs != [] {
      RunPreservesSafe(Step(t, cs[0], rel), cs[1..], rel);
    }
  }

  lemma {:induction false} RunPreservesExclusive<K(!new), O(!new)>(t: Table<K, O>, cs: seq<Call<K, O>>, rel: Release)
    requires Exclusive(t)
    ensures Exclusive(Run(t, cs, rel))
    decreases |cs|
  {
    if cs != [] {
      RunPreservesExclusive(Step(t, cs[0], rel), cs[1..], rel);
    }
  }

  /** Every table the process can reach from its empty start satisfies
      the exclusive form: a writer shares its key only with a reader entry
      that is exactly itself. */
  lemma ReachableIsExclusive<K(!new), O(!new)>(cs: seq<Call<K, O>>, rel: Release)
    ensures Exclusive(Run(Empty(), cs, rel))
    ensures Safe(Run(Empty(), cs, rel))
  {
    RunPreservesExclusive(Empty(), cs, rel);
    RunPreservesSafe(Empty(), cs, rel);
  }

  /** With the corrected releaseLocks, no schedule leaves an empty reader
      set behind. */
  lemma {:induction false} CorrectedRunHasNoEmptyReaderSets<K(!new), O(!new)>(t: Table<K, O>, cs: seq<Call<K, O>>)
    requires NoEmptyReaderSets(t)
    ensures NoEmptyReaderSets(Run(t, cs, Corrected))
    decreases |cs|
  {
    if cs != [] {
      CorrectedRunHasNoEmptyReaderSets(Step(t, cs[0], Corrected), cs[1..]);
    }
  }

  /** True iff `c` is a read lock or read unlock call on `k`. */
  predicate TouchesReaders<K(==), O>(c: Call<K, O>, k: K)
  {
    (c.ReadLockCall? || c.ReadUnLockCall?) && c.key == k
  }

  /** An empty reader set left on an unwritten key stays there, and keeps
      every writer of that key waiting, for as long as no task reads or
      unreads that key. */
  lemma {:induction false} EmptyReaderSetBlocksWriters<K(!new), O(!new)>(t: Table<K, O>, cs: seq<Call<K, O>>, k: K)
    requires k in t.readers && t.readers[k] == {} && k !in t.writer
    requires forall i :: 0 <= i < |cs| ==> !TouchesReaders(cs[i], k)
    ensures k in Run(t, cs, AsWritten).readers && Run(t, cs, AsWritten).readers[k] == {}
    ensures k !in Run(t, cs, AsWritten).writer
    ensures forall o :: WriteLock(Run(t, cs, AsWritten), o, k) == Waits
    decreases |cs|
  {
    if cs != [] {
      assert !TouchesReaders(cs[0], k);
      var t' := Step(t, cs[0], AsWritten);
      assert k in t'.readers && t'.readers[k] == {} && k !in t'.writer;
      EmptyReaderSetBlocksWriters(t', cs[1..], k);
    }
  }
}

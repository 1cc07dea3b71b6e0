# Lock table of the readdb server, in Dafny

The readdb server keeps one process-wide lock table (`Lock.java`) that
serialises access to data files between the tasks (`ServerTask`) it runs.
It is a keyed reader/writer lock whose locks belong to a task:

- `readLock(task, file)` returns at once if the task already reads the
  file, and otherwise waits until nobody — the task itself included — holds
  the file's write lock, then joins its reader set;
- `writeLock(task, file)` returns at once if the task already writes the
  file, and otherwise waits until there is no writer and the reader set is
  absent or exactly `{task}`; a sole reader thereby upgrades without giving
  up its read lock;
- `readUnLock` and `writeUnLock` drop one lock and ignore callers that do
  not hold it;
- `releaseLocks(task)` drops every lock a task holds.

The model (module `Lock`, `lock.dfy`) is a functional state machine. The
table is a pair of immutable maps, `readers: map<K, set<O>>` and
`writer: map<K, O>`, with `K` the key (a file name) and `O` the task, of
which only identity matters. Each `synchronized` check-then-mutate block is
one pure transition. An acquire returns `Acquired(table)` when its enabling
condition holds and `Waits` when the source would spin. Module `Schedule`
(`schedule.dfy`) runs arbitrary sequences of calls, which is how every
interleaving of the tasks' critical sections looks to the table, and proves
the invariants over them.

Proved:

- the read and write guards as if-and-only-if conditions, including the
  quirks of the code: an owner holding only the write lock cannot take a read
  lock, and a present but empty reader set blocks every writer;
- each operation's effect and frame: which entry changes, how it changes,
  and that nothing else does;
- idempotence of both acquires and of `releaseLocks`;
- the safety invariant (`Safe`): a writer coexists with no reader but
  itself. Every operation preserves it, and so does every schedule;
- the stronger form (`Exclusive`): in every table reachable from the empty
  start, a writer that shares its key with a reader entry is that entry's
  only member;
- completeness and frame of `releaseLocks`, and the consequence of its
  stale empty entries (see Findings).

The source promises more cleanup than its bulk release delivers. Its comment
on `releaseLocks` (`Lock.java:106`) says the call ensures that all of a
task's locks are released, and `readUnLock` deletes a reader entry that it
leaves empty (`Lock.java:61-63`). The loop of `releaseLocks` does release
every lock, but it leaves the emptied reader sets in the table (see
Findings). The model follows the code. One consequence: `readUnLock` by a
task that never read the key still changes the table when the key carries
such an empty entry, because it deletes the entry. `Lock.ReadUnLock`
states exactly when it is a no-op.

## Model

| member | source | states |
|---|---|---|
| Lock.ReadLock | src/edu/mit/csail/cgs/projects/readdb/Lock.java:22-55 | Granted iff the caller already reads the key or the key has no writer. An owner holding only the write lock waits. Once granted, the caller reads the key and its reader set is the old one plus the caller. The writer map and every other key are unchanged, and a repeat by a reader is a no-op. `Safe`, `Exclusive` and the absence of empty reader sets are preserved. |
| Lock.ReadUnLock | src/edu/mit/csail/cgs/projects/readdb/Lock.java:56-66 | The caller no longer reads the key; its reader set loses exactly the caller. The entry exists afterwards iff someone else still reads. Writers and other keys are unchanged. The table is unchanged when the key has no entry, or a non-empty one without the caller. Preserves all three invariants. |
| Lock.WriteLock | src/edu/mit/csail/cgs/projects/readdb/Lock.java:67-98 | Granted iff the caller already writes the key, or the key has no writer and its reader entry is absent or exactly the caller. A present empty reader set makes every non-holder wait. Once granted, the caller is the writer, readers and other keys are unchanged, and a repeat by the writer is a no-op. Preserves all three invariants. |
| Lock.SoleMember | src/edu/mit/csail/cgs/projects/readdb/Lock.java:82-85 | The size-one-and-contains test of writeLock holds exactly when the reader set is the caller alone. |
| Lock.WriteUnLock | src/edu/mit/csail/cgs/projects/readdb/Lock.java:99-105 | The caller no longer writes the key. The entry is deleted when the caller held it. The table is unchanged otherwise. Readers and other keys are never touched. Preserves all three invariants. |
| Lock.ReleaseLocks | src/edu/mit/csail/cgs/projects/readdb/Lock.java:106-124 | Afterwards the owner writes no key and reads no key. Every other owner's read and write locks are exactly as before. The set of keys with a reader entry is unchanged, so emptied sets stay. Preserves `Safe` and `Exclusive`. |
| Lock.ReleaseLocksCorrected | src/edu/mit/csail/cgs/projects/readdb/Lock.java:106-124 | The same completeness and frame as `ReleaseLocks`, and no reader set is left empty. Preserves `Safe` and `Exclusive`. |
| Lock.ReadLockIdempotent | src/edu/mit/csail/cgs/projects/readdb/Lock.java:30-50 | A granted read lock requested again is granted with the table unchanged. |
| Lock.WriteLockIdempotent | src/edu/mit/csail/cgs/projects/readdb/Lock.java:69-93 | A granted write lock requested again is granted with the table unchanged. |
| Lock.ReleaseLocksIdempotent | src/edu/mit/csail/cgs/projects/readdb/Lock.java:106-124 | Releasing an owner twice gives the same table as releasing it once. |
| Lock.SoleReaderUpgrades | src/edu/mit/csail/cgs/projects/readdb/Lock.java:82-93 | In a safe table, the sole reader of a key is always granted the write lock and keeps its read lock. |
| Lock.SharedReadBlocksUpgrade | src/edu/mit/csail/cgs/projects/readdb/Lock.java:82-91 | In a safe table, a reader sharing the key with another reader waits for the write lock. |
| Lock.CorrectedOnlyDropsEmptySets | src/edu/mit/csail/cgs/projects/readdb/Lock.java:115-123 | The corrected release has the same writers and the same readers per key as the release as written. Its reader entries are exactly the non-empty ones of the release as written. |
| Lock.StaleEntryBlocksWriters | src/edu/mit/csail/cgs/projects/readdb/Lock.java:115-121 | Concrete case: the only reader of key 1 releases all its locks. Key 1 keeps an empty entry and every write lock on it waits. After the corrected release the table is empty and the write lock is granted. |
| Schedule.Step | src/edu/mit/csail/cgs/projects/readdb/Lock.java:22-124 | One atomic attempt of any call, where a waiting acquire leaves the table as it is, preserves `Safe` and `Exclusive`. With the corrected release it also preserves the absence of empty reader sets. |
| Schedule.RunPreservesSafe | src/edu/mit/csail/cgs/projects/readdb/Lock.java:22-124 | Every sequence of calls started in a safe table ends in a safe table. |
| Schedule.RunPreservesExclusive | src/edu/mit/csail/cgs/projects/readdb/Lock.java:22-124 | Every sequence of calls started in an exclusive table ends in an exclusive table. |
| Schedule.ReachableIsExclusive | src/edu/mit/csail/cgs/projects/readdb/Lock.java:13-14 | Every table reached from the empty start is `Exclusive` and `Safe`: a writer's key has no reader entry, or one that is exactly the writer. |
| Schedule.CorrectedRunHasNoEmptyReaderSets | src/edu/mit/csail/cgs/projects/readdb/Lock.java:56-66 | With the corrected release, no sequence of calls creates an empty reader set. |
| Schedule.EmptyReaderSetBlocksWriters | src/edu/mit/csail/cgs/projects/readdb/Lock.java:75-91 | An empty reader entry on an unwritten key survives every sequence of calls that makes no read lock or read unlock call on that key. Throughout, the key gets no writer and every write lock on it waits. |

## Findings

| source | as written | input that shows it | evidently intended | confidence | as-written member | corrected member |
|---|---|---|---|---|---|---|
| src/edu/mit/csail/cgs/projects/readdb/Lock.java:120 | `readLocks.remove(l)` passes the emptied set, not its key, to a map keyed by file name, so the entry stays | task 7 is the only reader of key 1 and calls `releaseLocks(7)`: `readers` becomes `{1: {}}` and every write lock on key 1 waits until some task calls `readLock` or `readUnLock` on key 1 | delete the emptied entry by its key (through the key-set iterator, so the loop stays valid), as `readUnLock` does | high; not executed | Lock.StaleEntryBlocksWriters | Lock.ReleaseLocksCorrected |

`Schedule` takes the release semantics as a parameter. `Schedule.EmptyReaderSetBlocksWriters`
shows what the code as written does. `Schedule.CorrectedRunHasNoEmptyReaderSets`
shows what the corrected release guarantees. The invariants are proved for both.

## Left out

- Blocking: the `Thread.yield()` spin loops and the nested `synchronized` monitors. Each critical section is one atomic step. A waiting acquire is `Waits`, or no change in a schedule. Liveness, fairness and starvation are not modelled.
- The split critical sections: `readLock` and `writeLock` check for re-acquisition in one section and acquire in another, and `releaseLocks` clears writers and readers in two sections. Each is one step here. Only the calling task adds itself to a reader set or takes a write lock for itself, so the early check cannot go stale before the acquire.
- Java collection behaviour: `Collections.synchronizedMap`, and the `ConcurrentModificationException` that removing entries while iterating `keySet()` can raise in `releaseLocks`. The model removes every matching entry, as the loop intends.
- `ServerTask` and the file-name strings: type parameters with equality. Reference identity of tasks is equality of `O`.
- Null tasks or file names: not representable.
- `ComparePWM.java`: a command-line script that reads tab-separated files and prints tallies; it is file I/O and string splitting, not part of the lock table.

/** A model of the in-process lock table of the readdb server: a keyed
    reader/writer lock whose locks belong to a task identity.

    The table is the pair of maps the server keeps for the whole process:
    for every key (a file name) the set of tasks holding a read lock on it,
    and the single task holding its write lock. Every check-then-mutate
    block of the source is one atomic transition here. An acquire whose
    enabling condition is false returns `Waits`: the source spins and
    yields until the condition holds, which in this model means that the
    call makes no step in the current table and is retried in a later one.

    `K` is the key (the file name) and `O` is the owning task, of which
    only its identity matters.
 */
module Lock {

  datatype Table<K, O> = Table(readers: map<K, set<O>>, writer: map<K, O>)

  /** The outcome of one attempt to take a lock. */
  datatype Attempt<K, O> = Acquired(table: Table<K, O>) | Waits

  /** The table the process starts with: nobody holds anything. */
  function Empty<K(!new), O(==, !new)>(): Table<K, O>
  {
    Table(map[], map[])
  }

  /** The readers of `k`; an absent entry means nobody reads it. */
  function ReadersOf<K(!new), O(==, !new)>(t: Table<K, O>, k: K): set<O>
  {
    if k in t.readers then t.readers[k] else {}
  }

  predicate HoldsRead<K(!new), O(==, !new)>(t: Table<K, O>, o: O, k: K)
  {
    k in t.readers && o in t.readers[k]
  }

  predicate HoldsWrite<K(!new), O(==, !new)>(t: Table<K, O>, o: O, k: K)
  {
    k in t.writer && t.writer[k] == o
  }

  /** The frame of a one-key update: apart from key `x`, the map `m'`
      has the same keys as `m`, each bound to the same value. */
  ghost predicate AgreeExcept<X(!new), Y>(m: map<X, Y>, m': map<X, Y>, x: X)
  {
    && m'.Keys - {x} == m.Keys - {x}
    && forall y :: y in m && y in m' && y != x ==> m'[y] == m[y]
  }

  /** The safety invariant: a write lock coexists with no reader other
      than its own holder. At most one writer per key holds by the shape
      of `writer`. */
  ghost predicate Safe<K(!new), O(!new)>(t: Table<K, O>)
  {
    forall k :: k in t.writer && k in t.readers ==> t.readers[k] <= {t.writer[k]}
  }

  /** The stronger form every reachable table satisfies: a writer that
      shares its key with a reader entry is that entry's only member. */
  ghost predicate Exclusive<K(!new), O(!new)>(t: Table<K, O>)
  {
    forall k :: k in t.writer && k in t.readers ==> t.readers[k] == {t.writer[k]}
  }

  /** No reader entry is an empty set. */
  ghost predicate NoEmptyReaderSets<K(!new), O(!new)>(t: Table<K, O>)
  {
    forall k :: k in t.readers ==> t.readers[k] != {}
  }

  /** A finite set has exactly one member, `o`, iff it is `{o}`. */
  lemma SoleMember<O>(s: set<O>, o: O)
    ensures |s| == 1 && o in s <==> s == {o}
  {
    if |s| == 1 && o in s {
      assert |s - {o}| == 0;
    }
  }

  /** readLock (Lock.java:22-55). An owner that already reads `k` returns at
      once; otherwise it waits until no write lock on `k` is held, by anyone,
      the caller included, and then joins the reader set. */
  function ReadLock<K(!new), O(==, !new)>(t: Table<K, O>, o: O, k: K): (r: Attempt<K, O>)
    ensures r.Acquired? <==> HoldsRead(t, o, k) || k !in t.writer
    ensures HoldsWrite(t, o, k) && !HoldsRead(t, o, k) ==> r == Waits
    ensures r.Acquired? ==> HoldsRead(r.table, o, k)
    ensures r.Acquired? ==> ReadersOf(r.table, k) == ReadersOf(t, k) + {o}
    ensures r.Acquired? ==> r.table.writer == t.writer
    ensures r.Acquired? ==> AgreeExcept(t.readers, r.table.readers, k)
    ensures r.Acquired? && HoldsRead(t, o, k) ==> r.table == t
    ensures r.Acquired? && Safe(t) ==> Safe(r.table)
    ensures r.Acquired? && Exclusive(t) ==> Exclusive(r.table)
    ensures r.Acquired? && NoEmptyReaderSets(t) ==> NoEmptyReaderSets(r.table)
  {
    if k in t.readers && o in t.readers[k] then
      Acquired(t)
    else if k in t.writer then
      Waits
    else
      Acquired(t.(readers := t.readers[k := ReadersOf(t, k) + {o}]))
  }

  /** readUnLock (Lock.java:56-66): drop `o` from the readers of `k` and
      delete the entry once it is empty. */
  function ReadUnLock<K(!new), O(==, !new)>(t: Table<K, O>, o: O, k: K): (r: Table<K, O>)
    ensures !HoldsRead(r, o, k)
    ensures ReadersOf(r, k) == ReadersOf(t, k) - {o}
    ensures k in r.readers <==> ReadersOf(t, k) - {o} != {}
    ensures r.writer == t.writer
    ensures AgreeExcept(t.readers, r.readers, k)
    ensures k !in t.readers || (o !in t.readers[k] && t.readers[k] != {}) ==> r == t
    ensures Safe(t) ==> Safe(r)
    ensures Exclusive(t) ==> Exclusive(r)
    ensures NoEmptyReaderSets(t) ==> NoEmptyReaderSets(r)
  {
    if k in t.readers then
      var rest := t.readers[k] - {o};
      if |rest| == 0 then t.(readers := t.readers - {k})
      else
        assert o !in t.readers[k] ==> rest == t.readers[k];
        t.(readers := t.readers[k := rest])
    else
      t
  }

  /** writeLock (Lock.java:67-98). The holder of the write lock returns at
      once. Any other caller waits until `k` has no writer and either no
      reader entry or a reader entry holding exactly the caller (the
      "justus" test); it then takes the write lock and keeps its read lock. */
  function WriteLock<K(!new), O(==, !new)>(t: Table<K, O>, o: O, k: K): (r: Attempt<K, O>)
    ensures r.Acquired? <==>
      HoldsWrite(t, o, k) || (k !in t.writer && (k !in t.readers || t.readers[k] == {o}))
    ensures k in t.readers && t.readers[k] == {} && !HoldsWrite(t, o, k) ==> r == Waits
    ensures r.Acquired? ==> HoldsWrite(r.table, o, k)
    ensures r.Acquired? ==> r.table.readers == t.readers
    ensures r.Acquired? ==> AgreeExcept(t.writer, r.table.writer, k)
    ensures r.Acquired? && HoldsWrite(t, o, k) ==> r.table == t
    ensures r.Acquired? && Safe(t) ==> Safe(r.table)
    ensures r.Acquired? && Exclusive(t) ==> Exclusive(r.table)
    ensures r.Acquired? && NoEmptyReaderSets(t) ==> NoEmptyReaderSets(r.table)
  {
    if k in t.writer && t.writer[k] == o then
      Acquired(t)
    else
      SoleMember(ReadersOf(t, k), o);
      var justus := k !in t.readers || (|t.readers[k]| == 1 && o in t.readers[k]);
      if k in t.writer || (k in t.readers && !justus) then
        Waits
      else
        Acquired(t.(writer := t.writer[k := o]))
  }

  /** writeUnLock (Lock.java:99-105): only the holder releases; any other
      call leaves the table as it is. */
  function WriteUnLock<K(!new), O(==, !new)>(t: Table<K, O>, o: O, k: K): (r: Table<K, O>)
    ensures !HoldsWrite(r, o, k)
    ensures HoldsWrite(t, o, k) ==> k !in r.writer
    ensures !HoldsWrite(t, o, k) ==> r == t
    ensures r.readers == t.readers
    ensures AgreeExcept(t.writer, r.writer, k)
    ensures Safe(t) ==> Safe(r)
    ensures Exclusive(t) ==> Exclusive(r)
    ensures NoEmptyReaderSets(t) ==> NoEmptyReaderSets(r)
  {
    if k in t.writer && t.writer[k] == o then t.(writer := t.writer - {k}) else t
  }

  /** The write half of releaseLocks (Lock.java:108-114): every write lock
      `o` holds is dropped. */
  function DropWrites<K(!new), O(==, !new)>(writer: map<K, O>, o: O): (w: map<K, O>)
    ensures forall k :: k in w <==> k in writer && writer[k] != o
    ensures forall k :: k in w ==> w[k] == writer[k]
  {
    map k | k in writer && writer[k] != o :: writer[k]
  }

  /** releaseLocks (Lock.java:106-124) as written: `o` leaves every write
      lock and every reader set, but a reader set that becomes empty stays
      in the table, because the source removes it by the set value rather
      than by its key. */
  function ReleaseLocks<K(!new), O(==, !new)>(t: Table<K, O>, o: O): (r: Table<K, O>)
    ensures forall k :: !HoldsWrite(r, o, k) && !HoldsRead(r, o, k)
    ensures forall k, p :: p != o ==> (HoldsRead(r, p, k) <==> HoldsRead(t, p, k))
    ensures forall k, p :: p != o ==> (HoldsWrite(r, p, k) <==> HoldsWrite(t, p, k))
    ensures r.readers.Keys == t.readers.Keys
    ensures Safe(t) ==> Safe(r)
    ensures Exclusive(t) ==> Exclusive(r)
  {
    Table(map k | k in t.readers :: t.readers[k] - {o}, DropWrites(t.writer, o))
  }

  /** releaseLocks with the evidently intended cleanup: a reader set left
      empty is deleted, as readUnLock does. */
  function ReleaseLocksCorrected<K(!new), O(==, !new)>(t: Table<K, O>, o: O): (r: Table<K, O>)
    ensures forall k :: !HoldsWrite(r, o, k) && !HoldsRead(r, o, k)
    ensures forall k, p :: p != o ==> (HoldsRead(r, p, k) <==> HoldsRead(t, p, k))
    ensures forall k, p :: p != o ==> (HoldsWrite(r, p, k) <==> HoldsWrite(t, p, k))
    ensures NoEmptyReaderSets(r)
    ensures Safe(t) ==> Safe(r)
    ensures Exclusive(t) ==> Exclusive(r)
  {
    var readers := map k | k in t.readers && t.readers[k] - {o} != {} :: t.readers[k] - {o};
    assert forall k, p :: p != o && HoldsRead(t, p, k) ==> p in t.readers[k] - {o};
    Table(readers, DropWrites(t.writer, o))
  }

  /** Repeating a read lock that was granted changes nothing. */
  lemma ReadLockIdempotent<K(!new), O(!new)>(t: Table<K, O>, o: O, k: K)
    requires ReadLock(t, o, k).Acquired?
    ensures ReadLock(ReadLock(t, o, k).table, o, k) == ReadLock(t, o, k)
  {
  }

  /** Repeating a write lock that was granted changes nothing. */
  lemma WriteLockIdempotent<K(!new), O(!new)>(t: Table<K, O>, o: O, k: K)
    requires WriteLock(t, o, k).Acquired?
    ensures WriteLock(WriteLock(t, o, k).table, o, k) == WriteLock(t, o, k)
  {
  }

  /** Releasing an owner twice is the same as releasing it once. */
  lemma ReleaseLocksIdempotent<K(!new), O(!new)>(t: Table<K, O>, o: O)
    ensures ReleaseLocks(ReleaseLocks(t, o), o) == ReleaseLocks(t, o)
  {
    var once := ReleaseLocks(t, o);
    var twice := ReleaseLocks(once, o);
    assert forall k :: k in once.readers ==> once.readers[k] - {o} == once.readers[k];
    assert twice.readers == once.readers;
    assert twice.writer == once.writer;
  }

  /** Self-upgrade: in a safe table the sole reader of a key always gets
      its write lock, keeping its read lock; no other writer can be in the
      way. */
  lemma SoleReaderUpgrades<K(!new), O(!new)>(t: Table<K, O>, o: O, k: K)
    requires Safe(t)
    requires k in t.readers && t.readers[k] == {o}
    ensures WriteLock(t, o, k).Acquired?
    ensures HoldsRead(WriteLock(t, o, k).table, o, k)
    ensures HoldsWrite(WriteLock(t, o, k).table, o, k)
  {
    if k in t.writer {
      assert {o} <= {t.writer[k]};
      assert o in {t.writer[k]};
    }
  }

  /** A reader of a key that shares it with another reader cannot upgrade:
      its write lock waits until it is the only reader left. */
  lemma SharedReadBlocksUpgrade<K(!new), O(!new)>(t: Table<K, O>, o: O, p: O, k: K)
    requires Safe(t)
    requires HoldsRead(t, o, k) && HoldsRead(t, p, k) && p != o
    ensures WriteLock(t, o, k) == Waits
  {
  }

  /** The corrected release differs from the one as written only in
      deleting the reader entries it leaves empty. */
  lemma CorrectedOnlyDropsEmptySets<K(!new), O(!new)>(t: Table<K, O>, o: O)
    ensures ReleaseLocksCorrected(t, o).writer == ReleaseLocks(t, o).writer
    ensures forall k :: ReadersOf(ReleaseLocksCorrected(t, o), k) == ReadersOf(ReleaseLocks(t, o), k)
    ensures forall k :: k in ReleaseLocksCorrected(t, o).readers <==>
      k in ReleaseLocks(t, o).readers && ReleaseLocks(t, o).readers[k] != {}
  {
  }

  /** The stale entry in action: task 7 is the only reader of key 1 and
      releases all its locks; the entry for key 1 stays as an empty set and
      every write lock on key 1 waits, whereas after the corrected release
      the same write lock is granted. */
  lemma StaleEntryBlocksWriters()
    ensures ReleaseLocks(Table(map[1 := {7}], map[]), 7) == Table(map[1 := {}], map[])
    ensures forall o: int :: WriteLock(ReleaseLocks(Table(map[1 := {7}], map[]), 7), o, 1) == Waits
    ensures ReleaseLocksCorrected(Table(map[1 := {7}], map[]), 7) == Empty()
    ensures WriteLock(ReleaseLocksCorrected(Table(map[1 := {7}], map[]), 7), 8, 1).Acquired?
  {
    var t: Table<int, int> := Table(map[1 := {7}], map[]);
    assert ReleaseLocks(t, 7).readers.Keys == {1};
    assert ReleaseLocks(t, 7).readers[1] == {};
    assert ReleaseLocksCorrected(t, 7).readers == map[];
  }
}

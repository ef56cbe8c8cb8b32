/** ArchiveEntries: which rows one statement deletes, what it counts, and how repeated
    calls drain the table (internal/storage/entry.go). Times and durations are nanoseconds. */
module EntryArchive {
  import opened Common
  import opened EntryTables

  const DAY: int := 24 * 3600 * 1_000_000_000

  /** max(int(interval / 24h), 1) */
  function ArchiveDays(interval: nat): int { Max(interval / DAY, 1) }

  function Cutoff(now: int, interval: nat): int { now - ArchiveDays(interval) * DAY }

  predicate IsEligible(row: EntryRow, status: string, cutoff: int) {
    row.status == status && !row.starred && row.shareCode == "" && row.createdAt < cutoff
  }

  function Eligible(db: Db, status: string, cutoff: int): set<int> {
    set id | id in db.entries && IsEligible(db.entries[id], status, cutoff)
  }

  /** ORDER BY created_at ASC ... SKIP LOCKED LIMIT: some choice of the oldest candidates. */
  ghost predicate OldestOf(db: Db, candidates: set<int>, limit: int, chosen: set<int>) {
    && chosen <= candidates
    && |chosen| == Min(limit, |candidates|)
    && forall c, o :: c in chosen && o in candidates - chosen && c in db.entries && o in db.entries
                      ==> db.entries[c].createdAt <= db.entries[o].createdAt
  }

  /** RowsAffected of the statement: the tombstones it inserted. */
  function NewTombstones(db: Db, ids: set<int>): int { |TombstoneKeys(db, ids) - db.tombstones| }

  function WithHash(db: Db, ids: set<int>): set<int> {
    set id | id in ids && id in db.entries && db.entries[id].hash != ""
  }

  // ----- Properties -----

  lemma {:induction false} InjectiveImage(db: Db, ids: set<int>)
    requires UniqueKeys(db) && ids <= db.entries.Keys
    requires forall id :: id in ids ==> db.entries[id].hash != ""
    ensures |TombstoneKeys(db, ids)| == |ids|
    decreases |ids|
  {
    if ids != {} {
      var id := Pick(ids);
      InjectiveImage(db, ids - {id});
      var k := KeyOf(db.entries[id]);
      assert TombstoneKeys(db, ids) == TombstoneKeys(db, ids - {id}) + {k};
      assert k !in TombstoneKeys(db, ids - {id});
    }
  }

  /** The returned count is the number of deleted rows with a hash exactly when none of them
      had a tombstone before. */
  lemma CountIsDeletedRowsExactlyWhen(db: Db, ids: set<int>)
    requires UniqueKeys(db) && ids <= db.entries.Keys
    ensures NewTombstones(db, ids) == |WithHash(db, ids)| <==> TombstoneKeys(db, ids) !! db.tombstones
  {
    var hashed := WithHash(db, ids);
    assert TombstoneKeys(db, ids) == TombstoneKeys(db, hashed);
    InjectiveImage(db, hashed);
    var keys := TombstoneKeys(db, ids);
    assert keys == (keys - db.tombstones) + (keys * db.tombstones);
    assert |keys| == |keys - db.tombstones| + |keys * db.tombstones|;
    if keys * db.tombstones == {} {
      assert keys - db.tombstones == keys;
    }
  }

  /** Under the invariant that no key is both alive and tombstoned, it always is. */
  lemma CountIsDeletedRows(db: Db, ids: set<int>)
    requires ValidDb(db) && ids <= db.entries.Keys
    ensures NewTombstones(db, ids) == |WithHash(db, ids)|
  {
    CountIsDeletedRowsExactlyWhen(db, ids);
  }

  /** Each row was to be archived and is older than a day and than the whole days of the interval. */
  predicate IsOldEnough(db: Db, deleted: set<int>, status: string, interval: nat, now: int) {
    forall id :: id in deleted ==>
      && id in db.entries && !Protected(db.entries[id]) && db.entries[id].status == status
      && now - db.entries[id].createdAt > DAY
      && now - db.entries[id].createdAt > (interval / DAY) * DAY
  }

  /** The rows that a call is asked to archive: of the status, unprotected, and older than a day
      (86,400 seconds) and than the whole days of the interval. */
  predicate IsDue(row: EntryRow, status: string, interval: nat, now: int) {
    && row.status == status && !row.starred && row.shareCode == ""
    && now - row.createdAt > 86_400_000_000_000
    && now - row.createdAt > interval / 86_400_000_000_000 * 86_400_000_000_000
  }

  function Due(db: Db, status: string, interval: nat, now: int): set<int> {
    set id | id in db.entries && IsDue(db.entries[id], status, interval, now)
  }

  lemma DueIsEligible(db: Db, status: string, interval: nat, now: int)
    ensures Due(db, status, interval, now) == Eligible(db, status, Cutoff(now, interval))
  {
    forall id | id in db.entries
      ensures IsDue(db.entries[id], status, interval, now) <==> IsEligible(db.entries[id], status, Cutoff(now, interval))
    {
      DueExactlyWhenEligible(db.entries[id], status, interval, now);
    }
  }

  lemma DueExactlyWhenEligible(row: EntryRow, status: string, interval: nat, now: int)
    ensures IsDue(row, status, interval, now) <==> IsEligible(row, status, Cutoff(now, interval))
  {
    assert interval / DAY >= 1 ==> interval / DAY * DAY >= DAY;
    assert interval / DAY < 1 ==> interval / DAY * DAY <= 0;
  }

  /** Of the due rows that nobody has locked at most limit go, all of them if fewer than limit go,
      and none that is younger than a due, unlocked row that stays. */
  ghost predicate TakesTheOldest(db: Db, db': Db, deleted: set<int>, status: string, interval: nat, limit: int, now: int,
                                 locked: set<int>)
  {
    && |deleted| <= limit
    && (forall id :: id in deleted ==> id in db.entries && id !in locked && IsDue(db.entries[id], status, interval, now))
    && (|deleted| < limit ==>
          forall id :: id in db'.entries && id !in locked ==> !IsDue(db'.entries[id], status, interval, now))
    && (forall c, o :: c in deleted && o in db'.entries && o !in locked && IsDue(db'.entries[o], status, interval, now) ==>
          db.entries[c].createdAt <= db'.entries[o].createdAt)
  }

  lemma ChosenAreTheOldest(db: Db, status: string, interval: nat, limit: int, now: int, locked: set<int>, chosen: set<int>)
    requires limit > 0
    requires OldestOf(db, Eligible(db, status, Cutoff(now, interval)) - locked, limit, chosen)
    ensures TakesTheOldest(db, DeleteWithTombstones(db, chosen), chosen, status, interval, limit, now, locked)
  {
    var due := Due(db, status, interval, now) - locked;
    DueIsEligible(db, status, interval, now);
    if |chosen| < limit {
      SubsetSize(chosen, due);
      assert chosen == due;
    }
    var db' := DeleteWithTombstones(db, chosen);
    forall id | id in db'.entries && id !in locked && IsDue(db'.entries[id], status, interval, now)
      ensures id in due - chosen && db'.entries[id] == db.entries[id]
    {
    }
  }

  /** No row that stays is older than a deleted one. */
  predicate SparesTheOlder(db: Db, deleted: set<int>, stay: set<int>) {
    forall c, o :: c in deleted && o in stay && c in db.entries && o in db.entries ==>
      db.entries[c].createdAt <= db.entries[o].createdAt
  }

  /** The rows that one call chooses, whatever rows are locked by others. */
  lemma OldEnough(row: EntryRow, status: string, interval: nat, now: int)
    requires IsEligible(row, status, Cutoff(now, interval))
    ensures !Protected(row) && row.status == status
    ensures now - row.createdAt > DAY && now - row.createdAt > (interval / DAY) * DAY
  {
    assert ArchiveDays(interval) * DAY >= DAY && ArchiveDays(interval) * DAY >= (interval / DAY) * DAY;
  }

  lemma ArchiveDeletesTheOldest(db: Db, status: string, interval: nat, limit: int, now: int, locked: set<int>,
                                chosen: set<int>)
    requires limit > 0
    requires OldestOf(db, Eligible(db, status, Cutoff(now, interval)) - locked, limit, chosen)
    ensures IsOldEnough(db, chosen, status, interval, now)
    ensures db.entries.Keys - DeleteWithTombstones(db, chosen).entries.Keys == chosen
    ensures SparesTheOlder(db, chosen, Eligible(DeleteWithTombstones(db, chosen), status, Cutoff(now, interval)) - locked)
  {
    var cutoff := Cutoff(now, interval);
    assert forall id :: id in chosen ==> id in Eligible(db, status, cutoff);
    forall id | id in chosen { OldEnough(db.entries[id], status, interval, now); }
    EligibleAfter(db, status, cutoff, chosen);
    assert Eligible(db, status, cutoff) - chosen - locked == Eligible(db, status, cutoff) - locked - chosen;
  }

  /** Which rows go is determined exactly when the statement's order does not tie one that goes
      with one that stays. */
  lemma ArchiveChoiceIsUniqueExactlyWhen(db: Db, candidates: set<int>, limit: int, chosen: set<int>)
    requires candidates <= db.entries.Keys && OldestOf(db, candidates, limit, chosen)
    ensures (forall other :: OldestOf(db, candidates, limit, other) ==> other == chosen) <==>
            forall c, o :: c in chosen && o in candidates - chosen ==> db.entries[c].createdAt < db.entries[o].createdAt
  {
    if c, o :| c in chosen && o in candidates - chosen && db.entries[c].createdAt >= db.entries[o].createdAt {
      assert OldestOf(db, candidates, limit, chosen - {c} + {o});
    } else {
      forall other | OldestOf(db, candidates, limit, other) ensures other == chosen {
        NoOtherChoice(db, candidates, limit, chosen, other);
      }
    }
  }

  lemma NoOtherChoice(db: Db, candidates: set<int>, limit: int, chosen: set<int>, other: set<int>)
    requires candidates <= db.entries.Keys && OldestOf(db, candidates, limit, chosen) && OldestOf(db, candidates, limit, other)
    requires forall c, o :: c in chosen && o in candidates - chosen ==> db.entries[c].createdAt < db.entries[o].createdAt
    ensures other == chosen
  {
    forall x, y | x in other && y in chosen ensures x in chosen || y in other {
      if x !in chosen && y !in other { assert false; }
    }
    if other <= chosen {
      SubsetSize(other, chosen);
    } else {
      assert chosen <= other;
      SubsetSize(chosen, other);
    }
  }

  /** A run of archive calls with the same arguments at the same time, each with the rows that
      other transactions have locked. */
  ghost predicate ArchiveRun(dbs: seq<Db>, locks: seq<set<int>>, status: string, interval: nat, now: int, limit: int) {
    && |dbs| == |locks| + 1
    && forall i :: 0 <= i < |locks| ==> ArchiveCall(dbs[i], locks[i], status, Cutoff(now, interval), limit, dbs[i + 1])
  }

  ghost predicate ArchiveCall(db: Db, locked: set<int>, status: string, cutoff: int, limit: int, db': Db) {
    exists chosen ::
      OldestOf(db, Eligible(db, status, cutoff) - locked, limit, chosen) && db' == DeleteWithTombstones(db, chosen)
  }

  lemma EligibleAfter(db: Db, status: string, cutoff: int, chosen: set<int>)
    ensures Eligible(DeleteWithTombstones(db, chosen), status, cutoff) == Eligible(db, status, cutoff) - chosen
  {
  }

  /** What choosing as many as possible up to limit outside a locked set leaves. */
  ghost predicate Shrinks(before: set<int>, after: set<int>, locked: set<int>, limit: int) {
    && after <= before && before * locked == after * locked
    && |before| - limit <= |after|
    && (|after| == |before| - limit || after <= locked)
    && |after - locked| == Max(0, |before - locked| - limit)
  }

  lemma ChoosingShrinks(before: set<int>, chosen: set<int>, locked: set<int>, limit: int)
    requires limit > 0 && chosen <= before - locked && |chosen| == Min(limit, |before - locked|)
    ensures Shrinks(before, before - chosen, locked, limit)
  {
    SubsetSize(chosen, before);
    assert |before - chosen| == |before| - |chosen|;
    assert (before - chosen) - locked == (before - locked) - chosen;
    assert |(before - locked) - chosen| == |before - locked| - |chosen|;
    if |chosen| < limit {
      SubsetSize(chosen, before - locked);
      assert chosen == before - locked;
    }
  }

  /** One call: at most limit rows go, none of them locked, and fewer than limit only if no
      unlocked one is left. */
  lemma ArchiveCallShrinksEligible(db: Db, locked: set<int>, status: string, cutoff: int, limit: int, db': Db)
    requires limit > 0 && ArchiveCall(db, locked, status, cutoff, limit, db')
    ensures Shrinks(Eligible(db, status, cutoff), Eligible(db', status, cutoff), locked, limit)
  {
    var chosen :|
      OldestOf(db, Eligible(db, status, cutoff) - locked, limit, chosen) && db' == DeleteWithTombstones(db, chosen);
    EligibleAfter(db, status, cutoff, chosen);
    ChoosingShrinks(Eligible(db, status, cutoff), chosen, locked, limit);
  }

  // ----- Whole runs, in terms of the sets of eligible rows -----

  ghost predicate ShrinksAlong(sets: seq<set<int>>, locks: seq<set<int>>, limit: int) {
    && |sets| == |locks| + 1
    && forall i :: 0 <= i < |locks| ==> Shrinks(sets[i], sets[i + 1], locks[i], limit)
  }

  /** Of the first rows all but so many are left, or only some of the ever locked ones. */
  ghost predicate Drains(first: set<int>, last: set<int>, gone: int, ever: set<int>) {
    last <= first && |last| >= |first| - gone && (|last| == |first| - gone || last <= ever)
  }

  lemma DrainsMore(first: set<int>, mid: set<int>, last: set<int>, gone: int, locked: set<int>, ever: set<int>,
                   limit: int)
    requires Drains(first, mid, gone, ever) && Shrinks(mid, last, locked, limit) && locked <= ever
    ensures Drains(first, last, gone + limit, ever)
  {
  }

  lemma OneMoreCall(n: nat, limit: int)
    ensures (n + 1) * limit == n * limit + limit
  {
  }

  lemma {:induction false} DrainsAlong(sets: seq<set<int>>, locks: seq<set<int>>, limit: int, ever: set<int>, k: nat)
    requires ShrinksAlong(sets, locks, limit) && k <= |locks|
    requires forall i :: 0 <= i < |locks| ==> locks[i] <= ever
    ensures Drains(sets[0], sets[k], k * limit, ever)
    decreases k
  {
    if k > 0 {
      DrainsAlong(sets, locks, limit, ever, k - 1);
      OneMoreCall(k - 1, limit);
      DrainsMore(sets[0], sets[k - 1], sets[k], (k - 1) * limit, locks[k - 1], ever, limit);
    }
  }

  /** All but so many of the unlocked rows are left, and every locked one. */
  ghost predicate DrainsUnlocked(first: set<int>, last: set<int>, gone: int, locked: set<int>) {
    |last - locked| == Max(0, |first - locked| - gone) && last * locked == first * locked
  }

  lemma DrainsUnlockedMore(first: set<int>, mid: set<int>, last: set<int>, gone: int, locked: set<int>, limit: int)
    requires gone >= 0 && limit > 0 && DrainsUnlocked(first, mid, gone, locked) && Shrinks(mid, last, locked, limit)
    ensures DrainsUnlocked(first, last, gone + limit, locked)
  {
  }

  lemma {:induction false} DrainsUnlockedAlong(sets: seq<set<int>>, locks: seq<set<int>>, limit: int,
                                               locked: set<int>, k: nat)
    requires limit > 0 && ShrinksAlong(sets, locks, limit) && k <= |locks|
    requires forall i :: 0 <= i < |locks| ==> locks[i] == locked
    ensures DrainsUnlocked(sets[0], sets[k], k * limit, locked)
    decreases k
  {
    if k > 0 {
      DrainsUnlockedAlong(sets, locks, limit, locked, k - 1);
      OneMoreCall(k - 1, limit);
      DrainsUnlockedMore(sets[0], sets[k - 1], sets[k], (k - 1) * limit, locks[k - 1], limit);
    }
  }

  function DueAlong(dbs: seq<Db>, status: string, interval: nat, now: int): seq<set<int>> {
    seq(|dbs|, i requires 0 <= i < |dbs| => Due(dbs[i], status, interval, now))
  }

  lemma RunShrinks(dbs: seq<Db>, locks: seq<set<int>>, status: string, interval: nat, now: int, limit: int)
    requires limit > 0 && ArchiveRun(dbs, locks, status, interval, now, limit)
    ensures ShrinksAlong(DueAlong(dbs, status, interval, now), locks, limit)
  {
    forall i | 0 <= i < |locks|
      ensures Shrinks(Due(dbs[i], status, interval, now), Due(dbs[i + 1], status, interval, now), locks[i], limit)
    {
      DueIsEligible(dbs[i], status, interval, now);
      DueIsEligible(dbs[i + 1], status, interval, now);
      ArchiveCallShrinksEligible(dbs[i], locks[i], status, Cutoff(now, interval), limit, dbs[i + 1]);
    }
  }

  /** Whatever is locked when, k calls leave n - k * limit of n due rows or none but rows that
      were locked at some call: enough calls drain the table. */
  lemma ArchiveRunDrains(dbs: seq<Db>, locks: seq<set<int>>, status: string, interval: nat, now: int, limit: int,
                         ever: set<int>)
    requires limit > 0 && ArchiveRun(dbs, locks, status, interval, now, limit)
    requires forall i :: 0 <= i < |locks| ==> locks[i] <= ever
    ensures Drains(Due(dbs[0], status, interval, now), Due(dbs[|locks|], status, interval, now), |locks| * limit, ever)
  {
    RunShrinks(dbs, locks, status, interval, now, limit);
    DrainsAlong(DueAlong(dbs, status, interval, now), locks, limit, ever, |locks|);
  }

  /** While the same rows are locked, k calls leave max(0, n - k * limit) of n unlocked due rows,
      and all the locked ones. */
  lemma ArchiveRunDrainsTheUnlocked(dbs: seq<Db>, locks: seq<set<int>>, status: string, interval: nat, now: int, limit: int,
                                    locked: set<int>)
    requires limit > 0 && ArchiveRun(dbs, locks, status, interval, now, limit)
    requires forall i :: 0 <= i < |locks| ==> locks[i] == locked
    ensures DrainsUnlocked(Due(dbs[0], status, interval, now), Due(dbs[|locks|], status, interval, now),
                           |locks| * limit, locked)
  {
    RunShrinks(dbs, locks, status, interval, now, limit);
    DrainsUnlockedAlong(DueAlong(dbs, status, interval, now), locks, limit, locked, |locks|);
  }
}

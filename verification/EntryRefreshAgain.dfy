/** Refreshing a feed again with the same list changes nothing; a refresh that runs alone is a
    run of the concurrent model. */
module EntryRefreshAgain {
  import opened Enclosures
  import opened EntryTables
  import opened EntryLifecycle
  import opened EntryRefresh

  /** Equal except for values drawn from the sequence of the enclosures table. */
  ghost predicate SameTables(a: Db, b: Db) {
    b == a.(enclosures := b.enclosures) && b.enclosures.rows == a.enclosures.rows
  }

  /** The tables already say about this entry what a refresh would write. */
  ghost predicate Settled(db: Db, userID: int, feedID: int, e: Entry, updateExisting: bool) {
    || (!HasKey(db, (feedID, e.hash)) && (feedID, e.hash) in db.tombstones)
    || (HasKey(db, (feedID, e.hash)) && !updateExisting)
    || exists id :: SettledRow(db, userID, feedID, e, id)
  }

  ghost predicate SettledRow(db: Db, userID: int, feedID: int, e: Entry, id: int) {
    && RowOf(db, (feedID, e.hash), userID, id)
    && db.entries[id].content == e.content && db.entries[id].document == Document(e.content)
    && UpToDate(db.enclosures, userID, id, e.enclosures)
  }

  lemma SameRow(db: Db, userID: int, k: Key, i: int, j: int)
    requires UniqueKeys(db) && RowOf(db, k, userID, i) && RowOf(db, k, userID, j)
    ensures i == j
  {
  }

  lemma UpdateOfSettledRow(db: Db, userID: int, feedID: int, e: Entry, id: int)
    requires ValidTable(db.enclosures) && SettledRow(db, userID, feedID, e, id)
    ensures SameTables(db, UpdateRow(db, id, userID, e))
  {
    UpdateOfUpToDateChangesNothing(db.enclosures, userID, id, e.enclosures);
    assert UpdateRow(db, id, userID, e).entries == db.entries;
  }

  lemma RefreshOfSettledChangesNothing(db: Db, userID: int, feedID: int, e: Entry, updateExisting: bool, now: int)
    requires ValidDb(db) && Owned(db, userID, feedID) && Settled(db, userID, feedID, e, updateExisting)
    ensures var r := RefreshOne(db, userID, feedID, e, updateExisting, now);
            r.Committed? && !r.isNew && SameTables(db, r.db)
  {
    if HasKey(db, (feedID, e.hash)) && updateExisting {
      var id :| SettledRow(db, userID, feedID, e, id);
      var hit := RefreshedRow(db, userID, feedID, e, now);
      SameRow(db, userID, (feedID, e.hash), id, hit);
      UpdateOfSettledRow(db, userID, feedID, e, id);
    }
  }

  lemma RefreshSettles(db: Db, userID: int, feedID: int, e: Entry, updateExisting: bool, now: int)
    requires ValidDb(db) && Owned(db, userID, feedID)
    ensures var r := RefreshOne(db, userID, feedID, e, updateExisting, now);
            r.Committed? && Settled(r.db, userID, feedID, e, updateExisting)
  {
    RefreshOneResult(db, userID, feedID, e, updateExisting, now);
    var k, r := (feedID, e.hash), RefreshOne(db, userID, feedID, e, updateExisting, now);
    if HasKey(db, k) && updateExisting {
      var id := RefreshedRow(db, userID, feedID, e, now);
      UpdateBringsUpToDate(db.enclosures, userID, id, e.enclosures);
      assert SettledRow(r.db, userID, feedID, e, id);
    } else if !HasKey(db, k) && k !in db.tombstones {
      CreateForFreshEntry(db, userID, e);
      assert SettledRow(r.db, userID, feedID, e, db.nextEntryID);
    }
  }

  /** The enclosures created with a fresh entry are exactly its listed ones. */
  lemma {:induction false} CreateForFreshEntry(db: Db, userID: int, e: Entry)
    requires ValidDb(db)
    ensures UpToDate(CreateAll(db.enclosures, userID, db.nextEntryID, e.enclosures), userID, db.nextEntryID, e.enclosures)
  {
    var id, t := db.nextEntryID, db.enclosures;
    var t' := CreateAll(t, userID, id, e.enclosures);
    CreateAllKeepsValid(t, userID, id, e.enclosures);
    CreateAllExtends(t, userID, id, e.enclosures);
    forall i | i in t'.rows && IsOf(t'.rows[i], userID, id) ensures t'.rows[i].url in TrimmedUrls(e.enclosures) {
      assert i !in t.rows;
      assert MadeFor(t, t'.rows[i], userID, id, e.enclosures);
    }
  }

  lemma UpdateKeepsOtherRow(db: Db, userID: int, feedID: int, e: Entry, other: Entry, changed: int, id: int)
    requires ValidTable(db.enclosures) && other.hash != e.hash
    requires RowOf(db, (feedID, e.hash), userID, changed) && SettledRow(db, userID, feedID, other, id)
    ensures SettledRow(UpdateRow(db, changed, userID, e), userID, feedID, other, id)
  {
    var db' := UpdateRow(db, changed, userID, e);
    UpdateResult(db.enclosures, userID, changed, e.enclosures);
    OtherEnclosuresStay(db.enclosures, db'.enclosures, userID, changed, id, e.enclosures, other.enclosures);
  }

  lemma InsertKeepsOtherRow(db: Db, userID: int, feedID: int, e: Entry, other: Entry, now: int, id: int)
    requires ValidDb(db) && SettledRow(db, userID, feedID, other, id)
    ensures SettledRow(InsertFresh(db, userID, feedID, e, now), userID, feedID, other, id)
  {
    var changed, db' := db.nextEntryID, InsertFresh(db, userID, feedID, e, now);
    CreateAllExtends(db.enclosures, userID, changed, e.enclosures);
    OtherEnclosuresStay(db.enclosures, db'.enclosures, userID, changed, id, e.enclosures, other.enclosures);
  }

  lemma RefreshKeepsOtherRow(db: Db, userID: int, feedID: int, e: Entry, other: Entry, updateExisting: bool,
                             now: int, id: int)
    requires ValidDb(db) && Owned(db, userID, feedID)
    requires other.hash != e.hash && SettledRow(db, userID, feedID, other, id)
    ensures var r := RefreshOne(db, userID, feedID, e, updateExisting, now);
            r.Committed? && SettledRow(r.db, userID, feedID, other, id)
  {
    if HasKey(db, (feedID, e.hash)) && updateExisting {
      var changed := RefreshedRow(db, userID, feedID, e, now);
      UpdateKeepsOtherRow(db, userID, feedID, e, other, changed, id);
    } else if IsNew(db, (feedID, e.hash)) {
      InsertKeepsOtherRow(db, userID, feedID, e, other, now, id);
    }
  }

  /** Writing one entry leaves another settled entry settled. */
  lemma RefreshKeepsOthersSettled(db: Db, userID: int, feedID: int, e: Entry, other: Entry, updateExisting: bool,
                                  now: int)
    requires ValidDb(db) && Owned(db, userID, feedID)
    requires other.hash != e.hash && Settled(db, userID, feedID, other, updateExisting)
    ensures var r := RefreshOne(db, userID, feedID, e, updateExisting, now);
            r.Committed? && Settled(r.db, userID, feedID, other, updateExisting)
  {
    RefreshOneResult(db, userID, feedID, e, updateExisting, now);
    if id :| SettledRow(db, userID, feedID, other, id) {
      RefreshKeepsOtherRow(db, userID, feedID, e, other, updateExisting, now, id);
    }
  }

  lemma OtherEnclosuresStay(t: EnclosureTable, t': EnclosureTable, userID: int, changed: int, id: int,
                            list: seq<Enclosure>, others: seq<Enclosure>)
    requires changed != id && UpToDate(t, userID, id, others)
    requires forall i :: i in t.rows && !IsOf(t.rows[i], userID, changed) ==> i in t'.rows
    requires forall i :: i in t.rows && i in t'.rows ==> t'.rows[i] == t.rows[i]
    requires forall i :: i in t'.rows && i !in t.rows ==> MadeFor(t, t'.rows[i], userID, changed, list)
    ensures UpToDate(t', userID, id, others)
  {
    forall i | i in t'.rows && IsOf(t'.rows[i], userID, id) ensures t'.rows[i].url in TrimmedUrls(others) {
      if i !in t.rows {
        assert false;
      }
    }
    forall url | url in Listed(others) ensures HasUrl(t', userID, id, url) {
      assert HasUrl(t, userID, id, url);
      var i :| i in t.rows && IsOf(t.rows[i], userID, id) && t.rows[i].url == url;
      assert i in t'.rows && t'.rows[i] == t.rows[i];
    }
  }

  lemma {:induction false} RefreshAllSettles(db: Db, userID: int, feedID: int, list: seq<Entry>, updateExisting: bool,
                                             clock: int -> int, i: nat)
    requires ValidDb(db) && Owned(db, userID, feedID) && DistinctHashes(list) && i < |list|
    ensures var r := RefreshAll(db, userID, feedID, list, updateExisting, clock, {});
            Settled(r.db, userID, feedID, list[i], updateExisting)
  {
    var n := |list| - 1;
    var init, e := list[..n], list[n];
    RefreshRefinesSets(db, userID, feedID, init, updateExisting, clock);
    var r := RefreshAll(db, userID, feedID, init, updateExisting, clock, {});
    RefreshOneResult(r.db, userID, feedID, e, updateExisting, clock(n));
    if i == n {
      RefreshSettles(r.db, userID, feedID, e, updateExisting, clock(n));
    } else {
      RefreshAllSettles(db, userID, feedID, init, updateExisting, clock, i);
      assert init[i] == list[i];
      RefreshKeepsOthersSettled(r.db, userID, feedID, e, list[i], updateExisting, clock(n));
    }
  }

  lemma {:induction false} RefreshAllOfSettled(db: Db, userID: int, feedID: int, list: seq<Entry>, updateExisting: bool,
                                               clock: int -> int)
    requires ValidDb(db) && Owned(db, userID, feedID)
    requires forall i :: 0 <= i < |list| ==> Settled(db, userID, feedID, list[i], updateExisting)
    ensures var r := RefreshAll(db, userID, feedID, list, updateExisting, clock, {});
            !r.failed && r.newEntries == [] && SameTables(db, r.db)
  {
    if list != [] {
      var n := |list| - 1;
      RefreshAllOfSettled(db, userID, feedID, list[..n], updateExisting, clock);
      RefreshRefinesSets(db, userID, feedID, list[..n], updateExisting, clock);
      var r := RefreshAll(db, userID, feedID, list[..n], updateExisting, clock, {});
      SettledDependsOnTables(db, r.db, userID, feedID, list[n], updateExisting);
      RefreshOfSettledChangesNothing(r.db, userID, feedID, list[n], updateExisting, clock(n));
    }
  }

  lemma SettledDependsOnTables(a: Db, b: Db, userID: int, feedID: int, e: Entry, updateExisting: bool)
    requires SameTables(a, b) && Settled(a, userID, feedID, e, updateExisting)
    ensures Settled(b, userID, feedID, e, updateExisting)
  {
    SameKeys(a, b);
    if id :| SettledRow(a, userID, feedID, e, id) {
      forall url | url in Listed(e.enclosures) ensures HasUrl(b.enclosures, userID, id, url) {
        assert HasUrl(a.enclosures, userID, id, url);
      }
      assert SettledRow(b, userID, feedID, e, id);
    }
  }

  /** Re-running a refresh with the same list returns no new entry and leaves every table as it
      was, whether or not existing entries are updated. */
  lemma {:induction false} RefreshIsIdempotent(db: Db, userID: int, feedID: int, list: seq<Entry>, updateExisting: bool,
                            clock: int -> int, later: int -> int)
    requires ValidDb(db) && Owned(db, userID, feedID) && DistinctHashes(list)
    ensures var once := RefreshAll(db, userID, feedID, list, updateExisting, clock, {});
            var twice := RefreshAll(once.db, userID, feedID, list, updateExisting, later, {});
            !twice.failed && twice.newEntries == [] && SameTables(once.db, twice.db)
  {
    var once := RefreshAll(db, userID, feedID, list, updateExisting, clock, {});
    RefreshRefinesSets(db, userID, feedID, list, updateExisting, clock);
    forall i | 0 <= i < |list| ensures Settled(once.db, userID, feedID, list[i], updateExisting) {
      RefreshAllSettles(db, userID, feedID, list, updateExisting, clock, i);
    }
    RefreshAllOfSettled(once.db, userID, feedID, list, updateExisting, later);
  }

  /** Duplicates included, a second run with the same list finds nothing new. */
  lemma {:induction false} RerunFindsNothingNew(db: Db, userID: int, feedID: int, list: seq<Entry>, updateExisting: bool,
                             clock: int -> int, later: int -> int)
    requires ValidDb(db) && Owned(db, userID, feedID)
    ensures var once := RefreshAll(db, userID, feedID, list, updateExisting, clock, {});
            RefreshAll(once.db, userID, feedID, list, updateExisting, later, {}).newEntries == []
  {
    var once := RefreshAll(db, userID, feedID, list, updateExisting, clock, {});
    RefreshRefinesSets(db, userID, feedID, list, updateExisting, clock);
    RefreshRefinesSets(once.db, userID, feedID, list, updateExisting, later);
    NothingNew(once.db, feedID, list);
  }

  lemma {:induction false} NothingNew(db: Db, feedID: int, list: seq<Entry>)
    requires forall h :: h in Hashes(list) ==> !IsNew(db, (feedID, h))
    ensures NewOnes(db, feedID, list) == []
  {
    if list != [] {
      assert list[|list| - 1].hash in Hashes(list);
      assert forall h :: h in Hashes(list[..|list| - 1]) ==> h in Hashes(list);
      NothingNew(db, feedID, list[..|list| - 1]);
    }
  }

  /** Begin, check, this write and commit, one after the other, do what RefreshOne does. */
  ghost predicate IsAloneRun(db: Db, userID: int, feedID: int, e: Entry, updateExisting: bool, now: int, write: Action) {
    var s0 := State(db, map[]);
    && Enabled(s0, Begin(0, Refresh(updateExisting), userID, feedID, e))
    && (var s1 := Next(s0, Begin(0, Refresh(updateExisting), userID, feedID, e));
        && Enabled(s1, Check(0))
        && (var s2 := Next(s1, Check(0));
            && Enabled(s2, write)
            && (var s3 := Next(s2, write);
                match RefreshOne(db, userID, feedID, e, updateExisting, now)
                case RolledBack => s3 == State(db, map[])
                case Committed(db', _) => Enabled(s3, Commit(0)) && Next(s3, Commit(0)) == State(db', map[]))))
  }

  lemma AloneInsert(db: Db, userID: int, feedID: int, e: Entry, updateExisting: bool, now: int)
    requires ValidDb(db) && !HasKey(db, (feedID, e.hash))
    ensures IsAloneRun(db, userID, feedID, e, updateExisting, now, WriteInsert(0, now))
  {
    var begun := Next(State(db, map[]), Begin(0, Refresh(updateExisting), userID, feedID, e));
    var written := Next(Next(begun, Check(0)), WriteInsert(0, now));
    assert written.txs - {0} == map[];
  }

  lemma AloneUpdate(db: Db, userID: int, feedID: int, e: Entry, now: int)
    requires ValidDb(db) && HasKey(db, (feedID, e.hash))
    ensures IsAloneRun(db, userID, feedID, e, true, now, WriteUpdate(0))
  {
    var begun := Next(State(db, map[]), Begin(0, Refresh(true), userID, feedID, e));
    var checked := Next(begun, Check(0));
    var written := Next(checked, WriteUpdate(0));
    if 0 in written.txs {
      var id := written.txs[0].phase.id;
      assert Hits(db, checked.txs[0], id) && RowOf(db, (feedID, e.hash), userID, id);
    } else {
      assert forall id :: RowOf(db, (feedID, e.hash), userID, id) ==> Hits(db, checked.txs[0], id);
    }
    assert written.txs - {0} == map[];
  }

  lemma AloneKeep(db: Db, userID: int, feedID: int, e: Entry, now: int)
    requires HasKey(db, (feedID, e.hash))
    ensures IsAloneRun(db, userID, feedID, e, false, now, KeepExisting(0))
  {
    var begun := Next(State(db, map[]), Begin(0, Refresh(false), userID, feedID, e));
    var written := Next(Next(begun, Check(0)), KeepExisting(0));
    assert written.txs - {0} == map[];
  }

  /** A refresh transaction that nobody disturbs is four steps of the concurrent model. */
  lemma AloneRefreshIsARun(db: Db, userID: int, feedID: int, e: Entry, updateExisting: bool, now: int)
    returns (write: Action)
    requires ValidDb(db)
    ensures IsAloneRun(db, userID, feedID, e, updateExisting, now, write)
  {
    if !HasKey(db, (feedID, e.hash)) {
      write := WriteInsert(0, now);
      AloneInsert(db, userID, feedID, e, updateExisting, now);
    } else if updateExisting {
      write := WriteUpdate(0);
      AloneUpdate(db, userID, feedID, e, now);
    } else {
      write := KeepExisting(0);
      AloneKeep(db, userID, feedID, e, now);
    }
  }
}

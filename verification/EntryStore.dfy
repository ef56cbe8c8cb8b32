/** The store's methods on entries, as they run alone (internal/storage/entry.go,
    internal/storage/enclosure.go, internal/storage/feed.go). */
module EntryStore {
  import opened Common
  import opened Enclosures
  import opened EntryTables
  import opened EntryArchive
  import opened EntryLifecycle
  import opened EntryRefresh
  import EntryRefreshRows

  /** Why createEntry returned an error: ErrEntryTombstoned, or a violated constraint. */
  datatype CreateError = EntryTombstoned | ConstraintViolation

  datatype StoreError = Rejected(cause: CreateError) | Failure

  /** An open transaction: its own view of the tables until it commits. */
  class Tx {
    var work: Db

    constructor (db: Db)
      ensures work == db
    {
      work := db;
    }
  }

  class Storage {
    var db: Db

    constructor (db: Db)
      ensures this.db == db
    {
      this.db := db;
    }

    method Begin() returns (tx: Tx)
      ensures fresh(tx) && tx.work == db
    {
      tx := new Tx(db);
    }

    method Commit(tx: Tx)
      modifies this
      ensures db == tx.work
    {
      db := tx.work;
    }

    /** Where the constraints hold, a found entry is the only one of its key, its feed exists, and
        its key has no tombstone. */
    method EntryExists(tx: Tx, feedID: int, hash: string) returns (found: bool)
      ensures found <==> HasKey(tx.work, (feedID, hash))
      ensures found <==> IsStored(tx.work, feedID, hash)
      ensures ValidDb(tx.work) ==> |RowsWithKey(tx.work, (feedID, hash))| == if found then 1 else 0
      ensures ValidDb(tx.work) && found ==> feedID in tx.work.feeds && (feedID, hash) !in tx.work.tombstones
    {
      var rows := RowsWithKey(tx.work, (feedID, hash));
      found := rows != {};
      RowsOfOneKey(tx.work, (feedID, hash));
      StoredIsHasKey(tx.work, feedID, hash);
    }

    method CreateEnclosure(tx: Tx, userID: int, entryID: int, e: Enclosure)
      modifies tx
      ensures tx.work == old(tx.work).(enclosures := Create(old(tx.work.enclosures), userID, entryID, e))
      ensures ValidTable(old(tx.work.enclosures)) ==>
                AddsListed(old(tx.work.enclosures), tx.work.enclosures, userID, entryID, [e])
    {
      if ValidTable(tx.work.enclosures) {
        CreateOneInColumns(tx.work.enclosures, userID, entryID, e);
      }
      var url := TrimSpace(e.url);
      if url == "" {
        return;
      }
      var t := tx.work.enclosures;
      if !HasUrl(t, userID, entryID, url) {
        t := t.(rows := t.rows[t.nextID := EnclosureRow(userID, entryID, url, e.size, e.mimeType, e.mediaProgression)]);
      }
      tx.work := tx.work.(enclosures := t.(nextID := t.nextID + 1));
    }

    method UpdateEnclosures(tx: Tx, userID: int, entryID: int, list: seq<Enclosure>)
      modifies tx
      ensures tx.work == old(tx.work).(enclosures := Update(old(tx.work.enclosures), userID, entryID, list))
      ensures ValidTable(old(tx.work.enclosures)) ==>
                && AddsListed(old(tx.work.enclosures), tx.work.enclosures, userID, entryID, list)
                && KeepsOld(old(tx.work.enclosures), tx.work.enclosures, userID, entryID, list)
    {
      if ValidTable(tx.work.enclosures) {
        UpdateInColumns(tx.work.enclosures, userID, entryID, list);
      }
      if |list| == 0 {
        tx.work := tx.work.(enclosures := DeleteUnlisted(tx.work.enclosures, userID, entryID, {}));
        return;
      }
      var urls: set<string> := {};
      var i := 0;
      while i < |list|
        invariant 0 <= i <= |list|
        invariant urls == TrimmedUrls(list[..i])
        invariant tx.work == old(tx.work).(enclosures := CreateAll(old(tx.work.enclosures), userID, entryID, list[..i]))
      {
        ListedMore(old(tx.work.enclosures), userID, entryID, list, i);
        urls := urls + {TrimSpace(list[i].url)};
        CreateEnclosure(tx, userID, entryID, list[i]);
        i := i + 1;
      }
      assert list[..i] == list;
      tx.work := tx.work.(enclosures := DeleteUnlisted(tx.work.enclosures, userID, entryID, urls));
    }

    /** The insert, guarded against tombstones, then the enclosures. */
    method CreateEntry(tx: Tx, userID: int, feedID: int, e: Entry, now: int) returns (r: Result<int, CreateError>)
      modifies tx
      ensures r == Err(EntryTombstoned) <==> (feedID, e.hash) in old(tx.work.tombstones)
      ensures r == Err(ConstraintViolation) <==>
                && (feedID, e.hash) !in old(tx.work.tombstones)
                && (feedID !in old(tx.work.feeds) || HasKey(old(tx.work), (feedID, e.hash)))
      ensures r.Ok? <==> feedID in old(tx.work.feeds) && IsNew(old(tx.work), (feedID, e.hash))
      ensures r.Err? ==> tx.work == old(tx.work)
      ensures r.Ok? ==> r.value == old(tx.work.nextEntryID) && tx.work == InsertFresh(old(tx.work), userID, feedID, e, now)
      ensures r.Ok? ==> HoldsFresh(old(tx.work), tx.work, r.value, userID, feedID, e, now)
    {
      var k := (feedID, e.hash);
      if k in tx.work.tombstones {
        return Err(EntryTombstoned);
      }
      if feedID !in tx.work.feeds || HasKey(tx.work, k) {
        return Err(ConstraintViolation);
      }
      var id := tx.work.nextEntryID;
      tx.work := tx.work.(entries := tx.work.entries[id := NewRow(userID, feedID, e, now)], nextEntryID := id + 1);
      var i := 0;
      while i < |e.enclosures|
        invariant 0 <= i <= |e.enclosures|
        invariant tx.work == old(tx.work).(
                    entries := old(tx.work).entries[id := NewRow(userID, feedID, e, now)],
                    nextEntryID := id + 1,
                    enclosures := CreateAll(old(tx.work.enclosures), userID, id, e.enclosures[..i]))
      {
        assert e.enclosures[..i + 1][..i] == e.enclosures[..i];
        CreateEnclosure(tx, userID, id, e.enclosures[i]);
        i := i + 1;
      }
      assert e.enclosures[..i] == e.enclosures;
      InsertFreshInColumns(old(tx.work), userID, feedID, e, now);
      r := Ok(id);
    }

    method UpdateEntry(tx: Tx, userID: int, feedID: int, e: Entry) returns (r: Option<int>)
      modifies tx
      ensures r.None? ==> tx.work == old(tx.work) && forall id :: !RowOf(old(tx.work), (feedID, e.hash), userID, id)
      ensures r.Some? ==> RowOf(old(tx.work), (feedID, e.hash), userID, r.value)
      ensures r.Some? ==> r.value in old(tx.work).entries && tx.work == UpdateRow(old(tx.work), r.value, userID, e)
      ensures r.Some? ==> HoldsUpdated(old(tx.work), tx.work, r.value, userID, feedID, e)
    {
      var hits := set id | id in tx.work.entries && KeyOf(tx.work.entries[id]) == (feedID, e.hash)
                           && tx.work.entries[id].userID == userID;
      if hits == {} {
        assert forall id :: RowOf(tx.work, (feedID, e.hash), userID, id) ==> id in hits;
        return None;
      }
      NonEmpty(hits);
      var id :| id in hits;
      tx.work := tx.work.(
        entries := tx.work.entries[id := tx.work.entries[id].(content := e.content, document := Document(e.content))]);
      UpdateEnclosures(tx, userID, id, e.enclosures);
      UpdateRowInColumns(old(tx.work), id, userID, feedID, e);
      r := Some(id);
    }

    method IsNewEntry(feedID: int, hash: string) returns (isNew: bool)
      ensures isNew == IsNew(db, (feedID, hash))
      ensures isNew <==> !IsStored(db, feedID, hash) && (feedID, hash) !in db.tombstones
    {
      StoredIsHasKey(db, feedID, hash);
      var known := HasKey(db, (feedID, hash)) || (feedID, hash) in db.tombstones;
      isNew := !known;
    }

    /** The body of the refresh loop: check, update or create, then commit; roll back and
        return None on failure. */
    method RefreshEntry(userID: int, feedID: int, e: Entry, updateExisting: bool, now: int) returns (isNew: Option<bool>)
      requires ValidDb(db)
      modifies this
      ensures ValidDb(db)
      ensures isNew.None? ==> db == old(db) && RefreshOne(old(db), userID, feedID, e, updateExisting, now).RolledBack?
      ensures isNew.Some? ==> RefreshOne(old(db), userID, feedID, e, updateExisting, now) == Committed(db, isNew.value)
    {
      AnyRefreshOneKeepsValid(db, userID, feedID, e, updateExisting, now);
      var tx := Begin();
      var found := EntryExists(tx, feedID, e.hash);
      if found {
        if updateExisting {
          OnlyOneRow(db, userID, feedID, e);
          var updated := UpdateEntry(tx, userID, feedID, e);
          if updated.None? {
            return None;
          }
        }
        isNew := Some(false);
      } else {
        var created := CreateEntry(tx, userID, feedID, e, now);
        match created {
          case Ok(_) => isNew := Some(true);
          case Err(EntryTombstoned) => isNew := Some(false);
          case Err(ConstraintViolation) => return None;
        }
      }
      Commit(tx);
    }

    /** One transaction per entry; the first failing one ends the call. */
    method RefreshFeedEntries(userID: int, feedID: int, list: seq<Entry>, updateExisting: bool,
                              clock: int -> int, faults: set<int>)
      returns (r: Result<seq<Entry>, StoreError>, ghost done: nat)
      requires ValidDb(db)
      modifies this
      ensures var o := RefreshAll(old(db), userID, feedID, list, updateExisting, clock, faults);
              db == o.db && (r.Err? <==> o.failed) && (r.Ok? ==> r.value == o.newEntries)
      ensures done <= |list| && (r.Ok? <==> done == |list|)
      ensures ValidDb(db) && EntryRefreshRows.RowsAfter(old(db), db, userID, feedID, list[..done], updateExisting, clock)
      ensures EntryRefreshRows.ListedAreKnown(db, feedID, list[..done]) && db.tombstones == old(db.tombstones)
    {
      r, done := RefreshEach(userID, feedID, list, updateExisting, clock, faults);
      EntryRefreshRows.RefreshLeavesRows(old(db), userID, feedID, list[..done], updateExisting, clock, faults);
    }

    /** The loop of RefreshFeedEntries; done is the number of entries committed. */
    method RefreshEach(userID: int, feedID: int, list: seq<Entry>, updateExisting: bool,
                       clock: int -> int, faults: set<int>)
      returns (r: Result<seq<Entry>, StoreError>, ghost done: nat)
      requires ValidDb(db)
      modifies this
      ensures var o := RefreshAll(old(db), userID, feedID, list, updateExisting, clock, faults);
              db == o.db && (r.Err? <==> o.failed) && (r.Ok? ==> r.value == o.newEntries)
      ensures done <= |list| && (r.Ok? <==> done == |list|)
      ensures var o := RefreshAll(old(db), userID, feedID, list[..done], updateExisting, clock, faults);
              db == o.db && !o.failed
    {
      var newEntries: seq<Entry> := [];
      var i := 0;
      while i < |list|
        invariant 0 <= i <= |list|
        invariant ValidDb(db)
        invariant RefreshAll(old(db), userID, feedID, list[..i], updateExisting, clock, faults) == Outcome(db, newEntries, false)
      {
        if i in faults {
          RefreshStopsAt(old(db), userID, feedID, list, updateExisting, clock, faults, i);
          return Err(Failure), i;
        }
        ghost var before := Outcome(db, newEntries, false);
        var isNew := RefreshEntry(userID, feedID, list[i], updateExisting, clock(i));
        if isNew.None? {
          RefreshStopsAt(old(db), userID, feedID, list, updateExisting, clock, faults, i);
          return Err(Failure), i;
        }
        RefreshGoesOn(old(db), userID, feedID, list, updateExisting, clock, faults, i, before);
        if isNew.value {
          newEntries := newEntries + [list[i]];
        }
        i := i + 1;
      }
      assert list[..i] == list;
      r, done := Ok(newEntries), i;
    }

    /** InsertEntryForFeed: reuse the stored entry, or create it. */
    method InsertEntryForFeed(userID: int, feedID: int, e: Entry, now: int) returns (r: Result<(int, bool), StoreError>)
      requires ValidDb(db)
      modifies this
      ensures ValidDb(db) && KeepsRows(old(db), db)
      ensures (feedID, e.hash) in old(db.tombstones) ==> r == Err(Rejected(EntryTombstoned))
      ensures r.Ok? <==> HasKey(old(db), (feedID, e.hash)) || (IsNew(old(db), (feedID, e.hash)) && feedID in old(db.feeds))
      ensures r.Ok? ==> r.value.0 in db.entries && KeyOf(db.entries[r.value.0]) == (feedID, e.hash)
      ensures r.Ok? ==> (r.value.1 <==> IsNew(old(db), (feedID, e.hash)))
      ensures r.Ok? && r.value.1 ==> db == InsertFresh(old(db), userID, feedID, e, now)
      ensures r.Ok? && r.value.1 ==> HoldsFresh(old(db), db, r.value.0, userID, feedID, e, now)
      ensures !(r.Ok? && r.value.1) ==> db == old(db)
    {
      var tx := Begin();
      var ids := set id | id in tx.work.entries && KeyOf(tx.work.entries[id]) == (feedID, e.hash);
      if ids != {} {
        NonEmpty(ids);
        var id :| id in ids;
        Commit(tx);
        return Ok((id, false));
      }
      assert forall id :: id in tx.work.entries && KeyOf(tx.work.entries[id]) == (feedID, e.hash) ==> id in ids;
      var created := CreateEntry(tx, userID, feedID, e, now);
      match created {
        case Err(cause) => return Err(Rejected(cause));
        case Ok(id) =>
          InsertFreshKeepsValid(db, userID, feedID, e, now);
          Commit(tx);
          return Ok((id, true));
      }
    }

    /** The body of CreateFeed's loop: a tombstone is an error here. */
    method CreateFeedEntry(userID: int, feedID: int, e: Entry, now: int) returns (ok: bool)
      requires ValidDb(db)
      modifies this
      ensures ok <==> HasKey(old(db), (feedID, e.hash)) || (feedID in old(db.feeds) && (feedID, e.hash) !in old(db.tombstones))
      ensures ok ==> RefreshOne(old(db), userID, feedID, e, false, now) == Committed(db, IsNew(old(db), (feedID, e.hash)))
      ensures !ok ==> db == old(db)
    {
      ghost var before := db;
      var tx := Begin();
      var found := EntryExists(tx, feedID, e.hash);
      if !found {
        var created := CreateEntry(tx, userID, feedID, e, now);
        if created.Err? {
          return false;
        }
      } else {
        FoundIsAlive(db, (feedID, e.hash));
      }
      Commit(tx);
      ok := true;
    }

    /** CreateFeed: the feed row, then one transaction per entry. The id of the feed is fresh, so
        no tombstone stands in the way: only a statement or commit that fails from outside, for
        the feed row or for entry i in faults, stops the call, and the entries done before stay. */
    method CreateFeed(userID: int, list: seq<Entry>, clock: int -> int, feedFails: bool, faults: set<int>)
      returns (feedID: int, ok: bool, ghost done: nat)
      requires ValidDb(db)
      modifies this
      ensures feedFails ==> !ok && db == old(db)
      ensures ok <==> !feedFails && forall i :: i in faults ==> !(0 <= i < |list|)
      ensures !feedFails ==> feedID == old(db.nextFeedID) && done <= |list| && ValidDb(db)
      ensures !feedFails ==> (ok <==> done == |list|) && (!ok ==> done in faults)
      ensures !feedFails ==> forall i :: i in faults ==> !(0 <= i < done)
      ensures !feedFails ==> db == Created(old(db), userID, list[..done], clock)
      ensures !feedFails ==> forall h :: HasKey(db, (feedID, h)) <==> h in Hashes(list[..done])
      ensures !feedFails ==> EntryRefreshRows.RowsAfter(old(db), db, userID, feedID, list[..done], false, clock)
      ensures !feedFails ==> db.feeds == old(db.feeds)[feedID := userID] && db.nextFeedID == feedID + 1
    {
      if feedFails {
        return 0, false, 0;
      }
      feedID := db.nextFeedID;
      db := WithFeed(db, userID);
      ok, done := CreateFeedEntries(old(db), userID, feedID, list, clock, faults);
      assert ok ==> list[..done] == list;
      FeedIsThere(old(db), userID, list[..done], clock);
    }

    /** CreateFeed's loop, for the feed that it has added to start. */
    method CreateFeedEntries(ghost start: Db, userID: int, feedID: int, list: seq<Entry>, clock: int -> int,
                             faults: set<int>)
      returns (ok: bool, ghost done: nat)
      requires ValidDb(start) && db == WithFeed(start, userID) && feedID == start.nextFeedID
      modifies this
      ensures done <= |list| && db == Created(start, userID, list[..done], clock)
      ensures forall i :: i in faults ==> !(0 <= i < done)
      ensures if ok then done == |list| else done < |list| && done in faults
    {
      ok := true;
      var i := 0;
      while ok && i < |list|
        invariant 0 <= i <= |list| && forall j :: j in faults ==> !(0 <= j < i)
        invariant !ok ==> i < |list| && i in faults
        invariant db == Created(start, userID, list[..i], clock)
        decreases ok, |list| - i
      {
        if i in faults {
          ok := false;
        } else {
          CreatedIsValid(start, userID, list[..i], clock);
          ok := CreateFeedEntry(userID, feedID, list[i], clock(i));
          OneMoreCreated(start, db, userID, list, clock, i);
          i := i + 1;
        }
      }
      done := i;
    }

    /** The oldest of the given rows. */
    static method OldestRow(db: Db, ids: set<int>) returns (oldest: int)
      requires ids != {} && ids <= db.entries.Keys
      ensures oldest in ids
      ensures forall id :: id in ids ==> db.entries[oldest].createdAt <= db.entries[id].createdAt
    {
      NonEmpty(ids);
      oldest :| oldest in ids;
      var rest := ids - {oldest};
      while rest != {}
        invariant rest <= ids && oldest in ids
        invariant forall id :: id in ids - rest ==> db.entries[oldest].createdAt <= db.entries[id].createdAt
        decreases |rest|
      {
        NonEmpty(rest);
        var id :| id in rest;
        if db.entries[id].createdAt < db.entries[oldest].createdAt {
          oldest := id;
        }
        rest := rest - {id};
      }
    }

    /** ORDER BY created_at ASC LIMIT */
    static method OldestRows(db: Db, candidates: set<int>, limit: nat) returns (chosen: set<int>)
      requires candidates <= db.entries.Keys
      ensures OldestOf(db, candidates, limit, chosen)
    {
      var rest := candidates;
      chosen := {};
      while rest != {} && |chosen| < limit
        invariant rest + chosen == candidates && rest !! chosen
        invariant |chosen| <= limit && |candidates| == |rest| + |chosen|
        invariant forall c, o :: c in chosen && o in rest ==> db.entries[c].createdAt <= db.entries[o].createdAt
        decreases |rest|
      {
        var id := OldestRow(db, rest);
        rest, chosen := rest - {id}, chosen + {id};
      }
      assert rest == candidates - chosen;
    }

    /** One statement deletes the oldest eligible rows that no other transaction has locked and
        records their tombstones. At most limit rows go, each unprotected and as old as asked, as
        many as there are up to the limit, and no eligible row that stays is older than one that
        goes unless it is locked. The count is the number of deleted rows with a hash. */
    method ArchiveEntries(status: string, interval: int, limit: int, now: int, locked: set<int>)
      returns (count: int, ghost deleted: set<int>)
      requires ValidDb(db)
      modifies this
      ensures deleted == old(db).entries.Keys - db.entries.Keys
      ensures interval < 0 || limit <= 0 ==> db == old(db) && count == 0
      ensures interval >= 0 && limit > 0 ==>
                && OldestOf(old(db), Eligible(old(db), status, Cutoff(now, interval)) - locked, limit, deleted)
                && |deleted| == Min(limit, |Eligible(old(db), status, Cutoff(now, interval)) - locked|)
                && deleted !! locked && IsOldEnough(old(db), deleted, status, interval, now)
                && SparesTheOlder(old(db), deleted, Eligible(db, status, Cutoff(now, interval)) - locked)
      ensures interval >= 0 && limit > 0 ==>
                TakesTheOldest(old(db), db, deleted, status, interval, limit, now, locked)
      ensures forall id :: id in db.entries ==> id in old(db).entries && db.entries[id] == old(db).entries[id]
      ensures count == |set id | id in deleted && id in old(db).entries && old(db).entries[id].hash != ""|
      ensures forall f, h :: (f, h) in db.tombstones <==> (f, h) in old(db).tombstones || Buries(old(db), deleted, f, h)
      ensures db == DeleteWithTombstones(old(db), deleted) && count == |WithHash(old(db), deleted)|
    {
      if interval < 0 || limit <= 0 {
        DeletingNothing(db);
        BuriedKeys(db, {});
        return 0, {};
      }
      var candidates := Eligible(db, status, Cutoff(now, interval)) - locked;
      var chosen := OldestRows(db, candidates, limit);
      count := NewTombstones(db, chosen);
      CountIsDeletedRows(db, chosen);
      ArchiveDeletesTheOldest(db, status, interval, limit, now, locked, chosen);
      ChosenAreTheOldest(db, status, interval, limit, now, locked, chosen);
      BuriedKeys(db, chosen);
      deleted := chosen;
      db := DeleteWithTombstones(db, chosen);
    }

    /** The user's read entries go unless they are starred or shared; every other row, and its
        enclosures, stay as they are. The keys of the rows that go become tombstones, one for
        each row with a hash, and nothing else does. */
    method FlushHistory(userID: int)
      modifies this
      ensures forall id :: id in old(db).entries ==>
                var row := old(db).entries[id];
                (id !in db.entries <==> row.userID == userID && row.status == "read" && !row.starred && row.shareCode == "")
      ensures forall id :: id in db.entries ==> id in old(db).entries && db.entries[id] == old(db).entries[id]
      ensures forall f, h :: (f, h) in db.tombstones <==>
                (f, h) in old(db).tombstones || Buries(old(db), old(db).entries.Keys - db.entries.Keys, f, h)
      ensures forall i :: i in old(db).enclosures.rows ==>
                (i in db.enclosures.rows <==> old(db).enclosures.rows[i].entryID !in old(db).entries.Keys - db.entries.Keys)
      ensures forall i :: i in db.enclosures.rows ==>
                i in old(db).enclosures.rows && db.enclosures.rows[i] == old(db).enclosures.rows[i]
      ensures db == old(db).(entries := db.entries, tombstones := db.tombstones,
                             enclosures := old(db).enclosures.(rows := db.enclosures.rows))
      ensures ValidDb(old(db)) ==> ValidDb(db)
      ensures ValidDb(old(db)) ==>
                |db.tombstones| == |old(db).tombstones| + |WithHash(old(db), old(db).entries.Keys - db.entries.Keys)|
    {
      var flushed := Flushable(db, userID);
      db := DeleteWithTombstones(db, flushed);
      FlushedKeys(old(db), flushed);
      BuriedKeys(old(db), flushed);
    }

    /** Only the status and the change time of the user's listed entries change. */
    method SetEntriesStatus(userID: int, ids: set<int>, status: string, now: int)
      modifies this
      ensures db == old(db).(entries := db.entries) && db.entries.Keys == old(db).entries.Keys
      ensures forall id :: id in db.entries ==>
                db.entries[id] == if old(db).entries[id].userID == userID && id in ids
                                  then old(db).entries[id].(status := status, changedAt := now)
                                  else old(db).entries[id]
    {
      db := SetStatus(db, userID, ids, status, now);
    }
  }

  // ----- Lemmas -----

  lemma {:induction false} ListedMore(t: EnclosureTable, userID: int, entryID: int, list: seq<Enclosure>, i: nat)
    requires i < |list|
    ensures TrimmedUrls(list[..i + 1]) == TrimmedUrls(list[..i]) + {TrimSpace(list[i].url)}
    ensures CreateAll(t, userID, entryID, list[..i + 1]) == Create(CreateAll(t, userID, entryID, list[..i]), userID, entryID, list[i])
  {
    assert list[..i + 1][..i] == list[..i];
    assert forall e :: e in list[..i + 1] <==> e in list[..i] || e == list[i];
  }

  function RowsWithKey(db: Db, k: Key): set<int> { set id | id in db.entries && KeyOf(db.entries[id]) == k }

  lemma RowsOfOneKey(db: Db, k: Key)
    ensures RowsWithKey(db, k) != {} <==> HasKey(db, k)
    ensures ValidDb(db) ==> |RowsWithKey(db, k)| == if HasKey(db, k) then 1 else 0
    ensures ValidDb(db) && HasKey(db, k) ==> k.0 in db.feeds && k !in db.tombstones
  {
    if HasKey(db, k) {
      var id :| id in db.entries && KeyOf(db.entries[id]) == k;
      assert id in RowsWithKey(db, k);
      if ValidDb(db) {
        forall other | other in RowsWithKey(db, k) ensures other == id {
          assert KeyOf(db.entries[other]) == KeyOf(db.entries[id]);
        }
        assert RowsWithKey(db, k) == {id};
      }
    } else {
      assert forall id :: id in db.entries ==> KeyOf(db.entries[id]) != k;
    }
  }

  /** A deleted row with a hash has this feed and hash. */
  ghost predicate Buries(db: Db, deleted: set<int>, feedID: int, hash: string) {
    hash != "" &&
    exists id :: id in deleted && id in db.entries && db.entries[id].feedID == feedID && db.entries[id].hash == hash
  }

  lemma BuriedKeys(db: Db, deleted: set<int>)
    ensures forall f, h :: (f, h) in DeleteWithTombstones(db, deleted).tombstones <==>
              (f, h) in db.tombstones || Buries(db, deleted, f, h)
  {
    forall f, h ensures (f, h) in TombstoneKeys(db, deleted) <==> Buries(db, deleted, f, h) {
      if (f, h) in TombstoneKeys(db, deleted) {
        var id :| id in deleted && id in db.entries && db.entries[id].hash != "" && KeyOf(db.entries[id]) == (f, h);
        assert db.entries[id].feedID == f && db.entries[id].hash == h;
      }
      if Buries(db, deleted, f, h) {
        var id :| id in deleted && id in db.entries && db.entries[id].feedID == f && db.entries[id].hash == h;
        assert KeyOf(db.entries[id]) == (f, h);
      }
    }
  }

  /** One new row beside the old ones, with its enclosures. */
  ghost predicate HoldsFresh(db: Db, db': Db, id: int, userID: int, feedID: int, e: Entry, now: int) {
    && id in db'.entries && IsFreshRow(db'.entries[id], userID, feedID, e, now)
    && db'.entries == db.entries[id := db'.entries[id]] && db'.nextEntryID == db.nextEntryID + 1 && id == db.nextEntryID
    && db'.tombstones == db.tombstones && db'.feeds == db.feeds
    && (ValidTable(db.enclosures) ==>
          && AddsListed(db.enclosures, db'.enclosures, userID, id, e.enclosures)
          && forall i :: i in db.enclosures.rows ==>
               i in db'.enclosures.rows && db'.enclosures.rows[i] == db.enclosures.rows[i])
  }

  lemma InsertFreshInColumns(db: Db, userID: int, feedID: int, e: Entry, now: int)
    ensures HoldsFresh(db, InsertFresh(db, userID, feedID, e, now), db.nextEntryID, userID, feedID, e, now)
  {
    if ValidTable(db.enclosures) {
      CreateAllInColumns(db.enclosures, userID, db.nextEntryID, e.enclosures);
    }
  }

  /** The user's row of this feed and hash holds the new text and enclosures, and nothing else
      has changed. */
  ghost predicate HoldsUpdated(db: Db, db': Db, id: int, userID: int, feedID: int, e: Entry) {
    && id in db.entries && id in db'.entries
    && db.entries[id].userID == userID && db.entries[id].feedID == feedID && db.entries[id].hash == e.hash
    && db'.entries[id].content == e.content && Indexes(db'.entries[id].document, e.content)
    && db'.entries[id] == db.entries[id].(content := db'.entries[id].content, document := db'.entries[id].document)
    && db' == db.(entries := db.entries[id := db'.entries[id]], enclosures := db'.enclosures)
    && (ValidTable(db.enclosures) ==>
          && AddsListed(db.enclosures, db'.enclosures, userID, id, e.enclosures)
          && KeepsOld(db.enclosures, db'.enclosures, userID, id, e.enclosures))
  }

  lemma UpdateRowInColumns(db: Db, id: int, userID: int, feedID: int, e: Entry)
    requires RowOf(db, (feedID, e.hash), userID, id)
    ensures HoldsUpdated(db, UpdateRow(db, id, userID, e), id, userID, feedID, e)
  {
    if ValidTable(db.enclosures) {
      UpdateInColumns(db.enclosures, userID, id, e.enclosures);
    }
  }

  lemma CreateOneInColumns(t: EnclosureTable, userID: int, entryID: int, e: Enclosure)
    requires ValidTable(t)
    ensures AddsListed(t, Create(t, userID, entryID, e), userID, entryID, [e])
  {
    CreateAllInColumns(t, userID, entryID, [e]);
    assert [e][..0] == [];
    assert CreateAll(t, userID, entryID, [e]) == Create(CreateAll(t, userID, entryID, []), userID, entryID, e);
  }

  lemma FlushedKeys(db: Db, ids: set<int>)
    requires ids <= db.entries.Keys
    ensures var db' := DeleteWithTombstones(db, ids);
            && db.entries.Keys - db'.entries.Keys == ids
            && (ValidDb(db) ==> ValidDb(db') && |db'.tombstones| == |db.tombstones| + |WithHash(db, ids)|)
    ensures forall k :: k in DeleteWithTombstones(db, ids).tombstones <==>
              k in db.tombstones || exists id :: id in ids && k == KeyOf(db.entries[id]) && k.1 != ""
  {
    var db' := DeleteWithTombstones(db, ids);
    assert db.entries.Keys - db'.entries.Keys == ids;
    if ValidDb(db) {
      DeleteWithTombstonesKeepsValid(db, ids);
      CountIsDeletedRows(db, ids);
      assert db'.tombstones == db.tombstones + (TombstoneKeys(db, ids) - db.tombstones);
    }
  }

  lemma DeletingNothing(db: Db)
    ensures DeleteWithTombstones(db, {}) == db && WithHash(db, {}) == {} && db.entries.Keys - db.entries.Keys == {}
  {
    assert TombstoneKeys(db, {}) == {};
    assert db.entries - {} == db.entries;
    assert DeleteOfEntries(db.enclosures, {}).rows == db.enclosures.rows;
  }

  function WithFeed(db: Db, userID: int): Db {
    db.(feeds := db.feeds[db.nextFeedID := userID], nextFeedID := db.nextFeedID + 1)
  }

  lemma WithFeedKeepsValid(db: Db, userID: int)
    requires ValidDb(db)
    ensures ValidDb(WithFeed(db, userID)) && Owned(WithFeed(db, userID), userID, db.nextFeedID)
  {
  }

  /** The tables after CreateFeed has done these entries of its list. */
  ghost function Created(start: Db, userID: int, list: seq<Entry>, clock: int -> int): Db {
    RefreshAll(WithFeed(start, userID), userID, start.nextFeedID, list, false, clock, {}).db
  }

  /** The rows of the new feed. */
  lemma CreatedRows(start: Db, userID: int, list: seq<Entry>, clock: int -> int)
    requires ValidDb(start) && !RefreshAll(WithFeed(start, userID), userID, start.nextFeedID, list, false, clock, {}).failed
    ensures var db := RefreshAll(WithFeed(start, userID), userID, start.nextFeedID, list, false, clock, {}).db;
            && EntryRefreshRows.RowsAfter(start, db, userID, start.nextFeedID, list, false, clock)
            && db.feeds == start.feeds[start.nextFeedID := userID] && db.nextFeedID == start.nextFeedID + 1
  {
    WithFeedKeepsValid(start, userID);
    RefreshRefinesSets(WithFeed(start, userID), userID, start.nextFeedID, list, false, clock);
    EntryRefreshRows.RefreshLeavesRows(WithFeed(start, userID), userID, start.nextFeedID, list, false, clock, {});
  }

  /** The new feed stands and has no tombstone. */
  lemma {:induction false} CreatedIsValid(start: Db, userID: int, list: seq<Entry>, clock: int -> int)
    requires ValidDb(start)
    ensures var db := Created(start, userID, list, clock);
            ValidDb(db) && Owned(db, userID, start.nextFeedID) && forall h :: (start.nextFeedID, h) !in db.tombstones
    ensures !RefreshAll(WithFeed(start, userID), userID, start.nextFeedID, list, false, clock, {}).failed
  {
    WithFeedKeepsValid(start, userID);
    RefreshIsRefined(WithFeed(start, userID), userID, start.nextFeedID, list, false, clock);
  }

  lemma {:induction false} OneMoreCreated(start: Db, db: Db, userID: int, list: seq<Entry>, clock: int -> int, i: nat)
    requires ValidDb(start) && i < |list|
    requires var before := Created(start, userID, list[..i], clock);
             var one := RefreshOne(before, userID, start.nextFeedID, list[i], false, clock(i));
             one.Committed? && one.db == db
    ensures db == Created(start, userID, list[..i + 1], clock)
  {
    assert list[..i + 1][..i] == list[..i];
    CreatedIsValid(start, userID, list[..i], clock);
  }

  /** What the call leaves behind. */
  lemma {:induction false} FeedIsThere(start: Db, userID: int, list: seq<Entry>, clock: int -> int)
    requires ValidDb(start)
    ensures var db := Created(start, userID, list, clock);
            && ValidDb(db)
            && (forall h :: HasKey(db, (start.nextFeedID, h)) <==> h in Hashes(list))
            && EntryRefreshRows.RowsAfter(start, db, userID, start.nextFeedID, list, false, clock)
            && db.feeds == start.feeds[start.nextFeedID := userID] && db.nextFeedID == start.nextFeedID + 1
  {
    CreatedIsValid(start, userID, list, clock);
    CreatedRows(start, userID, list, clock);
    CreateFeedStoresEveryHash(start, userID, list, clock);
  }

  lemma FoundIsAlive(db: Db, k: Key)
    requires ValidDb(db) && HasKey(db, k)
    ensures k !in db.tombstones && k.0 in db.feeds
  {
  }

  lemma OnlyOneRow(db: Db, userID: int, feedID: int, e: Entry)
    requires ValidDb(db)
    ensures forall i, j :: RowOf(db, (feedID, e.hash), userID, i) && RowOf(db, (feedID, e.hash), userID, j) ==> i == j
  {
  }

  lemma {:induction false} RefreshGoesOn(db: Db, userID: int, feedID: int, list: seq<Entry>, updateExisting: bool,
                                         clock: int -> int, faults: set<int>, i: nat, r: Outcome)
    requires i < |list| && i !in faults && !r.failed
    requires RefreshAll(db, userID, feedID, list[..i], updateExisting, clock, faults) == r
    requires RefreshOne(r.db, userID, feedID, list[i], updateExisting, clock(i)).Committed?
    ensures var one := RefreshOne(r.db, userID, feedID, list[i], updateExisting, clock(i));
            RefreshAll(db, userID, feedID, list[..i + 1], updateExisting, clock, faults) ==
            Outcome(one.db, if one.isNew then r.newEntries + [list[i]] else r.newEntries, false)
  {
    assert list[..i + 1][..i] == list[..i];
  }

  /** Once an entry fails, the later ones do not matter. */
  lemma {:induction false} RefreshStopsAt(db: Db, userID: int, feedID: int, list: seq<Entry>, updateExisting: bool,
                                          clock: int -> int, faults: set<int>, i: nat)
    requires i < |list|
    requires !RefreshAll(db, userID, feedID, list[..i], updateExisting, clock, faults).failed
    requires i in faults ||
             RefreshOne(RefreshAll(db, userID, feedID, list[..i], updateExisting, clock, faults).db,
                        userID, feedID, list[i], updateExisting, clock(i)).RolledBack?
    ensures RefreshAll(db, userID, feedID, list, updateExisting, clock, faults) ==
            Outcome(RefreshAll(db, userID, feedID, list[..i], updateExisting, clock, faults).db, [], true)
  {
    var n := |list| - 1;
    if i < n {
      assert list[..n][..i] == list[..i];
      RefreshStopsAt(db, userID, feedID, list[..n], updateExisting, clock, faults, i);
    }
  }

  /** CreateFeed stores each listed hash once, whatever tombstones other feeds have. */
  lemma {:induction false} CreateFeedStoresEveryHash(db: Db, userID: int, list: seq<Entry>, clock: int -> int)
    requires ValidDb(db)
    ensures var feedID := db.nextFeedID;
            var db' := RefreshAll(WithFeed(db, userID), userID, feedID, list, false, clock, {}).db;
            && ValidDb(db') && KeepsRows(WithFeed(db, userID), db')
            && (forall h :: HasKey(db', (feedID, h)) <==> h in Hashes(list))
            && (forall k: Key :: k.0 != feedID ==> (HasKey(db', k) <==> HasKey(db, k)))
  {
    WithFeedKeepsValid(db, userID);
    SameKeys(db, WithFeed(db, userID));
    RefreshRefinesSets(WithFeed(db, userID), userID, db.nextFeedID, list, false, clock);
  }
}

/** What RefreshFeedEntries leaves in the entries table, row by row and column by column
    (internal/storage/entry.go). */
module EntryRefreshRows {
  import opened EntryTables
  import opened EntryRefresh

  /** No earlier entry of the list has the hash of the i-th. */
  ghost predicate IsFirst(list: seq<Entry>, i: int) {
    0 <= i < |list| && forall k :: 0 <= k < i ==> list[k].hash != list[i].hash
  }

  ghost predicate IsLast(list: seq<Entry>, i: int) {
    0 <= i < |list| && forall k :: i < k < |list| ==> list[k].hash != list[i].hash
  }

  ghost predicate Lists(list: seq<Entry>, hash: string) { exists i :: 0 <= i < |list| && list[i].hash == hash }

  /** A row that was there: with updates, the text of the last listed entry with its hash
      replaces its own; nothing else changes. */
  ghost predicate OldRowAfter(row: EntryRow, row': EntryRow, feedID: int, list: seq<Entry>, updateExisting: bool) {
    if updateExisting && row.feedID == feedID && Lists(list, row.hash) then
      exists j ::
        && IsLast(list, j) && list[j].hash == row.hash
        && row'.content == list[j].content && Indexes(row'.document, list[j].content)
        && row' == row.(content := row'.content, document := row'.document)
    else row' == row
  }

  /** A row that was added: that of the first listed entry with its hash, stored at the time of
      its transaction; with updates, with the text of the last one. */
  ghost predicate NewRowAfter(row: EntryRow, userID: int, feedID: int, list: seq<Entry>, updateExisting: bool,
                              clock: int -> int)
  {
    exists i, j ::
      && IsFirst(list, i) && IsLast(list, j) && list[i].hash == list[j].hash == row.hash
      && row.userID == userID && row.feedID == feedID
      && row.publishedAt == list[i].date && row.createdAt == clock(i) && row.changedAt == clock(i)
      && row.status == "unread" && !row.starred && row.shareCode == ""
      && (if updateExisting then row.content == list[j].content && Indexes(row.document, list[j].content)
          else row.content == list[i].content && Indexes(row.document, list[i].content))
  }

  ghost predicate RowsAfter(db: Db, db': Db, userID: int, feedID: int, list: seq<Entry>, updateExisting: bool,
                            clock: int -> int)
  {
    && (forall id :: id in db.entries ==>
          id in db'.entries && OldRowAfter(db.entries[id], db'.entries[id], feedID, list, updateExisting))
    && (forall id :: id in db'.entries && id !in db.entries ==>
          id >= db.nextEntryID && NewRowAfter(db'.entries[id], userID, feedID, list, updateExisting, clock))
  }

  /** Every listed hash is known by now. */
  ghost predicate ListedAreKnown(db: Db, feedID: int, list: seq<Entry>) {
    forall i :: 0 <= i < |list| ==> HasKey(db, (feedID, list[i].hash)) || (feedID, list[i].hash) in db.tombstones
  }

  // ----- Positions in a longer list -----

  lemma FirstStays(list: seq<Entry>, e: Entry, i: int)
    requires IsFirst(list, i)
    ensures IsFirst(list + [e], i) && (list + [e])[i] == list[i]
  {
  }

  lemma LastStays(list: seq<Entry>, e: Entry, j: int)
    requires IsLast(list, j) && list[j].hash != e.hash
    ensures IsLast(list + [e], j) && (list + [e])[j] == list[j]
  {
  }

  lemma NewLast(list: seq<Entry>, e: Entry)
    ensures IsLast(list + [e], |list|) && (list + [e])[|list|] == e
  {
  }

  lemma ListsMore(list: seq<Entry>, e: Entry, hash: string)
    ensures Lists(list + [e], hash) <==> Lists(list, hash) || hash == e.hash
  {
    if Lists(list, hash) {
      var i :| 0 <= i < |list| && list[i].hash == hash;
      assert (list + [e])[i].hash == hash;
    }
    assert (list + [e])[|list|] == e;
    if Lists(list + [e], hash) && hash != e.hash {
      var i :| 0 <= i < |list + [e]| && (list + [e])[i].hash == hash;
      assert list[i].hash == hash;
    }
  }

  // ----- One more entry -----

  lemma OldRowKept(row: EntryRow, row': EntryRow, feedID: int, list: seq<Entry>, updateExisting: bool, e: Entry)
    requires OldRowAfter(row, row', feedID, list, updateExisting)
    requires !updateExisting || row.feedID != feedID || row.hash != e.hash
    ensures OldRowAfter(row, row', feedID, list + [e], updateExisting)
  {
    ListsMore(list, e, row.hash);
    if updateExisting && row.feedID == feedID && Lists(list, row.hash) {
      var j :| && IsLast(list, j) && list[j].hash == row.hash
               && row'.content == list[j].content && Indexes(row'.document, list[j].content)
               && row' == row.(content := row'.content, document := row'.document);
      LastStays(list, e, j);
    }
  }

  lemma OldRowUpdated(row: EntryRow, row': EntryRow, row2: EntryRow, feedID: int, list: seq<Entry>, e: Entry)
    requires OldRowAfter(row, row', feedID, list, true) && row.feedID == feedID && row.hash == e.hash
    requires row2.content == e.content && Indexes(row2.document, e.content)
    requires row2 == row'.(content := row2.content, document := row2.document)
    ensures OldRowAfter(row, row2, feedID, list + [e], true)
  {
    ListsMore(list, e, row.hash);
    NewLast(list, e);
    assert row2 == row.(content := row2.content, document := row2.document);
  }

  lemma LastOrNew(list: seq<Entry>, e: Entry, j: int) returns (j': int)
    requires IsLast(list, j)
    ensures IsLast(list + [e], j') && (list + [e])[j'].hash == list[j].hash
    ensures list[j].hash != e.hash ==> j' == j && (list + [e])[j] == list[j]
  {
    if list[j].hash == e.hash {
      NewLast(list, e);
      j' := |list|;
    } else {
      LastStays(list, e, j);
      j' := j;
    }
  }

  lemma NewRowKept(row: EntryRow, userID: int, feedID: int, list: seq<Entry>, updateExisting: bool,
                   clock: int -> int, e: Entry)
    requires NewRowAfter(row, userID, feedID, list, updateExisting, clock) && (!updateExisting || row.hash != e.hash)
    ensures NewRowAfter(row, userID, feedID, list + [e], updateExisting, clock)
  {
    var i, j :|
      && IsFirst(list, i) && IsLast(list, j) && list[i].hash == list[j].hash == row.hash
      && row.userID == userID && row.feedID == feedID
      && row.publishedAt == list[i].date && row.createdAt == clock(i) && row.changedAt == clock(i)
      && row.status == "unread" && !row.starred && row.shareCode == ""
      && (if updateExisting then row.content == list[j].content && Indexes(row.document, list[j].content)
          else row.content == list[i].content && Indexes(row.document, list[i].content));
    FirstStays(list, e, i);
    var j' := LastOrNew(list, e, j);
    assert IsFirst(list + [e], i) && IsLast(list + [e], j');
  }

  lemma NewRowUpdated(row: EntryRow, row2: EntryRow, userID: int, feedID: int, list: seq<Entry>, clock: int -> int, e: Entry)
    requires NewRowAfter(row, userID, feedID, list, true, clock) && row.hash == e.hash
    requires row2.content == e.content && Indexes(row2.document, e.content)
    requires row2 == row.(content := row2.content, document := row2.document)
    ensures NewRowAfter(row2, userID, feedID, list + [e], true, clock)
  {
    var i, j :|
      && IsFirst(list, i) && IsLast(list, j) && list[i].hash == list[j].hash == row.hash
      && row.userID == userID && row.feedID == feedID
      && row.publishedAt == list[i].date && row.createdAt == clock(i) && row.changedAt == clock(i)
      && row.status == "unread" && !row.starred && row.shareCode == ""
      && row.content == list[j].content && Indexes(row.document, list[j].content);
    FirstStays(list, e, i);
    NewLast(list, e);
    assert IsFirst(list + [e], i) && IsLast(list + [e], |list|);
  }

  lemma NewRowAdded(row: EntryRow, userID: int, feedID: int, list: seq<Entry>, updateExisting: bool,
                    clock: int -> int, e: Entry)
    requires IsFreshRow(row, userID, feedID, e, clock(|list|)) && !Lists(list, e.hash)
    ensures NewRowAfter(row, userID, feedID, list + [e], updateExisting, clock)
  {
    var n := |list|;
    assert IsFirst(list + [e], n) by {
      forall k | 0 <= k < n ensures (list + [e])[k].hash != (list + [e])[n].hash {
        assert list[k].hash != e.hash;
      }
    }
    NewLast(list, e);
  }

  /** The entry changed no row. */
  lemma RowsKept(db: Db, mid: Db, userID: int, feedID: int, list: seq<Entry>, updateExisting: bool,
                 clock: int -> int, e: Entry)
    requires RowsAfter(db, mid, userID, feedID, list, updateExisting, clock)
    requires !updateExisting || !HasKey(mid, (feedID, e.hash))
    ensures RowsAfter(db, mid, userID, feedID, list + [e], updateExisting, clock)
  {
    forall id | id in db.entries ensures OldRowAfter(db.entries[id], mid.entries[id], feedID, list + [e], updateExisting) {
      assert KeyOf(mid.entries[id]) == KeyOf(db.entries[id]);
      OldRowKept(db.entries[id], mid.entries[id], feedID, list, updateExisting, e);
    }
    forall id | id in mid.entries && id !in db.entries
      ensures NewRowAfter(mid.entries[id], userID, feedID, list + [e], updateExisting, clock)
    {
      assert KeyOf(mid.entries[id]) == (feedID, mid.entries[id].hash);
      NewRowKept(mid.entries[id], userID, feedID, list, updateExisting, clock, e);
    }
  }

  /** The entry updated row hit. */
  lemma RowsUpdated(db: Db, mid: Db, userID: int, feedID: int, list: seq<Entry>, clock: int -> int, e: Entry, hit: int)
    requires ValidDb(mid) && RowsAfter(db, mid, userID, feedID, list, true, clock)
    requires RowOf(mid, (feedID, e.hash), userID, hit)
    ensures RowsAfter(db, UpdateRow(mid, hit, userID, e), userID, feedID, list + [e], true, clock)
  {
    var db' := UpdateRow(mid, hit, userID, e);
    forall id | id in db.entries ensures OldRowAfter(db.entries[id], db'.entries[id], feedID, list + [e], true) {
      assert KeyOf(mid.entries[id]) == KeyOf(db.entries[id]);
      if id == hit {
        OldRowUpdated(db.entries[id], mid.entries[id], db'.entries[id], feedID, list, e);
      } else {
        assert KeyOf(mid.entries[id]) != (feedID, e.hash);
        OldRowKept(db.entries[id], mid.entries[id], feedID, list, true, e);
      }
    }
    forall id | id in db'.entries && id !in db.entries
      ensures NewRowAfter(db'.entries[id], userID, feedID, list + [e], true, clock)
    {
      assert KeyOf(mid.entries[id]) == (feedID, mid.entries[id].hash);
      if id == hit {
        NewRowUpdated(mid.entries[id], db'.entries[id], userID, feedID, list, clock, e);
      } else {
        assert KeyOf(mid.entries[id]) != (feedID, e.hash);
        NewRowKept(mid.entries[id], userID, feedID, list, true, clock, e);
      }
    }
  }

  /** The entry was stored in a new row. */
  lemma RowsGrown(db: Db, mid: Db, userID: int, feedID: int, list: seq<Entry>, updateExisting: bool,
                  clock: int -> int, e: Entry)
    requires ValidDb(db) && ValidDb(mid) && RowsAfter(db, mid, userID, feedID, list, updateExisting, clock)
    requires db.nextEntryID <= mid.nextEntryID && ListedAreKnown(mid, feedID, list) && IsNew(mid, (feedID, e.hash))
    ensures RowsAfter(db, InsertFresh(mid, userID, feedID, e, clock(|list|)), userID, feedID, list + [e], updateExisting, clock)
  {
    RowsKept(db, mid, userID, feedID, list, updateExisting, clock, e);
    assert !Lists(list, e.hash);
    NewRowAdded(NewRow(userID, feedID, e, clock(|list|)), userID, feedID, list, updateExisting, clock, e);
  }

  // ----- The whole list -----

  /** After a list that met no failure so far: every listed hash is stored or was tombstoned, and
      the rows are those of the list. */
  ghost predicate Progress(db: Db, mid: Db, userID: int, feedID: int, list: seq<Entry>, updateExisting: bool,
                           clock: int -> int)
  {
    && ValidDb(mid) && db.nextEntryID <= mid.nextEntryID && ListedAreKnown(mid, feedID, list)
    && mid.tombstones == db.tombstones && mid.feeds == db.feeds
    && RowsAfter(db, mid, userID, feedID, list, updateExisting, clock)
  }

  lemma KnownMore(mid: Db, db': Db, feedID: int, list: seq<Entry>, e: Entry)
    requires ListedAreKnown(mid, feedID, list) && db'.tombstones == mid.tombstones
    requires forall k :: HasKey(mid, k) ==> HasKey(db', k)
    requires HasKey(db', (feedID, e.hash)) || (feedID, e.hash) in db'.tombstones
    ensures ListedAreKnown(db', feedID, list + [e])
  {
    forall i | 0 <= i < |list + [e]|
      ensures HasKey(db', (feedID, (list + [e])[i].hash)) || (feedID, (list + [e])[i].hash) in db'.tombstones
    {
      if i < |list| {
        assert HasKey(mid, (feedID, list[i].hash)) || (feedID, list[i].hash) in mid.tombstones;
      }
    }
  }

  ghost predicate UpdatesRow(db: Db, userID: int, feedID: int, e: Entry, now: int, hit: int) {
    && RowOf(db, (feedID, e.hash), userID, hit)
    && RefreshOne(db, userID, feedID, e, true, now) == Committed(UpdateRow(db, hit, userID, e), false)
  }

  /** An update that finds its entry commits only if it updates a row. */
  lemma UpdateHitsRow(db: Db, userID: int, feedID: int, e: Entry, now: int) returns (hit: int)
    requires HasKey(db, (feedID, e.hash)) && RefreshOne(db, userID, feedID, e, true, now).Committed?
    ensures UpdatesRow(db, userID, feedID, e, now, hit)
  {
    hit :| RowOf(db, (feedID, e.hash), userID, hit)
           && RefreshOne(db, userID, feedID, e, true, now) == Committed(UpdateRow(db, hit, userID, e), false);
  }

  lemma OneMoreRow(db: Db, mid: Db, userID: int, feedID: int, list: seq<Entry>, updateExisting: bool,
                   clock: int -> int, e: Entry)
    requires ValidDb(db) && Progress(db, mid, userID, feedID, list, updateExisting, clock)
    ensures var one := RefreshOne(mid, userID, feedID, e, updateExisting, clock(|list|));
            one.Committed? ==> Progress(db, one.db, userID, feedID, list + [e], updateExisting, clock)
  {
    var k := (feedID, e.hash);
    if HasKey(mid, k) {
      if !updateExisting {
        KnownMore(mid, mid, feedID, list, e);
        RowsKept(db, mid, userID, feedID, list, updateExisting, clock, e);
      } else if RefreshOne(mid, userID, feedID, e, true, clock(|list|)).Committed? {
        var hit := UpdateHitsRow(mid, userID, feedID, e, clock(|list|));
        UpdateOneKeepsValid(mid, hit, userID, e);
        KnownMore(mid, UpdateRow(mid, hit, userID, e), feedID, list, e);
        RowsUpdated(db, mid, userID, feedID, list, clock, e, hit);
      }
    } else if k in mid.tombstones {
      KnownMore(mid, mid, feedID, list, e);
      RowsKept(db, mid, userID, feedID, list, updateExisting, clock, e);
    } else if feedID in mid.feeds {
      InsertFreshKeepsValid(mid, userID, feedID, e, clock(|list|));
      KnownMore(mid, InsertFresh(mid, userID, feedID, e, clock(|list|)), feedID, list, e);
      RowsGrown(db, mid, userID, feedID, list, updateExisting, clock, e);
    }
  }

  /** The whole table after a refresh that did not fail, whatever the list and whoever owns what. */
  lemma {:induction false} RefreshLeavesRows(db: Db, userID: int, feedID: int, list: seq<Entry>, updateExisting: bool,
                                             clock: int -> int, faults: set<int>)
    requires ValidDb(db) && !RefreshAll(db, userID, feedID, list, updateExisting, clock, faults).failed
    ensures Progress(db, RefreshAll(db, userID, feedID, list, updateExisting, clock, faults).db,
                     userID, feedID, list, updateExisting, clock)
  {
    if list == [] {
      NothingRefreshed(db, userID, feedID, updateExisting, clock);
    } else {
      var n := |list| - 1;
      RefreshLeavesRows(db, userID, feedID, list[..n], updateExisting, clock, faults);
      OneMoreRow(db, RefreshAll(db, userID, feedID, list[..n], updateExisting, clock, faults).db,
                 userID, feedID, list[..n], updateExisting, clock, list[n]);
      assert list[..n] + [list[n]] == list;
    }
  }

  lemma NothingRefreshed(db: Db, userID: int, feedID: int, updateExisting: bool, clock: int -> int)
    requires ValidDb(db)
    ensures Progress(db, db, userID, feedID, [], updateExisting, clock)
  {
  }
}

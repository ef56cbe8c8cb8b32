/** The tables behind internal/storage/entry.go and the effect of its single SQL statements.
    Each statement is one atomic function on the tables. */
module EntryTables {
  import opened Common
  import opened Enclosures
  import TextTruncation

  /** The unique key of an entry within its feed: (feed_id, hash). */
  type Key = (int, string)

  /** The columns a refresh rewrites. */
  datatype Content = Content(
    title: seq<Byte>, url: string, commentsURL: string, body: seq<Byte>,
    author: string, readingTime: int, tags: seq<string>, language: string)

  /** An entry as a feed parser delivers it. */
  datatype Entry = Entry(hash: string, date: int, content: Content, enclosures: seq<Enclosure>)

  datatype EntryRow = EntryRow(
    userID: int, feedID: int, hash: string, publishedAt: int, content: Content,
    document: (seq<Byte>, seq<Byte>), status: string, starred: bool, shareCode: string,
    createdAt: int, changedAt: int)

  /** feeds maps a feed to its owner. The next... fields are the sequences of the primary keys. */
  datatype Db = Db(
    feeds: map<int, int>,
    entries: map<int, EntryRow>,
    tombstones: set<Key>,
    enclosures: EnclosureTable,
    nextEntryID: int,
    nextFeedID: int)

  function KeyOf(row: EntryRow): Key { (row.feedID, row.hash) }

  predicate HasKey(db: Db, k: Key) {
    exists id :: id in db.entries && KeyOf(db.entries[id]) == k
  }

  /** The text a tsvector is computed from. */
  function Document(c: Content): (seq<Byte>, seq<Byte>) {
    (TextTruncation.Truncated(c.title, TextTruncation.TITLE_LIMIT),
     TextTruncation.Truncated(c.body, TextTruncation.CONTENT_LIMIT))
  }

  function NewRow(userID: int, feedID: int, e: Entry, now: int): EntryRow {
    EntryRow(userID, feedID, e.hash, e.date, e.content, Document(e.content), UNREAD, false, "", now, now)
  }

  // ----- What a row holds, column by column -----

  /** The text that is indexed: title and body, each cut to what the index takes. */
  predicate Indexes(document: (seq<Byte>, seq<Byte>), c: Content) {
    && document.0 == TextTruncation.Truncated(c.title, 200000)
    && document.1 == TextTruncation.Truncated(c.body, 500000)
  }

  /** The row of an entry that was stored at some time and not touched since. */
  predicate IsFreshRow(row: EntryRow, userID: int, feedID: int, e: Entry, now: int) {
    && row.userID == userID && row.feedID == feedID && row.hash == e.hash
    && row.publishedAt == e.date && row.createdAt == now && row.changedAt == now
    && row.status == "unread" && !row.starred && row.shareCode == ""
    && row.content == e.content && Indexes(row.document, e.content)
  }

  /** An entry of the feed has the hash. */
  ghost predicate IsStored(db: Db, feedID: int, hash: string) {
    exists id :: id in db.entries && db.entries[id].feedID == feedID && db.entries[id].hash == hash
  }

  lemma StoredIsHasKey(db: Db, feedID: int, hash: string)
    ensures HasKey(db, (feedID, hash)) <==> IsStored(db, feedID, hash)
  {
    if HasKey(db, (feedID, hash)) {
      var id :| id in db.entries && KeyOf(db.entries[id]) == (feedID, hash);
      assert db.entries[id].feedID == feedID && db.entries[id].hash == hash;
    }
    if IsStored(db, feedID, hash) {
      var id :| id in db.entries && db.entries[id].feedID == feedID && db.entries[id].hash == hash;
      assert KeyOf(db.entries[id]) == (feedID, hash);
    }
  }

  // ----- Statements -----

  /** INSERT INTO entries with the id already drawn, then the enclosures of the entry. */
  function InsertRow(db: Db, id: int, userID: int, feedID: int, e: Entry, now: int): Db {
    db.(entries := db.entries[id := NewRow(userID, feedID, e, now)],
        enclosures := CreateAll(db.enclosures, userID, id, e.enclosures))
  }

  /** UPDATE entries SET the refreshed columns, then updateEnclosures. */
  function UpdateRow(db: Db, id: int, userID: int, e: Entry): Db
    requires id in db.entries
  {
    db.(entries := db.entries[id := db.entries[id].(content := e.content, document := Document(e.content))],
        enclosures := Update(db.enclosures, userID, id, e.enclosures))
  }

  /** DELETE FROM entries, with the cascade to their enclosures. */
  function DeleteEntries(db: Db, ids: set<int>): Db {
    db.(entries := db.entries - ids, enclosures := DeleteOfEntries(db.enclosures, ids))
  }

  /** The keys of deleted rows that get a tombstone: WHERE hash <> ''. */
  function TombstoneKeys(db: Db, ids: set<int>): set<Key> {
    set id | id in ids && id in db.entries && db.entries[id].hash != "" :: KeyOf(db.entries[id])
  }

  /** Delete rows and record their tombstones, ON CONFLICT DO NOTHING. */
  function DeleteWithTombstones(db: Db, ids: set<int>): Db {
    DeleteEntries(db, ids).(tombstones := db.tombstones + TombstoneKeys(db, ids))
  }

  /** The feeds rows go; entries, enclosures and tombstones of the feeds cascade. */
  function DeleteFeeds(db: Db, feedIDs: set<int>): Db {
    var gone := set id | id in db.entries && db.entries[id].feedID in feedIDs;
    DeleteEntries(db, gone).(
      feeds := db.feeds - feedIDs,
      tombstones := set k | k in db.tombstones && k.0 !in feedIDs)
  }

  /** UPDATE entries SET status, changed_at WHERE user_id AND id = ANY */
  function SetStatus(db: Db, userID: int, ids: set<int>, status: string, now: int): Db {
    db.(entries := map id | id in db.entries :: if db.entries[id].userID == userID && id in ids
                                                then db.entries[id].(status := status, changedAt := now)
                                                else db.entries[id])
  }

  /** UPDATE entries SET starred, changed_at WHERE user_id AND id = ANY */
  function SetStarred(db: Db, userID: int, ids: set<int>, starred: bool, now: int): Db {
    db.(entries := map id | id in db.entries :: if db.entries[id].userID == userID && id in ids
                                                then db.entries[id].(starred := starred, changedAt := now)
                                                else db.entries[id])
  }

  /** UPDATE entries SET share_code WHERE user_id AND id */
  function SetShareCode(db: Db, userID: int, id: int, code: string): Db {
    if id in db.entries && db.entries[id].userID == userID
    then db.(entries := db.entries[id := db.entries[id].(shareCode := code)])
    else db
  }

  /** UPDATE entries SET title, content, reading_time, document_vectors WHERE id AND user_id */
  function SetText(db: Db, userID: int, id: int, title: seq<Byte>, body: seq<Byte>, readingTime: int): Db {
    if id in db.entries && db.entries[id].userID == userID
    then
      var content := db.entries[id].content.(title := title, body := body, readingTime := readingTime);
      db.(entries := db.entries[id := db.entries[id].(content := content, document := Document(content))])
    else db
  }

  /** Never deleted by archiving or by flushing the history. */
  predicate Protected(row: EntryRow) { row.starred || row.shareCode != "" }

  // ----- Schema constraints and the tombstone invariant -----

  ghost predicate ValidDb(db: Db) {
    && UniqueKeys(db)
    && NoLivingTombstone(db)
    && ForeignKeys(db)
    && (forall k :: k in db.tombstones ==> k.1 != "")
    && (forall id :: id in db.entries ==> id < db.nextEntryID)
    && (forall f :: f in db.feeds ==> f < db.nextFeedID)
    && ValidTable(db.enclosures)
  }

  /** unique (feed_id, hash) */
  ghost predicate UniqueKeys(db: Db) {
    forall i, j :: i in db.entries && j in db.entries && KeyOf(db.entries[i]) == KeyOf(db.entries[j]) ==> i == j
  }

  /** No (feed, hash) is both an entry and a tombstone. */
  ghost predicate NoLivingTombstone(db: Db) {
    forall id :: id in db.entries ==> KeyOf(db.entries[id]) !in db.tombstones
  }

  ghost predicate ForeignKeys(db: Db) {
    && (forall id :: id in db.entries ==> db.entries[id].feedID in db.feeds)
    && (forall k :: k in db.tombstones ==> k.0 in db.feeds)
    && (forall id :: id in db.enclosures.rows ==> db.enclosures.rows[id].entryID in db.entries)
  }

  // ----- Every statement keeps the constraints -----

  lemma InsertRowKeepsValid(db: Db, id: int, userID: int, feedID: int, e: Entry, now: int)
    requires ValidDb(db)
    requires id !in db.entries && id < db.nextEntryID
    requires feedID in db.feeds && !HasKey(db, (feedID, e.hash)) && (feedID, e.hash) !in db.tombstones
    ensures ValidDb(InsertRow(db, id, userID, feedID, e, now))
    ensures forall k :: HasKey(InsertRow(db, id, userID, feedID, e, now), k) <==> HasKey(db, k) || k == (feedID, e.hash)
  {
    var db' := InsertRow(db, id, userID, feedID, e, now);
    CreateAllKeepsValid(db.enclosures, userID, id, e.enclosures);
    CreateAllExtends(db.enclosures, userID, id, e.enclosures);
    forall i | i in db'.enclosures.rows ensures db'.enclosures.rows[i].entryID in db'.entries {
      if i !in db.enclosures.rows {
        assert MadeFor(db.enclosures, db'.enclosures.rows[i], userID, id, e.enclosures);
      }
    }
    assert KeyOf(db'.entries[id]) == (feedID, e.hash);
    forall k | HasKey(db, k) ensures HasKey(db', k) {
      var i :| i in db.entries && KeyOf(db.entries[i]) == k;
      assert i in db'.entries && db'.entries[i] == db.entries[i];
    }
  }

  lemma UpdateRowKeepsValid(db: Db, id: int, userID: int, e: Entry)
    requires ValidDb(db) && id in db.entries
    ensures ValidDb(UpdateRow(db, id, userID, e))
    ensures forall k :: HasKey(UpdateRow(db, id, userID, e), k) <==> HasKey(db, k)
  {
    var db' := UpdateRow(db, id, userID, e);
    UpdateResult(db.enclosures, userID, id, e.enclosures);
    forall i | i in db'.enclosures.rows ensures db'.enclosures.rows[i].entryID in db'.entries {
      if i !in db.enclosures.rows {
        assert MadeFor(db.enclosures, db'.enclosures.rows[i], userID, id, e.enclosures);
      }
    }
    SameKeys(db, db');
  }

  lemma SameKeys(db: Db, db': Db)
    requires db.entries.Keys == db'.entries.Keys
    requires forall i :: i in db.entries ==> KeyOf(db.entries[i]) == KeyOf(db'.entries[i])
    ensures forall k :: HasKey(db', k) <==> HasKey(db, k)
  {
    forall k | HasKey(db', k) ensures HasKey(db, k) {
      var i :| i in db'.entries && KeyOf(db'.entries[i]) == k;
      assert i in db.entries && KeyOf(db.entries[i]) == k;
    }
    forall k | HasKey(db, k) ensures HasKey(db', k) {
      var i :| i in db.entries && KeyOf(db.entries[i]) == k;
      assert i in db'.entries && KeyOf(db'.entries[i]) == k;
    }
  }

  lemma DeleteWithTombstonesKeepsValid(db: Db, ids: set<int>)
    requires ValidDb(db)
    ensures ValidDb(DeleteWithTombstones(db, ids))
    ensures forall k :: HasKey(DeleteWithTombstones(db, ids), k) ==> HasKey(db, k)
  {
    var db' := DeleteWithTombstones(db, ids);
    forall k | HasKey(db', k) ensures HasKey(db, k) {
      var i :| i in db'.entries && KeyOf(db'.entries[i]) == k;
      assert i in db.entries && KeyOf(db.entries[i]) == k;
    }
  }

  lemma DeleteFeedsKeepsValid(db: Db, feedIDs: set<int>)
    requires ValidDb(db)
    ensures ValidDb(DeleteFeeds(db, feedIDs))
    ensures forall k :: HasKey(DeleteFeeds(db, feedIDs), k) ==> HasKey(db, k) && k.0 !in feedIDs
    ensures forall id :: id in DeleteFeeds(db, feedIDs).entries <==> id in db.entries && db.entries[id].feedID !in feedIDs
  {
    var db' := DeleteFeeds(db, feedIDs);
    forall k | HasKey(db', k) ensures HasKey(db, k) && k.0 !in feedIDs {
      var i :| i in db'.entries && KeyOf(db'.entries[i]) == k;
      assert i in db.entries && KeyOf(db.entries[i]) == k;
    }
  }

  /** Updates that leave ids and keys alone: status, starred flag, share code, text. */
  lemma RowUpdatesKeepValid(db: Db, db': Db)
    requires ValidDb(db)
    requires db' == db.(entries := db'.entries) && db.entries.Keys == db'.entries.Keys
    requires forall i :: i in db.entries ==> KeyOf(db.entries[i]) == KeyOf(db'.entries[i])
    ensures ValidDb(db')
    ensures forall k :: HasKey(db', k) <==> HasKey(db, k)
  {
    SameKeys(db, db');
    forall id | id in db'.entries
      ensures KeyOf(db'.entries[id]) !in db'.tombstones && db'.entries[id].feedID in db'.feeds && id < db'.nextEntryID
    {
      assert id in db.entries && KeyOf(db.entries[id]) == KeyOf(db'.entries[id]);
    }
  }
}

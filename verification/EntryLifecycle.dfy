/** The life of entries under concurrency: refreshes, imports and feed creations run as
    transactions of several statements, interleaved with archiving, history flushes, feed
    removals and user updates (internal/storage/entry.go). Statements are atomic; a statement
    that PostgreSQL would make wait for a lock is not enabled until the lock is free. */
module EntryLifecycle {
  import opened Common
  import opened Enclosures
  import opened EntryTables
  import opened EntryArchive

  /** Who opened the transaction: RefreshFeedEntries, InsertEntryForFeed or CreateFeed. */
  datatype Kind = Refresh(updateExisting: bool) | Import | Creation

  /** Where the transaction is. An insert or update is invisible to others until committed. */
  datatype Phase =
    | Begun
    | Absent                       // the existence check found no row
    | Present                      // the existence check found a row
    | Inserted(id: int, now: int)
    | Updated(id: int)
    | Unchanged                    // nothing to write: existing or tombstoned entry

  datatype Tx = Tx(kind: Kind, userID: int, feedID: int, entry: Entry, phase: Phase)

  /** The committed tables and the open transactions. */
  datatype State = State(db: Db, txs: map<int, Tx>)

  datatype Action =
    | Begin(t: int, kind: Kind, userID: int, feedID: int, entry: Entry)
    | Check(t: int)
    | WriteInsert(t: int, now: int)
    | WriteUpdate(t: int)
    | KeepExisting(t: int)
    | Commit(t: int)
    | Rollback(t: int)
    | Archive(status: string, interval: int, limit: int, now: int, chosen: set<int>)
    | Flush(userID: int)
    | RemoveFeed(userID: int, feedID: int)
    | RemoveFeeds(feedIDs: set<int>)   // what removing a category or a user cascades to
    | AddFeed(userID: int)
    | Mark(userID: int, ids: set<int>, status: string, now: int)
    | Star(userID: int, ids: set<int>, starred: bool, now: int)
    | Share(userID: int, id: int, code: string)
    | Rewrite(userID: int, id: int, title: seq<Byte>, body: seq<Byte>, readingTime: int)

  function TxKey(tx: Tx): Key { (tx.feedID, tx.entry.hash) }

  /** Rows locked by uncommitted updates. */
  function Locked(s: State): set<int> {
    set t | t in s.txs && s.txs[t].phase.Updated? :: s.txs[t].phase.id
  }

  /** The row an UPDATE ... WHERE user_id AND feed_id AND hash hits. */
  predicate Hits(db: Db, tx: Tx, id: int) {
    id in db.entries && KeyOf(db.entries[id]) == TxKey(tx) && db.entries[id].userID == tx.userID
  }

  /** Another open transaction inserted the same key: the insert waits for it. */
  predicate InsertWaits(s: State, t: int)
    requires t in s.txs
  {
    exists u :: u in s.txs && u != t && s.txs[u].phase.Inserted? && TxKey(s.txs[u]) == TxKey(s.txs[t])
  }

  /** Another open transaction holds the row. */
  predicate UpdateWaits(s: State, t: int)
    requires t in s.txs
  {
    exists u :: u in s.txs && u != t && s.txs[u].phase.Updated? && Hits(s.db, s.txs[t], s.txs[u].phase.id)
  }

  /** An uncommitted write holds the feed row or one of its entries. */
  predicate FeedIsBusy(s: State, feedID: int) {
    exists u :: u in s.txs && (s.txs[u].phase.Inserted? || s.txs[u].phase.Updated?) && s.txs[u].feedID == feedID
  }

  function Flushable(db: Db, userID: int): set<int> {
    set id | id in db.entries && db.entries[id].userID == userID && db.entries[id].status == READ && !Protected(db.entries[id])
  }

  ghost predicate Enabled(s: State, a: Action) {
    match a
    case Begin(t, _, _, _, _) => t !in s.txs
    case Check(t) => t in s.txs && s.txs[t].phase.Begun?
    case WriteInsert(t, _) => t in s.txs && s.txs[t].phase.Absent? && !InsertWaits(s, t)
    case WriteUpdate(t) =>
      t in s.txs && s.txs[t].phase.Present? && s.txs[t].kind == Refresh(true) && !UpdateWaits(s, t)
    case KeepExisting(t) => t in s.txs && s.txs[t].phase.Present? && s.txs[t].kind != Refresh(true)
    case Commit(t) =>
      t in s.txs && (s.txs[t].phase.Inserted? || s.txs[t].phase.Updated? || s.txs[t].phase.Unchanged?)
    case Rollback(t) => t in s.txs
    case Archive(status, interval, limit, now, chosen) =>
      interval >= 0 && limit > 0 ==>
        OldestOf(s.db, Eligible(s.db, status, Cutoff(now, interval)) - Locked(s), limit, chosen)
    case Flush(userID) => Flushable(s.db, userID) !! Locked(s)
    case RemoveFeed(_, feedID) => !FeedIsBusy(s, feedID)
    case RemoveFeeds(feedIDs) => forall f :: f in feedIDs ==> !FeedIsBusy(s, f)
    case AddFeed(_) => true
    case Mark(_, ids, _, _) => ids !! Locked(s)
    case Star(_, ids, _, _) => ids !! Locked(s)
    case Share(_, id, _) => id !in Locked(s)
    case Rewrite(_, id, _, _, _) => id !in Locked(s)
  }

  function WithPhase(s: State, t: int, phase: Phase): State
    requires t in s.txs
  {
    s.(txs := s.txs[t := s.txs[t].(phase := phase)])
  }

  function Close(s: State, t: int): State { s.(txs := s.txs - {t}) }

  /** SELECT true FROM entries WHERE feed_id AND hash */
  ghost function AfterCheck(s: State, t: int): State
    requires t in s.txs
  {
    WithPhase(s, t, if HasKey(s.db, TxKey(s.txs[t])) then Present else Absent)
  }

  /** The guarded INSERT. A tombstone stops it without an error: a refresh goes on to commit
      nothing, the other callers roll back. A missing feed or a committed row with the same key
      violates a constraint: the transaction rolls back. */
  ghost function AfterInsert(s: State, t: int, now: int): State
    requires t in s.txs
  {
    var tx := s.txs[t];
    if TxKey(tx) in s.db.tombstones then
      if tx.kind.Refresh? then WithPhase(s, t, Unchanged) else Close(s, t)
    else if tx.feedID !in s.db.feeds || HasKey(s.db, TxKey(tx)) then Close(s, t)
    else
      WithPhase(s, t, Inserted(s.db.nextEntryID, now)).(db := s.db.(nextEntryID := s.db.nextEntryID + 1))
  }

  /** The UPDATE. When the row is gone by now, RETURNING finds nothing and the caller rolls back. */
  ghost function AfterUpdate(s: State, t: int): State
    requires t in s.txs
  {
    if id :| Hits(s.db, s.txs[t], id) then WithPhase(s, t, Updated(id)) else Close(s, t)
  }

  function AfterCommit(s: State, t: int): State
    requires t in s.txs
  {
    var tx := s.txs[t];
    match tx.phase
    case Inserted(id, now) => Close(s, t).(db := InsertRow(s.db, id, tx.userID, tx.feedID, tx.entry, now))
    case Updated(id) =>
      if id in s.db.entries then Close(s, t).(db := UpdateRow(s.db, id, tx.userID, tx.entry)) else Close(s, t)
    case _ => Close(s, t)
  }

  ghost function Next(s: State, a: Action): State
    requires Enabled(s, a)
  {
    match a
    case Begin(t, kind, userID, feedID, entry) => s.(txs := s.txs[t := Tx(kind, userID, feedID, entry, Begun)])
    case Check(t) => AfterCheck(s, t)
    case WriteInsert(t, now) => AfterInsert(s, t, now)
    case WriteUpdate(t) => AfterUpdate(s, t)
    case KeepExisting(t) => WithPhase(s, t, Unchanged)
    case Commit(t) => AfterCommit(s, t)
    case Rollback(t) => Close(s, t)
    case Archive(status, interval, limit, now, chosen) =>
      if interval < 0 || limit <= 0 then s else s.(db := DeleteWithTombstones(s.db, chosen))
    case Flush(userID) => s.(db := DeleteWithTombstones(s.db, Flushable(s.db, userID)))
    case RemoveFeed(userID, feedID) =>
      if feedID in s.db.feeds && s.db.feeds[feedID] == userID then s.(db := DeleteFeeds(s.db, {feedID})) else s
    case RemoveFeeds(feedIDs) => s.(db := DeleteFeeds(s.db, feedIDs))
    case AddFeed(userID) =>
      s.(db := s.db.(feeds := s.db.feeds[s.db.nextFeedID := userID], nextFeedID := s.db.nextFeedID + 1))
    case Mark(userID, ids, status, now) => s.(db := SetStatus(s.db, userID, ids, status, now))
    case Star(userID, ids, starred, now) => s.(db := SetStarred(s.db, userID, ids, starred, now))
    case Share(userID, id, code) => s.(db := SetShareCode(s.db, userID, id, code))
    case Rewrite(userID, id, title, body, readingTime) => s.(db := SetText(s.db, userID, id, title, body, readingTime))
  }

  // ----- The inductive invariant -----

  ghost predicate Inv(s: State) {
    && ValidDb(s.db)
    && (forall t :: t in s.txs && s.txs[t].phase.Inserted? ==> PendingInsertOk(s, t))
    && (forall t :: t in s.txs && s.txs[t].phase.Updated? ==> Hits(s.db, s.txs[t], s.txs[t].phase.id))
    && (forall t, u :: t in s.txs && u in s.txs && SameTarget(s.txs[t], s.txs[u]) ==> t == u)
  }

  /** An uncommitted insert still has its key for itself: no committed row, no tombstone, and
      the feed exists. */
  ghost predicate PendingInsertOk(s: State, t: int)
    requires t in s.txs && s.txs[t].phase.Inserted?
  {
    && s.txs[t].phase.id !in s.db.entries && s.txs[t].phase.id < s.db.nextEntryID
    && s.txs[t].feedID in s.db.feeds
    && !HasKey(s.db, TxKey(s.txs[t])) && TxKey(s.txs[t]) !in s.db.tombstones
  }

  /** Two uncommitted writes that would exclude each other. */
  ghost predicate SameTarget(a: Tx, b: Tx) {
    || (a.phase.Inserted? && b.phase.Inserted? && (TxKey(a) == TxKey(b) || a.phase.id == b.phase.id))
    || (a.phase.Updated? && b.phase.Updated? && a.phase.id == b.phase.id)
  }

  /** The empty database with no transaction satisfies the invariant. */
  lemma InvHoldsInitially()
    ensures Inv(State(Db(map[], map[], {}, EnclosureTable(map[], 1), 1, 1), map[]))
  {
  }

  /** Steps that only move one transaction to a phase without a pending write. */
  lemma PhaseChangeKeepsInv(s: State, s': State, t: int)
    requires Inv(s) && s'.db == s.db
    requires forall u :: u in s'.txs && u != t ==> u in s.txs && s'.txs[u] == s.txs[u]
    requires t in s'.txs ==> !s'.txs[t].phase.Inserted? && !s'.txs[t].phase.Updated?
    ensures Inv(s')
  {
    forall u | u in s'.txs && s'.txs[u].phase.Inserted? ensures PendingInsertOk(s', u) {
      assert PendingInsertOk(s, u);
    }
  }

  lemma InsertKeepsInv(s: State, t: int, now: int)
    requires Inv(s) && Enabled(s, WriteInsert(t, now))
    ensures Inv(AfterInsert(s, t, now))
  {
    var s' := AfterInsert(s, t, now);
    if t in s'.txs && s'.txs[t].phase.Inserted? {
      SameKeys(s.db, s'.db);
      forall u | u in s'.txs && s'.txs[u].phase.Inserted? ensures PendingInsertOk(s', u) {
        if u != t { assert PendingInsertOk(s, u); }
      }
      forall u | u in s'.txs && s'.txs[u].phase.Updated? ensures Hits(s'.db, s'.txs[u], s'.txs[u].phase.id) {
        assert Hits(s.db, s.txs[u], s.txs[u].phase.id);
      }
      forall u, v | u in s'.txs && v in s'.txs && SameTarget(s'.txs[u], s'.txs[v]) ensures u == v {
        if u != t && v != t {
          assert SameTarget(s.txs[u], s.txs[v]);
        }
      }
    } else {
      PhaseChangeKeepsInv(s, s', t);
    }
  }

  lemma UpdateKeepsInv(s: State, t: int)
    requires Inv(s) && Enabled(s, WriteUpdate(t))
    ensures Inv(AfterUpdate(s, t))
  {
    var s' := AfterUpdate(s, t);
    if t in s'.txs {
      forall u | u in s'.txs && s'.txs[u].phase.Inserted? ensures PendingInsertOk(s', u) {
        assert PendingInsertOk(s, u);
      }
      forall u, v | u in s'.txs && v in s'.txs && SameTarget(s'.txs[u], s'.txs[v]) ensures u == v {
        if u != t && v != t {
          assert SameTarget(s.txs[u], s.txs[v]);
        }
      }
    } else {
      PhaseChangeKeepsInv(s, s', t);
    }
  }

  lemma CommittedInsertKeepsInv(s: State, t: int)
    requires Inv(s) && Enabled(s, Commit(t)) && s.txs[t].phase.Inserted?
    ensures Inv(AfterCommit(s, t))
  {
    var tx := s.txs[t];
    assert PendingInsertOk(s, t);
    InsertRowKeepsValid(s.db, tx.phase.id, tx.userID, tx.feedID, tx.entry, tx.phase.now);
    OtherTxsKeepInv(s, AfterCommit(s, t), t);
  }

  lemma CommittedUpdateKeepsInv(s: State, t: int)
    requires Inv(s) && Enabled(s, Commit(t)) && s.txs[t].phase.Updated?
    ensures Inv(AfterCommit(s, t))
  {
    var tx := s.txs[t];
    assert Hits(s.db, tx, tx.phase.id);
    UpdateRowKeepsValid(s.db, tx.phase.id, tx.userID, tx.entry);
    OtherTxsKeepInv(s, AfterCommit(s, t), t);
  }

  lemma CommitKeepsInv(s: State, t: int)
    requires Inv(s) && Enabled(s, Commit(t))
    ensures Inv(AfterCommit(s, t))
  {
    if s.txs[t].phase.Inserted? {
      CommittedInsertKeepsInv(s, t);
    } else if s.txs[t].phase.Updated? {
      CommittedUpdateKeepsInv(s, t);
    } else {
      PhaseChangeKeepsInv(s, AfterCommit(s, t), t);
    }
  }

  /** A commit adds at most its own key and leaves the rows that others hold alone. */
  lemma OtherTxsKeepInv(s: State, s': State, t: int)
    requires Inv(s) && t in s.txs && ValidDb(s'.db) && s'.txs == s.txs - {t}
    requires s.txs[t].phase.Inserted? || s.txs[t].phase.Updated?
    requires s'.db.feeds == s.db.feeds && s'.db.tombstones == s.db.tombstones && s'.db.nextEntryID == s.db.nextEntryID
    requires s'.db.entries.Keys == s.db.entries.Keys + {s.txs[t].phase.id}
    requires forall id :: id in s.db.entries ==>
               KeyOf(s'.db.entries[id]) == KeyOf(s.db.entries[id]) && s'.db.entries[id].userID == s.db.entries[id].userID
    requires forall k :: HasKey(s'.db, k) ==> HasKey(s.db, k) || (k == TxKey(s.txs[t]) && s.txs[t].phase.Inserted?)
    ensures Inv(s')
  {
    forall u | u in s'.txs && s'.txs[u].phase.Inserted? ensures PendingInsertOk(s', u) {
      assert PendingInsertOk(s, u);
      if s.txs[t].phase.Inserted? {
        assert !SameTarget(s.txs[u], s.txs[t]);
      }
    }
    forall u, v | u in s'.txs && v in s'.txs && SameTarget(s'.txs[u], s'.txs[v]) ensures u == v {
      assert SameTarget(s.txs[u], s.txs[v]);
    }
  }

  /** Deleting unlocked rows, possibly with their tombstones, touches no pending write. */
  lemma DeletionKeepsInv(s: State, s': State)
    requires Inv(s) && s'.txs == s.txs && ValidDb(s'.db)
    requires s'.db.nextEntryID == s.db.nextEntryID
    requires forall id :: id in Locked(s) && id in s.db.entries ==> id in s'.db.entries
    requires forall id :: id in s'.db.entries ==> id in s.db.entries && s'.db.entries[id] == s.db.entries[id]
    requires forall k :: HasKey(s'.db, k) ==> HasKey(s.db, k)
    requires forall k :: k in s'.db.tombstones ==> k in s.db.tombstones || HasKey(s.db, k)
    requires forall t :: t in s.txs && s.txs[t].phase.Inserted? ==> s.txs[t].feedID in s'.db.feeds
    ensures Inv(s')
  {
    forall u | u in s'.txs && s'.txs[u].phase.Inserted? ensures PendingInsertOk(s', u) {
      assert PendingInsertOk(s, u);
    }
    forall u | u in s'.txs && s'.txs[u].phase.Updated? ensures Hits(s'.db, s'.txs[u], s'.txs[u].phase.id) {
      assert Hits(s.db, s.txs[u], s.txs[u].phase.id);
      assert s.txs[u].phase.id in Locked(s);
    }
  }

  lemma ArchivingKeepsInv(s: State, ids: set<int>)
    requires Inv(s) && ids <= s.db.entries.Keys - Locked(s)
    ensures Inv(s.(db := DeleteWithTombstones(s.db, ids)))
  {
    var s' := s.(db := DeleteWithTombstones(s.db, ids));
    DeleteWithTombstonesKeepsValid(s.db, ids);
    forall t | t in s.txs && s.txs[t].phase.Inserted? ensures s.txs[t].feedID in s'.db.feeds {
      assert PendingInsertOk(s, t);
    }
    DeletionKeepsInv(s, s');
  }

  lemma RemoveFeedsKeepsInv(s: State, feedIDs: set<int>)
    requires Inv(s) && forall f :: f in feedIDs ==> !FeedIsBusy(s, f)
    ensures Inv(s.(db := DeleteFeeds(s.db, feedIDs)))
  {
    var s' := s.(db := DeleteFeeds(s.db, feedIDs));
    DeleteFeedsKeepsValid(s.db, feedIDs);
    forall t | t in s.txs && (s.txs[t].phase.Inserted? || s.txs[t].phase.Updated?) ensures s.txs[t].feedID !in feedIDs {
      assert FeedIsBusy(s, s.txs[t].feedID);
    }
    forall t | t in s.txs && s.txs[t].phase.Inserted? ensures s.txs[t].feedID in s'.db.feeds {
      assert PendingInsertOk(s, t);
    }
    forall id | id in Locked(s) && id in s.db.entries ensures id in s'.db.entries {
      var t :| t in s.txs && s.txs[t].phase.Updated? && s.txs[t].phase.id == id;
      assert Hits(s.db, s.txs[t], id);
    }
    DeletionKeepsInv(s, s');
  }

  lemma UserUpdateKeepsInv(s: State, s': State)
    requires Inv(s) && s'.txs == s.txs
    requires s'.db == s.db.(entries := s'.db.entries) && s.db.entries.Keys == s'.db.entries.Keys
    requires forall i :: i in s.db.entries ==>
               KeyOf(s.db.entries[i]) == KeyOf(s'.db.entries[i]) && s.db.entries[i].userID == s'.db.entries[i].userID
    ensures Inv(s')
  {
    RowUpdatesKeepValid(s.db, s'.db);
    forall u | u in s'.txs && s'.txs[u].phase.Inserted? ensures PendingInsertOk(s', u) {
      assert PendingInsertOk(s, u);
    }
    forall u | u in s'.txs && s'.txs[u].phase.Updated? ensures Hits(s'.db, s'.txs[u], s'.txs[u].phase.id) {
      assert Hits(s.db, s.txs[u], s.txs[u].phase.id);
    }
  }

  lemma AddFeedKeepsInv(s: State, userID: int)
    requires Inv(s)
    ensures Inv(Next(s, AddFeed(userID)))
  {
    var s' := Next(s, AddFeed(userID));
    SameKeys(s.db, s'.db);
    forall u | u in s'.txs && s'.txs[u].phase.Inserted? ensures PendingInsertOk(s', u) {
      assert PendingInsertOk(s, u);
    }
    forall u | u in s'.txs && s'.txs[u].phase.Updated? ensures Hits(s'.db, s'.txs[u], s'.txs[u].phase.id) {
      assert Hits(s.db, s.txs[u], s.txs[u].phase.id);
    }
  }

  predicate OfTransaction(a: Action) {
    a.Begin? || a.Check? || a.WriteInsert? || a.WriteUpdate? || a.KeepExisting? || a.Commit? || a.Rollback?
  }

  lemma TransactionStepKeepsInv(s: State, a: Action)
    requires Inv(s) && Enabled(s, a) && OfTransaction(a)
    ensures Inv(Next(s, a))
  {
    match a
    case Begin(t, _, _, _, _) => PhaseChangeKeepsInv(s, Next(s, a), t);
    case Check(t) => PhaseChangeKeepsInv(s, Next(s, a), t);
    case WriteInsert(t, now) => InsertKeepsInv(s, t, now);
    case WriteUpdate(t) => UpdateKeepsInv(s, t);
    case KeepExisting(t) => PhaseChangeKeepsInv(s, Next(s, a), t);
    case Commit(t) => CommitKeepsInv(s, t);
    case Rollback(t) => PhaseChangeKeepsInv(s, Next(s, a), t);
  }

  predicate OfDeletion(a: Action) { a.Archive? || a.Flush? || a.RemoveFeed? || a.RemoveFeeds? }

  lemma DeletionStepKeepsInv(s: State, a: Action)
    requires Inv(s) && Enabled(s, a) && OfDeletion(a)
    ensures Inv(Next(s, a))
  {
    match a
    case Archive(_, interval, limit, _, chosen) =>
      if interval >= 0 && limit > 0 { ArchivingKeepsInv(s, chosen); }
    case Flush(userID) => ArchivingKeepsInv(s, Flushable(s.db, userID));
    case RemoveFeed(_, feedID) => RemoveFeedsKeepsInv(s, {feedID});
    case RemoveFeeds(feedIDs) => RemoveFeedsKeepsInv(s, feedIDs);
  }

  lemma UserStepKeepsInv(s: State, a: Action)
    requires Inv(s) && Enabled(s, a) && !OfTransaction(a) && !OfDeletion(a)
    ensures Inv(Next(s, a))
  {
    if a.AddFeed? {
      AddFeedKeepsInv(s, a.userID);
    } else {
      UserUpdateKeepsInv(s, Next(s, a));
    }
  }

  /** Every step of every client keeps the invariant. */
  lemma StepKeepsInv(s: State, a: Action)
    requires Inv(s) && Enabled(s, a)
    ensures Inv(Next(s, a))
  {
    if OfTransaction(a) {
      TransactionStepKeepsInv(s, a);
    } else if OfDeletion(a) {
      DeletionStepKeepsInv(s, a);
    } else {
      UserStepKeepsInv(s, a);
    }
  }
}

/** The steps of the entry lifecycle in the columns of the tables, and when a client can take
    them (internal/storage/entry.go). */
module EntryLifecycleSteps {
  import opened Common
  import opened Enclosures
  import opened EntryTables
  import opened EntryArchive
  import opened EntryLifecycle

  /** Key k belongs to a row that is gone. */
  ghost predicate LostKey(db: Db, db': Db, k: Key) {
    exists id :: id in db.entries && id !in db'.entries && db.entries[id].feedID == k.0 && db.entries[id].hash == k.1
  }

  /** Every row that is left is as it was, and the keys of the lost ones are buried, except empty
      hashes. Feeds, ids and open transactions are as before. */
  ghost predicate OnlyBuries(s: State, s': State) {
    && s'.txs == s.txs && s'.db.feeds == s.db.feeds
    && s'.db.nextEntryID == s.db.nextEntryID && s'.db.nextFeedID == s.db.nextFeedID
    && (forall id :: id in s'.db.entries ==> id in s.db.entries && s'.db.entries[id] == s.db.entries[id])
    && (forall k :: k in s'.db.tombstones <==> k in s.db.tombstones || (k.1 != "" && LostKey(s.db, s'.db, k)))
  }

  lemma BuryingDeletes(s: State, ids: set<int>)
    requires ids <= s.db.entries.Keys
    ensures OnlyBuries(s, s.(db := DeleteWithTombstones(s.db, ids)))
    ensures forall id :: id in s.db.entries ==> (id in DeleteWithTombstones(s.db, ids).entries <==> id !in ids)
  {
    var s' := s.(db := DeleteWithTombstones(s.db, ids));
    forall k ensures k in TombstoneKeys(s.db, ids) <==> k.1 != "" && LostKey(s.db, s'.db, k) {
      if k in TombstoneKeys(s.db, ids) {
        var id :| id in ids && id in s.db.entries && s.db.entries[id].hash != "" && KeyOf(s.db.entries[id]) == k;
        assert id !in s'.db.entries && s.db.entries[id].feedID == k.0 && s.db.entries[id].hash == k.1;
      }
      if k.1 != "" && LostKey(s.db, s'.db, k) {
        var id :| id in s.db.entries && id !in s'.db.entries && s.db.entries[id].feedID == k.0 && s.db.entries[id].hash == k.1;
        assert id in ids && KeyOf(s.db.entries[id]) == k;
      }
    }
  }

  lemma ArchiveStep(s: State, a: Action)
    requires Enabled(s, a) && a.Archive? && a.interval >= 0 && a.limit > 0
    ensures OnlyBuries(s, Next(s, a))
    ensures TakesTheOldest(s.db, Next(s, a).db, a.chosen, a.status, a.interval, a.limit, a.now, Locked(s))
    ensures forall id :: id in s.db.entries ==> (id in Next(s, a).db.entries <==> id !in a.chosen)
  {
    ChosenAreTheOldest(s.db, a.status, a.interval, a.limit, a.now, Locked(s), a.chosen);
    BuryingDeletes(s, a.chosen);
  }

  /** Of the user's rows the read ones go that are neither starred nor shared. */
  lemma FlushStep(s: State, userID: int)
    requires Enabled(s, Flush(userID))
    ensures var s' := Next(s, Flush(userID));
            && OnlyBuries(s, s')
            && forall id :: id in s.db.entries ==>
                 (id !in s'.db.entries <==>
                    var row := s.db.entries[id];
                    row.userID == userID && row.status == "read" && !row.starred && row.shareCode == "")
  {
    BuryingDeletes(s, Flushable(s.db, userID));
  }

  /** The feeds go with their entries and tombstones, and nothing else does. */
  ghost predicate OnlyFeedsGo(s: State, s': State, feedIDs: set<int>) {
    && s'.txs == s.txs && s'.db.nextEntryID == s.db.nextEntryID && s'.db.nextFeedID == s.db.nextFeedID
    && (forall f :: f in s'.db.feeds <==> f in s.db.feeds && f !in feedIDs)
    && (forall f :: f in s'.db.feeds ==> s'.db.feeds[f] == s.db.feeds[f])
    && (forall id :: id in s'.db.entries <==> id in s.db.entries && s.db.entries[id].feedID !in feedIDs)
    && (forall id :: id in s'.db.entries ==> s'.db.entries[id] == s.db.entries[id])
    && (forall k :: k in s'.db.tombstones <==> k in s.db.tombstones && k.0 !in feedIDs)
  }

  /** A user removes no feed of another one. */
  lemma RemoveStep(s: State, a: Action)
    requires Enabled(s, a) && (a.RemoveFeed? || a.RemoveFeeds?)
    ensures a.RemoveFeeds? ==> OnlyFeedsGo(s, Next(s, a), a.feedIDs)
    ensures a.RemoveFeed? && a.feedID in s.db.feeds && s.db.feeds[a.feedID] == a.userID ==>
              OnlyFeedsGo(s, Next(s, a), {a.feedID})
    ensures a.RemoveFeed? && !(a.feedID in s.db.feeds && s.db.feeds[a.feedID] == a.userID) ==> Next(s, a) == s
  {
  }

  // ----- Transactions -----

  lemma CheckStep(s: State, t: int)
    requires Enabled(s, Check(t))
    ensures var s' := Next(s, Check(t));
            var found := IsStored(s.db, s.txs[t].feedID, s.txs[t].entry.hash);
            s'.db == s.db && s'.txs == s.txs[t := s.txs[t].(phase := if found then Present else Absent)]
  {
    StoredIsHasKey(s.db, s.txs[t].feedID, s.txs[t].entry.hash);
  }

  /** The guarded insert: a tombstone makes a refresh skip the entry and stops the other callers,
      a missing feed or a stored key stops everyone, and otherwise the next id is taken. */
  lemma InsertStep(s: State, t: int, now: int)
    requires Enabled(s, WriteInsert(t, now))
    ensures var tx, s' := s.txs[t], Next(s, WriteInsert(t, now));
            var dead := (tx.feedID, tx.entry.hash) in s.db.tombstones;
            var refused := tx.feedID !in s.db.feeds || IsStored(s.db, tx.feedID, tx.entry.hash);
            && s'.txs - {t} == s.txs - {t} && s'.db == s.db.(nextEntryID := s'.db.nextEntryID)
            && (t !in s'.txs <==> if dead then !tx.kind.Refresh? else refused)
            && (t in s'.txs ==>
                  s'.txs[t] == tx.(phase := if dead then Unchanged else Inserted(s.db.nextEntryID, now)))
            && s'.db.nextEntryID == if dead || refused then s.db.nextEntryID else s.db.nextEntryID + 1
  {
    StoredIsHasKey(s.db, s.txs[t].feedID, s.txs[t].entry.hash);
  }

  /** The row with the transaction's feed, hash and user is taken; without one the transaction
      is over. */
  lemma UpdateStep(s: State, t: int)
    requires Enabled(s, WriteUpdate(t))
    ensures var tx, s' := s.txs[t], Next(s, WriteUpdate(t));
            && s'.db == s.db && s'.txs - {t} == s.txs - {t}
            && (t in s'.txs ==>
                  && s'.txs[t] == tx.(phase := s'.txs[t].phase) && s'.txs[t].phase.Updated?
                  && s'.txs[t].phase.id in s.db.entries
                  && var row := s.db.entries[s'.txs[t].phase.id];
                     row.feedID == tx.feedID && row.hash == tx.entry.hash && row.userID == tx.userID)
            && (t !in s'.txs ==>
                  forall id :: id in s.db.entries && KeyOf(s.db.entries[id]) == (tx.feedID, tx.entry.hash) ==>
                    s.db.entries[id].userID != tx.userID)
  {
    var tx := s.txs[t];
    forall id | id in s.db.entries && KeyOf(s.db.entries[id]) == (tx.feedID, tx.entry.hash)
                && s.db.entries[id].userID == tx.userID
      ensures Hits(s.db, tx, id)
    {
    }
  }

  /** A commit shows the pending row, or the new text of the updated one, and closes. */
  lemma CommitStep(s: State, t: int)
    requires Inv(s) && Enabled(s, Commit(t))
    ensures var tx, s' := s.txs[t], Next(s, Commit(t));
            && s'.txs == s.txs - {t}
            && s'.db == s.db.(entries := s'.db.entries, enclosures := s'.db.enclosures)
            && (tx.phase.Inserted? ==>
                  && tx.phase.id !in s.db.entries && tx.phase.id in s'.db.entries
                  && IsFreshRow(s'.db.entries[tx.phase.id], tx.userID, tx.feedID, tx.entry, tx.phase.now)
                  && s'.db.entries - {tx.phase.id} == s.db.entries)
            && (tx.phase.Updated? ==>
                  && tx.phase.id in s.db.entries && tx.phase.id in s'.db.entries
                  && s'.db.entries - {tx.phase.id} == s.db.entries - {tx.phase.id}
                  && var row := s'.db.entries[tx.phase.id];
                     && row == s.db.entries[tx.phase.id].(content := tx.entry.content, document := row.document)
                     && Indexes(row.document, tx.entry.content))
            && (!tx.phase.Inserted? && !tx.phase.Updated? ==> s'.db == s.db)
  {
    if s.txs[t].phase.Inserted? {
      assert PendingInsertOk(s, t);
    } else if s.txs[t].phase.Updated? {
      assert Hits(s.db, s.txs[t], s.txs[t].phase.id);
    }
  }

  // ----- The reader -----

  /** The reader who is named changes rows of his own only: the listed ones and in the columns
      that the call is about. */
  ghost predicate ChangesRow(row: EntryRow, row': EntryRow, id: int, a: Action) {
    match a
    case Mark(userID, ids, status, now) =>
      row' == if id in ids && row.userID == userID then row.(status := status, changedAt := now) else row
    case Star(userID, ids, starred, now) =>
      row' == if id in ids && row.userID == userID then row.(starred := starred, changedAt := now) else row
    case Share(userID, i, code) => row' == if id == i && row.userID == userID then row.(shareCode := code) else row
    case Rewrite(userID, i, title, body, readingTime) =>
      if id == i && row.userID == userID then
        && row' == row.(content := row.content.(title := title, body := body, readingTime := readingTime),
                        document := row'.document)
        && Indexes(row'.document, row'.content)
      else row' == row
    case _ => row' == row
  }

  lemma ReaderStep(s: State, a: Action)
    requires Enabled(s, a) && (a.Mark? || a.Star? || a.Share? || a.Rewrite? || a.AddFeed?)
    ensures var s' := Next(s, a);
            && s'.txs == s.txs && s'.db.entries.Keys == s.db.entries.Keys
            && (forall id :: id in s.db.entries ==> ChangesRow(s.db.entries[id], s'.db.entries[id], id, a))
            && (a.AddFeed? ==>
                  && s.db.nextFeedID < s'.db.nextFeedID
                  && s'.db == s.db.(feeds := s.db.feeds[s.db.nextFeedID := a.userID], nextFeedID := s'.db.nextFeedID))
            && (!a.AddFeed? ==> s'.db == s.db.(entries := s'.db.entries))
  {
  }

  // ----- Progress -----

  lemma {:induction false} OldestExists(db: Db, ids: set<int>) returns (oldest: int)
    requires ids != {} && ids <= db.entries.Keys
    ensures oldest in ids && forall id :: id in ids ==> db.entries[oldest].createdAt <= db.entries[id].createdAt
    decreases |ids|
  {
    oldest := Pick(ids);
    if ids != {oldest} {
      var other := OldestExists(db, ids - {oldest});
      if db.entries[other].createdAt < db.entries[oldest].createdAt {
        oldest := other;
      }
    }
  }

  lemma {:induction false} ChoiceExists(db: Db, candidates: set<int>, limit: nat) returns (chosen: set<int>)
    requires candidates <= db.entries.Keys
    ensures OldestOf(db, candidates, limit, chosen)
    decreases limit
  {
    chosen := {};
    if limit > 0 && candidates != {} {
      var oldest := OldestExists(db, candidates);
      var rest := ChoiceExists(db, candidates - {oldest}, limit - 1);
      chosen := rest + {oldest};
    }
  }

  /** Archiving never waits: it passes over locked rows. */
  lemma ArchivingIsNeverBlocked(s: State, status: string, interval: int, limit: int, now: int)
    ensures exists chosen :: Enabled(s, Archive(status, interval, limit, now, chosen))
  {
    if interval >= 0 && limit > 0 {
      var chosen := ChoiceExists(s.db, Eligible(s.db, status, Cutoff(now, interval)) - Locked(s), limit);
      assert Enabled(s, Archive(status, interval, limit, now, chosen));
    } else {
      assert Enabled(s, Archive(status, interval, limit, now, {}));
    }
  }

  /** A transaction can always give up, and it can go on unless another one holds its key or
      its row. */
  lemma TransactionsGoOn(s: State, t: int, now: int)
    requires t in s.txs
    ensures Enabled(s, Rollback(t))
    ensures match s.txs[t].phase
            case Begun => Enabled(s, Check(t))
            case Absent =>
              || Enabled(s, WriteInsert(t, now))
              || exists u :: u in s.txs && u != t && s.txs[u].phase.Inserted?
                             && s.txs[u].feedID == s.txs[t].feedID && s.txs[u].entry.hash == s.txs[t].entry.hash
            case Present =>
              if s.txs[t].kind == Refresh(true) then
                || Enabled(s, WriteUpdate(t))
                || exists u :: u in s.txs && u != t && s.txs[u].phase.Updated? && Hits(s.db, s.txs[t], s.txs[u].phase.id)
              else Enabled(s, KeepExisting(t))
            case _ => Enabled(s, Commit(t))
  {
  }

  /** Only uncommitted writes make others wait: without them everyone can act, whatever
      transactions are open. */
  lemma ReadersBlockNobody(s: State, a: Action)
    requires forall t :: t in s.txs ==> !s.txs[t].phase.Inserted? && !s.txs[t].phase.Updated?
    requires !OfTransaction(a) && !a.Archive?
    ensures Enabled(s, a)
  {
  }

  /** A client can start a transaction under any name that is free. */
  lemma AnyoneCanBegin(s: State, t: int, kind: Kind, userID: int, feedID: int, entry: Entry)
    requires t !in s.txs
    ensures var a := Begin(t, kind, userID, feedID, entry);
            && Enabled(s, a)
            && Next(s, a).db == s.db && Next(s, a).txs == s.txs[t := Tx(kind, userID, feedID, entry, Begun)]
  {
  }
}

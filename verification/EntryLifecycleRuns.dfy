/** Consequences of the entry lifecycle over whole runs. */
module EntryLifecycleRuns {
  import opened EntryTables
  import opened EntryArchive
  import opened EntryLifecycle

  /** Any interleaving of steps from a state that satisfies the invariant. */
  ghost predicate Run(states: seq<State>, actions: seq<Action>) {
    && |states| == |actions| + 1
    && Inv(states[0])
    && forall i :: 0 <= i < |actions| ==> Enabled(states[i], actions[i]) && states[i + 1] == Next(states[i], actions[i])
  }

  lemma {:induction false} RunKeepsInv(states: seq<State>, actions: seq<Action>, j: nat)
    requires Run(states, actions) && j < |states|
    ensures Inv(states[j])
  {
    if j > 0 {
      RunKeepsInv(states, actions, j - 1);
      StepKeepsInv(states[j - 1], actions[j - 1]);
    }
  }

  /** Two transactions with an uncommitted insert of the same (feed, hash). */
  predicate InsertSameKey(txs: map<int, Tx>, t: int, u: int) {
    && t in txs && txs[t].phase.Inserted? && u in txs && txs[u].phase.Inserted?
    && TxKey(txs[t]) == TxKey(txs[u])
  }

  /** In every interleaving no (feed, hash) is both an entry and a tombstone, and (feed, hash)
      stays unique among the committed and the pending rows: neither a row and a pending insert
      nor two pending inserts share one. */
  lemma KeysStayUniqueAndDead(states: seq<State>, actions: seq<Action>, j: nat)
    requires Run(states, actions) && j < |states|
    ensures UniqueKeys(states[j].db) && NoLivingTombstone(states[j].db) && ForeignKeys(states[j].db)
    ensures forall t :: t in states[j].txs && states[j].txs[t].phase.Inserted? ==>
              !HasKey(states[j].db, TxKey(states[j].txs[t])) && TxKey(states[j].txs[t]) !in states[j].db.tombstones
    ensures forall t, u :: InsertSameKey(states[j].txs, t, u) ==> t == u
  {
    RunKeepsInv(states, actions, j);
    forall t, u | InsertSameKey(states[j].txs, t, u) ensures t == u {
      assert SameTarget(states[j].txs[t], states[j].txs[u]);
    }
    forall t | t in states[j].txs && states[j].txs[t].phase.Inserted?
      ensures !HasKey(states[j].db, TxKey(states[j].txs[t])) && TxKey(states[j].txs[t]) !in states[j].db.tombstones
    {
      assert PendingInsertOk(states[j], t);
    }
  }

  /** The feed is gone for good: its id will not be given out again. */
  predicate FeedIsGone(s: State, feedID: int) { feedID !in s.db.feeds && feedID < s.db.nextFeedID }

  lemma StepKeepsTombstone(s: State, a: Action, k: Key)
    requires Inv(s) && Enabled(s, a) && (k in s.db.tombstones || FeedIsGone(s, k.0))
    ensures k in Next(s, a).db.tombstones || FeedIsGone(Next(s, a), k.0)
  {
    if k in s.db.tombstones {
      assert k.0 in s.db.feeds && k.0 < s.db.nextFeedID;
    }
  }

  lemma {:induction false} TombstoneStays(states: seq<State>, actions: seq<Action>, i: nat, j: nat, k: Key)
    requires Run(states, actions) && i <= j < |states| && k in states[i].db.tombstones
    ensures k in states[j].db.tombstones || FeedIsGone(states[j], k.0)
    decreases j
  {
    if i < j {
      TombstoneStays(states, actions, i, j - 1, k);
      RunKeepsInv(states, actions, j - 1);
      StepKeepsTombstone(states[j - 1], actions[j - 1], k);
    }
  }

  /** The main safety theorem: an entry with a hash that step i archived or flushed is in no
      later state, committed or pending, as long as its feed exists. */
  lemma ArchivedEntryNeverReappears(states: seq<State>, actions: seq<Action>, i: nat, id: int, j: nat)
    requires Run(states, actions) && i < j < |states|
    requires actions[i].Archive? || actions[i].Flush?
    requires id in states[i].db.entries && id !in states[i + 1].db.entries
    requires states[i].db.entries[id].hash != ""
    requires states[i].db.entries[id].feedID in states[j].db.feeds
    ensures !HasKey(states[j].db, KeyOf(states[i].db.entries[id]))
    ensures forall t :: t in states[j].txs && states[j].txs[t].phase.Inserted? ==>
              TxKey(states[j].txs[t]) != KeyOf(states[i].db.entries[id])
  {
    var k := KeyOf(states[i].db.entries[id]);
    assert k in states[i + 1].db.tombstones;
    TombstoneStays(states, actions, i + 1, j, k);
    RunKeepsInv(states, actions, j);
    forall t | t in states[j].txs && states[j].txs[t].phase.Inserted? ensures TxKey(states[j].txs[t]) != k {
      assert PendingInsertOk(states[j], t);
    }
  }

  /** A deletion spares a protected entry unless it removes its feed. */
  lemma DeletionSparesProtected(s: State, a: Action, id: int)
    requires Inv(s) && Enabled(s, a) && OfDeletion(a)
    requires id in s.db.entries && Protected(s.db.entries[id])
    ensures || (id in Next(s, a).db.entries && Next(s, a).db.entries[id] == s.db.entries[id])
            || FeedIsGone(Next(s, a), s.db.entries[id].feedID)
  {
    match a
    case Archive(status, interval, limit, now, chosen) =>
      assert interval >= 0 && limit > 0 ==> id !in Eligible(s.db, status, Cutoff(now, interval));
    case Flush(_) =>
    case RemoveFeed(_, _) =>
    case RemoveFeeds(_) =>
  }

  /** What is no deletion keeps every entry, with its key. */
  lemma OthersKeepEntries(s: State, a: Action, id: int)
    requires Inv(s) && Enabled(s, a) && !OfDeletion(a) && id in s.db.entries
    ensures id in Next(s, a).db.entries && KeyOf(Next(s, a).db.entries[id]) == KeyOf(s.db.entries[id])
  {
    if a.Commit? && s.txs[a.t].phase.Inserted? {
      assert PendingInsertOk(s, a.t);
    }
  }

  /** One step: a protected entry stays, with its key, unless its feed is removed. */
  lemma StepKeepsProtected(s: State, a: Action, id: int)
    requires Inv(s) && Enabled(s, a)
    requires id in s.db.entries && Protected(s.db.entries[id])
    ensures || (id in Next(s, a).db.entries && KeyOf(Next(s, a).db.entries[id]) == KeyOf(s.db.entries[id]))
            || FeedIsGone(Next(s, a), s.db.entries[id].feedID)
  {
    if OfDeletion(a) {
      DeletionSparesProtected(s, a, id);
    } else {
      OthersKeepEntries(s, a, id);
    }
  }

  lemma StepKeepsFeedGone(s: State, a: Action, feedID: int)
    requires Enabled(s, a) && FeedIsGone(s, feedID)
    ensures FeedIsGone(Next(s, a), feedID)
  {
  }

  /** Over any run: an entry that is starred or shared at every step from i on is never
      deleted, unless its feed is removed. */
  lemma {:induction false} ProtectedEntrySurvives(states: seq<State>, actions: seq<Action>, i: nat, id: int, j: nat)
    requires Run(states, actions) && i <= j < |states|
    requires id in states[i].db.entries
    requires forall m :: i <= m < j && id in states[m].db.entries ==> Protected(states[m].db.entries[id])
    ensures || (id in states[j].db.entries && KeyOf(states[j].db.entries[id]) == KeyOf(states[i].db.entries[id]))
            || FeedIsGone(states[j], states[i].db.entries[id].feedID)
    decreases j
  {
    if i < j {
      ProtectedEntrySurvives(states, actions, i, id, j - 1);
      RunKeepsInv(states, actions, j - 1);
      if FeedIsGone(states[j - 1], states[i].db.entries[id].feedID) {
        StepKeepsFeedGone(states[j - 1], actions[j - 1], states[i].db.entries[id].feedID);
      } else {
        StepKeepsProtected(states[j - 1], actions[j - 1], id);
      }
    }
  }

  /** No step of a refresh, import or feed creation changes what the reader did to an entry, or
      when it was published and stored. */
  lemma TransactionsKeepReaderState(s: State, a: Action, id: int)
    requires Inv(s) && Enabled(s, a) && id in s.db.entries
    requires OfTransaction(a)
    ensures id in Next(s, a).db.entries
    ensures Next(s, a).db.entries[id] == s.db.entries[id].(content := Next(s, a).db.entries[id].content,
                                                          document := Next(s, a).db.entries[id].document)
  {
    if a.Commit? && s.txs[a.t].phase.Inserted? {
      assert PendingInsertOk(s, a.t);
    }
  }

  // ----- How long an entry stays at least -----

  /** Whatever row has or gets this id was stored at this time. */
  ghost predicate Stamped(s: State, id: int, now: int) {
    && id < s.db.nextEntryID
    && (id in s.db.entries ==> s.db.entries[id].createdAt == now)
    && forall t :: t in s.txs && s.txs[t].phase.Inserted? && s.txs[t].phase.id == id ==> s.txs[t].phase.now == now
  }

  lemma StepKeepsStamp(s: State, a: Action, id: int, now: int)
    requires Inv(s) && Enabled(s, a) && Stamped(s, id, now)
    ensures Stamped(Next(s, a), id, now)
  {
    if OfTransaction(a) {
      TransactionKeepsStamp(s, a, id, now);
    } else {
      OthersKeepStamp(s, a, id, now);
    }
  }

  lemma TransactionKeepsStamp(s: State, a: Action, id: int, now: int)
    requires Inv(s) && Enabled(s, a) && OfTransaction(a) && Stamped(s, id, now)
    ensures Stamped(Next(s, a), id, now)
  {
  }

  lemma OthersKeepStamp(s: State, a: Action, id: int, now: int)
    requires Inv(s) && Enabled(s, a) && !OfTransaction(a) && Stamped(s, id, now)
    ensures Stamped(Next(s, a), id, now)
  {
  }

  lemma {:induction false} RunStepKeepsStamp(states: seq<State>, actions: seq<Action>, j: nat, id: int, now: int)
    requires Run(states, actions) && 0 < j < |states| && Stamped(states[j - 1], id, now)
    ensures Stamped(states[j], id, now)
  {
    RunKeepsInv(states, actions, j - 1);
    StepKeepsStamp(states[j - 1], actions[j - 1], id, now);
  }

  lemma {:induction false} StampStays(states: seq<State>, actions: seq<Action>, i: nat, j: nat, id: int, now: int)
    requires Run(states, actions) && i <= j < |states| && Stamped(states[i], id, now)
    ensures Stamped(states[j], id, now)
    decreases j - i
  {
    if i < j {
      RunStepKeepsStamp(states, actions, i + 1, id, now);
      StampStays(states, actions, i + 1, j, id, now);
    }
  }

  /** In any run: the entry whose insert took place at time stored is not archived within a day
      (86,400 seconds) of that time, nor within the whole days of the interval, whoever read,
      starred or refreshed it in between. */
  lemma NewEntryIsNotArchivedSoon(states: seq<State>, actions: seq<Action>, i: nat, t: int, id: int, stored: int, j: nat)
    requires Run(states, actions) && i <= j < |actions|
    requires t in states[i].txs && states[i].txs[t].phase == Inserted(id, stored)
    requires actions[j].Archive? && id in states[j].db.entries && id !in states[j + 1].db.entries
    ensures actions[j].now - stored > 86_400_000_000_000
    ensures actions[j].now - stored > actions[j].interval / 86_400_000_000_000 * 86_400_000_000_000
  {
    RunKeepsInv(states, actions, i);
    assert PendingInsertOk(states[i], t);
    forall u | u in states[i].txs && states[i].txs[u].phase.Inserted? && states[i].txs[u].phase.id == id
      ensures states[i].txs[u].phase.now == stored
    {
      assert SameTarget(states[i].txs[t], states[i].txs[u]);
    }
    StampStays(states, actions, i, j, id, stored);
    var a := actions[j];
    ChosenAreTheOldest(states[j].db, a.status, a.interval, a.limit, a.now, Locked(states[j]), a.chosen);
  }

  /** In any run the count that ArchiveEntries returns is the number of rows with a hash that
      it deleted. */
  lemma ArchiveCountIsExact(states: seq<State>, actions: seq<Action>, i: nat)
    requires Run(states, actions) && i < |actions|
    requires actions[i].Archive? && actions[i].interval >= 0 && actions[i].limit > 0
    ensures NewTombstones(states[i].db, actions[i].chosen) ==
            |WithHash(states[i].db, states[i].db.entries.Keys - states[i + 1].db.entries.Keys)|
  {
    RunKeepsInv(states, actions, i);
    var chosen := actions[i].chosen;
    CountIsDeletedRows(states[i].db, chosen);
    assert states[i].db.entries.Keys - states[i + 1].db.entries.Keys == chosen;
  }
}

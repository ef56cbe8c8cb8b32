/** The batch of feeds to refresh, limited per host (internal/storage/batch.go). */
module Batch {
  import opened Common
  import opened Ordering
  import opened SqlConditions
  import opened Filters
  import opened Catalog
  import EntryQueries
  import FeedQueries

  datatype Job = Job(feedID: int, userID: int, feedURL: string)

  /** urllib.Domain: the host of a feed URL. */
  type Domain = string -> string

  function JobOf(cat: Catalog, urls: map<int, string>, id: int): Job {
    Job(id, FeedQueries.FeedRowOf(cat, id).f.userID, if id in urls then urls[id] else "")
  }

  function JobsOf(cat: Catalog, urls: map<int, string>, ids: seq<int>): seq<Job> {
    seq(|ids|, i requires 0 <= i < |ids| => JobOf(cat, urls, ids[i]))
  }

  /** ORDER BY next_check_at ASC */
  function ByNextCheck(cat: Catalog): (int, int) -> bool {
    (a, b) => FeedQueries.FeedRowOf(cat, a).f.nextCheckAt <= FeedQueries.FeedRowOf(cat, b).f.nextCheckAt
  }

  function HostCount(jobs: seq<Job>, domain: Domain, host: string): nat {
    if jobs == [] then 0
    else HostCount(jobs[..|jobs| - 1], domain, host) + if domain(jobs[|jobs| - 1].feedURL) == host then 1 else 0
  }

  /** The rows that have fewer than limit earlier rows of the same host, in their order. */
  function Limited(rows: seq<Job>, domain: Domain, limit: int): seq<Job> {
    if rows == [] then []
    else
      var init, job := rows[..|rows| - 1], rows[|rows| - 1];
      Limited(init, domain, limit) + if limit <= 0 || HostCount(init, domain, domain(job.feedURL)) < limit then [job] else []
  }

  /** The number of jobs whose URL has the host. */
  lemma {:induction false} HostCountIsNumber(jobs: seq<Job>, domain: Domain, host: string)
    ensures HostCount(jobs, domain, host) == |OnHost(jobs, domain, host)|
  {
    if jobs != [] {
      HostCountIsNumber(jobs[..|jobs| - 1], domain, host);
      OneMoreOnHost(jobs, domain, host);
    }
  }

  /** The positions of these jobs. */
  function OnHost(jobs: seq<Job>, domain: Domain, host: string): set<int> {
    set i | 0 <= i < |jobs| && domain(jobs[i].feedURL) == host
  }

  lemma {:induction false} OneMoreOnHost(jobs: seq<Job>, domain: Domain, host: string)
    requires jobs != []
    ensures |OnHost(jobs, domain, host)| ==
            |OnHost(jobs[..|jobs| - 1], domain, host)| + if domain(jobs[|jobs| - 1].feedURL) == host then 1 else 0
  {
    var last := |jobs| - 1;
    var before := OnHost(jobs[..last], domain, host);
    assert OnHost(jobs, domain, host) == if domain(jobs[last].feedURL) == host then before + {last} else before;
  }

  // ----- The batch in columns -----

  ghost predicate LongestDueFirst(cat: Catalog, all: seq<int>) {
    forall i, j :: 0 <= i < j < |all| && all[i] in cat.feeds && all[j] in cat.feeds ==>
      cat.feeds[all[i]].nextCheckAt <= cat.feeds[all[j]].nextCheckAt
  }

  /** Each row holds the id, the owner and the URL of its feed. */
  ghost predicate RowsOf(cat: Catalog, urls: map<int, string>, ids: seq<int>, rows: seq<Job>) {
    && |rows| == |ids|
    && forall i :: 0 <= i < |ids| ==>
         && rows[i].feedID == ids[i]
         && (ids[i] in cat.feeds ==> rows[i].userID == cat.feeds[ids[i]].userID)
         && (ids[i] in urls ==> rows[i].feedURL == urls[ids[i]])
  }

  /** The first feeds of a list of these, longest due first: a positive size keeps so many. */
  ghost predicate IsBatchOf(cat: Catalog, urls: map<int, string>, ids: set<int>, size: int, rows: seq<Job>) {
    exists all, page ::
      Enumerates(all, ids) && LongestDueFirst(cat, all) && IsPageOf(page, all, size, 0) && RowsOf(cat, urls, page, rows)
  }

  lemma BatchInColumns(cat: Catalog, urls: map<int, string>, ids: set<int>, all: seq<int>, size: int)
    requires Consistent(cat) && IsOrdering(all, ids, ByNextCheck(cat))
    ensures IsBatchOf(cat, urls, ids, size, JobsOf(cat, urls, Window(all, size, 0)))
  {
    OrderedByNextCheck(cat, all);
    var page := Window(all, size, 0);
    WindowIsPage(page, all, size, 0);
    JobsAreRows(cat, urls, page);
  }

  lemma OrderedByNextCheck(cat: Catalog, all: seq<int>)
    requires Consistent(cat) && Sorted(all, ByNextCheck(cat))
    ensures LongestDueFirst(cat, all)
  {
    forall i, j | 0 <= i < j < |all| && all[i] in cat.feeds && all[j] in cat.feeds
      ensures cat.feeds[all[i]].nextCheckAt <= cat.feeds[all[j]].nextCheckAt
    {
      assert ByNextCheck(cat)(all[i], all[j]);
      FeedQueries.FeedRow(cat, all[i]);
      FeedQueries.FeedRow(cat, all[j]);
    }
  }

  lemma JobsAreRows(cat: Catalog, urls: map<int, string>, ids: seq<int>)
    requires Consistent(cat)
    ensures RowsOf(cat, urls, ids, JobsOf(cat, urls, ids))
  {
    forall i | 0 <= i < |ids| && ids[i] in cat.feeds ensures JobOf(cat, urls, ids[i]).userID == cat.feeds[ids[i]].userID {
      FeedQueries.FeedRow(cat, ids[i]);
    }
  }

  /** The restricting calls of this builder. */
  predicate IsBatchFilter(f: Filter) {
    f.FeedOwner? || f.InCategory? || f.ErrorLimit? || f.NextCheckExpired? || f.NotDisabled?
  }

  ghost predicate BatchChain(fs: seq<Filter>) {
    forall f :: f in fs ==> IsBatchFilter(f)
  }

  class BatchBuilder {
    var args: seq<Value>
    var conditions: seq<Condition>
    var batchSize: int
    var limitPerHost: int
    ghost var filters: seq<Filter>

    ghost predicate Valid()
      reads this
    {
      Compiled(conditions, args) == Compile(filters) && BatchChain(filters)
    }

    constructor ()
      ensures Valid() && filters == [] && batchSize == 0 && limitPerHost == 0
      ensures forall now: int, row: Row :: AllHold(filters, now, row)
    {
      args, conditions, batchSize, limitPerHost := [], [], 0, 0;
      filters := [];
    }

    method WithBatchSize(batchSize: int)
      requires Valid()
      modifies `batchSize
      ensures Valid() && this.batchSize == batchSize
    {
      this.batchSize := batchSize;
    }

    /** The step that the With... methods share: append conditions and their arguments. */
    method Append(cs: seq<Condition>, vs: seq<Value>, ghost f: Filter)
      requires Valid() && IsBatchFilter(f) && NewConditions(|args| + 1, f) == cs && NewArgs(f) == vs
      modifies `args, `conditions, `filters
      ensures Valid() && filters == old(filters) + [f]
    {
      EntryQueries.Appends(Compiled(conditions, args), filters, f, cs, vs);
      conditions := conditions + cs;
      args := args + vs;
      filters := filters + [f];
    }

    method WithUserID(userID: int)
      requires Valid()
      modifies `args, `conditions, `filters
      ensures Valid() && filters == old(filters) + [FeedOwner(userID)]
      ensures Narrows(old(filters), filters, (now, row: Row) => row.f.userID == userID)
    {
      Narrowed(filters, FeedOwner(userID), (now, row: Row) => row.f.userID == userID);
      Append([[A(Compare(FUserId, Eq, |args| + 1))]], [IntVal(userID)], FeedOwner(userID));
    }

    method WithCategoryID(categoryID: int)
      requires Valid()
      modifies `args, `conditions, `filters
      ensures Valid() && filters == old(filters) + [InCategory(categoryID)]
      ensures Narrows(old(filters), filters, (now, row: Row) => row.f.categoryID == categoryID)
    {
      Narrowed(filters, InCategory(categoryID), (now, row: Row) => row.f.categoryID == categoryID);
      Append([[A(Compare(FCategoryId, Eq, |args| + 1))]], [IntVal(categoryID)], InCategory(categoryID));
    }

    method WithErrorLimit(limit: int)
      requires Valid()
      modifies `args, `conditions, `filters
      ensures Valid() && filters == old(filters) + [ErrorLimit(limit)]
      ensures Narrows(old(filters), filters, (now, row: Row) => limit <= 0 || row.f.parsingErrorCount < limit)
    {
      Narrowed(filters, ErrorLimit(limit), (now, row: Row) => limit <= 0 || row.f.parsingErrorCount < limit);
      if limit > 0 {
        Append([[A(Compare(FParsingErrorCount, Lt, |args| + 1))]], [IntVal(limit)], ErrorLimit(limit));
      } else {
        EntryQueries.NoOpAppendsNothing(|args| + 1, ErrorLimit(limit));
        EntryQueries.Appends(Compiled(conditions, args), filters, ErrorLimit(limit), [], []);
        assert conditions + [] == conditions;
        filters := filters + [ErrorLimit(limit)];
      }
    }

    method WithNextCheckExpired()
      requires Valid()
      modifies `args, `conditions, `filters
      ensures Valid() && filters == old(filters) + [NextCheckExpired]
      ensures Narrows(old(filters), filters, (now, row: Row) => row.f.nextCheckAt < now)
    {
      Narrowed(filters, NextCheckExpired, (now, row: Row) => row.f.nextCheckAt < now);
      Append([[A(BeforeNow(FNextCheckAt))]], [], NextCheckExpired);
    }

    method WithoutDisabledFeeds()
      requires Valid()
      modifies `args, `conditions, `filters
      ensures Valid() && filters == old(filters) + [NotDisabled]
      ensures Narrows(old(filters), filters, (now, row: Row) => !row.f.disabled)
    {
      Narrowed(filters, NotDisabled, (now, row: Row) => !row.f.disabled);
      Append([[A(IsBool(FDisabled, false))]], [], NotDisabled);
    }

    method WithLimitPerHost(limit: int)
      requires Valid()
      modifies `limitPerHost
      ensures Valid() && limitPerHost == if limit > 0 then limit else old(limitPerHost)
    {
      if limit > 0 {
        limitPerHost := limit;
      }
    }

    /** SELECT id, user_id, feed_url: without conditions there is no WHERE. */
    method SelectRows(cat: Catalog, now: int) returns (all: seq<int>)
      requires Valid()
      ensures IsOrdering(all, FeedQueries.MatchingFeeds(cat, filters, now), ByNextCheck(cat))
    {
      var ids := set id | id in cat.feeds;
      if |conditions| > 0 {
        var ctx := Context({F}, args, now);
        ids := set id | id in cat.feeds && Where(conditions, ctx, FeedQueries.FeedRowOf(cat, id)) == Some(true);
      }
      BatchWhere(filters, cat, now);
      assert ids == FeedQueries.MatchingFeeds(cat, filters, now);
      all := Order(ids, ByNextCheck(cat));
    }

    /** The batch: of the longest-due matching feeds, each that has fewer than the limit of
        earlier rows of its host. */
    method FetchJobs(cat: Catalog, urls: map<int, string>, domain: Domain, now: int) returns (jobs: seq<Job>)
      requires Valid()
      ensures exists all :: IsOrdering(all, FeedQueries.MatchingFeeds(cat, filters, now), ByNextCheck(cat))
                && jobs == Limited(JobsOf(cat, urls, Window(all, batchSize, 0)), domain, limitPerHost)
      ensures Consistent(cat) ==> exists rows ::
                && IsBatchOf(cat, urls, FeedQueries.MatchingFeeds(cat, filters, now), batchSize, rows)
                && jobs == Limited(rows, domain, limitPerHost)
    {
      var all := SelectRows(cat, now);
      var rows := JobsOf(cat, urls, Window(all, batchSize, 0));
      jobs := LimitJobs(rows, domain, limitPerHost);
      if Consistent(cat) {
        BatchInColumns(cat, urls, FeedQueries.MatchingFeeds(cat, filters, now), all, batchSize);
      }
    }
  }

  /** The loop over the rows, with its map of jobs accepted so far for each host. */
  method LimitJobs(rows: seq<Job>, domain: Domain, limitPerHost: int) returns (jobs: seq<Job>)
    ensures jobs == Limited(rows, domain, limitPerHost)
  {
    jobs := [];
    var hosts: map<string, int> := map[];
    for i := 0 to |rows|
      invariant jobs == Limited(rows[..i], domain, limitPerHost)
      invariant limitPerHost > 0 ==> forall h ::
                  (if h in hosts then hosts[h] else 0) == Min(limitPerHost, HostCount(rows[..i], domain, h))
    {
      var job := rows[i];
      assert rows[..i + 1][..i] == rows[..i];
      if limitPerHost > 0 {
        var host := domain(job.feedURL);
        var accepted := if host in hosts then hosts[host] else 0;
        if accepted >= limitPerHost {
          continue;
        }
        hosts := hosts[host := accepted + 1];
      }
      jobs := jobs + [job];
    }
    assert rows[..|rows|] == rows;
  }

  // ----- What the limit guarantees -----

  /** Each host gets as many jobs as it has rows, up to the limit: none above it, and none left
      out below it. */
  lemma {:induction false} HostsShareTheBatch(rows: seq<Job>, domain: Domain, limit: int, host: string)
    requires limit > 0
    ensures HostCount(Limited(rows, domain, limit), domain, host) == Min(limit, HostCount(rows, domain, host))
  {
    if rows != [] {
      var init, job := rows[..|rows| - 1], rows[|rows| - 1];
      HostsShareTheBatch(init, domain, limit, host);
      var kept := Limited(init, domain, limit);
      if HostCount(init, domain, domain(job.feedURL)) < limit {
        assert (kept + [job])[..|kept|] == kept;
      } else {
        assert kept + [] == kept;
      }
    }
  }

  /** Positions of rows, increasing, that hold exactly the kept jobs. */
  ghost predicate PicksFrom(picks: seq<nat>, rows: seq<Job>, jobs: seq<Job>) {
    && |picks| == |jobs|
    && (forall i :: 0 <= i < |picks| ==> picks[i] < |rows| && rows[picks[i]] == jobs[i])
    && forall i, j :: 0 <= i < j < |picks| ==> picks[i] < picks[j]
  }

  /** Fewer than limit earlier rows have the host of row i. */
  predicate Fits(rows: seq<Job>, domain: Domain, limit: int, i: nat) {
    i < |rows| && (limit <= 0 || HostCount(rows[..i], domain, domain(rows[i].feedURL)) < limit)
  }

  lemma FitsInPrefix(rows: seq<Job>, domain: Domain, limit: int, last: nat, i: nat)
    requires last <= |rows|
    ensures Fits(rows[..last], domain, limit, i) <==> i < last && Fits(rows, domain, limit, i)
  {
    if i < last {
      assert rows[..last][..i] == rows[..i];
    }
  }

  /** The jobs keep the order of the rows and no row is used twice; the positions picked are
      those with fewer than limit earlier rows of the same host. */
  lemma {:induction false} JobsKeepTheOrder(rows: seq<Job>, domain: Domain, limit: int) returns (picks: seq<nat>)
    ensures PicksFrom(picks, rows, Limited(rows, domain, limit))
    ensures forall i: nat :: i in picks <==> Fits(rows, domain, limit, i)
  {
    picks := [];
    if rows != [] {
      var last := |rows| - 1;
      var init := rows[..last];
      picks := JobsKeepTheOrder(init, domain, limit);
      forall i: nat ensures Fits(init, domain, limit, i) <==> i < last && Fits(rows, domain, limit, i) {
        FitsInPrefix(rows, domain, limit, last, i);
      }
      MorePicks(picks, rows, Limited(init, domain, limit));
      if Fits(rows, domain, limit, last) {
        picks := picks + [last];
      } else {
        assert Limited(init, domain, limit) + [] == Limited(init, domain, limit);
      }
    }
  }

  lemma MorePicks(picks: seq<nat>, rows: seq<Job>, jobs: seq<Job>)
    requires rows != [] && PicksFrom(picks, rows[..|rows| - 1], jobs)
    ensures PicksFrom(picks, rows, jobs)
    ensures PicksFrom(picks + [|rows| - 1], rows, jobs + [rows[|rows| - 1]])
  {
  }

  /** Without a limit the batch is all rows. */
  lemma {:induction false} NoLimitKeepsAll(rows: seq<Job>, domain: Domain, limit: int)
    requires limit <= 0
    ensures Limited(rows, domain, limit) == rows
  {
    if rows != [] {
      NoLimitKeepsAll(rows[..|rows| - 1], domain, limit);
    }
  }

  // ----- Conditions -----

  lemma NoOpsHold(fs: seq<Filter>, now: int, row: Row)
    requires forall f :: f in fs ==> NoOp(f)
    ensures AllHold(fs, now, row)
  {
    forall f | f in fs ensures Holds(f, now, row) {
      assert NoOp(f);
    }
  }

  lemma {:induction false} BatchWhere(fs: seq<Filter>, cat: Catalog, now: int)
    requires BatchChain(fs)
    ensures Compile(fs).conditions == [] ==> forall id :: id in cat.feeds ==> AllHold(fs, now, FeedQueries.FeedRowOf(cat, id))
    ensures Compile(fs).conditions != [] ==> forall id :: id in cat.feeds ==>
              Where(Compile(fs).conditions, Context({F}, Compile(fs).args, now), FeedQueries.FeedRowOf(cat, id))
              == Some(AllHold(fs, now, FeedQueries.FeedRowOf(cat, id)))
  {
    CompiledShape(fs);
    assert Compile(fs).args + [] == Compile(fs).args;
    BatchNeedsFeeds(fs);
    forall id | id in cat.feeds
      ensures if Compile(fs).conditions == [] then AllHold(fs, now, FeedQueries.FeedRowOf(cat, id))
              else Where(Compile(fs).conditions, Context({F}, Compile(fs).args, now), FeedQueries.FeedRowOf(cat, id))
                   == Some(AllHold(fs, now, FeedQueries.FeedRowOf(cat, id)))
    {
      if Compile(fs).conditions == [] {
        NoOpsHold(fs, now, FeedQueries.FeedRowOf(cat, id));
      } else {
        ChainDenotesConjunction(fs, {F}, [], now, FeedQueries.FeedRowOf(cat, id));
      }
    }
  }

  lemma BatchNeedsFeeds(fs: seq<Filter>)
    requires BatchChain(fs)
    ensures !NeedsMissingTable(fs, {F})
  {
    forall f | f in fs ensures Needs(f) <= {F} {
      assert IsBatchFilter(f);
    }
  }
}

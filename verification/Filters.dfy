/** The filters of the query builders, what a builder call appends for each, and what each
    means. The main theorem: after any chain of calls the joined conditions denote the
    conjunction of the requested filters. */
module Filters {
  import opened Common
  import opened SqlConditions

  /** One constructor per builder call that restricts rows. */
  datatype Filter =
    // entry_query_builder.go
    | EntryOwner(userID: int)
    | SearchQuery(query: string)
    | Starred(starred: bool)
    | BeforeChangedDate(date: int)
    | AfterChangedDate(date: int)
    | BeforePublishedDate(date: int)
    | AfterPublishedDate(date: int)
    | BeforeEntryID(id: int)
    | AfterEntryID(id: int)
    | EntryIDs(ids: seq<int>)
    | PositiveFeedID(id: int)
    | PositiveCategoryID(id: int)
    | Statuses(statuses: seq<string>)
    | Tags(tags: seq<string>)
    | NotStatus(status: string)
    | ShareCode(code: string)
    | ShareCodeNotEmpty
    | GloballyVisible
    // entry_pagination_builder.go
    | FeedID(id: int)
    | CategoryID(id: int)
    | Status(status: string)
    | StatusOrEntryID(status: string, id: int)
    // feed_query_builder.go and batch.go, on the feeds table
    | FeedOwner(userID: int)
    | ThisFeed(id: int)
    | InCategory(id: int)
    | CountedStatus
    | ErrorLimit(limit: int)
    | NextCheckExpired
    | NotDisabled

  /** The two slices that every builder keeps in step. */
  datatype Compiled = Compiled(conditions: seq<Condition>, args: seq<Value>)

  function Unit(a: Atom): Condition { [A(a)] }

  /** The conditions that a call appends when n is the number of the next placeholder. */
  function NewConditions(n: int, f: Filter): seq<Condition> {
    match f
    case EntryOwner(_) => [Unit(Compare(EUserId, Eq, n))]
    case SearchQuery(q) => if q != "" then [Unit(MatchesSearch(n))] else []
    case Starred(b) => [Unit(IsBool(EStarred, b))]
    case BeforeChangedDate(_) => [Unit(Compare(EChangedAt, Lt, n))]
    case AfterChangedDate(_) => [Unit(Compare(EChangedAt, Gt, n))]
    case BeforePublishedDate(_) => [Unit(Compare(EPublishedAt, Lt, n))]
    case AfterPublishedDate(_) => [Unit(Compare(EPublishedAt, Gt, n))]
    case BeforeEntryID(id) => if id != 0 then [Unit(Compare(EId, Lt, n))] else []
    case AfterEntryID(id) => if id != 0 then [Unit(Compare(EId, Gt, n))] else []
    case EntryIDs(ids) =>
      if |ids| == 1 then [Unit(Compare(EId, Eq, n))] else if |ids| > 1 then [Unit(EqualsAny(EId, n))] else []
    case PositiveFeedID(id) => if id > 0 then [Unit(Compare(EFeedId, Eq, n))] else []
    case PositiveCategoryID(id) => if id > 0 then [Unit(Compare(FCategoryId, Eq, n))] else []
    case Statuses(ss) =>
      if |ss| == 1 then [Unit(Compare(EStatus, Eq, n))] else if |ss| > 1 then [Unit(EqualsAny(EStatus, n))] else []
    case Tags(tags) => if |tags| > 0 then [Unit(ContainsTags(n))] else []
    case NotStatus(s) => if s != "" then [Unit(Compare(EStatus, Ne, n))] else []
    case ShareCode(_) => [Unit(Compare(EShareCode, Eq, n))]
    case ShareCodeNotEmpty => [Unit(NotEmpty(EShareCode))]
    case GloballyVisible => [Unit(IsBool(CHideGlobally, false)), Unit(IsBool(FHideGlobally, false))]
    case FeedID(id) => if id != 0 then [Unit(Compare(EFeedId, Eq, n))] else []
    case CategoryID(id) => if id != 0 then [Unit(Compare(FCategoryId, Eq, n))] else []
    case Status(s) => if s != "" then [Unit(Compare(EStatus, Eq, n))] else []
    case StatusOrEntryID(s, id) =>
      if s == "" then []
      else if id == 0 then [Unit(Compare(EStatus, Eq, n))]
      else [[LParen, A(Compare(EStatus, Eq, n)), Or, A(Compare(EId, Eq, n + 1)), RParen]]
    case FeedOwner(_) => [Unit(Compare(FUserId, Eq, n))]
    case ThisFeed(id) => if id > 0 then [Unit(Compare(FId, Eq, n))] else []
    case InCategory(_) => [Unit(Compare(FCategoryId, Eq, n))]
    case CountedStatus => [Unit(InPair(EStatus, n, n + 1))]
    case ErrorLimit(l) => if l > 0 then [Unit(Compare(FParsingErrorCount, Lt, n))] else []
    case NextCheckExpired => [Unit(BeforeNow(FNextCheckAt))]
    case NotDisabled => [Unit(IsBool(FDisabled, false))]
  }

  /** The arguments that a call appends. */
  function NewArgs(f: Filter): seq<Value> {
    match f
    case EntryOwner(u) => [IntVal(u)]
    case SearchQuery(q) => if q != "" then [StrVal(q)] else []
    case BeforeChangedDate(t) => [TimeVal(t)]
    case AfterChangedDate(t) => [TimeVal(t)]
    case BeforePublishedDate(t) => [TimeVal(t)]
    case AfterPublishedDate(t) => [TimeVal(t)]
    case BeforeEntryID(id) => if id != 0 then [IntVal(id)] else []
    case AfterEntryID(id) => if id != 0 then [IntVal(id)] else []
    case EntryIDs(ids) => if |ids| == 1 then [IntVal(ids[0])] else if |ids| > 1 then [IntList(ids)] else []
    case PositiveFeedID(id) => if id > 0 then [IntVal(id)] else []
    case PositiveCategoryID(id) => if id > 0 then [IntVal(id)] else []
    case Statuses(ss) => if |ss| == 1 then [StrVal(ss[0])] else if |ss| > 1 then [StrList(ss)] else []
    case Tags(tags) => if |tags| > 0 then [StrList(tags)] else []
    case NotStatus(s) => if s != "" then [StrVal(s)] else []
    case ShareCode(code) => [StrVal(code)]
    case FeedID(id) => if id != 0 then [IntVal(id)] else []
    case CategoryID(id) => if id != 0 then [IntVal(id)] else []
    case Status(s) => if s != "" then [StrVal(s)] else []
    case StatusOrEntryID(s, id) => if s == "" then [] else if id == 0 then [StrVal(s)] else [StrVal(s), IntVal(id)]
    case FeedOwner(u) => [IntVal(u)]
    case ThisFeed(id) => if id > 0 then [IntVal(id)] else []
    case InCategory(id) => [IntVal(id)]
    case CountedStatus => [StrVal(READ), StrVal(UNREAD)]
    case ErrorLimit(l) => if l > 0 then [IntVal(l)] else []
    case _ => []
  }

  /** What one builder call does to the slices. */
  function Add(c: Compiled, f: Filter): Compiled {
    Compiled(c.conditions + NewConditions(|c.args| + 1, f), c.args + NewArgs(f))
  }

  /** A chain of builder calls, starting with empty slices. */
  function Compile(fs: seq<Filter>): Compiled {
    if fs == [] then Compiled([], []) else Add(Compile(fs[..|fs| - 1]), fs[|fs| - 1])
  }

  // ----- Meaning, independent of placeholders -----

  /** The row passes the filter. */
  predicate Holds(f: Filter, now: int, row: Row) {
    match f
    case EntryOwner(u) => row.e.userID == u
    case SearchQuery(q) => q == "" || q in row.e.ranks
    case Starred(b) => row.e.starred == b
    case BeforeChangedDate(t) => row.e.changedAt < t
    case AfterChangedDate(t) => row.e.changedAt > t
    case BeforePublishedDate(t) => row.e.publishedAt < t
    case AfterPublishedDate(t) => row.e.publishedAt > t
    case BeforeEntryID(id) => id == 0 || row.e.id < id
    case AfterEntryID(id) => id == 0 || row.e.id > id
    case EntryIDs(ids) => ids == [] || row.e.id in ids
    case PositiveFeedID(id) => id <= 0 || row.e.feedID == id
    case PositiveCategoryID(id) => id <= 0 || row.f.categoryID == id
    case Statuses(ss) => ss == [] || row.e.status in ss
    case Tags(tags) => HasAllTags(row.e.tags, tags)
    case NotStatus(s) => s == "" || row.e.status != s
    case ShareCode(code) => row.e.shareCode == code
    case ShareCodeNotEmpty => row.e.shareCode != ""
    case GloballyVisible => !row.c.hideGlobally && !row.f.hideGlobally
    case FeedID(id) => id == 0 || row.e.feedID == id
    case CategoryID(id) => id == 0 || row.f.categoryID == id
    case Status(s) => s == "" || row.e.status == s
    case StatusOrEntryID(s, id) => s == "" || row.e.status == s || (id != 0 && row.e.id == id)
    case FeedOwner(u) => row.f.userID == u
    case ThisFeed(id) => id <= 0 || row.f.id == id
    case InCategory(id) => row.f.categoryID == id
    case CountedStatus => row.e.status == READ || row.e.status == UNREAD
    case ErrorLimit(l) => l <= 0 || row.f.parsingErrorCount < l
    case NextCheckExpired => row.f.nextCheckAt < now
    case NotDisabled => !row.f.disabled
  }

  /** The call leaves the builder alone: its argument asks for no restriction. */
  predicate NoOp(f: Filter) {
    match f
    case SearchQuery(q) => q == ""
    case BeforeEntryID(id) => id == 0
    case AfterEntryID(id) => id == 0
    case EntryIDs(ids) => ids == []
    case PositiveFeedID(id) => id <= 0
    case PositiveCategoryID(id) => id <= 0
    case Statuses(ss) => ss == []
    case Tags(tags) => tags == []
    case NotStatus(s) => s == ""
    case FeedID(id) => id == 0
    case CategoryID(id) => id == 0
    case Status(s) => s == ""
    case StatusOrEntryID(s, _) => s == ""
    case ThisFeed(id) => id <= 0
    case ErrorLimit(l) => l <= 0
    case _ => false
  }

  /** The tables of the FROM clause that the filter needs. */
  function Needs(f: Filter): set<Table> {
    if NoOp(f) then {}
    else match f
      case PositiveCategoryID(_) | CategoryID(_) | FeedOwner(_) | ThisFeed(_) | InCategory(_) => {F}
      case ErrorLimit(_) | NextCheckExpired | NotDisabled => {F}
      case GloballyVisible => {F, C}
      case _ => {E}
  }

  predicate AllHold(fs: seq<Filter>, now: int, row: Row) {
    forall f :: f in fs ==> Holds(f, now, row)
  }

  /** Of the rows that the first chain lets pass, the second one keeps those that meet the
      condition. */
  ghost predicate Narrows(before: seq<Filter>, after: seq<Filter>, keeps: (int, Row) -> bool) {
    forall now: int, row: Row :: AllHold(after, now, row) <==> AllHold(before, now, row) && keeps(now, row)
  }

  /** A call narrows a chain by what its filter means. */
  lemma Narrowed(fs: seq<Filter>, f: Filter, keeps: (int, Row) -> bool)
    requires forall now: int, row: Row :: Holds(f, now, row) <==> keeps(now, row)
    ensures Narrows(fs, fs + [f], keeps)
  {
    OneMoreFilter(fs, f);
  }

  lemma OnlyFilter(f: Filter)
    ensures forall now: int, row: Row :: AllHold([f], now, row) <==> Holds(f, now, row)
  {
    assert f in [f];
  }

  lemma OneMoreFilter(fs: seq<Filter>, f: Filter)
    ensures Narrows(fs, fs + [f], (now, row) => Holds(f, now, row))
  {
    forall now: int, row: Row
      ensures AllHold(fs + [f], now, row) <==> AllHold(fs, now, row) && Holds(f, now, row)
    {
      assert forall g :: g in fs + [f] <==> g in fs || g == f;
    }
  }

  // ----- Placeholders -----

  function AtomParams(a: Atom): set<int> {
    match a
    case Compare(_, _, n) => {n}
    case EqualsAny(_, n) => {n}
    case InPair(_, n, m) => {n, m}
    case MatchesSearch(n) => {n}
    case ContainsTags(n) => {n}
    case _ => {}
  }

  /** The condition refers to $n. */
  predicate Uses(c: Condition, n: int) {
    exists i :: 0 <= i < |c| && c[i].A? && n in AtomParams(c[i].atom)
  }

  // ----- Proof -----

  /** The context of a statement whose arguments start with args, then those of f. */
  ghost predicate HasArgs(ctx: Context, k: nat, f: Filter) {
    && k + |NewArgs(f)| <= |ctx.args|
    && ctx.args[k..k + |NewArgs(f)|] == NewArgs(f)
  }

  /** Filters that append one condition on the entries table. */
  predicate OnEntries(f: Filter) { Needs(f) == {E} }

  /** Filters that append one condition on the feeds table. */
  predicate OnFeeds(f: Filter) { Needs(f) == {F} }

  lemma FilterKinds(f: Filter)
    ensures NoOp(f) || OnEntries(f) || OnFeeds(f) || f == GloballyVisible
  {
  }

  /** The one condition of a filter is an error exactly when its table is missing, and otherwise
      holds when the filter does. */
  ghost predicate UnitDenotes(k: nat, f: Filter, t: Table, ctx: Context, row: Row) {
    && |NewConditions(k + 1, f)| == 1 && IsUnit(NewConditions(k + 1, f)[0])
    && EvalUnit(NewConditions(k + 1, f)[0], ctx, row) == if t in ctx.scope then Some(Holds(f, ctx.now, row)) else None
  }

  predicate OnDates(f: Filter) {
    f.BeforeChangedDate? || f.AfterChangedDate? || f.BeforePublishedDate? || f.AfterPublishedDate?
  }

  predicate OnFlagsOrText(f: Filter) { OnText(f) || f.Starred? || f.ShareCodeNotEmpty? || f.CountedStatus? }

  predicate OnText(f: Filter) { f.SearchQuery? || f.Tags? }

  predicate OnIds(f: Filter) {
    f.EntryOwner? || f.BeforeEntryID? || f.AfterEntryID? || f.EntryIDs? || f.PositiveFeedID? || f.FeedID?
  }

  predicate OnStatus(f: Filter) { f.Statuses? || f.NotStatus? || f.Status? || f.ShareCode? }

  lemma EntryUnitDenotes(k: nat, f: Filter, ctx: Context, row: Row)
    requires OnEntries(f) && HasArgs(ctx, k, f)
    ensures UnitDenotes(k, f, E, ctx, row)
  {
    if OnDates(f) {
      DateUnitDenotes(k, f, ctx, row);
    } else if OnText(f) {
      TextUnitDenotes(k, f, ctx, row);
    } else if OnFlagsOrText(f) {
      FlagUnitDenotes(k, f, ctx, row);
    } else if OnIds(f) {
      IdUnitDenotes(k, f, ctx, row);
    } else if OnStatus(f) {
      StatusUnitDenotes(k, f, ctx, row);
    } else {
      StatusOrEntryIDDenotes(k, f, ctx, row);
    }
  }

  lemma FirstArg(k: nat, f: Filter, ctx: Context)
    requires HasArgs(ctx, k, f)
    ensures |NewArgs(f)| >= 1 ==> Arg(ctx, k + 1) == Some(NewArgs(f)[0])
    ensures |NewArgs(f)| >= 2 ==> Arg(ctx, k + 2) == Some(NewArgs(f)[1])
  {
    var n := |NewArgs(f)|;
    assert n >= 1 ==> ctx.args[k] == ctx.args[k..k + n][0];
    assert n >= 2 ==> ctx.args[k + 1] == ctx.args[k..k + n][1];
  }

  lemma DateUnitDenotes(k: nat, f: Filter, ctx: Context, row: Row)
    requires OnEntries(f) && HasArgs(ctx, k, f) && OnDates(f)
    ensures UnitDenotes(k, f, E, ctx, row)
  {
    FirstArg(k, f, ctx);
  }

  lemma TextUnitDenotes(k: nat, f: Filter, ctx: Context, row: Row)
    requires OnEntries(f) && HasArgs(ctx, k, f) && OnText(f)
    ensures UnitDenotes(k, f, E, ctx, row)
  {
    assert !NoOp(f);
    FirstArg(k, f, ctx);
  }

  lemma FlagUnitDenotes(k: nat, f: Filter, ctx: Context, row: Row)
    requires OnEntries(f) && HasArgs(ctx, k, f) && OnFlagsOrText(f) && !OnText(f)
    ensures UnitDenotes(k, f, E, ctx, row)
  {
    FirstArg(k, f, ctx);
  }

  lemma IdUnitDenotes(k: nat, f: Filter, ctx: Context, row: Row)
    requires OnEntries(f) && HasArgs(ctx, k, f) && OnIds(f)
    ensures UnitDenotes(k, f, E, ctx, row)
  {
    assert !NoOp(f);
    FirstArg(k, f, ctx);
  }

  lemma StatusUnitDenotes(k: nat, f: Filter, ctx: Context, row: Row)
    requires OnEntries(f) && HasArgs(ctx, k, f) && OnStatus(f)
    ensures UnitDenotes(k, f, E, ctx, row)
  {
    assert !NoOp(f);
    FirstArg(k, f, ctx);
  }

  lemma StatusOrEntryIDDenotes(k: nat, f: Filter, ctx: Context, row: Row)
    requires OnEntries(f) && HasArgs(ctx, k, f) && f.StatusOrEntryID?
    ensures UnitDenotes(k, f, E, ctx, row)
  {
    assert !NoOp(f);
    FirstArg(k, f, ctx);
    var c := NewConditions(k + 1, f)[0];
    if f.id != 0 {
      assert UnitExpr(c) == Either(Leaf(Compare(EStatus, Eq, k + 1)), Leaf(Compare(EId, Eq, k + 2)));
      assert Eval(Leaf(Compare(EStatus, Eq, k + 1)), ctx, row) == EvalAtom(Compare(EStatus, Eq, k + 1), ctx, row);
      assert Eval(Leaf(Compare(EId, Eq, k + 2)), ctx, row) == EvalAtom(Compare(EId, Eq, k + 2), ctx, row);
    }
  }

  predicate OnFeedState(f: Filter) { f.NextCheckExpired? || f.NotDisabled? }

  lemma FeedUnitDenotes(k: nat, f: Filter, ctx: Context, row: Row)
    requires OnFeeds(f) && HasArgs(ctx, k, f)
    ensures UnitDenotes(k, f, F, ctx, row)
  {
    if OnFeedState(f) {
      FeedStateDenotes(k, f, ctx, row);
    } else if f.ErrorLimit? {
      ErrorLimitDenotes(k, f, ctx, row);
    } else {
      FeedIdDenotes(k, f, ctx, row);
    }
  }

  lemma FeedStateDenotes(k: nat, f: Filter, ctx: Context, row: Row)
    requires OnFeeds(f) && OnFeedState(f)
    ensures UnitDenotes(k, f, F, ctx, row)
  {
  }

  lemma ErrorLimitDenotes(k: nat, f: Filter, ctx: Context, row: Row)
    requires OnFeeds(f) && HasArgs(ctx, k, f) && f.ErrorLimit?
    ensures UnitDenotes(k, f, F, ctx, row)
  {
    FirstArg(k, f, ctx);
  }

  lemma FeedIdDenotes(k: nat, f: Filter, ctx: Context, row: Row)
    requires OnFeeds(f) && HasArgs(ctx, k, f) && !OnFeedState(f) && !f.ErrorLimit?
    ensures UnitDenotes(k, f, F, ctx, row)
  {
    FirstArg(k, f, ctx);
  }

  ghost predicate SomeError(cs: seq<Condition>, ctx: Context, row: Row)
    requires forall c :: c in cs ==> IsUnit(c)
  {
    exists c :: c in cs && EvalUnit(c, ctx, row).None?
  }

  ghost predicate AllTrue(cs: seq<Condition>, ctx: Context, row: Row)
    requires forall c :: c in cs ==> IsUnit(c)
  {
    forall c :: c in cs ==> EvalUnit(c, ctx, row) == Some(true)
  }

  /** A call names a table that the query does not join. */
  ghost predicate NeedsMissingTable(fs: seq<Filter>, scope: set<Table>) {
    exists f :: f in fs && !(Needs(f) <= scope)
  }

  lemma NewConditionsAreUnits(n: int, f: Filter)
    ensures forall c :: c in NewConditions(n, f) ==> IsUnit(c)
    ensures NewConditions(n, f) == [] <==> NoOp(f)
  {
  }

  /** The conditions one call appends, in any later state of the builder: one is an error
      exactly when a table is missing, and otherwise they hold when the filter does. */
  ghost predicate AppendedAs(cs: seq<Condition>, f: Filter, ctx: Context, row: Row) {
    && (forall c :: c in cs ==> IsUnit(c))
    && (SomeError(cs, ctx, row) <==> !(Needs(f) <= ctx.scope))
    && (Needs(f) <= ctx.scope ==> (Holds(f, ctx.now, row) <==> AllTrue(cs, ctx, row)))
  }

  ghost predicate Appended(k: nat, f: Filter, ctx: Context, row: Row) { AppendedAs(NewConditions(k + 1, f), f, ctx, row) }

  lemma AppendedDenotes(k: nat, f: Filter, ctx: Context, row: Row)
    requires HasArgs(ctx, k, f)
    ensures Appended(k, f, ctx, row)
  {
    if NoOp(f) {
      NothingAppended(k, f, ctx, row);
    } else if f == GloballyVisible {
      GloballyVisibleDenotes(k, ctx, row);
    } else if OnEntries(f) {
      EntryUnitDenotes(k, f, ctx, row);
      OneAppended(k, f, E, ctx, row);
    } else {
      FilterKinds(f);
      FeedUnitDenotes(k, f, ctx, row);
      OneAppended(k, f, F, ctx, row);
    }
  }

  lemma NothingAppended(k: nat, f: Filter, ctx: Context, row: Row)
    requires NoOp(f)
    ensures Appended(k, f, ctx, row)
  {
    assert NewConditions(k + 1, f) == [];
  }

  lemma OneAppended(k: nat, f: Filter, t: Table, ctx: Context, row: Row)
    requires UnitDenotes(k, f, t, ctx, row) && Needs(f) == {t}
    ensures Appended(k, f, ctx, row)
  {
    var cs := NewConditions(k + 1, f);
    assert cs == [cs[0]];
    UnitAppended(cs[0], f, t, ctx, row);
  }

  lemma UnitAppended(c: Condition, f: Filter, t: Table, ctx: Context, row: Row)
    requires IsUnit(c) && Needs(f) == {t}
    requires EvalUnit(c, ctx, row) == if t in ctx.scope then Some(Holds(f, ctx.now, row)) else None
    ensures AppendedAs([c], f, ctx, row)
  {
    OneCondition(c, ctx, row);
  }

  lemma OneCondition(c: Condition, ctx: Context, row: Row)
    requires IsUnit(c)
    ensures SomeError([c], ctx, row) <==> EvalUnit(c, ctx, row).None?
    ensures AllTrue([c], ctx, row) <==> EvalUnit(c, ctx, row) == Some(true)
  {
    assert c in [c];
  }

  lemma FlagDenotes(col: Column, ctx: Context, row: Row)
    requires ColumnValue(row, col).BoolVal?
    ensures EvalUnit(Unit(IsBool(col, false)), ctx, row) ==
            if TableOf(col) in ctx.scope then Some(!ColumnValue(row, col).b) else None
  {
  }

  lemma FlagsDenote(ctx: Context, row: Row)
    ensures var cs := [Unit(IsBool(CHideGlobally, false)), Unit(IsBool(FHideGlobally, false))];
            && (SomeError(cs, ctx, row) <==> C !in ctx.scope || F !in ctx.scope)
            && (C in ctx.scope && F in ctx.scope ==> (AllTrue(cs, ctx, row) <==> !row.c.hideGlobally && !row.f.hideGlobally))
  {
    var c, f := Unit(IsBool(CHideGlobally, false)), Unit(IsBool(FHideGlobally, false));
    FlagDenotes(CHideGlobally, ctx, row);
    FlagDenotes(FHideGlobally, ctx, row);
    OneCondition(c, ctx, row);
    OneCondition(f, ctx, row);
    ConcatDenotes([c], [f], ctx, row);
    assert [c] + [f] == [c, f];
  }

  lemma GloballyVisibleDenotes(k: nat, ctx: Context, row: Row)
    ensures Appended(k, GloballyVisible, ctx, row)
  {
    FlagsDenote(ctx, row);
  }

  lemma {:induction false} CompiledShape(fs: seq<Filter>)
    ensures forall c :: c in Compile(fs).conditions ==> IsUnit(c)
    ensures Compile(fs).conditions == [] <==> forall f :: f in fs ==> NoOp(f)
  {
    if fs != [] {
      var init, f := fs[..|fs| - 1], fs[|fs| - 1];
      assert fs == init + [f];
      CompiledShape(init);
      NewConditionsAreUnits(|Compile(init).args| + 1, f);
    }
  }

  /** All units of a compiled chain, whatever arguments follow: one is an error exactly when a
      table is missing, and otherwise all hold exactly on the rows that pass the filters. */
  ghost predicate DenotesAs(cs: seq<Condition>, fs: seq<Filter>, ctx: Context, row: Row) {
    && (forall c :: c in cs ==> IsUnit(c))
    && (SomeError(cs, ctx, row) <==> NeedsMissingTable(fs, ctx.scope))
    && (!NeedsMissingTable(fs, ctx.scope) ==> (AllHold(fs, ctx.now, row) <==> AllTrue(cs, ctx, row)))
  }

  ghost predicate Denotes(fs: seq<Filter>, ctx: Context, row: Row) { DenotesAs(Compile(fs).conditions, fs, ctx, row) }

  lemma {:induction false} CompiledDenotes(fs: seq<Filter>, ctx: Context, row: Row)
    requires Compile(fs).args <= ctx.args
    ensures Denotes(fs, ctx, row)
  {
    if fs == [] {
      NothingDenotes(ctx, row);
    } else {
      LastArgs(fs, ctx);
      CompiledDenotes(fs[..|fs| - 1], ctx, row);
      LastDenotes(fs, ctx, row);
    }
  }

  lemma NothingDenotes(ctx: Context, row: Row)
    ensures Denotes([], ctx, row)
  {
  }

  lemma {:induction false} CompileSnoc(fs: seq<Filter>, f: Filter)
    ensures Compile(fs + [f]) == Add(Compile(fs), f)
  {
    assert (fs + [f])[..|fs|] == fs;
  }

  lemma {:induction false} LastArgs(fs: seq<Filter>, ctx: Context)
    requires fs != [] && Compile(fs).args <= ctx.args
    ensures Compile(fs[..|fs| - 1]).args <= ctx.args
    ensures HasArgs(ctx, |Compile(fs[..|fs| - 1]).args|, fs[|fs| - 1])
  {
    Sections(Compile(fs[..|fs| - 1]).args, NewArgs(fs[|fs| - 1]), ctx.args);
  }

  lemma {:induction false} LastDenotes(fs: seq<Filter>, ctx: Context, row: Row)
    requires fs != [] && Denotes(fs[..|fs| - 1], ctx, row)
    requires HasArgs(ctx, |Compile(fs[..|fs| - 1]).args|, fs[|fs| - 1])
    ensures Denotes(fs, ctx, row)
  {
    var k := |Compile(fs[..|fs| - 1]).args|;
    AppendedDenotes(k, fs[|fs| - 1], ctx, row);
    JoinDenotes(Compile(fs[..|fs| - 1]).conditions, NewConditions(k + 1, fs[|fs| - 1]), fs, ctx, row);
  }

  lemma Sections<T>(a: seq<T>, b: seq<T>, all: seq<T>)
    requires a + b <= all
    ensures a <= all && |a| + |b| <= |all| && all[|a|..|a| + |b|] == b
  {
    assert all[..|a| + |b|] == a + b;
  }

  lemma JoinDenotes(a: seq<Condition>, b: seq<Condition>, fs: seq<Filter>, ctx: Context, row: Row)
    requires fs != [] && DenotesAs(a, fs[..|fs| - 1], ctx, row) && AppendedAs(b, fs[|fs| - 1], ctx, row)
    ensures DenotesAs(a + b, fs, ctx, row)
  {
    ConcatDenotes(a, b, ctx, row);
    LastHolds(fs, ctx, row);
  }

  lemma LastHolds(fs: seq<Filter>, ctx: Context, row: Row)
    requires fs != []
    ensures AllHold(fs, ctx.now, row) <==> AllHold(fs[..|fs| - 1], ctx.now, row) && Holds(fs[|fs| - 1], ctx.now, row)
    ensures NeedsMissingTable(fs, ctx.scope) <==>
            NeedsMissingTable(fs[..|fs| - 1], ctx.scope) || !(Needs(fs[|fs| - 1]) <= ctx.scope)
  {
    assert forall g :: g in fs <==> g in fs[..|fs| - 1] || g == fs[|fs| - 1];
  }

  lemma ConcatDenotes(a: seq<Condition>, b: seq<Condition>, ctx: Context, row: Row)
    requires (forall c :: c in a ==> IsUnit(c)) && forall c :: c in b ==> IsUnit(c)
    ensures SomeError(a + b, ctx, row) <==> SomeError(a, ctx, row) || SomeError(b, ctx, row)
    ensures AllTrue(a + b, ctx, row) <==> AllTrue(a, ctx, row) && AllTrue(b, ctx, row)
  {
    assert forall c :: c in a + b <==> c in a || c in b;
  }

  /** The builders preserve meaning. For every chain of calls, every later argument and every
      row: the WHERE clause is an error exactly when no call restricts anything (the clause is
      empty) or a call names a table that the query does not join; otherwise it holds exactly on
      the rows that pass every requested filter. */
  lemma {:induction false} ChainDenotesConjunction(fs: seq<Filter>, scope: set<Table>, more: seq<Value>, now: int,
                                                   row: Row)
    ensures var w := Where(Compile(fs).conditions, Context(scope, Compile(fs).args + more, now), row);
            && (w.None? <==> (forall f :: f in fs ==> NoOp(f)) || NeedsMissingTable(fs, scope))
            && (w.Some? ==> (w.value <==> AllHold(fs, now, row)))
  {
    var ctx := Context(scope, Compile(fs).args + more, now);
    CompiledShape(fs);
    CompiledDenotes(fs, ctx, row);
    WhereIsConjunction(Compile(fs).conditions, ctx, row);
  }

  /** Every argument is referenced and no placeholder is left without one, as the driver
      requires of a statement. */
  lemma {:induction false} PlaceholdersMatchArguments(fs: seq<Filter>, n: int)
    ensures (exists c :: c in Compile(fs).conditions && Uses(c, n)) <==> 1 <= n <= |Compile(fs).args|
  {
    if fs != [] {
      var init, f := fs[..|fs| - 1], fs[|fs| - 1];
      PlaceholdersMatchArguments(init, n);
      var k := |Compile(init).args|;
      NewConditionsUseNewArgs(k, f, n);
      assert forall c :: c in Compile(fs).conditions <==> c in Compile(init).conditions || c in NewConditions(k + 1, f);
    }
  }

  function UnitParams(c: Condition): set<int>
    requires IsUnit(c)
  {
    if |c| == 1 then AtomParams(c[0].atom) else AtomParams(c[1].atom) + AtomParams(c[3].atom)
  }

  lemma UnitUses(c: Condition, n: int)
    requires IsUnit(c)
    ensures Uses(c, n) <==> n in UnitParams(c)
  {
    if |c| == 5 {
      assert c[1].A? && c[3].A?;
    } else {
      assert c[0].A?;
    }
  }

  /** The placeholders in what a call appends are those of its arguments. */
  ghost predicate ParamsMatch(k: nat, f: Filter) {
    var cs := NewConditions(k + 1, f);
    && (forall c :: c in cs ==> IsUnit(c))
    && (|cs| == 1 ==> forall n :: n in UnitParams(cs[0]) <==> k + 1 <= n <= k + |NewArgs(f)|)
    && (|cs| != 1 ==> NewArgs(f) == [] && forall c :: c in cs ==> UnitParams(c) == {})
  }

  lemma ParamsOfNewConditions(k: nat, f: Filter)
    ensures ParamsMatch(k, f)
  {
    if OnIds(f) || OnDates(f) {
      ParamsOfIdsAndDates(k, f);
    } else if OnStatus(f) {
      ParamsOfStatus(k, f);
    } else if OnFlagsOrText(f) {
      ParamsOfTexts(k, f);
    } else {
      ParamsOfOthers(k, f);
    }
  }

  lemma ParamsOfIdsAndDates(k: nat, f: Filter)
    requires OnIds(f) || OnDates(f)
    ensures ParamsMatch(k, f)
  {
  }

  lemma ParamsOfStatus(k: nat, f: Filter)
    requires OnStatus(f)
    ensures ParamsMatch(k, f)
  {
  }

  lemma ParamsOfTexts(k: nat, f: Filter)
    requires OnFlagsOrText(f)
    ensures ParamsMatch(k, f)
  {
  }

  lemma ParamsOfOthers(k: nat, f: Filter)
    requires !OnIds(f) && !OnDates(f) && !OnStatus(f) && !OnFlagsOrText(f)
    ensures ParamsMatch(k, f)
  {
  }

  lemma UsesInUnits(cs: seq<Condition>, low: int, high: int, n: int)
    requires forall c :: c in cs ==> IsUnit(c)
    requires |cs| == 1 ==> forall m :: m in UnitParams(cs[0]) <==> low <= m <= high
    requires |cs| != 1 ==> high < low && forall c :: c in cs ==> UnitParams(c) == {}
    ensures (exists c :: c in cs && Uses(c, n)) <==> low <= n <= high
  {
    forall c | c in cs ensures Uses(c, n) <==> n in UnitParams(c) {
      UnitUses(c, n);
    }
    if |cs| == 1 {
      assert cs[0] in cs && forall c :: c in cs ==> c == cs[0];
    }
  }

  lemma NewConditionsUseNewArgs(k: nat, f: Filter, n: int)
    ensures (exists c :: c in NewConditions(k + 1, f) && Uses(c, n)) <==> k + 1 <= n <= k + |NewArgs(f)|
  {
    ParamsOfNewConditions(k, f);
    UsesInUnits(NewConditions(k + 1, f), k + 1, k + |NewArgs(f)|, n);
  }
}

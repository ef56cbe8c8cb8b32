/** The SQL conditions that the query builders assemble: tokens, grammar and meaning.
    A condition is a list of tokens; comparisons with numbered placeholders are single tokens. */
module SqlConditions {
  import opened Common

  /** A bound argument of a statement. */
  datatype Value =
    | IntVal(i: int) | StrVal(s: string) | TimeVal(t: int) | BoolVal(b: bool)
    | IntList(ints: seq<int>) | StrList(strs: seq<string>)

  /** entries e, feeds f, categories c */
  datatype Table = E | F | C

  datatype Column =
    | EId | EUserId | EFeedId | EStatus | EStarred | EChangedAt | EPublishedAt | EShareCode
    | FId | FUserId | FCategoryId | FHideGlobally | FNextCheckAt | FParsingErrorCount | FDisabled
    | CHideGlobally

  datatype Op = Eq | Ne | Lt | Gt

  datatype Atom =
    | Compare(col: Column, op: Op, n: int)     // col op $n
    | EqualsAny(col: Column, n: int)           // col = ANY($n)
    | InPair(col: Column, n: int, m: int)      // col IN ($n, $m)
    | IsBool(col: Column, b: bool)             // col is true, col IS FALSE, not col
    | NotEmpty(col: Column)                    // col <> ''
    | BeforeNow(col: Column)                   // col < now()
    | MatchesSearch(n: int)                    // e.document_vectors @@ websearch_to_tsquery($n)
    | ContainsTags(n: int)                     // LOWER(e.tags) @> LOWER($n)

  datatype Token = A(atom: Atom) | And | Or | LParen | RParen

  type Condition = seq<Token>

  // ----- Rows -----

  /** ranks holds the search queries that the document vector matches and the rank it gets for
      each; sortKeys places the values of further sortable columns in the order of their type. */
  datatype EntryCols = EntryCols(
    id: int, userID: int, feedID: int, status: string, starred: bool, changedAt: int,
    publishedAt: int, createdAt: int, shareCode: string, tags: seq<string>,
    ranks: map<string, int>, sortKeys: map<string, int>)

  datatype FeedCols = FeedCols(
    id: int, userID: int, categoryID: int, hideGlobally: bool, nextCheckAt: int,
    parsingErrorCount: int, disabled: bool, sortKeys: map<string, int>)

  datatype CategoryCols = CategoryCols(id: int, hideGlobally: bool)

  datatype Row = Row(e: EntryCols, f: FeedCols, c: CategoryCols)

  /** What a condition is evaluated in: the tables of the FROM clause, the bound arguments,
      the clock. */
  datatype Context = Context(scope: set<Table>, args: seq<Value>, now: int)

  // ----- Grammar: AND binds tighter than OR -----

  datatype Expr = Leaf(atom: Atom) | Both(l: Expr, r: Expr) | Either(l: Expr, r: Expr)

  datatype Parsed = SyntaxError | Done(expr: Expr, rest: seq<Token>)

  function ParsePrimary(ts: seq<Token>): (p: Parsed)
    ensures p.Done? ==> |p.rest| < |ts|
    decreases |ts|, 0
  {
    if ts == [] then SyntaxError
    else match ts[0]
      case A(atom) => Done(Leaf(atom), ts[1..])
      case LParen =>
        (match ParseOr(ts[1..])
         case SyntaxError => SyntaxError
         case Done(e, rest) => if rest != [] && rest[0] == RParen then Done(e, rest[1..]) else SyntaxError)
      case _ => SyntaxError
  }

  function ParseAnd(ts: seq<Token>): (p: Parsed)
    ensures p.Done? ==> |p.rest| < |ts|
    decreases |ts|, 1
  {
    match ParsePrimary(ts)
    case SyntaxError => SyntaxError
    case Done(l, rest) =>
      if rest == [] || rest[0] != And then Done(l, rest)
      else match ParseAnd(rest[1..])
        case SyntaxError => SyntaxError
        case Done(r, rest') => Done(Both(l, r), rest')
  }

  function ParseOr(ts: seq<Token>): (p: Parsed)
    ensures p.Done? ==> |p.rest| < |ts|
    decreases |ts|, 2
  {
    match ParseAnd(ts)
    case SyntaxError => SyntaxError
    case Done(l, rest) =>
      if rest == [] || rest[0] != Or then Done(l, rest)
      else match ParseOr(rest[1..])
        case SyntaxError => SyntaxError
        case Done(r, rest') => Done(Either(l, r), rest')
  }

  /** The expression a whole WHERE clause denotes, if it is well formed. */
  function Parse(ts: seq<Token>): Option<Expr> {
    match ParseOr(ts)
    case SyntaxError => None
    case Done(e, rest) => if rest == [] then Some(e) else None
  }

  // ----- Meaning; None is an error of the database -----

  function TableOf(col: Column): Table {
    match col
    case EId | EUserId | EFeedId | EStatus | EStarred | EChangedAt | EPublishedAt | EShareCode => E
    case FId | FUserId | FCategoryId | FHideGlobally | FNextCheckAt | FParsingErrorCount | FDisabled => F
    case CHideGlobally => C
  }

  function ColumnValue(row: Row, col: Column): Value {
    match col
    case EId => IntVal(row.e.id)
    case EUserId => IntVal(row.e.userID)
    case EFeedId => IntVal(row.e.feedID)
    case EStatus => StrVal(row.e.status)
    case EStarred => BoolVal(row.e.starred)
    case EChangedAt => TimeVal(row.e.changedAt)
    case EPublishedAt => TimeVal(row.e.publishedAt)
    case EShareCode => StrVal(row.e.shareCode)
    case FId => IntVal(row.f.id)
    case FUserId => IntVal(row.f.userID)
    case FCategoryId => IntVal(row.f.categoryID)
    case FHideGlobally => BoolVal(row.f.hideGlobally)
    case FNextCheckAt => TimeVal(row.f.nextCheckAt)
    case FParsingErrorCount => IntVal(row.f.parsingErrorCount)
    case FDisabled => BoolVal(row.f.disabled)
    case CHideGlobally => BoolVal(row.c.hideGlobally)
  }

  function Arg(ctx: Context, n: int): Option<Value> {
    if 1 <= n <= |ctx.args| then Some(ctx.args[n - 1]) else None
  }

  function EvalOp(op: Op, a: Value, b: Value): Option<bool> {
    match (op, a, b)
    case (Eq, IntVal(x), IntVal(y)) => Some(x == y)
    case (Ne, IntVal(x), IntVal(y)) => Some(x != y)
    case (Lt, IntVal(x), IntVal(y)) => Some(x < y)
    case (Gt, IntVal(x), IntVal(y)) => Some(x > y)
    case (Lt, TimeVal(x), TimeVal(y)) => Some(x < y)
    case (Gt, TimeVal(x), TimeVal(y)) => Some(x > y)
    case (Eq, StrVal(x), StrVal(y)) => Some(x == y)
    case (Ne, StrVal(x), StrVal(y)) => Some(x != y)
    case _ => None
  }

  /** LOWER, over ASCII. */
  function Lower(s: string): string {
    if s == [] then [] else
    [if 'A' <= s[0] <= 'Z' then (s[0] as int + 32) as char else s[0]] + Lower(s[1..])
  }

  /** Only the letters A to Z change, each to the small one. */
  lemma {:induction false} LowerChangesCapitals(s: string)
    ensures |Lower(s)| == |s|
    ensures forall i :: 0 <= i < |s| ==>
              Lower(s)[i] == if 'A' <= s[i] <= 'Z' then 'a' + (s[i] - 'A') else s[i]
  {
    if s != [] {
      LowerChangesCapitals(s[1..]);
      assert forall i :: 0 < i < |s| ==> s[i] == s[1..][i - 1] && Lower(s)[i] == Lower(s[1..])[i - 1];
    }
  }

  predicate HasAllTags(have: seq<string>, want: seq<string>) {
    forall w :: w in want ==> exists h :: h in have && Lower(h) == Lower(w)
  }

  function EvalAtom(a: Atom, ctx: Context, row: Row): Option<bool> {
    match a
    case Compare(col, op, n) =>
      if TableOf(col) !in ctx.scope || Arg(ctx, n).None? then None
      else EvalOp(op, ColumnValue(row, col), Arg(ctx, n).value)
    case EqualsAny(col, n) =>
      if TableOf(col) !in ctx.scope then None
      else (match (ColumnValue(row, col), Arg(ctx, n))
            case (IntVal(x), Some(IntList(xs))) => Some(x in xs)
            case (StrVal(x), Some(StrList(xs))) => Some(x in xs)
            case _ => None)
    case InPair(col, n, m) =>
      if TableOf(col) !in ctx.scope then None
      else (match (ColumnValue(row, col), Arg(ctx, n), Arg(ctx, m))
            case (StrVal(x), Some(StrVal(y)), Some(StrVal(z))) => Some(x == y || x == z)
            case _ => None)
    case IsBool(col, b) =>
      if TableOf(col) !in ctx.scope || !ColumnValue(row, col).BoolVal? then None
      else Some(ColumnValue(row, col).b == b)
    case NotEmpty(col) =>
      if TableOf(col) !in ctx.scope || !ColumnValue(row, col).StrVal? then None
      else Some(ColumnValue(row, col).s != "")
    case BeforeNow(col) =>
      if TableOf(col) !in ctx.scope || !ColumnValue(row, col).TimeVal? then None
      else Some(ColumnValue(row, col).t < ctx.now)
    case MatchesSearch(n) =>
      if E !in ctx.scope then None
      else (match Arg(ctx, n) case Some(StrVal(q)) => Some(q in row.e.ranks) case _ => None)
    case ContainsTags(n) =>
      if E !in ctx.scope then None
      else (match Arg(ctx, n) case Some(StrList(tags)) => Some(HasAllTags(row.e.tags, tags)) case _ => None)
  }

  /** An error anywhere is an error of the statement. */
  function Eval(e: Expr, ctx: Context, row: Row): Option<bool> {
    match e
    case Leaf(atom) => EvalAtom(atom, ctx, row)
    case Both(l, r) =>
      (match (Eval(l, ctx, row), Eval(r, ctx, row))
       case (Some(x), Some(y)) => Some(x && y)
       case _ => None)
    case Either(l, r) =>
      (match (Eval(l, ctx, row), Eval(r, ctx, row))
       case (Some(x), Some(y)) => Some(x || y)
       case _ => None)
  }

  /** strings.Join(conditions, " AND ") */
  function Join(conditions: seq<Condition>): seq<Token> {
    if |conditions| == 0 then []
    else if |conditions| == 1 then conditions[0]
    else conditions[0] + [And] + Join(conditions[1..])
  }

  /** The value of a WHERE clause made of these conditions on a row. */
  function Where(conditions: seq<Condition>, ctx: Context, row: Row): Option<bool> {
    match Parse(Join(conditions))
    case None => None
    case Some(e) => Eval(e, ctx, row)
  }

  // ----- Joining is conjunction -----

  /** The shapes the builders append: one comparison, or a disjunction in parentheses. */
  predicate IsUnit(c: Condition) {
    || (|c| == 1 && c[0].A?)
    || (|c| == 5 && c[0] == LParen && c[1].A? && c[2] == Or && c[3].A? && c[4] == RParen)
  }

  function UnitExpr(c: Condition): Expr
    requires IsUnit(c)
  {
    if |c| == 1 then Leaf(c[0].atom) else Either(Leaf(c[1].atom), Leaf(c[3].atom))
  }

  function Conjunction(cs: seq<Condition>): Expr
    requires |cs| > 0 && forall c :: c in cs ==> IsUnit(c)
  {
    if |cs| == 1 then UnitExpr(cs[0]) else Both(UnitExpr(cs[0]), Conjunction(cs[1..]))
  }

  lemma {:induction false} ParseUnit(c: Condition, rest: seq<Token>)
    requires IsUnit(c)
    ensures ParsePrimary(c + rest) == Done(UnitExpr(c), rest)
  {
    var ts := c + rest;
    if |c| == 1 {
      assert ts[1..] == rest;
    } else {
      var t1, t3 := ts[1..], ts[3..];
      assert t1[0] == c[1] && t1[1..] == ts[2..] && ts[2..][0] == Or && ts[2..][1..] == t3;
      assert ParsePrimary(t1) == Done(Leaf(c[1].atom), ts[2..]);
      assert ParseAnd(t1) == Done(Leaf(c[1].atom), ts[2..]);
      assert t3[0] == c[3] && t3[1..] == ts[4..] && ts[4..][0] == RParen;
      assert ParsePrimary(t3) == Done(Leaf(c[3].atom), ts[4..]);
      assert ParseAnd(t3) == Done(Leaf(c[3].atom), ts[4..]);
      assert ParseOr(t3) == Done(Leaf(c[3].atom), ts[4..]);
      assert ParseOr(t1) == Done(Either(Leaf(c[1].atom), Leaf(c[3].atom)), ts[4..]);
      assert ts[4..][1..] == rest;
    }
  }

  lemma {:induction false} ParseJoin(cs: seq<Condition>)
    requires |cs| > 0 && forall c :: c in cs ==> IsUnit(c)
    ensures ParseAnd(Join(cs)) == Done(Conjunction(cs), [])
  {
    if |cs| == 1 {
      ParseUnit(cs[0], []);
      assert cs[0] + [] == cs[0];
    } else {
      var rest := [And] + Join(cs[1..]);
      ParseUnit(cs[0], rest);
      assert cs[0] + rest == Join(cs);
      assert rest[1..] == Join(cs[1..]);
      ParseJoin(cs[1..]);
    }
  }

  function EvalUnit(c: Condition, ctx: Context, row: Row): Option<bool>
    requires IsUnit(c)
  {
    Eval(UnitExpr(c), ctx, row)
  }

  lemma {:induction false} EvalConjunction(cs: seq<Condition>, ctx: Context, row: Row)
    requires |cs| > 0 && forall c :: c in cs ==> IsUnit(c)
    ensures Eval(Conjunction(cs), ctx, row).None? <==> exists c :: c in cs && EvalUnit(c, ctx, row).None?
    ensures Eval(Conjunction(cs), ctx, row).Some? ==>
              (Eval(Conjunction(cs), ctx, row).value <==> forall c :: c in cs ==> EvalUnit(c, ctx, row) == Some(true))
  {
    assert cs[0] in cs;
    var first := EvalUnit(cs[0], ctx, row);
    if |cs| > 1 {
      EvalConjunction(cs[1..], ctx, row);
      assert forall c :: c in cs <==> c == cs[0] || c in cs[1..];
    } else {
      assert Eval(Conjunction(cs), ctx, row) == first;
      assert forall c :: c in cs <==> c == cs[0];
    }
  }

  /** A WHERE clause of joined units is an error exactly when it is empty or a unit is, and
      otherwise holds exactly when all units hold: joining with AND keeps precedence right. */
  lemma WhereIsConjunction(cs: seq<Condition>, ctx: Context, row: Row)
    requires forall c :: c in cs ==> IsUnit(c)
    ensures Where(cs, ctx, row).None? <==> cs == [] || exists c :: c in cs && EvalUnit(c, ctx, row).None?
    ensures Where(cs, ctx, row).Some? ==>
              (Where(cs, ctx, row).value <==> forall c :: c in cs ==> EvalUnit(c, ctx, row) == Some(true))
  {
    if cs != [] {
      ParseJoin(cs);
      assert ParseOr(Join(cs)) == Done(Conjunction(cs), []);
      EvalConjunction(cs, ctx, row);
    }
  }

  /** An unparenthesized disjunction after a unit captures it. */
  lemma ParseUnitAndDisjunction(u: Atom, a: Atom, o: Atom)
    ensures ParseOr(Join([[A(u)], [A(a), Or, A(o)]])) == Done(Either(Both(Leaf(u), Leaf(a)), Leaf(o)), [])
  {
    var ts := [A(u), And, A(a), Or, A(o)];
    assert [[A(u)], [A(a), Or, A(o)]][1..] == [[A(a), Or, A(o)]] && Join([[A(a), Or, A(o)]]) == [A(a), Or, A(o)];
    assert Join([[A(u)], [A(a), Or, A(o)]]) == ts;
    assert ts[1..] == [And, A(a), Or, A(o)] && ts[1..][1..] == [A(a), Or, A(o)];
    ParseLastDisjunct(a, o);
    assert ParseAnd(ts) == Done(Both(Leaf(u), Leaf(a)), [Or, A(o)]);
    assert [Or, A(o)][1..] == [A(o)];
  }

  lemma ParseLastDisjunct(a: Atom, o: Atom)
    ensures ParseAnd([A(a), Or, A(o)]) == Done(Leaf(a), [Or, A(o)])
    ensures ParseOr([A(o)]) == Done(Leaf(o), [])
  {
    assert [A(a), Or, A(o)][1..] == [Or, A(o)] && [A(o)][1..] == [];
    assert ParsePrimary([A(a), Or, A(o)]) == Done(Leaf(a), [Or, A(o)]);
    assert ParsePrimary([A(o)]) == Done(Leaf(o), []);
    assert ParseAnd([A(o)]) == Done(Leaf(o), []);
  }

  /** The parentheses matter: the same disjunction without them changes the meaning. */
  lemma UnparenthesizedDisjunctionLeaks()
    ensures exists c: Condition, u: Condition, ctx, row ::
              && c == [A(IsBool(EStarred, true)), Or, A(IsBool(EStarred, false))]
              && u == [A(NotEmpty(EShareCode))]
              && Where([u, c], ctx, row) == Some(true) && EvalUnit(u, ctx, row) == Some(false)
  {
    var a, o, n := IsBool(EStarred, true), IsBool(EStarred, false), NotEmpty(EShareCode);
    var c: Condition, u: Condition := [A(a), Or, A(o)], [A(n)];
    var row := Row(
      EntryCols(1, 1, 1, "", false, 0, 0, 0, "", [], map[], map[]),
      FeedCols(1, 1, 1, false, 0, 0, false, map[]), CategoryCols(1, false));
    var ctx := Context({E}, [], 0);
    ParseUnitAndDisjunction(n, a, o);
    assert EvalAtom(n, ctx, row) == Some(false) && EvalAtom(a, ctx, row) == Some(false) && EvalAtom(o, ctx, row) == Some(true);
    assert Eval(Either(Both(Leaf(n), Leaf(a)), Leaf(o)), ctx, row) == Some(true);
    assert Where([u, c], ctx, row) == Some(true) && EvalUnit(u, ctx, row) == Some(false);
  }
}

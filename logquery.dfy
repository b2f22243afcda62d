/**
 * The exercise-log query builder: the count query and the listing query are
 * grown clause by clause while their arguments are pushed onto one parameter
 * list, and the count query is later handed that list minus its last element.
 */
module LogQuery {
  import opened Wrappers
  import opened JsValues
  import opened Dates

  /** A value bound to a `?` placeholder. */
  datatype SqlValue = SqlInt(n: int) | SqlText(t: string)

  /** An optional date bound of the WHERE clause. */
  datatype Cond = FromCond | ToCond

  const CountColumns: string := "SELECT COUNT(*) AS exerciseCount"
  const LogColumns: string := "SELECT *"
  const UserFilter: string := " FROM exercises WHERE userId = ?"
  const CountBase: string := CountColumns + UserFilter
  const LogBase: string := LogColumns + UserFilter
  const FromClause: string := " AND date >= ?"
  const ToClause: string := " AND date <= ?"
  const OrderClause: string := " ORDER BY date"
  const LimitClause: string := " LIMIT ?"

  /** The number of `?` placeholders in a statement. */
  function Placeholders(q: string): nat {
    if q == [] then 0 else (if q[0] == '?' then 1 else 0) + Placeholders(q[1..])
  }

  function CondSql(c: Cond): string {
    match c
    case FromCond => FromClause
    case ToCond => ToClause
  }

  function CondsSql(cs: seq<Cond>): string {
    if cs == [] then "" else CondSql(cs[0]) + CondsSql(cs[1..])
  }

  lemma {:induction false} CondsSqlSnoc(cs: seq<Cond>, c: Cond)
    ensures CondsSql(cs + [c]) == CondsSql(cs) + CondSql(c)
  {
    if cs == [] {
      assert [] + [c] == [c];
      assert CondsSql([c]) == CondSql(c) + CondsSql([]);
    } else {
      assert (cs + [c])[1..] == cs[1..] + [c];
      CondsSqlSnoc(cs[1..], c);
    }
  }

  lemma AppendAssoc<T>(a: seq<T>, b: seq<T>, c: seq<T>)
    ensures (a + b) + c == a + (b + c)
  {
  }

  /** The count statement with the given date bounds. */
  function CountSql(cs: seq<Cond>): string {
    CountBase + CondsSql(cs)
  }

  /** The listing statement with the given date bounds, sorted by date, with or without a LIMIT. */
  function LogSql(cs: seq<Cond>, limited: bool): string {
    LogBase + CondsSql(cs) + OrderClause + (if limited then LimitClause else "")
  }

  lemma {:induction false} PlaceholdersAppend(a: string, b: string)
    ensures Placeholders(a + b) == Placeholders(a) + Placeholders(b)
  {
    if a != [] {
      assert (a + b)[1..] == a[1..] + b;
      PlaceholdersAppend(a[1..], b);
    } else {
      assert a + b == b;
    }
  }

  lemma {:induction false} NoPlaceholder(s: string)
    requires '?' !in s
    ensures Placeholders(s) == 0
  {
    if s != [] {
      assert s[0] != '?';
      NoPlaceholder(s[1..]);
    }
  }

  /** A text with exactly one `?` carries one placeholder. */
  lemma OnePlaceholder(q: string, head: string, tail: string)
    requires q == head + "?" + tail && '?' !in head && '?' !in tail
    ensures Placeholders(q) == 1
  {
    NoPlaceholder(head);
    NoPlaceholder(tail);
    PlaceholdersAppend(head, "?");
    PlaceholdersAppend(head + "?", tail);
  }

  lemma UserFilterPlaceholders()
    ensures Placeholders(UserFilter) == 1
  {
    var a := " FROM exercises WHERE userId = ";
    assert '?' !in a;
    assert UserFilter == a + "?" + "";
    OnePlaceholder(UserFilter, a, "");
  }

  lemma CountBasePlaceholders()
    ensures Placeholders(CountBase) == 1
  {
    assert '?' !in CountColumns;
    NoPlaceholder(CountColumns);
    UserFilterPlaceholders();
    PlaceholdersAppend(CountColumns, UserFilter);
  }

  lemma LogBasePlaceholders()
    ensures Placeholders(LogBase) == 1
  {
    assert '?' !in LogColumns;
    NoPlaceholder(LogColumns);
    UserFilterPlaceholders();
    PlaceholdersAppend(LogColumns, UserFilter);
  }

  lemma FromClausePlaceholders()
    ensures Placeholders(FromClause) == 1
  {
    assert FromClause == " AND date >= " + "?" + "";
    OnePlaceholder(FromClause, " AND date >= ", "");
  }

  lemma ToClausePlaceholders()
    ensures Placeholders(ToClause) == 1
  {
    assert ToClause == " AND date <= " + "?" + "";
    OnePlaceholder(ToClause, " AND date <= ", "");
  }

  lemma OrderClausePlaceholders()
    ensures Placeholders(OrderClause) == 0
  {
    assert '?' !in OrderClause;
    NoPlaceholder(OrderClause);
  }

  lemma LimitClausePlaceholders()
    ensures Placeholders(LimitClause) == 1
  {
    assert LimitClause == " LIMIT " + "?" + "";
    OnePlaceholder(LimitClause, " LIMIT ", "");
  }

  lemma {:induction false} PlaceholdersConds(cs: seq<Cond>)
    ensures Placeholders(CondsSql(cs)) == |cs|
  {
    if cs != [] {
      PlaceholdersConds(cs[1..]);
      PlaceholdersAppend(CondSql(cs[0]), CondsSql(cs[1..]));
      FromClausePlaceholders();
      ToClausePlaceholders();
    }
  }

  /** The count statement carries one placeholder for the user and one per date bound. */
  lemma PlaceholdersCountSql(cs: seq<Cond>)
    ensures Placeholders(CountSql(cs)) == 1 + |cs|
  {
    PlaceholdersConds(cs);
    PlaceholdersAppend(CountBase, CondsSql(cs));
    CountBasePlaceholders();
  }

  /** The listing statement carries those and one more for LIMIT when it has one. */
  lemma PlaceholdersLogSql(cs: seq<Cond>, limited: bool)
    ensures Placeholders(LogSql(cs, limited)) == 1 + |cs| + (if limited then 1 else 0)
  {
    PlaceholdersConds(cs);
    LogBasePlaceholders();
    OrderClausePlaceholders();
    LimitClausePlaceholders();
    NoPlaceholder("");
    var tail := if limited then LimitClause else "";
    PlaceholdersAppend(LogBase, CondsSql(cs));
    PlaceholdersAppend(LogBase + CondsSql(cs), OrderClause);
    PlaceholdersAppend(LogBase + CondsSql(cs) + OrderClause, tail);
  }

  /** A given bound is accepted when it passes dateValidation and dateFormatValidation. */
  predicate BoundOk(bound: Option<string>) {
    !Truthy(bound) || AcceptedBound(bound.value)
  }

  /** A given limit is accepted when parseInt does not yield NaN. */
  predicate LimitOk(limit: Option<string>) {
    !Truthy(limit) || ParseInt(limit.value).Some?
  }

  /** The date bounds a request adds to both statements, `from` before `to`. */
  function BoundConds(from: Option<string>, to: Option<string>): seq<Cond> {
    (if Truthy(from) then [FromCond] else []) + (if Truthy(to) then [ToCond] else [])
  }

  /** The arguments of those bounds, in the same order. */
  function BoundArgs(from: Option<string>, to: Option<string>): seq<SqlValue> {
    BoundArg(from) + BoundArg(to)
  }

  function BoundArg(bound: Option<string>): seq<SqlValue> {
    if Truthy(bound) then [SqlText(bound.value)] else []
  }

  /** The LIMIT argument, when a limit is given and parses. */
  function LimitArgs(limit: Option<string>): seq<SqlValue> {
    if Truthy(limit) && ParseInt(limit.value).Some? then [SqlInt(ParseInt(limit.value).value)] else []
  }

  /** The full parameter list: user id, from?, to?, limit?. */
  function LogParams(userId: int, from: Option<string>, to: Option<string>, limit: Option<string>): seq<SqlValue> {
    [SqlInt(userId)] + BoundArgs(from, to) + LimitArgs(limit)
  }

  datatype Query = Query(countQuery: string, logQuery: string, params: seq<SqlValue>)

  datatype QueryError = InvalidFrom | InvalidTo | InvalidLimit

  /** The SQL text a bound adds: its clause when it is given, nothing otherwise. */
  function BoundSql(bound: Option<string>, c: Cond): string {
    if Truthy(bound) then CondSql(c) else ""
  }

  lemma BoundCondsSql(from: Option<string>, to: Option<string>)
    ensures CondsSql(BoundConds(from, to)) == BoundSql(from, FromCond) + BoundSql(to, ToCond)
  {
    var cs := BoundConds(from, to);
    if Truthy(from) && Truthy(to) {
      assert cs == [FromCond, ToCond] && cs[1..] == [ToCond] && cs[1..][1..] == [];
      assert CondsSql(cs[1..]) == ToClause + "";
    } else if Truthy(from) {
      assert cs == [FromCond] && cs[1..] == [];
    } else if Truthy(to) {
      assert cs == [ToCond] && cs[1..] == [];
    } else {
      assert cs == [];
    }
  }

  /**
   * One optional date bound: when it is given it must pass dateValidation and
   * dateFormatValidation, and then its clause goes onto both statements and
   * its value onto the parameters. The `from` and `to` blocks are this step
   * with the two comparison operators.
   */
  method AddBound(countQuery: string, logQuery: string, params: seq<SqlValue>, bound: Option<string>, c: Cond)
    returns (ok: bool, countQuery': string, logQuery': string, params': seq<SqlValue>)
    ensures ok == BoundOk(bound)
    ensures ok ==> countQuery' == countQuery + BoundSql(bound, c)
    ensures ok ==> logQuery' == logQuery + BoundSql(bound, c)
    ensures ok ==> params' == params + BoundArg(bound)
  {
    ok, countQuery', logQuery', params' := true, countQuery, logQuery, params;
    if Truthy(bound) {
      if DateValidation(bound.value) && DateFormatValidation(bound.value) {
        countQuery' := countQuery' + CondSql(c);
        logQuery' := logQuery' + CondSql(c);
        params' := params' + [SqlText(bound.value)];
      } else {
        ok := false;
      }
    }
  }

  /**
   * Builds both statements and the parameter list, checking `from`, then `to`,
   * then `limit`, and stopping at the first one that is given but invalid.
   */
  method BuildLogQuery(userId: int, from: Option<string>, to: Option<string>, limit: Option<string>)
    returns (r: Result<Query, QueryError>)
    ensures !BoundOk(from) ==> r == Err(InvalidFrom)
    ensures BoundOk(from) && !BoundOk(to) ==> r == Err(InvalidTo)
    ensures BoundOk(from) && BoundOk(to) && !LimitOk(limit) ==> r == Err(InvalidLimit)
    ensures r.Ok? <==> BoundOk(from) && BoundOk(to) && LimitOk(limit)
    ensures r.Ok? ==> r.value == Query(CountSql(BoundConds(from, to)),
                                       LogSql(BoundConds(from, to), Truthy(limit)),
                                       LogParams(userId, from, to, limit))
    ensures r.Ok? ==> Placeholders(r.value.logQuery) == |r.value.params|
    ensures r.Ok? ==> Placeholders(r.value.countQuery) + (if Truthy(limit) then 1 else 0) == |r.value.params|
  {
    var countQuery := CountBase;
    var logQuery := LogBase;
    var params := [SqlInt(userId)];

    var ok;
    ok, countQuery, logQuery, params := AddBound(countQuery, logQuery, params, from, FromCond);
    if !ok {
      return Err(InvalidFrom);
    }
    ok, countQuery, logQuery, params := AddBound(countQuery, logQuery, params, to, ToCond);
    if !ok {
      return Err(InvalidTo);
    }

    logQuery := logQuery + OrderClause;
    if Truthy(limit) {
      if ParseInt(limit.value).Some? {
        logQuery := logQuery + LimitClause;
        params := params + [SqlInt(ParseInt(limit.value).value)];
      } else {
        return Err(InvalidLimit);
      }
    }

    r := Ok(Query(countQuery, logQuery, params));
    AssembledQuery(userId, from, to, limit, r.value);
  }

  /** The statements and parameters as the builder leaves them are the ones the specification functions describe. */
  lemma AssembledQuery(userId: int, from: Option<string>, to: Option<string>, limit: Option<string>, q: Query)
    requires LimitOk(limit)
    requires q.countQuery == (CountBase + BoundSql(from, FromCond)) + BoundSql(to, ToCond)
    requires q.logQuery == ((LogBase + BoundSql(from, FromCond)) + BoundSql(to, ToCond)) + OrderClause
                           + (if Truthy(limit) then LimitClause else "")
    requires q.params == ([SqlInt(userId)] + BoundArg(from)) + BoundArg(to) + LimitArgs(limit)
    ensures q == Query(CountSql(BoundConds(from, to)), LogSql(BoundConds(from, to), Truthy(limit)),
                       LogParams(userId, from, to, limit))
    ensures Placeholders(q.logQuery) == |q.params|
    ensures Placeholders(q.countQuery) + (if Truthy(limit) then 1 else 0) == |q.params|
  {
    var cs := BoundConds(from, to);
    BoundCondsSql(from, to);
    AppendAssoc(CountBase, BoundSql(from, FromCond), BoundSql(to, ToCond));
    AppendAssoc(LogBase, BoundSql(from, FromCond), BoundSql(to, ToCond));
    AppendAssoc([SqlInt(userId)], BoundArg(from), BoundArg(to));
    PlaceholdersCountSql(cs);
    PlaceholdersLogSql(cs, Truthy(limit));
  }

  /** params.slice(0, params.length - 1): every element but the last (nothing from an empty list). */
  function CountArgs(params: seq<SqlValue>): (r: seq<SqlValue>)
    ensures |params| > 0 ==> |r| + 1 == |params| && params == r + [params[|params| - 1]]
  {
    if params == [] then [] else params[..|params| - 1]
  }

  /**
   * The count statement receives exactly as many arguments as it has
   * placeholders if and only if a limit was given; without one it is one short.
   */
  lemma CountArityIffLimit(userId: int, from: Option<string>, to: Option<string>, limit: Option<string>)
    requires LimitOk(limit)
    ensures |CountArgs(LogParams(userId, from, to, limit))| == Placeholders(CountSql(BoundConds(from, to)))
            <==> Truthy(limit)
    ensures !Truthy(limit) ==>
            |CountArgs(LogParams(userId, from, to, limit))| + 1 == Placeholders(CountSql(BoundConds(from, to)))
    ensures Truthy(limit) ==> CountArgs(LogParams(userId, from, to, limit)) == [SqlInt(userId)] + BoundArgs(from, to)
  {
    PlaceholdersCountSql(BoundConds(from, to));
    var p := LogParams(userId, from, to, limit);
    assert |BoundArgs(from, to)| == |BoundConds(from, to)|;
    if Truthy(limit) {
      assert p == ([SqlInt(userId)] + BoundArgs(from, to)) + [p[|p| - 1]];
    }
  }

  /** The intended argument list of the count statement: the parameters without the LIMIT argument, if there is one. */
  function IntendedCountArgs(params: seq<SqlValue>, limited: bool): (r: seq<SqlValue>)
    ensures |r| == |params| - (if limited && |params| > 0 then 1 else 0)
  {
    if limited then CountArgs(params) else params
  }

  /** With the intended argument list the count statement is always fully bound, limit or not. */
  lemma IntendedCountArity(userId: int, from: Option<string>, to: Option<string>, limit: Option<string>)
    requires LimitOk(limit)
    ensures IntendedCountArgs(LogParams(userId, from, to, limit), Truthy(limit)) == [SqlInt(userId)] + BoundArgs(from, to)
    ensures |IntendedCountArgs(LogParams(userId, from, to, limit), Truthy(limit))|
            == Placeholders(CountSql(BoundConds(from, to)))
  {
    CountArityIffLimit(userId, from, to, limit);
    PlaceholdersCountSql(BoundConds(from, to));
    assert |BoundArgs(from, to)| == |BoundConds(from, to)|;
  }
}

/**
 * An in-memory stand-in for the two SQLite tables and for the part of SQLite
 * the handlers rely on: recognising the statements they issue, binding
 * arguments to placeholders by position, filtering, ordering by date and
 * limiting. Row order of a table is insertion order.
 */
module Database {
  import opened Wrappers
  import opened JsValues
  import opened LogQuery

  datatype User = User(id: int, username: string)

  datatype Exercise = Exercise(id: int, userId: int, description: string, duration: int, date: string)

  /** SQLite's comparison of TEXT values: code point by code point, a proper prefix first. */
  predicate TextLe(a: string, b: string) {
    a == [] || (b != [] && (a[0] < b[0] || (a[0] == b[0] && TextLe(a[1..], b[1..]))))
  }

  lemma {:induction false} TextLeTotal(a: string, b: string)
    ensures TextLe(a, b) || TextLe(b, a)
  {
    if a != [] && b != [] && a[0] == b[0] {
      TextLeTotal(a[1..], b[1..]);
    }
  }

  lemma {:induction false} TextLeTrans(a: string, b: string, c: string)
    requires TextLe(a, b) && TextLe(b, c)
    ensures TextLe(a, c)
  {
    if a != [] && b != [] && c != [] && a[0] == b[0] == c[0] {
      TextLeTrans(a[1..], b[1..], c[1..]);
    }
  }

  lemma {:induction false} TextLeAntisym(a: string, b: string)
    requires TextLe(a, b) && TextLe(b, a)
    ensures a == b
  {
    if a != [] && b != [] {
      TextLeAntisym(a[1..], b[1..]);
      assert a == [a[0]] + a[1..] && b == [b[0]] + b[1..];
    }
  }

  /** SELECT * FROM users WHERE id = ?: the first user with that id, if any. */
  function UserWithId(users: seq<User>, id: int): (r: Option<User>)
    ensures r.Some? <==> exists i :: 0 <= i < |users| && users[i].id == id
    ensures r.Some? ==> r.value in users && r.value.id == id
  {
    if users == [] then None
    else if users[0].id == id then Some(users[0])
    else
      var r := UserWithId(users[1..], id);
      assert forall i :: 0 < i < |users| ==> users[i] == users[1..][i - 1];
      r
  }

  /** SELECT * FROM users WHERE username = ?: the first user with that name, if any. */
  function UserNamed(users: seq<User>, name: string): (r: Option<User>)
    ensures r.Some? <==> exists i :: 0 <= i < |users| && users[i].username == name
    ensures r.Some? ==> r.value in users && r.value.username == name
  {
    if users == [] then None
    else if users[0].username == name then Some(users[0])
    else
      var r := UserNamed(users[1..], name);
      assert forall i :: 0 < i < |users| ==> users[i] == users[1..][i - 1];
      r
  }

  // ---------------------------------------------------------------------------
  // Statements

  /** What the database makes of a statement text: a count or a listing, its date bounds, and a LIMIT or not. */
  datatype Statement = Statement(counting: bool, conds: seq<Cond>, limited: bool)

  /** The number of placeholders of a statement, in order: user id, the bounds, the limit. */
  function Slots(st: Statement): nat {
    1 + |st.conds| + (if st.limited then 1 else 0)
  }

  predicate StartsWith(s: string, prefix: string) {
    |prefix| <= |s| && s[..|prefix|] == prefix
  }

  /** Reads date-bound clauses off the front of s, returning them and the text that follows. */
  function ParseConds(s: string): (r: (seq<Cond>, string))
    ensures |r.1| <= |s|
    decreases |s|
  {
    if StartsWith(s, FromClause) then
      var (cs, rest) := ParseConds(s[|FromClause|..]); ([FromCond] + cs, rest)
    else if StartsWith(s, ToClause) then
      var (cs, rest) := ParseConds(s[|ToClause|..]); ([ToCond] + cs, rest)
    else ([], s)
  }

  /** The statements the database accepts: the count and listing statements with any date bounds. */
  function Recognize(q: string): Option<Statement> {
    if StartsWith(q, CountBase) then
      var (cs, rest) := ParseConds(q[|CountBase|..]);
      if rest == "" then Some(Statement(true, cs, false)) else None
    else if StartsWith(q, LogBase) then
      var (cs, rest) := ParseConds(q[|LogBase|..]);
      if rest == OrderClause then Some(Statement(false, cs, false))
      else if rest == OrderClause + LimitClause then Some(Statement(false, cs, true))
      else None
    else None
  }

  lemma {:induction false} ParseCondsOfSql(cs: seq<Cond>, rest: string)
    requires !StartsWith(rest, FromClause) && !StartsWith(rest, ToClause)
    ensures ParseConds(CondsSql(cs) + rest) == (cs, rest)
  {
    if cs == [] {
      assert CondsSql(cs) + rest == rest;
    } else {
      var s := CondsSql(cs) + rest;
      var c := CondSql(cs[0]);
      AppendAssoc(c, CondsSql(cs[1..]), rest);
      assert s == c + (CondsSql(cs[1..]) + rest);
      assert s[..|c|] == c;
      assert s[|c|..] == CondsSql(cs[1..]) + rest;
      if cs[0] == ToCond {
        assert FromClause[10] != ToClause[10];
        assert !StartsWith(s, FromClause);
      }
      ParseCondsOfSql(cs[1..], rest);
      assert [cs[0]] + cs[1..] == cs;
    }
  }

  lemma RestAfterConds(q: string, base: string, cs: seq<Cond>, rest: string)
    requires q == base + CondsSql(cs) + rest
    ensures StartsWith(q, base) && q[|base|..] == CondsSql(cs) + rest
  {
    AppendAssoc(base, CondsSql(cs), rest);
  }

  lemma ListingIsNotCount(q: string)
    requires StartsWith(q, LogBase)
    ensures !StartsWith(q, CountBase)
  {
    CountBaseEighth();
    LogBaseEighth();
    assert q[..|LogBase|][7] == q[7];
  }

  lemma CountBaseEighth()
    ensures |CountBase| > 8 && CountBase[7] == 'C'
  {
    assert CountColumns[7] == 'C';
  }

  lemma LogBaseEighth()
    ensures |LogBase| > 8 && LogBase[7] == '*'
  {
    assert LogColumns[7] == '*';
  }

  /** The database reads every count statement the builder can produce back as what it is. */
  lemma {:induction false} RecognizeCountSql(cs: seq<Cond>)
    ensures Recognize(CountSql(cs)) == Some(Statement(true, cs, false))
  {
    var q := CountSql(cs);
    assert q == CountBase + CondsSql(cs) + "";
    RestAfterConds(q, CountBase, cs, "");
    ParseCondsOfSql(cs, "");
  }

  /** The database reads every listing statement the builder can produce back as what it is. */
  lemma {:induction false} RecognizeLogSql(cs: seq<Cond>, limited: bool)
    ensures Recognize(LogSql(cs, limited)) == Some(Statement(false, cs, limited))
  {
    var q := LogSql(cs, limited);
    var rest := OrderClause + (if limited then LimitClause else "");
    AppendAssoc(LogBase + CondsSql(cs), OrderClause, if limited then LimitClause else "");
    RestAfterConds(q, LogBase, cs, rest);
    ListingIsNotCount(q);
    assert !StartsWith(rest, FromClause) && !StartsWith(rest, ToClause) by {
      assert rest[1] == 'O';
    }
    ParseCondsOfSql(cs, rest);
    assert limited ==> rest != OrderClause;
  }

  // ---------------------------------------------------------------------------
  // Execution

  /**
   * A row satisfies the WHERE clause when every placeholder of the conditions
   * has an argument and every condition holds. A placeholder left without an
   * argument is NULL, and a comparison with NULL never holds.
   */
  predicate RowMatches(e: Exercise, conds: seq<Cond>, args: seq<SqlValue>) {
    && |args| >= 1 + |conds|
    && args[0] == SqlInt(e.userId)
    && forall k :: 0 <= k < |conds| ==> CondHolds(e, conds[k], args[k + 1])
  }

  predicate CondHolds(e: Exercise, c: Cond, v: SqlValue) {
    v.SqlText? && match c
      case FromCond => TextLe(v.t, e.date)
      case ToCond => TextLe(e.date, v.t)
  }

  /** The rows of the table satisfying the WHERE clause, in table order. */
  function Select(table: seq<Exercise>, conds: seq<Cond>, args: seq<SqlValue>): (r: seq<Exercise>)
    ensures |r| <= |table|
    ensures forall e :: e in r <==> e in table && RowMatches(e, conds, args)
  {
    if table == [] then []
    else
      var rest := Select(table[..|table| - 1], conds, args);
      var e := table[|table| - 1];
      assert table == table[..|table| - 1] + [e];
      if RowMatches(e, conds, args) then rest + [e] else rest
  }

  /** The WHERE clause keeps every matching row as often as the table holds it, and no other row: what COUNT(*) counts. */
  lemma {:induction false} SelectCounts(table: seq<Exercise>, conds: seq<Cond>, args: seq<SqlValue>)
    ensures forall e :: multiset(Select(table, conds, args))[e] == if RowMatches(e, conds, args) then multiset(table)[e] else 0
  {
    if table != [] {
      var init, e := table[..|table| - 1], table[|table| - 1];
      SelectCounts(init, conds, args);
      assert table == init + [e];
      assert multiset(table) == multiset(init) + multiset{e};
    }
  }

  /** ORDER BY date: the rows sorted ascending by date text. */
  predicate SortedByDate(rows: seq<Exercise>) {
    forall i, j :: 0 <= i < j < |rows| ==> TextLe(rows[i].date, rows[j].date)
  }

  /** Puts e in front of the first row whose date is not before e's, so e precedes rows of its own date. */
  function InsertByDate(e: Exercise, rows: seq<Exercise>): seq<Exercise> {
    if rows == [] || TextLe(e.date, rows[0].date) then [e] + rows
    else [rows[0]] + InsertByDate(e, rows[1..])
  }

  /** Sorts by date; rows with equal dates keep their table order. */
  function SortByDate(rows: seq<Exercise>): seq<Exercise> {
    if rows == [] then [] else InsertByDate(rows[0], SortByDate(rows[1..]))
  }

  lemma {:induction false} InsertByDatePerm(e: Exercise, rows: seq<Exercise>)
    ensures multiset(InsertByDate(e, rows)) == multiset(rows) + multiset{e}
  {
    if rows != [] && !TextLe(e.date, rows[0].date) {
      InsertByDatePerm(e, rows[1..]);
      assert rows == [rows[0]] + rows[1..];
    }
  }

  /** A row no later than every row of a sorted list can head it. */
  lemma ConsSorted(h: Exercise, rows: seq<Exercise>)
    requires SortedByDate(rows)
    requires forall x :: x in rows ==> TextLe(h.date, x.date)
    ensures SortedByDate([h] + rows)
  {
    var r := [h] + rows;
    forall i, j | 0 <= i < j < |r| ensures TextLe(r[i].date, r[j].date) {
      assert r[j] == rows[j - 1];
      if i > 0 {
        assert r[i] == rows[i - 1];
      }
    }
  }

  /** A lower bound of e and of every row is a lower bound of every row after inserting e. */
  lemma InsertByDateLowerBound(h: Exercise, e: Exercise, rows: seq<Exercise>)
    requires TextLe(h.date, e.date)
    requires forall x :: x in rows ==> TextLe(h.date, x.date)
    ensures forall x :: x in InsertByDate(e, rows) ==> TextLe(h.date, x.date)
  {
    InsertByDatePerm(e, rows);
    forall x | x in InsertByDate(e, rows) ensures TextLe(h.date, x.date) {
      assert x in multiset(InsertByDate(e, rows));
    }
  }

  lemma {:induction false} InsertByDateSorted(e: Exercise, rows: seq<Exercise>)
    requires SortedByDate(rows)
    ensures SortedByDate(InsertByDate(e, rows))
  {
    if rows == [] || TextLe(e.date, rows[0].date) {
      forall x | x in rows ensures TextLe(e.date, x.date) {
        var k :| 0 <= k < |rows| && rows[k] == x;
        if k > 0 {
          TextLeTrans(e.date, rows[0].date, rows[k].date);
        }
      }
      ConsSorted(e, rows);
    } else {
      var h, tail := rows[0], rows[1..];
      TextLeTotal(h.date, e.date);
      InsertByDateSorted(e, tail);
      forall x | x in tail ensures TextLe(h.date, x.date) {
        var k :| 0 <= k < |tail| && tail[k] == x;
        assert rows[k + 1] == x;
      }
      InsertByDateLowerBound(h, e, tail);
      ConsSorted(h, InsertByDate(e, tail));
    }
  }

  /** Two rows of one date come out of the sort in the order the table holds them. */
  lemma {:induction false} SortKeepsTies(a: Exercise, b: Exercise)
    requires a.date == b.date
    ensures SortByDate([a, b]) == [a, b]
  {
    assert [a, b][1..] == [b];
    assert SortByDate([b]) == InsertByDate(b, []) == [b];
    TextLeTotal(a.date, b.date);
  }

  /** The sorted rows are in date order and are a permutation of the input. */
  lemma {:induction false} SortByDateFacts(rows: seq<Exercise>)
    ensures SortedByDate(SortByDate(rows))
    ensures multiset(SortByDate(rows)) == multiset(rows)
  {
    if rows != [] {
      SortByDateFacts(rows[1..]);
      InsertByDateSorted(rows[0], SortByDate(rows[1..]));
      InsertByDatePerm(rows[0], SortByDate(rows[1..]));
      assert rows == [rows[0]] + rows[1..];
    }
  }

  /** LIMIT n: the first n rows; SQLite treats a negative limit as no limit at all. */
  function Truncate(rows: seq<Exercise>, limit: Option<int>): (r: seq<Exercise>)
    ensures |r| <= |rows| && r == rows[..|r|]
    ensures limit.None? || limit.value < 0 || limit.value >= |rows| ==> r == rows
    ensures limit.Some? && 0 <= limit.value <= |rows| ==> |r| == limit.value
  {
    if limit.Some? && 0 <= limit.value < |rows| then rows[..limit.value] else rows
  }

  /**
   * Executes a count statement: None is the error the driver reports for a
   * statement it does not know or for more arguments than placeholders.
   */
  function RunCount(q: string, args: seq<SqlValue>, table: seq<Exercise>): Option<nat> {
    match Recognize(q)
    case Some(st) => CountRows(st, args, table)
    case None => None
  }

  function CountRows(st: Statement, args: seq<SqlValue>, table: seq<Exercise>): Option<nat> {
    if st.counting && |args| <= Slots(st) then Some(|Select(table, st.conds, args)|) else None
  }

  /**
   * Executes a listing statement. Besides the errors of RunCount, a LIMIT
   * whose argument is missing (NULL) or not an integer is an error.
   */
  function RunLog(q: string, args: seq<SqlValue>, table: seq<Exercise>): Option<seq<Exercise>> {
    match Recognize(q)
    case Some(st) => ListRows(st, args, table)
    case None => None
  }

  function ListRows(st: Statement, args: seq<SqlValue>, table: seq<Exercise>): Option<seq<Exercise>> {
    if st.counting || |args| > Slots(st) then None
    else if !st.limited then Some(SortByDate(Select(table, st.conds, args)))
    else if |args| == Slots(st) && args[|args| - 1].SqlInt? then
      Some(Truncate(SortByDate(Select(table, st.conds, args)), Some(args[|args| - 1].n)))
    else None
  }

  // ---------------------------------------------------------------------------
  // What a log request asks for

  /** An exercise of the user within the bounds that are given, both inclusive. */
  predicate InRange(e: Exercise, userId: int, from: Option<string>, to: Option<string>) {
    && e.userId == userId
    && (from.Some? ==> TextLe(from.value, e.date))
    && (to.Some? ==> TextLe(e.date, to.value))
  }

  /** The user's exercises within the bounds, in table order. */
  function Filtered(table: seq<Exercise>, userId: int, from: Option<string>, to: Option<string>): (r: seq<Exercise>)
    ensures |r| <= |table|
    ensures forall e :: e in r <==> e in table && InRange(e, userId, from, to)
  {
    if table == [] then []
    else
      var rest := Filtered(table[..|table| - 1], userId, from, to);
      var e := table[|table| - 1];
      assert table == table[..|table| - 1] + [e];
      if InRange(e, userId, from, to) then rest + [e] else rest
  }

  /** The requested rows hold each of the user's exercises within the bounds as often as the table does, and no other row. */
  lemma {:induction false} FilteredCounts(table: seq<Exercise>, userId: int, from: Option<string>, to: Option<string>)
    ensures forall e :: multiset(Filtered(table, userId, from, to))[e] == if InRange(e, userId, from, to) then multiset(table)[e] else 0
  {
    if table != [] {
      var init, e := table[..|table| - 1], table[|table| - 1];
      FilteredCounts(init, userId, from, to);
      assert table == init + [e];
      assert multiset(table) == multiset(init) + multiset{e};
    }
  }

  /** A bound counts when it is truthy. */
  function Given(bound: Option<string>): Option<string> {
    if Truthy(bound) then bound else None
  }

  /** With every placeholder bound, the WHERE clause selects exactly the user's exercises within the given bounds. */
  lemma {:induction false} SelectFullyBound(table: seq<Exercise>, userId: int, from: Option<string>, to: Option<string>)
    ensures Select(table, BoundConds(from, to), [SqlInt(userId)] + BoundArgs(from, to))
            == Filtered(table, userId, Given(from), Given(to))
  {
    if table != [] {
      var init := table[..|table| - 1];
      SelectFullyBound(init, userId, from, to);
      var e := table[|table| - 1];
      var cs, args := BoundConds(from, to), [SqlInt(userId)] + BoundArgs(from, to);
      RowMatchesFullyBound(e, userId, from, to);
    }
  }

  lemma RowMatchesFullyBound(e: Exercise, userId: int, from: Option<string>, to: Option<string>)
    ensures RowMatches(e, BoundConds(from, to), [SqlInt(userId)] + BoundArgs(from, to))
            <==> InRange(e, userId, Given(from), Given(to))
  {
    if Truthy(from) && Truthy(to) {
      RowMatchesBothBounds(e, userId, from, to);
    } else if Truthy(from) {
      RowMatchesFromBound(e, userId, from, to);
    } else if Truthy(to) {
      RowMatchesToBound(e, userId, from, to);
    } else {
      assert BoundConds(from, to) == [] && [SqlInt(userId)] + BoundArgs(from, to) == [SqlInt(userId)];
    }
  }

  lemma RowMatchesBothBounds(e: Exercise, userId: int, from: Option<string>, to: Option<string>)
    requires Truthy(from) && Truthy(to)
    ensures RowMatches(e, BoundConds(from, to), [SqlInt(userId)] + BoundArgs(from, to))
            <==> InRange(e, userId, Given(from), Given(to))
  {
    var cs, args := BoundConds(from, to), [SqlInt(userId)] + BoundArgs(from, to);
    assert cs == [FromCond, ToCond] && args == [SqlInt(userId), SqlText(from.value), SqlText(to.value)];
    assert RowMatches(e, cs, args) <==> args[0] == SqlInt(e.userId) && CondHolds(e, cs[0], args[1]) && CondHolds(e, cs[1], args[2]);
  }

  lemma RowMatchesFromBound(e: Exercise, userId: int, from: Option<string>, to: Option<string>)
    requires Truthy(from) && !Truthy(to)
    ensures RowMatches(e, BoundConds(from, to), [SqlInt(userId)] + BoundArgs(from, to))
            <==> InRange(e, userId, Given(from), Given(to))
  {
    var cs, args := BoundConds(from, to), [SqlInt(userId)] + BoundArgs(from, to);
    assert cs == [FromCond] && args == [SqlInt(userId), SqlText(from.value)];
    assert RowMatches(e, cs, args) <==> args[0] == SqlInt(e.userId) && CondHolds(e, cs[0], args[1]);
  }

  lemma RowMatchesToBound(e: Exercise, userId: int, from: Option<string>, to: Option<string>)
    requires !Truthy(from) && Truthy(to)
    ensures RowMatches(e, BoundConds(from, to), [SqlInt(userId)] + BoundArgs(from, to))
            <==> InRange(e, userId, Given(from), Given(to))
  {
    var cs, args := BoundConds(from, to), [SqlInt(userId)] + BoundArgs(from, to);
    assert cs == [ToCond] && args == [SqlInt(userId), SqlText(to.value)];
    assert RowMatches(e, cs, args) <==> args[0] == SqlInt(e.userId) && CondHolds(e, cs[0], args[1]);
  }

  /** With a placeholder of the WHERE clause left unbound, no row is selected. */
  lemma {:induction false} SelectUnderBound(table: seq<Exercise>, conds: seq<Cond>, args: seq<SqlValue>)
    requires |args| < 1 + |conds|
    ensures Select(table, conds, args) == []
  {
    if table != [] {
      SelectUnderBound(table[..|table| - 1], conds, args);
    }
  }

  /** Arguments beyond the WHERE clause's placeholders do not change which rows it selects. */
  lemma {:induction false} SelectExtraArgs(table: seq<Exercise>, conds: seq<Cond>, args: seq<SqlValue>, extra: seq<SqlValue>)
    requires |args| >= 1 + |conds|
    ensures Select(table, conds, args + extra) == Select(table, conds, args)
  {
    if table != [] {
      SelectExtraArgs(table[..|table| - 1], conds, args, extra);
      var e := table[|table| - 1];
      assert forall k :: 0 <= k < |args| ==> (args + extra)[k] == args[k];
      assert RowMatches(e, conds, args + extra) <==> RowMatches(e, conds, args);
    }
  }

  /** The limit a request asks for: parseInt of the given limit, or none. */
  function RequestedLimit(limit: Option<string>): Option<int> {
    if Truthy(limit) then ParseInt(limit.value) else None
  }

  /** The rows a log request asks for: the filtered exercises sorted by date, then limited. */
  function Listing(table: seq<Exercise>, userId: int, from: Option<string>, to: Option<string>, limit: Option<string>): seq<Exercise> {
    Truncate(SortByDate(Filtered(table, userId, Given(from), Given(to))), RequestedLimit(limit))
  }

  /**
   * The listing statement the builder produces, run with the builder's
   * parameters, yields exactly the requested listing.
   */
  lemma ListingAsBuilt(table: seq<Exercise>, userId: int, from: Option<string>, to: Option<string>, limit: Option<string>)
    requires LimitOk(limit)
    ensures RunLog(LogSql(BoundConds(from, to), Truthy(limit)), LogParams(userId, from, to, limit), table)
            == Some(Listing(table, userId, from, to, limit))
  {
    var cs := BoundConds(from, to);
    RecognizeLogSql(cs, Truthy(limit));
    ListRowsAsBuilt(table, userId, from, to, limit);
  }

  lemma ListRowsAsBuilt(table: seq<Exercise>, userId: int, from: Option<string>, to: Option<string>, limit: Option<string>)
    requires LimitOk(limit)
    ensures ListRows(Statement(false, BoundConds(from, to), Truthy(limit)), LogParams(userId, from, to, limit), table)
            == Some(Listing(table, userId, from, to, limit))
  {
    var cs, base := BoundConds(from, to), [SqlInt(userId)] + BoundArgs(from, to);
    var st, args := Statement(false, cs, Truthy(limit)), LogParams(userId, from, to, limit);
    assert |BoundArgs(from, to)| == |cs|;
    SelectExtraArgs(table, cs, base, LimitArgs(limit));
    SelectFullyBound(table, userId, from, to);
    var rows := SortByDate(Filtered(table, userId, Given(from), Given(to)));
    assert Select(table, cs, args) == Filtered(table, userId, Given(from), Given(to));
    if Truthy(limit) {
      var n := ParseInt(limit.value).value;
      assert args == base + [SqlInt(n)];
      assert |args| == Slots(st) && args[|args| - 1] == SqlInt(n);
      assert ListRows(st, args, table) == Some(Truncate(rows, Some(n)));
    } else {
      assert args == base + [];
      assert ListRows(st, args, table) == Some(rows);
    }
  }

  /**
   * The count statement as the handler runs it, on every parameter but the
   * last: with a limit it counts the filtered exercises; without one a
   * placeholder stays NULL and it counts nothing.
   */
  lemma CountAsWritten(table: seq<Exercise>, userId: int, from: Option<string>, to: Option<string>, limit: Option<string>)
    requires LimitOk(limit)
    ensures RunCount(CountSql(BoundConds(from, to)), CountArgs(LogParams(userId, from, to, limit)), table)
            == Some(if Truthy(limit) then |Filtered(table, userId, Given(from), Given(to))| else 0)
  {
    var cs := BoundConds(from, to);
    RecognizeCountSql(cs);
    CountArityIffLimit(userId, from, to, limit);
    PlaceholdersCountSql(cs);
    if Truthy(limit) {
      SelectFullyBound(table, userId, from, to);
    } else {
      SelectUnderBound(table, cs, CountArgs(LogParams(userId, from, to, limit)));
    }
  }

  /** The count statement with its intended arguments counts the filtered exercises, limit or not. */
  lemma CountAsIntended(table: seq<Exercise>, userId: int, from: Option<string>, to: Option<string>, limit: Option<string>)
    requires LimitOk(limit)
    ensures RunCount(CountSql(BoundConds(from, to)), IntendedCountArgs(LogParams(userId, from, to, limit), Truthy(limit)), table)
            == Some(|Filtered(table, userId, Given(from), Given(to))|)
  {
    RecognizeCountSql(BoundConds(from, to));
    IntendedCountArity(userId, from, to, limit);
    PlaceholdersCountSql(BoundConds(from, to));
    SelectFullyBound(table, userId, from, to);
  }

  /** What the handler gets back from running the built statements: the count as written and the requested listing. */
  lemma BuiltQueryResults(table: seq<Exercise>, userId: int, from: Option<string>, to: Option<string>, limit: Option<string>, q: Query)
    requires LimitOk(limit)
    requires q == Query(CountSql(BoundConds(from, to)), LogSql(BoundConds(from, to), Truthy(limit)), LogParams(userId, from, to, limit))
    ensures RunCount(q.countQuery, CountArgs(q.params), table)
            == Some(if Truthy(limit) then |Filtered(table, userId, Given(from), Given(to))| else 0)
    ensures RunLog(q.logQuery, q.params, table) == Some(Listing(table, userId, from, to, limit))
    ensures |Listing(table, userId, from, to, limit)| <= |Filtered(table, userId, Given(from), Given(to))|
  {
    CountAsWritten(table, userId, from, to, limit);
    ListingAsBuilt(table, userId, from, to, limit);
    ListingNoLonger(table, userId, from, to, limit);
  }

  /** The listing never holds more rows than the filter selects. */
  lemma ListingNoLonger(table: seq<Exercise>, userId: int, from: Option<string>, to: Option<string>, limit: Option<string>)
    ensures |Listing(table, userId, from, to, limit)| <= |Filtered(table, userId, Given(from), Given(to))|
  {
    var f := Filtered(table, userId, Given(from), Given(to));
    SortByDateFacts(f);
    assert |SortByDate(f)| == |multiset(SortByDate(f))| == |f|;
  }

  /**
   * The listing is the user's exercises within the bounds, each one exactly
   * as often as in the table when no limit cuts it, in date order, and never
   * longer than the count of the filtered exercises.
   */
  lemma ListingFacts(table: seq<Exercise>, userId: int, from: Option<string>, to: Option<string>, limit: Option<string>)
    ensures SortedByDate(Listing(table, userId, from, to, limit))
    ensures forall e :: e in Listing(table, userId, from, to, limit) ==> e in table && InRange(e, userId, Given(from), Given(to))
    ensures |Listing(table, userId, from, to, limit)| <= |Filtered(table, userId, Given(from), Given(to))|
    ensures RequestedLimit(limit).None? ==>
            multiset(Listing(table, userId, from, to, limit)) == multiset(Filtered(table, userId, Given(from), Given(to)))
    ensures RequestedLimit(limit).Some? && 0 <= RequestedLimit(limit).value <= |Filtered(table, userId, Given(from), Given(to))| ==>
            |Listing(table, userId, from, to, limit)| == RequestedLimit(limit).value
  {
    var f := Filtered(table, userId, Given(from), Given(to));
    var sorted := SortByDate(f);
    SortByDateFacts(f);
    assert |sorted| == |multiset(sorted)| == |f|;
    var l := Listing(table, userId, from, to, limit);
    assert l == sorted[..|l|];
    forall e | e in l ensures e in table && InRange(e, userId, Given(from), Given(to)) {
      assert e in multiset(sorted);
    }
  }

  /**
   * One exercise and a log request without bounds or limit: the listing holds
   * the exercise, the count query as issued reports 0, and with its intended
   * arguments it reports 1.
   */
  lemma CountMissesLoneExercise(e: Exercise)
    ensures Listing([e], e.userId, None, None, None) == [e]
    ensures RunCount(CountSql([]), CountArgs(LogParams(e.userId, None, None, None)), [e]) == Some(0)
    ensures RunCount(CountSql([]), IntendedCountArgs(LogParams(e.userId, None, None, None), false), [e]) == Some(1)
  {
    assert [e][..0] == [];
    assert Filtered([e], e.userId, None, None) == [e];
    assert SortByDate([e]) == InsertByDate(e, []) == [e];
    assert BoundConds(None, None) == [];
    CountAsWritten([e], e.userId, None, None, None);
    CountAsIntended([e], e.userId, None, None, None);
  }
}

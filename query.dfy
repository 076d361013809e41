/** The search handler's query builder and how the store evaluates the SELECT statements the
    service issues. */
module Query {
  import opened Js
  import opened Table

  /** `SELECT * FROM attendance`: the list-all statement. */
  const ListAllQuery: string := "SELECT * FROM attendance"
  /** The search statement before any filter: it matches every row. */
  const BaseQuery: string := "SELECT * FROM attendance WHERE 1=1"
  const StudentIdClause: string := " AND studentId = ?"
  const TimestampClause: string := " AND timestamp LIKE ?"

  predicate StartsWith(s: string, prefix: string) {
    |prefix| <= |s| && s[..|prefix|] == prefix
  }

  /** SQL `s LIKE p` without an ESCAPE clause, compared case-sensitively: `%` matches any run of
      characters, `_` any one character, every other character itself. */
  predicate Like(s: string, p: string)
    decreases |s| + |p|
  {
    if p == [] then s == []
    else if p[0] == '%' then Like(s, p[1..]) || (s != [] && Like(s[1..], p))
    else s != [] && (p[0] == '_' || s[0] == p[0]) && Like(s[1..], p[1..])
  }

  /** A lone `%` matches every string. */
  lemma {:induction false} LikeAnything(s: string)
    ensures Like(s, "%")
    decreases |s|
  {
    if s != [] {
      LikeAnything(s[1..]);
    }
  }

  /** A date without LIKE wildcards, followed by `%`, matches exactly the strings that start with
      the date. */
  lemma {:induction false} LikePrefix(s: string, date: string)
    requires '%' !in date && '_' !in date
    ensures Like(s, date + "%") <==> StartsWith(s, date)
    decreases |date|
  {
    if date == [] {
      LikeAnything(s);
      assert date + "%" == "%";
    } else {
      var p := date + "%";
      assert p[0] == date[0] && p[1..] == date[1..] + "%";
      if s != [] {
        LikePrefix(s[1..], date[1..]);
        if StartsWith(s, date) {
          assert s[1..][..|date| - 1] == s[..|date|][1..];
        }
        if StartsWith(s[1..], date[1..]) && s[0] == date[0] {
          assert s[..|date|] == [s[0]] + s[1..][..|date| - 1];
        }
      }
    }
  }

  /** One filter of a search statement, with the parameter bound to its placeholder. */
  datatype Condition = StudentIdEquals(studentId: string) | TimestampLike(pattern: string)

  function ClauseText(c: Condition): string {
    match c
    case StudentIdEquals(_) => StudentIdClause
    case TimestampLike(_) => TimestampClause
  }

  function Param(c: Condition): string {
    match c
    case StudentIdEquals(v) => v
    case TimestampLike(p) => p
  }

  /** The text the filters append to the base query, in order. */
  function ClausesText(conds: seq<Condition>): string {
    if conds == [] then "" else ClauseText(conds[0]) + ClausesText(conds[1..])
  }

  /** The parameters bound to the filters' placeholders, in order. */
  function Params(conds: seq<Condition>): seq<string> {
    if conds == [] then [] else [Param(conds[0])] + Params(conds[1..])
  }

  lemma ClausesTextSingle(c: Condition)
    ensures ClausesText([c]) == ClauseText(c)
  {
    assert [c][1..] == [];
  }

  lemma {:induction false} ClausesTextAppend(a: seq<Condition>, c: Condition)
    ensures ClausesText(a + [c]) == ClausesText(a) + ClauseText(c)
    decreases |a|
  {
    if a == [] {
      assert a + [c] == [c];
      ClausesTextSingle(c);
    } else {
      var ac := a + [c];
      calc {
        ClausesText(ac);
        { assert ac != [] && ac[0] == a[0] && ac[1..] == a[1..] + [c]; }
        ClauseText(a[0]) + ClausesText(a[1..] + [c]);
        { ClausesTextAppend(a[1..], c); }
        ClauseText(a[0]) + (ClausesText(a[1..]) + ClauseText(c));
        { AppendAssoc(ClauseText(a[0]), ClausesText(a[1..]), ClauseText(c)); }
        (ClauseText(a[0]) + ClausesText(a[1..])) + ClauseText(c);
        ClausesText(a) + ClauseText(c);
      }
    }
  }

  lemma {:induction false} ParamsAppend(a: seq<Condition>, c: Condition)
    ensures Params(a + [c]) == Params(a) + [Param(c)]
    decreases |a|
  {
    if a == [] {
      assert a + [c] == [c] && [c][1..] == [];
    } else {
      var ac := a + [c];
      assert ac[0] == a[0] && ac[1..] == a[1..] + [c];
      ParamsAppend(a[1..], c);
    }
  }

  /** The number of `?` placeholders in a statement. */
  function Placeholders(s: string): nat {
    if s == [] then 0 else (if s[0] == '?' then 1 else 0) + Placeholders(s[1..])
  }

  lemma {:induction false} PlaceholdersAppend(a: string, b: string)
    ensures Placeholders(a + b) == Placeholders(a) + Placeholders(b)
    decreases |a|
  {
    if a == [] {
      assert a + b == b;
    } else {
      assert (a + b)[0] == a[0] && (a + b)[1..] == a[1..] + b;
      PlaceholdersAppend(a[1..], b);
    }
  }

  lemma {:induction false} NoPlaceholders(s: string)
    requires '?' !in s
    ensures Placeholders(s) == 0
    decreases |s|
  {
    if s != [] { NoPlaceholders(s[1..]); }
  }

  /** A text whose only `?` is its last character holds one placeholder. */
  lemma EndsInOnePlaceholder(s: string)
    requires s != [] && s[|s| - 1] == '?' && '?' !in s[..|s| - 1]
    ensures Placeholders(s) == 1
  {
    assert s == s[..|s| - 1] + ['?'];
    PlaceholdersAppend(s[..|s| - 1], ['?']);
    NoPlaceholders(s[..|s| - 1]);
  }

  /** The base query holds no placeholder. */
  lemma BaseHasNoPlaceholder()
    ensures Placeholders(BaseQuery) == 0
  {
    NoPlaceholders(BaseQuery);
  }

  /** Each clause holds one placeholder. */
  lemma ClauseHasOnePlaceholder(c: Condition)
    ensures Placeholders(ClauseText(c)) == 1
  {
    match c
    case StudentIdEquals(_) =>
      EndsInOnePlaceholder(StudentIdClause);
    case TimestampLike(_) =>
      EndsInOnePlaceholder(TimestampClause);
  }

  /** Every rendered statement has exactly one placeholder per parameter. */
  lemma {:induction false} PlaceholdersMatchParams(conds: seq<Condition>)
    ensures Placeholders(BaseQuery + ClausesText(conds)) == |Params(conds)|
  {
    BaseHasNoPlaceholder();
    ClausePlaceholders(conds);
    PlaceholdersAppend(BaseQuery, ClausesText(conds));
  }

  lemma {:induction false} ClausePlaceholders(conds: seq<Condition>)
    ensures Placeholders(ClausesText(conds)) == |Params(conds)|
    decreases |conds|
  {
    if conds != [] {
      ClauseHasOnePlaceholder(conds[0]);
      ClausePlaceholders(conds[1..]);
      PlaceholdersAppend(ClauseText(conds[0]), ClausesText(conds[1..]));
    }
  }

  /** The filters a search enables: an equality on studentId when that query value is truthy,
      then a LIKE on timestamp with `date + "%"` when the date is truthy. */
  function SearchConditions(studentId: Option<string>, date: Option<string>): (conds: seq<Condition>)
    ensures |conds| == (if Present(studentId) then 1 else 0) + (if Present(date) then 1 else 0)
    ensures Present(studentId) ==> conds[0] == StudentIdEquals(studentId.value)
    ensures Present(date) ==> conds[|conds| - 1] == TimestampLike(date.value + "%")
  {
    (if Present(studentId) then [StudentIdEquals(studentId.value)] else [])
    + (if Present(date) then [TimestampLike(date.value + "%")] else [])
  }

  /** The search handler's builder: start from the base query and, for each enabled filter in
      turn, append its clause to the text and its parameter to the list. */
  method BuildSearchQuery(studentId: Option<string>, date: Option<string>)
    returns (query: string, params: seq<string>)
    ensures query == BaseQuery + ClausesText(SearchConditions(studentId, date))
    ensures params == Params(SearchConditions(studentId, date))
    ensures Placeholders(query) == |params|
    ensures |params| == (if Present(studentId) then 1 else 0) + (if Present(date) then 1 else 0)
    ensures Present(studentId) ==> params[0] == studentId.value
    ensures Present(date) ==> params[|params| - 1] == date.value + "%"
    ensures !Present(studentId) && !Present(date) ==> query == BaseQuery && params == []
  {
    query := BaseQuery;
    params := [];
    ghost var conds: seq<Condition> := [];
    if Present(studentId) {
      ClausesTextAppend(conds, StudentIdEquals(studentId.value));
      ParamsAppend(conds, StudentIdEquals(studentId.value));
      query := query + StudentIdClause;
      params := params + [studentId.value];
      conds := conds + [StudentIdEquals(studentId.value)];
    }
    if Present(date) {
      ClausesTextAppend(conds, TimestampLike(date.value + "%"));
      ParamsAppend(conds, TimestampLike(date.value + "%"));
      query := query + TimestampClause;
      params := params + [date.value + "%"];
      conds := conds + [TimestampLike(date.value + "%")];
    }
    assert conds == SearchConditions(studentId, date);
    PlaceholdersMatchParams(conds);
  }

  /** How the store reads the clauses after the base query: each clause binds the next
      parameter. None when the text is not a sequence of known clauses or the number of
      parameters differs from the number of placeholders. */
  function ParseClauses(text: string, params: seq<string>): Option<seq<Condition>>
    decreases |text|
  {
    if text == [] then (if params == [] then Some([]) else None)
    else if params == [] then None
    else if StartsWith(text, StudentIdClause) then
      match ParseClauses(text[|StudentIdClause|..], params[1..])
      case Some(rest) => Some([StudentIdEquals(params[0])] + rest)
      case None => None
    else if StartsWith(text, TimestampClause) then
      match ParseClauses(text[|TimestampClause|..], params[1..])
      case Some(rest) => Some([TimestampLike(params[0])] + rest)
      case None => None
    else None
  }

  /** How the store reads a SELECT statement of the two shapes the service issues. */
  function ParseSelect(query: string, params: seq<string>): Option<seq<Condition>> {
    if query == ListAllQuery then (if params == [] then Some([]) else None)
    else if StartsWith(query, BaseQuery) then ParseClauses(query[|BaseQuery|..], params)
    else None
  }

  /** The store reads one rendered clause, binds it the next parameter and goes on with the rest. */
  lemma ParseOneClause(c: Condition, rest: string, ps: seq<string>)
    ensures ParseClauses(ClauseText(c) + rest, [Param(c)] + ps)
         == match ParseClauses(rest, ps)
            case Some(cs) => Some([c] + cs)
            case None => None
  {
    var text := ClauseText(c) + rest;
    var params := [Param(c)] + ps;
    var n := |ClauseText(c)|;
    assert text[..n] == ClauseText(c) && text[n..] == rest;
    assert params[0] == Param(c) && params[1..] == ps;
    if c.TimestampLike? {
      assert text[5] == 't' != StudentIdClause[5];
      assert !StartsWith(text, StudentIdClause);
    }
  }

  /** The store reads back exactly the conditions a statement was rendered from. */
  lemma {:induction false} ParseRendered(conds: seq<Condition>)
    ensures ParseClauses(ClausesText(conds), Params(conds)) == Some(conds)
    decreases |conds|
  {
    if conds != [] {
      var c, rest := conds[0], conds[1..];
      calc {
        ParseClauses(ClausesText(conds), Params(conds));
        { assert ClausesText(conds) == ClauseText(c) + ClausesText(rest);
          assert Params(conds) == [Param(c)] + Params(rest); }
        ParseClauses(ClauseText(c) + ClausesText(rest), [Param(c)] + Params(rest));
        { ParseOneClause(c, ClausesText(rest), Params(rest));
          ParseRendered(rest); }
        Some([c] + rest);
        { assert [c] + rest == conds; }
        Some(conds);
      }
    }
  }

  /** The whole built search statement is read back as its conditions, and is never the
      list-all statement. */
  lemma ParseSearchStatement(conds: seq<Condition>)
    ensures BaseQuery + ClausesText(conds) != ListAllQuery
    ensures ParseSelect(BaseQuery + ClausesText(conds), Params(conds)) == Some(conds)
  {
    var q := BaseQuery + ClausesText(conds);
    assert q[..|BaseQuery|] == BaseQuery && q[|BaseQuery|..] == ClausesText(conds);
    assert q != ListAllQuery by { assert |q| != |ListAllQuery|; }
    ParseRendered(conds);
  }

  /** Whether a row satisfies one condition: equality on studentId, LIKE on timestamp. */
  predicate Holds(r: Record, c: Condition) {
    match c
    case StudentIdEquals(v) => r.studentId == v
    case TimestampLike(p) => Like(r.timestamp, p)
  }

  /** Whether a row satisfies every condition (the WHERE clause, `1=1` being true). */
  predicate Matches(r: Record, conds: seq<Condition>) {
    forall i :: 0 <= i < |conds| ==> Holds(r, conds[i])
  }

  /** The rows a SELECT with these conditions returns: the matching rows, in table order. */
  function Select(rows: seq<Record>, conds: seq<Condition>): (r: seq<Record>)
    ensures |r| <= |rows|
  {
    if rows == [] then []
    else if Matches(rows[0], conds) then [rows[0]] + Select(rows[1..], conds)
    else Select(rows[1..], conds)
  }

  /** A row is selected iff it is in the table and satisfies every condition. */
  lemma {:induction false} SelectMembers(rows: seq<Record>, conds: seq<Condition>)
    ensures forall x :: x in Select(rows, conds) <==> x in rows && Matches(x, conds)
    decreases |rows|
  {
    if rows != [] {
      SelectMembers(rows[1..], conds);
      assert rows == [rows[0]] + rows[1..];
    }
  }

  /** A SELECT returns the rows in table order: ids stay increasing. */
  lemma {:induction false} SelectKeepsIdsIncreasing(rows: seq<Record>, conds: seq<Condition>)
    requires IdsIncreasing(rows)
    ensures IdsIncreasing(Select(rows, conds))
    decreases |rows|
  {
    if rows != [] {
      TailIds(rows);
      SelectKeepsIdsIncreasing(rows[1..], conds);
      if Matches(rows[0], conds) {
        SelectMembers(rows[1..], conds);
        ConsIds(rows[0], Select(rows[1..], conds));
      }
    }
  }

  /** Running a SELECT statement on the table: None when the store cannot read it. */
  function RunSelect(rows: seq<Record>, query: string, params: seq<string>): Option<seq<Record>> {
    match ParseSelect(query, params)
    case Some(conds) => Some(Select(rows, conds))
    case None => None
  }

  /** Running a built search statement selects the rows by the conditions it was built from. */
  lemma RunSearchStatement(rows: seq<Record>, conds: seq<Condition>)
    ensures RunSelect(rows, BaseQuery + ClausesText(conds), Params(conds)) == Some(Select(rows, conds))
  {
    ParseSearchStatement(conds);
  }

  /** The list-all statement returns the whole table. */
  lemma {:induction false} ListAllReturnsTable(rows: seq<Record>)
    ensures RunSelect(rows, ListAllQuery, []) == Some(rows)
  {
    SelectNoConditions(rows);
  }

  /** With no filter every row matches. */
  lemma {:induction false} SelectNoConditions(rows: seq<Record>)
    ensures Select(rows, []) == rows
    decreases |rows|
  {
    if rows != [] {
      SelectNoConditions(rows[1..]);
      assert rows == [rows[0]] + rows[1..];
    }
  }

  /** Filters combine by intersection: selecting with `a + b` is selecting with `a`, then with `b`. */
  lemma {:induction false} SelectConjunction(rows: seq<Record>, a: seq<Condition>, b: seq<Condition>)
    ensures Select(rows, a + b) == Select(Select(rows, a), b)
    decreases |rows|
  {
    if rows != [] {
      var x := rows[0];
      MatchesAppend(x, a, b);
      SelectConjunction(rows[1..], a, b);
      if Matches(x, a) {
        assert Select(rows, a) == [x] + Select(rows[1..], a);
        assert Select(rows, a)[1..] == Select(rows[1..], a);
      }
    }
  }

  lemma MatchesAppend(x: Record, a: seq<Condition>, b: seq<Condition>)
    ensures Matches(x, a + b) <==> Matches(x, a) && Matches(x, b)
  {
    if Matches(x, a) && Matches(x, b) {
      forall i | 0 <= i < |a + b| ensures Holds(x, (a + b)[i]) {
        if i < |a| { assert (a + b)[i] == a[i]; } else { assert (a + b)[i] == b[i - |a|]; }
      }
    }
    if Matches(x, a + b) {
      forall i | 0 <= i < |a| ensures Holds(x, a[i]) {
        assert (a + b)[i] == a[i];
      }
      forall i | 0 <= i < |b| ensures Holds(x, b[i]) {
        assert (a + b)[|a| + i] == b[i];
      }
    }
  }

  /** A search row matches exactly when it satisfies every enabled filter. */
  lemma SearchMatches(r: Record, studentId: Option<string>, date: Option<string>)
    ensures Matches(r, SearchConditions(studentId, date)) <==>
      && (Present(studentId) ==> r.studentId == studentId.value)
      && (Present(date) ==> Like(r.timestamp, date.value + "%"))
  {
    var conds := SearchConditions(studentId, date);
    if Present(studentId) { assert Holds(r, conds[0]) ==> r.studentId == studentId.value; }
    if Present(date) { assert Holds(r, conds[|conds| - 1]) ==> Like(r.timestamp, date.value + "%"); }
  }

  /** A search with both filters returns the intersection: the rows of the studentId search
      that the date search also keeps. */
  lemma SearchIsIntersection(rows: seq<Record>, studentId: Option<string>, date: Option<string>)
    ensures Select(rows, SearchConditions(studentId, date))
         == Select(Select(rows, SearchConditions(studentId, None)), SearchConditions(None, date))
  {
    assert SearchConditions(studentId, date)
        == SearchConditions(studentId, None) + SearchConditions(None, date);
    SelectConjunction(rows, SearchConditions(studentId, None), SearchConditions(None, date));
  }

  /** A date without LIKE wildcards selects exactly the rows whose timestamp starts with it (and
      that match the studentId filter, when there is one). */
  lemma SearchByDatePrefix(rows: seq<Record>, studentId: Option<string>, date: string)
    requires '%' !in date && '_' !in date
    ensures forall x :: x in Select(rows, SearchConditions(studentId, Some(date))) <==>
      && x in rows
      && (Present(studentId) ==> x.studentId == studentId.value)
      && StartsWith(x.timestamp, date)
  {
    forall x
      ensures x in Select(rows, SearchConditions(studentId, Some(date))) <==>
        && x in rows
        && (Present(studentId) ==> x.studentId == studentId.value)
        && StartsWith(x.timestamp, date)
    {
      SearchMatches(x, studentId, Some(date));
      LikePrefix(x.timestamp, date);
    }
    SelectMembers(rows, SearchConditions(studentId, Some(date)));
  }

  /** The rows a search returns are exactly the table's rows that match every enabled filter. */
  lemma SearchSelects(rows: seq<Record>, studentId: Option<string>, date: Option<string>)
    ensures forall x :: x in Select(rows, SearchConditions(studentId, date)) <==>
      && x in rows
      && (Present(studentId) ==> x.studentId == studentId.value)
      && (Present(date) ==> Like(x.timestamp, date.value + "%"))
  {
    forall x
      ensures x in Select(rows, SearchConditions(studentId, date)) <==>
        && x in rows
        && (Present(studentId) ==> x.studentId == studentId.value)
        && (Present(date) ==> Like(x.timestamp, date.value + "%"))
    {
      SearchMatches(x, studentId, date);
    }
    SelectMembers(rows, SearchConditions(studentId, date));
  }
}

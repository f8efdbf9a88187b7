/**
 The SQL statement builders of index.js: pure functions from a table name and
 key/value maps to SQL text. A map is the sequence of a JavaScript object's
 entries in `for...in` order; each builder appends one item plus a separator
 per entry and then cuts at the last occurrence of that separator.
 */
module SqlBuilder {
  import opened Outcomes
  import opened JsValues
  import opened JsStrings

  /** One property of a row body, set map or where map. */
  type Entry = (string, Value)

  /** The entries of a JavaScript object, in iteration order. */
  type Row = seq<Entry>

  function Keys(m: Row): seq<string> {
    seq(|m|, i requires 0 <= i < |m| => m[i].0)
  }

  /** `buildInsert`'s value rendering: every falsy value becomes an unquoted `null`. */
  function InsertLiteral(v: Value): string {
    if Falsy(v) then "null" else "'" + ToText(v) + "'"
  }

  /** `buildUpdate`'s and `buildWhereClause`'s value rendering: only a strict `null` stays unquoted. */
  function StrictLiteral(v: Value): string {
    if v == Null then "null" else "'" + ToText(v) + "'"
  }

  /** `key = value`, the text of one set item and of one where predicate. */
  function Assignment(e: Entry): string {
    e.0 + " = " + StrictLiteral(e.1)
  }

  function InsertLiterals(m: Row): seq<string> {
    seq(|m|, i requires 0 <= i < |m| => InsertLiteral(m[i].1))
  }

  function Assignments(m: Row): seq<string> {
    seq(|m|, i requires 0 <= i < |m| => Assignment(m[i]))
  }

  /** `buildWhereClause(where)`; `None` is an absent (falsy) where argument. */
  function BuildWhereClause(where: Option<Row>): string {
    match where
    case None => ""
    case Some(m) => TrimLast(AppendEach(" where ", Assignments(m), " and "), " and ")
  }

  /** `buildInsert(tableName, body)`. */
  function BuildInsert(table: string, body: Row): string {
    var head := TrimLast(AppendEach("insert into " + table + " (", Keys(body), ","), ",") + ") values (";
    TrimLast(AppendEach(head, InsertLiterals(body), ","), ",") + ")"
  }

  /** `buildDelete(tableName, where)`. */
  function BuildDelete(table: string, where: Option<Row>): string {
    "delete from " + table + " " + BuildWhereClause(where)
  }

  /** `buildUpdate(tableName, set, where)`. */
  function BuildUpdate(table: string, changes: Row, where: Option<Row>): string {
    TrimLast(AppendEach("update " + table + " set ", Assignments(changes), ", "), ", ") + BuildWhereClause(where)
  }

  /** `buildSelect(tableName, where)`. */
  function BuildSelect(table: string, where: Option<Row>): string {
    "select * from " + table + BuildWhereClause(where)
  }

  // ---------------------------------------------------------------------------
  // Value policies

  /** In an insert, exactly the falsy values render as `null`; every other value is quoted text. */
  lemma InsertNullPolicy(v: Value)
    ensures InsertLiteral(v) == "null" <==> Falsy(v)
    ensures !Falsy(v) ==> InsertLiteral(v) == "'" + ToText(v) + "'"
  {
    if !Falsy(v) {
      assert InsertLiteral(v)[0] == '\'';
    }
  }

  /** In a set or where map, exactly a strict `null` renders as `null`; every other value is quoted text. */
  lemma StrictNullPolicy(v: Value)
    ensures StrictLiteral(v) == "null" <==> v == Null
    ensures v != Null ==> StrictLiteral(v) == "'" + ToText(v) + "'"
  {
    if v != Null {
      assert StrictLiteral(v)[0] == '\'';
    }
  }

  /** The two policies disagree on exactly the falsy values other than `null`. */
  lemma PoliciesDiffer(v: Value)
    ensures InsertLiteral(v) != StrictLiteral(v) <==> Falsy(v) && v != Null
  {
    if Falsy(v) && v != Null {
      assert StrictLiteral(v)[0] == '\'';
    }
  }

  /** Zero, the empty string, `false` and `undefined` are quoted in set and where maps. */
  lemma FalsyQuotedInWhere()
    ensures StrictLiteral(Num(0)) == "'0'"
    ensures StrictLiteral(Str("")) == "''"
    ensures StrictLiteral(Bool(false)) == "'false'"
    ensures StrictLiteral(Undefined) == "'undefined'"
  {
  }

  // ---------------------------------------------------------------------------
  // buildWhereClause

  /** `" where "` holds no `" and "`, so an empty where map trims to nothing. */
  lemma EmptyWhereTrims()
    ensures TrimLast(" where ", " and ") == ""
  {
    assert 'a' in " and ";
    TrimAbsent(" where ", " and ", 'a');
  }

  /** An absent or empty where map yields the empty string. */
  lemma WhereClauseUnfiltered(where: Option<Row>)
    requires where == None || where == Some([])
    ensures BuildWhereClause(where) == ""
  {
    if where.Some? {
      EmptyWhereTrims();
    }
  }

  /** A non-empty where map yields `" where "` and one predicate per entry, in order, joined by `" and "`. */
  lemma WhereClauseFiltered(m: Row)
    requires |m| > 0
    ensures BuildWhereClause(Some(m)) == " where " + Join(Assignments(m), " and ")
  {
    AppendTrimJoin(" where ", Assignments(m), " and ");
  }

  /** A rendered value ends in `l` (of `null`) or in a closing quote, under either policy. */
  lemma LiteralLastChar(v: Value)
    ensures var a := InsertLiteral(v); |a| > 0 && (a[|a| - 1] == 'l' || a[|a| - 1] == '\'')
    ensures var a := StrictLiteral(v); |a| > 0 && (a[|a| - 1] == 'l' || a[|a| - 1] == '\'')
  {
  }

  /** The assignments of a non-empty map, joined by any separator, end in `l` or a closing quote. */
  lemma JoinedAssignmentsEnd(m: Row, sep: string)
    requires |m| > 0
    ensures var j := Join(Assignments(m), sep); |j| > 0 && (j[|j| - 1] == 'l' || j[|j| - 1] == '\'')
  {
    var ps := Assignments(m);
    var a := Assignment(m[|m| - 1]);
    assert ps[|ps| - 1] == a;
    LiteralLastChar(m[|m| - 1].1);
    assert a[|a| - 1] == StrictLiteral(m[|m| - 1].1)[|StrictLiteral(m[|m| - 1].1)| - 1];
    JoinLastChar(ps, sep);
  }

  /**
   The where clause is never a bare `" where "`: it is either empty or
   `" where "` followed by at least one predicate, and it never ends with a
   dangling `" and "`.
   */
  lemma WhereClauseWellFormed(where: Option<Row>)
    ensures var r := BuildWhereClause(where);
      r == "" || (" where " < r && !EndsWith(r, " and "))
  {
    match where
    case None =>
    case Some(m) =>
      if |m| == 0 {
        WhereClauseUnfiltered(where);
      } else {
        var j := Join(Assignments(m), " and ");
        WhereClauseFiltered(m);
        JoinedAssignmentsEnd(m, " and ");
        var r := " where " + j;
        assert r[|r| - 1] == j[|j| - 1];
      }
  }

  /** A predicate ends in `l` or a closing quote, neither of which occurs in `" and "`. */
  lemma AssignmentUnbroken(e: Entry)
    requires !Contains(Assignment(e), " and ")
    ensures Unbroken(Assignment(e), " and ")
  {
    var a := Assignment(e);
    var lit := StrictLiteral(e.1);
    LiteralLastChar(e.1);
    assert a[|a| - 1] == lit[|lit| - 1];
    assert 'l' !in " and " && '\'' !in " and ";
  }

  /**
   Read back from its text, a where clause gives its predicates: when no
   `key = value` predicate contains `" and "`, the clause is `" where "`
   followed by text that splits at `" and "` into exactly one predicate per
   entry, in order.
   */
  lemma WhereClauseSplits(m: Row)
    requires |m| > 0
    requires forall i :: 0 <= i < |m| ==> !Contains(Assignment(m[i]), " and ")
    ensures var r := BuildWhereClause(Some(m));
      " where " <= r && Split(r[|" where "|..], " and ") == Assignments(m)
  {
    var ps := Assignments(m);
    WhereClauseFiltered(m);
    forall i | 0 <= i < |ps| ensures Unbroken(ps[i], " and ") {
      AssignmentUnbroken(m[i]);
    }
    SplitJoin(ps, " and ");
    var r := " where " + Join(ps, " and ");
    assert r[|" where "|..] == Join(ps, " and ");
  }

  /**
   The where text does not determine the where map: a number and the string
   of its digits render as the same quoted literal, so swapping one for the
   other leaves the clause unchanged.
   */
  lemma WhereNumberStringCollide(m: Row, i: nat, n: int)
    requires i < |m| && m[i].1 == Num(n)
    ensures var swapped := m[i := (m[i].0, Str(IntText(n)))];
      swapped != m && BuildWhereClause(Some(swapped)) == BuildWhereClause(Some(m))
  {
    var swapped := m[i := (m[i].0, Str(IntText(n)))];
    assert swapped[i] != m[i];
    assert Assignments(swapped) == Assignments(m);
  }

  // ---------------------------------------------------------------------------
  // buildInsert

  /** A non-empty body yields `insert into T (k1,...,kn) values (v1,...,vn)` with the body's keys and values in order. */
  lemma InsertShape(table: string, body: Row)
    requires |body| > 0
    ensures BuildInsert(table, body)
      == "insert into " + table + " (" + Join(Keys(body), ",") + ") values (" + Join(InsertLiterals(body), ",") + ")"
    ensures |Keys(body)| == |InsertLiterals(body)| == |body|
  {
    var start := "insert into " + table + " (";
    AppendTrimJoin(start, Keys(body), ",");
    AppendTrimJoin(start + Join(Keys(body), ",") + ") values (", InsertLiterals(body), ",");
  }

  /**
   Read back from the built statement, the column list and the value list
   have one item per body entry, in body order: the i-th column is the i-th
   key and the i-th value is the i-th value's rendering. Splitting at commas
   recovers them when neither keys nor value texts contain a comma.
   */
  lemma InsertColumnsMatchValues(table: string, body: Row)
    requires |body| > 0
    requires forall i :: 0 <= i < |body| ==> ',' !in body[i].0 && ',' !in ToText(body[i].1)
    ensures var cols := Join(Keys(body), ","); var vals := Join(InsertLiterals(body), ",");
      && BuildInsert(table, body) == "insert into " + table + " (" + cols + ") values (" + vals + ")"
      && |Split(cols, ",")| == |Split(vals, ",")| == |body|
      && (forall i :: 0 <= i < |body| ==> Split(cols, ",")[i] == body[i].0)
      && (forall i :: 0 <= i < |body| ==> Split(vals, ",")[i] == InsertLiteral(body[i].1))
  {
    InsertShape(table, body);
    assert "," == [','];
    var ks := Keys(body);
    var vs := InsertLiterals(body);
    forall i | 0 <= i < |ks| ensures Unbroken(ks[i], ",") {
      CharUnbroken(ks[i], ',');
    }
    forall i | 0 <= i < |vs| ensures Unbroken(vs[i], ",") {
      var t := ToText(body[i].1);
      if !Falsy(body[i].1) {
        assert vs[i] == "'" + t + "'";
      }
      CharUnbroken(vs[i], ',');
    }
    SplitJoin(ks, ",");
    SplitJoin(vs, ",");
  }

  /** A non-empty insert ends with `)` and has no dangling comma before it. */
  lemma InsertNoDanglingComma(table: string, body: Row)
    requires |body| > 0
    ensures var r := BuildInsert(table, body); |r| >= 2 && r[|r| - 1] == ')' && r[|r| - 2] != ','
  {
    InsertShape(table, body);
    var vs := InsertLiterals(body);
    var last := vs[|vs| - 1];
    LiteralLastChar(body[|body| - 1].1);
    JoinLastChar(vs, ",");
    var j := Join(vs, ",");
    var r := "insert into " + table + " (" + Join(Keys(body), ",") + ") values (" + j + ")";
    assert r[|r| - 2] == j[|j| - 1];
  }

  /** When no key contains a comma, the column list splits back into exactly the body's keys. */
  lemma InsertColumnsRecoverKeys(body: Row)
    requires |body| > 0
    requires forall i :: 0 <= i < |body| ==> ',' !in body[i].0
    ensures Split(Join(Keys(body), ","), ",") == Keys(body)
  {
    var ks := Keys(body);
    assert "," == [','];
    forall i | 0 <= i < |ks| ensures Unbroken(ks[i], ",") {
      CharUnbroken(ks[i], ',');
    }
    SplitJoin(ks, ",");
  }

  /**
   The builder leaves no comma of its own at the end of the column list: the
   list ends in a comma exactly when the last key does, or when the last key
   is empty and follows another.
   */
  lemma InsertColumnsTrailingComma(table: string, body: Row)
    requires |body| > 0
    ensures var cols := Join(Keys(body), ","); var k := body[|body| - 1].0;
      && BuildInsert(table, body)
        == "insert into " + table + " (" + cols + ") values (" + Join(InsertLiterals(body), ",") + ")"
      && (EndsWith(cols, ",") <==> EndsWith(k, ",") || (k == "" && |body| > 1))
  {
    InsertShape(table, body);
    var ks := Keys(body);
    var cols := Join(ks, ",");
    var k := body[|body| - 1].0;
    assert ks[|ks| - 1] == k;
    if |k| > 0 {
      JoinLastChar(ks, ",");
      assert EndsWith(cols, ",") <==> cols[|cols| - 1] == ',';
      assert EndsWith(k, ",") <==> k[|k| - 1] == ',';
    } else if |body| > 1 {
      JoinEndsWithSepLast(ks, ",");
      assert "," + k == ",";
    } else {
      assert cols == k;
    }
  }

  /** An empty body collapses the whole insert to `")"`, because neither trim finds a comma. */
  lemma InsertEmptyBody(table: string)
    requires ',' !in table
    ensures BuildInsert(table, []) == ")"
  {
    var start := "insert into " + table + " (";
    assert ',' !in start;
    TrimAbsent(start, ",", ',');
    TrimAbsent(") values (", ",", ',');
  }

  lemma ExampleColumns(body: Row)
    requires body == [("name", Str("Ann")), ("age", Num(30))]
    ensures Join(Keys(body), ",") == "name,age"
  {
    assert Keys(body) == ["name", "age"];
    assert Join(Keys(body), ",") == "name" + "," + "age";
  }

  lemma ExampleValues(body: Row)
    requires body == [("name", Str("Ann")), ("age", Num(30))]
    ensures Join(InsertLiterals(body), ",") == "'Ann','30'"
  {
    assert DigitChar(3) == '3' && DigitChar(0) == '0';
    assert ToText(Num(30)) == "30";
    assert InsertLiteral(Str("Ann")) == "'Ann'";
    assert InsertLiteral(Num(30)) == "'30'";
    var literals := InsertLiterals(body);
    assert |literals| == 2 && literals[0] == "'Ann'" && literals[1] == "'30'";
    assert literals == ["'Ann'", "'30'"];
    assert Join(literals, ",") == "'Ann'" + "," + "'30'";
  }

  /** The concrete example: a number is quoted exactly like a string. */
  lemma InsertExample(table: string, body: Row)
    requires table == "users" && body == [("name", Str("Ann")), ("age", Num(30))]
    ensures BuildInsert(table, body) == "insert into " + table + " (" + "name,age" + ") values (" + "'Ann','30'" + ")"
  {
    ExampleColumns(body);
    ExampleValues(body);
    InsertShape(table, body);
  }

  // ---------------------------------------------------------------------------
  // buildUpdate, buildSelect, buildDelete

  /** A non-empty set map yields `update T set k1 = v1, ..., kn = vn` followed by exactly the where clause. */
  lemma UpdateShape(table: string, changes: Row, where: Option<Row>)
    requires |changes| > 0
    ensures BuildUpdate(table, changes, where)
      == "update " + table + " set " + Join(Assignments(changes), ", ") + BuildWhereClause(where)
  {
    AppendTrimJoin("update " + table + " set ", Assignments(changes), ", ");
  }

  /** The set clause of a non-empty update never ends with a dangling `", "` before the where clause. */
  lemma UpdateNoDanglingSeparator(table: string, changes: Row, where: Option<Row>)
    requires |changes| > 0
    ensures var setClause := "update " + table + " set " + Join(Assignments(changes), ", ");
      BuildUpdate(table, changes, where) == setClause + BuildWhereClause(where)
      && !EndsWith(setClause, ", ")
  {
    UpdateShape(table, changes, where);
    JoinedAssignmentsEnd(changes, ", ");
    var j := Join(Assignments(changes), ", ");
    var setClause := "update " + table + " set " + j;
    assert setClause[|setClause| - 1] == j[|j| - 1];
  }

  /** An empty set map collapses the update to just the where clause. */
  lemma UpdateEmptySet(table: string, where: Option<Row>)
    requires ',' !in table
    ensures BuildUpdate(table, [], where) == BuildWhereClause(where)
  {
    var start := "update " + table + " set ";
    assert ',' !in start;
    assert ',' in ", ";
    TrimAbsent(start, ", ", ',');
  }

  /** With no filter, or an empty one, a select is exactly `select * from T`. */
  lemma SelectUnfiltered(table: string, where: Option<Row>)
    requires where == None || where == Some([])
    ensures BuildSelect(table, where) == "select * from " + table
  {
    WhereClauseUnfiltered(where);
  }

  /** With a non-empty filter, a select is `select * from T where p1 and ... and pn`. */
  lemma SelectFiltered(table: string, m: Row)
    requires |m| > 0
    ensures BuildSelect(table, Some(m)) == "select * from " + table + " where " + Join(Assignments(m), " and ")
  {
    WhereClauseFiltered(m);
  }

  /**
   The filter of a select reads back from its text: after
   `select * from T where `, splitting at `" and "` gives one predicate per
   where entry, in order, when no predicate contains `" and "`.
   */
  lemma SelectFilterSplits(table: string, m: Row)
    requires |m| > 0
    requires forall i :: 0 <= i < |m| ==> !Contains(Assignment(m[i]), " and ")
    ensures var prefix := "select * from " + table + " where "; var s := BuildSelect(table, Some(m));
      prefix <= s && Split(s[|prefix|..], " and ") == Assignments(m)
  {
    WhereClauseSplits(m);
    var w := BuildWhereClause(Some(m));
    var s := "select * from " + table + w;
    assert s[|"select * from " + table + " where "|..] == w[|" where "|..];
  }

  /** With no filter, or an empty one, a delete is `delete from T ` and affects every row. */
  lemma DeleteUnfiltered(table: string, where: Option<Row>)
    requires where == None || where == Some([])
    ensures BuildDelete(table, where) == "delete from " + table + " "
  {
    WhereClauseUnfiltered(where);
  }

  /** With a non-empty filter, a delete is `delete from T  where p1 and ... and pn` (two spaces, as written). */
  lemma DeleteFiltered(table: string, m: Row)
    requires |m| > 0
    ensures BuildDelete(table, Some(m)) == "delete from " + table + "  where " + Join(Assignments(m), " and ")
  {
    WhereClauseFiltered(m);
  }
}

/**
 Query and parameter construction of the database helpers (db/utils.py):
 `is_row_exist`, `update_table` and `insert_table`. Only the text of each
 statement and its parameter tuple are modelled; executing a statement is
 modelled in `Tables`.
 */
module Sql {
  import opened Values

  /** A parameterised statement: the query text with `%s` placeholders and the tuple bound to them. */
  datatype Statement = Statement(query: string, params: seq<Value>)

  /** Python's `sep.join(parts)`. */
  function Join(sep: string, parts: seq<string>): string
  {
    if |parts| == 0 then ""
    else if |parts| == 1 then parts[0]
    else parts[0] + sep + Join(sep, parts[1..])
  }

  /** `[f'{k}=%s' for k in cols]` */
  function Assignments(cols: seq<string>): (a: seq<string>)
    ensures |a| == |cols|
    ensures forall i :: 0 <= i < |cols| ==> a[i] == cols[i] + "=%s"
  {
    if cols == [] then [] else [cols[0] + "=%s"] + Assignments(cols[1..])
  }

  /** `[x] * n` */
  function Repeat(x: string, n: nat): (r: seq<string>)
    ensures |r| == n
    ensures forall i :: 0 <= i < n ==> r[i] == x
  {
    if n == 0 then [] else [x] + Repeat(x, n - 1)
  }

  /** The number of `%s` placeholders in a query text. */
  function Placeholders(s: string): nat
  {
    if |s| < 2 then 0
    else (if s[0] == '%' && s[1] == 's' then 1 else 0) + Placeholders(s[1..])
  }

  predicate NoPercent(s: string)
  {
    '%' !in s
  }

  /** Every column name is a plain identifier, free of `%`. */
  predicate PlainColumns(cols: seq<string>)
  {
    forall i :: 0 <= i < |cols| ==> NoPercent(cols[i])
  }

  /** `SELECT {col} from {table} WHERE {col}=%s;` bound to `(val,)`. */
  function ExistsStatement(col: string, val: Value, table: string): (s: Statement)
    ensures s.params == [val]
  {
    Statement("SELECT " + col + " from " + table + " WHERE " + col + "=%s;", [val])
  }

  /** The existence lookup has a single placeholder, matching its one parameter. */
  lemma ExistsPlaceholders(col: string, val: Value, table: string)
    requires NoPercent(col) && NoPercent(table)
    ensures Placeholders(ExistsStatement(col, val, table).query) == 1
  {
    var a := "SELECT " + col + " from " + table + " WHERE " + col;
    PlaceholdersNone(a);
    PlaceholdersAppend(a, "=%s;");
    assert ExistsStatement(col, val, table).query == a + "=%s;";
  }

  /** `is_row_exist`: the row is reported to exist exactly when the lookup's rowcount is positive. */
  function IsRowExist(col: string, val: Value, table: string, rowcountOf: Statement -> int): (r: bool)
  {
    rowcountOf(ExistsStatement(col, val, table)) > 0
  }

  /**
   `is_row_exist` never writes the value into the query text: its answer is the
   rowcount of one fixed query, the same for every value, with the value bound
   as the only parameter.
   */
  lemma IsRowExistBindsValue(col: string, val: Value, table: string, rowcountOf: Statement -> int)
    ensures IsRowExist(col, val, table, rowcountOf) <==>
            rowcountOf(Statement(ExistsStatement(col, Null, table).query, [val])) > 0
  {
    ExistsQueryValueFree(col, val, Null, table);
  }

  /** The lookup's text is the same for any two values; only the bound parameter differs. */
  lemma ExistsQueryValueFree(col: string, val: Value, val': Value, table: string)
    ensures ExistsStatement(col, val, table).query == ExistsStatement(col, val', table).query
    ensures ExistsStatement(col, val, table).params != ExistsStatement(col, val', table).params <==> val != val'
  {
  }

  /** `update_table`'s SET clause. */
  function SetClause(cols: seq<string>): string
  {
    Join(",", Assignments(cols))
  }

  /** `update_table(val_map, where_clause, table_name, cur)`: the statement it executes. */
  function UpdateStatement(valMap: ValMap, whereClause: string, table: string): (s: Statement)
  {
    Statement(UpdateHead(table) + SetClause(Columns(valMap)) + UpdateTail(whereClause), ValuesOf(valMap))
  }

  /**
   Two column maps with the same column names give the same UPDATE text: the
   values reach the database only as parameters, the i-th of them bound to the
   i-th `col=%s` of the SET clause.
   */
  lemma UpdateQueryColumnsOnly(a: ValMap, b: ValMap, whereClause: string, table: string)
    requires Columns(a) == Columns(b)
    ensures UpdateStatement(a, whereClause, table).query == UpdateStatement(b, whereClause, table).query
    ensures forall i :: 0 <= i < |a| ==>
              && Assignments(Columns(a))[i] == a[i].column + "=%s"
              && UpdateStatement(a, whereClause, table).params[i] == a[i].value
  {
  }

  /** The UPDATE statement has exactly one placeholder per bound parameter. */
  lemma UpdatePlaceholders(valMap: ValMap, whereClause: string, table: string)
    requires NoPercent(table) && NoPercent(whereClause) && PlainColumns(Columns(valMap))
    ensures Placeholders(UpdateStatement(valMap, whereClause, table).query)
            == |UpdateStatement(valMap, whereClause, table).params|
  {
    SetClausePlaceholders(Columns(valMap));
    PlaceholdersNone(UpdateHead(table));
    PlaceholdersNone(UpdateTail(whereClause));
    PlaceholdersAppend(UpdateHead(table), SetClause(Columns(valMap)));
    SetClauseLast(Columns(valMap));
    PlaceholdersAppend(UpdateHead(table) + SetClause(Columns(valMap)), UpdateTail(whereClause));
  }

  function UpdateHead(table: string): string
  {
    "\n        UPDATE " + table + " \n        SET\n            "
  }

  function UpdateTail(whereClause: string): string
  {
    "\n        WHERE\n            " + whereClause + ";\n    "
  }

  /** The `INSERT INTO ... VALUES (...)` part of `insert_table`'s query. */
  function InsertHead(table: string, cols: seq<string>): string
  {
    InsertColumns(table, cols) + Join(",", Repeat("%s", |cols|)) + ")\n        "
  }

  /** `INSERT INTO {table_name} ({','.join(column_list)})` up to the opening of the VALUES list. */
  function InsertColumns(table: string, cols: seq<string>): string
  {
    "\n        INSERT INTO " + table + " (" + Join(",", cols) + ")\n        VALUES ("
  }

  /** The `ON DUPLICATE KEY UPDATE ...` part of `insert_table`'s query. */
  function OnDuplicateClause(cols: seq<string>): string
  {
    "\n        ON DUPLICATE KEY UPDATE\n           " + SetClause(cols) + "\n        "
  }

  /** `insert_table(val_map, table_name, cur, on_duplicate_update_val_map)`: the statement it executes. */
  function InsertStatement(valMap: ValMap, table: string, onDuplicate: Option<ValMap>): (s: Statement)
  {
    match onDuplicate
    case None => Statement(InsertHead(table, Columns(valMap)) + ";", ValuesOf(valMap))
    case Some(upd) =>
      Statement(InsertHead(table, Columns(valMap)) + OnDuplicateClause(Columns(upd)) + ";",
                ValuesOf(valMap) + ValuesOf(upd))
  }

  /**
   Two inserts with the same column names, and the same on-duplicate column
   names, give the same INSERT text. The parameters are the insert values in
   column order, followed by the on-duplicate values.
   */
  lemma InsertQueryColumnsOnly(a: ValMap, b: ValMap, table: string, ua: Option<ValMap>, ub: Option<ValMap>)
    requires Columns(a) == Columns(b)
    requires ua.None? <==> ub.None?
    requires ua.Some? ==> Columns(ua.value) == Columns(ub.value)
    ensures InsertStatement(a, table, ua).query == InsertStatement(b, table, ub).query
    ensures var ps := InsertStatement(a, table, ua).params;
            && |ps| == |a| + (if ua.Some? then |ua.value| else 0)
            && (forall i :: 0 <= i < |a| ==> ps[i] == a[i].value)
            && (ua.Some? ==> forall i :: 0 <= i < |ua.value| ==> ps[|a| + i] == ua.value[i].value)
  {
  }

  /** The INSERT statement, with or without its ON DUPLICATE KEY UPDATE clause, has one placeholder per parameter. */
  lemma InsertPlaceholders(valMap: ValMap, table: string, onDuplicate: Option<ValMap>)
    requires NoPercent(table) && PlainColumns(Columns(valMap))
    requires onDuplicate.Some? ==> PlainColumns(Columns(onDuplicate.value))
    ensures Placeholders(InsertStatement(valMap, table, onDuplicate).query)
            == |InsertStatement(valMap, table, onDuplicate).params|
  {
    var head := InsertHead(table, Columns(valMap));
    InsertHeadPlaceholders(table, Columns(valMap));
    match onDuplicate
    case None =>
      PlaceholdersAppend(head, ";");
    case Some(upd) =>
      var clause := OnDuplicateClause(Columns(upd));
      OnDuplicatePlaceholders(Columns(upd));
      PlaceholdersAppend(head, clause);
      assert clause[|clause| - 1] == ' ';
      PlaceholdersAppend(head + clause, ";");
  }

  // ---- placeholder counting ----

  lemma {:induction false} PlaceholdersNone(s: string)
    requires NoPercent(s)
    ensures Placeholders(s) == 0
  {
    if |s| >= 2 {
      PlaceholdersNone(s[1..]);
    }
  }

  /** Counting is additive across a boundary that does not split a `%s`. */
  lemma {:induction false} PlaceholdersAppend(a: string, b: string)
    requires a == [] || a[|a| - 1] != '%'
    ensures Placeholders(a + b) == Placeholders(a) + Placeholders(b)
  {
    if a == [] {
      assert a + b == b;
    } else if |a| == 1 {
      assert (a + b)[1..] == b;
    } else {
      assert (a + b)[1..] == a[1..] + b;
      PlaceholdersAppend(a[1..], b);
    }
  }

  /** A joined list of parts that do not end in `%` holds the parts' placeholders and no more. */
  lemma {:induction false} JoinPlaceholders(sep: string, parts: seq<string>)
    requires NoPercent(sep) && sep != []
    requires forall i :: 0 <= i < |parts| ==> parts[i] != [] && parts[i][|parts[i]| - 1] != '%'
    ensures Placeholders(Join(sep, parts)) == SumPlaceholders(parts)
    ensures |parts| > 0 ==> |Join(sep, parts)| > 0
    ensures Join(sep, parts) == [] || Join(sep, parts)[|Join(sep, parts)| - 1] != '%'
  {
    if |parts| > 1 {
      var j := Join(sep, parts[1..]);
      JoinPlaceholders(sep, parts[1..]);
      PlaceholdersNone(sep);
      PlaceholdersAppend(parts[0], sep);
      PlaceholdersAppend(parts[0] + sep, j);
      assert Join(sep, parts) == (parts[0] + sep) + j;
      assert Join(sep, parts)[|Join(sep, parts)| - 1] == j[|j| - 1];
    }
  }

  function SumPlaceholders(parts: seq<string>): nat
  {
    if parts == [] then 0 else Placeholders(parts[0]) + SumPlaceholders(parts[1..])
  }

  lemma AssignmentPlaceholders(c: string)
    requires NoPercent(c)
    ensures Placeholders(c + "=%s") == 1
  {
    PlaceholdersNone(c);
    PlaceholdersAppend(c, "=%s");
  }

  lemma {:induction false} SumAssignments(cols: seq<string>)
    requires PlainColumns(cols)
    ensures SumPlaceholders(Assignments(cols)) == |cols|
  {
    if cols != [] {
      AssignmentPlaceholders(cols[0]);
      SumAssignments(cols[1..]);
      assert Assignments(cols)[1..] == Assignments(cols[1..]);
    }
  }

  lemma {:induction false} SumRepeat(n: nat)
    ensures SumPlaceholders(Repeat("%s", n)) == n
  {
    if n > 0 {
      SumRepeat(n - 1);
      assert Repeat("%s", n)[1..] == Repeat("%s", n - 1);
    }
  }

  lemma {:induction false} SumPlain(cols: seq<string>)
    requires PlainColumns(cols)
    ensures SumPlaceholders(cols) == 0
  {
    if cols != [] {
      PlaceholdersNone(cols[0]);
      SumPlain(cols[1..]);
    }
  }

  /** The SET clause carries one placeholder per column. */
  lemma SetClausePlaceholders(cols: seq<string>)
    requires PlainColumns(cols)
    ensures Placeholders(SetClause(cols)) == |cols|
  {
    JoinPlaceholders(",", Assignments(cols));
    SumAssignments(cols);
  }

  lemma SetClauseLast(cols: seq<string>)
    requires PlainColumns(cols)
    ensures SetClause(cols) == [] || SetClause(cols)[|SetClause(cols)| - 1] != '%'
  {
    JoinPlaceholders(",", Assignments(cols));
  }

  lemma InsertHeadPlaceholders(table: string, cols: seq<string>)
    requires NoPercent(table) && PlainColumns(cols)
    ensures Placeholders(InsertHead(table, cols)) == |cols|
    ensures InsertHead(table, cols)[|InsertHead(table, cols)| - 1] != '%'
  {
    var p := InsertColumns(table, cols);
    var marks := Join(",", Repeat("%s", |cols|));
    var c := ")\n        ";
    InsertColumnsNoPercent(table, cols);
    PlaceholdersNone(p);
    PlaceholdersNone(c);
    JoinPlaceholders(",", Repeat("%s", |cols|));
    SumRepeat(|cols|);
    PlaceholdersAppend(p, marks);
    PlaceholdersAppend(p + marks, c);
    assert InsertHead(table, cols) == (p + marks) + c;
    assert InsertHead(table, cols)[|InsertHead(table, cols)| - 1] == c[|c| - 1];
  }

  lemma NoPercentConcat(a: string, b: string)
    requires NoPercent(a) && NoPercent(b)
    ensures NoPercent(a + b)
  {
  }

  lemma InsertColumnsNoPercent(table: string, cols: seq<string>)
    requires NoPercent(table) && PlainColumns(cols)
    ensures NoPercent(InsertColumns(table, cols))
  {
    NamesNoPercent(cols);
    var a := "\n        INSERT INTO ";
    var b := " (";
    var d := ")\n        VALUES (";
    NoPercentConcat(a, table);
    NoPercentConcat(a + table, b);
    NoPercentConcat(a + table + b, Join(",", cols));
    NoPercentConcat(a + table + b + Join(",", cols), d);
  }

  /** Joining `%`-free column names produces a `%`-free list. */
  lemma {:induction false} NamesNoPercent(cols: seq<string>)
    requires PlainColumns(cols)
    ensures NoPercent(Join(",", cols))
  {
    if |cols| > 1 {
      NamesNoPercent(cols[1..]);
    }
  }

  /** Text free of `%` around a middle part adds no placeholders to it. */
  lemma Sandwich(a: string, m: string, c: string)
    requires NoPercent(a) && NoPercent(c) && a != []
    requires m == [] || m[|m| - 1] != '%'
    ensures Placeholders(a + m + c) == Placeholders(m)
  {
    PlaceholdersNone(a);
    PlaceholdersNone(c);
    assert a[|a| - 1] in a;
    PlaceholdersAppend(a, m);
    if m == [] {
      assert a + m == a;
    } else {
      assert (a + m)[|a + m| - 1] == m[|m| - 1];
    }
    PlaceholdersAppend(a + m, c);
  }

  lemma OnDuplicatePlaceholders(cols: seq<string>)
    requires PlainColumns(cols)
    ensures Placeholders(OnDuplicateClause(cols)) == |cols|
  {
    SetClausePlaceholders(cols);
    SetClauseLast(cols);
    Sandwich("\n        ON DUPLICATE KEY UPDATE\n           ", SetClause(cols), "\n        ");
  }
}

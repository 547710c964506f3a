/** The task list page (index.php): the filtered SELECT it prepares, what
    that statement selects, the per-status tallies and the due-date column. */
module TaskIndex {
  import opened Wrappers
  import opened PhpStrings
  import opened TaskHelpers
  import opened TaskStore

  // ------------------------------------------------------------ filters

  datatype Filters = Filters(search: string, status: string, priority: string)

  /** A GET parameter: sanitised when present, '' when absent. */
  function RequestParam(request: map<string, string>, key: string): string {
    if key in request then SanitizeInput(request[key]) else ""
  }

  /** index.php:11-13: an absent parameter is no filter, and no filter
      holds a raw tag bracket or quote. */
  function ReadFilters(request: map<string, string>): (f: Filters)
    ensures "search" !in request ==> f.search == ""
    ensures "status" !in request ==> f.status == ""
    ensures "priority" !in request ==> f.priority == ""
    ensures Unmarked(f.search) && Unmarked(f.status) && Unmarked(f.priority)
  {
    Filters(RequestParam(request, "search"), RequestParam(request, "status"), RequestParam(request, "priority"))
  }

  /** The meaning the filters are meant to have: every non-empty filter
      holds; search looks in the title or the description. */
  predicate Matches(f: Filters, t: Task) {
    && (!Empty(f.search) ==> Contains(t.title, f.search) || Contains(t.description, f.search))
    && (!Empty(f.status) ==> t.status == f.status)
    && (!Empty(f.priority) ==> t.priority == f.priority)
  }

  // ------------------------------------------------------------ the statement

  /** The clauses the builder can append, each with its placeholders. */
  datatype Clause = SearchLike | StatusEquals | PriorityEquals

  const SelectPrefix := "SELECT * FROM tasks WHERE 1=1"
  const OrderSuffix := " ORDER BY created_at DESC"

  function ClauseSql(c: Clause): string {
    match c
    case SearchLike => " AND (title LIKE " + "?" + " OR description LIKE " + "?" + ")"
    case StatusEquals => " AND status = " + "?"
    case PriorityEquals => " AND priority = " + "?"
  }

  /** How many bound values a clause consumes. */
  function Arity(c: Clause): nat {
    if c == SearchLike then 2 else 1
  }

  /** SQL `LIKE` for the only pattern shape the page builds, '%v%': substring containment. */
  predicate Like(value: string, pattern: string) {
    |pattern| >= 2 && pattern[0] == '%' && pattern[|pattern| - 1] == '%' && Contains(value, pattern[1..|pattern| - 1])
  }

  /** A clause holds of a row under its bound values. */
  predicate ClauseHolds(c: Clause, args: seq<string>, t: Task)
    requires |args| == Arity(c)
  {
    match c
    case SearchLike => Like(t.title, args[0]) || Like(t.description, args[1])
    case StatusEquals => t.status == args[0]
    case PriorityEquals => t.priority == args[0]
  }

  function ParamCount(clauses: seq<Clause>): nat {
    if clauses == [] then 0 else Arity(clauses[0]) + ParamCount(clauses[1..])
  }

  function SqlOf(clauses: seq<Clause>): string {
    if clauses == [] then "" else ClauseSql(clauses[0]) + SqlOf(clauses[1..])
  }

  /** The WHERE conjunction: each clause holds, consuming the bound values in order. */
  predicate WhereHolds(clauses: seq<Clause>, params: seq<string>, t: Task)
    decreases |clauses|
  {
    if clauses == [] then true
    else
      var n := Arity(clauses[0]);
      |params| >= n && ClauseHolds(clauses[0], params[..n], t) && WhereHolds(clauses[1..], params[n..], t)
  }

  /** Which clauses the builder appends: a function of which filters are
      non-empty only, never of their values. */
  function ActiveClauses(search: bool, status: bool, priority: bool): seq<Clause> {
    (if search then [SearchLike] else []) + (if status then [StatusEquals] else []) + (if priority then [PriorityEquals] else [])
  }

  /** The number of `?` placeholders in a statement text. */
  function Placeholders(s: string): nat {
    multiset(s)['?']
  }

  lemma PlaceholdersConcat(a: string, b: string)
    ensures Placeholders(a + b) == Placeholders(a) + Placeholders(b)
  {
    assert multiset(a + b) == multiset(a) + multiset(b);
  }

  lemma OnePlaceholder(a: string)
    requires '?' !in a
    ensures Placeholders(a + "?") == 1
  {
    PlaceholdersConcat(a, "?");
  }

  lemma TwoPlaceholders(a: string, b: string, c: string)
    requires '?' !in a && '?' !in b && '?' !in c
    ensures Placeholders(a + "?" + b + "?" + c) == 2
  {
    PlaceholdersConcat(a, "?");
    PlaceholdersConcat(a + "?", b);
    PlaceholdersConcat(a + "?" + b, "?");
    PlaceholdersConcat(a + "?" + b + "?", c);
  }

  /** Each clause carries one placeholder per value it consumes. */
  lemma ClausePlaceholders(c: Clause)
    ensures Placeholders(ClauseSql(c)) == Arity(c)
  {
    match c
    case SearchLike => SearchPlaceholders();
    case StatusEquals => EqualsPlaceholder(" AND status = ");
    case PriorityEquals => EqualsPlaceholder(" AND priority = ");
  }

  lemma EqualsPlaceholder(prefix: string)
    requires prefix == " AND status = " || prefix == " AND priority = "
    ensures Placeholders(prefix + "?") == 1
  {
    assert '?' !in prefix;
    OnePlaceholder(prefix);
  }

  lemma SearchPlaceholders()
    ensures Placeholders(ClauseSql(SearchLike)) == 2
  {
    var a, b, c := " AND (title LIKE ", " OR description LIKE ", ")";
    assert '?' !in a;
    assert '?' !in b;
    TwoPlaceholders(a, b, c);
  }

  lemma {:induction false} SqlPlaceholders(clauses: seq<Clause>)
    ensures Placeholders(SqlOf(clauses)) == ParamCount(clauses)
  {
    if clauses != [] {
      SqlPlaceholders(clauses[1..]);
      ClausePlaceholders(clauses[0]);
      PlaceholdersConcat(ClauseSql(clauses[0]), SqlOf(clauses[1..]));
    }
  }

  lemma FramedPlaceholders(prefix: string, middle: string, suffix: string)
    requires '?' !in prefix && '?' !in suffix
    ensures Placeholders(prefix + middle + suffix) == Placeholders(middle)
  {
    PlaceholdersConcat(prefix, middle);
    PlaceholdersConcat(prefix + middle, suffix);
  }

  lemma FrameIsPlain()
    ensures '?' !in SelectPrefix && '?' !in OrderSuffix
  {
  }

  /** The statement text holds one placeholder per bound value. */
  lemma StatementPlaceholders(clauses: seq<Clause>)
    ensures Placeholders(SelectPrefix + SqlOf(clauses) + OrderSuffix) == ParamCount(clauses)
  {
    SqlPlaceholders(clauses);
    var m := SqlOf(clauses);
    FrameIsPlain();
    FramedPlaceholders(SelectPrefix, m, OrderSuffix);
  }

  /** Appending one clause with its own values extends the conjunction by that clause. */
  lemma {:induction false} WhereAppend(clauses: seq<Clause>, params: seq<string>, c: Clause, args: seq<string>, t: Task)
    requires |params| == ParamCount(clauses) && |args| == Arity(c)
    ensures WhereHolds(clauses + [c], params + args, t) <==> WhereHolds(clauses, params, t) && ClauseHolds(c, args, t)
    decreases |clauses|
  {
    if clauses == [] {
      assert [c][1..] == [] && (params + args)[..Arity(c)] == args && (params + args)[Arity(c)..] == [];
    } else {
      var n := Arity(clauses[0]);
      assert (clauses + [c])[0] == clauses[0] && (clauses + [c])[1..] == clauses[1..] + [c];
      assert (params + args)[..n] == params[..n] && (params + args)[n..] == params[n..] + args;
      WhereAppend(clauses[1..], params[n..], c, args, t);
    }
  }

  lemma {:induction false} ClauseAppend(clauses: seq<Clause>, c: Clause)
    ensures ParamCount(clauses + [c]) == ParamCount(clauses) + Arity(c)
    ensures SqlOf(clauses + [c]) == SqlOf(clauses) + ClauseSql(c)
  {
    if clauses == [] {
      assert [c][1..] == [];
    } else {
      assert (clauses + [c])[0] == clauses[0] && (clauses + [c])[1..] == clauses[1..] + [c];
      ClauseAppend(clauses[1..], c);
    }
  }

  predicate AllStringTyped(types: string) {
    forall i :: 0 <= i < |types| ==> types[i] == 's'
  }

  /** The builder's state after the clauses so far: the text, one value and
      one 's' per placeholder. */
  predicate Built(query: string, params: seq<string>, types: string, clauses: seq<Clause>) {
    && query == SelectPrefix + SqlOf(clauses)
    && |params| == |types| == ParamCount(clauses)
    && AllStringTyped(types)
  }

  lemma Associate(a: string, b: string, c: string)
    ensures a + b + c == a + (b + c)
  {
  }

  /** One `$query .= ...; $params[] = ...; $types .= ...` step. */
  method AppendClause(query: string, params: seq<string>, types: string, ghost clauses: seq<Clause>, c: Clause, args: seq<string>)
    returns (newQuery: string, newParams: seq<string>, newTypes: string)
    requires Built(query, params, types, clauses) && |args| == Arity(c)
    ensures Built(newQuery, newParams, newTypes, clauses + [c])
    ensures newParams == params + args
  {
    ClauseAppend(clauses, c);
    Associate(SelectPrefix, SqlOf(clauses), ClauseSql(c));
    newQuery := query + ClauseSql(c);
    newParams := params + args;
    newTypes := types + (if c == SearchLike then "ss" else "s");
  }

  /** The clauses the filters switch on. */
  function ActiveFor(f: Filters): seq<Clause> {
    ActiveClauses(!Empty(f.search), !Empty(f.status), !Empty(f.priority))
  }

  /** No filter is set. */
  predicate Unfiltered(f: Filters) {
    Empty(f.search) && Empty(f.status) && Empty(f.priority)
  }

  function SearchPattern(search: string): string {
    "%" + search + "%"
  }

  /** The values bound for the filters, in clause order. */
  function BoundValues(f: Filters): seq<string> {
    (if !Empty(f.search) then [SearchPattern(f.search), SearchPattern(f.search)] else [])
    + (if !Empty(f.status) then [f.status] else [])
    + (if !Empty(f.priority) then [f.priority] else [])
  }

  /** Bound to the filters' own values, the prepared WHERE holds of a row
      exactly when the row matches the filters. */
  lemma WhereMeansMatches(f: Filters, t: Task)
    ensures WhereHolds(ActiveFor(f), BoundValues(f), t) <==> Matches(f, t)
  {
    var clauses: seq<Clause>, params: seq<string> := [], [];
    if !Empty(f.search) {
      var pattern := SearchPattern(f.search);
      assert pattern[1..|pattern| - 1] == f.search;
      WhereAppend(clauses, params, SearchLike, [pattern, pattern], t);
      ClauseAppend(clauses, SearchLike);
      clauses, params := clauses + [SearchLike], params + [pattern, pattern];
    }
    assert WhereHolds(clauses, params, t) <==> Matches(f.(status := "", priority := ""), t);
    if !Empty(f.status) {
      WhereAppend(clauses, params, StatusEquals, [f.status], t);
      ClauseAppend(clauses, StatusEquals);
      clauses, params := clauses + [StatusEquals], params + [f.status];
    }
    assert WhereHolds(clauses, params, t) <==> Matches(f.(priority := ""), t);
    if !Empty(f.priority) {
      WhereAppend(clauses, params, PriorityEquals, [f.priority], t);
      clauses, params := clauses + [PriorityEquals], params + [f.priority];
    }
    assert clauses == ActiveFor(f) && params == BoundValues(f);
  }

  /** What the bound values are: filter values only, none without a filter,
      and together with the active clauses they select the matching rows. */
  lemma BoundValuesMeaning(f: Filters)
    ensures BoundValues(f) == [] <==> Unfiltered(f)
    ensures forall v :: v in BoundValues(f) ==> v == SearchPattern(f.search) || v == f.status || v == f.priority
    ensures forall t :: WhereHolds(ActiveFor(f), BoundValues(f), t) <==> Matches(f, t)
  {
    forall t
      ensures WhereHolds(ActiveFor(f), BoundValues(f), t) <==> Matches(f, t)
    {
      WhereMeansMatches(f, t);
    }
  }

  /** index.php:15-39: appends a clause and its bound values for every
      non-empty filter, in the order search, status, priority. The text
      depends only on which filters are present (`ActiveFor`), the values
      are exactly `BoundValues(f)` (see `BoundValuesMeaning`), and there is
      one value and one 's' per placeholder. */
  method BuildQuery(f: Filters) returns (query: string, params: seq<string>, types: string)
    ensures query == SelectPrefix + SqlOf(ActiveFor(f)) + OrderSuffix
    ensures params == BoundValues(f)
    ensures |params| == |types| == Placeholders(query) && AllStringTyped(types)
  {
    ghost var clauses: seq<Clause> := [];
    query := SelectPrefix;
    params := [];
    types := "";
    assert Built(query, params, types, clauses);

    if !Empty(f.search) {
      var pattern := SearchPattern(f.search);
      query, params, types := AppendClause(query, params, types, clauses, SearchLike, [pattern, pattern]);
      clauses := clauses + [SearchLike];
    }
    if !Empty(f.status) {
      query, params, types := AppendClause(query, params, types, clauses, StatusEquals, [f.status]);
      clauses := clauses + [StatusEquals];
    }
    if !Empty(f.priority) {
      query, params, types := AppendClause(query, params, types, clauses, PriorityEquals, [f.priority]);
      clauses := clauses + [PriorityEquals];
    }
    assert clauses == ActiveFor(f) && params == BoundValues(f);

    query := query + OrderSuffix;
    StatementPlaceholders(clauses);
  }

  // ------------------------------------------------------------ the result

  /** The rows the filters select, in table order (the ORDER BY is the store's). */
  function Select(rows: seq<Task>, f: Filters): (selected: seq<Task>)
    ensures |selected| <= |rows|
    ensures forall t :: t in selected <==> t in rows && Matches(f, t)
  {
    if rows == [] then []
    else (if Matches(f, rows[0]) then [rows[0]] else []) + Select(rows[1..], f)
  }

  /** The prepared statement run over the table. */
  function Execute(rows: seq<Task>, clauses: seq<Clause>, params: seq<string>): (result: seq<Task>)
    ensures |result| <= |rows|
    ensures forall t :: t in result <==> t in rows && WhereHolds(clauses, params, t)
  {
    if rows == [] then []
    else (if WhereHolds(clauses, params, rows[0]) then [rows[0]] else []) + Execute(rows[1..], clauses, params)
  }

  lemma {:induction false} ExecuteSelects(rows: seq<Task>, clauses: seq<Clause>, params: seq<string>, f: Filters)
    requires forall t :: WhereHolds(clauses, params, t) <==> Matches(f, t)
    ensures Execute(rows, clauses, params) == Select(rows, f)
  {
    if rows != [] {
      ExecuteSelects(rows[1..], clauses, params, f);
    }
  }

  /** index.php:11-48: read the filters, build and run the statement; values
      are bound only when there are some. */
  method ListTasks(request: map<string, string>, table: TaskTable) returns (tasks: seq<Task>, bound: bool)
    ensures bound <==> !Unfiltered(ReadFilters(request))
    ensures tasks == Select(table.rows, ReadFilters(request))
  {
    var f := ReadFilters(request);
    var query, params, types := BuildQuery(f);
    BoundValuesMeaning(f);
    bound := params != [];
    ExecuteSelects(table.rows, ActiveFor(f), params, f);
    tasks := Execute(table.rows, ActiveFor(f), params);
  }

  /** With no filter, every row is listed. */
  lemma {:induction false} UnfilteredSelectsAll(rows: seq<Task>, f: Filters)
    requires Unfiltered(f)
    ensures Select(rows, f) == rows
  {
    if rows != [] {
      UnfilteredSelectsAll(rows[1..], f);
    }
  }

  /** `g` keeps every filter `f` sets (and may set more). */
  predicate Narrows(g: Filters, f: Filters) {
    && (!Empty(f.search) ==> g.search == f.search)
    && (!Empty(f.status) ==> g.status == f.status)
    && (!Empty(f.priority) ==> g.priority == f.priority)
  }

  /** Adding a filter never adds a row: the narrower result is a sub-list. */
  lemma {:induction false} NarrowingShrinks(rows: seq<Task>, f: Filters, g: Filters)
    requires Narrows(g, f)
    ensures |Select(rows, g)| <= |Select(rows, f)|
    ensures forall t :: t in Select(rows, g) ==> t in Select(rows, f)
  {
    if rows != [] {
      NarrowingShrinks(rows[1..], f, g);
    }
  }

  // ------------------------------------------------------------ statistics

  /** `count(array_filter($tasks, fn($task) => $task['status'] === $status))`. */
  function CountStatus(tasks: seq<Task>, status: string): (n: nat)
    ensures n <= |tasks|
  {
    if tasks == [] then 0 else (if tasks[0].status == status then 1 else 0) + CountStatus(tasks[1..], status)
  }

  function Statuses(tasks: seq<Task>): seq<string> {
    seq(|tasks|, i requires 0 <= i < |tasks| => tasks[i].status)
  }

  /** A tally is the multiplicity of the status among the rows, so it does not depend on their order. */
  lemma {:induction false} TallyIsMultiplicity(tasks: seq<Task>, status: string)
    ensures CountStatus(tasks, status) == multiset(Statuses(tasks))[status]
  {
    if tasks != [] {
      TallyIsMultiplicity(tasks[1..], status);
      assert Statuses(tasks) == [tasks[0].status] + Statuses(tasks[1..]);
    }
  }

  datatype Statistics = Statistics(total: nat, pending: nat, inProgress: nat, completed: nat)

  /** index.php:241-244. */
  function TaskStatistics(tasks: seq<Task>): (s: Statistics)
    ensures s.total == |tasks|
    ensures s.pending == multiset(Statuses(tasks))["Pending"]
    ensures s.inProgress == multiset(Statuses(tasks))["In Progress"]
    ensures s.completed == multiset(Statuses(tasks))["Completed"]
  {
    TallyIsMultiplicity(tasks, "Pending");
    TallyIsMultiplicity(tasks, "In Progress");
    TallyIsMultiplicity(tasks, "Completed");
    Statistics(|tasks|, CountStatus(tasks, "Pending"), CountStatus(tasks, "In Progress"), CountStatus(tasks, "Completed"))
  }

  /** The three tallies never exceed the total, and reach it exactly when
      every row has one of the three statuses. */
  lemma {:induction false} TalliesCoverTotal(tasks: seq<Task>)
    ensures var s := TaskStatistics(tasks);
      s.pending + s.inProgress + s.completed <= s.total
    ensures var s := TaskStatistics(tasks);
      s.pending + s.inProgress + s.completed == s.total <==> forall t :: t in tasks ==> t.status in ValidStatuses
  {
    CountsCoverTotal(tasks);
  }

  lemma {:induction false} CountsCoverTotal(tasks: seq<Task>)
    ensures CountStatus(tasks, "Pending") + CountStatus(tasks, "In Progress") + CountStatus(tasks, "Completed") <= |tasks|
    ensures CountStatus(tasks, "Pending") + CountStatus(tasks, "In Progress") + CountStatus(tasks, "Completed") == |tasks|
      <==> forall t :: t in tasks ==> t.status in ValidStatuses
  {
    if tasks != [] {
      CountsCoverTotal(tasks[1..]);
      assert forall t :: t in tasks <==> t == tasks[0] || t in tasks[1..];
    }
  }

  // ------------------------------------------------------------ due-date column

  const SecondsPerDay := 86400

  /** `empty($task['due_date']) || $task['due_date'] === '0000-00-00'` negated. */
  predicate HasDueDate(dueDate: Option<string>) {
    dueDate.Some? && !Empty(dueDate.value) && dueDate.value != "0000-00-00"
  }

  /** `$today->diff($due_date)->days`, with the due date at midnight of day
      `dueDay` and `now` in seconds: whole days between the two moments. */
  function DiffDays(dueDay: int, now: int): nat {
    var delta := dueDay * SecondsPerDay - now;
    (if delta < 0 then -delta else delta) / SecondsPerDay
  }

  datatype DueLabel = NoDueDate | Overdue | DueSoon | Later

  /** index.php:183-199: the label under the due date. The status is not consulted. */
  function DueDateLabel(t: Task, dueDay: int, now: int): (due: DueLabel)
    ensures due == NoDueDate <==> !HasDueDate(t.dueDate)
    ensures due == Overdue <==> HasDueDate(t.dueDate) && dueDay * SecondsPerDay < now
    ensures due == DueSoon <==> HasDueDate(t.dueDate) && now <= dueDay * SecondsPerDay < now + 4 * SecondsPerDay
  {
    if !HasDueDate(t.dueDate) then NoDueDate
    else if dueDay * SecondsPerDay < now then Overdue
    else if DiffDays(dueDay, now) <= 3 then DueSoon
    else Later
  }

  /** A task due today is already "Overdue" once today's midnight has passed. */
  lemma DueTodayIsOverdue(t: Task, now: int)
    requires HasDueDate(t.dueDate) && now % SecondsPerDay != 0
    ensures DueDateLabel(t, now / SecondsPerDay, now) == Overdue
  {
  }

  /** Completed tasks are not exempt: the label is the same whatever the status. */
  lemma LabelIgnoresStatus(t: Task, status: string, dueDay: int, now: int)
    ensures DueDateLabel(t.(status := status), dueDay, now) == DueDateLabel(t, dueDay, now)
  {
  }

  /** The description cell shows "No description" for an empty one (`?:`). */
  function DescriptionCell(description: string): (text: string)
    ensures text == "No description" <==> Empty(description) || description == "No description"
    ensures !Empty(description) ==> text == description
  {
    if Empty(description) then "No description" else description
  }
}

/** The page script (js/script.js): sorting the task table on a header
    click, the live search, the description counter and the due-date
    check. The DOM is modelled by the state these handlers touch. */
module TaskScript {
  import opened Wrappers
  import opened PhpStrings

  // ------------------------------------------------------------ rows

  /** A `<tr>` of the task table: its node identity, the trimmed text of
      each `td[data-<column>]`, and the text of its title and description cells. */
  datatype Row = Row(node: nat, cells: map<string, string>, title: string, description: string)

  predicate Distinct(rows: seq<Row>) {
    forall i, j :: 0 <= i < j < |rows| ==> rows[i] != rows[j]
  }

  // ------------------------------------------------------------ sort keys

  /** js/script.js:121-122: `{ 'High': 3, 'Medium': 2, 'Low': 1 }[v] || 0`. */
  function PriorityRank(value: string): (rank: nat)
    ensures rank <= 3
    ensures rank == 0 <==> value != "High" && value != "Medium" && value != "Low"
  {
    if value == "High" then 3 else if value == "Medium" then 2 else if value == "Low" then 1 else 0
  }

  /** The ranks order the priorities Low < Medium < High. */
  lemma PriorityRanksOrdered()
    ensures 0 < PriorityRank("Low") < PriorityRank("Medium") < PriorityRank("High")
  {
  }

  /** js/script.js:114-129: the value a cell sorts by. Dates go through
      `dateValue` (`new Date`), with "No due date" read as 9999-12-31;
      priorities by rank; anything else by `collate`, a key that orders
      strings as `localeCompare` does. */
  function BaseKey(column: string, text: string, dateValue: string -> int, collate: string -> int): (k: int)
    ensures column == "priority" ==> 0 <= k <= 3
    ensures column == "priority" && k == 0 ==> text != "High" && text != "Medium" && text != "Low"
    ensures column != "due_date" && column != "priority" ==> k == collate(text)
  {
    if column == "due_date" then dateValue(if text == "No due date" then "9999-12-31" else text)
    else if column == "priority" then PriorityRank(text)
    else collate(text)
  }

  function CellText(r: Row, column: string): string {
    if column in r.cells then r.cells[column] else ""
  }

  /** The comparator `isAscending ? a - b : b - a` orders rows as this key
      does: the base key, negated when descending. */
  function SortKey(column: string, ascending: bool, dateValue: string -> int, collate: string -> int): Row -> int {
    (r: Row) => (if ascending then 1 else -1) * BaseKey(column, CellText(r, column), dateValue, collate)
  }

  /** One row sorts before another exactly as their base keys compare,
      reversed when the sort is descending. */
  lemma SortKeyOrders(column: string, ascending: bool, dateValue: string -> int, collate: string -> int, a: Row, b: Row)
    ensures var key := SortKey(column, ascending, dateValue, collate);
      var ka, kb := BaseKey(column, CellText(a, column), dateValue, collate), BaseKey(column, CellText(b, column), dateValue, collate);
      key(a) <= key(b) <==> if ascending then ka <= kb else kb <= ka
  {
  }

  /** A task without a due date sorts with 9999-12-31, after every earlier date. */
  lemma NoDueDateSortsAsLastDay(text: string, dateValue: string -> int, collate: string -> int)
    requires text == "No due date"
    ensures BaseKey("due_date", text, dateValue, collate) == dateValue("9999-12-31")
  {
  }

  // ------------------------------------------------------------ sorting

  predicate SortedBy(rows: seq<Row>, key: Row -> int) {
    forall i, j :: 0 <= i < j < |rows| ==> key(rows[i]) <= key(rows[j])
  }

  /** Places `x` after every row whose key is not larger, keeping the order
      of equal keys. */
  function InsertSorted(x: Row, sorted: seq<Row>, key: Row -> int): (r: seq<Row>)
    requires SortedBy(sorted, key)
    ensures SortedBy(r, key)
    ensures multiset(r) == multiset(sorted) + multiset{x}
  {
    if sorted == [] then [x]
    else if key(x) < key(sorted[0]) then
      SortedCons(x, sorted, key);
      [x] + sorted
    else
      var rest := InsertSorted(x, sorted[1..], key);
      KeysBoundedBelow(rest, sorted[1..], x, key(sorted[0]), key);
      SortedCons(sorted[0], rest, key);
      assert sorted == [sorted[0]] + sorted[1..];
      [sorted[0]] + rest
  }

  /** A row whose key bounds the first key of a sorted sequence, or every
      key of it, can go in front. */
  lemma SortedCons(h: Row, rest: seq<Row>, key: Row -> int)
    requires SortedBy(rest, key)
    requires rest == [] || key(h) <= key(rest[0]) || forall k :: 0 <= k < |rest| ==> key(h) <= key(rest[k])
    ensures SortedBy([h] + rest, key)
  {
    var s := [h] + rest;
    forall i, j | 0 <= i < j < |s| ensures key(s[i]) <= key(s[j]) {
      if i > 0 {
        assert s[i] == rest[i - 1] && s[j] == rest[j - 1];
      } else if rest != [] {
        assert key(rest[0]) <= key(rest[j - 1]) || j == 1;
      }
    }
  }

  /** A bound below every key of `s` and of `x` bounds every key of a sequence holding exactly those rows. */
  lemma KeysBoundedBelow(r: seq<Row>, s: seq<Row>, x: Row, bound: int, key: Row -> int)
    requires multiset(r) == multiset(s) + multiset{x}
    requires bound <= key(x) && forall k :: 0 <= k < |s| ==> bound <= key(s[k])
    ensures forall k :: 0 <= k < |r| ==> bound <= key(r[k])
  {
    forall k | 0 <= k < |r| ensures bound <= key(r[k]) {
      assert r[k] in multiset(r);
      if r[k] != x {
        assert r[k] in multiset(s);
      }
    }
  }

  /** `rows.sort(comparator)`: the same rows, ordered by the key. */
  function SortRows(rows: seq<Row>, key: Row -> int): (r: seq<Row>)
    ensures SortedBy(r, key)
    ensures multiset(r) == multiset(rows)
  {
    if rows == [] then []
    else
      var init := rows[..|rows| - 1];
      assert rows == init + [rows[|rows| - 1]];
      InsertSorted(rows[|rows| - 1], SortRows(init, key), key)
  }

  /** Sorted descending means the base key never increases along the table. */
  lemma DescendingIsNonIncreasing(rows: seq<Row>, column: string, dateValue: string -> int, collate: string -> int)
    requires SortedBy(rows, SortKey(column, false, dateValue, collate))
    ensures forall i, j :: 0 <= i < j < |rows| ==>
      BaseKey(column, CellText(rows[i], column), dateValue, collate) >= BaseKey(column, CellText(rows[j], column), dateValue, collate)
  {
    forall i, j | 0 <= i < j < |rows|
      ensures BaseKey(column, CellText(rows[i], column), dateValue, collate) >= BaseKey(column, CellText(rows[j], column), dateValue, collate)
    {
      assert SortKey(column, false, dateValue, collate)(rows[i]) <= SortKey(column, false, dateValue, collate)(rows[j]);
    }
  }

  // ------------------------------------------------------------ re-appending

  /** `s` without any occurrence of `x`. */
  function Remove(s: seq<Row>, x: Row): seq<Row> {
    if s == [] then [] else (if s[0] == x then [] else [s[0]]) + Remove(s[1..], x)
  }

  /** `s` without the rows of `t`. */
  function Without(s: seq<Row>, t: seq<Row>): seq<Row> {
    if s == [] then [] else (if s[0] in t then [] else [s[0]]) + Without(s[1..], t)
  }

  lemma {:induction false} RemoveAbsent(s: seq<Row>, x: Row)
    requires x !in s
    ensures Remove(s, x) == s
  {
    if s != [] {
      RemoveAbsent(s[1..], x);
      assert s == [s[0]] + s[1..];
    }
  }

  lemma {:induction false} RemoveConcat(a: seq<Row>, b: seq<Row>, x: Row)
    ensures Remove(a + b, x) == Remove(a, x) + Remove(b, x)
  {
    if a == [] {
      assert a + b == b;
    } else {
      assert (a + b)[0] == a[0] && (a + b)[1..] == a[1..] + b;
      RemoveConcat(a[1..], b, x);
    }
  }

  lemma {:induction false} RemoveFromWithout(s: seq<Row>, t: seq<Row>, x: Row)
    ensures Remove(Without(s, t), x) == Without(s, t + [x])
  {
    if s != [] {
      RemoveFromWithout(s[1..], t, x);
      RemoveConcat(if s[0] in t then [] else [s[0]], Without(s[1..], t), x);
    }
  }

  lemma {:induction false} WithoutAll(s: seq<Row>, t: seq<Row>)
    requires forall x :: x in s ==> x in t
    ensures Without(s, t) == []
  {
    if s != [] {
      WithoutAll(s[1..], t);
    }
  }

  lemma {:induction false} WithoutNothing(s: seq<Row>)
    ensures Without(s, []) == s
  {
    if s != [] {
      WithoutNothing(s[1..]);
    }
  }

  /** Appending `x` to a body laid out as `Without(b, p) + p` lays it out as the same with `p + [x]`. */
  lemma AppendStep(b: seq<Row>, p: seq<Row>, x: Row)
    requires x !in p
    ensures Remove(Without(b, p) + p, x) + [x] == Without(b, p + [x]) + (p + [x])
  {
    RemoveConcat(Without(b, p), p, x);
    RemoveFromWithout(b, p, x);
    RemoveAbsent(p, x);
  }

  /** The body after the first `i` sorted rows have been appended: the
      other rows of `b` in their old order, then those `i`. */
  ghost function Layout(b: seq<Row>, rows: seq<Row>, i: nat): seq<Row>
    requires i <= |rows|
  {
    Without(b, rows[..i]) + rows[..i]
  }

  lemma LayoutStart(b: seq<Row>, rows: seq<Row>)
    ensures Layout(b, rows, 0) == b
  {
    WithoutNothing(b);
    assert rows[..0] == [];
  }

  lemma LayoutStep(b: seq<Row>, rows: seq<Row>, i: nat)
    requires Distinct(rows) && i < |rows|
    ensures Remove(Layout(b, rows, i), rows[i]) + [rows[i]] == Layout(b, rows, i + 1)
  {
    NotBefore(rows, i);
    AppendStep(b, rows[..i], rows[i]);
    assert rows[..i + 1] == rows[..i] + [rows[i]];
  }

  lemma LayoutEnd(b: seq<Row>, rows: seq<Row>)
    requires multiset(rows) == multiset(b)
    ensures Layout(b, rows, |rows|) == rows
  {
    assert rows[..|rows|] == rows;
    SameRowsWithoutAll(b, rows);
  }

  lemma NotBefore(rows: seq<Row>, i: nat)
    requires Distinct(rows) && i < |rows|
    ensures rows[i] !in rows[..i]
  {
  }

  /** Rows of `b` all occur in a sequence with the same multiset. */
  lemma SameRowsWithoutAll(b: seq<Row>, rows: seq<Row>)
    requires multiset(rows) == multiset(b)
    ensures Without(b, rows) == []
  {
    forall x | x in b ensures x in rows {
      assert x in multiset(b);
    }
    WithoutAll(b, rows);
  }

  /** A reordering of rows free of repeats is free of repeats. */
  lemma ReorderedDistinct(b: seq<Row>, rows: seq<Row>)
    requires Distinct(b) && multiset(rows) == multiset(b)
    ensures Distinct(rows)
  {
    DistinctCountsOne(b);
    CountsOneDistinct(rows);
  }

  /** A sequence free of repeats holds each row at most once ... */
  lemma {:induction false} DistinctCountsOne(s: seq<Row>)
    requires Distinct(s)
    ensures forall x :: multiset(s)[x] <= 1
  {
    if s != [] {
      assert Distinct(s[1..]) by {
        forall i, j | 0 <= i < j < |s[1..]| ensures s[1..][i] != s[1..][j] {
          assert s[1..][i] == s[i + 1] && s[1..][j] == s[j + 1];
        }
      }
      DistinctCountsOne(s[1..]);
      assert s[0] !in s[1..] by {
        forall k | 0 <= k < |s[1..]| ensures s[1..][k] != s[0] {
          assert s[1..][k] == s[k + 1];
        }
      }
      assert s == [s[0]] + s[1..];
      assert multiset(s) == multiset{s[0]} + multiset(s[1..]);
    }
  }

  /** ... and a sequence holding each row at most once has no repeats. */
  lemma CountsOneDistinct(s: seq<Row>)
    requires forall x :: multiset(s)[x] <= 1
    ensures Distinct(s)
  {
    forall i, j | 0 <= i < j < |s| ensures s[i] != s[j] {
      assert s == s[..j] + s[j..];
      assert s[i] == s[..j][i] && s[j] == s[j..][0];
      assert multiset(s) == multiset(s[..j]) + multiset(s[j..]);
      assert s[i] in multiset(s[..j]) && s[j] in multiset(s[j..]);
      assert s[i] == s[j] ==> multiset(s)[s[i]] >= 2;
    }
  }

  /** The task table: the rows of its body in document order, each
      header's `data-order` attribute, and the one header carrying a
      `sort-asc` (true) or `sort-desc` (false) class, if any. */
  class SortableTable {
    var body: seq<Row>
    var order: map<string, string>
    var indicator: Option<(string, bool)>

    ghost predicate Valid()
      reads this
    {
      Distinct(body)
    }

    constructor (body: seq<Row>, order: map<string, string>)
      requires Distinct(body)
      ensures Valid() && this.body == body && this.order == order && indicator == None
    {
      this.body := body;
      this.order := order;
      this.indicator := None;
    }

    /** js/script.js:108: the header's `data-order` is 'asc' (absent reads as null). */
    function IsAscending(column: string): bool
      reads this
    {
      column in order && order[column] == "asc"
    }

    /** `tbody.appendChild(row)`: the row moves to the end of the body. */
    method AppendChild(row: Row)
      modifies this
      ensures body == Remove(old(body), row) + [row]
      ensures order == old(order) && indicator == old(indicator)
    {
      body := Remove(body, row) + [row];
    }

    /** js/script.js:103-140. The body ends up as the old rows sorted by the
        clicked column (ascending when `data-order` was 'asc', otherwise
        descending, so the first click sorts descending), with no row lost
        or added; then the header's `data-order` flips, and only this header
        keeps a sort class, which names the new `data-order`: right after a
        descending sort it reads `sort-asc`. */
    method ClickHeader(column: string, dateValue: string -> int, collate: string -> int)
      requires Valid()
      requires forall r :: r in body ==> column in r.cells
      modifies this
      ensures Valid()
      ensures body == SortRows(old(body), SortKey(column, old(IsAscending(column)), dateValue, collate))
      ensures multiset(body) == multiset(old(body))
      ensures order == old(order)[column := if old(IsAscending(column)) then "desc" else "asc"]
      ensures IsAscending(column) <==> !old(IsAscending(column))
      ensures indicator == Some((column, IsAscending(column)))
    {
      var isAscending := IsAscending(column);
      var key := SortKey(column, isAscending, dateValue, collate);
      var rows := SortRows(body, key);
      assert multiset(rows) == multiset(body);
      AppendAll(rows);
      FlipHeader(column, isAscending);
    }

    /** js/script.js:136-140: the clicked header's `data-order` flips and it
        alone carries the sort class naming the new order. */
    method FlipHeader(column: string, wasAscending: bool)
      modifies this
      ensures body == old(body)
      ensures order == old(order)[column := if wasAscending then "desc" else "asc"]
      ensures IsAscending(column) <==> !wasAscending
      ensures indicator == Some((column, !wasAscending))
    {
      var flipped := if wasAscending then "desc" else "asc";
      assert flipped == "asc" <==> !wasAscending;
      order := order[column := flipped];
      indicator := Some((column, !wasAscending));
    }

    /** js/script.js:133: appending every sorted row in turn leaves the body
        in exactly their order, since they are the body's own rows. */
    method AppendAll(rows: seq<Row>)
      requires Valid() && multiset(rows) == multiset(body)
      modifies this
      ensures Valid() && body == rows && order == old(order) && indicator == old(indicator)
    {
      ReorderedDistinct(body, rows);
      ghost var before := body;
      LayoutStart(before, rows);
      var i := 0;
      while i < |rows|
        invariant 0 <= i <= |rows|
        invariant body == Layout(before, rows, i)
        invariant order == old(order) && indicator == old(indicator)
      {
        LayoutStep(before, rows, i);
        AppendChild(rows[i]);
        i := i + 1;
      }
      LayoutEnd(before, rows);
    }
  }

  // ------------------------------------------------------------ live search

  /** `toLowerCase` on ASCII letters. */
  function Lower(s: string): (r: string)
    ensures |r| == |s|
    ensures forall i :: 0 <= i < |s| ==> r[i] == if 'A' <= s[i] <= 'Z' then (s[i] as int + 32) as char else s[i]
  {
    if s == [] then [] else [if 'A' <= s[0] <= 'Z' then (s[0] as int + 32) as char else s[0]] + Lower(s[1..])
  }

  lemma LowerIdempotent(s: string)
    ensures Lower(Lower(s)) == Lower(s)
  {
  }

  /** js/script.js:152-155: the lowercased title or description contains the lowercased term. */
  /** `sub` occurs at some position of `s`. */
  ghost predicate OccursSomewhere(s: string, sub: string) {
    exists i :: OccursAt(s, sub, i)
  }

  function RowMatches(row: Row, term: string): (shown: bool)
    ensures shown <==> OccursSomewhere(Lower(row.title), Lower(term)) || OccursSomewhere(Lower(row.description), Lower(term))
  {
    ContainsAt(Lower(row.title), Lower(term));
    ContainsAt(Lower(row.description), Lower(term));
    Contains(Lower(row.title), Lower(term)) || Contains(Lower(row.description), Lower(term))
  }

  /** An empty term shows every row. */
  lemma EmptyTermShowsAll(row: Row)
    ensures RowMatches(row, "")
  {
    ContainsEmpty(Lower(row.title));
  }

  /** The search ignores the case of the term. */
  lemma SearchIgnoresCase(row: Row, term: string, other: string)
    requires Lower(term) == Lower(other)
    ensures RowMatches(row, term) <==> RowMatches(row, other)
  {
  }

  /** The rows of the page with their `style.display` state (true for ''). */
  class TaskList {
    var rows: seq<Row>
    var shown: seq<bool>

    ghost predicate Valid()
      reads this
    {
      |shown| == |rows|
    }

    constructor (rows: seq<Row>)
      ensures Valid() && this.rows == rows && forall i :: 0 <= i < |rows| ==> shown[i]
    {
      this.rows := rows;
      this.shown := seq(|rows|, _ => true);
    }

    /** js/script.js:147-160: every row stays in place; it is shown exactly
        when it matches the term. */
    method Search(term: string)
      requires Valid()
      modifies this
      ensures Valid() && rows == old(rows)
      ensures forall i :: 0 <= i < |rows| ==> (shown[i] <==> RowMatches(rows[i], term))
    {
      var searchTerm := Lower(term);
      var i := 0;
      while i < |rows|
        invariant 0 <= i <= |rows| && |shown| == |rows| && rows == old(rows)
        invariant forall k :: 0 <= k < i ==> (shown[k] <==> RowMatches(rows[k], term))
      {
        var row := rows[i];
        shown := shown[i := Contains(Lower(row.title), searchTerm) || Contains(Lower(row.description), searchTerm)];
        i := i + 1;
      }
    }
  }

  // ------------------------------------------------------------ counter

  datatype CounterClass = Muted | Warning | Danger

  const MaxLength := 1000

  /** js/script.js:71-82 as written: the warning test comes first, so the
      danger branch is never taken. */
  function CounterClassFor(length: int): (c: CounterClass)
    ensures c != Danger
    ensures c == Warning <==> MaxLength - length < 100
  {
    var remaining := MaxLength - length;
    if remaining < 100 then Warning
    else if remaining < 50 then Danger
    else Muted
  }

  /** The colour the counter is evidently meant to take: danger under 50
      characters left, warning under 100. */
  function IntendedCounterClassFor(length: int): (c: CounterClass)
    ensures c == Danger <==> MaxLength - length < 50
    ensures c == Warning <==> 50 <= MaxLength - length < 100
    ensures c == Muted <==> MaxLength - length >= 100
  {
    var remaining := MaxLength - length;
    if remaining < 50 then Danger
    else if remaining < 100 then Warning
    else Muted
  }

  /** The two agree except below 50 characters left, where only the intended one turns red. */
  lemma CounterDiffersOnlyNearLimit(length: int)
    ensures CounterClassFor(length) != IntendedCounterClassFor(length) <==> MaxLength - length < 50
  {
  }

  // ------------------------------------------------------------ due date

  /** js/script.js:49-58, with `selected` the chosen date in milliseconds
      (None when the field does not parse) and `todayMidnight` today's
      local midnight: the field is refused only for a date before today. */
  function DueDateValidity(selected: Option<int>, todayMidnight: int): (message: string)
    ensures message != "" <==> selected.Some? && selected.value < todayMidnight
  {
    if selected.Some? && selected.value < todayMidnight then "Due date cannot be in the past" else ""
  }
}

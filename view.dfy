/** The task detail page (view.php): the id check before the lookup, the
    page's own badge and icon tables, which sections are shown, and the
    urgency alert under the due date. */
module TaskView {
  import opened Wrappers
  import opened PhpStrings
  import opened TaskHelpers
  import opened TaskStore
  import opened TaskIndex

  // ------------------------------------------------------------ the id

  /** The whitespace `(int)` skips before a number: space, tab, newline,
      carriage return, vertical tab and form feed. */
  const CastWhitespace: set<char> := {' ', '\t', '\n', '\r', '\U{B}', '\U{C}'}

  /** The longest run of digits at the start of `s`. */
  function DigitPrefix(s: string): (r: string)
    ensures AllDigits(r) && |r| <= |s| && r == s[..|r|]
    ensures |r| == |s| || !IsDigit(s[|r|])
  {
    if s != [] && IsDigit(s[0]) then [s[0]] + DigitPrefix(s[1..]) else []
  }

  /** `(int)$s` for a decimal string: leading whitespace, an optional sign,
      then as many digits as follow; anything else counts as 0. */
  function IntCast(s: string): (n: int)
    ensures n < 0 ==> '-' in s
    ensures n != 0 ==> exists i :: 0 <= i < |s| && IsDigit(s[i])
  {
    var t := TrimLeft(s, CastWhitespace);
    var signed := t != [] && (t[0] == '-' || t[0] == '+');
    var digits := if signed then DigitPrefix(t[1..]) else DigitPrefix(t);
    assert digits != [] ==> digits[0] in t && digits[0] in s;
    if signed && t[0] == '-' then 0 - DecimalValue(digits) else DecimalValue(digits)
  }

  /** view.php:9: `isset($_GET['id']) ? (int)$_GET['id'] : 0`. A usable
      (positive) id needs a parameter holding at least one digit. */
  function TaskIdParam(get: map<string, string>): (id: int)
    ensures id > 0 ==> "id" in get && exists i :: 0 <= i < |get["id"]| && IsDigit(get["id"][i])
  {
    if "id" in get then IntCast(get["id"]) else 0
  }

  lemma {:induction false} DigitPrefixOfNoDigit(s: string)
    requires forall i :: 0 <= i < |s| ==> !IsDigit(s[i])
    ensures DigitPrefix(s) == []
  {
  }

  lemma {:induction false} DigitPrefixOfDigits(s: string)
    requires AllDigits(s)
    ensures DigitPrefix(s) == s
  {
    if s != [] {
      DigitPrefixOfDigits(s[1..]);
    }
  }

  /** A parameter holding no digit at all casts to 0, and is then rejected. */
  lemma NonNumericCastsToZero(s: string)
    requires forall i :: 0 <= i < |s| ==> !IsDigit(s[i])
    ensures IntCast(s) == 0
  {
    var t := TrimLeft(s, CastWhitespace);
    assert forall i :: 0 <= i < |t| ==> t[i] == s[|s| - |t| + i];
    if t != [] {
      DigitPrefixOfNoDigit(t[1..]);
    }
    DigitPrefixOfNoDigit(t);
  }

  /** The decimal rendering of a positive id casts back to that id. */
  lemma IntCastRoundTrip(n: nat)
    ensures IntCast(NatToString(n)) == n
  {
    var s := NatToString(n);
    assert !(s[0] in CastWhitespace);
    assert TrimLeft(s, CastWhitespace) == s;
    DigitPrefixOfDigits(s);
    NatToStringRoundTrip(n);
  }

  // ------------------------------------------------------------ loading

  /** Why the page sends the visitor back to the list. */
  datatype LoadError = InvalidId | NotFound | LoadFailed

  function LoadErrorMessage(e: LoadError): string {
    match e
    case InvalidId => "Invalid task ID."
    case NotFound => "Task not found."
    case LoadFailed => "Error loading task."
  }

  /** The outcome of the page's top half: a redirect to the list with a
      danger flash, or the task to show. */
  datatype Page = Redirect(error: LoadError) | Show(task: Task)

  /** view.php:9-33. A non-positive id is refused before the store is
      consulted; `storageFails` stands for an exception from the driver. */
  function LoadTask(get: map<string, string>, rows: seq<Task>, storageFails: bool): (page: Page)
    ensures TaskIdParam(get) <= 0 ==> page == Redirect(InvalidId)
    ensures page.Show? <==> TaskIdParam(get) > 0 && !storageFails && FindById(rows, TaskIdParam(get)).Some?
    ensures page.Show? ==> page.task in rows && page.task.id == TaskIdParam(get)
    ensures page == Redirect(NotFound) <==> TaskIdParam(get) > 0 && !storageFails && FindById(rows, TaskIdParam(get)).None?
    ensures page == Redirect(LoadFailed) <==> TaskIdParam(get) > 0 && storageFails
  {
    var id := TaskIdParam(get);
    if id <= 0 then Redirect(InvalidId)
    else if storageFails then Redirect(LoadFailed)
    else match FindById(rows, id)
      case None => Redirect(NotFound)
      case Some(t) => Show(t)
  }

  /** A request without a numeric id never reaches the store: the outcome is
      the same whatever the table holds or whether it fails. */
  lemma NonNumericIdIgnoresStore(get: map<string, string>, rows1: seq<Task>, fails1: bool, rows2: seq<Task>, fails2: bool)
    requires "id" in get ==> forall i :: 0 <= i < |get["id"]| ==> !IsDigit(get["id"][i])
    ensures LoadTask(get, rows1, fails1) == LoadTask(get, rows2, fails2) == Redirect(InvalidId)
  {
    if "id" in get {
      NonNumericCastsToZero(get["id"]);
    }
  }

  /** The link `view.php?id=<n>` for a stored row shows that row. */
  lemma LinkShowsRow(rows: seq<Task>, t: Task)
    requires t in rows && IdsIncreasing(rows) && t.id > 0
    ensures LoadTask(map["id" := NatToString(t.id)], rows, false) == Show(t)
  {
    IntCastRoundTrip(t.id);
    var i :| 0 <= i < |rows| && rows[i] == t;
    var found := FindById(rows, t.id);
    var j :| 0 <= j < |rows| && rows[j] == found.value;
    assert i == j;
  }

  // ------------------------------------------------------------ lookup tables

  /** The Bootstrap badge classes the page uses. */
  datatype BadgeClass = BgSuccess | BgWarningDark | BgDanger | BgSecondary | BgInfo

  function BadgeClassText(c: BadgeClass): string {
    match c
    case BgSuccess => "badge bg-success"
    case BgWarningDark => "badge bg-warning text-dark"
    case BgDanger => "badge bg-danger"
    case BgSecondary => "badge bg-secondary"
    case BgInfo => "badge bg-info"
  }

  /** The Bootstrap icons the page uses. */
  datatype Icon = Clock | ArrowRepeat | CheckCircle | QuestionCircle | ArrowDown | Dash | ArrowUp

  function IconClass(i: Icon): string {
    match i
    case Clock => "bi-clock"
    case ArrowRepeat => "bi-arrow-repeat"
    case CheckCircle => "bi-check-circle"
    case QuestionCircle => "bi-question-circle"
    case ArrowDown => "bi-arrow-down"
    case Dash => "bi-dash"
    case ArrowUp => "bi-arrow-up"
  }

  /** view.php:38-45: each priority has its own colour; anything else is grey. */
  function PriorityBadgeClass(priority: string): (c: BadgeClass)
    ensures c == BgSecondary <==> priority !in ValidPriorities
  {
    if priority == "Low" then BgSuccess
    else if priority == "Medium" then BgWarningDark
    else if priority == "High" then BgDanger
    else BgSecondary
  }

  /** view.php:47-54: Pending shares the grey fallback, so a pending task and
      one with an unknown status carry the same badge. */
  function StatusBadgeClass(status: string): (c: BadgeClass)
    ensures c == BgSecondary <==> status != "In Progress" && status != "Completed"
  {
    if status == "In Progress" then BgInfo
    else if status == "Completed" then BgSuccess
    else BgSecondary
  }

  /** view.php:56-63: each status has its own icon; anything else gets a question mark. */
  function StatusIcon(status: string): (i: Icon)
    ensures i == QuestionCircle <==> status !in ValidStatuses
  {
    if status == "Pending" then Clock
    else if status == "In Progress" then ArrowRepeat
    else if status == "Completed" then CheckCircle
    else QuestionCircle
  }

  /** view.php:65-72: the fallback is Medium's dash, so an unknown priority
      looks like Medium. */
  function PriorityIcon(priority: string): (i: Icon)
    ensures i == Dash <==> priority != "Low" && priority != "High"
  {
    if priority == "Low" then ArrowDown
    else if priority == "High" then ArrowUp
    else Dash
  }

  /** Distinct known values get distinct colours and icons. */
  lemma LookupsDistinguishValues(a: string, b: string)
    requires a != b
    ensures a in ValidPriorities ==> PriorityBadgeClass(a) != PriorityBadgeClass(b)
    ensures a in ValidStatuses ==> StatusIcon(a) != StatusIcon(b)
  {
  }

  /** The fallbacks coincide with entries of the tables: an unknown status
      has Pending's badge and an unknown priority has Medium's icon. */
  lemma FallbacksCoincide(x: string)
    ensures x !in ValidStatuses ==> StatusBadgeClass(x) == StatusBadgeClass("Pending")
    ensures x !in ValidPriorities ==> PriorityIcon(x) == PriorityIcon("Medium")
  {
  }

  // ------------------------------------------------------------ visibility

  /** view.php:167 and 251: `$task['due_date'] && $task['due_date'] !== '0000-00-00'`;
      the same rule as the list page's due-date column. */
  function DueDateShown(t: Task): (shown: bool)
    ensures shown <==> t.dueDate.Some? && t.dueDate.value !in {"", "0", "0000-00-00"}
  {
    HasDueDate(t.dueDate)
  }

  /** view.php:242: "Last Updated" appears once the row has been touched after creation. */
  predicate LastUpdatedShown(t: Task) {
    t.updatedAt != t.createdAt
  }

  /** A row as the create page inserts it, with both timestamps equal, does
      not show "Last Updated"; one whose timestamps differ does. */
  lemma LastUpdatedOnlyAfterEdit(t: Task, edited: string)
    ensures !LastUpdatedShown(t.(updatedAt := t.createdAt))
    ensures edited != t.createdAt ==> LastUpdatedShown(t.(updatedAt := edited))
  {
  }

  /** view.php:273, as written: the button is hidden only for the lowercase
      status 'completed', so every known status shows it, and a task that
      hides it carries the page's unknown-status icon. */
  function MarkCompleteShown(t: Task): (shown: bool)
    ensures t.status in ValidStatuses ==> shown
    ensures !shown ==> StatusIcon(t.status) == QuestionCircle
  {
    t.status != "completed"
  }

  /** The same test with the status the validator admits: the button is
      hidden exactly for the tasks the page marks with the completed icon
      and the green badge. */
  function MarkCompleteShownIntended(t: Task): (shown: bool)
    ensures !shown <==> StatusIcon(t.status) == CheckCircle
    ensures !shown <==> StatusBadgeClass(t.status) == BgSuccess
  {
    t.status != "Completed"
  }

  // ------------------------------------------------------------ urgency

  /** The message under the due date, one constructor per branch. */
  datatype Urgency = OverdueBy(days: nat) | DueToday | DueSoonIn(days: nat) | DueLaterIn(days: nat)

  datatype AlertKind = AlertDanger | AlertWarning | AlertInfo

  function Kind(u: Urgency): AlertKind {
    match u
    case OverdueBy(_) => AlertDanger
    case DueToday => AlertWarning
    case DueSoonIn(_) => AlertWarning
    case DueLaterIn(_) => AlertInfo
  }

  /** `$n . ' day' . ($n !== 1 ? 's' : '')`. */
  function DaysText(n: nat): string {
    NatToString(n) + " day" + (if n != 1 then "s" else "")
  }

  function UrgencyText(u: Urgency): string {
    match u
    case OverdueBy(n) => "Overdue by " + DaysText(n)
    case DueToday => "Due today!"
    case DueSoonIn(n) => "Due in " + DaysText(n)
    case DueLaterIn(n) => "Due in " + DaysText(n)
  }

  /** `(int)` stops at the first non-digit: a digit run followed by a
      non-digit reads as that run. */
  lemma {:induction false} DigitPrefixStops(a: string, b: string)
    requires AllDigits(a) && b != [] && !IsDigit(b[0])
    ensures DigitPrefix(a + b) == a
  {
    if a != [] {
      assert (a + b)[0] == a[0] && (a + b)[1..] == a[1..] + b;
      DigitPrefixStops(a[1..], b);
    } else {
      assert a + b == b;
    }
  }

  /** The day count can be read back from its text. */
  lemma DaysTextDeterminesCount(n: nat, m: nat)
    requires DaysText(n) == DaysText(m)
    ensures n == m
  {
    var tn := " day" + (if n != 1 then "s" else "");
    var tm := " day" + (if m != 1 then "s" else "");
    assert DaysText(n) == NatToString(n) + tn;
    assert DaysText(m) == NatToString(m) + tm;
    DigitPrefixStops(NatToString(n), tn);
    DigitPrefixStops(NatToString(m), tm);
    NatToStringRoundTrip(n);
    NatToStringRoundTrip(m);
  }

  /** A message after a fixed prefix determines the day count. */
  lemma PrefixedDaysText(prefix: string, n: nat, m: nat)
    requires prefix + DaysText(n) == prefix + DaysText(m)
    ensures n == m
  {
    assert (prefix + DaysText(n))[|prefix|..] == DaysText(n);
    assert (prefix + DaysText(m))[|prefix|..] == DaysText(m);
    DaysTextDeterminesCount(n, m);
  }

  /** view.php:178-198: the message tells the branch and the count apart.
      Equal messages come from the same branch, except that "Due in" is
      shared by the warning and the information alert, and carry the same
      number of days. */
  lemma UrgencyTextReadsBack(u: Urgency, v: Urgency)
    requires UrgencyText(u) == UrgencyText(v)
    ensures u.OverdueBy? <==> v.OverdueBy?
    ensures u == DueToday <==> v == DueToday
    ensures u != DueToday && v != DueToday ==> u.days == v.days
  {
    var text := UrgencyText(u);
    assert u.OverdueBy? ==> text[0] == 'O';
    assert v.OverdueBy? ==> text[0] == 'O';
    assert !u.OverdueBy? ==> text[0] == 'D';
    assert !v.OverdueBy? ==> text[0] == 'D';
    assert u == DueToday ==> text[4] == 't';
    assert v == DueToday ==> text[4] == 't';
    assert (u.DueSoonIn? || u.DueLaterIn?) ==> text[4] == 'i';
    assert (v.DueSoonIn? || v.DueLaterIn?) ==> text[4] == 'i';
    if u.OverdueBy? && v.OverdueBy? {
      PrefixedDaysText("Overdue by ", u.days, v.days);
    } else if (u.DueSoonIn? || u.DueLaterIn?) && (v.DueSoonIn? || v.DueLaterIn?) {
      PrefixedDaysText("Due in ", u.days, v.days);
    }
  }

  /** view.php:179-198 with the due date at midnight of `dueDay` and `now`
      in seconds. Overdue as soon as that midnight has passed, counting
      whole days elapsed; otherwise a warning while midnight is less than
      four days away ("Due today!" within the first day), else information. */
  function Classify(dueDay: int, now: int): (u: Urgency)
    ensures u.OverdueBy? <==> dueDay * SecondsPerDay < now
    ensures u.OverdueBy? ==> u.days == (now - dueDay * SecondsPerDay) / SecondsPerDay
    ensures u == DueToday <==> now <= dueDay * SecondsPerDay < now + SecondsPerDay
    ensures Kind(u) == AlertWarning <==> now <= dueDay * SecondsPerDay < now + 4 * SecondsPerDay
    ensures u.DueSoonIn? ==> 1 <= u.days <= 3 && u.days == (dueDay * SecondsPerDay - now) / SecondsPerDay
    ensures u.DueLaterIn? ==> u.days >= 4 && u.days == (dueDay * SecondsPerDay - now) / SecondsPerDay
  {
    var days := DiffDays(dueDay, now);
    if dueDay * SecondsPerDay < now then OverdueBy(days)
    else if days <= 3 then (if days == 0 then DueToday else DueSoonIn(days))
    else DueLaterIn(days)
  }

  /** view.php:167-199: the alert appears for every shown due date unless
      the status is exactly 'completed'. */
  function UrgencyAlert(t: Task, dueDay: int, now: int): (alert: Option<Urgency>)
    ensures alert.None? <==> !DueDateShown(t) || t.status == "completed"
    ensures alert.Some? ==> alert.value == Classify(dueDay, now)
  {
    if DueDateShown(t) && t.status != "completed" then Some(Classify(dueDay, now)) else None
  }

  /** The same block with the exemption the validator's status admits. */
  function UrgencyAlertIntended(t: Task, dueDay: int, now: int): (alert: Option<Urgency>)
    ensures alert.None? <==> !DueDateShown(t) || t.status == "Completed"
    ensures alert.Some? ==> alert.value == Classify(dueDay, now)
  {
    if DueDateShown(t) && t.status != "Completed" then Some(Classify(dueDay, now)) else None
  }

  /** A task due today reads "Overdue by 0 days" once today's midnight has passed. */
  lemma DueTodayOverdueByZero(now: int)
    requires now % SecondsPerDay != 0
    ensures Classify(now / SecondsPerDay, now) == OverdueBy(0)
  {
  }

  /** A task due tomorrow reads "Due today!" all through today after midnight. */
  lemma DueTomorrowReadsToday(now: int)
    requires now % SecondsPerDay != 0
    ensures Classify(now / SecondsPerDay + 1, now) == DueToday
  {
  }

  /** The day count is followed by "s" exactly when it is not 1. */
  lemma PluralSuffix(n: nat)
    ensures var text := DaysText(n); text[|text| - 1] == 's' <==> n != 1
  {
    var digits := NatToString(n);
    if n == 1 {
      assert DaysText(n) == digits + " day" + "";
    }
  }

  /** As written, the exemption never applies to a task that passed
      validation: its status is 'Completed' at most, never 'completed', so
      a finished task keeps its urgency alert and its Mark Complete button. */
  lemma ValidatedTasksNeverExempt(t: Task, dueDay: int, now: int)
    requires t.status in ValidStatuses && DueDateShown(t)
    ensures UrgencyAlert(t, dueDay, now) == Some(Classify(dueDay, now))
    ensures MarkCompleteShown(t)
  {
    assert t.status != "completed" by {
      assert "completed" != "Pending" && "completed" != "In Progress" && "completed" != "Completed";
    }
  }

  /** With the intended comparison, finished tasks are exempt and all others are not. */
  lemma IntendedExemptsExactlyCompleted(t: Task, dueDay: int, now: int)
    requires t.status in ValidStatuses && DueDateShown(t)
    ensures UrgencyAlertIntended(t, dueDay, now).None? <==> t.status == "Completed"
    ensures MarkCompleteShownIntended(t) <==> t.status != "Completed"
  {
  }
}

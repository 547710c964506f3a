/** The helper functions every page includes (includes/functions.php):
    input sanitising, date and task validation, badge lookups, and the
    session-held CSRF token and flash message. */
module TaskHelpers {
  import opened Wrappers
  import opened PhpStrings

  // ------------------------------------------------------------ sanitising

  /** `sanitize_input`: trim, then stripslashes, then htmlspecialchars.
      The result carries no raw tag bracket or quote, and decoding its
      entities gives back the trimmed, unslashed input. */
  function SanitizeInput(data: string): (r: string)
    ensures '<' !in r && '>' !in r && '"' !in r && '\'' !in r
    ensures HtmlSpecialCharsDecode(r) == StripSlashes(Trim(data, TrimWhitespace))
  {
    var trimmed := Trim(data, TrimWhitespace);
    var unslashed := StripSlashes(trimmed);
    DecodeUndoesEscape(unslashed);
    HtmlSpecialChars(unslashed)
  }

  /** Sanitising a text with no surrounding whitespace and no backslash only escapes it. */
  lemma SanitizeOnlyEscapes(s: string)
    requires s != [] && s[0] !in TrimWhitespace && s[|s| - 1] !in TrimWhitespace && '\\' !in s
    ensures SanitizeInput(s) == HtmlSpecialChars(s)
  {
  }

  /** Sanitising is not idempotent: an ampersand before plain text becomes
      "&amp;" on the first pass and "&amp;amp;" on the second. */
  lemma SanitizeNotIdempotent(tail: string)
    requires NoSpecials(tail) && '\\' !in tail && (tail == [] || tail[|tail| - 1] !in TrimWhitespace)
    ensures SanitizeInput(['&'] + tail) == "&amp;" + tail
    ensures SanitizeInput(SanitizeInput(['&'] + tail)) == "&amp;amp;" + tail
  {
    SanitizeAmpersand(tail);
    AmpersandSplits(tail);
    SanitizeAmpersand("amp;" + tail);
  }

  lemma AmpersandSplits(tail: string)
    requires NoSpecials(tail) && '\\' !in tail && (tail == [] || tail[|tail| - 1] !in TrimWhitespace)
    ensures var longer := "amp;" + tail;
      NoSpecials(longer) && '\\' !in longer && longer[|longer| - 1] !in TrimWhitespace
    ensures "&amp;" + tail == ['&'] + ("amp;" + tail)
    ensures "&amp;" + ("amp;" + tail) == "&amp;amp;" + tail
  {
    var amp, longer := "amp;", "amp;" + tail;
    assert NoSpecials(amp) && '\\' !in amp;
    assert forall i :: 0 <= i < |longer| ==> longer[i] in amp || longer[i] in tail;
    assert longer[|longer| - 1] == if tail == [] then ';' else tail[|tail| - 1];
  }

  /** A leading ampersand before text with nothing to escape turns into "&amp;". */
  lemma SanitizeAmpersand(tail: string)
    requires NoSpecials(tail) && '\\' !in tail && (tail == [] || tail[|tail| - 1] !in TrimWhitespace)
    ensures SanitizeInput(['&'] + tail) == "&amp;" + tail
  {
    var s := ['&'] + tail;
    assert s[1..] == tail && s[|s| - 1] !in TrimWhitespace;
    SanitizeOnlyEscapes(s);
    EscapeLengthens(tail);
  }

  // ------------------------------------------------------------ calendar

  datatype Date = Date(year: nat, month: nat, day: nat)

  predicate IsLeapYear(y: nat) {
    (y % 4 == 0 && y % 100 != 0) || y % 400 == 0
  }

  function DaysInMonth(y: nat, m: nat): nat
    requires 1 <= m <= 12
  {
    if m == 2 then (if IsLeapYear(y) then 29 else 28)
    else if m == 4 || m == 6 || m == 9 || m == 11 then 30
    else 31
  }

  /** A real day of the proleptic Gregorian calendar with a four-digit year. */
  predicate IsCalendarDate(d: Date) {
    d.year <= 9999 && 1 <= d.month <= 12 && 1 <= d.day <= DaysInMonth(d.year, d.month)
  }

  /** `$d->format('Y-m-d')`: zero-padded year, month and day. */
  function FormatYmd(d: Date): (s: string)
    ensures |s| == 10 && s[4] == '-' && s[7] == '-'
  {
    Digits(d.year, 4) + "-" + Digits(d.month, 2) + "-" + Digits(d.day, 2)
  }

  /** The fields `DateTime::createFromFormat('Y-m-d', $s)` reads: four
      year digits, a dash, two month digits, a dash, two day digits, and
      nothing after them. */
  function ParseYmd(s: string): Option<Date> {
    if |s| == 10 && AllDigits(s[..4]) && s[4] == '-' && AllDigits(s[5..7]) && s[7] == '-' && AllDigits(s[8..])
    then Some(Date(DecimalValue(s[..4]), DecimalValue(s[5..7]), DecimalValue(s[8..])))
    else None
  }

  /** `validate_date`: parse, then reformat and compare with the input.
      A month or day out of range is carried by PHP into a neighbouring
      date, whose formatting differs from the input, so the comparison
      fails exactly when the parsed fields are not a calendar date. */
  function ValidateDate(s: string): (ok: bool)
    ensures ok ==> |s| == 10 && s[4] == '-' && s[7] == '-'
    ensures ok ==> ParseYmd(s).Some? && IsCalendarDate(ParseYmd(s).value)
    ensures ok ==> FormatYmd(ParseYmd(s).value) == s
  {
    match ParseYmd(s)
    case None => false
    case Some(d) => IsCalendarDate(d) && FormatYmd(d) == s
  }

  /** Parsing gives back the fields of a formatted date. */
  lemma ParseFormatted(d: Date)
    requires d.year <= 9999 && d.month <= 99 && d.day <= 99
    ensures ParseYmd(FormatYmd(d)) == Some(d)
  {
    var s := FormatYmd(d);
    assert s[..4] == Digits(d.year, 4);
    assert s[5..7] == Digits(d.month, 2);
    assert s[8..] == Digits(d.day, 2);
    assert Power10(4) == 10000 && Power10(2) == 100;
    DigitsRoundTrip(d.year, 4);
    DigitsRoundTrip(d.month, 2);
    DigitsRoundTrip(d.day, 2);
  }

  /** Every formatted calendar date passes the round trip. */
  lemma FormattedDateValidates(d: Date)
    requires IsCalendarDate(d)
    ensures ValidateDate(FormatYmd(d))
  {
    ParseFormatted(d);
  }

  /** A due date is accepted exactly when it is the zero-padded YYYY-MM-DD
      form of a real calendar date. */
  lemma ValidateDateExactly(s: string)
    ensures ValidateDate(s) <==> exists d :: IsCalendarDate(d) && FormatYmd(d) == s
  {
    if exists d :: IsCalendarDate(d) && FormatYmd(d) == s {
      var d :| IsCalendarDate(d) && FormatYmd(d) == s;
      FormattedDateValidates(d);
    }
    if ValidateDate(s) {
      var d := ParseYmd(s).value;
      assert IsCalendarDate(d) && FormatYmd(d) == s;
    }
  }

  /** A well-formed date is still refused when the day does not exist:
      29 February passes exactly in leap years. */
  lemma LeapDayValidatesInLeapYears(year: nat)
    requires year <= 9999
    ensures ValidateDate(FormatYmd(Date(year, 2, 29))) <==> IsLeapYear(year)
  {
    ParseFormatted(Date(year, 2, 29));
  }

  // ------------------------------------------------------------ badges

  const ValidPriorities: seq<string> := ["Low", "Medium", "High"]
  const ValidStatuses: seq<string> := ["Pending", "In Progress", "Completed"]

  /** A badge: a `<span class="badge ...">` of the given colour classes around a text. */
  datatype Badge = Badge(colour: string, text: string)

  /** The markup `echo` writes for a badge. */
  function BadgeHtml(b: Badge): string {
    "<span class=\"badge " + b.colour + "\">" + b.text + "</span>"
  }

  const PriorityBadges: map<string, Badge> := map[
    "Low" := Badge("bg-success", "Low"),
    "Medium" := Badge("bg-warning text-dark", "Medium"),
    "High" := Badge("bg-danger", "High")
  ]

  const StatusBadges: map<string, Badge> := map[
    "Pending" := Badge("bg-secondary", "Pending"),
    "In Progress" := Badge("bg-primary", "In Progress"),
    "Completed" := Badge("bg-success", "Completed")
  ]

  /** `get_priority_badge`: total; a known priority is shown under its own
      name, anything else as the grey "Unknown" badge. */
  function GetPriorityBadge(priority: string): (b: Badge)
    ensures priority in ValidPriorities ==> b.text == priority && b.colour != "bg-secondary"
    ensures priority !in ValidPriorities ==> b == Badge("bg-secondary", "Unknown")
  {
    if priority in PriorityBadges then PriorityBadges[priority] else Badge("bg-secondary", "Unknown")
  }

  /** `get_status_badge`: total; a known status is shown under its own
      name, anything else as the dark "Unknown" badge. */
  function GetStatusBadge(status: string): (b: Badge)
    ensures status in ValidStatuses ==> b.text == status && b.colour != "bg-dark"
    ensures status !in ValidStatuses ==> b == Badge("bg-dark", "Unknown")
  {
    if status in StatusBadges then StatusBadges[status] else Badge("bg-dark", "Unknown")
  }

  /** Different known values never share a badge, and no known value gets the fallback. */
  lemma BadgesDistinguishValues(a: string, b: string)
    ensures a in ValidPriorities && a != b ==> GetPriorityBadge(a) != GetPriorityBadge(b)
    ensures a in ValidStatuses && a != b ==> GetStatusBadge(a) != GetStatusBadge(b)
  {
  }

  // ------------------------------------------------------------ validation

  /** The messages `validate_task_data` can append, one constructor each. */
  datatype ValidationError =
    | TitleRequired | TitleTooLong | DescriptionTooLong
    | InvalidPriority | InvalidStatus | InvalidDateFormat

  function Message(e: ValidationError): string {
    match e
    case TitleRequired => "Title is required."
    case TitleTooLong => "Title must be less than 255 characters."
    case DescriptionTooLong => "Description must be less than 1000 characters."
    case InvalidPriority => "Invalid priority level."
    case InvalidStatus => "Invalid status."
    case InvalidDateFormat => "Invalid date format."
  }

  /** The field an error belongs to, in the order the checks run. */
  function Field(e: ValidationError): nat {
    match e
    case TitleRequired => 0
    case TitleTooLong => 0
    case DescriptionTooLong => 1
    case InvalidPriority => 2
    case InvalidStatus => 3
    case InvalidDateFormat => 4
  }

  /** Every field of a task passes the checks. */
  predicate TaskDataValid(title: string, description: string, priority: string, dueDate: string, status: string) {
    && !Empty(title) && |title| <= 255
    && |description| <= 1000
    && priority in ValidPriorities
    && status in ValidStatuses
    && (Empty(dueDate) || ValidateDate(dueDate))
  }

  /** The title check: required, then at most 255 bytes. */
  function CheckTitle(title: string): (errors: seq<ValidationError>)
    ensures errors == [] <==> !Empty(title) && |title| <= 255
    ensures errors == [TitleRequired] <==> Empty(title)
    ensures errors == [TitleTooLong] <==> !Empty(title) && |title| > 255
    ensures |errors| <= 1
  {
    if Empty(title) then [TitleRequired] else if |title| > 255 then [TitleTooLong] else []
  }

  /** One of the four single-error checks: at most its own error, present
      exactly when the check fails. */
  function Check(fails: bool, error: ValidationError): (errors: seq<ValidationError>)
    ensures |errors| <= 1
    ensures forall e :: e in errors ==> e == error
    ensures error in errors <==> fails
  {
    if fails then [error] else []
  }

  /** `validate_task_data`: the error list, built by appending one error per failed check;
      each error is present exactly when its check fails. */
  function ValidateTaskData(title: string, description: string, priority: string, dueDate: string, status: string): (errors: seq<ValidationError>)
    ensures errors == [] <==> TaskDataValid(title, description, priority, dueDate, status)
    ensures TitleRequired in errors <==> Empty(title)
    ensures TitleTooLong in errors <==> !Empty(title) && |title| > 255
    ensures DescriptionTooLong in errors <==> |description| > 1000
    ensures InvalidPriority in errors <==> priority !in ValidPriorities
    ensures InvalidStatus in errors <==> status !in ValidStatuses
    ensures InvalidDateFormat in errors <==> !Empty(dueDate) && !ValidateDate(dueDate)
  {
    var errors := CheckTitle(title);
    var errors := errors + Check(|description| > 1000, DescriptionTooLong);
    var errors := errors + Check(priority !in ValidPriorities, InvalidPriority);
    var errors := errors + Check(status !in ValidStatuses, InvalidStatus);
    errors + Check(!Empty(dueDate) && !ValidateDate(dueDate), InvalidDateFormat)
  }

  /** Errors come in the fixed field order (title, description, priority,
      status, due date), at most one per field, so there are at most five. */
  lemma ErrorsInFieldOrder(title: string, description: string, priority: string, dueDate: string, status: string)
    ensures var errors := ValidateTaskData(title, description, priority, dueDate, status);
      && (forall i, j :: 0 <= i < j < |errors| ==> Field(errors[i]) < Field(errors[j]))
      && |errors| <= 5
  {
    var c0 := CheckTitle(title);
    var c1 := Check(|description| > 1000, DescriptionTooLong);
    var c2 := Check(priority !in ValidPriorities, InvalidPriority);
    var c3 := Check(status !in ValidStatuses, InvalidStatus);
    var c4 := Check(!Empty(dueDate) && !ValidateDate(dueDate), InvalidDateFormat);
    var checks := [c0, c1, c2, c3, c4];
    assert forall e :: e in c0 ==> Field(e) == 0;
    assert forall e :: e in c1 ==> Field(e) == 1;
    assert forall e :: e in c2 ==> Field(e) == 2;
    assert forall e :: e in c3 ==> Field(e) == 3;
    assert forall e :: e in c4 ==> Field(e) == 4;
    FlattenFive(c0, c1, c2, c3, c4);
    FieldOrdered(checks);
  }

  lemma FlattenFive(c0: seq<ValidationError>, c1: seq<ValidationError>, c2: seq<ValidationError>, c3: seq<ValidationError>, c4: seq<ValidationError>)
    ensures Flatten([c0, c1, c2, c3, c4]) == c0 + c1 + c2 + c3 + c4
  {
    var checks := [c0, c1, c2, c3, c4];
    assert checks[..4] == [c0, c1, c2, c3];
    assert Flatten(checks) == Flatten([c0, c1, c2, c3]) + c4;
    assert [c0, c1, c2, c3][..3] == [c0, c1, c2];
    assert Flatten([c0, c1, c2, c3]) == Flatten([c0, c1, c2]) + c3;
    assert [c0, c1, c2][..2] == [c0, c1];
    assert Flatten([c0, c1, c2]) == Flatten([c0, c1]) + c2;
    assert [c0, c1][..1] == [c0];
    assert Flatten([c0, c1]) == Flatten([c0]) + c1;
    assert [c0][..0] == [];
    assert Flatten([c0]) == c0;
  }

  /** Concatenating per-field lists, each of at most one error of its own field, keeps fields ordered. */
  lemma {:induction false} FieldOrdered(checks: seq<seq<ValidationError>>)
    requires forall k :: 0 <= k < |checks| ==> |checks[k]| <= 1
    requires forall k, e :: 0 <= k < |checks| && e in checks[k] ==> Field(e) == k
    ensures var errors := Flatten(checks);
      (forall i, j :: 0 <= i < j < |errors| ==> Field(errors[i]) < Field(errors[j]))
      && |errors| <= |checks|
      && forall i :: 0 <= i < |errors| ==> Field(errors[i]) < |checks|
  {
    if checks != [] {
      var init := checks[..|checks| - 1];
      FieldOrdered(init);
      assert forall k :: 0 <= k < |init| ==> init[k] == checks[k];
    }
  }

  function Flatten(checks: seq<seq<ValidationError>>): seq<ValidationError> {
    if checks == [] then [] else Flatten(checks[..|checks| - 1]) + checks[|checks| - 1]
  }

  /** PHP's `empty("0")` makes the title "0" count as missing, while a
      title of exactly 255 bytes is accepted. */
  lemma TitleEdgeCases(title: string)
    ensures ValidateTaskData("0", "", "Low", "", "Pending") == [TitleRequired]
    ensures |title| == 255 ==> ValidateTaskData(title, "", "Low", "", "Pending") == []
  {
  }

  // ------------------------------------------------------------ session

  const CsrfTokenKey := "csrf_token"
  const FlashMessageKey := "flash_message"
  const FlashTypeKey := "flash_type"

  datatype Flash = Flash(message: string, kind: string)

  /** The request's `$_SESSION`, as a dictionary of strings. */
  class Session {
    var entries: map<string, string>

    constructor (entries: map<string, string>)
      ensures this.entries == entries
    {
      this.entries := entries;
    }

    /** `generate_csrf_token`: stores `freshToken` (standing for the hex of
        32 random bytes) only when no token is stored, then returns the stored one. */
    method GenerateCsrfToken(freshToken: string) returns (token: string)
      modifies this
      ensures CsrfTokenKey in old(entries) ==> entries == old(entries) && token == old(entries)[CsrfTokenKey]
      ensures CsrfTokenKey !in old(entries) ==> entries == old(entries)[CsrfTokenKey := freshToken] && token == freshToken
    {
      if CsrfTokenKey !in entries {
        entries := entries[CsrfTokenKey := freshToken];
      }
      token := entries[CsrfTokenKey];
    }

    /** `validate_csrf_token`: true exactly when a token is stored and equals the argument. */
    method ValidateCsrfToken(token: string) returns (ok: bool)
      ensures ok <==> CsrfTokenKey in entries && entries[CsrfTokenKey] == token
    {
      ok := CsrfTokenKey in entries && entries[CsrfTokenKey] == token;
    }

    /** `set_flash_message`. */
    method SetFlashMessage(message: string, kind: string)
      modifies this
      ensures entries == old(entries)[FlashMessageKey := message][FlashTypeKey := kind]
    {
      entries := entries[FlashMessageKey := message];
      entries := entries[FlashTypeKey := kind];
    }

    /** `display_flash_message`: shows the stored message (its type
        defaulting to "info") and removes both entries. */
    method DisplayFlashMessage() returns (shown: Option<Flash>)
      modifies this
      ensures FlashMessageKey !in old(entries) ==> shown == None && entries == old(entries)
      ensures FlashMessageKey in old(entries) ==>
        && shown == Some(Flash(old(entries)[FlashMessageKey],
                               if FlashTypeKey in old(entries) then old(entries)[FlashTypeKey] else "info"))
        && entries == old(entries) - {FlashMessageKey, FlashTypeKey}
    {
      if FlashMessageKey in entries {
        var message := entries[FlashMessageKey];
        var kind := if FlashTypeKey in entries then entries[FlashTypeKey] else "info";
        shown := Some(Flash(message, kind));
        entries := entries - {FlashMessageKey};
        entries := entries - {FlashTypeKey};
      } else {
        shown := None;
      }
    }
  }

  /** Every token handed out validates, and a second generation hands out the same one. */
  method TokenRoundTrip(session: Session, freshToken: string, otherFresh: string) returns (first: string, second: string, ok: bool)
    modifies session
    ensures first == second && ok
  {
    first := session.GenerateCsrfToken(freshToken);
    second := session.GenerateCsrfToken(otherFresh);
    ok := session.ValidateCsrfToken(first);
  }

  /** A flash message is shown once: the display right after shows nothing. */
  method FlashShownOnce(session: Session, message: string, kind: string) returns (first: Option<Flash>, second: Option<Flash>)
    modifies session
    ensures first == Some(Flash(message, kind)) && second == None
  {
    session.SetFlashMessage(message, kind);
    first := session.DisplayFlashMessage();
    second := session.DisplayFlashMessage();
  }
}

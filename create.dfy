/** The create-task controller (create.php): sanitise the posted fields,
    validate them, and insert a row only when nothing failed. */
module TaskCreate {
  import opened Wrappers
  import opened PhpStrings
  import opened TaskHelpers
  import opened TaskStore

  /** The five form fields as the page holds them. */
  datatype TaskForm = TaskForm(title: string, description: string, priority: string, dueDate: string, status: string)

  /** create.php:6-11: what the form shows before anything is posted; note
      the lowercase 'pending', which the validator would refuse. */
  const DefaultForm := TaskForm("", "", "", "", "pending")

  /** A posted field; a missing one reads as '' (PHP's null, which trim turns into ''). */
  function PostField(post: map<string, string>, key: string): string {
    if key in post then post[key] else ""
  }

  /** create.php:15-19: every field goes through `sanitize_input`, so none
      holds a raw tag bracket or quote, and a missing field is empty. */
  function SanitizedForm(post: map<string, string>): (form: TaskForm)
    ensures Unmarked(form.title) && Unmarked(form.description) && Unmarked(form.priority)
    ensures Unmarked(form.dueDate) && Unmarked(form.status)
    ensures "title" !in post ==> form.title == ""
    ensures "due_date" !in post ==> form.dueDate == ""
  {
    TaskForm(
      SanitizeInput(PostField(post, "title")),
      SanitizeInput(PostField(post, "description")),
      SanitizeInput(PostField(post, "priority")),
      SanitizeInput(PostField(post, "due_date")),
      SanitizeInput(PostField(post, "status")))
  }

  /** create.php:22. */
  function FormErrors(form: TaskForm): seq<ValidationError> {
    ValidateTaskData(form.title, form.description, form.priority, form.dueDate, form.status)
  }

  /** create.php:33: an empty due date ('' or '0') is stored as NULL, any other verbatim. */
  function DueDateValue(dueDate: string): (v: Option<string>)
    ensures v.None? <==> Empty(dueDate)
    ensures v.Some? ==> v.value == dueDate && v.value != ""
  {
    if Empty(dueDate) then None else Some(dueDate)
  }

  /** How the INSERT went: it ran, `execute()` returned false, or the driver
      threw with a message. */
  datatype Execution = Executed | ExecuteFailed | Threw(message: string)

  /** What the page reports above the form. */
  datatype FormError = Invalid(error: ValidationError) | CreateFailed | DatabaseError(message: string)

  const CreateFailedMessage := "Error creating task. Please try again."
  const DatabaseErrorPrefix := "Database error: "

  /** The text the page lists for an error (create.php:40 and 45 for the INSERT). */
  function FormErrorMessage(e: FormError): string {
    match e
    case Invalid(v) => Message(v)
    case CreateFailed => CreateFailedMessage
    case DatabaseError(m) => DatabaseErrorPrefix + m
  }

  /** The page's `$errors`, as the texts it lists above the form. */
  function ErrorTexts(errors: seq<FormError>): seq<string> {
    seq(|errors|, i requires 0 <= i < |errors| => FormErrorMessage(errors[i]))
  }

  /** Different errors of the same kind are listed with different texts:
      the fixed messages differ from each other, and a driver error's text
      carries the driver's own message. */
  lemma FormErrorMessagesDistinct(a: FormError, b: FormError)
    requires a.DatabaseError? <==> b.DatabaseError?
    requires FormErrorMessage(a) == FormErrorMessage(b)
    ensures a == b
  {
    if a.DatabaseError? {
      assert (DatabaseErrorPrefix + a.message)[|DatabaseErrorPrefix|..] == a.message;
      assert (DatabaseErrorPrefix + b.message)[|DatabaseErrorPrefix|..] == b.message;
    }
  }

  /** The page lists one text per validation error, in order. */
  lemma ValidationTexts(validation: seq<ValidationError>)
    ensures |ErrorTexts(AsFormErrors(validation))| == |validation|
    ensures forall i :: 0 <= i < |validation| ==> ErrorTexts(AsFormErrors(validation))[i] == Message(validation[i])
  {
  }

  /** A single INSERT error is listed as its one text. */
  lemma SingleErrorText(e: FormError)
    ensures ErrorTexts([e]) == [FormErrorMessage(e)]
  {
  }

  function AsFormErrors(errors: seq<ValidationError>): (r: seq<FormError>)
    ensures |r| == |errors| && forall i :: 0 <= i < |r| ==> r[i] == Invalid(errors[i])
  {
    if errors == [] then [] else [Invalid(errors[0])] + AsFormErrors(errors[1..])
  }

  /** A stored row whose fields pass the validator (its due date may be NULL). */
  predicate WellFormed(t: Task) {
    TaskDataValid(t.title, t.description, t.priority, if t.dueDate.Some? then t.dueDate.value else "", t.status)
    && t.createdAt == t.updatedAt
  }

  /** The row the page inserts for a form (create.php:29-35): both
      timestamps are the insertion time, and the due date is NULL exactly
      when the form's is empty. */
  function NewRow(id: nat, form: TaskForm, now: string): (row: Task)
    ensures row.id == id && row.createdAt == now && row.updatedAt == now
    ensures row.dueDate.None? <==> Empty(form.dueDate)
    ensures row.dueDate.Some? ==> row.dueDate.value == form.dueDate
  {
    Task(id, form.title, form.description, form.priority, form.status, DueDateValue(form.dueDate), now, now)
  }

  /** A form the validator accepts yields a well-formed row: both timestamps
      equal and a due date that is NULL or a real calendar date. */
  lemma AcceptedFormWellFormed(id: nat, form: TaskForm, now: string)
    requires FormErrors(form) == []
    ensures WellFormed(NewRow(id, form, now))
    ensures var due := NewRow(id, form, now).dueDate;
      due.None? || exists d :: IsCalendarDate(d) && FormatYmd(d) == due.value
  {
    var due := NewRow(id, form, now).dueDate;
    if due.Some? {
      ValidateDateExactly(due.value);
    }
  }

  /** The title "0" is refused as missing, but a due date "0" passes and is stored as NULL. */
  lemma ZeroDueDateStoredAsNull(form: TaskForm)
    requires form.dueDate == "0"
    ensures InvalidDateFormat !in FormErrors(form)
    ensures DueDateValue(form.dueDate) == None
  {
  }

  /** Escaping happens before the length check: 64 '<' (64 bytes as typed)
      grow to 256 bytes and are refused as too long. */
  lemma EscapingCountsTowardsTitleLimit(raw: string)
    requires |raw| >= 64 && forall i :: 0 <= i < |raw| ==> raw[i] == '<'
    ensures |SanitizeInput(raw)| == 4 * |raw|
    ensures TitleTooLong in ValidateTaskData(SanitizeInput(raw), "", "Low", "", "Pending")
  {
    assert '\\' !in raw;
    SanitizeOnlyEscapes(raw);
    EscapedBracketsLength(raw);
  }

  lemma {:induction false} EscapedBracketsLength(s: string)
    requires forall i :: 0 <= i < |s| ==> s[i] == '<'
    ensures |HtmlSpecialChars(s)| == 4 * |s|
  {
    if s != [] {
      EscapedBracketsLength(s[1..]);
    }
  }

  /** The flash `redirect_with_message` stores after a successful insert
      (create.php:38, includes/functions.php:144-145). */
  const CreatedMessage := "Task created successfully!"
  const CreatedType := "success"

  /** create.php:24-46: the INSERT block, run with the validator's verdict.
      A row is appended, and the success flash stored, only when there were
      no errors and the statement ran; otherwise the table and the session
      are unchanged and the errors say why. */
  method Submit(table: TaskTable, session: Session, form: TaskForm, validation: seq<ValidationError>, execution: Execution, now: string)
    returns (errors: seq<FormError>, created: bool)
    requires table.Valid()
    requires validation == [] ==> WellFormed(NewRow(table.nextId, form, now))
    modifies table, session
    ensures table.Valid()
    ensures created ==> session.entries == old(session.entries)[FlashMessageKey := CreatedMessage][FlashTypeKey := CreatedType]
    ensures !created ==> session.entries == old(session.entries)
    ensures created <==> validation == [] && execution == Executed
    ensures created ==> errors == [] && table.rows == old(table.rows) + [NewRow(old(table.nextId), form, now)]
    ensures !created ==> table.rows == old(table.rows) && table.nextId == old(table.nextId)
    ensures validation != [] ==> errors == AsFormErrors(validation)
    ensures validation == [] && execution == ExecuteFailed ==> errors == [CreateFailed]
    ensures validation == [] && execution.Threw? ==> errors == [DatabaseError(execution.message)]
    ensures validation != [] ==>
      (|ErrorTexts(errors)| == |validation|
      && forall i :: 0 <= i < |errors| ==> ErrorTexts(errors)[i] == Message(validation[i]))
    ensures validation == [] && execution == ExecuteFailed ==> ErrorTexts(errors) == [CreateFailedMessage]
    ensures validation == [] && execution.Threw? ==> ErrorTexts(errors) == [DatabaseErrorPrefix + execution.message]
    ensures (forall t :: t in old(table.rows) ==> WellFormed(t)) ==> forall t :: t in table.rows ==> WellFormed(t)
  {
    errors := AsFormErrors(validation);
    ValidationTexts(validation);
    created := false;
    if validation == [] {
      assert errors == [];
      match execution
      case Executed =>
        var dueDateValue := DueDateValue(form.dueDate);
        var id := table.Insert(form.title, form.description, form.priority, dueDateValue, form.status, now);
        assert table.rows == old(table.rows) + [NewRow(id, form, now)];
        session.SetFlashMessage(CreatedMessage, CreatedType);
        created := true;
      case ExecuteFailed =>
        errors := errors + [CreateFailed];
        SingleErrorText(CreateFailed);
      case Threw(message) =>
        errors := errors + [DatabaseError(message)];
        SingleErrorText(DatabaseError(message));
    }
  }

  /** create.php:6-49. On a GET the table is untouched and the form keeps
      its defaults. On a POST the form holds the sanitised fields and the
      INSERT block runs with their validation; well-formed tables stay so. */
  method HandleCreate(table: TaskTable, session: Session, isPost: bool, post: map<string, string>, execution: Execution, now: string)
    returns (form: TaskForm, errors: seq<FormError>, created: bool)
    requires table.Valid()
    modifies table, session
    ensures table.Valid()
    ensures created ==> session.entries == old(session.entries)[FlashMessageKey := CreatedMessage][FlashTypeKey := CreatedType]
    ensures !created ==> session.entries == old(session.entries)
    ensures form == if isPost then SanitizedForm(post) else DefaultForm
    ensures created <==> isPost && FormErrors(form) == [] && execution == Executed
    ensures created ==> errors == [] && table.rows == old(table.rows) + [NewRow(old(table.nextId), form, now)]
    ensures !created ==> table.rows == old(table.rows) && table.nextId == old(table.nextId)
    ensures !isPost ==> errors == []
    ensures isPost && FormErrors(form) != [] ==> errors == AsFormErrors(FormErrors(form))
    ensures isPost && FormErrors(form) != [] ==>
      (|ErrorTexts(errors)| == |FormErrors(form)|
      && forall i :: 0 <= i < |errors| ==> ErrorTexts(errors)[i] == Message(FormErrors(form)[i]))
    ensures isPost && FormErrors(form) == [] && execution == ExecuteFailed ==> ErrorTexts(errors) == [CreateFailedMessage]
    ensures isPost && FormErrors(form) == [] && execution.Threw? ==> ErrorTexts(errors) == [DatabaseErrorPrefix + execution.message]
    ensures (forall t :: t in old(table.rows) ==> WellFormed(t)) ==> forall t :: t in table.rows ==> WellFormed(t)
  {
    if isPost {
      form := SanitizedForm(post);
      var validation := FormErrors(form);
      if validation == [] {
        AcceptedFormWellFormed(table.nextId, form, now);
      }
      errors, created := Submit(table, session, form, validation, execution, now);
    } else {
      form := DefaultForm;
      errors := [];
      created := false;
    }
  }
}

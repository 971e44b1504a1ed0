/** The four input validators: task name, due date, priority and
    recurrence. Each is total: it accepts and returns the canonical value,
    or rejects with the error the source raises. */
module Validation {
  import opened Wrappers
  import opened Calendar
  import opened DateText
  import opened Text

  datatype Priority = High | Medium | Low

  /** `NoRecurrence` is the value the source spells "None". */
  datatype Recurrence = NoRecurrence | Daily | Weekly | Monthly

  function PriorityName(p: Priority): (w: string)
    ensures IsCanonicalWord(w)
  {
    match p
    case High => "High"
    case Medium => "Medium"
    case Low => "Low"
  }

  function RecurrenceName(r: Recurrence): (w: string)
    ensures IsCanonicalWord(w)
  {
    match r
    case NoRecurrence => "None"
    case Daily => "Daily"
    case Weekly => "Weekly"
    case Monthly => "Monthly"
  }

  /** The `ValueError`s the validators raise, one per message. */
  datatype ValidationError =
    | EmptyName       // "Task name cannot be empty!"
    | NameTooLong     // "Task name is too long! Maximum 100 characters."
    | BadDateFormat   // "Invalid due date format! Use YYYY-MM-DD."
    | PastDueDate     // "Due date cannot be in the past!"
    | BadPriority     // "Invalid priority! ..."
    | BadRecurrence   // "Invalid recurrence! ..."

  datatype Outcome = Pass | Fail(error: ValidationError)

  datatype Result<+T> = Ok(value: T) | Err(error: ValidationError)

  const MaxNameLength := 100

  /** Python truthiness of an optional text field: present and non-empty. */
  predicate Given(s: Option<string>) {
    s.Some? && s.value != ""
  }

  /** `validate_task_name`. */
  function ValidateTaskName(name: string): (r: Outcome)
    ensures r == Pass <==> !AllSpace(name) && |name| <= 100
    ensures r == Fail(EmptyName) <==> AllSpace(name)
    ensures r == Fail(NameTooLong) <==> !AllSpace(name) && |name| > 100
  {
    if Strip(name) == "" then Fail(EmptyName)
    else if |name| > MaxNameLength then Fail(NameTooLong)
    else Pass
  }

  /** `validate_due_date` as the source writes it: the "in the past" error
      is raised inside the `try` whose `except ValueError` replaces it by
      the format error, so a well-formed past date is reported as badly
      formatted. */
  function ValidateDueDateAsWritten(due: Option<string>, today: Date): (r: Outcome)
    ensures r.Fail? ==> r.error == BadDateFormat
    ensures r == Pass <==> !Given(due) || (ParseDate(due.value).Some? && NotAfter(today, ParseDate(due.value).value))
  {
    if !Given(due) then Pass
    else
      match ParseDate(due.value)
      case None => Fail(BadDateFormat)
      case Some(d) => if Before(d, today) then Fail(BadDateFormat) else Pass
  }

  /** `validate_due_date` with the past-date message delivered as the
      source evidently intends. It accepts and rejects the same inputs as
      the code as written. */
  function ValidateDueDate(due: Option<string>, today: Date): (r: Outcome)
    ensures r.Pass? == ValidateDueDateAsWritten(due, today).Pass?
    ensures r == Fail(BadDateFormat) <==> Given(due) && ParseDate(due.value).None?
    ensures r == Fail(PastDueDate) <==> Given(due) && ParseDate(due.value).Some? && Before(ParseDate(due.value).value, today)
  {
    if !Given(due) then Pass
    else
      match ParseDate(due.value)
      case None => Fail(BadDateFormat)
      case Some(d) => if Before(d, today) then Fail(PastDueDate) else Pass
  }

  /** `validate_priority`: "Medium" when nothing is given, otherwise the
      priority whose name equals the stripped, title-cased input. */
  function ValidatePriority(p: Option<string>): (r: Result<Priority>)
    ensures !Given(p) ==> r == Ok(Medium)
    ensures Given(p) && r.Ok? ==> Title(Strip(p.value)) == PriorityName(r.value)
    ensures Given(p) && r.Err? ==> r.error == BadPriority && forall q :: Title(Strip(p.value)) != PriorityName(q)
  {
    if !Given(p) then Ok(Medium)
    else
      var w := Title(Strip(p.value));
      if w == "High" then Ok(High)
      else if w == "Medium" then Ok(Medium)
      else if w == "Low" then Ok(Low)
      else Err(BadPriority)
  }

  /** `validate_recurrence`: "None" when nothing is given, otherwise the
      recurrence whose name equals the stripped, title-cased input. */
  function ValidateRecurrence(rec: Option<string>): (r: Result<Recurrence>)
    ensures !Given(rec) ==> r == Ok(NoRecurrence)
    ensures Given(rec) && r.Ok? ==> Title(Strip(rec.value)) == RecurrenceName(r.value)
    ensures Given(rec) && r.Err? ==> r.error == BadRecurrence && forall q :: Title(Strip(rec.value)) != RecurrenceName(q)
  {
    if !Given(rec) then Ok(NoRecurrence)
    else
      var w := Title(Strip(rec.value));
      if w == "None" then Ok(NoRecurrence)
      else if w == "Daily" then Ok(Daily)
      else if w == "Weekly" then Ok(Weekly)
      else if w == "Monthly" then Ok(Monthly)
      else Err(BadRecurrence)
  }

  // ---------------------------------------------------------------------
  // Properties of the validators

  /** A name of exactly 100 characters that is not all whitespace is
      accepted; one more character is rejected. */
  lemma NameLengthBoundary(name: string, c: char)
    requires |name| == 100 && !AllSpace(name)
    ensures ValidateTaskName(name) == Pass
    ensures ValidateTaskName(name + [c]) == Fail(NameTooLong)
  {
    var k :| 0 <= k < |name| && !IsSpace(name[k]);
    assert (name + [c])[k] == name[k];
  }

  /** A date written as `YYYY-MM-DD` is accepted exactly when it is today
      or later. */
  lemma DueDateAcceptsTodayOrLater(d: Date, today: Date)
    requires Valid(d) && d.year <= 9999
    ensures ValidateDueDate(Some(FormatDate(d)), today) == Pass <==> NotAfter(today, d)
    ensures Before(d, today) ==> ValidateDueDate(Some(FormatDate(d)), today) == Fail(PastDueDate)
  {
    FormatThenParse(d);
  }

  /** Text that is not the `YYYY-MM-DD` form of any date is rejected as
      badly formatted. */
  lemma DueDateRejectsOtherText(s: string, today: Date)
    requires s != ""
    requires forall d :: Valid(d) && d.year <= 9999 ==> s != FormatDate(d)
    ensures ValidateDueDate(Some(s), today) == Fail(BadDateFormat)
  {
    if ParseDate(s).Some? {
      ParseThenFormat(s);
    }
  }

  /** For a well-formed past date the code as written reports the format
      error, not the past-date error. */
  lemma PastDueDateMisreported(d: Date, today: Date)
    requires Valid(d) && d.year <= 9999 && Before(d, today)
    ensures ValidateDueDateAsWritten(Some(FormatDate(d)), today) == Fail(BadDateFormat)
    ensures ValidateDueDate(Some(FormatDate(d)), today) == Fail(PastDueDate)
  {
    FormatThenParse(d);
  }

  /** The concrete case: "2024-01-01" checked on 2024-01-02. */
  lemma PastDueDateMisreportedExample()
    ensures ValidateDueDateAsWritten(Some("2024-01-01"), Date(2024, 1, 2)) == Fail(BadDateFormat)
    ensures ValidateDueDate(Some("2024-01-01"), Date(2024, 1, 2)) == Fail(PastDueDate)
  {
    assert FormatDate(Date(2024, 1, 1)) == "2024-01-01";
    PastDueDateMisreported(Date(2024, 1, 1), Date(2024, 1, 2));
  }

  /** Priority is matched case-insensitively after stripping whitespace. */
  lemma PriorityIgnoresCase(s: string, q: Priority)
    requires s != ""
    ensures ValidatePriority(Some(s)) == Ok(q) <==> EqualsIgnoringCase(Strip(s), PriorityName(q))
  {
    TitleMatchesWord(Strip(s), PriorityName(q));
  }

  /** Any other non-empty input is rejected. */
  lemma PriorityRejectsOthers(s: string)
    requires s != ""
    requires forall q :: !EqualsIgnoringCase(Strip(s), PriorityName(q))
    ensures ValidatePriority(Some(s)) == Err(BadPriority)
  {
    if ValidatePriority(Some(s)).Ok? {
      PriorityIgnoresCase(s, ValidatePriority(Some(s)).value);
    }
  }

  /** Validating a canonical priority name gives that priority back. */
  lemma PriorityIdempotent(q: Priority)
    ensures ValidatePriority(Some(PriorityName(q))) == Ok(q)
  {
    var w := PriorityName(q);
    StripUntrimmed(w);
    TitleMatchesWord(w, w);
  }

  /** Recurrence is matched case-insensitively after stripping whitespace. */
  lemma RecurrenceIgnoresCase(s: string, q: Recurrence)
    requires s != ""
    ensures ValidateRecurrence(Some(s)) == Ok(q) <==> EqualsIgnoringCase(Strip(s), RecurrenceName(q))
  {
    TitleMatchesWord(Strip(s), RecurrenceName(q));
  }

  lemma RecurrenceRejectsOthers(s: string)
    requires s != ""
    requires forall q :: !EqualsIgnoringCase(Strip(s), RecurrenceName(q))
    ensures ValidateRecurrence(Some(s)) == Err(BadRecurrence)
  {
    if ValidateRecurrence(Some(s)).Ok? {
      RecurrenceIgnoresCase(s, ValidateRecurrence(Some(s)).value);
    }
  }

  /** Validating a canonical recurrence name gives that recurrence back. */
  lemma RecurrenceIdempotent(q: Recurrence)
    ensures ValidateRecurrence(Some(RecurrenceName(q))) == Ok(q)
  {
    var w := RecurrenceName(q);
    StripUntrimmed(w);
    TitleMatchesWord(w, w);
    assert Title(Strip(w)) == w;
    var r := ValidateRecurrence(Some(w));
    if r.Ok? {
      RecurrenceNamesDistinct(r.value, q);
    }
  }

  lemma RecurrenceNamesDistinct(a: Recurrence, b: Recurrence)
    requires RecurrenceName(a) == RecurrenceName(b)
    ensures a == b
  {
  }
}

/** The task schema: the field constraints every stored task satisfies, and
    how a document is cast and validated on creation and on update. */
module TaskModel {
  import opened Wrappers
  import opened Text
  import opened ObjectIds

  const TitleMaxLength: nat := 100
  const DescriptionMaxLength: nat := 1000

  const Pending: string := "pending"
  const InProgress: string := "in_progress"
  const Completed: string := "completed"

  /** The values the status enum admits. */
  const Statuses: set<string> := {Pending, InProgress, Completed}

  /** What the schema's validators can reject. */
  datatype Violation =
    | TitleRequired | TitleTooLong
    | DescriptionRequired | DescriptionTooLong
    | StatusNotAllowed
    | OwnerRequired
    | OwnerNotAnId

  /** The fields handed to the schema when a task is created, before casting. */
  datatype TaskDraft = TaskDraft(
    title: Option<string>,
    description: Option<string>,
    status: Option<string>,
    owner: Option<string>)

  /** The fields of a task after casting and validation. */
  datatype TaskFields = TaskFields(title: string, description: string, status: string, owner: string)

  /** A stored task document. `createdAt` is the creation timestamp. */
  datatype Task = Task(
    id: string,
    owner: string,
    title: string,
    description: string,
    status: string,
    createdAt: nat)

  /** The title, description and status a create or update request body may carry. */
  datatype TaskBody = TaskBody(title: Option<string>, description: Option<string>, status: Option<string>)

  /** A required, trimmed string path capped at `max` characters, as stored. */
  predicate ValidText(s: string, max: nat) {
    s != "" && |s| <= max && IsTrimmed(s)
  }

  predicate ValidFields(f: TaskFields) {
    && ValidText(f.title, TitleMaxLength)
    && ValidText(f.description, DescriptionMaxLength)
    && f.status in Statuses
    && IsValidId(f.owner)
  }

  function FieldsOf(t: Task): TaskFields {
    TaskFields(t.title, t.description, t.status, t.owner)
  }

  /** The schema invariant of a stored task. */
  predicate ValidTask(t: Task) {
    ValidFields(FieldsOf(t))
  }

  /** The violations of a required, trimmed, capped string path, given the raw
      value: it is trimmed first, then the required and maximum-length
      validators run on the trimmed value. */
  function TextViolations(raw: Option<string>, max: nat, required: Violation, tooLong: Violation): (vs: set<Violation>)
    ensures vs <= {required, tooLong}
    ensures vs == {} <==> raw.Some? && ValidText(Trim(raw.value), max)
  {
    if raw.None? then {required}
    else
      var s := Trim(raw.value);
      if s == "" then {required} else if |s| > max then {tooLong} else {}
  }

  /** The enum validator: an absent status passes (the default applies). */
  function StatusViolations(raw: Option<string>): (vs: set<Violation>)
    ensures vs == {} <==> raw.None? || raw.value in Statuses
  {
    if raw.Some? && raw.value !in Statuses then {StatusNotAllowed} else {}
  }

  /** The owner path: required, and cast to an identifier, which fails for a
      value that is not one. */
  function OwnerViolations(raw: Option<string>): (vs: set<Violation>)
    ensures vs == {} <==> raw.Some? && IsValidId(raw.value)
  {
    if raw.None? then {OwnerRequired} else if !IsValidId(raw.value) then {OwnerNotAnId} else {}
  }

  function DraftViolations(d: TaskDraft): set<Violation> {
    TextViolations(d.title, TitleMaxLength, TitleRequired, TitleTooLong)
    + TextViolations(d.description, DescriptionMaxLength, DescriptionRequired, DescriptionTooLong)
    + StatusViolations(d.status)
    + OwnerViolations(d.owner)
  }

  /** Casting and validating a new document: trim the strings, default the
      status to `pending`, and reject the document with every violation found. */
  function Cast(d: TaskDraft): (r: Result<TaskFields, set<Violation>>)
    ensures r.Ok? ==> ValidFields(r.value) && d.owner == Some(r.value.owner) && IsValidId(r.value.owner)
    ensures r.Err? ==> r.error != {}
  {
    var vs := DraftViolations(d);
    if vs != {} then Err(vs)
    else Ok(TaskFields(Trim(d.title.value), Trim(d.description.value), d.status.GetOr(Pending), d.owner.value))
  }

  /** A draft is accepted exactly when its trimmed title and description are
      non-empty and within their caps, its status (if any) is one of the
      three values, and its owner is an identifier. */
  lemma CastAcceptsExactly(d: TaskDraft)
    ensures Cast(d).Ok? <==>
      && d.title.Some? && Trim(d.title.value) != "" && |Trim(d.title.value)| <= TitleMaxLength
      && d.description.Some? && Trim(d.description.value) != ""
      && |Trim(d.description.value)| <= DescriptionMaxLength
      && (d.status.None? || d.status.value in Statuses)
      && d.owner.Some? && IsValidId(d.owner.value)
  {
    if Cast(d).Ok? {
      assert DraftViolations(d) == {};
      assert TextViolations(d.title, TitleMaxLength, TitleRequired, TitleTooLong) == {};
      assert TextViolations(d.description, DescriptionMaxLength, DescriptionRequired, DescriptionTooLong) == {};
      assert StatusViolations(d.status) == {};
    } else {
      var vs := DraftViolations(d);
      assert vs != {};
      var v :| v in vs;
      if v in TextViolations(d.title, TitleMaxLength, TitleRequired, TitleTooLong) {
      } else if v in TextViolations(d.description, DescriptionMaxLength, DescriptionRequired, DescriptionTooLong) {
      } else if v in StatusViolations(d.status) {
      } else {
        assert v in OwnerViolations(d.owner);
      }
    }
  }

  /** Without a status the stored status is the default, `pending`; the title
      and description are stored trimmed. */
  lemma CastDefaultsAndTrims(d: TaskDraft)
    requires Cast(d).Ok?
    ensures d.status.None? ==> Cast(d).value.status == Pending
    ensures d.status.Some? ==> Cast(d).value.status == d.status.value
    ensures Cast(d).value.title == Trim(d.title.value)
    ensures Cast(d).value.description == Trim(d.description.value)
  {
  }

  function DraftOf(f: TaskFields): TaskDraft {
    TaskDraft(Some(f.title), Some(f.description), Some(f.status), Some(f.owner))
  }

  /** Casting is idempotent: casting the stored fields again changes nothing,
      because they are already trimmed and valid. */
  lemma {:induction false} CastIdempotent(d: TaskDraft)
    requires Cast(d).Ok?
    ensures Cast(DraftOf(Cast(d).value)) == Cast(d)
  {
    var f := Cast(d).value;
    TrimOfTrimmed(f.title);
    TrimOfTrimmed(f.description);
    var d' := DraftOf(f);
    assert TextViolations(d'.title, TitleMaxLength, TitleRequired, TitleTooLong) == {};
    assert TextViolations(d'.description, DescriptionMaxLength, DescriptionRequired, DescriptionTooLong) == {};
    assert StatusViolations(d'.status) == {};
    assert OwnerViolations(d'.owner) == {};
    assert DraftViolations(d') == {};
  }

  /** The update validators run only on the paths present in the update. */
  function PatchViolations(p: TaskBody): set<Violation> {
    (if p.title.Some? then TextViolations(p.title, TitleMaxLength, TitleRequired, TitleTooLong) else {})
    + (if p.description.Some? then TextViolations(p.description, DescriptionMaxLength, DescriptionRequired, DescriptionTooLong) else {})
    + StatusViolations(p.status)
  }

  /** The document after an update: present fields replaced (strings
      trimmed), absent fields, the id, the owner and the creation time kept.
      An accepted update of a valid task leaves a valid task. */
  function Patched(t: Task, p: TaskBody): (r: Task)
    ensures r.id == t.id && r.owner == t.owner && r.createdAt == t.createdAt
    ensures ValidTask(t) && PatchViolations(p) == {} ==> ValidTask(r)
    ensures p.status.Some? ==> r.status == p.status.value
    ensures p.status.None? ==> r.status == t.status
    ensures r.title == (if p.title.Some? then Trim(p.title.value) else t.title)
    ensures r.description == (if p.description.Some? then Trim(p.description.value) else t.description)
  {
    t.(title := if p.title.Some? then Trim(p.title.value) else t.title,
       description := if p.description.Some? then Trim(p.description.value) else t.description,
       status := p.status.GetOr(t.status))
  }

  /** An empty update leaves the task as it is. */
  lemma EmptyPatchIsIdentity(t: Task)
    ensures Patched(t, TaskBody(None, None, None)) == t
  {
  }
}

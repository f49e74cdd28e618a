/** The course edit page: the ordered validation of the draft, the update of
    one draft field per input event, and the submit flow with its loading
    flag, as methods of a class holding the form state. */
module CourseEdit {
  import opened Text
  import opened Courses

  /** The form's inputs, by their `name` attribute. */
  datatype Field = Name | Credit | Category | Teacher

  /** What validation reports: every check passed, or the first one that
      failed (each failure shows its own error message). */
  datatype Verdict = Accepted | NameTooShort | CreditNotPositive | TeacherTooShort

  /** The shortest trimmed name, and trimmed teacher, the form accepts. */
  const MinLength: nat := 3

  /** The checks run in order and the first failure decides the verdict:
      a trimmed name of at least MinLength, then a positive credit, then a
      trimmed teacher of at least MinLength, lengths counted in UTF-16 code
      units as JavaScript's `length` counts them. */
  function Validate(d: Course): (v: Verdict)
    ensures v == Accepted <==> Utf16Length(Trim(d.name)) >= MinLength && d.credit > 0 && Utf16Length(Trim(d.teacher)) >= MinLength
    ensures v == NameTooShort <==> Utf16Length(Trim(d.name)) < MinLength
    ensures v == CreditNotPositive <==> Utf16Length(Trim(d.name)) >= MinLength && d.credit <= 0
    ensures v == TeacherTooShort <==> Utf16Length(Trim(d.name)) >= MinLength && d.credit > 0 && Utf16Length(Trim(d.teacher)) < MinLength
  {
    if Utf16Length(Trim(d.name)) < MinLength then NameTooShort
    else if d.credit <= 0 then CreditNotPositive
    else if Utf16Length(Trim(d.teacher)) < MinLength then TeacherTooShort
    else Accepted
  }

  /** A failed check hides the later ones: once the name is too short, the
      credit and the teacher do not matter, and once the credit is not
      positive, the teacher does not matter. */
  lemma FirstFailureDecides(d: Course, credit: int, teacher: string)
    ensures Validate(d) == NameTooShort ==> Validate(d.(credit := credit, teacher := teacher)) == NameTooShort
    ensures Validate(d) == CreditNotPositive ==> Validate(d.(teacher := teacher)) == CreditNotPositive
  {
  }

  /** Validation never looks at the category or the id. */
  lemma ValidateIgnoresCategoryAndId(d: Course, category: string, id: int)
    ensures Validate(d.(category := category, id := id)) == Validate(d)
  {
  }

  /** A name of exactly three characters with no white space at its ends
      passes the name check, although its error message speaks of more than
      three. */
  lemma ThreeCharacterNamePasses(d: Course)
    requires |d.name| == 3 && !IsSpace(d.name[0]) && !IsSpace(d.name[2])
    ensures Validate(d) != NameTooShort
  {
    TrimOfTight(d.name);
  }

  /** Lengths count UTF-16 code units: a name of two emoji outside the Basic
      Multilingual Plane has length 4 and passes the name check. */
  lemma AstralNamePasses(d: Course)
    requires d.name == "\U{1F600}\U{1F600}"
    ensures Validate(d) != NameTooShort
  {
    TrimOfTight(d.name);
    assert Utf16Length(d.name) == 2 + Utf16Length(d.name[1..]);
    assert Utf16Length(d.name[1..]) == 2 + Utf16Length(d.name[2..]);
  }

  /** A name of two letters is too short. */
  lemma TwoLetterNameFails(d: Course)
    requires d.name == "ab"
    ensures Validate(d) == NameTooShort
  {
    TrimOfTight(d.name);
  }

  /** A name made of white space only fails the first check, whatever its
      length. */
  lemma BlankNameFails(d: Course)
    requires Blank(d.name)
    ensures Validate(d) == NameTooShort
  {
    TrimOfBlank(d.name);
  }

  /** A teacher made of white space only fails the last check once the name
      and the credit pass. */
  lemma BlankTeacherFails(d: Course)
    requires Utf16Length(Trim(d.name)) >= MinLength && d.credit > 0
    requires Blank(d.teacher)
    ensures Validate(d) == TeacherTooShort
  {
    TrimOfBlank(d.teacher);
  }

  /** The draft after the input `field` reported `value`: that field alone
      changes, to `value`, or for the credit input to the number `toNumber`
      reads from it; the id never changes. */
  function Assign(d: Course, field: Field, value: string, toNumber: string -> int): (r: Course)
    ensures r.id == d.id
    ensures r.name == if field == Name then value else d.name
    ensures r.credit == if field == Credit then toNumber(value) else d.credit
    ensures r.category == if field == Category then value else d.category
    ensures r.teacher == if field == Teacher then value else d.teacher
  {
    match field
    case Name => d.(name := value)
    case Credit => d.(credit := toNumber(value))
    case Category => d.(category := value)
    case Teacher => d.(teacher := value)
  }

  /** Choosing a category never changes what validation reports. */
  lemma CategoryChangeKeepsVerdict(d: Course, value: string, toNumber: string -> int)
    ensures Validate(Assign(d, Category, value, toNumber)) == Validate(d)
  {
    ValidateIgnoresCategoryAndId(d, value, d.id);
  }

  /** The latest input to a field is the one that counts. */
  lemma LastInputWins(d: Course, field: Field, first: string, second: string, toNumber: string -> int)
    ensures Assign(Assign(d, field, first, toNumber), field, second, toNumber) == Assign(d, field, second, toNumber)
  {
  }

  /** The edit form's state: the draft, the loading flag and the body of the
      update request in flight. `Valid` ties the flag to the request: loading
      exactly while one update is outstanding. */
  class EditForm {
    var formData: Course
    var loading: bool
    var pending: Option<Course>

    ghost predicate Valid()
      reads this
    {
      loading <==> pending.Some?
    }

    /** The state on mount: an empty draft, nothing in flight. */
    constructor ()
      ensures Valid()
      ensures formData == Course(0, "", 0, "", "") && !loading && pending == None
    {
      formData := Course(0, "", 0, "", "");
      loading := false;
      pending := None;
    }

    /** The fetch on mount: a response becomes the draft; a failed request
        sends the user back to the list. */
    method FetchCourse(response: Option<Course>) returns (backToList: bool)
      requires Valid()
      modifies this
      ensures Valid()
      ensures formData == if response.Some? then response.value else old(formData)
      ensures backToList <==> response.None?
      ensures loading == old(loading) && pending == old(pending)
    {
      if response.Some? {
        formData := response.value;
        backToList := false;
      } else {
        backToList := true;
      }
    }

    /** An input event: `field` is the input's name and `value` its text;
        `toNumber` is the number conversion applied to the credit input. */
    method HandleChange(field: Field, value: string, toNumber: string -> int)
      requires Valid()
      modifies this
      ensures Valid()
      ensures formData == Assign(old(formData), field, value, toNumber)
      ensures loading == old(loading) && pending == old(pending)
    {
      formData := Assign(formData, field, value, toNumber);
    }

    /** The submit event, up to the request: a draft that fails validation
        sends nothing and changes nothing; an accepted one sets the loading
        flag and sends the draft. The submit button is disabled while
        loading, so the event only arrives when nothing is in flight. */
    method HandleSubmit() returns (verdict: Verdict)
      requires Valid() && !loading
      modifies this
      ensures Valid()
      ensures verdict == Validate(formData) && formData == old(formData)
      ensures verdict != Accepted ==> !loading && pending == None
      ensures verdict == Accepted ==> loading && pending == Some(formData)
    {
      verdict := Validate(formData);
      if verdict != Accepted {
        return;
      }
      loading := true;
      pending := Some(formData);
    }

    /** The update request settles: the loading flag drops whatever the
        outcome, the draft is kept (a failure does not clear the user's
        input), and only success leads back to the list. */
    method SettleUpdate(outcome: Outcome) returns (backToList: bool)
      requires Valid() && loading
      modifies this
      ensures Valid()
      ensures !loading && pending == None && formData == old(formData)
      ensures backToList <==> outcome == Succeeded
    {
      loading := false;
      pending := None;
      backToList := outcome == Succeeded;
    }
  }
}

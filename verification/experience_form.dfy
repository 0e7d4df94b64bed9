/** components/admin/experience-form.tsx: the state of the experience editor, its six list
    editors, and the submit step that checks the state and turns it into an `experiences` row.
    The database write, the logo upload and the toasts are not modelled. */
module ExperienceForm {
  import opened Wrappers
  import opened Text
  import opened Seqs
  import opened Records
  import opened FormLists

  datatype ExperienceFormData = ExperienceFormData(
    company: String,
    logo: String,
    position: String,
    period: String,
    location: String,
    description: seq<String>,
    skills: seq<String>,
    url: String,
    startDate: String,
    endDate: String,
    highlights: seq<String>,
    projects: seq<String>,
    technologies: seq<String>,
    teamSize: int,
    industry: String,
    department: String,
    responsibilities: seq<String>,
    achievements: seq<Achievement>,
    recommendations: seq<Recommendation>,
    certifications: seq<Certification>,
    isPublished: bool)

  /** The initial state of a new experience. */
  const EmptyForm := ExperienceFormData([], [], [], [], [], [], [], [], [], [], [], [], [], 0, [], [], [], [], [], [], false)

  datatype ListField = Description | Skills | Highlights | Projects | Technologies | Responsibilities

  function ListOf(f: ExperienceFormData, field: ListField): seq<String> {
    match field
    case Description => f.description
    case Skills => f.skills
    case Highlights => f.highlights
    case Projects => f.projects
    case Technologies => f.technologies
    case Responsibilities => f.responsibilities
  }

  /** `setFormData((prev) => ({ ...prev, [field]: items }))` */
  function WithList(f: ExperienceFormData, field: ListField, items: seq<String>): (r: ExperienceFormData)
    ensures ListOf(r, field) == items
    ensures forall g :: g != field ==> ListOf(r, g) == ListOf(f, g)
  {
    match field
    case Description => f.(description := items)
    case Skills => f.(skills := items)
    case Highlights => f.(highlights := items)
    case Projects => f.(projects := items)
    case Technologies => f.(technologies := items)
    case Responsibilities => f.(responsibilities := items)
  }

  /** `handleAddDescription` and its five siblings. */
  function Add(f: ExperienceFormData, field: ListField, draft: String): (r: (ExperienceFormData, String))
    ensures var before, after, t := ListOf(f, field), ListOf(r.0, field), Trim(draft);
            && (forall y :: y in after <==> y in before || (y == t && t != []))
            && |before| <= |after| <= |before| + 1 && after[..|before|] == before
            && (|after| > |before| ==> after[|before|] == t)
            && (r.1 == [] <==> |after| > |before| || draft == [])
            && (|after| == |before| ==> r.1 == draft)
    ensures r.0 == WithList(f, field, ListOf(r.0, field))
    ensures forall g :: g != field ==> ListOf(r.0, g) == ListOf(f, g)
  {
    var e := AddItem(ListEdit(ListOf(f, field), draft));
    (WithList(f, field, e.items), e.draft)
  }

  /** `handleRemoveDescription` and its five siblings. */
  function Remove(f: ExperienceFormData, field: ListField, item: String): (r: ExperienceFormData)
    ensures item !in ListOf(r, field)
    ensures forall y :: y != item ==> multiset(ListOf(r, field))[y] == multiset(ListOf(f, field))[y]
    ensures r == WithList(f, field, ListOf(r, field))
    ensures forall g :: g != field ==> ListOf(r, g) == ListOf(f, g)
  {
    WithList(f, field, RemoveItem(ListOf(f, field), item))
  }

  /** Removing the item just added restores the whole form. */
  lemma RemoveUndoesAddToForm(f: ExperienceFormData, field: ListField, draft: String)
    requires |ListOf(Add(f, field, draft).0, field)| > |ListOf(f, field)|
    ensures Remove(Add(f, field, draft).0, field, Trim(draft)) == f
  {
    var e := ListEdit(ListOf(f, field), draft);
    var f1 := Add(f, field, draft).0;
    RemoveUndoesAdd(e);
    assert f1 == WithList(f, field, AddItem(e).items);
    assert Remove(f1, field, Trim(draft)) == WithList(f1, field, e.items);
    WithListTwice(f, field, AddItem(e).items, e.items);
    WithListSame(f, field);
  }

  /** A second write of the same list replaces the first. */
  lemma WithListTwice(f: ExperienceFormData, field: ListField, a: seq<String>, b: seq<String>)
    ensures WithList(WithList(f, field, a), field, b) == WithList(f, field, b)
  {
  }

  /** Writing back the list that is there changes nothing. */
  lemma WithListSame(f: ExperienceFormData, field: ListField)
    ensures WithList(f, field, ListOf(f, field)) == f
  {
  }

  const RequiredFieldsMissing: String := "Please fill in all required fields"
  const NoDescription: String := "Please add at least one description item"

  /** The six text fields checked first. */
  predicate RequiredFilled(f: ExperienceFormData) {
    f.company != [] && f.position != [] && f.period != [] && f.logo != [] && f.startDate != [] && f.endDate != []
  }

  /** The checks of `handleSubmit`, in order, and the row it writes: `...formData` with the
      optional text fields, `team_size` and the optional lists turned to null when empty. */
  function Submit(f: ExperienceFormData): (r: Result<ExperienceRow, String>)
    ensures r.Ok? <==> RequiredFilled(f) && |f.description| > 0
    ensures !RequiredFilled(f) ==> r == Err(RequiredFieldsMissing)
    ensures RequiredFilled(f) && |f.description| == 0 ==> r == Err(NoDescription)
    ensures r.Ok? ==> Normal(r.value) && r.value.description == f.description
                      && r.value.skills.None? == (|f.skills| == 0)
                      && r.value.teamSize.None? == (f.teamSize == 0)
                      && r.value.achievements.None? == (|f.achievements| == 0)
  {
    if !RequiredFilled(f) then Err(RequiredFieldsMissing)
    else if |f.description| == 0 then Err(NoDescription)
    else Ok(ExperienceRow(
      company := f.company,
      logo := f.logo,
      position := f.position,
      period := f.period,
      location := NullIfEmpty(f.location),
      description := f.description,
      skills := NullIfNoItems(f.skills),
      url := NullIfEmpty(f.url),
      startDate := f.startDate,
      endDate := f.endDate,
      highlights := NullIfNoItems(f.highlights),
      projects := NullIfNoItems(f.projects),
      technologies := NullIfNoItems(f.technologies),
      teamSize := NullIfZero(f.teamSize),
      industry := NullIfEmpty(f.industry),
      department := NullIfEmpty(f.department),
      responsibilities := NullIfNoItems(f.responsibilities),
      achievements := NullIfNoItems(f.achievements),
      recommendations := NullIfNoItems(f.recommendations),
      certifications := NullIfNoItems(f.certifications),
      isPublished := f.isPublished))
  }

  /** A new experience cannot be submitted before its required fields are filled in. */
  lemma EmptyFormRejected()
    ensures Submit(EmptyForm) == Err(RequiredFieldsMissing)
  {
  }

  /** A row as submission writes it: no optional column holds an empty value. */
  predicate Normal(row: ExperienceRow) {
    && row.company != [] && row.logo != [] && row.position != [] && row.period != []
    && row.startDate != [] && row.endDate != [] && |row.description| > 0
    && row.location != Some([]) && row.skills != Some([]) && row.url != Some([])
    && row.highlights != Some([]) && row.projects != Some([]) && row.technologies != Some([])
    && row.teamSize != Some(0) && row.industry != Some([]) && row.department != Some([])
    && row.responsibilities != Some([]) && row.achievements != Some([])
    && row.recommendations != Some([]) && row.certifications != Some([])
  }

  /** The editor state the form loads for an existing row (`useEffect`): nulls read as empty
      text or empty lists, a null team size as 0. */
  function Load(row: ExperienceRow): (f: ExperienceFormData)
    ensures f.description == row.description
    ensures f.teamSize == 0 <==> row.teamSize.None? || row.teamSize == Some(0)
    ensures |f.skills| == 0 <==> row.skills.None? || row.skills == Some([])
  {
    ExperienceFormData(
      company := row.company,
      logo := row.logo,
      position := row.position,
      period := row.period,
      location := row.location.GetOr([]),
      description := row.description,
      skills := row.skills.GetOr([]),
      url := row.url.GetOr([]),
      startDate := row.startDate,
      endDate := row.endDate,
      highlights := row.highlights.GetOr([]),
      projects := row.projects.GetOr([]),
      technologies := row.technologies.GetOr([]),
      teamSize := row.teamSize.GetOr(0),
      industry := row.industry.GetOr([]),
      department := row.department.GetOr([]),
      responsibilities := row.responsibilities.GetOr([]),
      achievements := row.achievements.GetOr([]),
      recommendations := row.recommendations.GetOr([]),
      certifications := row.certifications.GetOr([]),
      isPublished := row.isPublished)
  }

  /** Editing a stored row and submitting it unchanged writes the same row back. */
  lemma LoadSubmitRoundTrip(row: ExperienceRow)
    requires Normal(row)
    ensures Submit(Load(row)) == Ok(row)
  {
  }

  /** Submission followed by loading gives the form back. */
  lemma SubmitLoadRoundTrip(f: ExperienceFormData)
    requires RequiredFilled(f) && |f.description| > 0
    ensures Submit(f).Ok? && Load(Submit(f).value) == f
  {
  }
}

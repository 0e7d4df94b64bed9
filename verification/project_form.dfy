/** components/admin/project-form.tsx: the state of the project editor, its four list editors,
    and the submit step that checks the state and turns it into a `projects` row. The database
    write, the image uploads and the toasts are not modelled. */
module ProjectForm {
  import opened Wrappers
  import opened Text
  import opened Seqs
  import opened Records
  import opened FormLists

  /** The editor state; text boxes are strings, `team_size` a number, lists of strings. */
  datatype ProjectFormData = ProjectFormData(
    title: String,
    description: String,
    longDescription: String,
    image: String,
    category: String,
    position: String,
    tags: seq<String>,
    github: String,
    demo: String,
    features: seq<String>,
    challenges: seq<String>,
    overview: String,
    systemDesign: String,
    databaseDesign: String,
    systemDesignImage: String,
    databaseDesignImage: String,
    additionalDetails: String,
    projectDate: String,
    teamSize: int,
    teamMembers: seq<String>,
    duration: String,
    isPublished: bool)

  /** The initial state of a new project. */
  const EmptyForm := ProjectFormData([], [], [], [], "personal", [], [], [], [], [], [], [], [], [], [], [], [], [], 0, [], [], false)

  datatype ListField = Tags | Features | Challenges | TeamMembers

  function ListOf(f: ProjectFormData, field: ListField): seq<String> {
    match field
    case Tags => f.tags
    case Features => f.features
    case Challenges => f.challenges
    case TeamMembers => f.teamMembers
  }

  /** `setFormData((prev) => ({ ...prev, [field]: items }))` */
  function WithList(f: ProjectFormData, field: ListField, items: seq<String>): (r: ProjectFormData)
    ensures ListOf(r, field) == items
    ensures forall g :: g != field ==> ListOf(r, g) == ListOf(f, g)
  {
    match field
    case Tags => f.(tags := items)
    case Features => f.(features := items)
    case Challenges => f.(challenges := items)
    case TeamMembers => f.(teamMembers := items)
  }

  /** `handleAddTag`, `handleAddFeature`, `handleAddChallenge`, `handleAddTeamMember`: the
      chosen list goes through the editor with its text box; every other field is untouched. */
  function Add(f: ProjectFormData, field: ListField, draft: String): (r: (ProjectFormData, String))
    ensures var before, after, t := ListOf(f, field), ListOf(r.0, field), Trim(draft);
            && (forall y :: y in after <==> y in before || (y == t && t != []))
            && |before| <= |after| <= |before| + 1 && after[..|before|] == before
            && (|after| > |before| ==> after[|before|] == t)
            && (r.1 == [] <==> |after| > |before| || draft == [])
            && (|after| == |before| ==> r.1 == draft)
    ensures r.0 == WithList(f, field, ListOf(r.0, field))
    ensures forall g :: g != field ==> ListOf(r.0, g) == ListOf(f, g)
  {
    var e := AddItem(ListEdit(ListOf(f, field), draft));
    (WithList(f, field, e.items), e.draft)
  }

  /** `handleRemoveTag` and its three siblings. */
  function Remove(f: ProjectFormData, field: ListField, item: String): (r: ProjectFormData)
    ensures item !in ListOf(r, field)
    ensures forall y :: y != item ==> multiset(ListOf(r, field))[y] == multiset(ListOf(f, field))[y]
    ensures r == WithList(f, field, ListOf(r, field))
    ensures forall g :: g != field ==> ListOf(r, g) == ListOf(f, g)
  {
    WithList(f, field, RemoveItem(ListOf(f, field), item))
  }

  /** Removing the item just added restores the whole form. */
  lemma RemoveUndoesAddToForm(f: ProjectFormData, field: ListField, draft: String)
    requires |ListOf(Add(f, field, draft).0, field)| > |ListOf(f, field)|
    ensures Remove(Add(f, field, draft).0, field, Trim(draft)) == f
  {
    RemoveUndoesAdd(ListEdit(ListOf(f, field), draft));
  }

  const RequiredFieldsMissing: String := "Please fill in all required fields"
  const NoFeature: String := "Please add at least one feature"
  const NoChallenge: String := "Please add at least one challenge"
  const NoOverview: String := "Please provide a project overview"

  /** The checks of `handleSubmit`, in order, and the row it writes: `...formData` with the
      optional text fields, `team_size` and `team_members` turned to null when empty. */
  function Submit(f: ProjectFormData): (r: Result<ProjectRow, String>)
    ensures r.Ok? <==> SubmitAccepts(f)
    ensures !RequiredFilled(f) ==> r == Err(RequiredFieldsMissing)
    ensures RequiredFilled(f) && |f.features| == 0 ==> r == Err(NoFeature)
    ensures RequiredFilled(f) && |f.features| > 0 && |f.challenges| == 0 ==> r == Err(NoChallenge)
    ensures (RequiredFilled(f) && |f.features| > 0 && |f.challenges| > 0 && f.overview == [])
            ==> r == Err(NoOverview)
    ensures r.Ok? ==> Normal(r.value) && r.value.longDescription == Some(f.longDescription)
                      && r.value.position.None? == (f.position == [])
                      && r.value.teamSize.None? == (f.teamSize == 0)
                      && r.value.teamMembers.None? == (|f.teamMembers| == 0)
  {
    if !RequiredFilled(f) then Err(RequiredFieldsMissing)
    else if |f.features| == 0 then Err(NoFeature)
    else if |f.challenges| == 0 then Err(NoChallenge)
    else if f.overview == [] then Err(NoOverview)
    else Ok(ProjectRow(
      title := f.title,
      description := f.description,
      longDescription := Some(f.longDescription),
      image := f.image,
      category := f.category,
      position := NullIfEmpty(f.position),
      github := f.github,
      demo := NullIfEmpty(f.demo),
      overview := f.overview,
      systemDesign := NullIfEmpty(f.systemDesign),
      databaseDesign := NullIfEmpty(f.databaseDesign),
      systemDesignImage := NullIfEmpty(f.systemDesignImage),
      databaseDesignImage := NullIfEmpty(f.databaseDesignImage),
      additionalDetails := NullIfEmpty(f.additionalDetails),
      projectDate := NullIfEmpty(f.projectDate),
      teamSize := NullIfZero(f.teamSize),
      duration := NullIfEmpty(f.duration),
      tags := f.tags,
      features := f.features,
      challenges := f.challenges,
      teamMembers := NullIfNoItems(f.teamMembers),
      isPublished := f.isPublished))
  }

  /** The four text fields checked first. */
  predicate RequiredFilled(f: ProjectFormData) {
    f.title != [] && f.description != [] && f.image != [] && f.github != []
  }

  /** What submission accepts, without its order. */
  predicate SubmitAccepts(f: ProjectFormData) {
    f.title != [] && f.description != [] && f.image != [] && f.github != []
    && |f.features| > 0 && |f.challenges| > 0 && f.overview != []
  }

  /** A new project cannot be submitted before its required fields are filled in. */
  lemma EmptyFormRejected()
    ensures Submit(EmptyForm) == Err(RequiredFieldsMissing)
  {
  }

  /** A row as submission writes it: no optional column holds an empty value. */
  predicate Normal(row: ProjectRow) {
    && row.title != [] && row.description != [] && row.image != [] && row.github != []
    && |row.features| > 0 && |row.challenges| > 0 && row.overview != []
    && row.longDescription.Some?
    && row.position != Some([]) && row.demo != Some([]) && row.systemDesign != Some([])
    && row.databaseDesign != Some([]) && row.systemDesignImage != Some([])
    && row.databaseDesignImage != Some([]) && row.additionalDetails != Some([])
    && row.projectDate != Some([]) && row.teamSize != Some(0) && row.duration != Some([])
    && row.teamMembers != Some([])
  }

  /** The editor state the form loads for an existing row (`useEffect`): nulls read as empty
      text, a null team size as 0, a null member list as empty. */
  function Load(row: ProjectRow): (f: ProjectFormData)
    ensures f.tags == row.tags && f.features == row.features && f.challenges == row.challenges
    ensures f.teamSize == 0 <==> row.teamSize.None? || row.teamSize == Some(0)
  {
    ProjectFormData(
      title := row.title,
      description := row.description,
      longDescription := row.longDescription.GetOr([]),
      image := row.image,
      category := row.category,
      position := row.position.GetOr([]),
      tags := row.tags,
      github := row.github,
      demo := row.demo.GetOr([]),
      features := row.features,
      challenges := row.challenges,
      overview := row.overview,
      systemDesign := row.systemDesign.GetOr([]),
      databaseDesign := row.databaseDesign.GetOr([]),
      systemDesignImage := row.systemDesignImage.GetOr([]),
      databaseDesignImage := row.databaseDesignImage.GetOr([]),
      additionalDetails := row.additionalDetails.GetOr([]),
      projectDate := row.projectDate.GetOr([]),
      teamSize := row.teamSize.GetOr(0),
      teamMembers := row.teamMembers.GetOr([]),
      duration := row.duration.GetOr([]),
      isPublished := row.isPublished)
  }

  /** Editing a stored row and submitting it unchanged writes the same row back, and every row
      submission writes is of that kind. */
  lemma LoadSubmitRoundTrip(row: ProjectRow)
    requires Normal(row)
    ensures Submit(Load(row)) == Ok(row)
  {
  }

  /** Submission followed by loading gives the form back, up to the null-mapping. */
  lemma SubmitLoadRoundTrip(f: ProjectFormData)
    requires SubmitAccepts(f)
    ensures Submit(f).Ok? && Load(Submit(f).value) == f
  {
  }
}

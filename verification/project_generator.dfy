/** components/admin/project-generator.tsx: load a project record from an uploaded `.json` file,
    check it, and turn it into a row of the `projects` table. `JSON.parse` is a parameter: it
    gives the parsed value, or the message of the error it throws. */
module ProjectGenerator {
  import opened Wrappers
  import opened Text
  import opened Json

  /** `JSON.parse`: a value, or the message of the `SyntaxError` it throws. */
  type Parser = String -> Result<Json, String>

  // ---------------------------------------------------------------------------------------
  // Validation

  datatype Validation = Valid | Invalid(error: String)

  /** The fields that must be truthy, in the order they are checked. */
  const RequiredFields: seq<String> := ["title", "description", "image", "category", "github", "overview"]

  const Categories: seq<String> := ["personal", "hackathon"]

  const InvalidJsonFormat: String := "Invalid JSON format"
  const MissingFieldPrefix: String := "Missing required field: "
  const BadCategory: String := "Category must be 'personal' or 'hackathon'"

  /** `["personal", "hackathon"].includes(v)`: strict equality with one of the two strings. */
  predicate IsCategory(v: Option<Json>) {
    v.Some? && v.value.JStr? && v.value.s in Categories
  }

  /** The first required field, from index `k` on, that `data` lacks (or holds falsy). */
  function FirstMissing(data: Json, k: nat): (r: Option<nat>)
    requires k <= |RequiredFields|
    ensures r.Some? ==> k <= r.value < |RequiredFields| && !Present(Get(data, RequiredFields[r.value]))
    ensures r.Some? ==> forall j :: k <= j < r.value ==> Present(Get(data, RequiredFields[j]))
    ensures r.None? ==> forall j :: k <= j < |RequiredFields| ==> Present(Get(data, RequiredFields[j]))
    decreases |RequiredFields| - k
  {
    if k == |RequiredFields| then None
    else if !Present(Get(data, RequiredFields[k])) then Some(k)
    else FirstMissing(data, k + 1)
  }

  /** `validateProjectData`: `null` and scalars are not records, then the required fields are
      checked in order, then the category. */
  function ValidateProjectData(data: Json): (v: Validation)
    ensures v.Valid? <==> IsRecord(data)
    ensures data.JNull? || data.JBool? || data.JNum? || data.JStr? ==> v == Invalid(InvalidJsonFormat)
    ensures v.Invalid? && v.error != InvalidJsonFormat && v.error != BadCategory
            ==> exists k :: 0 <= k < |RequiredFields| && MissingAt(data, k)
                            && v.error == MissingFieldPrefix + RequiredFields[k]
    ensures v == Invalid(BadCategory) ==> forall f :: f in RequiredFields ==> Present(Get(data, f))
    ensures data.JObj? || data.JArr? ==> v != Invalid(InvalidJsonFormat)
    ensures forall k :: 0 <= k < |RequiredFields| && MissingAt(data, k) && (data.JObj? || data.JArr?)
                        ==> v == Invalid(MissingFieldPrefix + RequiredFields[k])
    ensures v.Invalid? ==> v.error != []
  {
    if !Truthy(data) || !(data.JObj? || data.JArr?) then Invalid(InvalidJsonFormat)
    else match FirstMissing(data, 0)
      case Some(k) => Invalid(MissingFieldPrefix + RequiredFields[k])
      case None => if IsCategory(Get(data, "category")) then Valid else Invalid(BadCategory)
  }

  /** Required field `k` is the first one missing. */
  predicate MissingAt(data: Json, k: nat)
    requires k < |RequiredFields|
  {
    && !Present(Get(data, RequiredFields[k]))
    && forall j :: 0 <= j < k ==> Present(Get(data, RequiredFields[j]))
  }

  /** What validation accepts, stated without its order: an object whose six required fields
      are all truthy and whose category is one of the two names. */
  predicate IsRecord(data: Json) {
    && data.JObj?
    && (forall f :: f in RequiredFields ==> f in data.fields && Truthy(data.fields[f]))
    && IsCategory(Get(data, "category"))
  }

  // ---------------------------------------------------------------------------------------
  // Conversion

  /** `parseArrayField`: an array stays as it is, a string holding a JSON array becomes that
      array, anything else (including a string that does not parse) becomes `[]`. */
  function ParseArrayField(value: Option<Json>, parse: Parser): (r: seq<Json>)
    ensures !Present(value) ==> r == []
    ensures Present(value) && value.value.JArr? ==> r == value.value.items
  {
    if !Present(value) then []
    else match value.value
      case JArr(items) => items
      case JStr(s) =>
        (match parse(s)
         case Ok(JArr(items)) => items
         case _ => [])
      case _ => []
  }

  /** A stringified array and the array itself read as the same list, whenever `JSON.parse`
      undoes the stringification. */
  lemma ParseArrayFieldStringified(items: seq<Json>, text: String, parse: Parser)
    requires text != [] && parse(text) == Ok(JArr(items))
    ensures ParseArrayField(Some(JStr(text)), parse) == ParseArrayField(Some(JArr(items)), parse)
  {
  }

  /** A string that is not a JSON array (does not parse, or parses to something else) reads
      as no items. */
  lemma ParseArrayFieldNotArray(text: String, parse: Parser)
    requires parse(text).Err? || !parse(text).value.JArr?
    ensures ParseArrayField(Some(JStr(text)), parse) == []
  {
  }

  /** The row `convertToDbFormat` builds. Values are JSON because the uploaded record is only
      checked for truthiness: a numeric title is copied as it is. */
  datatype GeneratedRow = GeneratedRow(
    title: Json,
    description: Json,
    longDescription: Json,
    image: Json,
    category: Json,
    position: Json,
    github: Json,
    demo: Json,
    overview: Json,
    systemDesign: Json,
    databaseDesign: Json,
    systemDesignImage: Json,
    databaseDesignImage: Json,
    additionalDetails: Json,
    projectDate: Json,
    teamSize: Json,
    duration: Json,
    tags: seq<Json>,
    features: seq<Json>,
    challenges: seq<Json>,
    teamMembers: seq<Json>,
    isPublished: Json)

  /** `data[key] || null` landed in `column`: the value when it is truthy, `null` otherwise. */
  predicate NullMapped(column: Json, data: Json, key: String) {
    && (Present(Get(data, key)) ==> data.JObj? && key in data.fields && column == data.fields[key])
    && (!Present(Get(data, key)) ==> column == JNull)
  }

  /** `convertToDbFormat`: the required fields copied, optional ones `|| null`, the list fields
      through `parseArrayField`, and `is_published ?? false`. The record type the source
      declares for its argument makes the required fields present. */
  function ConvertToDbFormat(data: Json, parse: Parser): (row: GeneratedRow)
    requires data.JObj? && forall f :: f in RequiredFields ==> f in data.fields
    ensures row.title == data.fields["title"] && row.description == data.fields["description"]
    ensures row.image == data.fields["image"] && row.category == data.fields["category"]
    ensures row.github == data.fields["github"] && row.overview == data.fields["overview"]
    ensures NullMapped(row.longDescription, data, "long_description") && NullMapped(row.position, data, "position")
    ensures NullMapped(row.demo, data, "demo") && NullMapped(row.systemDesign, data, "system_design")
    ensures NullMapped(row.databaseDesign, data, "database_design")
    ensures NullMapped(row.systemDesignImage, data, "system_design_image")
    ensures NullMapped(row.databaseDesignImage, data, "database_design_image")
    ensures NullMapped(row.additionalDetails, data, "additional_details")
    ensures NullMapped(row.projectDate, data, "project_date") && NullMapped(row.teamSize, data, "team_size")
    ensures NullMapped(row.duration, data, "duration")
    ensures row.tags == ParseArrayField(Get(data, "tags"), parse)
    ensures row.features == ParseArrayField(Get(data, "features"), parse)
    ensures row.challenges == ParseArrayField(Get(data, "challenges"), parse)
    ensures row.teamMembers == ParseArrayField(Get(data, "team_members"), parse)
    ensures row.isPublished == if "is_published" in data.fields && data.fields["is_published"] != JNull
                               then data.fields["is_published"] else JBool(false)
  {
    GeneratedRow(
      title := data.fields["title"],
      description := data.fields["description"],
      longDescription := OrNull(Get(data, "long_description")),
      image := data.fields["image"],
      category := data.fields["category"],
      position := OrNull(Get(data, "position")),
      github := data.fields["github"],
      demo := OrNull(Get(data, "demo")),
      overview := data.fields["overview"],
      systemDesign := OrNull(Get(data, "system_design")),
      databaseDesign := OrNull(Get(data, "database_design")),
      systemDesignImage := OrNull(Get(data, "system_design_image")),
      databaseDesignImage := OrNull(Get(data, "database_design_image")),
      additionalDetails := OrNull(Get(data, "additional_details")),
      projectDate := OrNull(Get(data, "project_date")),
      teamSize := OrNull(Get(data, "team_size")),
      duration := OrNull(Get(data, "duration")),
      tags := ParseArrayField(Get(data, "tags"), parse),
      features := ParseArrayField(Get(data, "features"), parse),
      challenges := ParseArrayField(Get(data, "challenges"), parse),
      teamMembers := ParseArrayField(Get(data, "team_members"), parse),
      isPublished := OrDefault(Get(data, "is_published"), JBool(false)))
  }

  /** A validated record converts to a row whose required columns are truthy, whose category
      is one of the two names, and whose publication flag defaults to unpublished. */
  lemma ValidatedRow(data: Json, parse: Parser)
    requires ValidateProjectData(data) == Valid
    ensures data.JObj? && forall f :: f in RequiredFields ==> f in data.fields
    ensures var row := ConvertToDbFormat(data, parse);
            && Truthy(row.title) && Truthy(row.description) && Truthy(row.image)
            && Truthy(row.github) && Truthy(row.overview)
            && (row.category == JStr("personal") || row.category == JStr("hackathon"))
            && (Get(data, "is_published").None? ==> row.isPublished == JBool(false))
  {
    RecordFields(data);
  }

  /** The required fields of a record, one by one. */
  lemma RecordFields(data: Json)
    requires IsRecord(data)
    ensures forall f :: f in RequiredFields ==> f in data.fields
    ensures "title" in data.fields && Truthy(data.fields["title"])
    ensures "description" in data.fields && Truthy(data.fields["description"])
    ensures "image" in data.fields && Truthy(data.fields["image"])
    ensures "github" in data.fields && Truthy(data.fields["github"])
    ensures "overview" in data.fields && Truthy(data.fields["overview"])
    ensures "category" in data.fields
    ensures data.fields["category"] == JStr("personal") || data.fields["category"] == JStr("hackathon")
  {
    assert RequiredFields[0] == "title" && RequiredFields[1] == "description" && RequiredFields[2] == "image";
    assert RequiredFields[3] == "category" && RequiredFields[4] == "github" && RequiredFields[5] == "overview";
  }

  // ---------------------------------------------------------------------------------------
  // Upload

  datatype Upload =
    | WrongFileType
    | Rejected(error: String)
    | Loaded(project: Json, row: GeneratedRow)

  const EmptyArray: String := "JSON array is empty"
  const ParseFailed: String := "Failed to parse JSON"

  /** `file.name.endsWith(".json")`, case-sensitive. */
  predicate IsJsonName(name: String) {
    |name| >= 5 && name[|name| - 5..] == ".json"
  }

  /** The record an upload describes: the first element of a non-empty array, or the value. */
  function UploadedRecord(parsed: Json): (r: Option<Json>)
    ensures r.None? <==> parsed == JArr([])
    ensures parsed.JArr? && r.Some? ==> r.value == parsed.items[0]
    ensures !parsed.JArr? ==> r == Some(parsed)
  {
    if parsed.JArr? then (if |parsed.items| == 0 then None else Some(parsed.items[0])) else Some(parsed)
  }

  /** `handleFileUpload` after the file has been read as `content`: the name check, then
      parsing, then the array case, then validation, then conversion. A thrown error shows its
      message, or a fixed one when the message is empty. */
  function HandleFileUpload(name: String, content: String, parse: Parser): (u: Upload)
    ensures !IsJsonName(name) <==> u == WrongFileType
    ensures u.Loaded? ==> parse(content).Ok? && UploadedRecord(parse(content).value) == Some(u.project)
                          && ValidateProjectData(u.project) == Valid
                          && u.project.JObj? && (forall f :: f in RequiredFields ==> f in u.project.fields)
                          && u.row == ConvertToDbFormat(u.project, parse)
    ensures IsJsonName(name) && parse(content).Ok? && parse(content).value == JArr([])
            ==> u == Rejected(EmptyArray)
    ensures IsJsonName(name) && parse(content).Err?
            ==> u == Rejected(if parse(content).error != [] then parse(content).error else ParseFailed)
    ensures IsJsonName(name) && parse(content).Ok? && UploadedRecord(parse(content).value).Some?
            && ValidateProjectData(UploadedRecord(parse(content).value).value).Invalid?
            ==> u == Rejected(ValidateProjectData(UploadedRecord(parse(content).value).value).error)
    ensures u.Rejected? ==> u.error != []
  {
    if !IsJsonName(name) then WrongFileType
    else match parse(content)
      case Err(message) => Rejected(if message != [] then message else ParseFailed)
      case Ok(parsed) =>
        match UploadedRecord(parsed)
        case None => Rejected(EmptyArray)
        case Some(project) =>
          match ValidateProjectData(project)
          case Invalid(error) => Rejected(if error != [] then error else "Invalid project data")
          case Valid => Loaded(project, ConvertToDbFormat(project, parse))
  }

  /** An upload is loaded exactly when it is a `.json` file that parses to a record (or to an
      array whose first element is one); the row it loads has every column. */
  lemma UploadLoadsRecords(name: String, content: String, parse: Parser)
    ensures var u := HandleFileUpload(name, content, parse);
            u.Loaded? <==> IsJsonName(name) && parse(content).Ok?
                           && UploadedRecord(parse(content).value).Some?
                           && IsRecord(UploadedRecord(parse(content).value).value)
    ensures var u := HandleFileUpload(name, content, parse);
            u.Loaded? ==> u.row == ConvertToDbFormat(u.project, parse) && Truthy(u.row.title)
                          && (u.row.category == JStr("personal") || u.row.category == JStr("hackathon"))
  {
    var u := HandleFileUpload(name, content, parse);
    if u.Loaded? {
      ValidatedRow(u.project, parse);
    }
  }
}

/** Rows of the content store's `projects`, `experiences` and `messages` tables as the source
    writes them, with `Option` for a column written as `null`, and the JavaScript `||`
    idioms that produce those nulls. */
module Records {
  import opened Wrappers
  import opened Text

  /** `s || null` for a string field: the empty string becomes `null`. */
  function NullIfEmpty(s: String): (r: Option<String>)
    ensures r.None? <==> s == []
    ensures r.Some? ==> r.value == s
  {
    if s == [] then None else Some(s)
  }

  /** `n || null` for a number field: zero becomes `null`. */
  function NullIfZero(n: int): (r: Option<int>)
    ensures r.None? <==> n == 0
    ensures r.Some? ==> r.value == n
  {
    if n == 0 then None else Some(n)
  }

  /** `xs.length > 0 ? xs : null` */
  function NullIfNoItems<T>(xs: seq<T>): (r: Option<seq<T>>)
    ensures r.None? <==> |xs| == 0
    ensures r.Some? ==> r.value == xs
  {
    if |xs| == 0 then None else Some(xs)
  }

  /** `a || b` for two strings: the first one that is not empty. */
  function Or(a: String, b: String): (r: String)
    ensures a != [] ==> r == a
    ensures a == [] ==> r == b
  {
    if a != [] then a else b
  }

  /** A row of the `projects` table. */
  datatype ProjectRow = ProjectRow(
    title: String,
    description: String,
    longDescription: Option<String>,
    image: String,
    category: String,
    position: Option<String>,
    github: String,
    demo: Option<String>,
    overview: String,
    systemDesign: Option<String>,
    databaseDesign: Option<String>,
    systemDesignImage: Option<String>,
    databaseDesignImage: Option<String>,
    additionalDetails: Option<String>,
    projectDate: Option<String>,
    teamSize: Option<int>,
    duration: Option<String>,
    tags: seq<String>,
    features: seq<String>,
    challenges: seq<String>,
    teamMembers: Option<seq<String>>,
    isPublished: bool)

  datatype Achievement = Achievement(description: String, metrics: Option<String>)

  datatype Recommendation = Recommendation(text: String, author: String, position: String)

  datatype Certification = Certification(name: String, issuer: String, date: String, url: Option<String>)

  /** A row of the `experiences` table. */
  datatype ExperienceRow = ExperienceRow(
    company: String,
    logo: String,
    position: String,
    period: String,
    location: Option<String>,
    description: seq<String>,
    skills: Option<seq<String>>,
    url: Option<String>,
    startDate: String,
    endDate: String,
    highlights: Option<seq<String>>,
    projects: Option<seq<String>>,
    technologies: Option<seq<String>>,
    teamSize: Option<int>,
    industry: Option<String>,
    department: Option<String>,
    responsibilities: Option<seq<String>>,
    achievements: Option<seq<Achievement>>,
    recommendations: Option<seq<Recommendation>>,
    certifications: Option<seq<Certification>>,
    isPublished: bool)

  /** A row of the `messages` table. */
  datatype MessageRow = MessageRow(name: String, email: String, message: String, read: bool)
}

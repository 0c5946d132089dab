/**
 * The job record shared by the backend's line database and the browser
 * client, and the JSON codec the backend stores it with.
 */
module JobRecord {
  import opened Wrappers
  import opened Text

  /**
   * One tracked posting, as the JSON object the backend stores and serves.
   * Every field may be missing from the object; `url` is the primary key.
   */
  datatype Job = Job(
    url: Option<string>,
    companyName: Option<string>,
    jobTitle: Option<string>,
    location: Option<string>,
    jobSummary: Option<string>,
    dateAdded: Option<string>,
    priority: Option<int>,
    technologies: Option<seq<string>>)

  /**
   * `json.loads` (partial: `None` where it raises `JSONDecodeError`) and
   * `json.dumps`, both left abstract.
   */
  datatype Codec = Codec(loads: string -> Option<Job>, dumps: Job -> string)

  /**
   * What the model assumes of the JSON codec: `loads(dumps(j)) == j`, the
   * empty text is not JSON, and the text of `dumps(j)` has no whitespace at
   * either end and no line break, so that one dumped record followed by "\n"
   * is one line of the file.
   */
  ghost predicate WellFormed(c: Codec) {
    && (forall j :: c.loads(c.dumps(j)) == Some(j))
    && c.loads([]) == None
    && (forall j :: Stripped(c.dumps(j)))
    && (forall j :: NoLineBreaks(c.dumps(j)))
  }
}

/**
 * The backend's job "database": a text file holding one job per line as
 * `[timestamp] <json>`. The file is modelled as the sequence of its lines
 * (each with its trailing "\n", as `readlines` returns them).
 */
module Database {
  import opened Wrappers
  import opened Text
  import opened Sequences
  import opened JobRecord
  import opened Analysis

  /** What ends the timestamp part of a line. */
  const Marker: string := "] "
  const DuplicateUrlError: string := "Job URL already exists in database"
  const UrlRequired: string := "URL is required"

  /** A timestamp that cannot be mistaken for the end of the prefix. */
  predicate ValidTimestamp(timestamp: string) {
    NoOccurrence(timestamp, Marker) && NoLineBreaks(timestamp)
  }

  /** The line `save_job_data` appends for `job`. */
  function FormatLine(c: Codec, timestamp: string, job: Job): string {
    "[" + timestamp + Marker + c.dumps(job) + "\n"
  }

  /** How the readers of the file see one line. */
  datatype LineKind =
    | Blank                           // only whitespace
    | Unmarked                        // no "] " in it
    | Malformed(cut: nat)             // the text after the first "] " does not parse
    | Record(cut: nat, job: Job)      // it parses to `job`

  /**
   * The classification shared by `get_all_jobs`, `delete_job` and
   * `update_job_priority`: blank test, first "] ", strip, `json.loads`.
   */
  function Classify(c: Codec, line: string): (k: LineKind)
    ensures (k.Malformed? || k.Record?) ==> k.cut + 2 <= |line|
  {
    if Strip(line) == [] then Blank
    else
      var cut := IndexOf(line, Marker);
      if cut < 0 then Unmarked
      else
        match c.loads(Strip(line[cut + 2..]))
        case None => Malformed(cut)
        case Some(job) => Record(cut, job)
  }

  predicate ParsesTo(c: Codec, line: string, job: Job) {
    Classify(c, line).Record? && Classify(c, line).job == job
  }

  /** The record of a line, if it has one. */
  function JobOf(c: Codec, line: string): seq<Job> {
    match Classify(c, line)
    case Record(_, job) => [job]
    case _ => []
  }

  function LineJobs(c: Codec): string -> seq<Job> {
    line => JobOf(c, line)
  }

  /** What `get_all_jobs` returns for an existing file: the records, in file order. */
  function AllJobs(c: Codec, lines: seq<string>): seq<Job> {
    Collect(lines, LineJobs(c))
  }

  /** The line holds a record whose `url` is `url`. */
  predicate Matches(c: Codec, line: string, url: string) {
    Classify(c, line).Record? && Classify(c, line).job.url == Some(url)
  }

  predicate AnyMatch(c: Codec, lines: seq<string>, url: string) {
    exists i :: 0 <= i < |lines| && Matches(c, lines[i], url)
  }

  /** Some record in `jobs` has the given `url`. */
  predicate HasUrl(jobs: seq<Job>, url: string) {
    exists i :: 0 <= i < |jobs| && jobs[i].url == Some(url)
  }

  /** The lines `delete_job` writes back: records with another url, and malformed lines. */
  predicate KeptOnDelete(c: Codec, line: string, url: string) {
    match Classify(c, line)
    case Record(_, job) => job.url != Some(url)
    case Malformed(_) => true
    case _ => false
  }

  function Keep(c: Codec, url: string): string -> bool {
    line => KeptOnDelete(c, line, url)
  }

  function DeleteLines(c: Codec, lines: seq<string>, url: string): seq<string> {
    Filter(lines, Keep(c, url))
  }

  /** The line `update_job_priority` writes in place of `line`. */
  function UpdateLine(c: Codec, line: string, url: string, priority: int): string {
    match Classify(c, line)
    case Record(cut, job) =>
      if job.url == Some(url) then line[..cut + 2] + c.dumps(job.(priority := Some(priority))) + "\n"
      else line
    case _ => line
  }

  function Updater(c: Codec, url: string, priority: int): string -> string {
    line => UpdateLine(c, line, url, priority)
  }

  function UpdateLines(c: Codec, lines: seq<string>, url: string, priority: int): seq<string> {
    Map(lines, Updater(c, url, priority))
  }

  lemma UpdateLinesSnoc(c: Codec, lines: seq<string>, line: string, url: string, priority: int)
    ensures UpdateLines(c, lines + [line], url, priority)
         == UpdateLines(c, lines, url, priority) + [UpdateLine(c, line, url, priority)]
  {
    MapAppend(lines, [line], Updater(c, url, priority));
  }

  function OtherUrl(url: string): Job -> bool {
    (j: Job) => j.url != Some(url)
  }

  function WithoutUrl(jobs: seq<Job>, url: string): seq<Job> {
    Filter(jobs, OtherUrl(url))
  }

  function WithPriority(job: Job, url: string, priority: int): Job {
    if job.url == Some(url) then job.(priority := Some(priority)) else job
  }

  function Prioritize(url: string, priority: int): Job -> Job {
    (job: Job) => WithPriority(job, url, priority)
  }

  /** `jobs` with the priority of every job at `url` set to `priority`. */
  function SetPriority(jobs: seq<Job>, url: string, priority: int): seq<Job> {
    Map(jobs, Prioritize(url, priority))
  }

  // ---------------------------------------------------------------------
  // Reading back what was written

  /** When `head` holds no "] ", the first "] " of `head + "] " + tail` is right after it. */
  lemma FirstMarker(head: string, tail: string)
    requires NoOccurrence(head, Marker)
    ensures IndexOf(head + Marker + tail, Marker) == |head|
  {
    var line := head + Marker + tail;
    assert line[|head|..|head| + 2] == Marker;
    assert OccursAt(line, Marker, |head|);
    IndexOfFound(line, Marker);
    IndexOfFirst(line, Marker);
    forall k | 0 <= k < |head| ensures !OccursAt(line, Marker, k) {
      if k + 2 <= |head| {
        assert line[k..k + 2] == head[k..k + 2];
        assert !OccursAt(head, Marker, k);
      } else {
        assert line[k + 1] == ']';
        assert line[k..k + 2][1] == ']';
      }
    }
  }

  lemma StampHasNoMarker(timestamp: string)
    requires ValidTimestamp(timestamp)
    ensures NoOccurrence("[" + timestamp, Marker)
  {
    var head := "[" + timestamp;
    forall k | 0 <= k <= |head| ensures !OccursAt(head, Marker, k) {
      if k == 0 {
        assert head[0] == '[';
      } else if k + 2 <= |head| {
        assert head[k..k + 2] == timestamp[k - 1..k + 1];
        assert !OccursAt(timestamp, Marker, k - 1);
      }
    }
  }

  /** A text after the first "] " that is a dumped record followed by "\n" parses back to it. */
  lemma DumpedTailParses(c: Codec, head: string, job: Job)
    requires WellFormed(c) && NoOccurrence(head, Marker)
    ensures Classify(c, head + Marker + c.dumps(job) + "\n") == Record(|head|, job)
  {
    var line := head + Marker + c.dumps(job) + "\n";
    assert line == head + Marker + (c.dumps(job) + "\n");
    FirstMarker(head, c.dumps(job) + "\n");
    assert line[|head| + 2..] == c.dumps(job) + "\n";
    assert Stripped(c.dumps(job));
    StripWithNewline(c.dumps(job));
    StripShape(line);
    assert line[|head|] == ']' && !IsSpace(line[|head|]);
    assert c.loads(c.dumps(job)) == Some(job);
  }

  /** The line `save_job_data` writes is read back as exactly the saved record. */
  lemma FormatLineParses(c: Codec, timestamp: string, job: Job)
    requires WellFormed(c) && ValidTimestamp(timestamp)
    ensures Classify(c, FormatLine(c, timestamp, job)) == Record(|timestamp| + 1, job)
  {
    StampHasNoMarker(timestamp);
    DumpedTailParses(c, "[" + timestamp, job);
  }

  /** Appending a saved line appends its record to what `get_all_jobs` returns. */
  lemma SaveThenRead(c: Codec, lines: seq<string>, timestamp: string, job: Job)
    requires WellFormed(c) && ValidTimestamp(timestamp)
    ensures AllJobs(c, lines + [FormatLine(c, timestamp, job)]) == AllJobs(c, lines) + [job]
  {
    CollectSnoc(lines, FormatLine(c, timestamp, job), LineJobs(c));
    FormatLineParses(c, timestamp, job);
  }

  /** `get_all_jobs` returns a job exactly when some line of the file parses to it. */
  lemma AllJobsMembers(c: Codec, lines: seq<string>, job: Job)
    ensures job in AllJobs(c, lines) <==> exists i :: 0 <= i < |lines| && ParsesTo(c, lines[i], job)
  {
    CollectMembers(lines, LineJobs(c), job);
    assert forall i :: 0 <= i < |lines| ==> (job in LineJobs(c)(lines[i]) <==> ParsesTo(c, lines[i], job));
  }

  /** `delete_job`'s flag and `analyze_job`'s duplicate check agree: a line matches iff a stored record has the url. */
  lemma AnyMatchStored(c: Codec, lines: seq<string>, url: string)
    ensures AnyMatch(c, lines, url) <==> HasUrl(AllJobs(c, lines), url)
  {
    var jobs := AllJobs(c, lines);
    if AnyMatch(c, lines, url) {
      var i :| 0 <= i < |lines| && Matches(c, lines[i], url);
      var job := Classify(c, lines[i]).job;
      assert job in LineJobs(c)(lines[i]);
      CollectMembers(lines, LineJobs(c), job);
      var k :| 0 <= k < |jobs| && jobs[k] == job;
    }
    if HasUrl(jobs, url) {
      var k :| 0 <= k < |jobs| && jobs[k].url == Some(url);
      CollectMembers(lines, LineJobs(c), jobs[k]);
      var i :| 0 <= i < |lines| && jobs[k] in LineJobs(c)(lines[i]);
      assert Matches(c, lines[i], url);
    }
  }

  lemma AnyMatchSnoc(c: Codec, lines: seq<string>, line: string, url: string)
    ensures AnyMatch(c, lines + [line], url) <==> AnyMatch(c, lines, url) || Matches(c, line, url)
  {
    var all := lines + [line];
    if AnyMatch(c, lines, url) {
      var i :| 0 <= i < |lines| && Matches(c, lines[i], url);
      assert all[i] == lines[i];
    }
    if AnyMatch(c, all, url) {
      var i :| 0 <= i < |all| && Matches(c, all[i], url);
      if i < |lines| {
        assert all[i] == lines[i];
      }
    }
    assert all[|lines|] == line;
  }

  // ---------------------------------------------------------------------
  // delete_job

  /**
   * The lines `delete_job` keeps are exactly the records with another url
   * and the malformed lines, in their original order; blank and unmarked
   * lines are dropped with the matching records.
   */
  lemma DeleteLinesMembers(c: Codec, lines: seq<string>, url: string, line: string)
    ensures line in DeleteLines(c, lines, url) <==> line in lines && KeptOnDelete(c, line, url)
    ensures Classify(c, line).Blank? || Classify(c, line).Unmarked? || Matches(c, line, url)
            ==> line !in DeleteLines(c, lines, url)
  {
    FilterMembers(lines, Keep(c, url), line);
  }

  /** One line's contribution to the records after a delete. */
  lemma DeleteLineRead(c: Codec, line: string, url: string)
    ensures Filter(JobOf(c, line), OtherUrl(url)) == if KeptOnDelete(c, line, url) then JobOf(c, line) else []
  {
    match Classify(c, line)
    case Record(_, job) =>
      FilterCons(job, [], OtherUrl(url));
      assert [job] + [] == [job];
    case _ =>
  }

  lemma DeleteLinesSnoc(c: Codec, lines: seq<string>, line: string, url: string)
    ensures DeleteLines(c, lines + [line], url)
         == DeleteLines(c, lines, url) + (if KeptOnDelete(c, line, url) then [line] else [])
  {
    FilterAppend(lines, [line], Keep(c, url));
    FilterCons(line, [], Keep(c, url));
    assert [line] + [] == [line];
  }

  /** After deleting `url`, `get_all_jobs` returns the old records without those at `url`. */
  lemma DeleteThenRead(c: Codec, lines: seq<string>, url: string)
    ensures AllJobs(c, DeleteLines(c, lines, url)) == WithoutUrl(AllJobs(c, lines), url)
  {
    forall i | 0 <= i < |lines|
      ensures Filter(LineJobs(c)(lines[i]), OtherUrl(url))
           == if Keep(c, url)(lines[i]) then LineJobs(c)(lines[i]) else []
    {
      DeleteLineRead(c, lines[i], url);
    }
    CollectFilter(lines, LineJobs(c), Keep(c, url), OtherUrl(url));
  }

  /**
   * Every record at `url` is gone after a delete, so a second delete of the
   * same url reports false; records at other urls are all still there.
   */
  lemma DeleteRemovesUrl(c: Codec, lines: seq<string>, url: string, job: Job)
    ensures !HasUrl(AllJobs(c, DeleteLines(c, lines, url)), url)
    ensures !AnyMatch(c, DeleteLines(c, lines, url), url)
    ensures job in AllJobs(c, DeleteLines(c, lines, url)) <==> job in AllJobs(c, lines) && job.url != Some(url)
  {
    DeleteThenRead(c, lines, url);
    var left := AllJobs(c, DeleteLines(c, lines, url));
    forall k | 0 <= k < |left| ensures left[k].url != Some(url) {
      FilterMembers(AllJobs(c, lines), OtherUrl(url), left[k]);
      assert left[k] in left;
    }
    AnyMatchStored(c, DeleteLines(c, lines, url), url);
    FilterMembers(AllJobs(c, lines), OtherUrl(url), job);
  }

  // ---------------------------------------------------------------------
  // update_job_priority

  /**
   * A matching line keeps its prefix up to and including the first "] ",
   * and reads back as the old record with the new priority.
   */
  lemma UpdateLineReparses(c: Codec, line: string, url: string, priority: int)
    requires WellFormed(c) && Matches(c, line, url)
    ensures var k := Classify(c, line);
            var updated := UpdateLine(c, line, url, priority);
            && k.cut + 2 <= |updated| && updated[..k.cut + 2] == line[..k.cut + 2]
            && Classify(c, updated) == Record(k.cut, k.job.(priority := Some(priority)))
  {
    var k := Classify(c, line);
    var job := k.job.(priority := Some(priority));
    var head := line[..k.cut];
    IndexOfFirst(line, Marker);
    IndexOfFound(line, Marker);
    PrefixBeforeFirst(line, Marker, k.cut);
    assert line[k.cut..k.cut + 2] == Marker;
    assert line[..k.cut + 2] == head + Marker;
    DumpedTailParses(c, head, job);
    assert UpdateLine(c, line, url, priority) == head + Marker + c.dumps(job) + "\n";
  }

  /** Every other line is written back byte for byte. */
  lemma UpdateLineOthers(c: Codec, line: string, url: string, priority: int)
    requires !Matches(c, line, url)
    ensures UpdateLine(c, line, url, priority) == line
  {
  }

  /**
   * `update_job_priority` keeps every line in place, leaves the others as
   * they were, and rewrites each matching one to its job with the new priority.
   */
  lemma UpdateLinesShape(c: Codec, lines: seq<string>, url: string, priority: int)
    requires WellFormed(c)
    ensures var r := UpdateLines(c, lines, url, priority);
            && |r| == |lines|
            && (forall i :: 0 <= i < |lines| && !Matches(c, lines[i], url) ==> r[i] == lines[i])
            && (forall i :: 0 <= i < |lines| && Matches(c, lines[i], url) ==>
                  ParsesTo(c, r[i], Classify(c, lines[i]).job.(priority := Some(priority))))
  {
    var r := UpdateLines(c, lines, url, priority);
    forall i | 0 <= i < |lines| && Matches(c, lines[i], url)
      ensures ParsesTo(c, r[i], Classify(c, lines[i]).job.(priority := Some(priority)))
    {
      UpdateLineReparses(c, lines[i], url, priority);
    }
  }

  /** One line's contribution to the records after an update. */
  lemma UpdateLineRead(c: Codec, line: string, url: string, priority: int)
    requires WellFormed(c)
    ensures JobOf(c, UpdateLine(c, line, url, priority)) == SetPriority(JobOf(c, line), url, priority)
  {
    if Matches(c, line, url) {
      UpdateLineReparses(c, line, url, priority);
    }
  }

  /** After an update, `get_all_jobs` returns the old records with the priority set at `url`. */
  lemma UpdateThenRead(c: Codec, lines: seq<string>, url: string, priority: int)
    requires WellFormed(c)
    ensures AllJobs(c, UpdateLines(c, lines, url, priority)) == SetPriority(AllJobs(c, lines), url, priority)
  {
    forall i | 0 <= i < |lines|
      ensures LineJobs(c)(Updater(c, url, priority)(lines[i])) == Map(LineJobs(c)(lines[i]), Prioritize(url, priority))
    {
      UpdateLineRead(c, lines[i], url, priority);
    }
    CollectMap(lines, LineJobs(c), Updater(c, url, priority), Prioritize(url, priority));
  }

  /** An update neither adds nor removes the url it targets. */
  lemma UpdateKeepsUrl(c: Codec, lines: seq<string>, url: string, priority: int)
    requires WellFormed(c)
    ensures AnyMatch(c, UpdateLines(c, lines, url, priority), url) == AnyMatch(c, lines, url)
  {
    UpdateThenRead(c, lines, url, priority);
    AnyMatchStored(c, lines, url);
    AnyMatchStored(c, UpdateLines(c, lines, url, priority), url);
    var jobs := AllJobs(c, lines);
    var updated := SetPriority(jobs, url, priority);
    assert forall k :: 0 <= k < |jobs| ==> updated[k].url == jobs[k].url;
  }

  /** Updating twice to the same priority writes the same file as updating once. */
  lemma UpdateIdempotent(c: Codec, lines: seq<string>, url: string, priority: int)
    requires WellFormed(c)
    ensures UpdateLines(c, UpdateLines(c, lines, url, priority), url, priority)
         == UpdateLines(c, lines, url, priority)
  {
    var once := UpdateLines(c, lines, url, priority);
    var twice := UpdateLines(c, once, url, priority);
    forall i | 0 <= i < |lines| ensures twice[i] == once[i] {
      if Matches(c, lines[i], url) {
        UpdateLineReparses(c, lines[i], url, priority);
        var k := Classify(c, lines[i]);
        var job := k.job.(priority := Some(priority));
        assert job.(priority := Some(priority)) == job;
        assert once[i][..k.cut + 2] == lines[i][..k.cut + 2];
      }
    }
  }

  // ---------------------------------------------------------------------
  // analyze_job

  /**
   * Once `analyze_job` has saved the stamped record for `url`, its duplicate
   * check finds that url: analysing the same url again is refused.
   */
  lemma SavedUrlIsDuplicate(c: Codec, lines: seq<string>, timestamp: string, fields: Job, url: string, today: string)
    requires WellFormed(c) && ValidTimestamp(timestamp)
    ensures HasUrl(AllJobs(c, lines + [FormatLine(c, timestamp, StampRecord(fields, url, today))]), url)
  {
    var job := StampRecord(fields, url, today);
    SaveThenRead(c, lines, timestamp, job);
    var jobs := AllJobs(c, lines) + [job];
    assert jobs[|jobs| - 1].url == Some(url);
  }

  // ---------------------------------------------------------------------
  // The url as primary key

  /** No two records carry the same url: the url identifies a job. */
  predicate UniqueUrls(jobs: seq<Job>) {
    forall i, j :: 0 <= i < j < |jobs| && jobs[i].url.Some? ==> jobs[i].url != jobs[j].url
  }

  /** Saving a record whose url is not stored yet keeps the urls unique. */
  lemma SaveNewKeepsUniqueUrls(c: Codec, lines: seq<string>, timestamp: string, job: Job, url: string)
    requires WellFormed(c) && ValidTimestamp(timestamp) && job.url == Some(url)
    requires UniqueUrls(AllJobs(c, lines)) && !HasUrl(AllJobs(c, lines), url)
    ensures UniqueUrls(AllJobs(c, lines + [FormatLine(c, timestamp, job)]))
  {
    SaveThenRead(c, lines, timestamp, job);
    var jobs := AllJobs(c, lines);
    var after := jobs + [job];
    forall i, j | 0 <= i < j < |after| && after[i].url.Some? ensures after[i].url != after[j].url {
      if j == |jobs| {
        assert after[i] == jobs[i] && after[j] == job;
      } else {
        assert after[i] == jobs[i] && after[j] == jobs[j];
      }
    }
  }

  /**
   * What `analyze_job` appends after its duplicate check has let the url
   * through keeps the urls of the file unique.
   */
  lemma AnalyzeKeepsUniqueUrls(c: Codec, lines: seq<string>, timestamp: string, fields: Job, url: string, today: string)
    requires WellFormed(c) && ValidTimestamp(timestamp)
    requires UniqueUrls(AllJobs(c, lines)) && !HasUrl(AllJobs(c, lines), url)
    ensures UniqueUrls(AllJobs(c, lines + [FormatLine(c, timestamp, StampRecord(fields, url, today))]))
  {
    SaveNewKeepsUniqueUrls(c, lines, timestamp, StampRecord(fields, url, today), url);
  }

  /** An update changes priorities only, so the urls stay unique. */
  lemma UpdateKeepsUniqueUrls(c: Codec, lines: seq<string>, url: string, priority: int)
    requires WellFormed(c)
    ensures UniqueUrls(AllJobs(c, lines)) ==> UniqueUrls(AllJobs(c, UpdateLines(c, lines, url, priority)))
  {
    UpdateThenRead(c, lines, url, priority);
    var jobs := AllJobs(c, lines);
    var updated := SetPriority(jobs, url, priority);
    assert forall k :: 0 <= k < |jobs| ==> updated[k].url == jobs[k].url;
  }

  /** Filtering a list of records with unique urls keeps them unique. */
  lemma {:induction false} FilterKeepsUniqueUrls(jobs: seq<Job>, p: Job -> bool)
    requires UniqueUrls(jobs)
    ensures UniqueUrls(Filter(jobs, p))
  {
    if jobs != [] {
      var tail := jobs[1..];
      assert forall i, j :: 0 <= i < j < |tail| ==> tail[i] == jobs[i + 1] && tail[j] == jobs[j + 1];
      FilterKeepsUniqueUrls(tail, p);
      var rest := Filter(tail, p);
      var head := if p(jobs[0]) then [jobs[0]] else [];
      var r := head + rest;
      assert Filter(jobs, p) == r;
      if head != [] && jobs[0].url.Some? {
        forall j | 0 <= j < |rest| ensures rest[j].url != jobs[0].url {
          assert rest[j] in rest;
          FilterMembers(tail, p, rest[j]);
          var k :| 0 <= k < |tail| && tail[k] == rest[j];
          assert jobs[k + 1] == rest[j];
        }
      }
      forall i, j | 0 <= i < j < |r| && r[i].url.Some? ensures r[i].url != r[j].url {
        if head != [] {
          if i == 0 {
            assert r[i] == jobs[0] && r[j] == rest[j - 1];
          } else {
            assert r[i] == rest[i - 1] && r[j] == rest[j - 1];
          }
        } else {
          assert r[i] == rest[i] && r[j] == rest[j];
        }
      }
    }
  }

  /** A delete keeps a subsequence of the records, so the urls stay unique. */
  lemma DeleteKeepsUniqueUrls(c: Codec, lines: seq<string>, url: string)
    ensures UniqueUrls(AllJobs(c, lines)) ==> UniqueUrls(AllJobs(c, DeleteLines(c, lines, url)))
  {
    DeleteThenRead(c, lines, url);
    if UniqueUrls(AllJobs(c, lines)) {
      FilterKeepsUniqueUrls(AllJobs(c, lines), OtherUrl(url));
    }
  }

  /** The responses of the `/analyze` endpoint. */
  datatype AnalyzeResponse =
    | BadRequest(detail: string)    // HTTP 400
    | Failed(error: string)         // {"success": False, "error": ...}
    | Saved(data: Job)              // {"success": True, "data": ...}

  // ---------------------------------------------------------------------
  // Lines as `readlines` returns them

  /** No character at which reading the file would end a line. */
  predicate Unbroken(s: string) {
    forall i :: 0 <= i < |s| ==> s[i] != '\n' && s[i] != '\r'
  }

  /** One line of the file: a single "\n", at its end. */
  predicate FileLine(line: string) {
    |line| > 0 && line[|line| - 1] == '\n' && Unbroken(line[..|line| - 1])
  }

  predicate FileLines(lines: seq<string>) {
    forall i :: 0 <= i < |lines| ==> FileLine(lines[i])
  }

  lemma NoLineBreaksUnbroken(s: string)
    requires NoLineBreaks(s)
    ensures Unbroken(s)
  {
    forall i | 0 <= i < |s| ensures s[i] != '\n' && s[i] != '\r' {
      assert !IsLineBreak(s[i]);
    }
  }

  lemma UnbrokenAppend(a: string, b: string)
    requires Unbroken(a) && Unbroken(b)
    ensures Unbroken(a + b)
  {
    forall i | 0 <= i < |a + b| ensures (a + b)[i] != '\n' && (a + b)[i] != '\r' {
      if i >= |a| {
        assert (a + b)[i] == b[i - |a|];
      }
    }
  }

  lemma TerminatedFileLine(body: string)
    requires Unbroken(body)
    ensures FileLine(body + "\n")
  {
    assert (body + "\n")[..|body|] == body;
  }

  /** What `save_job_data` writes is one line of the file. */
  lemma FormatLineIsFileLine(c: Codec, timestamp: string, job: Job)
    requires WellFormed(c) && ValidTimestamp(timestamp)
    ensures FileLine(FormatLine(c, timestamp, job))
  {
    NoLineBreaksUnbroken(timestamp);
    NoLineBreaksUnbroken(c.dumps(job));
    assert Unbroken("[");
    assert Unbroken(Marker);
    UnbrokenAppend("[", timestamp);
    UnbrokenAppend("[" + timestamp, Marker);
    UnbrokenAppend("[" + timestamp + Marker, c.dumps(job));
    TerminatedFileLine("[" + timestamp + Marker + c.dumps(job));
  }

  /** A delete keeps only lines of the file. */
  lemma DeleteKeepsFileLines(c: Codec, lines: seq<string>, url: string)
    requires FileLines(lines)
    ensures FileLines(DeleteLines(c, lines, url))
  {
    var r := DeleteLines(c, lines, url);
    forall i | 0 <= i < |r| ensures FileLine(r[i]) {
      DeleteLinesMembers(c, lines, url, r[i]);
      assert r[i] in r;
    }
  }

  /**
   * A rewritten line is still one line: the JSON part of a record is not
   * empty, so the kept prefix stops before the final "\n".
   */
  lemma UpdateLineFileLine(c: Codec, line: string, url: string, priority: int)
    requires WellFormed(c) && FileLine(line)
    ensures FileLine(UpdateLine(c, line, url, priority))
  {
    if Matches(c, line, url) {
      var k := Classify(c, line);
      var body := line[..|line| - 1];
      assert Strip(line[k.cut + 2..]) != [];
      assert k.cut + 2 < |line|;
      var prefix := line[..k.cut + 2];
      assert prefix == body[..k.cut + 2];
      assert Unbroken(prefix) by {
        forall i | 0 <= i < |prefix| ensures prefix[i] != '\n' && prefix[i] != '\r' {
          assert prefix[i] == body[i];
        }
      }
      var dumped := c.dumps(k.job.(priority := Some(priority)));
      NoLineBreaksUnbroken(dumped);
      UnbrokenAppend(prefix, dumped);
      TerminatedFileLine(prefix + dumped);
    }
  }

  lemma UpdateKeepsFileLines(c: Codec, lines: seq<string>, url: string, priority: int)
    requires WellFormed(c) && FileLines(lines)
    ensures FileLines(UpdateLines(c, lines, url, priority))
  {
    var r := UpdateLines(c, lines, url, priority);
    forall i | 0 <= i < |r| ensures FileLine(r[i]) {
      UpdateLineFileLine(c, lines[i], url, priority);
    }
  }

  /**
   * The body of the loop of `update_job_priority`, for one line: the line as
   * it is written back, and whether it held a record at `url`.
   */
  method PrioritizeLine(c: Codec, line: string, url: string, priority: int) returns (r: string, matched: bool)
    ensures r == UpdateLine(c, line, url, priority)
    ensures matched == Matches(c, line, url)
  {
    r := line;
    matched := false;
    ghost var kind := Classify(c, line);
    if Strip(line) != [] {
      var bracketEnd := IndexOf(line, Marker);
      if bracketEnd != -1 {
        var jsonPart := Strip(line[bracketEnd + 2..]);
        match c.loads(jsonPart)
        case Some(jobData) =>
          assert kind == Record(bracketEnd, jobData);
          if jobData.url == Some(url) {
            var changed := jobData.(priority := Some(priority));
            r := line[..bracketEnd + 2] + c.dumps(changed) + "\n";
            matched := true;
          }
        case None =>
          assert kind == Malformed(bracketEnd);
      } else {
        assert kind == Unmarked;
      }
    } else {
      assert kind == Blank;
    }
  }

  /**
   * The database file, which may not exist yet: whether it does, and its
   * lines, each ending in its "\n". It is written with a well-behaved codec.
   */
  class JobsFile {
    const codec: Codec
    var present: bool
    var lines: seq<string>

    ghost predicate Valid()
      reads this
    {
      && WellFormed(codec)
      && (!present ==> lines == [])
      && FileLines(lines)
    }

    /** No file yet. */
    constructor (codec: Codec)
      requires WellFormed(codec)
      ensures Valid() && this.codec == codec && !present && lines == []
    {
      this.codec := codec;
      present := false;
      lines := [];
    }

    /** `save_job_data`: appends one line (creating the file if needed). */
    method SaveJobData(timestamp: string, job: Job)
      requires Valid() && ValidTimestamp(timestamp)
      modifies this
      ensures Valid() && present
      ensures lines == old(lines) + [FormatLine(codec, timestamp, job)]
    {
      var line := FormatLine(codec, timestamp, job);
      FormatLineIsFileLine(codec, timestamp, job);
      lines := lines + [line];
      present := true;
      assert forall i :: 0 <= i < |lines| - 1 ==> lines[i] == old(lines)[i];
    }

    /** `get_all_jobs`: the records of the file in order; a missing file reads as empty. */
    method GetAllJobs() returns (jobs: seq<Job>)
      requires Valid()
      ensures jobs == AllJobs(codec, lines)
      ensures !present ==> jobs == []
    {
      jobs := [];
      if !present {
        return;
      }
      var fileLines := lines;
      var i := 0;
      while i < |fileLines|
        invariant 0 <= i <= |fileLines|
        invariant jobs == AllJobs(codec, fileLines[..i])
      {
        var line := fileLines[i];
        assert fileLines[..i + 1] == fileLines[..i] + [line];
        CollectSnoc(fileLines[..i], line, LineJobs(codec));
        if Strip(line) != [] {
          var bracketEnd := IndexOf(line, Marker);
          if bracketEnd != -1 {
            var jsonPart := Strip(line[bracketEnd + 2..]);
            match codec.loads(jsonPart)
            case Some(jobData) =>
              jobs := jobs + [jobData];
            case None =>
          }
        }
        i := i + 1;
      }
      assert fileLines[..i] == fileLines;
    }

    /**
     * `delete_job`: rewrites the file without the records at `jobUrl` and
     * reports whether there was one; a missing file is left missing.
     */
    method DeleteJob(jobUrl: string) returns (deleted: bool)
      requires Valid()
      modifies this
      ensures Valid() && present == old(present)
      ensures deleted == (old(present) && AnyMatch(codec, old(lines), jobUrl))
      ensures lines == if old(present) then DeleteLines(codec, old(lines), jobUrl) else old(lines)
      ensures UniqueUrls(AllJobs(codec, old(lines))) ==> UniqueUrls(AllJobs(codec, lines))
    {
      if !present {
        return false;
      }
      var fileLines := lines;
      var filteredLines: seq<string> := [];
      deleted := false;
      var i := 0;
      while i < |fileLines|
        invariant 0 <= i <= |fileLines|
        invariant present && fileLines == lines
        invariant filteredLines == DeleteLines(codec, fileLines[..i], jobUrl)
        invariant deleted == AnyMatch(codec, fileLines[..i], jobUrl)
      {
        var line := fileLines[i];
        assert fileLines[..i + 1] == fileLines[..i] + [line];
        DeleteLinesSnoc(codec, fileLines[..i], line, jobUrl);
        AnyMatchSnoc(codec, fileLines[..i], line, jobUrl);
        ghost var kind := Classify(codec, line);
        if Strip(line) != [] {
          var bracketEnd := IndexOf(line, Marker);
          if bracketEnd != -1 {
            var jsonPart := Strip(line[bracketEnd + 2..]);
            match codec.loads(jsonPart)
            case Some(jobData) =>
              assert kind == Record(bracketEnd, jobData);
              if jobData.url != Some(jobUrl) {
                filteredLines := filteredLines + [line];
              } else {
                deleted := true;
              }
            case None =>
              assert kind == Malformed(bracketEnd);
              filteredLines := filteredLines + [line];
          }
        }
        i := i + 1;
      }
      assert fileLines[..i] == fileLines;
      DeleteKeepsFileLines(codec, fileLines, jobUrl);
      DeleteKeepsUniqueUrls(codec, fileLines, jobUrl);
      lines := filteredLines;
    }

    /**
     * `update_job_priority`: rewrites every record at `jobUrl` with the new
     * priority, keeps all other lines as they are, and reports whether any
     * line matched; a missing file is left missing.
     */
    method UpdateJobPriority(jobUrl: string, newPriority: int) returns (updated: bool)
      requires Valid()
      modifies this
      ensures Valid() && present == old(present)
      ensures updated == (old(present) && AnyMatch(codec, old(lines), jobUrl))
      ensures lines == if old(present) then UpdateLines(codec, old(lines), jobUrl, newPriority) else old(lines)
      ensures UniqueUrls(AllJobs(codec, old(lines))) ==> UniqueUrls(AllJobs(codec, lines))
    {
      if !present {
        return false;
      }
      updated := false;
      var fileLines := lines;
      var newLines: seq<string> := [];
      var i := 0;
      while i < |fileLines|
        invariant 0 <= i <= |fileLines|
        invariant present && fileLines == lines
        invariant newLines == UpdateLines(codec, fileLines[..i], jobUrl, newPriority)
        invariant updated == AnyMatch(codec, fileLines[..i], jobUrl)
      {
        var line := fileLines[i];
        assert fileLines[..i + 1] == fileLines[..i] + [line];
        AnyMatchSnoc(codec, fileLines[..i], line, jobUrl);
        UpdateLinesSnoc(codec, fileLines[..i], line, jobUrl, newPriority);
        var matched;
        line, matched := PrioritizeLine(codec, line, jobUrl, newPriority);
        updated := updated || matched;
        newLines := newLines + [line];
        i := i + 1;
      }
      assert fileLines[..i] == fileLines;
      UpdateKeepsFileLines(codec, fileLines, jobUrl, newPriority);
      UpdateKeepsUniqueUrls(codec, fileLines, jobUrl, newPriority);
      lines := newLines;
    }

    /**
     * The `/analyze` endpoint. `extraction` stands for what scraping the page
     * and asking the language model would give; it is consulted only when the
     * url is new. Nothing is written unless a record is returned, and then
     * exactly one line is appended.
     */
    method AnalyzeJob(url: string, extraction: Extraction, today: string, timestamp: string)
      returns (response: AnalyzeResponse)
      requires Valid() && ValidTimestamp(timestamp)
      modifies this
      ensures Valid()
      ensures url == [] ==> response == BadRequest(UrlRequired)
      ensures url != [] && HasUrl(AllJobs(codec, old(lines)), url) ==> response == Failed(DuplicateUrlError)
      ensures url != [] && !HasUrl(AllJobs(codec, old(lines)), url) ==>
                response == match AnalyzeJobPosting(url, extraction, today)
                            case Analysed(job) => Saved(job)
                            case PostingError(error) => Failed(error)
      ensures response.Saved? ==> present && lines == old(lines) + [FormatLine(codec, timestamp, response.data)]
      ensures !response.Saved? ==> present == old(present) && lines == old(lines)
      ensures UniqueUrls(AllJobs(codec, old(lines))) ==> UniqueUrls(AllJobs(codec, lines))
    {
      if url == [] {
        return BadRequest(UrlRequired);
      }
      var existingJobs := GetAllJobs();
      var i := 0;
      while i < |existingJobs|
        invariant 0 <= i <= |existingJobs|
        invariant forall k :: 0 <= k < i ==> existingJobs[k].url != Some(url)
      {
        if existingJobs[i].url == Some(url) {
          return Failed(DuplicateUrlError);
        }
        i := i + 1;
      }
      var jobData := AnalyzeJobPosting(url, extraction, today);
      match jobData
      case Analysed(job) =>
        ghost var before := lines;
        assert !HasUrl(AllJobs(codec, before), url);
        SaveJobData(timestamp, job);
        if UniqueUrls(AllJobs(codec, before)) {
          SaveNewKeepsUniqueUrls(codec, before, timestamp, job, url);
        }
        response := Saved(job);
      case PostingError(error) =>
        response := Failed(error);
    }
  }
}

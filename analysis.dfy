/**
 * The two pure steps of `analyze_job_posting`: cleaning the scraped page text
 * before it goes into the prompt, and stamping the defaults onto the record
 * the language model extracted.
 */
module Analysis {
  import opened Wrappers
  import opened Text
  import opened Sequences
  import opened JobRecord

  /** The cleaned text is cut to this many characters. */
  const MaxTextLength: nat := 8000
  /** The priority a newly analysed job starts with. */
  const DefaultPriority: int := 5
  const DoubleSpace: string := "  "

  function StripEach(parts: seq<string>): (r: seq<string>)
    ensures |r| == |parts|
  {
    seq(|parts|, i requires 0 <= i < |parts| => Strip(parts[i]))
  }

  /** The stripped phrases of one stripped line, split at double spaces. */
  function LineChunks(line: string): seq<string> {
    StripEach(SplitOn(Strip(line), DoubleSpace))
  }

  function Chunks(lines: seq<string>): seq<string> {
    if lines == [] then [] else LineChunks(lines[0]) + Chunks(lines[1..])
  }

  function IsChunk(chunk: string): bool {
    chunk != []
  }

  /** The non-empty phrases of the page text, in order. */
  function NonEmptyChunks(text: string): seq<string> {
    Filter(Chunks(SplitLines(text)), IsChunk)
  }

  function Truncate(s: string, limit: nat): (r: string)
    ensures |r| <= limit && |r| <= |s| && r == s[..|r|]
    ensures |s| <= limit ==> r == s
    ensures |s| > limit ==> r == s[..limit]
  {
    if |s| > limit then s[..limit] else s
  }

  /** The text-cleanup step of `analyze_job_posting`. */
  function CleanText(text: string): string {
    Truncate(JoinWith(NonEmptyChunks(text), " "), MaxTextLength)
  }

  /** A phrase as the cleanup keeps it. */
  predicate GoodChunk(chunk: string) {
    chunk != [] && Stripped(chunk) && SingleSpaced(chunk) && NoLineBreaks(chunk)
  }

  lemma NoDoubleSpaceSingleSpaced(s: string)
    requires NoOccurrence(s, DoubleSpace)
    ensures SingleSpaced(s)
  {
    forall i | 0 <= i < |s| - 1 ensures !(s[i] == ' ' && s[i + 1] == ' ') {
      if s[i] == ' ' && s[i + 1] == ' ' {
        assert s[i..i + 2] == DoubleSpace;
        assert OccursAt(s, DoubleSpace, i);
      }
    }
  }

  lemma SliceKeepsShape(s: string, a: nat, b: nat)
    requires a <= b <= |s|
    ensures SingleSpaced(s) ==> SingleSpaced(s[a..b])
    ensures NoLineBreaks(s) ==> NoLineBreaks(s[a..b])
  {
    if SingleSpaced(s) {
      forall i | 0 <= i < b - a - 1 ensures !(s[a..b][i] == ' ' && s[a..b][i + 1] == ' ') {
        assert s[a..b][i] == s[a + i] && s[a..b][i + 1] == s[a + i + 1];
      }
    }
    if NoLineBreaks(s) {
      forall i | 0 <= i < b - a ensures !IsLineBreak(s[a..b][i]) {
        assert s[a..b][i] == s[a + i];
      }
    }
  }

  /** Stripping keeps a string single-spaced and free of line breaks. */
  lemma StripKeepsShape(s: string)
    ensures SingleSpaced(s) ==> SingleSpaced(Strip(s))
    ensures NoLineBreaks(s) ==> NoLineBreaks(Strip(s))
  {
    StripShape(s);
    var a := |s| - |TrimLeft(s)|;
    SliceKeepsShape(s, a, a + |Strip(s)|);
  }

  /** Every phrase of one line is stripped, single-spaced and has no line break. */
  lemma LineChunksShape(line: string)
    requires NoLineBreaks(line)
    ensures forall c :: c in LineChunks(line) ==> Stripped(c) && SingleSpaced(c) && NoLineBreaks(c)
  {
    var stripped := Strip(line);
    StripKeepsShape(line);
    var parts := SplitOn(stripped, DoubleSpace);
    SplitOnPieces(stripped, DoubleSpace);
    forall c | c in LineChunks(line) ensures Stripped(c) && SingleSpaced(c) && NoLineBreaks(c) {
      var i :| 0 <= i < |parts| && LineChunks(line)[i] == c;
      var part := parts[i];
      NoDoubleSpaceSingleSpaced(part);
      StripKeepsShape(part);
      StripShape(part);
    }
  }

  lemma {:induction false} ChunksShape(lines: seq<string>)
    requires forall i :: 0 <= i < |lines| ==> NoLineBreaks(lines[i])
    ensures forall c :: c in Chunks(lines) ==> Stripped(c) && SingleSpaced(c) && NoLineBreaks(c)
  {
    if lines != [] {
      LineChunksShape(lines[0]);
      ChunksShape(lines[1..]);
    }
  }

  /** Every phrase the cleanup keeps is non-empty and well shaped. */
  lemma NonEmptyChunksShape(text: string)
    ensures forall c :: c in NonEmptyChunks(text) ==> GoodChunk(c)
  {
    var all := Chunks(SplitLines(text));
    ChunksShape(SplitLines(text));
    forall c | c in NonEmptyChunks(text) ensures GoodChunk(c) {
      FilterMembers(all, IsChunk, c);
    }
  }

  lemma SingleSpacedJoin(a: string, b: string)
    requires SingleSpaced(a) && SingleSpaced(b)
    requires a != [] && a[|a| - 1] != ' ' && b != [] && b[0] != ' '
    ensures SingleSpaced(a + " " + b)
  {
    var s := a + " " + b;
    forall i | 0 <= i < |s| - 1 ensures !(s[i] == ' ' && s[i + 1] == ' ') {
      if i < |a| - 1 {
        assert s[i] == a[i] && s[i + 1] == a[i + 1];
      } else if i == |a| - 1 {
        assert s[i] == a[|a| - 1];
      } else if i == |a| {
        assert s[i + 1] == b[0];
      } else {
        assert s[i] == b[i - |a| - 1] && s[i + 1] == b[i - |a|];
      }
    }
  }

  /** Joining well-shaped phrases with single spaces gives a well-shaped text. */
  lemma {:induction false} JoinShape(chunks: seq<string>)
    requires chunks != []
    requires forall c :: c in chunks ==> GoodChunk(c)
    ensures GoodChunk(JoinWith(chunks, " "))
  {
    if |chunks| > 1 {
      var head := chunks[0];
      assert head in chunks;
      var rest := JoinWith(chunks[1..], " ");
      JoinShape(chunks[1..]);
      var s := head + " " + rest;
      assert JoinWith(chunks, " ") == s;
      SingleSpacedJoin(head, rest);
      assert s[0] == head[0] && s[|s| - 1] == rest[|rest| - 1];
      forall i | 0 <= i < |s| ensures !IsLineBreak(s[i]) {
        if i < |head| {
          assert s[i] == head[i];
        } else if i > |head| {
          assert s[i] == rest[i - |head| - 1];
        }
      }
    }
  }

  /**
   * The cleaned text is at most 8000 characters long, is a prefix of the
   * non-empty phrases joined by single spaces, never has two blanks in a row
   * or a line break, and does not start with whitespace; when the joined text
   * fits, it is the whole of it and does not end with whitespace either.
   */
  lemma CleanTextShape(text: string)
    ensures var joined := JoinWith(NonEmptyChunks(text), " ");
            var r := CleanText(text);
            && |r| <= MaxTextLength
            && r == joined[..|r|]
            && (|joined| <= MaxTextLength ==> r == joined && Stripped(r))
            && (|joined| > MaxTextLength ==> r == joined[..MaxTextLength])
            && SingleSpaced(r) && NoLineBreaks(r)
            && (r != [] ==> !IsSpace(r[0]))
  {
    var chunks := NonEmptyChunks(text);
    var joined := JoinWith(chunks, " ");
    var r := CleanText(text);
    if chunks != [] {
      NonEmptyChunksShape(text);
      JoinShape(chunks);
      SliceKeepsShape(joined, 0, |r|);
      assert r != [] ==> r[0] == joined[0];
    } else {
      assert joined == [];
    }
  }

  lemma {:induction false} StripEachKeepsText(parts: seq<string>)
    ensures DropSpacesEach(StripEach(parts)) == DropSpacesEach(parts)
    decreases |parts|
  {
    if parts != [] {
      StripKeepsText(parts[0]);
      StripEachKeepsText(parts[1..]);
      assert StripEach(parts)[1..] == StripEach(parts[1..]);
    }
  }

  /** The phrases of a line hold all of its text but whitespace. */
  lemma LineChunksKeepsText(line: string)
    ensures DropSpacesEach(LineChunks(line)) == DropSpaces(line)
  {
    StripEachKeepsText(SplitOn(Strip(line), DoubleSpace));
    SplitKeepsText(Strip(line), DoubleSpace);
    StripKeepsText(line);
  }

  lemma {:induction false} ChunksKeepsText(lines: seq<string>)
    ensures DropSpacesEach(Chunks(lines)) == DropSpacesEach(lines)
    decreases |lines|
  {
    if lines != [] {
      LineChunksKeepsText(lines[0]);
      ChunksKeepsText(lines[1..]);
      DropSpacesEachAppend(LineChunks(lines[0]), Chunks(lines[1..]));
    }
  }

  /** Dropping the empty phrases loses nothing. */
  lemma {:induction false} FilterChunksKeepsText(chunks: seq<string>)
    ensures DropSpacesEach(Filter(chunks, IsChunk)) == DropSpacesEach(chunks)
    decreases |chunks|
  {
    if chunks != [] {
      FilterChunksKeepsText(chunks[1..]);
      var head := if IsChunk(chunks[0]) then [chunks[0]] else [];
      DropSpacesEachAppend(head, Filter(chunks[1..], IsChunk));
      if head != [] {
        assert head[1..] == [];
      }
    }
  }

  /**
   * The cleanup removes nothing but whitespace: before the text is cut to
   * 8000 characters, what is left to read of it is exactly what was left to
   * read of the page text. So a page that is not blank gives a non-empty
   * cleaned text.
   */
  lemma CleanupKeepsText(text: string)
    ensures DropSpaces(JoinWith(NonEmptyChunks(text), " ")) == DropSpaces(text)
    ensures (exists i :: 0 <= i < |text| && !IsSpace(text[i])) ==> CleanText(text) != []
  {
    var lines := SplitLines(text);
    var joined := JoinWith(NonEmptyChunks(text), " ");
    JoinKeepsText(NonEmptyChunks(text), " ");
    FilterChunksKeepsText(Chunks(lines));
    ChunksKeepsText(lines);
    SplitLinesKeepsText(text);
    DropSpacesBlank(text);
    if joined == [] {
      DropSpacesBlank(joined);
    }
  }

  /** The outcome of the scraping and language-model steps, which are not modelled. */
  datatype Extraction = Extracted(fields: Job) | ExtractionFailed(message: string)

  /** What `analyze_job_posting` returns: the new record or an error dictionary. */
  datatype Posting = Analysed(job: Job) | PostingError(error: string)

  /** The record `analyze_job_posting` builds from the extracted fields. */
  function StampRecord(fields: Job, url: string, today: string): (job: Job)
    ensures job.url == Some(url) && job.priority == Some(DefaultPriority) && job.dateAdded == Some(today)
    ensures job.companyName == fields.companyName && job.jobTitle == fields.jobTitle
    ensures job.location == fields.location && job.jobSummary == fields.jobSummary
    ensures job.technologies == fields.technologies
  {
    fields.(url := Some(url), dateAdded := Some(today), priority := Some(DefaultPriority))
  }

  /**
   * `analyze_job_posting` with its foreign calls replaced by their outcome:
   * a record comes back exactly when the extraction succeeded, carrying the
   * url, today's date and the default priority, with the extracted fields
   * kept; otherwise the failure's message is passed on.
   */
  function AnalyzeJobPosting(url: string, extraction: Extraction, today: string): (r: Posting)
    ensures r.Analysed? <==> extraction.Extracted?
    ensures r.Analysed? ==>
              && r.job.url == Some(url) && r.job.dateAdded == Some(today)
              && r.job.priority == Some(DefaultPriority)
              && r.job.companyName == extraction.fields.companyName
              && r.job.jobTitle == extraction.fields.jobTitle
              && r.job.location == extraction.fields.location
              && r.job.jobSummary == extraction.fields.jobSummary
              && r.job.technologies == extraction.fields.technologies
    ensures r.PostingError? ==> r.error == extraction.message
  {
    match extraction
    case Extracted(fields) => Analysed(StampRecord(fields, url, today))
    case ExtractionFailed(message) => PostingError(message)
  }
}

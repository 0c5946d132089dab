# JobsAnalyzer in Dafny

JobsAnalyzer is a small job-application tracker. A FastAPI backend
(`app.py`) stores job postings in a text file, one job per line. Each line
has the form `[timestamp] <json>`. The backend reads, deletes or re-prioritises
records by their `url`. It also adds a record for a new url once the page has
been scraped and a language model has extracted the fields. A browser client
(`static/script.js`) keeps the loaded records in memory. It filters them by
technology label, sorts them by priority or date, and renders them as table
rows, a sidebar of labels and a heading.

This project models the following:

- **The line database** (`database.dfy`). The file is a class `JobsFile`.
  Its fields say whether the file exists and hold its lines. Its methods are
  `save_job_data`, `get_all_jobs`, `delete_job`, `update_job_priority` and
  the `/analyze` endpoint. Each method runs over the lines with the same
  branches as the source:
  - a blank line;
  - no `"] "` marker;
  - JSON that does not parse;
  - a record at or not at the url.

  Each method is proved against a specification function on the sequence of
  lines. The lemmas then relate the operations to each other:
  - save then read;
  - delete then read;
  - update then read;
  - the duplicate check after a save.
- **The two pure steps of `analyze_job_posting`** (`analysis.dfy`): the
  cleanup of the scraped text, and the defaults stamped onto the extracted
  record.
- **The client's pure rules** (`view.dfy`):
  - the technology filter and its JavaScript truthiness;
  - the heading;
  - the comparators of the two sort clicks;
  - the sidebar entries and their active flags;
  - the projection of a job onto its two table rows.
- **The client's state and handlers** (`client.dfy`): a class `Dashboard`
  with the script's globals and the parts of the page the script writes
  (rows, sidebar, heading, result message).
- **Supporting modules.** `text.dfy` models the Python string operations the
  backend uses: `strip` with Python's whitespace set, `find`, `split`,
  `splitlines` and `join`. `sequences.dfy` holds a stable insertion sort,
  filter, map and concatenating map, with their laws. `job_record.dfy` holds
  the shared record and an abstract JSON codec.

JSON is a pair of functions `loads : string -> Option<Job>` and
`dumps : Job -> string`:
- `loads` is `None` where `json.loads` would raise.
- The ghost predicate `JobRecord.WellFormed` states what is assumed of them.
  `loads(dumps(j)) == j`, the empty text is not JSON, and the text of
  `dumps(j)` has no surrounding whitespace and no line break.

Lemmas that need the codec to round-trip require `WellFormed`. The class
invariant `JobsFile.Valid` includes it, together with the shape of the file:
every line ends in its single `"\n"`, as every line the backend writes does.
All methods keep that shape.

These are parameters of the model, not computed by it:
- the clock's timestamp and date;
- the outcome of scraping and of the language-model call (`Analysis.Extraction`);
- the client's date parsing (`dateKey`);
- the server's responses to the client's fetches.

## Model

| member | source | states |
|---|---|---|
| Database.Classify | app.py:58-68 | a line with a record or malformed JSON has its first `"] "` ending inside the line, so the JSON part `line[cut+2..]` is well defined |
| Database.FormatLineParses | app.py:48-50 | a line written by `save_job_data` is read back by the shared line classification as exactly the saved record, cut right after the timestamp |
| Database.SaveThenRead | app.py:45-71 | after a save, `get_all_jobs` returns the old records followed by the saved one |
| Database.FirstMarker | app.py:61 | `find('] ')` on a line whose head holds no `"] "` returns the position right after the head |
| Database.StampHasNoMarker | app.py:49-50 | the `[` plus a valid timestamp holds no `"] "`, so the first marker of a saved line is the one after the timestamp |
| Database.DumpedTailParses | app.py:61-65 | a head without marker followed by `"] "`, a dumped record and a newline classifies as that record |
| Database.AllJobsMembers | app.py:52-71 | a record is returned by `get_all_jobs` iff some line parses to it |
| Database.AnyMatchStored | app.py:73-103 | the delete/update flag (some parseable line has the url) holds iff a stored record has the url, as in the duplicate check |
| Database.AnyMatchSnoc | app.py:83-95 | the flag over one more line is the old flag or that line's match |
| Database.DeleteLinesMembers | app.py:83-95 | a line survives a delete iff it is in the file and is a record at another url or malformed JSON; every dropped line is blank, unmarked or a match |
| Database.DeleteLineRead | app.py:83-95 | one line's records after delete are its old records without those at the url |
| Database.DeleteLinesSnoc | app.py:83-95 | deleting over one more line appends that line iff it is kept |
| Database.DeleteThenRead | app.py:73-103 | after a delete, `get_all_jobs` returns exactly the old records without those at the url, in order |
| Database.DeleteRemovesUrl | app.py:73-103 | no record at the url remains, so a second delete reports false; records at other urls all remain |
| Database.UpdateLinesSnoc | app.py:113-126 | updating one more line appends that line's rewrite |
| Database.UpdateLineReparses | app.py:119-123 | a matching line keeps its prefix through the first `"] "` and reads back as the old record with the new priority |
| Database.UpdateLineOthers | app.py:113-126 | every non-matching line is written back unchanged |
| Database.UpdateLinesShape | app.py:105-131 | the update keeps the number and order of lines, leaves other lines as they were and rewrites each match to its record with the new priority |
| Database.UpdateLineRead | app.py:119-123 | one line's records after update are its old records with the priority set at the url |
| Database.UpdateThenRead | app.py:105-131 | after an update, `get_all_jobs` returns the old records with the priority of those at the url set |
| Database.UpdateKeepsUrl | app.py:105-131 | an update neither adds nor removes a line matching the url |
| Database.UpdateIdempotent | app.py:105-131 | updating twice to the same priority writes the same lines as updating once |
| Database.SavedUrlIsDuplicate | app.py:269-280 | once `/analyze` has saved a record for a url, the duplicate check finds that url |
| Database.SaveNewKeepsUniqueUrls | app.py:269-278 | appending a saved record whose url no stored record has keeps every url of the file on at most one record |
| Database.AnalyzeKeepsUniqueUrls | app.py:264-280 | the record `/analyze` appends once its duplicate check has let the url through keeps the url a primary key of the file |
| Database.UpdateKeepsUniqueUrls | app.py:105-131 | an update keeps the url a primary key: if no two records shared a url before, none do after |
| Database.FilterKeepsUniqueUrls | app.py:83-95 | keeping a subsequence of records with unique urls keeps them unique |
| Database.DeleteKeepsUniqueUrls | app.py:73-103 | a delete keeps the url a primary key: if no two records shared a url before, none do after |
| Database.PrioritizeLine | app.py:114-126 | the loop body of `update_job_priority` returns the rewritten line and whether it matched |
| Database.FormatLineIsFileLine | app.py:48-50 | the line `save_job_data` appends ends in its only `"\n"`, so it stays one line of the file |
| Database.DeleteKeepsFileLines | app.py:83-99 | a delete writes back only lines of the file, each still ending in its `"\n"` |
| Database.UpdateLineFileLine | app.py:119-126 | a rewritten record line is still one line: the kept prefix stops before the old `"\n"` and the new one ends it |
| Database.UpdateKeepsFileLines | app.py:113-128 | an update writes back lines that each end in their only `"\n"` |
| Database.JobsFile.constructor | app.py:69-70 | no file: nothing present, no lines |
| Database.JobsFile.SaveJobData | app.py:45-50 | the file exists afterwards and has exactly one more line, the formatted record; every line still ends in its `"\n"` |
| Database.JobsFile.GetAllJobs | app.py:52-71 | returns the records of the lines in file order, skipping blank, unmarked and malformed lines; a missing file gives no records |
| Database.JobsFile.DeleteJob | app.py:73-103 | reports true iff the file exists and a record has the url; the file then holds exactly the kept lines; a missing file is left missing; unique urls stay unique |
| Database.JobsFile.UpdateJobPriority | app.py:105-131 | reports true iff the file exists and a record has the url; the file then holds every line, with the matching ones rewritten; unique urls stay unique |
| Database.JobsFile.AnalyzeJob | app.py:264-282 | an empty url is a 400 error; a stored url is refused with the duplicate message before any analysis; otherwise the analysis outcome is returned, and exactly one line is appended iff a record came back; unique urls stay unique |
| Analysis.Truncate | app.py:160-162 | a text over the limit is cut to exactly its first `limit` characters; a text that fits is kept whole |
| Analysis.LineChunksShape | app.py:156-157 | each phrase of a line is stripped and holds no double space or line break |
| Analysis.ChunksShape | app.py:156-157 | every phrase of every line of the text has that shape |
| Analysis.NonEmptyChunksShape | app.py:156-158 | the kept phrases are non-empty, stripped, single spaced and free of line breaks |
| Analysis.JoinShape | app.py:158 | joining one or more such phrases with single spaces gives a non-empty text with no two blanks in a row, no line break and no surrounding whitespace |
| Analysis.CleanTextShape | app.py:155-162 | the cleaned text is at most 8000 characters and a prefix of the phrases joined by single spaces; it has no double blank, no line break and no leading whitespace; if the joined text fits, it is the whole of it and has no trailing whitespace, and otherwise it is exactly its first 8000 characters |
| Analysis.CleanupKeepsText | app.py:155-158 | the cleanup removes only whitespace: with every whitespace character dropped, the phrases joined by single spaces read exactly as the page text; a page text that is not all whitespace gives a non-empty cleaned text |
| Analysis.LineChunksKeepsText | app.py:156-157 | the stripped phrases of one line hold all of its non-whitespace characters, in order |
| Analysis.FilterChunksKeepsText | app.py:158 | dropping the empty phrases loses no character |
| Text.StripKeepsText | app.py:156 | `strip()` removes only whitespace characters |
| Text.JoinKeepsText | app.py:158 | joining with a whitespace separator adds only whitespace |
| Text.SplitKeepsText | app.py:157 | `split` at a whitespace separator loses only whitespace |
| Text.SplitLinesKeepsText | app.py:156 | `splitlines` loses only whitespace, since every line-break character is whitespace |
| Analysis.StampRecord | app.py:214-217 | the record keeps the extracted fields and gets the url, today's date and priority 5 |
| Analysis.AnalyzeJobPosting | app.py:133-229 | a record comes back iff the extraction succeeded; it has the url, today's date and priority 5 and keeps the extracted fields; a failure passes on its message |
| Text.StripShape | app.py:59 | `strip()` returns a slice of the text and removes only whitespace from its ends; the result is empty iff the text is all whitespace and otherwise starts and ends with non-whitespace |
| Text.StripWithNewline | app.py:63 | stripping a stripped text plus `"\n"` gives the text back |
| Text.IndexOfFound | app.py:61 | a found `find` position is an occurrence |
| Text.IndexOfFirst | app.py:61 | no occurrence precedes the `find` position, and none exists when it is -1 |
| Text.JoinSplit | app.py:157 | joining the pieces of `split(sep)` with the same non-empty `sep` gives the text back |
| Text.SplitLinesContent | app.py:156 | the pieces of `splitlines`, concatenated, are the text with exactly its line-break characters removed |
| Text.SplitLinesJoin | app.py:156 | for a text broken only by `"\n"`, the pieces of `splitlines` of the text plus a final `"\n"` joined with `"\n"` give the text back, so they are exactly its lines |
| View.ApplyTechFilterMembers | static/script.js:65-68 | a falsy filter returns the list itself; otherwise a job is kept iff it is in the list and its technologies include the label; nothing is added |
| View.ApplyTechFilterAppend | static/script.js:65-68 | the filter keeps the list's order (it distributes over concatenation) |
| View.HeadingDistinguishes | static/script.js:73-81 | equal headings mean both filters are falsy or they are the same label |
| View.SuffixNotAllJobs | static/script.js:76-80 | a label heading is never "All Jobs" |
| View.Flip | static/script.js:145 | a click always changes the direction |
| View.PriorityCompareConsistent | static/script.js:146-150 | the priority comparator is a consistent ordering for either direction |
| View.DateCompareConsistent | static/script.js:155-159 | the date comparator is a consistent ordering for either direction |
| View.PrioritySortOrder | static/script.js:144-151 | the sorted list is a permutation, ascending by priority for `asc` and descending for `desc` |
| View.PrioritySortStable | static/script.js:146-150 | jobs of equal priority keep their relative order |
| View.SortedThenFiltered | static/script.js:146-160 | filtering the sorted list equals sorting the filtered list, and is a permutation of it |
| View.LexCompareConsistent | static/script.js:49 | the default `sort()` order on label strings is total and transitive |
| View.EntriesShape | static/script.js:39-59 | the entries are "All" then one per label in order, with the active flags set |
| View.SidebarLabelsSorted | static/script.js:49 | the label keys are shown sorted, each exactly once |
| View.SidebarShape | static/script.js:34-59 | the sidebar is "All" (active iff no filter) followed by every key in sorted order, each active iff it is the filter |
| View.SidebarAtMostOneActive | static/script.js:34-59 | with distinct keys at most one sidebar entry is active |
| View.ActiveLabel | static/script.js:49-51 | a label entry is active only when it is the filter's label |
| View.EntriesAtMostOneActive | static/script.js:34-59 | with distinct labels at most one of "All" and the label entries is active |
| View.PriorityOptionsSelection | static/script.js:96-103 | the selector offers 0 to 5; exactly one is selected when the shown priority is in 0..5, none otherwise |
| View.DetailsIdsDistinct | static/script.js:116 | different row indices get different `details-` ids |
| View.RowsShape | static/script.js:83-134 | two rows per job in list order: row 2i is job i's summary row, row 2i+1 its details row |
| View.JobRowsDefaults | static/script.js:88-127 | the shown priority defaults to 5 and is the only one selected; a missing or empty company, title, location or date shows "N/A" and a missing summary "No summary available"; the details row shows the same texts, url and technologies |
| Client.Dashboard.constructor | static/script.js:2-8 | no jobs, no labels, no filter, the Anthropic model, both sorts ascending |
| Client.Dashboard.RenderJobs | static/script.js:83-134 | the table body becomes the rows of the given jobs |
| Client.Dashboard.UpdateHeading | static/script.js:73-81 | the heading is "All Jobs" for a falsy filter and the label followed by " jobs" otherwise |
| Client.Dashboard.RenderTechs | static/script.js:34-62 | the sidebar becomes "All" plus the sorted keys with their active flags, at most one active, and the heading is updated |
| Client.Dashboard.LoadJobs | static/script.js:10-19 | a response replaces the jobs and renders them filtered; a failed fetch changes nothing |
| Client.Dashboard.LoadTechs | static/script.js:23-32 | a response replaces the labels and re-renders the sidebar; a failed fetch changes nothing |
| Client.Dashboard.SelectTech | static/script.js:53-57 | clicking a label makes it the filter and re-renders sidebar, heading and rows |
| Client.Dashboard.SelectAll | static/script.js:42-46 | clicking "All" clears the filter, activates "All", shows "All Jobs" and renders every job |
| Client.Dashboard.ClickSortPriority | static/script.js:144-152 | flips the priority direction and renders the filtered, sorted copy; the stored jobs are not reordered |
| Client.Dashboard.ClickSortDate | static/script.js:153-161 | flips the date direction and renders the filtered copy sorted by date key; the stored jobs are not reordered |
| Client.Dashboard.AnalyzeJob | static/script.js:250-269 | an empty url shows "Please enter a URL" and sends nothing; otherwise shows "Analyzing..." and sends the url with the current model |

## Left out

- File I/O is modelled as a field holding the file's lines. Encodings, partial writes, concurrent requests and I/O errors other than a missing file are not modelled.
- `json.loads` and `json.dumps` are abstract. The model assumes they round-trip and that `dumps` writes one line without surrounding whitespace (`JobRecord.WellFormed`).
- JSON `null` and a missing key are both `None`. A parsed line whose JSON is not an object is not modelled; there `.get` would raise.
- Database.JobsFile.Valid: the file is the list that `readlines` returns, and holds only lines that end in `"\n"` with no `"\n"` or `"\r"` before it, as the backend writes them. A file edited by hand, with a last line missing its `"\n"` or with `"\r"` line ends that universal-newline reading would translate, is not modelled.
- Timestamps and dates are parameters rather than clock readings. `ValidTimestamp` only demands what `strftime` guarantees for the round-trip: no `"] "` and no line break. `SaveJobData` and `AnalyzeJob` require it of their timestamp.
- Scraping (requests, BeautifulSoup), the API key check and the language-model call are left out. They are represented by `Analysis.Extraction`. The text cleanup is modelled on the page text that `get_text` returns.
- Analysis.AnalyzeJobPosting: a model reply that is valid JSON containing an `"error"` key is represented by `ExtractionFailed`, since `analyze_job` reports and does not save it, like any other failure.
- FastAPI routing, request models, HTTP status codes other than the 400 for an empty url, and the `/jobs` endpoints' success messages are not modelled.
- `app.py` has no `/techs` route. `Client.Dashboard.LoadTechs` takes the label keys as a parameter, as if some server provided them. Against this backend the request gets a not-found body without `techs`, so `techsData` becomes `undefined` and `renderTechs` throws at `Object.keys` after drawing "All", before the labels and the heading. Every later "All" click throws the same way before re-rendering the rows. That failing path is not modelled; the sidebar, heading and `SelectAll` contracts describe a server that does serve the labels.
- Client.Dashboard.LoadTechs requires distinct keys, because `Object.keys` of an object has none.
- The DOM is abstract: rows, sidebar entries, heading and result message are values, not markup. A label heading is its text, the label followed by " jobs".
- `toggleJobDetails`, the model selector and the About menu are left out, as are `confirm`/`alert` and the client's `deleteJob` and `updatePriority` network calls.
- Client.Dashboard.ClickSortPriority requires every job to have a priority. A missing priority gives `NaN` in the JavaScript comparator, which is not a consistent ordering.
- Client.Dashboard.ClickSortDate takes the date as an abstract integer key (`dateKey`). `Date` parsing and `NaN` dates are not modelled.
- JavaScript's array sort is modelled as a stable insertion sort. ECMAScript requires a stable sort, so the order of the result is the same.
- View.LexCompare orders strings by character code. JavaScript orders by UTF-16 code unit, which differs only for characters outside the Basic Multilingual Plane.
- View.JobRowsDefaults: priorities are integers. A stored non-numeric priority and the loose `==` comparison with the option values are not modelled.
- A stored object is modelled by the eight keys of `JobRecord.Job`. Other keys a stored object may hold, such as extra keys from the model's reply, are not represented, so the model cannot show that `update_job_priority` writes them back unchanged (app.py:119-122).
- Client.Dashboard.constructor: the heading is empty until the first render, because the initial page markup is not modelled.

/**
 * The browser client's pure rules: the technology filter, the heading text,
 * the two sort comparators, the sidebar label list and the projection of
 * job records onto table rows.
 */
module View {
  import opened Wrappers
  import opened Text
  import opened Sequences
  import opened JobRecord

  const AllJobsHeading: string := "All Jobs"
  const HeadingSuffix: string := " jobs"
  const NotAvailable: string := "N/A"
  const NoSummary: string := "No summary available"
  /** What a template literal shows for a missing `url`. */
  const Undefined: string := "undefined"
  /** The priority a row shows for a job without one. */
  const DefaultShownPriority: int := 5
  const DetailsPrefix: string := "details-"

  // ---------------------------------------------------------------------
  // Technology filter

  /** JavaScript truthiness of the filter: `null` and the empty label are falsy. */
  predicate IsFalsy(filter: Option<string>) {
    filter.None? || filter.value == ""
  }

  /** `job.technologies || []`. */
  function TechsOf(job: Job): seq<string> {
    job.technologies.GetOr([])
  }

  function HasTech(tech: string): Job -> bool {
    (job: Job) => tech in TechsOf(job)
  }

  /** `applyTechFilter(list)` under the filter `filter`. */
  function ApplyTechFilter(filter: Option<string>, list: seq<Job>): seq<Job> {
    if IsFalsy(filter) then list else Filter(list, HasTech(filter.value))
  }

  /**
   * A falsy filter returns the list itself; otherwise a job is kept exactly
   * when it is in the list and its technologies name the filter label.
   */
  lemma ApplyTechFilterMembers(filter: Option<string>, list: seq<Job>, job: Job)
    ensures IsFalsy(filter) ==> ApplyTechFilter(filter, list) == list
    ensures !IsFalsy(filter) ==>
              (job in ApplyTechFilter(filter, list) <==> job in list && filter.value in TechsOf(job))
    ensures multiset(ApplyTechFilter(filter, list)) <= multiset(list)
  {
    if !IsFalsy(filter) {
      FilterMembers(list, HasTech(filter.value), job);
      FilterMultiset(list, HasTech(filter.value));
    }
  }

  /** The filter keeps the original order: it distributes over concatenation. */
  lemma ApplyTechFilterAppend(filter: Option<string>, a: seq<Job>, b: seq<Job>)
    ensures ApplyTechFilter(filter, a + b) == ApplyTechFilter(filter, a) + ApplyTechFilter(filter, b)
  {
    if !IsFalsy(filter) {
      FilterAppend(a, b, HasTech(filter.value));
    }
  }

  // ---------------------------------------------------------------------
  // Heading

  /** The text `updateHeading` puts into the table heading. */
  function HeadingText(filter: Option<string>): string {
    if !IsFalsy(filter) then filter.value + HeadingSuffix else AllJobsHeading
  }

  lemma SuffixNotAllJobs(tech: string)
    ensures tech + HeadingSuffix != AllJobsHeading
  {
    var t := tech + HeadingSuffix;
    assert t[|tech| + 1] == 'j';
    assert AllJobsHeading[4] == 'J';
  }

  /** The heading tells the filters apart: equal headings mean both are falsy or both are the same label. */
  lemma HeadingDistinguishes(f: Option<string>, g: Option<string>)
    requires HeadingText(f) == HeadingText(g)
    ensures (IsFalsy(f) && IsFalsy(g)) || f == g
  {
    var h := HeadingText(f);
    if !IsFalsy(f) && !IsFalsy(g) {
      var a, b := f.value, g.value;
      assert |a| == |b|;
      assert a == h[..|a|] == b;
    } else if !IsFalsy(f) {
      SuffixNotAllJobs(f.value);
    } else if !IsFalsy(g) {
      SuffixNotAllJobs(g.value);
    }
  }

  // ---------------------------------------------------------------------
  // Sorting

  datatype Direction = Asc | Desc

  /** What a sort click does to its column's flag. */
  function Flip(d: Direction): (r: Direction)
    ensures r != d
  {
    if d == Asc then Desc else Asc
  }

  /** The priority of a job, and 0 when it has none (the handlers are only modelled for jobs that have one). */
  function PriorityOf(job: Job): int {
    job.priority.GetOr(0)
  }

  /** The comparator of the priority-sort click: `a.priority - b.priority`, reversed for `desc`. */
  function PriorityCompare(dir: Direction): (Job, Job) -> int {
    (a: Job, b: Job) => if dir == Asc then PriorityOf(a) - PriorityOf(b) else PriorityOf(b) - PriorityOf(a)
  }

  /**
   * The comparator of the date-sort click: `new Date(a.date_added) - new
   * Date(b.date_added)`, reversed for `desc`; `dateKey` stands for the date
   * parsing.
   */
  function DateCompare(dir: Direction, dateKey: Option<string> -> int): (Job, Job) -> int {
    (a: Job, b: Job) =>
      if dir == Asc then dateKey(a.dateAdded) - dateKey(b.dateAdded)
      else dateKey(b.dateAdded) - dateKey(a.dateAdded)
  }

  lemma PriorityCompareConsistent(dir: Direction)
    ensures Consistent(PriorityCompare(dir))
  {
  }

  lemma DateCompareConsistent(dir: Direction, dateKey: Option<string> -> int)
    ensures Consistent(DateCompare(dir, dateKey))
  {
  }

  predicate AllPrioritized(jobs: seq<Job>) {
    forall i :: 0 <= i < |jobs| ==> jobs[i].priority.Some?
  }

  function PriorityIs(v: int): Job -> bool {
    (job: Job) => job.priority == Some(v)
  }

  lemma PrioritizedPermutation(jobs: seq<Job>, r: seq<Job>)
    requires multiset(r) == multiset(jobs) && AllPrioritized(jobs)
    ensures AllPrioritized(r)
  {
    forall i | 0 <= i < |r| ensures r[i].priority.Some? {
      assert r[i] in multiset(jobs);
      var k :| 0 <= k < |jobs| && jobs[k] == r[i];
    }
  }

  /**
   * The priority sort returns a rearrangement of its input, in
   * non-decreasing priority for `asc` and non-increasing for `desc`.
   */
  lemma PrioritySortOrder(jobs: seq<Job>, dir: Direction)
    requires AllPrioritized(jobs)
    ensures var r := Sort(jobs, PriorityCompare(dir));
            && multiset(r) == multiset(jobs)
            && AllPrioritized(r)
            && (dir == Asc ==> forall i, j :: 0 <= i < j < |r| ==> r[i].priority.value <= r[j].priority.value)
            && (dir == Desc ==> forall i, j :: 0 <= i < j < |r| ==> r[i].priority.value >= r[j].priority.value)
  {
    var cmp := PriorityCompare(dir);
    var r := Sort(jobs, cmp);
    PrioritizedPermutation(jobs, r);
    PriorityCompareConsistent(dir);
    SortSorted(jobs, cmp);
    forall i, j | 0 <= i < j < |r| ensures PriorityOf(r[i]) - PriorityOf(r[j]) <= 0 <==> dir == Asc || PriorityOf(r[i]) == PriorityOf(r[j]) {
      assert cmp(r[i], r[j]) <= 0;
    }
  }

  /** Stability: the jobs of one priority keep their relative order. */
  lemma PrioritySortStable(jobs: seq<Job>, dir: Direction, v: int)
    ensures Filter(Sort(jobs, PriorityCompare(dir)), PriorityIs(v)) == Filter(jobs, PriorityIs(v))
  {
    PriorityCompareConsistent(dir);
    SortStable(jobs, PriorityCompare(dir), PriorityIs(v));
  }

  /**
   * What a sort click displays, the filtered sorted copy, is the sort of the
   * filtered list; it holds exactly the jobs the filter selects.
   */
  lemma SortedThenFiltered(jobs: seq<Job>, cmp: (Job, Job) -> int, filter: Option<string>)
    requires Consistent(cmp)
    ensures ApplyTechFilter(filter, Sort(jobs, cmp)) == Sort(ApplyTechFilter(filter, jobs), cmp)
    ensures multiset(ApplyTechFilter(filter, Sort(jobs, cmp))) == multiset(ApplyTechFilter(filter, jobs))
  {
    if !IsFalsy(filter) {
      SortFilterCommute(jobs, cmp, HasTech(filter.value));
    }
  }

  // ---------------------------------------------------------------------
  // Sidebar

  /** Code-unit order on strings, as the default `Array.prototype.sort` uses (a prefix first). */
  predicate LexLessEq(a: string, b: string) {
    a == [] || (b != [] && (a[0] < b[0] || (a[0] == b[0] && LexLessEq(a[1..], b[1..]))))
  }

  /** The default sort's comparison of two strings. */
  function LexCompare(a: string, b: string): int {
    if a == b then 0 else if LexLessEq(a, b) then -1 else 1
  }

  lemma {:induction false} LexReflexive(a: string)
    ensures LexLessEq(a, a)
  {
    if a != [] {
      LexReflexive(a[1..]);
    }
  }

  lemma {:induction false} LexTotal(a: string, b: string)
    ensures LexLessEq(a, b) || LexLessEq(b, a)
  {
    if a != [] && b != [] && a[0] == b[0] {
      LexTotal(a[1..], b[1..]);
    }
  }

  lemma {:induction false} LexTransitive(a: string, b: string, c: string)
    requires LexLessEq(a, b) && LexLessEq(b, c)
    ensures LexLessEq(a, c)
  {
    if a != [] && a[0] == b[0] && b[0] == c[0] {
      LexTransitive(a[1..], b[1..], c[1..]);
    }
  }

  /** The string order is a total preorder, so the sidebar sort is well defined. */
  lemma LexCompareConsistent()
    ensures Consistent(LexCompare)
  {
    forall a: string, b: string ensures LexCompare(a, b) <= 0 || LexCompare(b, a) <= 0 {
      LexTotal(a, b);
    }
    forall a: string, b: string, c: string | LexCompare(a, b) <= 0 && LexCompare(b, c) <= 0
      ensures LexCompare(a, c) <= 0
    {
      LexReflexive(a);
      LexReflexive(b);
      LexTransitive(a, b, c);
    }
  }

  /** One entry of the technology sidebar. */
  datatype SidebarEntry = AllEntry(active: bool) | LabelEntry(name: string, active: bool)

  function LabelEntryFor(filter: Option<string>): string -> SidebarEntry {
    (name: string) => LabelEntry(name, Some(name) == filter)
  }

  /** "All", then one entry per label, with the active marks. */
  function Entries(labels: seq<string>, filter: Option<string>): seq<SidebarEntry> {
    [AllEntry(filter.None?)] + Map(labels, LabelEntryFor(filter))
  }

  lemma EntriesSnoc(labels: seq<string>, name: string, filter: Option<string>)
    ensures Entries(labels + [name], filter) == Entries(labels, filter) + [LabelEntry(name, Some(name) == filter)]
  {
    MapAppend(labels, [name], LabelEntryFor(filter));
  }

  /** What `renderTechs` shows: "All", then the sorted keys. */
  function Sidebar(keys: seq<string>, filter: Option<string>): seq<SidebarEntry> {
    Entries(Sort(keys, LexCompare), filter)
  }

  lemma EntriesShape(labels: seq<string>, filter: Option<string>)
    ensures var s := Entries(labels, filter);
            && |s| == |labels| + 1
            && s[0] == AllEntry(filter == None)
            && (forall i :: 0 <= i < |labels| ==> s[i + 1] == LabelEntry(labels[i], Some(labels[i]) == filter))
  {
    var s := Entries(labels, filter);
    var m := Map(labels, LabelEntryFor(filter));
    forall i | 0 <= i < |labels|
      ensures s[i + 1] == LabelEntry(labels[i], Some(labels[i]) == filter)
    {
      assert s[i + 1] == m[i];
    }
  }

  /** The sidebar labels are the keys in sorted order. */
  lemma SidebarLabelsSorted(keys: seq<string>)
    ensures multiset(Sort(keys, LexCompare)) == multiset(keys)
    ensures Sorted(Sort(keys, LexCompare), LexCompare)
  {
    LexCompareConsistent();
    SortSorted(keys, LexCompare);
  }

  /**
   * The sidebar is "All" followed by one entry per key, in sorted order;
   * "All" is active iff there is no filter, a label iff it is the filter.
   */
  lemma SidebarShape(keys: seq<string>, filter: Option<string>)
    ensures var s := Sidebar(keys, filter); var labels := Sort(keys, LexCompare);
            && |s| == |keys| + 1
            && s[0] == AllEntry(filter == None)
            && (forall i :: 0 <= i < |labels| ==> s[i + 1] == LabelEntry(labels[i], Some(labels[i]) == filter))
  {
    SortLength(keys, LexCompare);
    EntriesShape(Sort(keys, LexCompare), filter);
  }

  /** An active label entry is the filter's label. */
  lemma ActiveLabel(labels: seq<string>, filter: Option<string>, i: int)
    requires 0 < i <= |labels|
    ensures |Entries(labels, filter)| == |labels| + 1
    ensures Entries(labels, filter)[i].active ==> filter == Some(labels[i - 1])
  {
    EntriesShape(labels, filter);
    assert Entries(labels, filter)[(i - 1) + 1] == LabelEntry(labels[i - 1], Some(labels[i - 1]) == filter);
  }

  lemma EntriesAtMostOneActive(labels: seq<string>, filter: Option<string>)
    requires Distinct(labels)
    ensures var s := Entries(labels, filter);
            forall i, j :: 0 <= i < j < |s| && s[i].active ==> !s[j].active
  {
    var s := Entries(labels, filter);
    assert |s| == |labels| + 1;
    forall i, j | 0 <= i < j < |s| && s[i].active ensures !s[j].active {
      ActiveLabel(labels, filter, j);
      if i == 0 {
        assert s[0] == AllEntry(filter.None?);
      } else {
        ActiveLabel(labels, filter, i);
        assert labels[i - 1] != labels[j - 1];
      }
    }
  }

  /** With distinct keys, at most one sidebar entry is active. */
  lemma SidebarAtMostOneActive(keys: seq<string>, filter: Option<string>)
    requires Distinct(keys)
    ensures var s := Sidebar(keys, filter);
            forall i, j :: 0 <= i < j < |s| && s[i].active ==> !s[j].active
  {
    var labels := Sort(keys, LexCompare);
    SidebarLabelsSorted(keys);
    DistinctPermutation(keys, labels);
    EntriesAtMostOneActive(labels, filter);
  }

  // ---------------------------------------------------------------------
  // Table rows

  /** `value || fallback` for an optional string field. */
  function OrElse(value: Option<string>, fallback: string): string {
    if value.None? || value.value == "" then fallback else value.value
  }

  /** `${job.url}`: the url, or "undefined" when it is missing. */
  function UrlText(url: Option<string>): string {
    url.GetOr(Undefined)
  }

  /** `job.priority !== undefined ? job.priority : 5`. */
  function ShownPriority(job: Job): int {
    job.priority.GetOr(DefaultShownPriority)
  }

  datatype PriorityOption = PriorityOption(value: int, selected: bool)

  /** The six `<option>`s of the priority selector, 0 to 5. */
  function PriorityOptions(current: int): seq<PriorityOption> {
    seq(6, k requires 0 <= k < 6 => PriorityOption(k, current == k))
  }

  /** The options are 0..5 and exactly one is selected when the shown priority is in 0..5, none otherwise. */
  lemma PriorityOptionsSelection(current: int)
    ensures var o := PriorityOptions(current);
            && |o| == 6
            && (forall k :: 0 <= k < 6 ==> o[k].value == k)
            && (forall i, j :: 0 <= i < 6 && 0 <= j < 6 && o[i].selected && o[j].selected ==> i == j)
            && ((exists k :: 0 <= k < 6 && o[k].selected) <==> 0 <= current <= 5)
  {
    var o := PriorityOptions(current);
    if 0 <= current <= 5 {
      assert o[current].selected;
    }
  }

  datatype Row =
    | SummaryRow(index: nat, tooltip: string, company: string, title: string, location: string,
                 options: seq<PriorityOption>, dateAdded: string, url: string)
    | DetailsRow(detailsId: string, company: string, title: string, location: string,
                 url: string, dateAdded: string, summary: string, technologies: seq<string>)

  function DetailsId(index: nat): string {
    DetailsPrefix + NatToString(index)
  }

  /** Different rows get different detail ids. */
  lemma DetailsIdsDistinct(i: nat, j: nat)
    requires i != j
    ensures DetailsId(i) != DetailsId(j)
  {
    if DetailsId(i) == DetailsId(j) {
      assert NatToString(i) == DetailsId(i)[|DetailsPrefix|..];
      assert NatToString(j) == DetailsId(j)[|DetailsPrefix|..];
      NatToStringInjective(i, j);
    }
  }

  /** The two rows `renderJobs` emits for the job at `index`. */
  function JobRows(index: nat, job: Job): seq<Row> {
    var company := OrElse(job.companyName, NotAvailable);
    var title := OrElse(job.jobTitle, NotAvailable);
    var location := OrElse(job.location, NotAvailable);
    var date := OrElse(job.dateAdded, NotAvailable);
    var summary := OrElse(job.jobSummary, NoSummary);
    [ SummaryRow(index, summary, company, title, location, PriorityOptions(ShownPriority(job)), date, UrlText(job.url)),
      DetailsRow(DetailsId(index), company, title, location, UrlText(job.url), date, summary, TechsOf(job)) ]
  }

  /** The table body for `jobs`, in order. */
  function Rows(jobs: seq<Job>): seq<Row>
    decreases |jobs|
  {
    if jobs == [] then [] else Rows(jobs[..|jobs| - 1]) + JobRows(|jobs| - 1, jobs[|jobs| - 1])
  }

  /**
   * Two rows per job, in the order of the jobs: row `2i` is the summary of
   * job `i` and row `2i + 1` its details, with id `details-i`.
   */
  lemma {:induction false} RowsShape(jobs: seq<Job>)
    ensures |Rows(jobs)| == 2 * |jobs|
    ensures forall i :: 0 <= i < |jobs| ==> Rows(jobs)[2 * i] == JobRows(i, jobs[i])[0]
    ensures forall i :: 0 <= i < |jobs| ==> Rows(jobs)[2 * i + 1] == JobRows(i, jobs[i])[1]
    decreases |jobs|
  {
    if jobs != [] {
      var n := |jobs|;
      var init := jobs[..n - 1];
      RowsShape(init);
      var before, last := Rows(init), JobRows(n - 1, jobs[n - 1]);
      assert Rows(jobs) == before + last;
      forall i | 0 <= i < n
        ensures Rows(jobs)[2 * i] == JobRows(i, jobs[i])[0]
        ensures Rows(jobs)[2 * i + 1] == JobRows(i, jobs[i])[1]
      {
        if i < n - 1 {
          assert init[i] == jobs[i];
          assert Rows(jobs)[2 * i] == before[2 * i];
          assert Rows(jobs)[2 * i + 1] == before[2 * i + 1];
        } else {
          assert Rows(jobs)[2 * i] == last[0];
          assert Rows(jobs)[2 * i + 1] == last[1];
        }
      }
    }
  }

  /**
   * The summary row shows the job's priority selected, and 5 when it has none;
   * in both rows a missing or empty company, title, location or date shows
   * "N/A", and a missing or empty summary "No summary available".
   */
  lemma JobRowsDefaults(index: nat, job: Job)
    ensures var row := JobRows(index, job)[0];
            && (job.priority.None? ==> row.options[5].selected)
            && (forall k :: 0 <= k < 6 ==> (row.options[k].selected <==> Some(k) == job.priority || (job.priority.None? && k == 5)))
            && (row.company == NotAvailable <==> job.companyName.None? || job.companyName.value in {"", NotAvailable})
            && (row.title == NotAvailable <==> job.jobTitle.None? || job.jobTitle.value in {"", NotAvailable})
            && (row.location == NotAvailable <==> job.location.None? || job.location.value in {"", NotAvailable})
            && (row.dateAdded == NotAvailable <==> job.dateAdded.None? || job.dateAdded.value in {"", NotAvailable})
            && (row.tooltip == NoSummary <==> job.jobSummary.None? || job.jobSummary.value in {"", NoSummary})
    ensures var row, details := JobRows(index, job)[0], JobRows(index, job)[1];
            && details.company == row.company && details.title == row.title
            && details.location == row.location && details.dateAdded == row.dateAdded
            && details.summary == row.tooltip && details.url == row.url
            && details.technologies == TechsOf(job)
  {
  }
}

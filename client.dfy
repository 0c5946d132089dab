/**
 * The browser client's state: the loaded jobs and technology keys, the
 * current filter, the selected model and the two sort flags, together with
 * what the page currently shows (table rows, sidebar, heading, result
 * message). Each handler of the script is a method that updates them.
 */
module Client {
  import opened Wrappers
  import opened Sequences
  import opened JobRecord
  import opened View

  const InitialModel: string := "anthropic"
  const EnterUrl: string := "Please enter a URL"
  const Analyzing: string := "Analyzing..."

  /** The body of the `POST /analyze` request. */
  datatype AnalyzeRequest = AnalyzeRequest(url: string, model: string)

  /** The content of the result area. */
  datatype Message = NoMessage | ErrorMessage(text: string) | InfoMessage(text: string)

  class Dashboard {
    var jobsData: seq<Job>
    /** `Object.keys(techsData)`: the technology labels the backend reported. */
    var techsData: seq<string>
    var currentFilterTech: Option<string>
    var currentModel: string
    var sortPriority: Direction
    var sortDate: Direction

    var tableRows: seq<Row>
    var techList: seq<SidebarEntry>
    var heading: string
    var result: Message

    /** The keys of an object are distinct. */
    ghost predicate Valid()
      reads this
    {
      Distinct(techsData)
    }

    /** The state when the script starts, before anything is loaded or shown. */
    constructor ()
      ensures Valid()
      ensures jobsData == [] && techsData == [] && currentFilterTech == None
      ensures currentModel == InitialModel && sortPriority == Asc && sortDate == Asc
      ensures tableRows == [] && techList == [] && heading == [] && result == NoMessage
    {
      jobsData := [];
      techsData := [];
      currentFilterTech := None;
      currentModel := InitialModel;
      sortPriority := Asc;
      sortDate := Asc;
      tableRows := [];
      techList := [];
      heading := [];
      result := NoMessage;
    }

    /** `renderJobs(jobs)`: two rows per job, in order. */
    method RenderJobs(jobs: seq<Job>)
      modifies this`tableRows
      ensures tableRows == Rows(jobs)
    {
      var rows: seq<Row> := [];
      var index := 0;
      while index < |jobs|
        invariant 0 <= index <= |jobs|
        invariant rows == Rows(jobs[..index])
      {
        var job := jobs[index];
        var title := OrElse(job.jobSummary, NoSummary);
        var currentPriority := if job.priority.Some? then job.priority.value else DefaultShownPriority;
        var company := OrElse(job.companyName, NotAvailable);
        var jobTitle := OrElse(job.jobTitle, NotAvailable);
        var location := OrElse(job.location, NotAvailable);
        var dateAdded := OrElse(job.dateAdded, NotAvailable);
        var url := UrlText(job.url);
        var row := SummaryRow(index, title, company, jobTitle, location, PriorityOptions(currentPriority), dateAdded, url);
        var detailsRow := DetailsRow(DetailsId(index), company, jobTitle, location, url, dateAdded, title, TechsOf(job));
        assert jobs[..index + 1][..index] == jobs[..index];
        rows := rows + [row, detailsRow];
        index := index + 1;
      }
      assert jobs[..index] == jobs;
      tableRows := rows;
    }

    /** `updateHeading()`. */
    method UpdateHeading()
      modifies this`heading
      ensures heading == HeadingText(currentFilterTech)
    {
      if !IsFalsy(currentFilterTech) {
        heading := currentFilterTech.value + HeadingSuffix;
      } else {
        heading := AllJobsHeading;
      }
    }

    /**
     * `renderTechs()`: "All", then the sorted keys, at most one of them
     * active; then the heading.
     */
    method RenderTechs()
      requires Valid()
      modifies this`techList, this`heading
      ensures techList == Sidebar(techsData, currentFilterTech)
      ensures forall i, j :: 0 <= i < j < |techList| && techList[i].active ==> !techList[j].active
      ensures heading == HeadingText(currentFilterTech)
    {
      var entries := [AllEntry(currentFilterTech == None)];
      var keys := Sort(techsData, LexCompare);
      var i := 0;
      while i < |keys|
        invariant 0 <= i <= |keys|
        invariant entries == Entries(keys[..i], currentFilterTech)
      {
        var tech := keys[i];
        assert keys[..i + 1] == keys[..i] + [tech];
        EntriesSnoc(keys[..i], tech, currentFilterTech);
        entries := entries + [LabelEntry(tech, Some(tech) == currentFilterTech)];
        i := i + 1;
      }
      assert keys[..i] == keys;
      techList := entries;
      SidebarAtMostOneActive(techsData, currentFilterTech);
      UpdateHeading();
    }

    /** `loadJobs()` with the response of `GET /jobs` (`None` when the request fails). */
    method LoadJobs(response: Option<seq<Job>>)
      modifies this
      ensures response.None? ==> unchanged(this)
      ensures response.Some? ==>
                && jobsData == response.value
                && tableRows == Rows(ApplyTechFilter(currentFilterTech, jobsData))
                && unchanged(this`techsData, this`currentFilterTech, this`currentModel, this`sortPriority,
                             this`sortDate, this`techList, this`heading, this`result)
    {
      match response
      case Some(jobs) =>
        jobsData := jobs;
        RenderJobs(ApplyTechFilter(currentFilterTech, jobsData));
      case None =>
    }

    /** `loadTechs()` with the keys of the `GET /techs` response (`None` when the request fails). */
    method LoadTechs(response: Option<seq<string>>)
      requires Valid()
      requires response.Some? ==> Distinct(response.value)
      modifies this
      ensures Valid()
      ensures response.None? ==> unchanged(this)
      ensures response.Some? ==>
                && techsData == response.value
                && techList == Sidebar(techsData, currentFilterTech)
                && heading == HeadingText(currentFilterTech)
                && unchanged(this`jobsData, this`currentFilterTech, this`currentModel, this`sortPriority,
                             this`sortDate, this`tableRows, this`result)
    {
      match response
      case Some(keys) =>
        techsData := keys;
        RenderTechs();
      case None =>
    }

    /**
     * A click on a technology label: it becomes the filter, and the table is
     * rebuilt from the unsorted jobs.
     */
    method SelectTech(tech: string)
      requires Valid()
      modifies this
      ensures Valid()
      ensures currentFilterTech == Some(tech)
      ensures techList == Sidebar(techsData, currentFilterTech)
      ensures heading == HeadingText(currentFilterTech)
      ensures tableRows == Rows(ApplyTechFilter(currentFilterTech, jobsData))
      ensures unchanged(this`jobsData, this`techsData, this`currentModel, this`sortPriority, this`sortDate, this`result)
    {
      currentFilterTech := Some(tech);
      RenderTechs();
      RenderJobs(ApplyTechFilter(currentFilterTech, jobsData));
    }

    /** A click on "All": no filter, and the table shows every job, unsorted. */
    method SelectAll()
      requires Valid()
      modifies this
      ensures Valid()
      ensures currentFilterTech == None
      ensures techList == Sidebar(techsData, None) && techList[0] == AllEntry(true)
      ensures heading == AllJobsHeading
      ensures tableRows == Rows(jobsData)
      ensures unchanged(this`jobsData, this`techsData, this`currentModel, this`sortPriority, this`sortDate, this`result)
    {
      currentFilterTech := None;
      RenderTechs();
      SidebarShape(techsData, None);
      RenderJobs(ApplyTechFilter(currentFilterTech, jobsData));
    }

    /**
     * A click on the priority header: its flag flips, then a sorted copy of
     * the jobs is filtered and shown. The jobs themselves stay as loaded.
     */
    method ClickSortPriority()
      requires AllPrioritized(jobsData)
      modifies this
      ensures sortPriority == Flip(old(sortPriority))
      ensures var cmp := PriorityCompare(sortPriority);
              && tableRows == Rows(ApplyTechFilter(currentFilterTech, Sort(jobsData, cmp)))
              && tableRows == Rows(Sort(ApplyTechFilter(currentFilterTech, jobsData), cmp))
      ensures unchanged(this`jobsData, this`techsData, this`currentFilterTech, this`currentModel,
                        this`sortDate, this`techList, this`heading, this`result)
    {
      sortPriority := Flip(sortPriority);
      var sorted := Sort(jobsData, PriorityCompare(sortPriority));
      PriorityCompareConsistent(sortPriority);
      SortedThenFiltered(jobsData, PriorityCompare(sortPriority), currentFilterTech);
      RenderJobs(ApplyTechFilter(currentFilterTech, sorted));
    }

    /**
     * A click on the date header: its flag flips, then a copy of the jobs
     * sorted by `dateKey` (the parsed `date_added`) is filtered and shown.
     */
    method ClickSortDate(dateKey: Option<string> -> int)
      modifies this
      ensures sortDate == Flip(old(sortDate))
      ensures var cmp := DateCompare(sortDate, dateKey);
              && tableRows == Rows(ApplyTechFilter(currentFilterTech, Sort(jobsData, cmp)))
              && tableRows == Rows(Sort(ApplyTechFilter(currentFilterTech, jobsData), cmp))
      ensures unchanged(this`jobsData, this`techsData, this`currentFilterTech, this`currentModel,
                        this`sortPriority, this`techList, this`heading, this`result)
    {
      sortDate := Flip(sortDate);
      var sorted := Sort(jobsData, DateCompare(sortDate, dateKey));
      DateCompareConsistent(sortDate, dateKey);
      SortedThenFiltered(jobsData, DateCompare(sortDate, dateKey), currentFilterTech);
      RenderJobs(ApplyTechFilter(currentFilterTech, sorted));
    }

    /**
     * `analyzeJob()` up to the request: an empty input shows an error and
     * sends nothing; otherwise the request carries the url and the current
     * model.
     */
    method AnalyzeJob(url: string) returns (request: Option<AnalyzeRequest>)
      modifies this`result
      ensures url == [] ==> request == None && result == ErrorMessage(EnterUrl)
      ensures url != [] ==> request == Some(AnalyzeRequest(url, currentModel)) && result == InfoMessage(Analyzing)
    {
      if url == [] {
        result := ErrorMessage(EnterUrl);
        return None;
      }
      result := InfoMessage(Analyzing);
      var selectedModel := currentModel;
      request := Some(AnalyzeRequest(url, selectedModel));
    }
  }
}

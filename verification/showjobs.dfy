/**
 * The job list of one project (`show_jobs`, lines 636-669): resolve the workflow name to a level
 * and list the project's jobs at that level as `uid: filename` lines.
 *
 * Unlike the bulk operations, an empty workflow name is not an error here: with no step of that
 * name the level stays `None` and every job is listed.
 */
module ShowJobs {
  import opened Base
  import opened Domain
  import opened Text
  import opened Paging
  import opened Workflow

  datatype ShowOutcome =
    | ShowNotLoggedIn
    | NotSingleProject
    | NoProjectSelected
    | Crashed
    | WorkflowMissing(name: string)
    | ShowFailed(error: ListError, tokenDropped: bool)
    | MissingFilename
    | NoJobs
    | JobLines(text: string)

  /**
   * The level `show_jobs` lists at, or `None` for all levels: "No Workflow" and an unmatched
   * empty name both list every level; an unmatched non-empty name is an error (`Err`).
   */
  function ShowLevel(name: string, steps: seq<WorkflowStep>): (r: Result<Option<int>, string>)
    ensures name == NoWorkflow ==> r == Ok(None)
    ensures name != NoWorkflow && FindStep(steps, name).Some? ==>
              r == Ok(Some(steps[FindStep(steps, name).value].workflowLevel))
    ensures name != NoWorkflow && FindStep(steps, name).None? ==> (r.Err? <==> name != "")
    ensures r.Err? ==> r.error == name
    ensures r == Ok(None) <==> name == NoWorkflow || (name == "" && FindStep(steps, name).None?)
  {
    if name == NoWorkflow then Ok(None)
    else
      match FindStep(steps, name)
      case Some(i) => Ok(Some(steps[i].workflowLevel))
      case None => if name != "" then Err(name) else Ok(None)
  }

  /** The line shown for a job: its uid, a colon and a space, then its file name. */
  function JobLine(j: Job): string
    requires j.filename.Some?
  {
    j.uid + ": " + j.filename.value
  }

  function JobLinesOf(jobs: seq<Job>): (lines: seq<string>)
    requires forall i :: 0 <= i < |jobs| ==> jobs[i].filename.Some?
    ensures |lines| == |jobs| && forall i :: 0 <= i < |jobs| ==> lines[i] == JobLine(jobs[i])
  {
    seq(|jobs|, i requires 0 <= i < |jobs| => JobLine(jobs[i]))
  }

  /** Everything after the project is known: level, listing, and the text shown. */
  function ShowProject(p: Project, name: string, listJobs: (string, JobQuery) -> Result<seq<Job>, ListError>): (r: ShowOutcome)
    ensures ShowLevel(name, p.workflowSteps).Err? <==> r.WorkflowMissing?
    ensures r.WorkflowMissing? ==> r.name == name
    ensures ShowLevel(name, p.workflowSteps).Ok? ==>
              var listed := listJobs(p.uid, JobFilters(ShowLevel(name, p.workflowSteps).value, None));
              && (r.ShowFailed? <==> listed.Err?)
              && (r.ShowFailed? ==> r.error == listed.error)
              && (r.ShowFailed? && r.tokenDropped <==> listed == Err(TokenExpired))
              && (r.NoJobs? <==> listed == Ok([]))
              && (r.MissingFilename? <==> listed.Ok? && exists i :: 0 <= i < |listed.value| && listed.value[i].filename.None?)
              && (r.JobLines? ==> listed.Ok? && listed.value != [] && r.text == Join(JobLinesOf(listed.value), '\n'))
    ensures r.JobLines? || r.NoJobs? || r.ShowFailed? || r.MissingFilename? || r.WorkflowMissing?
  {
    match ShowLevel(name, p.workflowSteps)
    case Err(missing) => WorkflowMissing(missing)
    case Ok(level) =>
      match listJobs(p.uid, JobFilters(level, None))
      case Err(e) => ShowFailed(e, e == TokenExpired)
      case Ok(jobs) =>
        if jobs == [] then NoJobs
        else if exists i :: 0 <= i < |jobs| && jobs[i].filename.None? then MissingFilename
        else JobLines(Join(JobLinesOf(jobs), '\n'))
  }

  /**
   * `show_jobs` as written: with nothing selected it reaches `selected_projects_global[0]` and
   * the callback dies with an `IndexError` before anything is shown.
   */
  function ShowJobsAsWritten(loggedIn: bool, selected: seq<Project>, workflowText: string, space: char -> bool,
                             listJobs: (string, JobQuery) -> Result<seq<Job>, ListError>): (r: ShowOutcome)
    ensures !loggedIn <==> r.ShowNotLoggedIn?
    ensures loggedIn && |selected| > 1 <==> r.NotSingleProject?
    ensures loggedIn && selected == [] <==> r.Crashed?
    ensures loggedIn && |selected| == 1 ==> r == ShowProject(selected[0], Strip(workflowText, space), listJobs)
  {
    if !loggedIn then ShowNotLoggedIn
    else if |selected| > 1 then NotSingleProject
    else if selected == [] then Crashed
    else ShowProject(selected[0], Strip(workflowText, space), listJobs)
  }

  /** Right after logging in, before any search, the show-jobs button crashes. */
  lemma ShowJobsCrashesWithoutSelection(workflowText: string, space: char -> bool,
                                        listJobs: (string, JobQuery) -> Result<seq<Job>, ListError>)
    ensures ShowJobsAsWritten(true, [], workflowText, space, listJobs) == Crashed
  {
  }

  /**
   * `show_jobs` with the missing check the other operations make (lines 677-679 and 315-317):
   * nothing selected is reported like there, and every logged-in call with a selection of
   * at most one project reaches an outcome that is shown to the user.
   */
  function ShowJobs(loggedIn: bool, selected: seq<Project>, workflowText: string, space: char -> bool,
                    listJobs: (string, JobQuery) -> Result<seq<Job>, ListError>): (r: ShowOutcome)
    ensures !r.Crashed?
    ensures !loggedIn <==> r.ShowNotLoggedIn?
    ensures loggedIn && |selected| > 1 <==> r.NotSingleProject?
    ensures loggedIn && selected == [] <==> r.NoProjectSelected?
    ensures loggedIn && |selected| == 1 ==> r == ShowProject(selected[0], Strip(workflowText, space), listJobs)
  {
    if !loggedIn then ShowNotLoggedIn
    else if |selected| > 1 then NotSingleProject
    else if selected == [] then NoProjectSelected
    else ShowProject(selected[0], Strip(workflowText, space), listJobs)
  }

  /** The corrected operation differs from the written one exactly on the empty selection. */
  lemma CorrectionOnlyTouchesEmptySelection(loggedIn: bool, selected: seq<Project>, workflowText: string,
                                            space: char -> bool,
                                            listJobs: (string, JobQuery) -> Result<seq<Job>, ListError>)
    ensures ShowJobs(loggedIn, selected, workflowText, space, listJobs)
            != ShowJobsAsWritten(loggedIn, selected, workflowText, space, listJobs)
            <==> loggedIn && selected == []
  {
  }

  /** An empty workflow name matching no step lists every level (no level filter is sent). */
  lemma EmptyNameListsAllLevels(p: Project, listJobs: (string, JobQuery) -> Result<seq<Job>, ListError>)
    requires forall i :: 0 <= i < |p.workflowSteps| ==> p.workflowSteps[i].name != ""
    ensures ShowLevel("", p.workflowSteps) == Ok(None)
    ensures !ShowProject(p, "", listJobs).WorkflowMissing?
  {
  }
}

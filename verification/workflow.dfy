/**
 * Turning the workflow name the user typed into a level filter for a project, as the bulk
 * status update (lines 694-704) and the bulk download (lines 343-355) do: "No Workflow" means
 * no filter, an empty name or a name that no step of the project carries skips that project.
 */
module Workflow {
  import opened Base
  import opened Domain

  /** The sentinel entry of the workflow list that stands for "every level". */
  const NoWorkflow := "No Workflow"

  /** Step `i` is the first step of `steps` with the given name. */
  predicate FirstNamed(steps: seq<WorkflowStep>, name: string, i: nat) {
    i < |steps| && steps[i].name == name && forall j :: 0 <= j < i ==> steps[j].name != name
  }

  /** The index of the first step with that name, if any. */
  function FindStep(steps: seq<WorkflowStep>, name: string): (r: Option<nat>)
    ensures r.Some? ==> FirstNamed(steps, name, r.value)
    ensures r.None? <==> forall j :: 0 <= j < |steps| ==> steps[j].name != name
    decreases |steps|
  {
    if |steps| == 0 then None
    else if steps[0].name == name then Some(0)
    else
      match FindStep(steps[1..], name)
      case None => None
      case Some(i) => Some(i + 1)
  }

  /** What a bulk operation does with one project for the chosen workflow name. */
  datatype Resolution =
    | AllLevels
    | AtStep(level: int, abbreviation: string)
    | SkipNoName
    | SkipNotFound

  function Resolve(name: string, steps: seq<WorkflowStep>): (r: Resolution)
    ensures r.AllLevels? <==> name == NoWorkflow
    ensures r.SkipNoName? <==> name == ""
    ensures r.SkipNotFound? <==>
              name != NoWorkflow && name != "" && forall j :: 0 <= j < |steps| ==> steps[j].name != name
    ensures r.AtStep? ==>
              exists i: nat :: FirstNamed(steps, name, i)
                          && r == AtStep(steps[i].workflowLevel, steps[i].abbreviation)
  {
    if name == NoWorkflow then AllLevels
    else if name == "" then SkipNoName
    else
      match FindStep(steps, name)
      case None => SkipNotFound
      case Some(i) => AtStep(steps[i].workflowLevel, steps[i].abbreviation)
  }

  /** Why a bulk operation passes over a project, as its report line says. */
  datatype SkipReason = NoWorkflowName | WorkflowNotFound

  /** The level filter a resolution hands to `list_jobs` and to the per-job skip check. */
  function LevelFilter(r: Resolution): (level: Option<int>)
    requires r.AllLevels? || r.AtStep?
    ensures r.AllLevels? ==> level.None?
    ensures r.AtStep? ==> level == Some(r.level)
  {
    if r.AtStep? then Some(r.level) else None
  }

  /** The abbreviation the download appends to folder and file names ("" without a workflow). */
  function Abbreviation(r: Resolution): (abbr: string)
    requires r.AllLevels? || r.AtStep?
    ensures r.AllLevels? ==> abbr == ""
    ensures r.AtStep? ==> abbr == r.abbreviation
  {
    if r.AtStep? then r.abbreviation else ""
  }

  /** A project whose only step is Translation at level 1 resolves that name to level 1 and skips any other. */
  lemma TranslationExample(other: string)
    requires other != "Translation" && other != NoWorkflow && other != ""
    ensures Resolve("Translation", [WorkflowStep("Translation", 1, "T")]) == AtStep(1, "T")
    ensures Resolve(other, [WorkflowStep("Translation", 1, "T")]) == SkipNotFound
  {
    var steps := [WorkflowStep("Translation", 1, "T")];
    assert FindStep(steps, "Translation") == Some(0);
  }
}

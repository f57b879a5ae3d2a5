/** The records the translation-management API hands back, as the client reads them. */
module Domain {
  import opened Base

  /**
   * One stage of a project's workflow. A missing or null `abbreviation` is read as "": the
   * client defaults a missing one to the empty string and treats null and empty alike.
   */
  datatype WorkflowStep = WorkflowStep(name: string, workflowLevel: int, abbreviation: string)

  datatype Owner = Owner(firstName: string, lastName: string)

  /**
   * A project record as one page of the project listing returns it: `targetLangs` may be absent.
   * An absent `workflowSteps` is read as the empty list, as every reader of it does.
   */
  datatype RawProject = RawProject(
    uid: string,
    name: string,
    internalId: int,
    dateCreated: string,
    owner: Owner,
    targetLangs: Option<seq<string>>,
    workflowSteps: seq<WorkflowStep>)

  /** A project after the listing has filled in its missing target languages. */
  datatype Project = Project(
    uid: string,
    name: string,
    internalId: int,
    dateCreated: string,
    owner: Owner,
    targetLangs: seq<string>,
    workflowSteps: seq<WorkflowStep>)

  /** A job of a project; `filename` and `workflowLevel` are read with `.get` and may be absent. */
  datatype Job = Job(uid: string, filename: Option<string>, workflowLevel: Option<int>)
}

/**
 * The bulk status change (`update_all_jobs_status`, lines 672-756, with `update_job_status`,
 * lines 464-496): for every selected project, resolve the workflow, list its jobs at that level,
 * and request the new status for each job in batches of 50, tallying successes and failures.
 *
 * The job listing is the parameter `listJobs` (project uid and query to the listing's outcome);
 * the status request is the parameter `send` (project uid, job uid, status to the request's
 * reply, or `Err(text)` for an exception escaping `update_job_status`).
 */
module BulkUpdate {
  import opened Base
  import opened Domain
  import opened Text
  import opened Paging
  import opened Workflow

  /** Jobs are processed in consecutive batches of this many. */
  const BatchSize: nat := 50
  /** Worker threads per batch: 50, or the batch's size when it is smaller. */
  const UpdatePoolMax: nat := 50

  /**
   * The batches of `s`, taken `n` at a time from the front: consecutive slices that together are `s`, each
   * non-empty and at most `n` long, all but the last exactly `n` long.
   */
  function Chunks<T>(s: seq<T>, n: nat): (r: seq<seq<T>>)
    requires n > 0
    ensures Flatten(r) == s
    ensures forall i :: 0 <= i < |r| ==> 0 < |r[i]| <= n
    ensures forall i :: 0 <= i < |r| - 1 ==> |r[i]| == n
    ensures |r| == (|s| + n - 1) / n
    decreases |s|
  {
    if |s| == 0 then []
    else if |s| <= n then
      assert s + [] == s;
      [s]
    else
      var rest := Chunks(s[n..], n);
      ChunksCons(s, n, rest);
      [s[..n]] + rest
  }

  /** A full first batch in front of the batches of the remainder. */
  lemma ChunksCons<T>(s: seq<T>, n: nat, rest: seq<seq<T>>)
    requires 0 < n < |s|
    requires Flatten(rest) == s[n..]
    requires forall i :: 0 <= i < |rest| ==> 0 < |rest[i]| <= n
    requires forall i :: 0 <= i < |rest| - 1 ==> |rest[i]| == n
    requires |rest| == (|s| - n + n - 1) / n
    ensures Flatten([s[..n]] + rest) == s
    ensures forall i :: 0 <= i < |rest| + 1 ==> 0 < |([s[..n]] + rest)[i]| <= n
    ensures forall i :: 0 <= i < |rest| ==> |([s[..n]] + rest)[i]| == n
    ensures |rest| + 1 == (|s| + n - 1) / n
  {
    var r := [s[..n]] + rest;
    assert r[0] == s[..n] && r[1..] == rest;
    assert s[..n] + s[n..] == s;
    assert forall i :: 1 <= i < |r| ==> r[i] == rest[i - 1];
    DivShift(|s| + n - 1, n);
  }

  lemma DivShift(a: nat, n: nat)
    requires n > 0 && a >= n
    ensures a / n == (a - n) / n + 1
  {
    var q := (a - n) / n;
    var r := (a - n) % n;
    assert a == (q + 1) * n + r by {
      assert a - n == q * n + r;
    }
    DivUnique(a, n, q + 1, r);
  }

  lemma DivUnique(a: int, n: int, q: int, r: int)
    requires n > 0 && 0 <= r < n && a == q * n + r
    ensures a / n == q
  {
    var q0 := a / n;
    var r0 := a % n;
    assert a == q0 * n + r0;
    assert q0 + 1 <= q ==> (q0 + 1) * n <= q * n;
    assert q + 1 <= q0 ==> (q + 1) * n <= q0 * n;
  }

  /** A batch of 120 jobs' worth is split 50, 50, 20. */
  lemma ChunksOf120<T>(s: seq<T>)
    requires |s| == 120
    ensures |Chunks(s, BatchSize)| == 3
    ensures |Chunks(s, BatchSize)[0]| == 50 && |Chunks(s, BatchSize)[1]| == 50 && |Chunks(s, BatchSize)[2]| == 20
  {
    var r := Chunks(s, BatchSize);
    var r1 := Chunks(s[50..], BatchSize);
    var r2 := Chunks(s[50..][50..], BatchSize);
    assert r == [s[..50]] + r1;
    assert r1 == [s[50..][..50]] + r2;
    assert r2 == [s[50..][50..]];
  }

  /** The pool size of one batch: at least one worker for a non-empty batch, at most `limit`. */
  function PoolSize(limit: nat, count: nat): (workers: nat)
    ensures workers <= limit && workers <= count
    ensures count > 0 && limit > 0 ==> workers >= 1
    ensures workers == limit || workers == count
  {
    Min(limit, count)
  }

  /** Every batch of a job list is given between 1 and 50 workers. */
  lemma BatchPoolsArePositive<T>(jobs: seq<T>)
    ensures forall b :: b in Chunks(jobs, BatchSize) ==> 1 <= PoolSize(UpdatePoolMax, |b|) <= UpdatePoolMax
  {
  }

  /** What the status request returned, before it is turned into text. */
  datatype Reply =
    | StatusSet
    | Unauthorized
    | HttpFailure(detail: string)
    | NetworkFailure(detail: string)

  const Success := "Status updated successfully"
  const SkipPrefix := "跳過"
  const FailPrefix := "更新失敗: "

  /** The string `update_job_status` returns. */
  function ReplyText(r: Reply): (text: string)
    ensures text == Success <==> r.StatusSet?
    ensures r.Unauthorized? ==> text == "Token expired"
    ensures r.HttpFailure? ==> text == "HTTP error: " + r.detail
    ensures r.NetworkFailure? ==> text == "Request error: " + r.detail
  {
    match r
    case StatusSet => Success
    case Unauthorized => "Token expired"
    case HttpFailure(detail) =>
      assert ("HTTP error: " + detail)[0] == 'H';
      "HTTP error: " + detail
    case NetworkFailure(detail) =>
      assert ("Request error: " + detail)[0] == 'R';
      "Request error: " + detail
  }

  /** The job's level as Python prints it, "None" when it is missing. */
  function LevelText(level: Option<int>): string {
    match level
    case None => "None"
    case Some(l) => IntToString(l)
  }

  /**
   * One job's line of the report. `reply` is the status request's outcome, or `None` when the
   * job was skipped without a request.
   */
  datatype JobResult = JobResult(uid: string, filename: string, message: string, reply: Option<Result<Reply, string>>)

  /** A job is skipped when a level was chosen and the job is not at exactly that level. */
  predicate SkipsJob(job: Job, level: Option<int>) {
    level.Some? && job.workflowLevel != level
  }

  /** The text reported for a request: the success message, or the failure prefix and the error. */
  function ReplyMessage(reply: Result<Reply, string>): (m: string)
    ensures m == Success <==> reply == Ok(StatusSet)
    ensures m != Success ==> FailPrefix <= m
  {
    match reply
    case Ok(r) =>
      var text := ReplyText(r);
      assert (FailPrefix + text)[0] == '更';
      if text == Success then text else FailPrefix + text
    case Err(detail) =>
      assert (FailPrefix + detail)[0] == '更';
      FailPrefix + detail
  }

  /** `update_single_job`. */
  function UpdateSingle(projectUid: string, job: Job, level: Option<int>, status: string,
                        send: (string, string, string) -> Result<Reply, string>): (r: JobResult)
    ensures r.uid == job.uid && r.filename == job.filename.GetOr("N/A")
    ensures r.reply.None? <==> SkipsJob(job, level)
    ensures r.reply.None? ==> r.message == SkipPrefix + ": 屬於工作流程層級 " + LevelText(job.workflowLevel)
    ensures r.reply.Some? ==> r.reply.value == send(projectUid, job.uid, status) && r.message == ReplyMessage(r.reply.value)
  {
    var filename := job.filename.GetOr("N/A");
    if SkipsJob(job, level) then
      JobResult(job.uid, filename, SkipPrefix + ": 屬於工作流程層級 " + LevelText(job.workflowLevel), None)
    else
      var reply := send(projectUid, job.uid, status);
      JobResult(job.uid, filename, ReplyMessage(reply), Some(reply))
  }

  /** A skipped job's line does not depend on the server at all. */
  lemma SkipMakesNoRequest(projectUid: string, job: Job, level: Option<int>, status: string,
                           send1: (string, string, string) -> Result<Reply, string>,
                           send2: (string, string, string) -> Result<Reply, string>)
    requires SkipsJob(job, level)
    ensures UpdateSingle(projectUid, job, level, status, send1) == UpdateSingle(projectUid, job, level, status, send2)
  {
  }

  /** The running counts of lines 742-745. */
  datatype Tally = Tally(success: nat, fail: nat)

  function Add(a: Tally, b: Tally): Tally {
    Tally(a.success + b.success, a.fail + b.fail)
  }

  /** One message's contribution: a success, else a failure unless it is a skip. */
  function Count(message: string): Tally {
    if message == Success then Tally(1, 0)
    else if !(SkipPrefix <= message) then Tally(0, 1)
    else Tally(0, 0)
  }

  /** The counts over the messages, as the loop accumulates them. */
  function TallyMessages(ms: seq<string>): Tally
    decreases |ms|
  {
    if |ms| == 0 then Tally(0, 0) else Add(Count(ms[0]), TallyMessages(ms[1..]))
  }

  /**
   * What the tally counts: the successes are the messages equal to the success text, each
   * message counts at most once, and when no message is a skip every message counts.
   */
  lemma {:induction false} TallyCounts(ms: seq<string>)
    ensures TallyMessages(ms).success == multiset(ms)[Success]
    ensures TallyMessages(ms).success + TallyMessages(ms).fail <= |ms|
    ensures (forall i :: 0 <= i < |ms| ==> !(SkipPrefix <= ms[i])) ==>
              TallyMessages(ms).success + TallyMessages(ms).fail == |ms|
    decreases |ms|
  {
    if |ms| > 0 {
      TallyCounts(ms[1..]);
      assert ms == [ms[0]] + ms[1..];
      assert forall i :: 1 <= i < |ms| ==> ms[1..][i - 1] == ms[i];
    }
  }

  /** Counting a concatenation is adding the counts: batches can be tallied one after another. */
  lemma {:induction false} TallyAppend(a: seq<string>, b: seq<string>)
    ensures TallyMessages(a + b) == Add(TallyMessages(a), TallyMessages(b))
    decreases |a|
  {
    if |a| > 0 {
      assert (a + b)[1..] == a[1..] + b;
      TallyAppend(a[1..], b);
    } else {
      assert a + b == b;
    }
  }

  /**
   * The counts do not depend on the order the messages arrive in: `as_completed` may report a
   * batch's jobs in any order.
   */
  lemma {:induction false} TallyPermutation(a: seq<string>, b: seq<string>)
    requires multiset(a) == multiset(b)
    ensures TallyMessages(a) == TallyMessages(b)
    decreases |a|
  {
    if |a| == 0 {
      assert |b| == |multiset(b)| == 0;
    } else {
      var x := a[0];
      assert x in multiset(b);
      var k :| 0 <= k < |b| && b[k] == x;
      var u, w := b[..k], b[k + 1..];
      assert b == u + [x] + w;
      RemoveMiddle(u, x, w, b);
      MultisetRemoveMiddle(u, x, w, b);
      TallySingle(x);
      assert a == [x] + a[1..];
      assert multiset(a[1..]) == multiset(a) - multiset{x};
      TallyPermutation(a[1..], u + w);
    }
  }

  /** Taking one message out of a list takes its count out of the tally. */
  lemma RemoveMiddle(u: seq<string>, x: string, w: seq<string>, b: seq<string>)
    requires b == u + [x] + w
    ensures TallyMessages(b) == Add(TallyMessages([x]), TallyMessages(u + w))
  {
    TallyAppend(u + [x], w);
    TallyAppend(u, [x]);
    TallyAppend(u, w);
  }

  lemma MultisetRemoveMiddle<T>(u: seq<T>, x: T, w: seq<T>, b: seq<T>)
    requires b == u + [x] + w
    ensures multiset(u + w) == multiset(b) - multiset{x}
  {
  }

  lemma TallySingle(x: string)
    ensures TallyMessages([x]) == Count(x)
  {
    assert [x][1..] == [];
  }

  function Messages(rs: seq<JobResult>): (ms: seq<string>)
    ensures |ms| == |rs| && forall i :: 0 <= i < |rs| ==> ms[i] == rs[i].message
  {
    seq(|rs|, i requires 0 <= i < |rs| => rs[i].message)
  }

  function CountUpdated(rs: seq<JobResult>): nat
    decreases |rs|
  {
    if |rs| == 0 then 0 else (if rs[0].reply == Some(Ok(StatusSet)) then 1 else 0) + CountUpdated(rs[1..])
  }

  function CountFailed(rs: seq<JobResult>): nat
    decreases |rs|
  {
    if |rs| == 0 then 0
    else (if rs[0].reply.Some? && rs[0].reply != Some(Ok(StatusSet)) then 1 else 0) + CountFailed(rs[1..])
  }

  function CountSkipped(rs: seq<JobResult>): nat
    decreases |rs|
  {
    if |rs| == 0 then 0 else (if rs[0].reply.None? then 1 else 0) + CountSkipped(rs[1..])
  }

  /** Every job falls in exactly one of the three counts. */
  lemma {:induction false} CountsCoverJobs(rs: seq<JobResult>)
    ensures CountUpdated(rs) + CountFailed(rs) + CountSkipped(rs) == |rs|
    decreases |rs|
  {
    if |rs| > 0 {
      CountsCoverJobs(rs[1..]);
    }
  }

  /** The line's message agrees with its reply, as `UpdateSingle` produces it. */
  predicate Consistent(r: JobResult) {
    && (r.reply.None? ==> SkipPrefix <= r.message)
    && (r.reply.Some? ==> r.message == ReplyMessage(r.reply.value))
  }

  lemma ConsistentCount(r: JobResult)
    requires Consistent(r)
    ensures Count(r.message) == Tally(if r.reply == Some(Ok(StatusSet)) then 1 else 0,
                                      if r.reply.Some? && r.reply != Some(Ok(StatusSet)) then 1 else 0)
  {
    if r.reply.None? {
      assert r.message[..|SkipPrefix|] == SkipPrefix;
      assert r.message[0] == '跳';
    } else if r.message != Success {
      assert r.message[0] == '更';
    }
  }

  /**
   * Tallying by message text, as lines 742-745 do, counts exactly the requests that set the
   * status as successes and every other request as a failure; skipped jobs count as neither.
   */
  lemma {:induction false} TallyCountsReplies(rs: seq<JobResult>)
    requires forall i :: 0 <= i < |rs| ==> Consistent(rs[i])
    ensures TallyMessages(Messages(rs)) == Tally(CountUpdated(rs), CountFailed(rs))
    decreases |rs|
  {
    if |rs| > 0 {
      ConsistentCount(rs[0]);
      assert Messages(rs)[1..] == Messages(rs[1..]);
      TallyCountsReplies(rs[1..]);
    }
  }

  function MapEach<A, B>(f: A -> B, xss: seq<seq<A>>): (yss: seq<seq<B>>)
    ensures |yss| == |xss| && forall i :: 0 <= i < |xss| ==> yss[i] == MapSeq(f, xss[i])
  {
    seq(|xss|, i requires 0 <= i < |xss| => MapSeq(f, xss[i]))
  }

  /** Processing batch by batch and concatenating is processing the whole list at once. */
  lemma {:induction false} MapOverBatches<A, B>(f: A -> B, xss: seq<seq<A>>)
    ensures Flatten(MapEach(f, xss)) == MapSeq(f, Flatten(xss))
    decreases |xss|
  {
    if |xss| > 0 {
      MapOverBatches(f, xss[1..]);
      assert MapEach(f, xss)[1..] == MapEach(f, xss[1..]);
      MapAppend(f, xss[0], Flatten(xss[1..]));
    }
  }

  lemma MapAppend<A, B>(f: A -> B, a: seq<A>, b: seq<A>)
    ensures MapSeq(f, a + b) == MapSeq(f, a) + MapSeq(f, b)
  {
  }

  /** What the report says about one project. */
  datatype ProjectReport =
    | ProjectSkipped(name: string, reason: SkipReason)
    | NoJobsFound(name: string)
    | ProjectFailed(name: string, error: ListError)
    | ProjectDone(name: string, results: seq<JobResult>, tally: Tally)

  /** The listing request for a resolved project: level filter from the workflow, no language. */
  function ProjectJobQuery(r: Resolution): JobQuery
    requires r.AllLevels? || r.AtStep?
  {
    JobFilters(LevelFilter(r), None)
  }

  /**
   * The batch loop over one project's listed jobs: one line per job, in job order, and the
   * tally of lines 742-745, which counts exactly the successful and the failed requests.
   */
  function RunBatches(p: Project, jobs: seq<Job>, level: Option<int>, status: string,
                      send: (string, string, string) -> Result<Reply, string>): (r: ProjectReport)
    ensures r.ProjectDone? && r.name == p.name
    ensures |r.results| == |jobs|
    ensures forall i :: 0 <= i < |jobs| ==> r.results[i] == UpdateSingle(p.uid, jobs[i], level, status, send)
    ensures r.tally == Tally(CountUpdated(r.results), CountFailed(r.results))
  {
    var single := (job: Job) => UpdateSingle(p.uid, job, level, status, send);
    var batches := Chunks(jobs, BatchSize);
    var results := Flatten(MapEach(single, batches));
    MapOverBatches(single, batches);
    var tally := TallyMessages(Messages(results));
    TallyCountsReplies(results);
    ProjectDone(p.name, results, tally)
  }

  /**
   * One project of the loop. A project whose workflow does not resolve is skipped; a failed
   * listing reports that project's error; an empty listing says so; otherwise the listed jobs
   * go through the batches.
   */
  function UpdateProject(p: Project, workflowName: string, status: string,
                         listJobs: (string, JobQuery) -> Result<seq<Job>, ListError>,
                         send: (string, string, string) -> Result<Reply, string>): (r: ProjectReport)
    ensures r.name == p.name
    ensures r == ProjectSkipped(p.name, NoWorkflowName) <==> Resolve(workflowName, p.workflowSteps).SkipNoName?
    ensures r == ProjectSkipped(p.name, WorkflowNotFound) <==> Resolve(workflowName, p.workflowSteps).SkipNotFound?
    ensures !r.ProjectSkipped? ==>
              var res := Resolve(workflowName, p.workflowSteps);
              var listed := listJobs(p.uid, ProjectJobQuery(res));
              && (r.ProjectFailed? <==> listed.Err?)
              && (r.ProjectFailed? ==> r.error == listed.error)
              && (r.NoJobsFound? <==> listed == Ok([]))
              && (r.ProjectDone? ==> listed.Ok? && listed.value != []
                                     && r == RunBatches(p, listed.value, LevelFilter(res), status, send))
  {
    var res := Resolve(workflowName, p.workflowSteps);
    match res
    case SkipNoName => ProjectSkipped(p.name, NoWorkflowName)
    case SkipNotFound => ProjectSkipped(p.name, WorkflowNotFound)
    case _ =>
      match listJobs(p.uid, ProjectJobQuery(res))
      case Err(e) => ProjectFailed(p.name, e)
      case Ok(jobs) =>
        if jobs == [] then NoJobsFound(p.name)
        else RunBatches(p, jobs, LevelFilter(res), status, send)
  }

  /** With a level chosen, every job at another level (or without one) is skipped. */
  lemma OtherLevelsAreSkipped(p: Project, workflowName: string, status: string,
                              listJobs: (string, JobQuery) -> Result<seq<Job>, ListError>,
                              send: (string, string, string) -> Result<Reply, string>, i: nat)
    requires UpdateProject(p, workflowName, status, listJobs, send).ProjectDone?
    requires Resolve(workflowName, p.workflowSteps).AtStep?
    requires i < |UpdateProject(p, workflowName, status, listJobs, send).results|
    ensures var res := Resolve(workflowName, p.workflowSteps);
            var job := listJobs(p.uid, ProjectJobQuery(res)).value[i];
            var line := UpdateProject(p, workflowName, status, listJobs, send).results[i];
            line.reply.None? <==> job.workflowLevel != Some(res.level)
  {
  }

  /** Did this project's work drop the stored token (a 401 from the listing or from a request)? */
  predicate DropsToken(r: ProjectReport) {
    || (r.ProjectFailed? && r.error == TokenExpired)
    || (r.ProjectDone? && exists j :: 0 <= j < |r.results| && r.results[j].reply == Some(Ok(Unauthorized)))
  }

  datatype BulkOutcome =
    | UpdateNotLoggedIn
    | UpdateNoProjects
    | NoStatusChosen
    | Processed(reports: seq<ProjectReport>, tokenDropped: bool)

  function UpdateEach(projects: seq<Project>, workflowName: string, status: string,
                      listJobs: (string, JobQuery) -> Result<seq<Job>, ListError>,
                      send: (string, string, string) -> Result<Reply, string>): (reports: seq<ProjectReport>)
    ensures |reports| == |projects|
    ensures forall i :: 0 <= i < |projects| ==> reports[i] == UpdateProject(projects[i], workflowName, status, listJobs, send)
  {
    seq(|projects|, i requires 0 <= i < |projects| => UpdateProject(projects[i], workflowName, status, listJobs, send))
  }

  /**
   * `update_all_jobs_status`: after the log-in, selection and status checks, every selected
   * project is processed in order and gets one report; a skip or an error in one project does
   * not stop the others. The stored token is dropped iff some listing or request met a 401.
   */
  function UpdateAll(loggedIn: bool, selected: seq<Project>, workflowText: string, status: string,
                     space: char -> bool,
                     listJobs: (string, JobQuery) -> Result<seq<Job>, ListError>,
                     send: (string, string, string) -> Result<Reply, string>): (r: BulkOutcome)
    ensures r.UpdateNotLoggedIn? <==> !loggedIn
    ensures r.UpdateNoProjects? <==> loggedIn && selected == []
    ensures r.NoStatusChosen? <==> loggedIn && selected != [] && status == ""
    ensures r.Processed? ==>
              && |r.reports| == |selected|
              && (forall i :: 0 <= i < |selected| ==>
                    r.reports[i] == UpdateProject(selected[i], Strip(workflowText, space), status, listJobs, send))
              && (r.tokenDropped <==> exists i :: 0 <= i < |r.reports| && DropsToken(r.reports[i]))
  {
    if !loggedIn then UpdateNotLoggedIn
    else if selected == [] then UpdateNoProjects
    else
      var workflowName := Strip(workflowText, space);
      if status == "" then NoStatusChosen
      else
        var reports := UpdateEach(selected, workflowName, status, listJobs, send);
        Processed(reports, exists i :: 0 <= i < |reports| && DropsToken(reports[i]))
  }
}

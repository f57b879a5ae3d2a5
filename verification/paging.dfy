/**
 * The paging loops of `list_projects` and `list_jobs`: request page 0, 1, 2, ... and keep the
 * items of each page, until a page reports that it is at or past the last one.
 *
 * The server is the parameter `fetch`, from page index to response. A response carries the
 * page's items and its `totalPages` field (absent means 1), or is an HTTP error status, or a
 * request (network) failure. The loop ends only once the server reports a last page or fails;
 * the ghost parameter `stop` names one page where that happens, and the result does not depend
 * on which such page is named (`WalkIgnoresStop`).
 */
module Paging {
  import opened Base
  import opened Domain

  datatype Response<R> = Page(items: seq<R>, totalPages: Option<int>) | HttpError(status: int) | RequestError

  /** Why a listing failed; an authentication failure is told apart from everything else. */
  datatype Cause = HttpStatus(status: int) | Network
  datatype ListError = TokenExpired | ListFailed(cause: Cause)

  /** The outcome of one listing and the number of page requests it made. */
  datatype Listing<T> = Listing(result: Result<seq<T>, ListError>, fetches: nat)

  /** The page count a response reports, 1 when it reports none. */
  function TotalPages<R>(resp: Response<R>): int
    requires resp.Page?
  {
    resp.totalPages.GetOr(1)
  }

  /** The loop's exit test, made after the page's items are kept: this page is the last one or past it. */
  predicate IsLast<R>(resp: Response<R>, page: nat) {
    resp.Page? && page >= TotalPages(resp) - 1
  }

  /** The loop ends at `page`: either the page is the last one, or requesting it raised. */
  predicate Stops<R>(resp: Response<R>, page: nat) {
    !resp.Page? || IsLast(resp, page)
  }

  /** The exception a failed request turns into; only status 401 reads as an expired token. */
  function Classify<R>(resp: Response<R>): (e: ListError)
    requires !resp.Page?
    ensures e == TokenExpired <==> resp == HttpError(401)
    ensures resp.RequestError? ==> e == ListFailed(Network)
    ensures resp.HttpError? && resp.status != 401 ==> e == ListFailed(HttpStatus(resp.status))
  {
    match resp
    case HttpError(status) => if status == 401 then TokenExpired else ListFailed(HttpStatus(status))
    case RequestError => ListFailed(Network)
  }

  function MapSeq<R, T>(f: R -> T, xs: seq<R>): (ys: seq<T>)
    ensures |ys| == |xs| && forall i :: 0 <= i < |xs| ==> ys[i] == f(xs[i])
  {
    seq(|xs|, i requires 0 <= i < |xs| => f(xs[i]))
  }

  /** The items of the `n` pages `from`, `from + 1`, ..., in page order, each passed through `norm`. */
  function Collected<R, T>(fetch: nat -> Response<R>, norm: R -> T, from: nat, n: nat): seq<T>
    requires forall p :: from <= p < from + n ==> fetch(p).Page?
    decreases n
  {
    if n == 0 then [] else MapSeq(norm, fetch(from).items) + Collected(fetch, norm, from + 1, n - 1)
  }

  /**
   * The loop from page `page` on. It requests consecutive pages until the first one where it
   * stops; it returns every item of the pages it requested when that page was a successful last
   * page, and the classified error (with nothing from the earlier pages) when it failed.
   */
  function Walk<R, T>(fetch: nat -> Response<R>, norm: R -> T, page: nat, ghost stop: nat): (l: Listing<T>)
    requires page <= stop && Stops(fetch(stop), stop)
    ensures 1 <= l.fetches <= stop - page + 1
    ensures forall p :: page <= p < page + l.fetches - 1 ==> fetch(p).Page? && !IsLast(fetch(p), p)
    ensures Stops(fetch(page + l.fetches - 1), page + l.fetches - 1)
    ensures l.result.Ok? <==> fetch(page + l.fetches - 1).Page?
    ensures l.result.Ok? ==> l.result.value == Collected(fetch, norm, page, l.fetches)
    ensures l.result.Err? ==> l.result.error == Classify(fetch(page + l.fetches - 1))
    decreases stop - page
  {
    var resp := fetch(page);
    match resp
    case HttpError(status) => Listing(Err(Classify(resp)), 1)
    case RequestError => Listing(Err(Classify(resp)), 1)
    case Page(items, _) =>
      if page >= TotalPages(resp) - 1 then
        Listing(Ok(MapSeq(norm, items)), 1)
      else
        var rest := Walk(fetch, norm, page + 1, stop);
        var result := match rest.result
          case Ok(more) => Ok(MapSeq(norm, items) + more)
          case Err(e) => Err(e);
        Listing(result, rest.fetches + 1)
  }

  /** The whole loop: it starts at page 0. */
  function ListAll<R, T>(fetch: nat -> Response<R>, norm: R -> T, ghost stop: nat): (l: Listing<T>)
    requires Stops(fetch(stop), stop)
    ensures 1 <= l.fetches <= stop + 1
    ensures forall p :: 0 <= p < l.fetches - 1 ==> fetch(p).Page? && !IsLast(fetch(p), p)
    ensures Stops(fetch(l.fetches - 1), l.fetches - 1)
    ensures l.result.Ok? <==> fetch(l.fetches - 1).Page?
    ensures l.result.Ok? ==> l.result.value == Collected(fetch, norm, 0, l.fetches)
    ensures l.result.Err? ==> l.result.error == Classify(fetch(l.fetches - 1))
  {
    Walk(fetch, norm, 0, stop)
  }

  /** Two pages that are each the first place the loop stops from `page` are the same page. */
  lemma FirstStopIsUnique<R>(fetch: nat -> Response<R>, page: nat, a: nat, b: nat)
    requires page <= a && Stops(fetch(a), a) && forall p :: page <= p < a ==> fetch(p).Page? && !IsLast(fetch(p), p)
    requires page <= b && Stops(fetch(b), b) && forall p :: page <= p < b ==> fetch(p).Page? && !IsLast(fetch(p), p)
    ensures a == b
  {
  }

  /** Any page where the loop would stop gives the same listing. */
  lemma {:induction false} WalkIgnoresStop<R, T>(fetch: nat -> Response<R>, norm: R -> T, page: nat, stop1: nat, stop2: nat)
    requires page <= stop1 && Stops(fetch(stop1), stop1)
    requires page <= stop2 && Stops(fetch(stop2), stop2)
    ensures Walk(fetch, norm, page, stop1) == Walk(fetch, norm, page, stop2)
  {
    var l1, l2 := Walk(fetch, norm, page, stop1), Walk(fetch, norm, page, stop2);
    FirstStopIsUnique(fetch, page, page + l1.fetches - 1, page + l2.fetches - 1);
  }

  /** `list_projects` keeps every field and gives a project without target languages an empty list of them. */
  function NormalizeProject(raw: RawProject): (p: Project)
    ensures p.uid == raw.uid && p.name == raw.name && p.dateCreated == raw.dateCreated
    ensures p.internalId == raw.internalId && p.owner == raw.owner && p.workflowSteps == raw.workflowSteps
    ensures raw.targetLangs.Some? ==> p.targetLangs == raw.targetLangs.value
    ensures raw.targetLangs.None? ==> p.targetLangs == []
  {
    Project(raw.uid, raw.name, raw.internalId, raw.dateCreated, raw.owner,
            raw.targetLangs.GetOr([]), raw.workflowSteps)
  }

  /** `list_projects` over one query's pages. */
  function ListProjects(fetch: nat -> Response<RawProject>, ghost stop: nat): (l: Listing<Project>)
    requires Stops(fetch(stop), stop)
    ensures 1 <= l.fetches <= stop + 1
    ensures forall p :: 0 <= p < l.fetches - 1 ==> fetch(p).Page? && !IsLast(fetch(p), p)
    ensures Stops(fetch(l.fetches - 1), l.fetches - 1)
    ensures l.result.Ok? <==> fetch(l.fetches - 1).Page?
    ensures l.result.Ok? ==> l.result.value == Collected(fetch, NormalizeProject, 0, l.fetches)
    ensures l.result.Err? ==> l.result.error == Classify(fetch(l.fetches - 1))
  {
    ListAll(fetch, NormalizeProject, stop)
  }

  function Identity<T>(x: T): T { x }

  /** `list_jobs` over one query's pages: jobs are kept as they come. */
  function ListJobs(fetch: nat -> Response<Job>, ghost stop: nat): (l: Listing<Job>)
    requires Stops(fetch(stop), stop)
    ensures 1 <= l.fetches <= stop + 1
    ensures forall p :: 0 <= p < l.fetches - 1 ==> fetch(p).Page? && !IsLast(fetch(p), p)
    ensures Stops(fetch(l.fetches - 1), l.fetches - 1)
    ensures l.result.Ok? <==> fetch(l.fetches - 1).Page?
    ensures l.result.Ok? ==> l.result.value == Collected(fetch, Identity, 0, l.fetches)
    ensures l.result.Err? ==> l.result.error == Classify(fetch(l.fetches - 1))
  {
    ListAll(fetch, Identity, stop)
  }

  /**
   * A server that reports the same `totalPages` T on every page and never fails is read in
   * exactly max(1, T) requests, and the listing is all of those pages' items in order.
   */
  lemma ConstantTotalPages<R, T>(fetch: nat -> Response<R>, norm: R -> T, total: int)
    requires forall p :: 0 <= p < Max(1, total) ==> fetch(p).Page? && fetch(p).totalPages == Some(total)
    ensures Stops(fetch(Max(1, total) - 1), Max(1, total) - 1)
    ensures ListAll(fetch, norm, Max(1, total) - 1).fetches == Max(1, total)
    ensures ListAll(fetch, norm, Max(1, total) - 1).result == Ok(Collected(fetch, norm, 0, Max(1, total)))
  {
    var l := ListAll(fetch, norm, Max(1, total) - 1);
    assert fetch(l.fetches - 1).Page?;
  }

  /** A server without a `totalPages` field is read in a single request. */
  lemma MissingTotalIsOnePage<R, T>(fetch: nat -> Response<R>, norm: R -> T)
    requires fetch(0).Page? && fetch(0).totalPages.None?
    ensures Stops(fetch(0), 0)
    ensures ListAll(fetch, norm, 0) == Listing(Ok(MapSeq(norm, fetch(0).items)), 1)
  {
  }

  /**
   * A failure on page k after k good pages discards those pages: the listing is just the
   * classified error, after k + 1 requests.
   */
  lemma FailureDiscardsPages<R, T>(fetch: nat -> Response<R>, norm: R -> T, k: nat)
    requires forall p :: 0 <= p < k ==> fetch(p).Page? && !IsLast(fetch(p), p)
    requires !fetch(k).Page?
    ensures Stops(fetch(k), k)
    ensures ListAll(fetch, norm, k) == Listing(Err(Classify(fetch(k))), k + 1)
  {
  }

  /** The query of `list_projects`: a filter is sent only when it is a non-empty string. */
  datatype ProjectQuery = ProjectQuery(name: Option<string>, clientName: Option<string>)

  function ProjectFilters(name: Option<string>, clientName: Option<string>): (q: ProjectQuery)
    ensures q.name.Some? <==> name.Some? && name.value != ""
    ensures q.name.Some? ==> q.name == name
    ensures q.clientName.Some? <==> clientName.Some? && clientName.value != ""
    ensures q.clientName.Some? ==> q.clientName == clientName
  {
    ProjectQuery(if name.Some? && name.value != "" then name else None,
                 if clientName.Some? && clientName.value != "" then clientName else None)
  }

  /**
   * The query of `list_jobs`: a filter is sent only when it is truthy, so a workflow level of 0
   * and an empty language are both dropped and the listing then covers all levels or languages.
   */
  datatype JobQuery = JobQuery(workflowLevel: Option<int>, targetLang: Option<string>)

  function JobFilters(workflowLevel: Option<int>, targetLang: Option<string>): (q: JobQuery)
    ensures q.workflowLevel.Some? <==> workflowLevel.Some? && workflowLevel.value != 0
    ensures q.workflowLevel.Some? ==> q.workflowLevel == workflowLevel
    ensures q.targetLang.Some? <==> targetLang.Some? && targetLang.value != ""
    ensures q.targetLang.Some? ==> q.targetLang == targetLang
  {
    JobQuery(if workflowLevel.Some? && workflowLevel.value != 0 then workflowLevel else None,
             if targetLang.Some? && targetLang.value != "" then targetLang else None)
  }
}

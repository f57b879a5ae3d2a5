/**
 * The bulk bilingual download (`download_bilingual_files_by_language`, lines 310-461, with
 * `download_bilingual_file`, lines 215-238): for every selected project and every chosen target
 * language, list the project's jobs in that language at the chosen workflow level and save their
 * `.mxliff` files, one merged file per language or one file per job.
 *
 * The save directory's contents are the map `Files` from folder name to the file names in it.
 * The job listing is the parameter `listJobs`; the download request is the parameter `fetch`
 * (project uid, job uids, save path to the request's outcome, the file being written iff the
 * outcome is `Saved`).
 */
module Download {
  import opened Base
  import opened Domain
  import opened Text
  import opened Paging
  import opened Workflow
  import opened Naming

  /** The radio-button label that selects merged mode; every other value means one file per job. */
  const MergedLabel := "合併下載"
  /** Download threads per language in per-job mode: 10, or the number of jobs when smaller. */
  const DownloadPoolMax: nat := 10

  datatype Mode = Merged | Separate

  function ModeOf(choice: string): (m: Mode)
    ensures m.Merged? <==> choice == MergedLabel
  {
    if choice == MergedLabel then Merged else Separate
  }

  /** One planned `download_bilingual_file` call: target folder, wanted file name, job uids. */
  datatype Request = Request(folder: string, filename: string, jobUids: seq<string>)

  function JobUids(jobs: seq<Job>): (uids: seq<string>)
    ensures |uids| == |jobs| && forall i :: 0 <= i < |jobs| ==> uids[i] == jobs[i].uid
  {
    seq(|jobs|, i requires 0 <= i < |jobs| => jobs[i].uid)
  }

  /** The job uids the requests ask for, request by request. */
  function RequestedUids(rs: seq<Request>): seq<string>
    decreases |rs|
  {
    if |rs| == 0 then [] else rs[0].jobUids + RequestedUids(rs[1..])
  }

  /** The request of one job in per-job mode: that job alone, under its generated file name. */
  function JobRequest(cc: CharClasses, lang: string, abbr: string, job: Job): Request {
    Request(FolderName(lang, abbr), FileName(PerJobStem(cc, job.filename), lang, abbr), [job.uid])
  }

  /** The requests of per-job mode, one for each job, each for that job alone. */
  function PerJobRequests(cc: CharClasses, lang: string, abbr: string, jobs: seq<Job>): (rs: seq<Request>)
    ensures |rs| == |jobs|
    ensures forall i :: 0 <= i < |jobs| ==> rs[i] == JobRequest(cc, lang, abbr, jobs[i])
    ensures forall i :: 0 <= i < |jobs| ==> rs[i].jobUids == [jobs[i].uid]
  {
    seq(|jobs|, i requires 0 <= i < |jobs| => JobRequest(cc, lang, abbr, jobs[i]))
  }

  /** Requests that each ask for one job, the jobs in order, ask for exactly those jobs. */
  lemma {:induction false} SingleJobRequests(rs: seq<Request>, jobs: seq<Job>)
    requires |rs| == |jobs| && forall i :: 0 <= i < |jobs| ==> rs[i].jobUids == [jobs[i].uid]
    ensures RequestedUids(rs) == JobUids(jobs)
    decreases |jobs|
  {
    if |jobs| > 0 {
      SingleJobRequests(rs[1..], jobs[1..]);
      assert JobUids(jobs) == [jobs[0].uid] + JobUids(jobs[1..]);
    }
  }

  /**
   * The requests for one language's listed jobs. In either mode every listed job is asked for
   * exactly once, in listing order, and every file goes to the language's folder.
   */
  function LangRequests(cc: CharClasses, projectName: string, lang: string, abbr: string, mode: Mode,
                        jobs: seq<Job>): (rs: seq<Request>)
    ensures RequestedUids(rs) == JobUids(jobs)
    ensures forall i :: 0 <= i < |rs| ==> rs[i].folder == FolderName(lang, abbr)
    ensures mode.Merged? ==>
              rs == [Request(FolderName(lang, abbr), FileName(MergedStem(cc, projectName), lang, abbr), JobUids(jobs))]
    ensures mode.Separate? ==> |rs| == |jobs|
    ensures mode.Separate? ==>
              forall i :: 0 <= i < |jobs| ==>
                rs[i].jobUids == [jobs[i].uid] && rs[i].filename == FileName(PerJobStem(cc, jobs[i].filename), lang, abbr)
  {
    match mode
    case Merged =>
      var rs := [Request(FolderName(lang, abbr), FileName(MergedStem(cc, projectName), lang, abbr), JobUids(jobs))];
      assert rs[1..] == [];
      assert JobUids(jobs) + [] == JobUids(jobs);
      rs
    case Separate =>
      var rs := PerJobRequests(cc, lang, abbr, jobs);
      SingleJobRequests(rs, jobs);
      rs
  }

  /** What the download request came to. */
  datatype DownloadReply = Saved | HttpFailed(detail: string) | RequestFailed(detail: string) | OtherFailure(detail: string)

  const SavedText := "成功下載到: "

  /**
   * The string `download_bilingual_file` returns: the success text followed by the path when
   * the file was written, otherwise the failure's detail behind a prefix naming its kind.
   */
  function DownloadMessage(reply: DownloadReply, path: string): (m: string)
    ensures reply.Saved? <==> SavedText <= m
    ensures reply.Saved? ==> m[|SavedText|..] == path
    ensures !reply.Saved? ==> |reply.detail| <= |m| && m[|m| - |reply.detail|..] == reply.detail
  {
    match reply
    case Saved => SavedText + path
    case HttpFailed(detail) =>
      var m := "HTTP error: " + detail;
      assert m[0] != SavedText[0];
      m
    case RequestFailed(detail) =>
      var m := "Request error: " + detail;
      assert m[0] != SavedText[0];
      m
    case OtherFailure(detail) =>
      var m := "Error: " + detail;
      assert m[0] != SavedText[0];
      m
  }

  type Files = map<string, set<string>>

  function InFolder(fs: Files, folder: string): set<string> {
    if folder in fs then fs[folder] else {}
  }

  /** One request carried out: the name it was saved under and the request's outcome. */
  datatype FileOutcome = FileOutcome(request: Request, name: string, reply: DownloadReply, message: string)

  /**
   * One request against the folder's current contents: the unique name is chosen, the file is
   * fetched to `saveDir/folder/name`.
   */
  function SaveOne(fs: Files, saveDir: string, projectUid: string, r: Request,
                   fetch: (string, seq<string>, string) -> DownloadReply): (o: FileOutcome)
    ensures o.request == r
    ensures o.name !in InFolder(fs, r.folder)
    ensures o.name == UniqueName(InFolder(fs, r.folder), r.filename)
    ensures o.reply == fetch(projectUid, r.jobUids, PathJoin(PathJoin(saveDir, r.folder), o.name))
  {
    var name := UniqueName(InFolder(fs, r.folder), r.filename);
    var path := PathJoin(PathJoin(saveDir, r.folder), name);
    var reply := fetch(projectUid, r.jobUids, path);
    FileOutcome(r, name, reply, DownloadMessage(reply, path))
  }

  /** The save directory after an outcome: a saved file is added to its folder. */
  function Record(fs: Files, o: FileOutcome): (fs': Files)
    ensures forall f :: InFolder(fs', f) == InFolder(fs, f) + (if o.reply.Saved? && f == o.request.folder then {o.name} else {})
  {
    if o.reply.Saved? then fs[o.request.folder := InFolder(fs, o.request.folder) + {o.name}] else fs
  }

  /** The names saved into `folder` by the outcomes. */
  function SavedNames(os: seq<FileOutcome>, folder: string): set<string> {
    set i | 0 <= i < |os| && os[i].reply.Saved? && os[i].request.folder == folder :: os[i].name
  }

  /** No saved file took the name of a file already there or of another file saved with it. */
  predicate NoOverwrite(fs: Files, os: seq<FileOutcome>) {
    && (forall i :: 0 <= i < |os| && os[i].reply.Saved? ==> os[i].name !in InFolder(fs, os[i].request.folder))
    && (forall i, j ::
          (0 <= i < j < |os| && os[i].reply.Saved? && os[j].reply.Saved? && os[i].request.folder == os[j].request.folder)
          ==> os[i].name != os[j].name)
  }

  /**
   * `after` is `before` with exactly the files the outcomes saved added to their folders, none
   * of them taking the name of a file already there or of another file saved with it.
   */
  ghost predicate SavesExactly(before: Files, os: seq<FileOutcome>, after: Files) {
    NoOverwrite(before, os) && forall f :: InFolder(after, f) == InFolder(before, f) + SavedNames(os, f)
  }

  lemma SavesNothing(fs: Files)
    ensures SavesExactly(fs, [], fs)
  {
    assert forall f :: SavedNames([], f) == {};
  }

  lemma SavedNamesAppend(a: seq<FileOutcome>, b: seq<FileOutcome>, f: string)
    ensures SavedNames(a + b, f) == SavedNames(a, f) + SavedNames(b, f)
  {
    var all := a + b;
    forall x | x in SavedNames(all, f) ensures x in SavedNames(a, f) + SavedNames(b, f) {
      var i :| 0 <= i < |all| && all[i].reply.Saved? && all[i].request.folder == f && all[i].name == x;
      if i < |a| {
        assert all[i] == a[i];
      } else {
        assert all[i] == b[i - |a|];
      }
    }
    forall x | x in SavedNames(a, f) ensures x in SavedNames(all, f) {
      var i :| 0 <= i < |a| && a[i].reply.Saved? && a[i].request.folder == f && a[i].name == x;
      assert all[i] == a[i];
    }
    forall x | x in SavedNames(b, f) ensures x in SavedNames(all, f) {
      var k :| 0 <= k < |b| && b[k].reply.Saved? && b[k].request.folder == f && b[k].name == x;
      assert all[|a| + k] == b[k];
    }
  }

  /** Saves against the directory earlier saves left add up: together they save exactly both lots. */
  lemma SavesCompose(before: Files, a: seq<FileOutcome>, mid: Files, b: seq<FileOutcome>, after: Files)
    requires SavesExactly(before, a, mid) && SavesExactly(mid, b, after)
    ensures SavesExactly(before, a + b, after)
  {
    var all := a + b;
    forall f ensures InFolder(after, f) == InFolder(before, f) + SavedNames(all, f) {
      SavedNamesAppend(a, b, f);
    }
    forall i | 0 <= i < |all| && all[i].reply.Saved?
      ensures all[i].name !in InFolder(before, all[i].request.folder)
    {
      if i >= |a| {
        assert all[i] == b[i - |a|];
        assert InFolder(before, b[i - |a|].request.folder) <= InFolder(mid, b[i - |a|].request.folder);
      } else {
        assert all[i] == a[i];
      }
    }
    forall i, j | 0 <= i < j < |all| && all[i].reply.Saved? && all[j].reply.Saved?
                  && all[i].request.folder == all[j].request.folder
      ensures all[i].name != all[j].name
    {
      if j < |a| {
        assert all[i] == a[i] && all[j] == a[j];
      } else if i >= |a| {
        assert all[i] == b[i - |a|] && all[j] == b[j - |a|];
      } else {
        assert all[i] == a[i] && all[j] == b[j - |a|];
        assert a[i].name in SavedNames(a, a[i].request.folder);
        assert a[i].name in InFolder(mid, a[i].request.folder);
      }
    }
  }

  datatype Saving = Saving(outcomes: seq<FileOutcome>, files: Files)

  /** The outcome's reply is what the server gave for its request, saved at `saveDir/folder/name`. */
  predicate Fetched(fetch: (string, seq<string>, string) -> DownloadReply, projectUid: string, saveDir: string,
                    o: FileOutcome) {
    o.reply == fetch(projectUid, o.request.jobUids, PathJoin(PathJoin(saveDir, o.request.folder), o.name))
  }

  lemma SavedNamesCons(o: FileOutcome, os: seq<FileOutcome>, f: string)
    ensures SavedNames([o] + os, f) == (if o.reply.Saved? && o.request.folder == f then {o.name} else {}) + SavedNames(os, f)
  {
    var all := [o] + os;
    forall x | x in SavedNames(all, f)
      ensures x in (if o.reply.Saved? && o.request.folder == f then {o.name} else {}) + SavedNames(os, f)
    {
      var i :| 0 <= i < |all| && all[i].reply.Saved? && all[i].request.folder == f && all[i].name == x;
      if i > 0 {
        assert os[i - 1] == all[i];
      }
    }
    forall x | x in SavedNames(os, f) ensures x in SavedNames(all, f) {
      var i :| 0 <= i < |os| && os[i].reply.Saved? && os[i].request.folder == f && os[i].name == x;
      assert all[i + 1] == os[i];
    }
    if o.reply.Saved? && o.request.folder == f {
      assert all[0] == o;
    }
  }

  /** One saved request followed by saves against the directory it left keeps every guarantee. */
  lemma SaveStep(fs: Files, o: FileOutcome, fs1: Files, os: seq<FileOutcome>, files: Files)
    requires o.name !in InFolder(fs, o.request.folder)
    requires fs1 == Record(fs, o)
    requires NoOverwrite(fs1, os)
    requires forall f :: InFolder(files, f) == InFolder(fs1, f) + SavedNames(os, f)
    ensures NoOverwrite(fs, [o] + os)
    ensures forall f :: InFolder(files, f) == InFolder(fs, f) + SavedNames([o] + os, f)
  {
    var all := [o] + os;
    forall f ensures InFolder(files, f) == InFolder(fs, f) + SavedNames(all, f) {
      SavedNamesCons(o, os, f);
    }
    assert forall i :: 1 <= i < |all| ==> all[i] == os[i - 1];
    forall i | 0 <= i < |all| && all[i].reply.Saved?
      ensures all[i].name !in InFolder(fs, all[i].request.folder)
    {
      if i > 0 {
        assert InFolder(fs, os[i - 1].request.folder) <= InFolder(fs1, os[i - 1].request.folder);
      }
    }
    forall i, j | 0 <= i < j < |all| && all[i].reply.Saved? && all[j].reply.Saved?
                  && all[i].request.folder == all[j].request.folder
      ensures all[i].name != all[j].name
    {
      if i == 0 {
        assert o.name in InFolder(fs1, o.request.folder);
      }
    }
  }

  /** An outcome for the first request put in front of outcomes for the others. */
  lemma ConsMatchesRequests(o: FileOutcome, os: seq<FileOutcome>, rs: seq<Request>, good: FileOutcome -> bool)
    requires |rs| > 0 && o.request == rs[0] && good(o)
    requires |os| == |rs| - 1 && forall i :: 0 <= i < |os| ==> os[i].request == rs[1..][i] && good(os[i])
    ensures forall i :: 0 <= i < |rs| ==> ([o] + os)[i].request == rs[i] && good(([o] + os)[i])
  {
    var all := [o] + os;
    forall i | 0 <= i < |rs| ensures all[i].request == rs[i] && good(all[i]) {
      if i > 0 {
        assert all[i] == os[i - 1] && rs[i] == rs[1..][i - 1];
      }
    }
  }

  /**
   * Requests carried out one after another by `save`, each against the directory as the
   * earlier ones left it. When every save picks a name not yet in its folder, no file is
   * overwritten and the directory gains exactly the saved files.
   */
  function SaveAll(fs: Files, rs: seq<Request>, save: (Files, Request) -> FileOutcome,
                   ghost good: FileOutcome -> bool): (s: Saving)
    requires forall d, r :: save(d, r).request == r && save(d, r).name !in InFolder(d, r.folder) && good(save(d, r))
    ensures |s.outcomes| == |rs|
    ensures forall i :: 0 <= i < |rs| ==> s.outcomes[i].request == rs[i] && good(s.outcomes[i])
    ensures NoOverwrite(fs, s.outcomes)
    ensures forall f :: InFolder(s.files, f) == InFolder(fs, f) + SavedNames(s.outcomes, f)
    decreases |rs|
  {
    if |rs| == 0 then
      assert forall f :: SavedNames([], f) == {};
      Saving([], fs)
    else
      var o := save(fs, rs[0]);
      var fs1 := Record(fs, o);
      var rest := SaveAll(fs1, rs[1..], save, good);
      ConsMatchesRequests(o, rest.outcomes, rs, good);
      SaveStep(fs, o, fs1, rest.outcomes, rest.files);
      Saving([o] + rest.outcomes, rest.files)
  }

  /** The names in outcome `i`'s folder just before it was saved: the folder's files and the earlier saves. */
  function FolderBefore(fs: Files, os: seq<FileOutcome>, i: nat): set<string>
    requires i < |os|
  {
    InFolder(fs, os[i].request.folder) + SavedNames(os[..i], os[i].request.folder)
  }

  /**
   * Every outcome was saved under the unique name of its wanted file name in its folder as the
   * earlier outcomes left it: the name unchanged when free, otherwise its first free " (k)" rename.
   */
  predicate NamedAsWanted(fs: Files, os: seq<FileOutcome>) {
    forall i :: 0 <= i < |os| ==> os[i].name == UniqueName(FolderBefore(fs, os, i), os[i].request.filename)
  }

  lemma FolderBeforeFirst(fs: Files, o: FileOutcome, rest: seq<FileOutcome>)
    ensures FolderBefore(fs, [o] + rest, 0) == InFolder(fs, o.request.folder)
  {
    assert ([o] + rest)[..0] == [];
    SavesNothing(fs);
  }

  /** Later outcomes see the folder as the first outcome's save left it. */
  lemma FolderBeforeCons(fs: Files, o: FileOutcome, rest: seq<FileOutcome>, i: nat)
    requires 0 < i <= |rest|
    ensures FolderBefore(fs, [o] + rest, i) == FolderBefore(Record(fs, o), rest, i - 1)
  {
    var all := [o] + rest;
    assert all[i] == rest[i - 1];
    assert all[..i] == [o] + rest[..i - 1];
    SavedNamesCons(o, rest[..i - 1], rest[i - 1].request.folder);
  }

  /** An outcome named against the folder, in front of outcomes named against what it left. */
  lemma NamedCons(fs: Files, o: FileOutcome, rest: seq<FileOutcome>)
    requires o.name == UniqueName(InFolder(fs, o.request.folder), o.request.filename)
    requires NamedAsWanted(Record(fs, o), rest)
    ensures NamedAsWanted(fs, [o] + rest)
  {
    var all := [o] + rest;
    forall i | 0 <= i < |all| ensures all[i].name == UniqueName(FolderBefore(fs, all, i), all[i].request.filename) {
      if i == 0 {
        FolderBeforeFirst(fs, o, rest);
      } else {
        FolderBeforeCons(fs, o, rest, i);
        assert all[i] == rest[i - 1];
      }
    }
  }

  /** When `save` picks the unique name against the folder it is given, `SaveAll` names as wanted. */
  lemma {:induction false} SaveAllNames(fs: Files, rs: seq<Request>, save: (Files, Request) -> FileOutcome,
                                        good: FileOutcome -> bool)
    requires forall d, r :: save(d, r).request == r && save(d, r).name !in InFolder(d, r.folder) && good(save(d, r))
    requires forall d, r :: save(d, r).name == UniqueName(InFolder(d, r.folder), r.filename)
    ensures NamedAsWanted(fs, SaveAll(fs, rs, save, good).outcomes)
    decreases |rs|
  {
    if |rs| > 0 {
      var o := save(fs, rs[0]);
      var rest := SaveAll(Record(fs, o), rs[1..], save, good).outcomes;
      SaveAllNames(Record(fs, o), rs[1..], save, good);
      NamedCons(fs, o, rest);
    } else {
      assert SaveAll(fs, rs, save, good).outcomes == [];
    }
  }

  /**
   * The requests carried out one after another, each choosing its name against the folder as
   * the earlier ones left it. No file is overwritten, the directory gains exactly the saved
   * files, and each file is saved under its wanted name or that name's first free rename.
   */
  function SaveInOrder(fs: Files, saveDir: string, projectUid: string, rs: seq<Request>,
                       fetch: (string, seq<string>, string) -> DownloadReply): (s: Saving)
    ensures |s.outcomes| == |rs|
    ensures forall i :: 0 <= i < |rs| ==> s.outcomes[i].request == rs[i] && Fetched(fetch, projectUid, saveDir, s.outcomes[i])
    ensures NoOverwrite(fs, s.outcomes)
    ensures forall f :: InFolder(s.files, f) == InFolder(fs, f) + SavedNames(s.outcomes, f)
    ensures NamedAsWanted(fs, s.outcomes)
  {
    var save := (d, r) => SaveOne(d, saveDir, projectUid, r, fetch);
    var good := o => Fetched(fetch, projectUid, saveDir, o);
    SaveAllNames(fs, rs, save, good);
    SaveAll(fs, rs, save, good)
  }

  /**
   * Per-job mode as written: the jobs of a language are handed to a pool and each thread picks
   * its name before any of them has written its file. This is the schedule where every name is
   * chosen against the folder as it was before the language started. It exists only while the
   * language has no more jobs than the pool has workers: a later job is taken up only after an
   * earlier one has returned, its file written.
   */
  function SaveRacing(fs: Files, saveDir: string, projectUid: string, rs: seq<Request>,
                      fetch: (string, seq<string>, string) -> DownloadReply): (os: seq<FileOutcome>)
    requires |rs| <= DownloadPoolMax
    ensures |os| == |rs|
    ensures forall i :: 0 <= i < |rs| ==> os[i] == SaveOne(fs, saveDir, projectUid, rs[i], fetch)
  {
    seq(|rs|, i requires 0 <= i < |rs| => SaveOne(fs, saveDir, projectUid, rs[i], fetch))
  }

  /**
   * Under that schedule two jobs with the same file name in one language (the parts of a split
   * job, say) are saved under one name: the second file overwrites the first.
   */
  lemma RacingJobsCollide(cc: CharClasses, fs: Files, saveDir: string, p: Project, lang: string, abbr: string,
                          jobs: seq<Job>, fetch: (string, seq<string>, string) -> DownloadReply)
    requires |jobs| == 2 && jobs[0].filename == jobs[1].filename
    requires forall uids, path :: fetch(p.uid, uids, path) == Saved
    ensures var os := SaveRacing(fs, saveDir, p.uid, LangRequests(cc, p.name, lang, abbr, Separate, jobs), fetch);
            |os| == 2 && os[0].reply.Saved? && os[1].reply.Saved?
            && os[0].request.folder == os[1].request.folder && os[0].name == os[1].name
            && !NoOverwrite(fs, os)
  {
  }

  /** Saving in order keeps both files: the second one is renamed and both end up in the folder. */
  lemma InOrderJobsDoNotCollide(cc: CharClasses, fs: Files, saveDir: string, p: Project, lang: string, abbr: string,
                                jobs: seq<Job>, fetch: (string, seq<string>, string) -> DownloadReply)
    requires |jobs| == 2 && jobs[0].filename == jobs[1].filename
    requires forall uids, path :: fetch(p.uid, uids, path) == Saved
    ensures var s := SaveInOrder(fs, saveDir, p.uid, LangRequests(cc, p.name, lang, abbr, Separate, jobs), fetch);
            |s.outcomes| == 2 && s.outcomes[0].name != s.outcomes[1].name
            && s.outcomes[0].request.folder == s.outcomes[1].request.folder
            && s.outcomes[0].name in InFolder(s.files, s.outcomes[0].request.folder)
            && s.outcomes[1].name in InFolder(s.files, s.outcomes[1].request.folder)
  {
    var s := SaveInOrder(fs, saveDir, p.uid, LangRequests(cc, p.name, lang, abbr, Separate, jobs), fetch);
    assert s.outcomes[0].name in SavedNames(s.outcomes, s.outcomes[0].request.folder);
    assert s.outcomes[1].name in SavedNames(s.outcomes, s.outcomes[1].request.folder);
  }

  /** What happened for one target language of a project. */
  datatype LangReport =
    | NoJobsFor(lang: string)
    | LangFiles(lang: string, workers: nat, outcomes: seq<FileOutcome>)

  /** The languages' reports, and the listing error that ended the loop early, if any. */
  datatype LangLoop = LangLoop(reports: seq<LangReport>, aborted: Option<ListError>, files: Files)

  /** The files a language report accounts for: none when the language had no jobs. */
  function ReportOutcomes(r: LangReport): seq<FileOutcome> {
    if r.LangFiles? then r.outcomes else []
  }

  /** The files of the reports, language by language. */
  function AllOutcomes(rs: seq<LangReport>): seq<FileOutcome>
    decreases |rs|
  {
    if |rs| == 0 then [] else ReportOutcomes(rs[0]) + AllOutcomes(rs[1..])
  }

  /** `name` is `filename` itself or one of its " (k)" renames. */
  ghost predicate RenameOf(name: string, filename: string) {
    exists k: nat :: name == Attempt(filename, k)
  }

  /** A file named as wanted is saved under its wanted name or one of that name's renames. */
  lemma NamedAsWantedAttempts(fs: Files, os: seq<FileOutcome>)
    requires NamedAsWanted(fs, os)
    ensures forall i :: 0 <= i < |os| ==> RenameOf(os[i].name, os[i].request.filename)
  {
    forall i | 0 <= i < |os| ensures RenameOf(os[i].name, os[i].request.filename) {
      var dir := FolderBefore(fs, os, i);
      var fn := os[i].request.filename;
      var k: nat :| UniqueName(dir, fn) == Attempt(fn, k) && forall j :: 0 <= j < k ==> Attempt(fn, j) in dir;
      assert os[i].name == Attempt(fn, k);
    }
  }

  /** The worker count of per-job mode; merged mode makes a single request. */
  function Workers(mode: Mode, jobCount: nat): (n: nat)
    ensures mode.Merged? ==> n == 1
    ensures mode.Separate? && jobCount > 0 ==> 1 <= n <= DownloadPoolMax && n <= jobCount
  {
    if mode.Merged? then 1 else Min(DownloadPoolMax, jobCount)
  }

  /**
   * A report of saved files for the listed `jobs` of `lang` carries the mode's worker count
   * and one outcome per request of the language, in order, each what the server gave for it
   * and saved under the request's file name or one of its " (k)" renames.
   */
  ghost predicate LangRequested(cc: CharClasses, p: Project, lang: string, abbr: string, mode: Mode, saveDir: string,
                          fetch: (string, seq<string>, string) -> DownloadReply, jobs: seq<Job>, rep: LangReport)
  {
    rep.LangFiles? ==>
      var rs := LangRequests(cc, p.name, lang, abbr, mode, jobs);
      && rep.workers == Workers(mode, |jobs|)
      && |rep.outcomes| == |rs|
      && forall i :: 0 <= i < |rs| ==>
           && rep.outcomes[i].request == rs[i]
           && Fetched(fetch, p.uid, saveDir, rep.outcomes[i])
           && RenameOf(rep.outcomes[i].name, rs[i].filename)
  }

  datatype LangStep = LangStep(report: LangReport, files: Files)

  /**
   * One language's listed jobs: nothing to do when there are none, otherwise each of the
   * language's requests is carried out once, in order, with the mode's worker count; no file
   * is overwritten and the folders gain exactly the saved files.
   */
  function DownloadLang(cc: CharClasses, p: Project, lang: string, abbr: string, mode: Mode, saveDir: string,
                        jobs: seq<Job>, fetch: (string, seq<string>, string) -> DownloadReply, fs: Files): (r: LangStep)
    ensures r.report.lang == lang
    ensures r.report.NoJobsFor? <==> jobs == []
    ensures LangRequested(cc, p, lang, abbr, mode, saveDir, fetch, jobs, r.report)
    ensures SavesExactly(fs, ReportOutcomes(r.report), r.files)
    ensures NamedAsWanted(fs, ReportOutcomes(r.report))
  {
    if jobs == [] then
      SavesNothing(fs);
      LangStep(NoJobsFor(lang), fs)
    else
      var s := SaveInOrder(fs, saveDir, p.uid, LangRequests(cc, p.name, lang, abbr, mode, jobs), fetch);
      NamedAsWantedAttempts(fs, s.outcomes);
      LangStep(LangFiles(lang, Workers(mode, |jobs|), s.outcomes), s.files)
  }

  /**
   * What a language step must do: report that language, report no jobs iff there are none,
   * give a report `requested` accepts, and save exactly the report's files without overwriting.
   */
  ghost predicate WellBehaved(step: (string, seq<Job>, Files) -> LangStep, requested: (string, seq<Job>, LangReport) -> bool) {
    forall lang, jobs, fs ::
      && step(lang, jobs, fs).report.lang == lang
      && (step(lang, jobs, fs).report.NoJobsFor? <==> jobs == [])
      && requested(lang, jobs, step(lang, jobs, fs).report)
      && SavesExactly(fs, ReportOutcomes(step(lang, jobs, fs).report), step(lang, jobs, fs).files)
  }

  /** The first language's report in front of reports that match the remaining languages. */
  lemma ConsReports(first: LangReport, reports: seq<LangReport>, langs: seq<string>,
                    listing: string -> Result<seq<Job>, ListError>, requested: (string, seq<Job>, LangReport) -> bool)
    requires |langs| > 0 && listing(langs[0]).Ok? && first.lang == langs[0]
    requires first.NoJobsFor? <==> listing(langs[0]) == Ok([])
    requires requested(langs[0], listing(langs[0]).value, first)
    requires |reports| <= |langs| - 1
    requires forall i :: 0 <= i < |reports| ==>
               && reports[i].lang == langs[1..][i]
               && listing(langs[1..][i]).Ok?
               && (reports[i].NoJobsFor? <==> listing(langs[1..][i]) == Ok([]))
               && requested(langs[1..][i], listing(langs[1..][i]).value, reports[i])
    ensures forall i :: 0 <= i < |reports| + 1 ==>
              && ([first] + reports)[i].lang == langs[i]
              && listing(langs[i]).Ok?
              && (([first] + reports)[i].NoJobsFor? <==> listing(langs[i]) == Ok([]))
              && requested(langs[i], listing(langs[i]).value, ([first] + reports)[i])
  {
    var all := [first] + reports;
    forall i | 1 <= i < |all|
      ensures && all[i].lang == langs[i] && listing(langs[i]).Ok?
              && (all[i].NoJobsFor? <==> listing(langs[i]) == Ok([]))
              && requested(langs[i], listing(langs[i]).value, all[i])
    {
      assert all[i] == reports[i - 1] && langs[i] == langs[1..][i - 1];
    }
  }

  /**
   * The language loop, for any listing and any step: languages are handled in order, each
   * listed and then stepped; a failed listing raises out of the loop, so the languages after
   * it are not attempted.
   */
  function LoopLangs(langs: seq<string>, listing: string -> Result<seq<Job>, ListError>,
                     step: (string, seq<Job>, Files) -> LangStep,
                     ghost requested: (string, seq<Job>, LangReport) -> bool, fs: Files): (l: LangLoop)
    requires WellBehaved(step, requested)
    ensures |l.reports| <= |langs|
    ensures forall i :: 0 <= i < |l.reports| ==>
              && l.reports[i].lang == langs[i]
              && listing(langs[i]).Ok?
              && (l.reports[i].NoJobsFor? <==> listing(langs[i]) == Ok([]))
              && requested(langs[i], listing(langs[i]).value, l.reports[i])
    ensures l.aborted.None? <==> |l.reports| == |langs|
    ensures l.aborted.Some? ==> listing(langs[|l.reports|]) == Err(l.aborted.value)
    ensures SavesExactly(fs, AllOutcomes(l.reports), l.files)
    decreases |langs|
  {
    if |langs| == 0 then
      SavesNothing(fs);
      LangLoop([], None, fs)
    else
      match listing(langs[0])
      case Err(e) =>
        SavesNothing(fs);
        LangLoop([], Some(e), fs)
      case Ok(jobs) =>
        var here := step(langs[0], jobs, fs);
        var rest := LoopLangs(langs[1..], listing, step, requested, here.files);
        ConsReports(here.report, rest.reports, langs, listing, requested);
        var all := [here.report] + rest.reports;
        assert all[1..] == rest.reports;
        SavesCompose(fs, ReportOutcomes(here.report), here.files, AllOutcomes(rest.reports), rest.files);
        LangLoop(all, rest.aborted, rest.files)
  }

  /**
   * What the language loop of project `p` reports, whatever the directory held: the languages
   * in order up to the first failed listing, each listed at `level` and in that language, with
   * no jobs reported iff none were listed and otherwise the outcome of each of its requests; the
   * loop ends early iff a listing failed, and then with that listing's error.
   */
  ghost predicate LangsDone(cc: CharClasses, p: Project, langs: seq<string>, level: Option<int>, abbr: string,
                      mode: Mode, saveDir: string,
                      listJobs: (string, JobQuery) -> Result<seq<Job>, ListError>,
                      fetch: (string, seq<string>, string) -> DownloadReply, l: LangLoop)
  {
    && |l.reports| <= |langs|
    && (forall i :: 0 <= i < |l.reports| ==>
          && l.reports[i].lang == langs[i]
          && listJobs(p.uid, JobFilters(level, Some(langs[i]))).Ok?
          && (l.reports[i].NoJobsFor? <==> listJobs(p.uid, JobFilters(level, Some(langs[i]))) == Ok([]))
          && LangRequested(cc, p, langs[i], abbr, mode, saveDir, fetch,
                           listJobs(p.uid, JobFilters(level, Some(langs[i]))).value, l.reports[i]))
    && (l.aborted.None? <==> |l.reports| == |langs|)
    && (l.aborted.Some? ==> listJobs(p.uid, JobFilters(level, Some(langs[|l.reports|]))) == Err(l.aborted.value))
  }

  /**
   * The language loop of one project (lines 358-453): each language is listed at the workflow
   * level and in that language, and its jobs are downloaded; no file is overwritten and the
   * directory gains exactly the files the reports list as saved.
   */
  function DownloadLangs(cc: CharClasses, p: Project, langs: seq<string>, level: Option<int>, abbr: string,
                         mode: Mode, saveDir: string,
                         listJobs: (string, JobQuery) -> Result<seq<Job>, ListError>,
                         fetch: (string, seq<string>, string) -> DownloadReply, fs: Files): (l: LangLoop)
    ensures LangsDone(cc, p, langs, level, abbr, mode, saveDir, listJobs, fetch, l)
    ensures SavesExactly(fs, AllOutcomes(l.reports), l.files)
  {
    var listing := lang => listJobs(p.uid, JobFilters(level, Some(lang)));
    var step := (lang, jobs, files) => DownloadLang(cc, p, lang, abbr, mode, saveDir, jobs, fetch, files);
    var requested := (lang, jobs, rep) => LangRequested(cc, p, lang, abbr, mode, saveDir, fetch, jobs, rep);
    LoopLangs(langs, listing, step, requested, fs)
  }

  /** What the report says about one project. */
  datatype ProjectDownload =
    | DownloadSkipped(name: string, reason: SkipReason)
    | Downloaded(name: string, loop: LangLoop)

  /** The files a project's report accounts for: none when it was skipped. */
  function ProjectOutcomes(r: ProjectDownload): seq<FileOutcome> {
    if r.Downloaded? then AllOutcomes(r.loop.reports) else []
  }

  function FilesAfter(r: ProjectDownload, fs: Files): Files {
    if r.Downloaded? then r.loop.files else fs
  }

  /** A project whose workflow resolved had its languages handled at that step's level and abbreviation. */
  ghost predicate ProjectDone(cc: CharClasses, workflowName: string, langs: seq<string>, mode: Mode, saveDir: string,
                        listJobs: (string, JobQuery) -> Result<seq<Job>, ListError>,
                        fetch: (string, seq<string>, string) -> DownloadReply, q: Project, l: LangLoop)
  {
    var res := Resolve(workflowName, q.workflowSteps);
    && (res.AllLevels? || res.AtStep?)
    && LangsDone(cc, q, langs, LevelFilter(res), Abbreviation(res), mode, saveDir, listJobs, fetch, l)
  }

  /**
   * One project: a workflow that does not resolve skips it before any listing; otherwise its
   * languages are handled with the step's level filter and abbreviation.
   */
  function DownloadProject(cc: CharClasses, p: Project, workflowName: string, langs: seq<string>,
                           mode: Mode, saveDir: string,
                           listJobs: (string, JobQuery) -> Result<seq<Job>, ListError>,
                           fetch: (string, seq<string>, string) -> DownloadReply, fs: Files): (r: ProjectDownload)
    ensures r.name == p.name
    ensures r == DownloadSkipped(p.name, NoWorkflowName) <==> Resolve(workflowName, p.workflowSteps).SkipNoName?
    ensures r == DownloadSkipped(p.name, WorkflowNotFound) <==> Resolve(workflowName, p.workflowSteps).SkipNotFound?
    ensures r.Downloaded? ==>
              var res := Resolve(workflowName, p.workflowSteps);
              r.loop == DownloadLangs(cc, p, langs, LevelFilter(res), Abbreviation(res), mode, saveDir, listJobs, fetch, fs)
    ensures r.Downloaded? ==> ProjectDone(cc, workflowName, langs, mode, saveDir, listJobs, fetch, p, r.loop)
    ensures SavesExactly(fs, ProjectOutcomes(r), FilesAfter(r, fs))
  {
    var res := Resolve(workflowName, p.workflowSteps);
    match res
    case SkipNoName =>
      SavesNothing(fs);
      DownloadSkipped(p.name, NoWorkflowName)
    case SkipNotFound =>
      SavesNothing(fs);
      DownloadSkipped(p.name, WorkflowNotFound)
    case _ => Downloaded(p.name, DownloadLangs(cc, p, langs, LevelFilter(res), Abbreviation(res), mode, saveDir, listJobs, fetch, fs))
  }

  /** The files of the projects' reports, project by project. */
  function RunOutcomes(rs: seq<ProjectDownload>): seq<FileOutcome>
    decreases |rs|
  {
    if |rs| == 0 then [] else ProjectOutcomes(rs[0]) + RunOutcomes(rs[1..])
  }

  /** A project whose language loop was ended by a 401 from the job listing, which logs the user out. */
  predicate LoggedOutIn(r: ProjectDownload) {
    r.Downloaded? && r.loop.aborted == Some(TokenExpired)
  }

  /** The projects' reports, the directory afterwards, and whether a listing logged the user out. */
  datatype Run = Run(reports: seq<ProjectDownload>, files: Files, tokenDropped: bool)

  /**
   * What `LoopProjects` relies on of the step that handles one project: it reports that
   * project, skips it iff `skips` says so, gives a language loop `done` accepts, and saves
   * exactly the report's files without overwriting.
   */
  ghost predicate ProjectStepOk(step: (Project, Files) -> ProjectDownload, skips: Project -> bool,
                                done: (Project, LangLoop) -> bool) {
    forall p, fs ::
      && step(p, fs).name == p.name
      && (step(p, fs).DownloadSkipped? <==> skips(p))
      && (step(p, fs).Downloaded? ==> done(p, step(p, fs).loop))
      && SavesExactly(fs, ProjectOutcomes(step(p, fs)), FilesAfter(step(p, fs), fs))
  }

  /** The projects in order by `step`, each seeing the files the earlier ones left. */
  function LoopProjects(projects: seq<Project>, step: (Project, Files) -> ProjectDownload,
                        ghost skips: Project -> bool, ghost done: (Project, LangLoop) -> bool, fs: Files): (r: Run)
    requires ProjectStepOk(step, skips, done)
    ensures |r.reports| == |projects|
    ensures forall i :: 0 <= i < |projects| ==> r.reports[i].name == projects[i].name
    ensures forall i :: 0 <= i < |projects| ==> (r.reports[i].DownloadSkipped? <==> skips(projects[i]))
    ensures forall i :: 0 <= i < |projects| ==> r.reports[i].Downloaded? ==> done(projects[i], r.reports[i].loop)
    ensures SavesExactly(fs, RunOutcomes(r.reports), r.files)
    ensures r.tokenDropped <==> exists i :: 0 <= i < |r.reports| && LoggedOutIn(r.reports[i])
    decreases |projects|
  {
    if |projects| == 0 then
      SavesNothing(fs);
      Run([], fs, false)
    else
      var first := step(projects[0], fs);
      var rest := LoopProjects(projects[1..], step, skips, done, FilesAfter(first, fs));
      var all := [first] + rest.reports;
      assert all[1..] == rest.reports;
      ConsProjects(first, rest.reports, projects, skips, done);
      SavesCompose(fs, ProjectOutcomes(first), FilesAfter(first, fs), RunOutcomes(rest.reports), rest.files);
      LoggedOutCons(first, rest.reports);
      Run(all, rest.files, LoggedOutIn(first) || rest.tokenDropped)
  }

  /** The first project's report in front of reports that match the remaining projects. */
  lemma ConsProjects(first: ProjectDownload, reports: seq<ProjectDownload>, projects: seq<Project>,
                     skips: Project -> bool, done: (Project, LangLoop) -> bool)
    requires |projects| > 0 && first.name == projects[0].name
    requires (first.DownloadSkipped? <==> skips(projects[0])) && (first.Downloaded? ==> done(projects[0], first.loop))
    requires |reports| == |projects| - 1
    requires forall i :: 0 <= i < |reports| ==>
               && reports[i].name == projects[1..][i].name
               && (reports[i].DownloadSkipped? <==> skips(projects[1..][i]))
               && (reports[i].Downloaded? ==> done(projects[1..][i], reports[i].loop))
    ensures forall i :: 0 <= i < |projects| ==>
              && ([first] + reports)[i].name == projects[i].name
              && (([first] + reports)[i].DownloadSkipped? <==> skips(projects[i]))
              && (([first] + reports)[i].Downloaded? ==> done(projects[i], ([first] + reports)[i].loop))
  {
    var all := [first] + reports;
    forall i | 1 <= i < |projects|
      ensures && all[i].name == projects[i].name && (all[i].DownloadSkipped? <==> skips(projects[i]))
              && (all[i].Downloaded? ==> done(projects[i], all[i].loop))
    {
      assert all[i] == reports[i - 1] && projects[i] == projects[1..][i - 1];
    }
  }

  lemma LoggedOutCons(first: ProjectDownload, rest: seq<ProjectDownload>)
    ensures (exists i :: 0 <= i < |[first] + rest| && LoggedOutIn(([first] + rest)[i]))
            <==> (LoggedOutIn(first) || exists i :: 0 <= i < |rest| && LoggedOutIn(rest[i]))
  {
    var all := [first] + rest;
    if i :| 0 <= i < |rest| && LoggedOutIn(rest[i]) {
      assert all[i + 1] == rest[i];
    }
    if i :| 0 <= i < |all| && LoggedOutIn(all[i]) {
      if i > 0 {
        assert all[i] == rest[i - 1];
      }
    }
    assert all[0] == first;
  }

  /**
   * The projects in order, each seeing the files the earlier ones saved: a project is skipped
   * iff its workflow does not resolve, otherwise its languages are handled at the resolved
   * step; no file is overwritten, the directory gains exactly the saved files, and the token is
   * dropped iff some project's job listing answered 401.
   */
  function DownloadProjects(cc: CharClasses, projects: seq<Project>, workflowName: string, langs: seq<string>,
                            mode: Mode, saveDir: string,
                            listJobs: (string, JobQuery) -> Result<seq<Job>, ListError>,
                            fetch: (string, seq<string>, string) -> DownloadReply, fs: Files): (r: Run)
    ensures |r.reports| == |projects|
    ensures forall i :: 0 <= i < |projects| ==> r.reports[i].name == projects[i].name
    ensures forall i :: 0 <= i < |projects| ==>
              (r.reports[i].DownloadSkipped? <==>
                 (!Resolve(workflowName, projects[i].workflowSteps).AllLevels?
                  && !Resolve(workflowName, projects[i].workflowSteps).AtStep?))
    ensures forall i :: 0 <= i < |projects| ==>
              r.reports[i].Downloaded? ==> ProjectDone(cc, workflowName, langs, mode, saveDir, listJobs, fetch, projects[i], r.reports[i].loop)
    ensures SavesExactly(fs, RunOutcomes(r.reports), r.files)
    ensures r.tokenDropped <==> exists i :: 0 <= i < |r.reports| && LoggedOutIn(r.reports[i])
  {
    var step := (q, files) => DownloadProject(cc, q, workflowName, langs, mode, saveDir, listJobs, fetch, files);
    var skips := (q: Project) => !Resolve(workflowName, q.workflowSteps).AllLevels? && !Resolve(workflowName, q.workflowSteps).AtStep?;
    var done := (q, l) => ProjectDone(cc, workflowName, langs, mode, saveDir, listJobs, fetch, q, l);
    LoopProjects(projects, step, skips, done, fs)
  }

  datatype DownloadOutcome =
    | DownloadNotLoggedIn
    | DownloadNoProjects
    | DownloadNoLanguages
    | DownloadCancelled
    | DownloadFinished(run: Run)

  /**
   * `download_bilingual_files_by_language`: the log-in, project, language and save-directory
   * checks come first, in that order, and each stops the operation; then every selected
   * project is processed and reported, no file in the save directory is overwritten, and the
   * directory gains exactly the files the reports list as saved.
   */
  function DownloadAll(loggedIn: bool, selected: seq<Project>, langs: seq<string>, modeLabel: string,
                       saveDir: string, workflowText: string, cc: CharClasses,
                       listJobs: (string, JobQuery) -> Result<seq<Job>, ListError>,
                       fetch: (string, seq<string>, string) -> DownloadReply, fs: Files): (r: DownloadOutcome)
    ensures r.DownloadNotLoggedIn? <==> !loggedIn
    ensures r.DownloadNoProjects? <==> loggedIn && selected == []
    ensures r.DownloadNoLanguages? <==> loggedIn && selected != [] && langs == []
    ensures r.DownloadCancelled? <==> loggedIn && selected != [] && langs != [] && saveDir == ""
    ensures r.DownloadFinished? ==>
              && |r.run.reports| == |selected|
              && r.run == DownloadProjects(cc, selected, Strip(workflowText, cc.space), langs,
                                           ModeOf(modeLabel), saveDir, listJobs, fetch, fs)
              && SavesExactly(fs, RunOutcomes(r.run.reports), r.run.files)
  {
    if !loggedIn then DownloadNotLoggedIn
    else if selected == [] then DownloadNoProjects
    else if langs == [] then DownloadNoLanguages
    else if saveDir == "" then DownloadCancelled
    else
      var workflowName := Strip(workflowText, cc.space);
      DownloadFinished(DownloadProjects(cc, selected, workflowName, langs, ModeOf(modeLabel), saveDir, listJobs, fetch, fs))
  }
}

# Phrase job editor (multi-projects), modelled in Dafny

The Phrase job editor is a desktop client for the Phrase TMS REST API. A translation project
manager uses it to:

- log in, and at start-up reuse a stored token while it has not expired;
- search projects by name lines and client name, with de-duplication, date ordering and
  auto-selection of a single hit;
- pick target languages from the union of the selected projects' languages;
- set the status of every job at one workflow step across the selected projects, in batches
  of 50;
- download the bilingual `.mxliff` files of the selected projects. One merged file per
  language, or one file per job, goes into a folder per language and workflow step, and on the
  sequential schedule the model uses no existing file is overwritten (see Findings for the
  threaded per-job schedule).

This project models the decision logic under the GUI, written as pure functions over immutable
records:

- the paging loops of the project and job listings, with their error classification;
- the token-expiry check and start-up restore;
- the file and folder naming: sanitising, `splitext`, the `(k)` renaming of
  `get_unique_filename`;
- workflow-name resolution;
- the search merge and sort, and the project and language selection;
- the chunking, skip rule and tally of the bulk status change;
- the per-project, per-language structure of the bulk download, including which files end up
  where;
- the job list of one project.

The outside world becomes parameters:

- the server's page responses (`fetch`), the listing results (`list`, `listJobs`), the
  status request (`send`) and the download request (`fetch`) are functions;
- the clock is the integer `now`;
- ISO-8601 parsing is `parse`;
- Python's Unicode `isalnum`/`isspace` are the uninterpreted predicates of
  `Naming.CharClasses`;
- the save directory is a map from folder name to the set of file names in it.

Modules follow the script's structure:

- `Base` and `Text` hold wrappers and Python string operations;
- `Domain` holds the API records;
- `Token`, `Paging`, `Workflow`, `Naming`, `Search`, `BulkUpdate`, `Download` and `ShowJobs`
  hold the operations.

Two behaviours of the code worth noting. The model follows the code in both:

- In merged mode an empty sanitised project name is **not** replaced by "unnamed". Only the
  per-job path does that (lines 386 and 422-423).
- A 401 during the bulk status change does not stop the loop. `update_job_status` returns
  "Token expired", the job counts as failed, and the remaining jobs and projects are still
  sent, with the cleared headers.

## Model

| member | source | states |
|---|---|---|
| Token.IsTokenValid | Phrase_job_editor_multi-projects_download_mxliff.py:62-71 | a missing or empty expiry is invalid; an unparsable one is invalid; otherwise the token is valid iff now is before the parsed expiry |
| Token.ValidityIsMonotone | Phrase_job_editor_multi-projects_download_mxliff.py:62-71 | a token valid now was valid at every earlier instant |
| Token.ValidityWindow | Phrase_job_editor_multi-projects_download_mxliff.py:69 | valid one second before the expiry instant, invalid at and after it |
| Token.Restore | Phrase_job_editor_multi-projects_download_mxliff.py:878-900 | no stored record restores nothing; otherwise the user name is always restored, and the token is reused iff it is present, non-empty and valid now |
| Paging.Classify | Phrase_job_editor_multi-projects_download_mxliff.py:148-165 | a failed request reads as an expired token iff it was HTTP status 401; other statuses and network failures become a listing failure carrying their cause |
| Paging.Walk | Phrase_job_editor_multi-projects_download_mxliff.py:130-146 | consecutive pages are requested from the start page until the first page that is last or fails; success iff that page succeeded, in which case the result is every requested page's items in page order; a failure discards the earlier pages and returns the classified error |
| Paging.ListAll | Phrase_job_editor_multi-projects_download_mxliff.py:122-146 | the same guarantees for the loop starting at page 0 |
| Paging.WalkIgnoresStop | Phrase_job_editor_multi-projects_download_mxliff.py:130-146 | the listing is determined by the server alone: any page at which the loop would stop yields the same result |
| Paging.ConstantTotalPages | Phrase_job_editor_multi-projects_download_mxliff.py:143-146 | a server reporting totalPages T on every page is read in exactly max(1, T) requests, giving all those pages' items in order |
| Paging.MissingTotalIsOnePage | Phrase_job_editor_multi-projects_download_mxliff.py:143 | a page without totalPages is taken as the only page: one request, that page's items |
| Paging.FailureDiscardsPages | Phrase_job_editor_multi-projects_download_mxliff.py:148-165 | a failure on page k after k good pages returns only the classified error, after k + 1 requests |
| Paging.NormalizeProject | Phrase_job_editor_multi-projects_download_mxliff.py:137-141 | every field of a listed project is kept, and a missing targetLangs becomes the empty list |
| Paging.ListProjects | Phrase_job_editor_multi-projects_download_mxliff.py:118-167 | `list_projects`: the paging guarantees, with every project normalised |
| Paging.ListJobs | Phrase_job_editor_multi-projects_download_mxliff.py:170-212 | `list_jobs`: the paging guarantees, with jobs kept as returned |
| Paging.ProjectFilters | Phrase_job_editor_multi-projects_download_mxliff.py:125-128 | a name or client filter is sent iff it is given and non-empty, and then unchanged |
| Paging.JobFilters | Phrase_job_editor_multi-projects_download_mxliff.py:181-184 | a level filter is sent iff it is given and non-zero; a language filter iff it is given and non-empty |
| Workflow.FindStep | Phrase_job_editor_multi-projects_download_mxliff.py:350 | the index found is the first step with that name, and nothing is found iff no step has that name |
| Workflow.Resolve | Phrase_job_editor_multi-projects_download_mxliff.py:343-355 | "No Workflow" means every level; an empty name skips; a name that no step carries skips; otherwise the first step with that name gives the level and abbreviation |
| Workflow.LevelFilter | Phrase_job_editor_multi-projects_download_mxliff.py:694-701 | every level gives no filter; a found step gives its level |
| Workflow.Abbreviation | Phrase_job_editor_multi-projects_download_mxliff.py:342-355 | the abbreviation is empty without a workflow and is the step's abbreviation otherwise |
| Workflow.TranslationExample | Phrase_job_editor_multi-projects_download_mxliff.py:343-355 | a one-step project resolves that step's name to its level and skips any other name |
| Naming.KeepAllowed | Phrase_job_editor_multi-projects_download_mxliff.py:386 | the filtered name has only allowed characters and is no longer than the input; an input made of allowed characters is kept whole |
| Naming.KeepAllowedAppend | Phrase_job_editor_multi-projects_download_mxliff.py:386 | filtering distributes over concatenation, so the kept characters are exactly the allowed ones, in their original order |
| Naming.KeepAllowedSingle | Phrase_job_editor_multi-projects_download_mxliff.py:420-421 | one character is kept iff it is alphanumeric, space, hyphen or underscore |
| Naming.Sanitize | Phrase_job_editor_multi-projects_download_mxliff.py:420-421 | the result is a prefix of the filtered name; what it drops is all whitespace; it does not end in whitespace |
| Naming.SanitizeIdempotent | Phrase_job_editor_multi-projects_download_mxliff.py:386 | sanitising a sanitised name changes nothing |
| Naming.SafeLang | Phrase_job_editor_multi-projects_download_mxliff.py:371 | the language code with every '/' turned into '_', position by position, and no '/' left |
| Naming.FolderName | Phrase_job_editor_multi-projects_download_mxliff.py:378-381 | the folder starts with the safe language; it is longer than the language exactly when there is a workflow abbreviation; it holds no '/' when the abbreviation holds none |
| Naming.FolderNamesDiffer | Phrase_job_editor_multi-projects_download_mxliff.py:378-381 | within one language, two different workflow abbreviations never share a folder |
| Naming.FileName | Phrase_job_editor_multi-projects_download_mxliff.py:387-390 | the file name starts with the stem and an underscore, ends in ".mxliff", and holds no '/' when neither the stem nor the abbreviation does |
| Naming.MergedStem | Phrase_job_editor_multi-projects_download_mxliff.py:386 | the merged stem is the project name's allowed characters with the trailing whitespace, and only that, dropped: a prefix of them, every dropped character whitespace, the last kept one not; already sanitised; empty, with no placeholder, iff those characters are all whitespace |
| Naming.PerJobStem | Phrase_job_editor_multi-projects_download_mxliff.py:407-423 | never empty; "unnamed" exactly when the sanitised root of the job file name (without its extension, "unknown" when absent) is empty or is itself "unnamed"; otherwise the root's allowed characters with the trailing whitespace, and only that, dropped, and left unchanged by sanitising again |
| Naming.FileNameExtendsFolder | Phrase_job_editor_multi-projects_download_mxliff.py:378-390 | a file name is `<stem>_<folder name>.mxliff`, where the folder is the safe language, plus `_<abbreviation>` when there is one |
| Naming.PathJoin | Phrase_job_editor_multi-projects_download_mxliff.py:382 | POSIX `os.path.join`: an absolute second part replaces the first; otherwise exactly one '/' separates them |
| Naming.LastIndex | Phrase_job_editor_multi-projects_download_mxliff.py:299 | the position of the last occurrence of the character, or -1 when it does not occur |
| Naming.SplitExt | Phrase_job_editor_multi-projects_download_mxliff.py:299 | the root and extension concatenate back to the name; the extension is empty or one dot followed by neither dot nor '/' |
| Naming.SplitExtOfJoin | Phrase_job_editor_multi-projects_download_mxliff.py:299 | `splitext` gives back a root and a well-formed extension joined together, unless the root's last component is all dots |
| Naming.GeneratedNamesSplitAtExtension | Phrase_job_editor_multi-projects_download_mxliff.py:387-393 | every generated file name splits into `<stem>_<folder>` and ".mxliff", so the renaming counter lands just before ".mxliff" |
| Naming.CandidateInjective | Phrase_job_editor_multi-projects_download_mxliff.py:304 | different counters give different ` (k)` names |
| Naming.AttemptInjective | Phrase_job_editor_multi-projects_download_mxliff.py:301-305 | the names the loop tries are pairwise distinct |
| Naming.AttemptSetSize | Phrase_job_editor_multi-projects_download_mxliff.py:301-305 | the first n tries are n different names |
| Naming.FirstFree | Phrase_job_editor_multi-projects_download_mxliff.py:303-305 | from any point after which every earlier try was taken, there is a first try that is free, and every try before it is taken |
| Naming.UniqueName | Phrase_job_editor_multi-projects_download_mxliff.py:297-307 | the name is not in the folder; a free name is returned unchanged; otherwise it is the first numbered try that is free, all earlier tries being taken |
| Naming.FirstFreeIsUnique | Phrase_job_editor_multi-projects_download_mxliff.py:303-305 | only one counter can be the first free one |
| Naming.UniqueFilename | Phrase_job_editor_multi-projects_download_mxliff.py:297-307 | the loop terminates with a name not in the folder; a free name comes back with counter 0; otherwise it is `base (k)ext` for the least free k ≥ 1, with k ≤ the folder's size, and equals `UniqueName` |
| Search.FirstIndex | Phrase_job_editor_multi-projects_download_mxliff.py:589 | the position of the first project with that uid |
| Search.DedupSkip | Phrase_job_editor_multi-projects_download_mxliff.py:589-590 | a project whose uid was already kept leaves the de-duplicated list as it is, and it stays the de-duplication of the longer input |
| Search.DedupAdd | Phrase_job_editor_multi-projects_download_mxliff.py:589-592 | a project with a new uid is appended, and the result is the de-duplication of the longer input |
| Search.Dedup | Phrase_job_editor_multi-projects_download_mxliff.py:581-598 | the same uids, each once, each being the project at that uid's first occurrence, in first-occurrence order |
| Search.Insert | Phrase_job_editor_multi-projects_download_mxliff.py:606 | inserting into a list sorted latest first keeps it sorted, and adds exactly that project |
| Search.SortByDateDesc | Phrase_job_editor_multi-projects_download_mxliff.py:606 | `dateCreated` is non-increasing along the result, which is a permutation of the input |
| Search.SortIsStable | Phrase_job_editor_multi-projects_download_mxliff.py:606 | projects with the same creation date keep their relative order (Python's sort is stable) |
| Search.NameLines | Phrase_job_editor_multi-projects_download_mxliff.py:574 | no name is blank, and there are no more names than lines |
| Search.NameLinesFromLines | Phrase_job_editor_multi-projects_download_mxliff.py:574 | every name is one of the lines, stripped |
| Search.NameLinesKeepLines | Phrase_job_editor_multi-projects_download_mxliff.py:574 | every line that is not blank once stripped is among the names |
| Search.NameLinesAppend | Phrase_job_editor_multi-projects_download_mxliff.py:574 | the names of two runs of lines are those of the first run followed by those of the second, so the lines' order is kept |
| Search.NameLinesOfNames | Phrase_job_editor_multi-projects_download_mxliff.py:574 | lines that are already stripped and non-blank are read back unchanged |
| Search.ProjectNames | Phrase_job_editor_multi-projects_download_mxliff.py:570-574 | no name searched for is blank |
| Search.ProjectNamesRoundTrip | Phrase_job_editor_multi-projects_download_mxliff.py:570-574 | names typed one per line, non-empty and without surrounding whitespace, are read back exactly and in order |
| Search.BlankBoxHasNoNames | Phrase_job_editor_multi-projects_download_mxliff.py:570-576 | a name box holding only whitespace gives no names |
| Search.Queries | Phrase_job_editor_multi-projects_download_mxliff.py:585-594 | one query per name, each carrying the client filter; with no names, a single query by client |
| Search.RunQueries | Phrase_job_editor_multi-projects_download_mxliff.py:585-598 | success iff every query succeeds; every uid any query returned is in the result, and every result uid came from some query; otherwise the error of the first failing query |
| Search.Merge | Phrase_job_editor_multi-projects_download_mxliff.py:581-606 | the merged list has exactly the queried uids, no duplicates, latest first, and the same projects as the first-occurrence de-duplication |
| Search.Search | Phrase_job_editor_multi-projects_download_mxliff.py:563-580 | no log-in and no criteria are reported before any request, in that order; otherwise the queries for the stripped names and client run |
| Search.SearchProjects | Phrase_job_editor_multi-projects_download_mxliff.py:570-580 | on the boxes' text: no log-in is reported first; criteria are missing iff the name box gives no names and the stripped client box is empty; otherwise one query per name read from the box, each with the stripped client filter |
| Search.RunSearch | Phrase_job_editor_multi-projects_download_mxliff.py:581-606 | a failure is the error of the first failing query, and the token is dropped iff that error is a 401; a hit list is exactly the merge of the queries' results: non-empty, duplicate-free, sorted latest first, with exactly the uids the queries returned; nothing is found iff every query returned nothing |
| Search.AutoLanguages | Phrase_job_editor_multi-projects_download_mxliff.py:622-629 | a project's languages are auto-selected iff it has exactly one; otherwise none are |
| Search.AfterSearch | Phrase_job_editor_multi-projects_download_mxliff.py:609-629 | a single hit becomes the selection, with the auto-selected languages; any other outcome leaves the selection alone |
| Search.ConfirmProjects | Phrase_job_editor_multi-projects_download_mxliff.py:502-526 | nothing picked keeps the selection; otherwise the picked projects in listbox order, with auto-selected languages for one project and none for several |
| Search.SingleHitAutoSelects | Phrase_job_editor_multi-projects_download_mxliff.py:612-625 | a single hit with only "de" as target selects that project and "de" |
| Search.InsertUnique | Phrase_job_editor_multi-projects_download_mxliff.py:248-257 | adding a language to a strictly sorted list keeps it strictly sorted, with exactly that language added |
| Search.SortedUnique | Phrase_job_editor_multi-projects_download_mxliff.py:257 | `sorted(set(xs))`: strictly increasing, with exactly the elements of the input |
| Search.StrictlySortedUnique | Phrase_job_editor_multi-projects_download_mxliff.py:257 | two strictly increasing lists with the same elements are equal, so the sorted set is unique |
| Search.AllTargetLangs | Phrase_job_editor_multi-projects_download_mxliff.py:248-251 | a language is collected iff some selected project has it |
| Search.EmptyUnion | Phrase_job_editor_multi-projects_download_mxliff.py:253 | no collected language means no selected project has a target language |
| Search.ChooseLanguages | Phrase_job_editor_multi-projects_download_mxliff.py:241-257 | no selection and no languages are reported iff they occur; otherwise the choices are strictly sorted and are exactly the union of the selected projects' target languages |
| Search.ConfirmLanguages | Phrase_job_editor_multi-projects_download_mxliff.py:259-268 | nothing picked keeps the selection; otherwise the picked languages in listbox order; the projects never change |
| BulkUpdate.Chunks | Phrase_job_editor_multi-projects_download_mxliff.py:734-735 | the batches concatenate to the job list; each is non-empty and at most 50 long; all but the last are exactly 50; there are ⌈n/50⌉ of them |
| BulkUpdate.ChunksOf120 | Phrase_job_editor_multi-projects_download_mxliff.py:734-735 | 120 jobs are split 50, 50, 20 |
| BulkUpdate.PoolSize | Phrase_job_editor_multi-projects_download_mxliff.py:736 | the pool size is the smaller of the limit and the count, and is at least 1 for a non-empty batch |
| BulkUpdate.BatchPoolsArePositive | Phrase_job_editor_multi-projects_download_mxliff.py:734-737 | every batch gets between 1 and 50 workers |
| BulkUpdate.ReplyText | Phrase_job_editor_multi-projects_download_mxliff.py:476-496 | the text is the success message iff the status was set; a 401 is "Token expired"; other failures are prefixed "HTTP error: " or "Request error: " |
| BulkUpdate.ReplyMessage | Phrase_job_editor_multi-projects_download_mxliff.py:727-732 | a job's line is the success message iff the status was set, and starts with the failure prefix otherwise |
| BulkUpdate.UpdateSingle | Phrase_job_editor_multi-projects_download_mxliff.py:718-732 | a job is skipped without a request iff a level was chosen and the job is not at exactly that level; otherwise its line is the request's outcome; the filename defaults to "N/A" |
| BulkUpdate.SkipMakesNoRequest | Phrase_job_editor_multi-projects_download_mxliff.py:724-725 | a skipped job's line is the same whatever the server would answer |
| BulkUpdate.TallyAppend | Phrase_job_editor_multi-projects_download_mxliff.py:734-745 | tallying two runs of lines one after the other adds their counts, so batches can be tallied in turn |
| BulkUpdate.TallyPermutation | Phrase_job_editor_multi-projects_download_mxliff.py:739-745 | the counts do not depend on the order in which completions arrive |
| BulkUpdate.CountsCoverJobs | Phrase_job_editor_multi-projects_download_mxliff.py:742-745 | successes, failures and skips add up to the number of jobs |
| BulkUpdate.TallyCountsReplies | Phrase_job_editor_multi-projects_download_mxliff.py:742-745 | counting by message text counts exactly the requests that set the status as successes, every other request as a failure, and skips as neither |
| BulkUpdate.ConsistentCount | Phrase_job_editor_multi-projects_download_mxliff.py:742-745 | one report line counts as a success iff its request set the status, as a failure iff its request was sent and did not, and as neither when the job was skipped |
| BulkUpdate.TallyCounts | Phrase_job_editor_multi-projects_download_mxliff.py:742-745 | the successes are the lines equal to the success text; each line counts at most once; with no skip line every line counts |
| BulkUpdate.MapOverBatches | Phrase_job_editor_multi-projects_download_mxliff.py:734-738 | processing the batches and concatenating is processing the whole list |
| BulkUpdate.RunBatches | Phrase_job_editor_multi-projects_download_mxliff.py:714-750 | one line per listed job, in job order, each as `update_single_job` gives it, and a tally of exactly the successful and failed requests |
| BulkUpdate.UpdateProject | Phrase_job_editor_multi-projects_download_mxliff.py:690-756 | an empty or unmatched workflow skips the project; a failed listing reports its error; an empty listing says so; otherwise the jobs listed at the step's level go through the batches |
| BulkUpdate.OtherLevelsAreSkipped | Phrase_job_editor_multi-projects_download_mxliff.py:721-725 | with a step chosen, a listed job is skipped iff it is not at that step's level |
| BulkUpdate.UpdateEach | Phrase_job_editor_multi-projects_download_mxliff.py:690 | one report per selected project, in order |
| BulkUpdate.UpdateAll | Phrase_job_editor_multi-projects_download_mxliff.py:672-756 | the log-in, selection and status checks come first, in that order; then every project is reported, a skip or error in one not stopping the rest; the token is dropped iff a listing or request met a 401 |
| Download.ModeOf | Phrase_job_editor_multi-projects_download_mxliff.py:373 | merged mode iff the mode label is the merged label; any other label means one file per job |
| Download.PerJobRequests | Phrase_job_editor_multi-projects_download_mxliff.py:404-436 | one request per job, for that job alone, into the language folder, under the job's generated file name |
| Download.SingleJobRequests | Phrase_job_editor_multi-projects_download_mxliff.py:435 | requests of one job each, one per listed job, together request exactly the listed jobs in order |
| Download.LangRequests | Phrase_job_editor_multi-projects_download_mxliff.py:371-436 | in either mode every listed job is requested exactly once, in listing order, into the language folder; merged mode makes a single request under the project's generated name |
| Download.SaveOne | Phrase_job_editor_multi-projects_download_mxliff.py:430-435 | the name is the unique name against the folder's contents, so it is not already there, and the file is fetched to `saveDir/folder/name` |
| Download.DownloadMessage | Phrase_job_editor_multi-projects_download_mxliff.py:232-238 | the message starts with the success text iff the file was written, and is then followed by the save path; a failure's message ends with the failure's detail |
| Download.Record | Phrase_job_editor_multi-projects_download_mxliff.py:229-230 | a saved file is added to its folder and nothing else changes; a failed request leaves the directory alone |
| Download.SaveStep | Phrase_job_editor_multi-projects_download_mxliff.py:393-397 | one save against the directory followed by saves against what it left overwrites nothing |
| Download.SavesCompose | Phrase_job_editor_multi-projects_download_mxliff.py:393-397 | saves made against the directory earlier saves left add up: together they overwrite nothing and add exactly both lots of files |
| Download.SaveAll | Phrase_job_editor_multi-projects_download_mxliff.py:392-397 | for any save that picks a name not yet in its folder: one outcome per request, in order, no file overwritten, and the folders gain exactly the saved files |
| Download.SaveInOrder | Phrase_job_editor_multi-projects_download_mxliff.py:392-397 | requests carried out one after another overwrite no file, the directory gains exactly the saved files, and each file is saved under the unique name of its wanted file name against its folder as the earlier saves left it |
| Download.SaveAllNames | Phrase_job_editor_multi-projects_download_mxliff.py:393 | when each save picks the unique name against the folder it is given, every outcome bears the unique name against the folder plus the files saved before it |
| Download.NamedCons | Phrase_job_editor_multi-projects_download_mxliff.py:393 | a file named against the folder, in front of files named against the folder it left, keeps that naming for the whole sequence |
| Download.NamedAsWantedAttempts | Phrase_job_editor_multi-projects_download_mxliff.py:297-307 | a file named as wanted is saved under its wanted name or one of that name's " (k)" renames |
| Download.SaveRacing | Phrase_job_editor_multi-projects_download_mxliff.py:438-441 | per-job mode as written, for a language with at most 10 jobs (one pool worker each), on the schedule where every thread picks its name before any file is written: every name is chosen against the folder as it was before |
| Download.RacingJobsCollide | Phrase_job_editor_multi-projects_download_mxliff.py:430-441 | on that schedule, two jobs of one language with the same file name are saved under one name, so one file overwrites the other |
| Download.InOrderJobsDoNotCollide | Phrase_job_editor_multi-projects_download_mxliff.py:297-307 | saved one after the other, the two files get different names and both end up in the folder |
| Download.Workers | Phrase_job_editor_multi-projects_download_mxliff.py:439 | per-job mode uses between 1 and 10 workers, and no more than there are jobs |
| Download.DownloadLang | Phrase_job_editor_multi-projects_download_mxliff.py:363-452 | on the sequential schedule: the step reports its own language; no jobs is reported iff the listing was empty; otherwise each of the language's requests is carried out once, in order, with the mode's worker count, fetched to its folder, and saved under the unique name of its wanted file name against the folder as the earlier saves left it; no file is overwritten and the folders gain exactly the saved files |
| Download.LoopLangs | Phrase_job_editor_multi-projects_download_mxliff.py:357-367 | for any language step that reports its language, gives a report its relation accepts and saves exactly its files: languages are handled in order, one report each, until a listing fails, each report accepted for that language's listed jobs; the loop ends early iff a listing fails, with that error; across the reports nothing is overwritten and the directory gains exactly the saved files |
| Download.DownloadLangs | Phrase_job_editor_multi-projects_download_mxliff.py:357-457 | on the sequential schedule: the languages are handled in order, each listed at the workflow level and in that language, each report carrying one outcome per request of that language's listed jobs, saved under the wanted file name or one of its " (k)" renames; the loop stops early iff a listing fails, with that language's error; nothing is overwritten and the directory gains exactly the saved files |
| Download.DownloadProject | Phrase_job_editor_multi-projects_download_mxliff.py:335-355 | an empty or unmatched workflow skips the project before any listing; otherwise its languages are handled with the step's level and abbreviation as DownloadLangs states, each file under its wanted name or a rename of it; nothing is overwritten and the directory gains exactly the files the report lists |
| Download.LoopProjects | Phrase_job_editor_multi-projects_download_mxliff.py:335-458 | for any project step that reports its project, skips iff its predicate says so, gives an accepted language loop and saves exactly its files: one report per project, in order; nothing is overwritten and the directory gains exactly the saved files; the token is dropped iff some project's loop was ended by a 401 |
| Download.DownloadProjects | Phrase_job_editor_multi-projects_download_mxliff.py:335-458 | one report per selected project, in order, skipped iff its workflow does not resolve, otherwise its languages handled at the resolved level and abbreviation as DownloadLangs states, each file under its wanted name or a rename of it; nothing is overwritten and the directory gains exactly the saved files; the token is dropped iff some job listing answered 401 |
| Download.DownloadAll | Phrase_job_editor_multi-projects_download_mxliff.py:310-461 | the log-in, project, language and save-directory checks come first, in that order; then every selected project is processed with the stripped workflow name as DownloadProjects states; no file is overwritten and the directory gains exactly the files the reports list as saved |
| ShowJobs.ShowLevel | Phrase_job_editor_multi-projects_download_mxliff.py:648-656 | "No Workflow" lists every level; a matching step gives its level; an unmatched non-empty name is an error carrying that name, while an unmatched empty name lists every level |
| ShowJobs.ShowProject | Phrase_job_editor_multi-projects_download_mxliff.py:658-669 | an unmatched workflow is reported; a failed listing carries its error, and the token is dropped iff the listing answered 401; an empty listing says so; otherwise one `uid: filename` line per job |
| ShowJobs.EmptyNameListsAllLevels | Phrase_job_editor_multi-projects_download_mxliff.py:652-656 | with no step named "", an empty workflow name lists every level rather than being an error |
| ShowJobs.ShowJobsAsWritten | Phrase_job_editor_multi-projects_download_mxliff.py:636-646 | as written: no log-in and several projects are reported, but an empty selection crashes |
| ShowJobs.ShowJobsCrashesWithoutSelection | Phrase_job_editor_multi-projects_download_mxliff.py:641-646 | right after log-in, before any search, the button crashes |
| ShowJobs.ShowJobs | Phrase_job_editor_multi-projects_download_mxliff.py:636-669 | corrected: never crashes; an empty selection is reported as the other operations report it |
| ShowJobs.CorrectionOnlyTouchesEmptySelection | Phrase_job_editor_multi-projects_download_mxliff.py:636-646 | the corrected and the written operation differ exactly on a logged-in call with nothing selected |
| Text.NatToString | Phrase_job_editor_multi-projects_download_mxliff.py:304 | `str(k)`: non-empty decimal digits, with no leading zero |
| Text.ParseNatToString | Phrase_job_editor_multi-projects_download_mxliff.py:304 | parsing the printed digits gives the number back |
| Text.NatToStringInjective | Phrase_job_editor_multi-projects_download_mxliff.py:304 | different counters print differently |
| Text.ReplaceChar | Phrase_job_editor_multi-projects_download_mxliff.py:371 | `str.replace` of one character: same length, and exactly the occurrences are replaced |
| Text.Split | Phrase_job_editor_multi-projects_download_mxliff.py:574 | `str.split('\n')`: pieces without the separator that join back to the text |
| Text.SplitJoin | Phrase_job_editor_multi-projects_download_mxliff.py:574 | splitting undoes joining pieces that hold no separator |
| Text.TrimRight | Phrase_job_editor_multi-projects_download_mxliff.py:386 | `rstrip()`: the longest prefix not ending in whitespace, having dropped only whitespace |
| Text.TrimLeft | Phrase_job_editor_multi-projects_download_mxliff.py:570 | `lstrip()`: the longest suffix not starting with whitespace, having dropped only whitespace |
| Text.LessTransitive | Phrase_job_editor_multi-projects_download_mxliff.py:606 | Python's string order is transitive |
| Text.LessTrichotomy | Phrase_job_editor_multi-projects_download_mxliff.py:606 | any two strings are equal or ordered one way |
| Base.FlattenAppend | Phrase_job_editor_multi-projects_download_mxliff.py:734-735 | concatenating a sequence of batches distributes over appending sequences of batches |

## Left out

- The Tkinter GUI: widgets, dialogs, enabling and disabling buttons, the workflow combo box's
  filter (`on_keyrelease`), and the text written to the job pane. Outcomes are datatypes
  rather than displayed strings.
- `login`, and the credential file: `save_credentials`, `load_credentials` and
  `clear_credentials`. These are file I/O and a network call. `Token.Restore` takes the loaded
  record, or `None`, as its input.
- HTTP, including the urllib3 `Retry`/`HTTPAdapter` backoff. Each request is an abstract
  outcome: success, status 401, another status, or a network failure. A 5xx that persists
  through the retries is one opaque failure, and error detail texts are parameters.
- Thread pools and `as_completed`. Status updates are a sequential fold: completion order only
  reorders report lines, and `BulkUpdate.TallyPermutation` shows the tally is unaffected.
  Per-job downloads are modelled both on the schedule where every name is chosen first, and
  sequentially; see Findings. The first schedule exists only while a language has at most 10
  jobs, one per pool worker, and `Download.SaveRacing` is defined only for that case.
- File system effects: `os.makedirs`, writing the response body, and a write that fails. A
  download's outcome comes from the `fetch` parameter, and a saved file is recorded in the
  folder's name set. `os.path.exists(join(dir, name))` is membership of `name` in the
  folder's set, which matches for the generated names when the workflow abbreviation contains
  no '/' (`Naming.FolderName`, `Naming.FileName`).
- `datetime.fromisoformat`, the `'Z'` replacement and time zones: the `parse` parameter.
- `datetime.now` and `time.time()`: the `now` parameter, and elapsed-time reporting is dropped.
- Logging.
- Unicode `str.isalnum` and `str.isspace`: uninterpreted predicates rather than an ASCII
  table.
- Windows paths (`ntpath`). Joining and `splitext` follow POSIX.
- Malformed server data:
  - `totalPages` present but null, which raises `TypeError` in the loop;
  - a job or project lacking `uid`, `name` or `dateCreated`, which raises `KeyError`;
  - a workflow step whose `workflowLevel` is null;
  - a job whose `filename` is present but null. The model's `Job.filename` is either absent or
    a string, and absent reads as "unknown" (line 407) or "N/A" (line 720). The code passes the
    null on instead: `os.path.splitext(None)` raises `TypeError` (line 419), which the per-job
    download reports as a "下載失敗" line (lines 449-450), and the bulk status change prints
    "None" (line 720);
  - a workflow abbreviation containing '/'. It goes unsanitised into the folder and file names
    (lines 379, 388, 412 and 426), so the file's path names a directory that line 382 never
    created; the write at line 229 then fails and the download reports an error (lines 237-238).
    The model's `fetch` is free to report that write as saved.
  Levels and records are modelled as always present where the code indexes them directly.
- The session after a 401. A listing that answers 401 clears `API_TOKEN` and `HEADERS`; each
  operation reports this as its outcome's `tokenDropped` flag (`Search.RunSearch`,
  `ShowJobs.ShowProject`, `Download.LoopProjects`, `BulkUpdate.UpdateAll`). The logged-out state is
  not carried into later operations, and the answers to later requests in the same operation
  still come from the listing and request parameters.
- Download.DownloadLang, Download.LoopLangs, Download.DownloadLangs, Download.DownloadProject,
  Download.DownloadProjects, Download.DownloadAll: per-job mode is composed on the sequential
  schedule (`Download.SaveInOrder`), not on the thread pool's. Their no-overwrite promises hold
  for that schedule only; on the schedule where every thread picks its name first, two jobs
  with one file name collide (`Download.RacingJobsCollide`, under Findings).
- The paging loop does not always terminate: a server that never reports a last page makes
  `while True` spin forever. `Paging.Walk` covers only the terminating case, where some page
  stops the loop, and its ghost `stop` argument names one such page.

## Findings

| source | as written | input that shows it | evidently intended | confidence | as-written member | corrected member |
|---|---|---|---|---|---|---|
| Phrase_job_editor_multi-projects_download_mxliff.py:641-646 | `show_jobs` checks for more than one selected project but not for none, then reads `selected_projects_global[0]` | log in and press the show-jobs button before any search: the selection is empty and the callback raises `IndexError` | report "select a project first", as the bulk status change (lines 677-679) and the download (lines 315-317) do | not executed; follows from the code path | ShowJobs.ShowJobsAsWritten, ShowJobs.ShowJobsCrashesWithoutSelection | ShowJobs.ShowJobs, ShowJobs.CorrectionOnlyTouchesEmptySelection |
| Phrase_job_editor_multi-projects_download_mxliff.py:430-441 | per-job downloads run in up to 10 threads; each picks its name with `get_unique_filename` and writes the file only after the download returns | per-job mode with two jobs in one language that have the same file name (for example two parts of a split job): both threads find the name free, and the second write replaces the first file | every job's file is kept, the second being renamed `<name> (1).mxliff` | not executed; depends on the thread schedule, and is likely because the write waits for a network round trip | Download.SaveRacing, Download.RacingJobsCollide | Download.SaveInOrder, Download.InOrderJobsDoNotCollide |

/**
 * Project search (`search_project`, lines 563-633), the project picker's confirmation
 * (`select_projects`, lines 502-526) and the target-language choices (`select_target_languages`,
 * lines 241-268).
 *
 * One `list_projects` call is made per non-blank name line (or one by client alone). The
 * listing itself is the parameter `list`, from query to the listing's outcome.
 */
module Search {
  import opened Base
  import opened Domain
  import opened Text
  import opened Paging

  /** The set of uids in a list of projects. */
  function Uids(ps: seq<Project>): set<string> {
    set i | 0 <= i < |ps| :: ps[i].uid
  }

  predicate NoDuplicateUids(ps: seq<Project>) {
    forall i, j :: 0 <= i < j < |ps| ==> ps[i].uid != ps[j].uid
  }

  /** The position of the first project carrying `u`. */
  function FirstIndex(ps: seq<Project>, u: string): (idx: nat)
    requires u in Uids(ps)
    ensures idx < |ps| && ps[idx].uid == u
    ensures forall k :: 0 <= k < idx ==> ps[k].uid != u
    decreases |ps|
  {
    if ps[0].uid == u then 0
    else
      assert u in Uids(ps[1..]) by {
        var i :| 0 <= i < |ps| && ps[i].uid == u;
        assert ps[1..][i - 1].uid == u;
      }
      1 + FirstIndex(ps[1..], u)
  }

  lemma FirstIndexUnique(ps: seq<Project>, u: string, i: nat)
    requires i < |ps| && ps[i].uid == u
    requires forall k :: 0 <= k < i ==> ps[k].uid != u
    ensures u in Uids(ps) && FirstIndex(ps, u) == i
  {
    assert u in Uids(ps);
    var f := FirstIndex(ps, u);
    assert !(f < i) && !(i < f);
  }

  lemma FirstIndexExtend(pre: seq<Project>, p: Project, u: string)
    requires u in Uids(pre + [p])
    ensures u in Uids(pre) ==> FirstIndex(pre + [p], u) == FirstIndex(pre, u)
    ensures u !in Uids(pre) ==> u == p.uid && FirstIndex(pre + [p], u) == |pre|
  {
    var ps := pre + [p];
    if u in Uids(pre) {
      var f := FirstIndex(pre, u);
      FirstIndexUnique(ps, u, f);
    } else {
      assert forall k :: 0 <= k < |pre| ==> ps[k].uid != u;
      var i :| 0 <= i < |ps| && ps[i].uid == u;
      assert i == |pre|;
      FirstIndexUnique(ps, u, |pre|);
    }
  }

  lemma UidsExtend(pre: seq<Project>, p: Project)
    ensures Uids(pre + [p]) == Uids(pre) + {p.uid}
  {
    var ps := pre + [p];
    forall u | u in Uids(ps) ensures u in Uids(pre) + {p.uid} {
      var i :| 0 <= i < |ps| && ps[i].uid == u;
      if i < |pre| {
        assert pre[i].uid == u;
      }
    }
    forall u | u in Uids(pre) ensures u in Uids(ps) {
      var i :| 0 <= i < |pre| && pre[i].uid == u;
      assert ps[i].uid == u;
    }
    assert ps[|pre|].uid == p.uid;
  }

  /**
   * `r` is `ps` with repeated uids dropped: it carries the same uids, each once, each as the
   * project at that uid's first occurrence in `ps`, in the order of those first occurrences.
   */
  predicate IsDedupOf(r: seq<Project>, ps: seq<Project>) {
    && Uids(r) == Uids(ps)
    && NoDuplicateUids(r)
    && (forall i :: 0 <= i < |r| ==> r[i].uid in Uids(ps) && r[i] == ps[FirstIndex(ps, r[i].uid)])
    && (forall i, j :: 0 <= i < j < |r| ==>
          r[i].uid in Uids(ps) && r[j].uid in Uids(ps) && FirstIndex(ps, r[i].uid) < FirstIndex(ps, r[j].uid))
  }

  /** Appending a project does not move the first occurrence of any uid already kept. */
  lemma KeptStayFirst(pre: seq<Project>, p: Project, kept: seq<Project>)
    requires IsDedupOf(kept, pre)
    ensures forall i :: 0 <= i < |kept| ==>
              && kept[i].uid in Uids(pre + [p])
              && FirstIndex(pre + [p], kept[i].uid) == FirstIndex(pre, kept[i].uid)
              && kept[i] == (pre + [p])[FirstIndex(pre + [p], kept[i].uid)]
  {
    var ps := pre + [p];
    forall i | 0 <= i < |kept|
      ensures kept[i].uid in Uids(ps) && FirstIndex(ps, kept[i].uid) == FirstIndex(pre, kept[i].uid)
      ensures kept[i] == ps[FirstIndex(ps, kept[i].uid)]
    {
      UidsExtend(pre, p);
      FirstIndexExtend(pre, p, kept[i].uid);
      var f := FirstIndex(pre, kept[i].uid);
      assert ps[f] == pre[f];
    }
  }

  /** A project whose uid was seen is dropped. */
  lemma DedupSkip(pre: seq<Project>, p: Project, kept: seq<Project>)
    requires IsDedupOf(kept, pre) && p.uid in Uids(kept)
    ensures IsDedupOf(kept, pre + [p])
  {
    UidsExtend(pre, p);
    KeptStayFirst(pre, p, kept);
  }

  /** Appending a project with a new uid keeps the uids distinct. */
  lemma AddKeepsDistinct(kept: seq<Project>, p: Project)
    requires NoDuplicateUids(kept) && p.uid !in Uids(kept)
    ensures NoDuplicateUids(kept + [p])
  {
    var r := kept + [p];
    forall i, j | 0 <= i < j < |r| ensures r[i].uid != r[j].uid {
      assert r[i] == kept[i];
      if j < |kept| {
        assert r[j] == kept[j];
      } else {
        assert kept[i].uid in Uids(kept);
      }
    }
  }

  /** The appended project is the first occurrence of its uid, and the kept ones stay first. */
  lemma AddTakesFirst(pre: seq<Project>, p: Project, kept: seq<Project>)
    requires IsDedupOf(kept, pre) && p.uid !in Uids(kept)
    ensures forall i :: 0 <= i < |kept + [p]| ==>
              (kept + [p])[i].uid in Uids(pre + [p]) && (kept + [p])[i] == (pre + [p])[FirstIndex(pre + [p], (kept + [p])[i].uid)]
  {
    var ps, r := pre + [p], kept + [p];
    KeptStayFirst(pre, p, kept);
    UidsExtend(pre, p);
    FirstIndexExtend(pre, p, p.uid);
    forall i | 0 <= i < |r| ensures r[i].uid in Uids(ps) && r[i] == ps[FirstIndex(ps, r[i].uid)] {
      if i < |kept| {
        assert r[i] == kept[i];
      } else {
        assert ps[|pre|] == p;
      }
    }
  }

  /** The appended project's uid occurs first after every kept one. */
  lemma AddComesLast(pre: seq<Project>, p: Project, kept: seq<Project>)
    requires IsDedupOf(kept, pre) && p.uid !in Uids(kept)
    ensures forall i, j :: 0 <= i < j < |kept + [p]| ==>
              && (kept + [p])[i].uid in Uids(pre + [p]) && (kept + [p])[j].uid in Uids(pre + [p])
              && FirstIndex(pre + [p], (kept + [p])[i].uid) < FirstIndex(pre + [p], (kept + [p])[j].uid)
  {
    var ps, r := pre + [p], kept + [p];
    KeptStayFirst(pre, p, kept);
    UidsExtend(pre, p);
    FirstIndexExtend(pre, p, p.uid);
    forall i, j | 0 <= i < j < |r|
      ensures r[i].uid in Uids(ps) && r[j].uid in Uids(ps) && FirstIndex(ps, r[i].uid) < FirstIndex(ps, r[j].uid)
    {
      assert r[i] == kept[i];
      if j < |kept| {
        assert r[j] == kept[j];
      } else {
        assert FirstIndex(pre, kept[i].uid) < |pre|;
      }
    }
  }

  /** A project with a new uid is appended. */
  lemma DedupAdd(pre: seq<Project>, p: Project, kept: seq<Project>)
    requires IsDedupOf(kept, pre) && p.uid !in Uids(kept)
    ensures IsDedupOf(kept + [p], pre + [p])
  {
    UidsExtend(pre, p);
    UidsExtend(kept, p);
    AddKeepsDistinct(kept, p);
    AddTakesFirst(pre, p, kept);
    AddComesLast(pre, p, kept);
  }

  /**
   * The merge of lines 581-598: walk the projects in order with a set of seen uids and keep a
   * project only when its uid is new.
   */
  function Dedup(ps: seq<Project>): (r: seq<Project>)
    ensures IsDedupOf(r, ps)
    decreases |ps|
  {
    if |ps| == 0 then []
    else
      var pre := ps[..|ps| - 1];
      var p := ps[|ps| - 1];
      var kept := Dedup(pre);
      assert ps == pre + [p];
      if p.uid in Uids(kept) then
        DedupSkip(pre, p, kept);
        kept
      else
        DedupAdd(pre, p, kept);
        kept + [p]
  }

  /** Latest first, by creation date compared as Python compares strings. */
  predicate SortedByDateDesc(ps: seq<Project>) {
    forall i, j :: 0 <= i < j < |ps| ==> !Less(ps[i].dateCreated, ps[j].dateCreated)
  }

  lemma NotLessTransitive(a: string, b: string, c: string)
    requires !Less(a, b) && !Less(b, c)
    ensures !Less(a, c)
  {
    LessTrichotomy(a, b);
    LessTrichotomy(b, c);
    if Less(a, c) {
      if a != b && b != c {
        LessTransitive(c, b, a);
        LessAsymmetric(a, c);
      } else if a == b {
        LessAsymmetric(a, c);
      } else {
        LessAsymmetric(a, b);
      }
    }
  }

  /** A head that is not earlier than any project of `tail` keeps `[h] + tail` sorted. */
  lemma PrependSorted(h: Project, tail: seq<Project>)
    requires SortedByDateDesc(tail)
    requires forall j :: 0 <= j < |tail| ==> !Less(h.dateCreated, tail[j].dateCreated)
    ensures SortedByDateDesc([h] + tail)
  {
    var s := [h] + tail;
    forall i, j | 0 <= i < j < |s| ensures !Less(s[i].dateCreated, s[j].dateCreated) {
      if i == 0 {
        assert s[j] == tail[j - 1];
      } else {
        assert s[i] == tail[i - 1] && s[j] == tail[j - 1];
      }
    }
  }

  /** The head of a sorted list, strictly later than `p`, is not earlier than anything of `rest`. */
  lemma LaterHeadLeads(h: Project, p: Project, tail: seq<Project>, rest: seq<Project>)
    requires Less(p.dateCreated, h.dateCreated)
    requires SortedByDateDesc([h] + tail)
    requires multiset(rest) == multiset(tail) + multiset{p}
    ensures forall j :: 0 <= j < |rest| ==> !Less(h.dateCreated, rest[j].dateCreated)
  {
    forall j | 0 <= j < |rest| ensures !Less(h.dateCreated, rest[j].dateCreated) {
      assert rest[j] in multiset(rest);
      if rest[j] == p {
        LessAsymmetric(p.dateCreated, h.dateCreated);
      } else {
        var k :| 0 <= k < |tail| && tail[k] == rest[j];
        assert ([h] + tail)[0] == h && ([h] + tail)[k + 1] == tail[k];
      }
    }
  }

  /** A project not earlier than the head of a sorted list is not earlier than any of it. */
  lemma NotEarlierThanAll(p: Project, sorted: seq<Project>)
    requires SortedByDateDesc(sorted) && |sorted| > 0
    requires !Less(p.dateCreated, sorted[0].dateCreated)
    ensures forall j :: 0 <= j < |sorted| ==> !Less(p.dateCreated, sorted[j].dateCreated)
  {
    forall j | 0 < j < |sorted| ensures !Less(p.dateCreated, sorted[j].dateCreated) {
      NotLessTransitive(p.dateCreated, sorted[0].dateCreated, sorted[j].dateCreated);
    }
  }

  /** Puts `p` before the first project of `sorted` that is not strictly later than it. */
  function Insert(p: Project, sorted: seq<Project>): (r: seq<Project>)
    requires SortedByDateDesc(sorted)
    ensures SortedByDateDesc(r)
    ensures multiset(r) == multiset(sorted) + multiset{p}
    decreases |sorted|
  {
    if |sorted| == 0 then [p]
    else if Less(p.dateCreated, sorted[0].dateCreated) then
      var rest := Insert(p, sorted[1..]);
      assert sorted == [sorted[0]] + sorted[1..];
      LaterHeadLeads(sorted[0], p, sorted[1..], rest);
      PrependSorted(sorted[0], rest);
      [sorted[0]] + rest
    else
      NotEarlierThanAll(p, sorted);
      PrependSorted(p, sorted);
      [p] + sorted
  }

  /** The stable sort by creation date, latest first, that orders the merged results. */
  function SortByDateDesc(ps: seq<Project>): (r: seq<Project>)
    ensures SortedByDateDesc(r)
    ensures multiset(r) == multiset(ps)
    decreases |ps|
  {
    if |ps| == 0 then []
    else
      assert ps == [ps[0]] + ps[1..];
      Insert(ps[0], SortByDateDesc(ps[1..]))
  }

  /** The projects created at `date`, in order. */
  function WithDate(ps: seq<Project>, date: string): seq<Project> {
    if |ps| == 0 then []
    else (if ps[0].dateCreated == date then [ps[0]] else []) + WithDate(ps[1..], date)
  }

  lemma WithDateCons(x: Project, rest: seq<Project>, date: string)
    ensures WithDate([x] + rest, date) == (if x.dateCreated == date then [x] else []) + WithDate(rest, date)
  {
    assert ([x] + rest)[1..] == rest;
  }

  /** Putting a project of another date in front of both sides keeps a `WithDate` equation. */
  lemma WithDateFront(x: Project, p: Project, rest: seq<Project>, tail: seq<Project>, date: string)
    requires !(p.dateCreated == date && x.dateCreated == date)
    requires WithDate(rest, date) == (if p.dateCreated == date then [p] else []) + WithDate(tail, date)
    ensures WithDate([x] + rest, date) == (if p.dateCreated == date then [p] else []) + WithDate([x] + tail, date)
  {
    WithDateCons(x, rest, date);
    WithDateCons(x, tail, date);
  }

  lemma {:induction false} InsertWithDate(p: Project, sorted: seq<Project>, date: string)
    requires SortedByDateDesc(sorted)
    ensures WithDate(Insert(p, sorted), date)
            == (if p.dateCreated == date then [p] else []) + WithDate(sorted, date)
    decreases |sorted|
  {
    if |sorted| == 0 {
      WithDateCons(p, [], date);
    } else if Less(p.dateCreated, sorted[0].dateCreated) {
      var rest := Insert(p, sorted[1..]);
      InsertWithDate(p, sorted[1..], date);
      assert Insert(p, sorted) == [sorted[0]] + rest;
      assert sorted == [sorted[0]] + sorted[1..];
      LessIrreflexive(date);
      WithDateFront(sorted[0], p, rest, sorted[1..], date);
    } else {
      WithDateCons(p, sorted, date);
    }
  }

  /**
   * The sort is stable: the projects sharing one creation date come out in the order they went
   * in, which is the order of the merged search results.
   */
  lemma {:induction false} SortIsStable(ps: seq<Project>, date: string)
    ensures WithDate(SortByDateDesc(ps), date) == WithDate(ps, date)
    decreases |ps|
  {
    if |ps| > 0 {
      SortIsStable(ps[1..], date);
      InsertWithDate(ps[0], SortByDateDesc(ps[1..]), date);
    }
  }

  /** The non-empty strings of `xs`, in order. */
  function NonEmpty(xs: seq<string>): (ys: seq<string>)
    ensures forall i :: 0 <= i < |ys| ==> ys[i] != ""
    ensures |ys| <= |xs|
    decreases |xs|
  {
    if |xs| == 0 then [] else (if xs[0] != "" then [xs[0]] else []) + NonEmpty(xs[1..])
  }

  lemma {:induction false} NonEmptyFrom(xs: seq<string>)
    ensures forall i :: 0 <= i < |NonEmpty(xs)| ==> NonEmpty(xs)[i] in xs
    decreases |xs|
  {
    if |xs| > 0 {
      assert xs == [xs[0]] + xs[1..];
      NonEmptyFrom(xs[1..]);
    }
  }

  lemma {:induction false} NonEmptyKeeps(xs: seq<string>)
    ensures forall j :: 0 <= j < |xs| && xs[j] != "" ==> xs[j] in NonEmpty(xs)
    decreases |xs|
  {
    if |xs| > 0 {
      NonEmptyKeeps(xs[1..]);
      assert forall j :: 1 <= j < |xs| ==> xs[j] == xs[1..][j - 1];
    }
  }

  lemma {:induction false} NonEmptyAppend(a: seq<string>, b: seq<string>)
    ensures NonEmpty(a + b) == NonEmpty(a) + NonEmpty(b)
    decreases |a|
  {
    if |a| > 0 {
      assert (a + b)[1..] == a[1..] + b;
      NonEmptyAppend(a[1..], b);
    } else {
      assert a + b == b;
    }
  }

  lemma {:induction false} NonEmptyOfNonEmpty(xs: seq<string>)
    requires forall i :: 0 <= i < |xs| ==> xs[i] != ""
    ensures NonEmpty(xs) == xs
    decreases |xs|
  {
    if |xs| > 0 {
      NonEmptyOfNonEmpty(xs[1..]);
      assert [xs[0]] + xs[1..] == xs;
    }
  }

  /** Each line of the box, stripped. */
  function StrippedLines(lines: seq<string>, space: char -> bool): (r: seq<string>)
    ensures |r| == |lines| && forall j :: 0 <= j < |lines| ==> r[j] == Strip(lines[j], space)
  {
    seq(|lines|, j requires 0 <= j < |lines| => Strip(lines[j], space))
  }

  /** The non-blank lines of the name box, each stripped (line 574). */
  function NameLines(lines: seq<string>, space: char -> bool): (names: seq<string>)
    ensures forall i :: 0 <= i < |names| ==> names[i] != ""
    ensures |names| <= |lines|
  {
    NonEmpty(StrippedLines(lines, space))
  }

  /** Every name is one of the lines, stripped. */
  lemma NameLinesFromLines(lines: seq<string>, space: char -> bool)
    ensures forall i :: 0 <= i < |NameLines(lines, space)| ==> NameLines(lines, space)[i] in StrippedLines(lines, space)
  {
    NonEmptyFrom(StrippedLines(lines, space));
  }

  /** Every line that is not blank once stripped gives a name. */
  lemma NameLinesKeepLines(lines: seq<string>, space: char -> bool)
    ensures forall j :: 0 <= j < |lines| && Strip(lines[j], space) != "" ==> Strip(lines[j], space) in NameLines(lines, space)
  {
    NonEmptyKeeps(StrippedLines(lines, space));
  }

  /** The names of two runs of lines are the names of the first run, then those of the second. */
  lemma NameLinesAppend(a: seq<string>, b: seq<string>, space: char -> bool)
    ensures NameLines(a + b, space) == NameLines(a, space) + NameLines(b, space)
  {
    var sa, sb, sab := StrippedLines(a, space), StrippedLines(b, space), StrippedLines(a + b, space);
    forall i | 0 <= i < |sab| ensures sab[i] == (sa + sb)[i] {
      if i < |a| {
        assert (a + b)[i] == a[i];
      } else {
        assert (a + b)[i] == b[i - |a|];
      }
    }
    assert sab == sa + sb;
    NonEmptyAppend(sa, sb);
  }

  /** Lines that are already stripped and non-blank are their own names. */
  lemma NameLinesOfNames(ns: seq<string>, space: char -> bool)
    requires forall i :: 0 <= i < |ns| ==> |ns[i]| > 0 && !space(ns[i][0]) && !space(ns[i][|ns[i]| - 1])
    ensures NameLines(ns, space) == ns
  {
    forall i | 0 <= i < |ns| ensures Strip(ns[i], space) == ns[i] {
      StripUnpadded(ns[i], space);
    }
    assert StrippedLines(ns, space) == ns;
    NonEmptyOfNonEmpty(ns);
  }

  /** The project names the box's text holds: its non-blank lines, each stripped. */
  function ProjectNames(text: string, space: char -> bool): (names: seq<string>)
    ensures forall i :: 0 <= i < |names| ==> names[i] != ""
  {
    NameLines(Split(Strip(text, space), '\n'), space)
  }

  /** A box holding only whitespace holds no names. */
  lemma BlankBoxHasNoNames(text: string, space: char -> bool)
    requires forall i :: 0 <= i < |text| ==> space(text[i])
    ensures ProjectNames(text, space) == []
  {
    assert Strip(text, space) == "";
    assert Split("", '\n') == [""];
  }

  /** Names typed one per line, with no surrounding whitespace, are read back exactly, in order. */
  lemma ProjectNamesRoundTrip(ns: seq<string>, space: char -> bool)
    requires |ns| > 0
    requires forall i :: 0 <= i < |ns| ==>
               && |ns[i]| > 0 && '\n' !in ns[i] && !space(ns[i][0]) && !space(ns[i][|ns[i]| - 1])
    ensures ProjectNames(Join(ns, '\n'), space) == ns
  {
    var text := Join(ns, '\n');
    JoinFirst(ns, '\n');
    JoinLast(ns, '\n');
    StripUnpadded(text, space);
    SplitJoin(ns, '\n');
    NameLinesOfNames(ns, space);
  }

  /** One query per name, each with the client filter; or a single client-only query. */
  function Queries(names: seq<string>, client: string): (qs: seq<ProjectQuery>)
    ensures |names| > 0 ==> |qs| == |names|
    ensures |names| > 0 ==> forall i :: 0 <= i < |names| ==> qs[i] == ProjectFilters(Some(names[i]), Some(client))
    ensures |names| == 0 ==> qs == [ProjectFilters(None, Some(client))]
  {
    if |names| == 0 then [ProjectFilters(None, Some(client))]
    else seq(|names|, i requires 0 <= i < |names| => ProjectFilters(Some(names[i]), Some(client)))
  }

  /** The results of the queries, concatenated in query order; the first failure aborts. */
  function RunQueries(qs: seq<ProjectQuery>, list: ProjectQuery -> Result<seq<Project>, ListError>): (r: Result<seq<Project>, ListError>)
    ensures r.Ok? <==> forall i :: 0 <= i < |qs| ==> list(qs[i]).Ok?
    ensures r.Ok? ==> forall i :: 0 <= i < |qs| ==> list(qs[i]).Ok? && Uids(list(qs[i]).value) <= Uids(r.value)
    ensures r.Ok? ==> forall u :: u in Uids(r.value) ==> exists i :: 0 <= i < |qs| && list(qs[i]).Ok? && u in Uids(list(qs[i]).value)
    ensures r.Err? ==> exists i :: 0 <= i < |qs| && list(qs[i]) == Err(r.error)
                                   && forall j :: 0 <= j < i ==> list(qs[j]).Ok?
    decreases |qs|
  {
    if |qs| == 0 then Ok([])
    else
      match list(qs[0])
      case Err(e) => Err(e)
      case Ok(first) =>
        match RunQueries(qs[1..], list)
        case Err(e) =>
          assert forall i :: 1 <= i < |qs| ==> qs[i] == qs[1..][i - 1];
          Err(e)
        case Ok(more) =>
          var all := first + more;
          assert forall i :: 1 <= i < |qs| ==> qs[i] == qs[1..][i - 1];
          UidsConcat(first, more);
          Ok(all)
  }

  lemma UidsConcat(a: seq<Project>, b: seq<Project>)
    ensures Uids(a + b) == Uids(a) + Uids(b)
  {
    var ab := a + b;
    forall u | u in Uids(ab) ensures u in Uids(a) + Uids(b) {
      var i :| 0 <= i < |ab| && ab[i].uid == u;
      if i < |a| {
        assert a[i].uid == u;
      } else {
        assert b[i - |a|].uid == u;
      }
    }
    forall u | u in Uids(a) ensures u in Uids(ab) {
      var i :| 0 <= i < |a| && a[i].uid == u;
      assert ab[i].uid == u;
    }
    forall u | u in Uids(b) ensures u in Uids(ab) {
      var i :| 0 <= i < |b| && b[i].uid == u;
      assert ab[|a| + i].uid == u;
    }
  }

  datatype SearchOutcome =
    | NotLoggedIn
    | NeedCriteria
    | SearchFailed(error: ListError, tokenDropped: bool)
    | NothingFound
    | Found(projects: seq<Project>)

  /** The merged result list: duplicates dropped, then sorted latest first. */
  function Merge(all: seq<Project>): (r: seq<Project>)
    ensures Uids(r) == Uids(all)
    ensures NoDuplicateUids(r) && SortedByDateDesc(r)
    ensures multiset(r) == multiset(Dedup(all))
  {
    var merged := Dedup(all);
    var sorted := SortByDateDesc(merged);
    SortKeepsUids(merged, sorted);
    sorted
  }

  lemma NoUidsNoProjects(ps: seq<Project>)
    ensures Uids(ps) == {} ==> ps == []
  {
    assert ps != [] ==> ps[0].uid in Uids(ps);
  }

  /** Every uid a successful query returned is in a list carrying the merged uids. */
  lemma QueriesInMerge(qs: seq<ProjectQuery>, list: ProjectQuery -> Result<seq<Project>, ListError>,
                       all: seq<Project>, merged: seq<Project>)
    requires RunQueries(qs, list) == Ok(all)
    requires Uids(merged) == Uids(all)
    ensures forall i :: 0 <= i < |qs| ==> list(qs[i]).Ok? && Uids(list(qs[i]).value) <= Uids(merged)
  {
  }

  /** Every uid of the merged list came from some query. */
  lemma MergeFromQueries(qs: seq<ProjectQuery>, list: ProjectQuery -> Result<seq<Project>, ListError>,
                         all: seq<Project>, merged: seq<Project>)
    requires RunQueries(qs, list) == Ok(all)
    requires Uids(merged) == Uids(all)
    ensures forall u :: u in Uids(merged) ==> exists i :: 0 <= i < |qs| && list(qs[i]).Ok? && u in Uids(list(qs[i]).value)
  {
  }

  /** When the queries together returned nothing, each of them returned nothing. */
  lemma EmptyMerge(qs: seq<ProjectQuery>, list: ProjectQuery -> Result<seq<Project>, ListError>, all: seq<Project>)
    requires RunQueries(qs, list) == Ok(all)
    requires all == []
    ensures forall i :: 0 <= i < |qs| ==> list(qs[i]) == Ok([])
  {
    forall i | 0 <= i < |qs| ensures list(qs[i]) == Ok([]) {
      NoUidsNoProjects(list(qs[i]).value);
    }
  }

  /**
   * `search_project` up to the choice between the single-project path and the picker, on the
   * stripped name lines and client filter: no log-in and no criteria are reported before any
   * request; otherwise the queries run.
   */
  function Search(loggedIn: bool, names: seq<string>, client: string,
                  list: ProjectQuery -> Result<seq<Project>, ListError>): (r: SearchOutcome)
    ensures !loggedIn <==> r.NotLoggedIn?
    ensures loggedIn && names == [] && client == "" <==> r.NeedCriteria?
    ensures !r.NotLoggedIn? && !r.NeedCriteria? ==> r == RunSearch(Queries(names, client), list)
  {
    if !loggedIn then NotLoggedIn
    else if names == [] && client == "" then NeedCriteria
    else RunSearch(Queries(names, client), list)
  }

  /**
   * The search on the text of the two boxes: criteria are missing iff the name box holds no
   * names and the client box is blank once stripped; otherwise one query runs per name read
   * from the box, each with the stripped client filter.
   */
  function SearchProjects(loggedIn: bool, nameText: string, clientText: string, space: char -> bool,
                          list: ProjectQuery -> Result<seq<Project>, ListError>): (r: SearchOutcome)
    ensures !loggedIn <==> r.NotLoggedIn?
    ensures loggedIn && ProjectNames(nameText, space) == [] && Strip(clientText, space) == "" <==> r.NeedCriteria?
    ensures !r.NotLoggedIn? && !r.NeedCriteria? ==>
              r == RunSearch(Queries(ProjectNames(nameText, space), Strip(clientText, space)), list)
  {
    Search(loggedIn, ProjectNames(nameText, space), Strip(clientText, space), list)
  }

  /**
   * The search once its queries are known. A failure is the error of one of the queries; a
   * found list has no two projects with one uid, carries exactly the uids the queries
   * returned, and is ordered by creation date, latest first; nothing found means every query
   * came back empty.
   */
  function RunSearch(qs: seq<ProjectQuery>, list: ProjectQuery -> Result<seq<Project>, ListError>): (r: SearchOutcome)
    ensures r.SearchFailed? || r.NothingFound? || r.Found?
    ensures r.SearchFailed? ==> RunQueries(qs, list) == Err(r.error)
    ensures r.SearchFailed? ==> exists i :: 0 <= i < |qs| && list(qs[i]) == Err(r.error)
                                            && forall j :: 0 <= j < i ==> list(qs[j]).Ok?
    ensures r.SearchFailed? ==> (r.tokenDropped <==> r.error == TokenExpired)
    ensures r.Found? ==> RunQueries(qs, list).Ok? && r.projects == Merge(RunQueries(qs, list).value)
    ensures r.Found? ==> |r.projects| > 0 && NoDuplicateUids(r.projects) && SortedByDateDesc(r.projects)
    ensures r.Found? ==>
              forall i :: 0 <= i < |qs| ==> list(qs[i]).Ok? && Uids(list(qs[i]).value) <= Uids(r.projects)
    ensures r.Found? ==>
              forall u :: u in Uids(r.projects) ==> exists i :: 0 <= i < |qs| && list(qs[i]).Ok? && u in Uids(list(qs[i]).value)
    ensures r.NothingFound? <==> forall i :: 0 <= i < |qs| ==> list(qs[i]) == Ok([])
  {
    match RunQueries(qs, list)
    case Err(e) => SearchFailed(e, e == TokenExpired)
    case Ok(all) =>
      var sorted := Merge(all);
      QueriesInMerge(qs, list, all, sorted);
      MergeFromQueries(qs, list, all, sorted);
      if sorted == [] then
        assert Uids(sorted) == {};
        NoUidsNoProjects(all);
        EmptyMerge(qs, list, all);
        NothingFound
      else
        Found(sorted)
  }

  lemma SortKeepsUids(a: seq<Project>, b: seq<Project>)
    requires multiset(a) == multiset(b)
    ensures Uids(a) == Uids(b)
    ensures NoDuplicateUids(a) ==> NoDuplicateUids(b)
  {
    forall u | u in Uids(a) ensures u in Uids(b) {
      var i :| 0 <= i < |a| && a[i].uid == u;
      assert a[i] in multiset(b);
      var j :| 0 <= j < |b| && b[j] == a[i];
    }
    forall u | u in Uids(b) ensures u in Uids(a) {
      var i :| 0 <= i < |b| && b[i].uid == u;
      assert b[i] in multiset(a);
      var j :| 0 <= j < |a| && a[j] == b[i];
    }
    if NoDuplicateUids(a) && !NoDuplicateUids(b) {
      var i, j :| 0 <= i < j < |b| && b[i].uid == b[j].uid;
      DuplicateUidCarries(a, b, i, j);
    }
  }

  lemma DuplicateUidCarries(a: seq<Project>, b: seq<Project>, i: nat, j: nat)
    requires multiset(a) == multiset(b)
    requires i < j < |b| && b[i].uid == b[j].uid
    ensures !NoDuplicateUids(a)
  {
    if b[i] == b[j] {
      TwiceCounted(b, i, j);
      var k, l := TwicePresent(a, b[i]);
      assert a[k].uid == a[l].uid;
    } else {
      assert b[i] in multiset(a) && b[j] in multiset(a);
      var k :| 0 <= k < |a| && a[k] == b[i];
      var l :| 0 <= l < |a| && a[l] == b[j];
      assert k != l;
      if l < k {
        assert a[l].uid == a[k].uid;
      } else {
        assert a[k].uid == a[l].uid;
      }
    }
  }

  lemma TwiceCounted<T>(b: seq<T>, i: nat, j: nat)
    requires i < j < |b| && b[i] == b[j]
    ensures multiset(b)[b[i]] >= 2
  {
    assert b == b[..i] + [b[i]] + b[i + 1..j] + [b[j]] + b[j + 1..];
  }

  lemma TwicePresent<T>(a: seq<T>, x: T) returns (k: nat, l: nat)
    requires multiset(a)[x] >= 2
    ensures k < l < |a| && a[k] == x && a[l] == x
  {
    assert x in multiset(a);
    k :| 0 <= k < |a| && a[k] == x;
    var rest := a[..k] + a[k + 1..];
    assert a == a[..k] + [a[k]] + a[k + 1..];
    assert multiset(rest)[x] >= 1;
    var m :| 0 <= m < |rest| && rest[m] == x;
    if m < k {
      k, l := m, k;
      assert a[k] == x;
    } else {
      l := m + 1;
      assert a[l] == rest[m];
    }
  }

  /** The session's selection: chosen projects and chosen target languages. */
  datatype Selection = Selection(projects: seq<Project>, langs: seq<string>)

  /** The language auto-selection of lines 622-629 and 515-522. */
  function AutoLanguages(p: Project): (langs: seq<string>)
    ensures |p.targetLangs| == 1 ==> langs == p.targetLangs
    ensures |p.targetLangs| != 1 ==> langs == []
  {
    if |p.targetLangs| == 1 then p.targetLangs else []
  }

  /**
   * The selection after a search: a single result is selected at once, with its language
   * auto-selected iff it has exactly one; every other outcome leaves the selection as it was
   * (several results go through the picker, `ConfirmProjects`).
   */
  function AfterSearch(sel: Selection, r: SearchOutcome): (s: Selection)
    ensures r.Found? && |r.projects| == 1 ==> s == Selection(r.projects, AutoLanguages(r.projects[0]))
    ensures !(r.Found? && |r.projects| == 1) ==> s == sel
  {
    if r.Found? && |r.projects| == 1 then Selection(r.projects, AutoLanguages(r.projects[0])) else sel
  }

  /**
   * The picker's confirmation: `picked` are the listbox's selected indices. Nothing picked
   * keeps the selection; one project gets the language auto-selection; several clear the languages.
   */
  function ConfirmProjects(sel: Selection, projects: seq<Project>, picked: seq<nat>): (s: Selection)
    requires forall i :: 0 <= i < |picked| ==> picked[i] < |projects|
    ensures picked == [] ==> s == sel
    ensures picked != [] ==> |s.projects| == |picked| && forall i :: 0 <= i < |picked| ==> s.projects[i] == projects[picked[i]]
    ensures |picked| == 1 ==> s.langs == AutoLanguages(projects[picked[0]])
    ensures |picked| > 1 ==> s.langs == []
  {
    if picked == [] then sel
    else
      var chosen := seq(|picked|, i requires 0 <= i < |picked| => projects[picked[i]]);
      Selection(chosen, if |chosen| == 1 then AutoLanguages(chosen[0]) else [])
  }

  /** A single search hit whose only target language is "de" selects that project and "de". */
  lemma SingleHitAutoSelects(sel: Selection, p: Project)
    requires p.targetLangs == ["de"]
    ensures AfterSearch(sel, Found([p])) == Selection([p], ["de"])
  {
  }

  predicate StrictlySorted(s: seq<string>) {
    forall i, j :: 0 <= i < j < |s| ==> Less(s[i], s[j])
  }

  /** Adds `x` to a strictly increasing list unless it is already there. */
  function InsertUnique(x: string, sorted: seq<string>): (r: seq<string>)
    requires StrictlySorted(sorted)
    ensures StrictlySorted(r)
    ensures forall y :: y in r <==> y == x || y in sorted
    decreases |sorted|
  {
    if |sorted| == 0 then [x]
    else if x == sorted[0] then sorted
    else if Less(x, sorted[0]) then
      forall j | 0 < j < |sorted| ensures Less(x, sorted[j]) {
        LessTransitive(x, sorted[0], sorted[j]);
      }
      [x] + sorted
    else
      var rest := InsertUnique(x, sorted[1..]);
      assert sorted == [sorted[0]] + sorted[1..];
      LessTrichotomy(x, sorted[0]);
      forall j | 0 <= j < |rest| ensures Less(sorted[0], rest[j]) {
        assert rest[j] in rest;
        if rest[j] != x {
          var k :| 0 <= k < |sorted[1..]| && sorted[1..][k] == rest[j];
          assert sorted[k + 1] == rest[j];
        }
      }
      [sorted[0]] + rest
  }

  /** The distinct strings of `xs`, in ascending order. */
  function SortedUnique(xs: seq<string>): (r: seq<string>)
    ensures StrictlySorted(r)
    ensures forall y :: y in r <==> y in xs
    decreases |xs|
  {
    if |xs| == 0 then []
    else
      var r := InsertUnique(xs[0], SortedUnique(xs[1..]));
      assert xs == [xs[0]] + xs[1..];
      r
  }

  /** A strictly increasing list is fixed by its elements: `SortedUnique` is the sorted set. */
  lemma {:induction false} StrictlySortedUnique(a: seq<string>, b: seq<string>)
    requires StrictlySorted(a) && StrictlySorted(b)
    requires forall y :: y in a <==> y in b
    ensures a == b
    decreases |a|
  {
    if |a| == 0 {
      HeadIsMember(b);
    } else {
      assert a[0] in b && b[0] in a;
      var k :| 0 <= k < |b| && b[k] == a[0];
      var m :| 0 <= m < |a| && a[m] == b[0];
      if k > 0 {
        if m > 0 {
          LessAsymmetric(b[0], a[0]);
        } else {
          LessIrreflexive(a[0]);
        }
      }
      assert a[0] == b[0];
      forall y ensures y in a[1..] <==> y in b[1..] {
        if y in a[1..] {
          var i :| 0 <= i < |a[1..]| && a[1..][i] == y;
          assert Less(a[0], a[i + 1]);
          LessIrreflexive(y);
          assert y in b && y != b[0];
          var j :| 0 <= j < |b| && b[j] == y;
          assert b[1..][j - 1] == y;
        }
        if y in b[1..] {
          var i :| 0 <= i < |b[1..]| && b[1..][i] == y;
          assert Less(b[0], b[i + 1]);
          LessIrreflexive(y);
          assert y in a && y != a[0];
          var j :| 0 <= j < |a| && a[j] == y;
          assert a[1..][j - 1] == y;
        }
      }
      StrictlySortedUnique(a[1..], b[1..]);
      assert a == [a[0]] + a[1..] && b == [b[0]] + b[1..];
    }
  }

  /** Every target language of the given projects, in project order (`all_langs.update`). */
  function AllTargetLangs(projects: seq<Project>): (langs: seq<string>)
    ensures forall l :: l in langs <==> exists i :: 0 <= i < |projects| && l in projects[i].targetLangs
    decreases |projects|
  {
    if |projects| == 0 then []
    else
      var rest := AllTargetLangs(projects[1..]);
      assert forall i :: 1 <= i < |projects| ==> projects[i] == projects[1..][i - 1];
      projects[0].targetLangs + rest
  }

  lemma {:induction false} EmptyUnion(projects: seq<Project>)
    ensures AllTargetLangs(projects) == [] ==> forall i :: 0 <= i < |projects| ==> projects[i].targetLangs == []
    decreases |projects|
  {
    if |projects| > 0 {
      EmptyUnion(projects[1..]);
      assert forall i :: 1 <= i < |projects| ==> projects[i] == projects[1..][i - 1];
    }
  }

  datatype LanguageChoices = NoProjectsSelected | NoTargetLanguages | Choices(langs: seq<string>)

  /**
   * `select_target_languages` up to the dialog: the sorted union of the selected projects'
   * target languages, or the error shown when there are no projects or no languages.
   */
  function ChooseLanguages(selected: seq<Project>): (c: LanguageChoices)
    ensures c.NoProjectsSelected? <==> selected == []
    ensures c.NoTargetLanguages? <==> selected != [] && forall i :: 0 <= i < |selected| ==> selected[i].targetLangs == []
    ensures c.Choices? ==> |c.langs| > 0 && StrictlySorted(c.langs)
    ensures c.Choices? ==> forall l :: l in c.langs <==> exists i :: 0 <= i < |selected| && l in selected[i].targetLangs
  {
    if selected == [] then NoProjectsSelected
    else
      var all := AllTargetLangs(selected);
      var langs := SortedUnique(all);
      assert all != [] ==> all[0] in all;
      if langs == [] then
        EmptyUnion(selected);
        NoTargetLanguages
      else
        assert langs[0] in langs;
        Choices(langs)
  }

  /** The language dialog's confirmation: nothing picked keeps the selection. */
  function ConfirmLanguages(sel: Selection, choices: seq<string>, picked: seq<nat>): (s: Selection)
    requires forall i :: 0 <= i < |picked| ==> picked[i] < |choices|
    ensures s.projects == sel.projects
    ensures picked == [] ==> s == sel
    ensures picked != [] ==> |s.langs| == |picked| && forall i :: 0 <= i < |picked| ==> s.langs[i] == choices[picked[i]]
  {
    if picked == [] then sel
    else Selection(sel.projects, seq(|picked|, i requires 0 <= i < |picked| => choices[picked[i]]))
  }
}

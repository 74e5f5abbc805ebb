/**
 * Download planning for regulation XML: file names and paths derived from a
 * CFR reference, eCFR "versioner" URLs, the list of March-1 dates, the
 * date x agency x reference task list and the download counters.  The disk
 * and the HTTP requests are parameters: the set of paths that exist, and a
 * function giving the outcome of each request attempt.
 */
module Regulations {
  import opened Text
  import opened Agencies

  const BaseUrl: string := "https://www.ecfr.gov/api"
  /** Month and day of every download date. */
  const BaseDate: string := "03-01"
  const MaxAttempts: nat := 1

  // ---------------------------------------------------------------------
  // File names and paths
  // ---------------------------------------------------------------------

  /** `construct_filename`: absent components are written as "None". */
  function ConstructFilename(r: CfrReference): (name: string)
    ensures |name| == |Render(r.title)| + |Render(r.subtitle)| + |Render(r.chapter)| + |Render(r.subchapter)| + 17
  {
    "t-" + Render(r.title) + "_st-" + Render(r.subtitle) + "_c-" + Render(r.chapter)
      + "_sc-" + Render(r.subchapter) + ".xml"
  }

  /** A file name starts with "t-" and ends with ".xml". */
  lemma ConstructFilenameShape(r: CfrReference)
    ensures StartsWith(ConstructFilename(r), "t-") && EndsWith(ConstructFilename(r), ".xml")
  {
    var name := ConstructFilename(r);
    assert name[..2] == "t-";
    assert name[|name| - 4..] == ".xml";
  }


  /** A path, as the list of its components. */
  type Path = seq<string>

  /** The components `pathlib` keeps from a '/'-separated string: empty and "." components vanish. */
  function PathParts(s: string): Path {
    KeepComponents(Split(s, '/'))
  }

  function KeepComponents(parts: seq<string>): (kept: seq<string>)
    ensures forall k :: 0 <= k < |kept| ==> kept[k] != "" && kept[k] != "."
  {
    if parts == [] then []
    else (if parts[0] == "" || parts[0] == "." then [] else [parts[0]]) + KeepComponents(parts[1..])
  }

  /** A component that `pathlib` keeps as it is. */
  predicate PlainComponent(c: string) {
    c != "" && c != "." && '/' !in c
  }

  /**
   * `construct_filepath`: data/<parent>/<agency>/<date>/<file> when the parent
   * slug is truthy, data/<agency>/<date>/<file> otherwise.
   */
  function ConstructFilepath(agencySlug: Value, r: CfrReference, date: string, parentSlug: Value): (path: Path)
    ensures forall k :: 0 <= k < |path| ==> path[k] != "" && path[k] != "."
  {
    PathParts(FilepathText(agencySlug, r, date, parentSlug))
  }

  /** The text `construct_filepath` builds before `pathlib.Path` normalises it. */
  function FilepathText(agencySlug: Value, r: CfrReference, date: string, parentSlug: Value): string {
    var filename := ConstructFilename(r);
    if Truthy(parentSlug) then
      "./data/" + Render(parentSlug) + "/" + Render(agencySlug) + "/" + date + "/" + filename
    else
      "./data/" + Render(agencySlug) + "/" + date + "/" + filename
  }

  lemma {:induction false} KeepPlain(parts: seq<string>)
    requires forall k :: 0 <= k < |parts| ==> PlainComponent(parts[k])
    ensures KeepComponents(parts) == parts
    decreases |parts|
  {
    if parts != [] {
      KeepPlain(parts[1..]);
      assert [parts[0]] + parts[1..] == parts;
    }
  }

  lemma {:induction false} KeepComponentsAppend(a: seq<string>, b: seq<string>)
    ensures KeepComponents(a + b) == KeepComponents(a) + KeepComponents(b)
    decreases |a|
  {
    if a == [] {
      assert a + b == b;
    } else {
      assert (a + b)[0] == a[0] && (a + b)[1..] == a[1..] + b;
      KeepComponentsAppend(a[1..], b);
    }
  }

  /** A '/' between two strings separates their path components. */
  lemma PathPartsSlash(x: string, y: string)
    ensures PathParts(x + "/" + y) == PathParts(x) + PathParts(y)
  {
    assert x + "/" + y == x + ['/'] + y;
    SplitAppend(x, '/', y);
    KeepComponentsAppend(Split(x, '/'), Split(y, '/'));
  }

  /** A plain component is a path of its own. */
  lemma PathPartsPlain(c: string)
    requires PlainComponent(c)
    ensures PathParts(c) == [c]
  {
    SplitPlain(c, '/');
    assert [c][1..] == [];
    assert KeepComponents([c]) == [c] + KeepComponents([]);
  }

  /** Appending a plain component adds exactly that component. */
  lemma PathPartsStep(x: string, c: string)
    requires PlainComponent(c)
    ensures PathParts(x + "/" + c) == PathParts(x) + [c]
  {
    PathPartsSlash(x, c);
    PathPartsPlain(c);
  }

  /** The root the scripts write under, "./data", is the single component "data". */
  lemma DataRoot()
    ensures PathParts("./data") == ["data"]
  {
    assert "./data" == "." + "/" + "data";
    PathPartsSlash(".", "data");
    SplitPlain(".", '/');
    PathPartsPlain("data");
  }

  /**
   * With plain components the file path is data/parent/agency/date/filename
   * for a truthy parent slug, and data/agency/date/filename otherwise.
   */
  lemma FilepathComponents(agencySlug: Value, r: CfrReference, date: string, parentSlug: Value)
    requires PlainComponent(Render(agencySlug)) && PlainComponent(date)
    requires PlainComponent(ConstructFilename(r))
    requires Truthy(parentSlug) ==> PlainComponent(Render(parentSlug))
    ensures Truthy(parentSlug) ==>
              ConstructFilepath(agencySlug, r, date, parentSlug)
              == ["data", Render(parentSlug), Render(agencySlug), date, ConstructFilename(r)]
    ensures !Truthy(parentSlug) ==>
              ConstructFilepath(agencySlug, r, date, parentSlug)
              == ["data", Render(agencySlug), date, ConstructFilename(r)]
  {
    if Truthy(parentSlug) {
      ParentPathParts(Render(parentSlug), Render(agencySlug), date, ConstructFilename(r));
    } else {
      AgencyPathParts(Render(agencySlug), date, ConstructFilename(r));
    }
  }

  lemma ParentPathParts(p: string, a: string, date: string, f: string)
    requires PlainComponent(p) && PlainComponent(a) && PlainComponent(date) && PlainComponent(f)
    ensures PathParts("./data/" + p + "/" + a + "/" + date + "/" + f) == ["data", p, a, date, f]
  {
    var s1 := "./data/" + p;
    assert s1 == "./data" + "/" + p;
    DataRoot();
    PathPartsStep("./data", p);
    var s2 := s1 + "/" + a;
    PathPartsStep(s1, a);
    var s3 := s2 + "/" + date;
    PathPartsStep(s2, date);
    PathPartsStep(s3, f);
    Snoc4("data", p, a, date, f);
  }

  lemma AgencyPathParts(a: string, date: string, f: string)
    requires PlainComponent(a) && PlainComponent(date) && PlainComponent(f)
    ensures PathParts("./data/" + a + "/" + date + "/" + f) == ["data", a, date, f]
  {
    var s1 := "./data/" + a;
    assert s1 == "./data" + "/" + a;
    DataRoot();
    PathPartsStep("./data", a);
    var s2 := s1 + "/" + date;
    PathPartsStep(s1, date);
    PathPartsStep(s2, f);
    Snoc3("data", a, date, f);
  }

  lemma Snoc3<T>(x0: T, x1: T, x2: T, x3: T)
    ensures [x0] + [x1] + [x2] + [x3] == [x0, x1, x2, x3]
  {
  }

  lemma Snoc4<T>(x0: T, x1: T, x2: T, x3: T, x4: T)
    ensures [x0] + [x1] + [x2] + [x3] + [x4] == [x0, x1, x2, x3, x4]
  {
  }

  // ---------------------------------------------------------------------
  // URLs
  // ---------------------------------------------------------------------

  /** The query parameters for the present components, in the order subtitle, chapter, subchapter. */
  function QueryParams(r: CfrReference): (params: seq<string>)
    ensures |params| == (if r.subtitle.Null? then 0 else 1) + (if r.chapter.Null? then 0 else 1)
                          + (if r.subchapter.Null? then 0 else 1)
  {
    (if r.subtitle.Null? then [] else ["subtitle=" + Render(r.subtitle)])
    + (if r.chapter.Null? then [] else ["chapter=" + Render(r.chapter)])
    + (if r.subchapter.Null? then [] else ["subchapter=" + Render(r.subchapter)])
  }

  /** The URL of a whole title's XML on a date, before any query. */
  function TitleUrl(baseUrl: string, date: string, r: CfrReference): string {
    baseUrl + "/versioner/v1/full/" + date + "/title-" + Render(r.title) + ".xml"
  }

  /** The full download URL. */
  function Url(baseUrl: string, date: string, r: CfrReference): (url: string)
    ensures QueryParams(r) == [] ==> url == TitleUrl(baseUrl, date, r)
    ensures QueryParams(r) != [] ==> |url| > |TitleUrl(baseUrl, date, r)|
  {
    var params := QueryParams(r);
    TitleUrl(baseUrl, date, r) + (if params == [] then "" else "?" + Join(params, "&"))
  }

  /** `build_url`: the title URL, then "?" and the present parameters joined by "&". */
  method BuildUrl(baseUrl: string, date: string, r: CfrReference) returns (url: string)
    ensures url == Url(baseUrl, date, r)
  {
    url := baseUrl + "/versioner/v1/full/" + date + "/title-" + Render(r.title) + ".xml";
    var params: seq<string> := [];
    if !r.subtitle.Null? {
      params := params + ["subtitle=" + Render(r.subtitle)];
    }
    if !r.chapter.Null? {
      params := params + ["chapter=" + Render(r.chapter)];
    }
    if !r.subchapter.Null? {
      params := params + ["subchapter=" + Render(r.subchapter)];
    }
    assert params == QueryParams(r);
    if params != [] {
      url := url + "?" + Join(params, "&");
    }
  }

  /**
   * The URL always starts with the title URL, and is the title URL exactly
   * when no component is present.
   */
  lemma UrlPrefix(baseUrl: string, date: string, r: CfrReference)
    ensures StartsWith(Url(baseUrl, date, r), TitleUrl(baseUrl, date, r))
    ensures Url(baseUrl, date, r) == TitleUrl(baseUrl, date, r)
            <==> r.subtitle.Null? && r.chapter.Null? && r.subchapter.Null?
  {
    var prefix := TitleUrl(baseUrl, date, r);
    var params := QueryParams(r);
    var query := if params == [] then "" else "?" + Join(params, "&");
    var url := Url(baseUrl, date, r);
    assert url == prefix + query;
    assert url[..|prefix|] == prefix;
  }

  /**
   * When no component contains "&", the query after the "?" splits at "&"
   * into the present parameters, in order.
   */
  lemma UrlShape(baseUrl: string, date: string, r: CfrReference)
    requires '&' !in Render(r.subtitle) && '&' !in Render(r.chapter) && '&' !in Render(r.subchapter)
    ensures Url(baseUrl, date, r) != TitleUrl(baseUrl, date, r) ==>
              var n := |TitleUrl(baseUrl, date, r)|;
              Url(baseUrl, date, r)[n] == '?' && Split(Url(baseUrl, date, r)[n + 1..], '&') == QueryParams(r)
  {
    var prefix := TitleUrl(baseUrl, date, r);
    var params := QueryParams(r);
    var query := if params == [] then "" else "?" + Join(params, "&");
    var url := Url(baseUrl, date, r);
    assert url == prefix + query;
    assert url[|prefix|..] == query;
    if params != [] {
      assert url[|prefix| + 1..] == query[1..] == Join(params, "&");
      forall k | 0 <= k < |params| ensures '&' !in params[k] {
        ParamsNoAmpersand(r, k);
      }
      SplitJoin(params, '&');
    }
  }

  lemma ParamsNoAmpersand(r: CfrReference, k: nat)
    requires '&' !in Render(r.subtitle) && '&' !in Render(r.chapter) && '&' !in Render(r.subchapter)
    requires k < |QueryParams(r)|
    ensures '&' !in QueryParams(r)[k]
  {
    var params := QueryParams(r);
    assert forall a: string, b: string :: '&' !in a && '&' !in b ==> '&' !in a + b;
    assert '&' !in "subtitle=" && '&' !in "chapter=" && '&' !in "subchapter=";
  }

  // ---------------------------------------------------------------------
  // Dates and tasks
  // ---------------------------------------------------------------------

  /** The download date of a year: "<year>-03-01". */
  function DateFor(year: int): (date: string)
    ensures |date| == |IntToString(year)| + 6
  {
    IntToString(year) + "-" + BaseDate
  }

  /** A date is the printed year, then "-03-01". */
  lemma DateForShape(year: int)
    ensures StartsWith(DateFor(year), IntToString(year))
    ensures EndsWith(DateFor(year), "-03-01")
  {
    var date := DateFor(year);
    assert date[..|IntToString(year)|] == IntToString(year);
    assert date[|date| - 6..] == "-03-01";
  }

  /** Different years give different dates, so no date is downloaded twice. */
  lemma DateForInjective(a: int, b: int)
    requires DateFor(a) == DateFor(b)
    ensures a == b
  {
    var sa, sb := IntToString(a), IntToString(b);
    assert |sa| == |sb| by {
      assert |DateFor(a)| == |sa| + 6 && |DateFor(b)| == |sb| + 6;
    }
    assert sa == DateFor(a)[..|sa|] && sb == DateFor(b)[..|sb|];
    IntToStringInjective(a, b);
  }

  /**
   * `generate_date_list(years)` in the year `currentYear`: one date per
   * requested year, counting back from the current year.
   */
  method GenerateDateList(years: int, currentYear: int) returns (dates: seq<string>)
    ensures dates == DatesBack(currentYear, if years > 0 then years else 0)
    ensures |dates| == if years > 0 then years else 0
    ensures forall i :: 0 <= i < |dates| ==> dates[i] == DateFor(currentYear - i)
  {
    var n := if years > 0 then years else 0;
    dates := [];
    for i := 0 to n
      invariant dates == DatesBack(currentYear, i)
    {
      dates := dates + [DateFor(currentYear - i)];
    }
    forall i | 0 <= i < n
      ensures dates[i] == DateFor(currentYear - i)
    {
      DatesBackAt(currentYear, n, i);
    }
  }

  /** The dates of the `n` years counting back from `currentYear`. */
  function DatesBack(currentYear: int, n: nat): (dates: seq<string>)
    ensures |dates| == n
  {
    if n == 0 then [] else DatesBack(currentYear, n - 1) + [DateFor(currentYear - (n - 1))]
  }

  lemma {:induction false} DatesBackAt(currentYear: int, n: nat, i: nat)
    requires i < n
    ensures DatesBack(currentYear, n)[i] == DateFor(currentYear - i)
    decreases n
  {
    var prefix := DatesBack(currentYear, n - 1);
    assert DatesBack(currentYear, n) == prefix + [DateFor(currentYear - (n - 1))];
    if i < n - 1 {
      DatesBackAt(currentYear, n - 1, i);
    }
  }

  /** The dates of `GenerateDateList` are pairwise different, as their years strictly decrease. */
  lemma DatesDistinct(currentYear: int, i: nat, j: nat)
    requires i < j
    ensures DateFor(currentYear - i) != DateFor(currentYear - j)
  {
    if DateFor(currentYear - i) == DateFor(currentYear - j) {
      DateForInjective(currentYear - i, currentYear - j);
    }
  }

  /** One download: which agency, which reference, which date, and the agency's parent. */
  datatype Task = Task(agencySlug: Value, reference: CfrReference, date: string, parentSlug: Value)

  function RefTasks(date: string, a: Agency, refs: seq<CfrReference>): (ts: seq<Task>)
    ensures |ts| == |refs|
    ensures forall k :: 0 <= k < |refs| ==> ts[k] == Task(a.slug, refs[k], date, a.parentSlug)
  {
    seq(|refs|, k requires 0 <= k < |refs| => Task(a.slug, refs[k], date, a.parentSlug))
  }

  /** The tasks of one date: one per reference, agency by agency. */
  function DateTasks(date: string, agencies: seq<Agency>): (ts: seq<Task>)
    ensures |ts| == RefCount(agencies)
  {
    if agencies == [] then []
    else RefTasks(date, agencies[0], agencies[0].cfrReferences) + DateTasks(date, agencies[1..])
  }

  /** The task list of `download_regulations`: by date, then agency, then reference. */
  function Tasks(dates: seq<string>, agencies: seq<Agency>): (ts: seq<Task>)
    ensures |ts| == |dates| * RefCount(agencies)
  {
    if dates == [] then []
    else
      assert |dates| * RefCount(agencies) == RefCount(agencies) + (|dates| - 1) * RefCount(agencies);
      DateTasks(dates[0], agencies) + Tasks(dates[1..], agencies)
  }

  /** The file a task downloads to. */
  function TaskPath(t: Task): Path {
    ConstructFilepath(t.agencySlug, t.reference, t.date, t.parentSlug)
  }

  /** The files a list of tasks may write. */
  function TaskPaths(ts: seq<Task>): set<Path> {
    set t | t in ts :: TaskPath(t)
  }

  lemma TaskPathsStep(ts: seq<Task>, i: nat)
    requires i < |ts|
    ensures TaskPaths(ts[..i + 1]) == TaskPaths(ts[..i]) + {TaskPath(ts[i])}
  {
    assert ts[..i + 1] == ts[..i] + [ts[i]];
  }

  /** Total number of references over a list of agencies. */
  function RefCount(agencies: seq<Agency>): nat {
    if agencies == [] then 0 else |agencies[0].cfrReferences| + RefCount(agencies[1..])
  }

  lemma {:induction false} RefCountAppend(a: seq<Agency>, b: seq<Agency>)
    ensures RefCount(a + b) == RefCount(a) + RefCount(b)
    decreases |a|
  {
    if a == [] {
      assert a + b == b;
    } else {
      assert (a + b)[0] == a[0] && (a + b)[1..] == a[1..] + b;
      RefCountAppend(a[1..], b);
    }
  }

  lemma {:induction false} DateTasksAppend(date: string, a: seq<Agency>, b: seq<Agency>)
    ensures DateTasks(date, a + b) == DateTasks(date, a) + DateTasks(date, b)
    decreases |a|
  {
    if a == [] {
      assert a + b == b;
    } else {
      assert (a + b)[0] == a[0] && (a + b)[1..] == a[1..] + b;
      DateTasksAppend(date, a[1..], b);
    }
  }

  lemma {:induction false} TasksAppend(a: seq<string>, b: seq<string>, agencies: seq<Agency>)
    ensures Tasks(a + b, agencies) == Tasks(a, agencies) + Tasks(b, agencies)
    decreases |a|
  {
    if a == [] {
      assert a + b == b;
    } else {
      assert (a + b)[0] == a[0] && (a + b)[1..] == a[1..] + b;
      TasksAppend(a[1..], b, agencies);
    }
  }

  /** Within one date, reference `k` of agency `a` comes after the references of the agencies before it. */
  lemma DateTasksAt(date: string, agencies: seq<Agency>, a: nat, k: nat)
    requires a < |agencies| && k < |agencies[a].cfrReferences|
    ensures RefCount(agencies[..a]) + k < |DateTasks(date, agencies)|
    ensures DateTasks(date, agencies)[RefCount(agencies[..a]) + k]
            == Task(agencies[a].slug, agencies[a].cfrReferences[k], date, agencies[a].parentSlug)
  {
    var before, rest := agencies[..a], agencies[a..];
    assert agencies == before + rest;
    DateTasksAppend(date, before, rest);
    assert rest[0] == agencies[a];
  }

  /**
   * Task order: the task at position d * N + RefCount(agencies[..a]) + k, where
   * N is the number of references, is reference k of agency a on date d.
   */
  lemma TasksAt(dates: seq<string>, agencies: seq<Agency>, d: nat, a: nat, k: nat, at: nat)
    requires d < |dates| && a < |agencies| && k < |agencies[a].cfrReferences|
    requires at == d * RefCount(agencies) + RefCount(agencies[..a]) + k
    ensures at < |Tasks(dates, agencies)|
    ensures Tasks(dates, agencies)[at] == Task(agencies[a].slug, agencies[a].cfrReferences[k], dates[d], agencies[a].parentSlug)
  {
    var earlier, day, later := TasksAround(dates, agencies, d);
    DateTasksAt(dates[d], agencies, a, k);
    var x := RefCount(agencies[..a]) + k;
    assert (day + later)[x] == day[x];
    IndexAppend(earlier, day + later, x);
    assert |earlier| + x == at;
  }

  /** The tasks of date `d` sit between those of the earlier and of the later dates. */
  lemma TasksAround(dates: seq<string>, agencies: seq<Agency>, d: nat)
    returns (earlier: seq<Task>, day: seq<Task>, later: seq<Task>)
    requires d < |dates|
    ensures Tasks(dates, agencies) == earlier + (day + later)
    ensures |earlier| == d * RefCount(agencies)
    ensures day == DateTasks(dates[d], agencies)
  {
    var before, rest := dates[..d], dates[d..];
    assert dates == before + rest;
    TasksAppend(before, rest, agencies);
    earlier := Tasks(before, agencies);
    assert rest[0] == dates[d];
    day := DateTasks(dates[d], agencies);
    later := Tasks(rest[1..], agencies);
    assert |before| == d;
  }

  /** Position `i` of `ys` is position `|xs| + i` of `xs + ys`. */
  lemma IndexAppend<T>(xs: seq<T>, ys: seq<T>, i: nat)
    requires i < |ys|
    ensures |xs| + i < |xs + ys| && (xs + ys)[|xs| + i] == ys[i]
  {
  }

  /** The task-building triple loop of `download_regulations`: dates outermost, references innermost. */
  method BuildTasks(dates: seq<string>, agencies: seq<Agency>) returns (tasks: seq<Task>)
    ensures tasks == Tasks(dates, agencies)
  {
    tasks := [];
    for i := 0 to |dates|
      invariant tasks == Tasks(dates[..i], agencies)
    {
      var dayTasks := BuildDateTasks(dates[i], agencies);
      TasksStep(dates, i, agencies);
      tasks := tasks + dayTasks;
    }
    assert dates[..|dates|] == dates;
  }

  /** The two inner loops of the task building, for one date. */
  method BuildDateTasks(date: string, agencies: seq<Agency>) returns (tasks: seq<Task>)
    ensures tasks == DateTasks(date, agencies)
  {
    tasks := [];
    for j := 0 to |agencies|
      invariant tasks == DateTasks(date, agencies[..j])
    {
      var agency := agencies[j];
      ghost var done := tasks;
      for k := 0 to |agency.cfrReferences|
        invariant tasks == done + RefTasks(date, agency, agency.cfrReferences[..k])
      {
        RefTasksStep(date, agency, k);
        tasks := tasks + [Task(agency.slug, agency.cfrReferences[k], date, agency.parentSlug)];
      }
      assert agency.cfrReferences[..|agency.cfrReferences|] == agency.cfrReferences;
      DateTasksStep(date, agencies, j);
    }
    assert agencies[..|agencies|] == agencies;
  }

  lemma RefTasksStep(date: string, a: Agency, k: nat)
    requires k < |a.cfrReferences|
    ensures RefTasks(date, a, a.cfrReferences[..k + 1])
      == RefTasks(date, a, a.cfrReferences[..k]) + [Task(a.slug, a.cfrReferences[k], date, a.parentSlug)]
  {
  }

  lemma DateTasksStep(date: string, agencies: seq<Agency>, j: nat)
    requires j < |agencies|
    ensures DateTasks(date, agencies[..j + 1])
      == DateTasks(date, agencies[..j]) + RefTasks(date, agencies[j], agencies[j].cfrReferences)
  {
    var a := agencies[j];
    assert agencies[..j + 1] == agencies[..j] + [a];
    DateTasksAppend(date, agencies[..j], [a]);
    assert [a][1..] == [];
  }

  lemma TasksStep(dates: seq<string>, i: nat, agencies: seq<Agency>)
    requires i < |dates|
    ensures Tasks(dates[..i + 1], agencies) == Tasks(dates[..i], agencies) + DateTasks(dates[i], agencies)
  {
    assert dates[..i + 1] == dates[..i] + [dates[i]];
    TasksAppend(dates[..i], [dates[i]], agencies);
    assert [dates[i]][1..] == [];
  }

  // ---------------------------------------------------------------------
  // Counters and one download
  // ---------------------------------------------------------------------

  /** `DownloadStats`: three counters, each raised by its own method. */
  class DownloadStats {
    var existingFiles: nat
    var newDownloads: nat
    var failedDownloads: nat

    function Total(): nat
      reads this
    {
      existingFiles + newDownloads + failedDownloads
    }

    constructor ()
      ensures existingFiles == 0 && newDownloads == 0 && failedDownloads == 0
    {
      existingFiles, newDownloads, failedDownloads := 0, 0, 0;
    }

    method IncrementExisting()
      modifies this
      ensures existingFiles == old(existingFiles) + 1
      ensures newDownloads == old(newDownloads) && failedDownloads == old(failedDownloads)
    {
      existingFiles := existingFiles + 1;
    }

    method IncrementNew()
      modifies this
      ensures newDownloads == old(newDownloads) + 1
      ensures existingFiles == old(existingFiles) && failedDownloads == old(failedDownloads)
    {
      newDownloads := newDownloads + 1;
    }

    method IncrementFailed()
      modifies this
      ensures failedDownloads == old(failedDownloads) + 1
      ensures existingFiles == old(existingFiles) && newDownloads == old(newDownloads)
    {
      failedDownloads := failedDownloads + 1;
    }
  }

  /** What one HTTP request gave: the body, or a `RequestException` (error status, timeout, ...). */
  datatype Response = Ok(body: string) | Failed

  /** The first attempt from `i` on, below `maxAttempts`, whose request succeeds. */
  function FirstSuccess(fetch: (string, nat) -> Response, url: string, i: nat, maxAttempts: nat): (k: Option<nat>)
    ensures k.Some? ==> i <= k.value < maxAttempts && fetch(url, k.value).Ok?
    ensures k.Some? ==> forall j :: i <= j < k.value ==> fetch(url, j).Failed?
    ensures k.None? ==> forall j :: i <= j < maxAttempts ==> fetch(url, j).Failed?
    decreases maxAttempts - i
  {
    if i >= maxAttempts then None
    else if fetch(url, i).Ok? then Some(i)
    else FirstSuccess(fetch, url, i + 1, maxAttempts)
  }

  /**
   * `download_regulation`: an existing file is counted and skipped; otherwise
   * up to `maxAttempts` requests are made (the script uses `MaxAttempts`,
   * that is one), the first success is counted as new and its body returned,
   * and when the last attempt fails the download is counted as failed.
   * `fetch(url, attempt)` is the outcome of request number `attempt`.
   */
  method DownloadRegulation(agencySlug: Value, r: CfrReference, date: string, parentSlug: Value,
                            stats: DownloadStats, disk: set<Path>, fetch: (string, nat) -> Response,
                            maxAttempts: nat)
    returns (content: Option<string>)
    modifies stats
    ensures ConstructFilepath(agencySlug, r, date, parentSlug) in disk ==>
      content == None
      && stats.existingFiles == old(stats.existingFiles) + 1
      && stats.newDownloads == old(stats.newDownloads)
      && stats.failedDownloads == old(stats.failedDownloads)
    ensures ConstructFilepath(agencySlug, r, date, parentSlug) !in disk ==>
      stats.existingFiles == old(stats.existingFiles)
    ensures var success := FirstSuccess(fetch, Url(BaseUrl, date, r), 0, maxAttempts);
      ConstructFilepath(agencySlug, r, date, parentSlug) !in disk && success.Some? ==>
        content == Some(fetch(Url(BaseUrl, date, r), success.value).body)
        && stats.newDownloads == old(stats.newDownloads) + 1
        && stats.failedDownloads == old(stats.failedDownloads)
    ensures var success := FirstSuccess(fetch, Url(BaseUrl, date, r), 0, maxAttempts);
      ConstructFilepath(agencySlug, r, date, parentSlug) !in disk && success.None? ==>
        content == None
        && stats.newDownloads == old(stats.newDownloads)
        && stats.failedDownloads == old(stats.failedDownloads) + (if maxAttempts > 0 then 1 else 0)
  {
    var path := ConstructFilepath(agencySlug, r, date, parentSlug);
    if path in disk {
      stats.IncrementExisting();
      return None;
    }
    var url := BuildUrl(BaseUrl, date, r);
    content := FetchWithRetries(url, stats, fetch, maxAttempts);
  }

  /**
   * The retry loop of `download_regulation`: the first successful attempt is
   * counted as new and gives the body; a failure on the last attempt is
   * counted as failed.
   */
  method FetchWithRetries(url: string, stats: DownloadStats, fetch: (string, nat) -> Response, maxAttempts: nat)
    returns (content: Option<string>)
    modifies stats
    ensures stats.existingFiles == old(stats.existingFiles)
    ensures var success := FirstSuccess(fetch, url, 0, maxAttempts);
      success.Some? ==>
        content == Some(fetch(url, success.value).body)
        && stats.newDownloads == old(stats.newDownloads) + 1
        && stats.failedDownloads == old(stats.failedDownloads)
    ensures FirstSuccess(fetch, url, 0, maxAttempts).None? ==>
        content == None
        && stats.newDownloads == old(stats.newDownloads)
        && stats.failedDownloads == old(stats.failedDownloads) + (if maxAttempts > 0 then 1 else 0)
  {
    content := None;
    for attempt := 0 to maxAttempts
      invariant maxAttempts == 0 || attempt < maxAttempts
      invariant forall j :: 0 <= j < attempt ==> fetch(url, j).Failed?
      invariant stats.existingFiles == old(stats.existingFiles)
      invariant stats.newDownloads == old(stats.newDownloads)
      invariant stats.failedDownloads == old(stats.failedDownloads)
    {
      var response := fetch(url, attempt);
      if response.Ok? {
        stats.IncrementNew();
        return Some(response.body);
      }
      if attempt < maxAttempts - 1 {
        continue;
      }
      stats.IncrementFailed();
      return None;
    }
  }

  /** One task of the pool: it raises one counter and writes at most its own file. */
  method RunTask(task: Task, stats: DownloadStats, written: set<Path>, fetch: (string, nat) -> Response)
    returns (after: set<Path>)
    modifies stats
    ensures stats.Total() == old(stats.Total()) + 1
    ensures after == written || after == written + {TaskPath(task)}
  {
    var content := DownloadRegulation(task.agencySlug, task.reference, task.date, task.parentSlug,
                                      stats, written, fetch, MaxAttempts);
    after := if content.Some? then written + {TaskPath(task)} else written;
  }

  /**
   * `download_regulations`, run one task after another: every task raises
   * exactly one counter, so the counters add up to the number of tasks.  A
   * successful download writes its file, which later tasks then find; no
   * other file is written.
   */
  method DownloadRegulations(agencies: seq<Agency>, years: int, currentYear: int,
                             disk: set<Path>, fetch: (string, nat) -> Response)
    returns (stats: DownloadStats, written: set<Path>)
    ensures fresh(stats)
    ensures stats.Total() == (if years > 0 then years else 0) * RefCount(agencies)
    ensures disk <= written
    ensures written <= disk + TaskPaths(Tasks(DatesBack(currentYear, if years > 0 then years else 0), agencies))
  {
    var dates := GenerateDateList(years, currentYear);
    var tasks := BuildTasks(dates, agencies);
    stats := new DownloadStats();
    written := disk;
    for i := 0 to |tasks|
      invariant fresh(stats)
      invariant stats.Total() == i
      invariant disk <= written
      invariant written <= disk + TaskPaths(tasks[..i])
    {
      TaskPathsStep(tasks, i);
      written := RunTask(tasks[i], stats, written, fetch);
    }
    assert tasks[..|tasks|] == tasks;
  }
}

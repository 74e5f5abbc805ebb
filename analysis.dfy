/**
 * The per-file bookkeeping of analyze_regulations.py: word and restrictive
 * word counts of a file's text, the agency and year read off its path, and
 * the accumulation of per-file results into a per-agency/per-year table and
 * a per-directory table, with the final filter over the table.
 */
module Analysis {
  import opened Text
  import opened Agencies
  import Regulations
  import Sections

  // ---------------------------------------------------------------------
  // Word statistics of `analyze_xml_content`
  // ---------------------------------------------------------------------

  /** `RESTRICTIVE_WORDS`. */
  const RestrictiveWords: set<string> :=
    {"shall", "must", "penalty", "prohibited", "required", "restrict", "forbid"}

  /** Each token lowercased. */
  function LowerAll(ts: seq<string>): (ls: seq<string>)
    ensures |ls| == |ts|
    ensures forall k :: 0 <= k < |ts| ==> ls[k] == Lower(ts[k])
  {
    seq(|ts|, k requires 0 <= k < |ts| => Lower(ts[k]))
  }

  /** The lowercased whitespace-separated words of the text, empty pieces dropped. */
  function Words(fullText: string): (words: seq<string>)
    ensures |words| == |Tokens(fullText)|
    ensures forall k :: 0 <= k < |words| ==> |words[k]| > 0
  {
    LowerAll(Tokens(fullText))
  }

  /** `sum(word in RESTRICTIVE_WORDS for word in words)`. */
  function RestrictiveCount(words: seq<string>): (n: nat)
    ensures n <= |words|
  {
    if words == [] then 0
    else (if words[0] in RestrictiveWords then 1 else 0) + RestrictiveCount(words[1..])
  }

  /** What `analyze_xml_content` reports for a file. */
  datatype FileAnalysis = FileAnalysis(wordCount: int, restrictiveness: real, sentiment: real, avgSentenceLength: real)

  /**
   * `analyze_xml_content` on the extracted text: the word count, the share of
   * restrictive words (0 without words) and the sentiment score (0 for empty
   * text). The sentiment score of non-empty text and the average sentence
   * length are computed by code outside this model and come in as values.
   */
  function AnalyzeText(fullText: string, polarity: real, avgSentenceLength: real): (a: FileAnalysis)
    ensures a.wordCount == |Tokens(fullText)|
    ensures a.restrictiveness == Share(RestrictiveCount(Words(fullText)), |Words(fullText)|)
    ensures 0.0 <= a.restrictiveness <= 1.0
    ensures fullText == [] ==> a.sentiment == 0.0
    ensures fullText != [] ==> a.sentiment == polarity
  {
    var words := Words(fullText);
    var wordCount := |words|;
    var restrictive := RestrictiveCount(words);
    var restrictiveness := Share(restrictive, wordCount);
    FileAnalysis(wordCount, restrictiveness, if fullText != [] then polarity else 0.0, avgSentenceLength)
  }

  /** `part / whole` as a real number, 0 for an empty whole. */
  function Share(part: nat, whole: nat): (r: real)
    requires part <= whole
    ensures 0.0 <= r <= 1.0
    ensures whole == 0 ==> r == 0.0
    ensures whole > 0 ==> r * whole as real == part as real
  {
    if whole == 0 then 0.0
    else
      var p, w := part as real, whole as real;
      assert p / w * w == p;
      assert p / w <= 1.0 by {
        assert p <= w;
      }
      p / w
  }

  /** The text has no words exactly when it is all whitespace. */
  lemma {:induction false} NoWordsIffBlank(s: string)
    ensures |Words(s)| == 0 <==> forall i :: 0 <= i < |s| ==> IsSpace(s[i])
    decreases |s|
  {
    if forall i :: 0 <= i < |s| ==> IsSpace(s[i]) {
      TokensOfBlank(s);
    } else if s != [] && IsSpace(s[0]) {
      NoWordsIffBlank(s[1..]);
      var i :| 0 <= i < |s| && !IsSpace(s[i]);
      assert s[1..][i - 1] == s[i];
    }
  }

  /** Words on either side of a whitespace character are counted separately and add up. */
  lemma WordsAppendSpace(a: string, sp: char, b: string)
    requires IsSpace(sp)
    ensures Words(a + [sp] + b) == Words(a) + Words(b)
  {
    TokensAppendSpace(a, sp, b);
  }

  lemma {:induction false} RestrictiveCountAppend(u: seq<string>, v: seq<string>)
    ensures RestrictiveCount(u + v) == RestrictiveCount(u) + RestrictiveCount(v)
    decreases |u|
  {
    if u == [] {
      assert u + v == v;
    } else {
      assert (u + v)[0] == u[0] && (u + v)[1..] == u[1..] + v;
      RestrictiveCountAppend(u[1..], v);
    }
  }

  predicate IsLetter(c: char) { 'a' <= c <= 'z' || 'A' <= c <= 'Z' }

  predicate LowerLetters(w: string) { forall i :: 0 <= i < |w| ==> 'a' <= w[i] <= 'z' }

  /**
   * A token holding anything but a letter, such as "shall," with its comma,
   * is never a restrictive word: matching splits on whitespace only.
   */
  lemma PunctuatedTokenNotCounted(t: string, i: nat)
    requires i < |t| && !IsLetter(t[i])
    ensures Lower(t) !in RestrictiveWords
  {
    var w := Lower(t);
    assert w[i] == t[i];
    assert !LowerLetters(w);
    assert LowerLetters("shall") && LowerLetters("must") && LowerLetters("penalty")
      && LowerLetters("prohibited") && LowerLetters("required") && LowerLetters("restrict")
      && LowerLetters("forbid");
  }

  /** Lowercasing leaves whitespace where it is, so it commutes with tokenising. */
  lemma {:induction false} TokensOfLower(s: string)
    ensures Tokens(Lower(s)) == LowerAll(Tokens(s))
    decreases |s|
  {
    var l := Lower(s);
    if s != [] {
      assert l[1..] == Lower(s[1..]);
      if IsSpace(s[0]) {
        TokensOfLower(s[1..]);
      } else {
        var n := RunEnd(s, 0, NotSpace);
        TokensOfLowerRun(s, n);
        TokensOfLower(s[n..]);
        assert Tokens(s) == [s[..n]] + Tokens(s[n..]);
        LowerAllCons(s[..n], Tokens(s[n..]));
      }
    }
  }

  /** Lowercasing keeps the first run of non-whitespace characters where it was. */
  lemma TokensOfLowerRun(s: string, n: nat)
    requires s != [] && !IsSpace(s[0]) && n == RunEnd(s, 0, NotSpace)
    ensures Tokens(Lower(s)) == [Lower(s[..n])] + Tokens(Lower(s[n..]))
  {
    var l := Lower(s);
    assert forall k :: 0 <= k < n ==> NotSpace(l[k]);
    assert n == |l| || !NotSpace(l[n]);
    RunEndUnique(l, 0, NotSpace, n);
    assert l[..n] == Lower(s[..n]) && l[n..] == Lower(s[n..]);
  }

  lemma LowerAllCons(t: string, ts: seq<string>)
    ensures LowerAll([t] + ts) == [Lower(t)] + LowerAll(ts)
  {
  }

  /** Matching is case-insensitive: lowercasing the text first changes neither the words nor the counts. */
  lemma WordsIgnoreCase(s: string)
    ensures Words(Lower(s)) == Words(s)
    ensures RestrictiveCount(Words(Lower(s))) == RestrictiveCount(Words(s))
  {
    TokensOfLower(s);
    assert forall k :: 0 <= k < |Tokens(s)| ==> Lower(Lower(Tokens(s)[k])) == Lower(Tokens(s)[k]);
  }
  // ---------------------------------------------------------------------
  // Path utilities
  // ---------------------------------------------------------------------

  /** `os.sep`, on the POSIX systems this model follows. */
  const Sep: char := '/'

  /** The first index holding "data" that has a component after it. */
  function DataIndex(parts: seq<string>): (r: Option<nat>)
    ensures r.Some? ==> r.value + 1 < |parts| && parts[r.value] == "data"
    ensures r.Some? ==> forall j :: 0 <= j < r.value ==> parts[j] != "data"
    ensures r.None? ==> forall j :: 0 <= j && j + 1 < |parts| ==> parts[j] != "data"
  {
    var p := (j: nat) => j + 1 < |parts| && parts[j] == "data";
    assert forall j: nat :: p(j) == (j + 1 < |parts| && parts[j] == "data");
    First(0, |parts|, p)
  }

  /**
   * `extract_parent_agency`: the component right after the first "data"
   * component that has a successor, "unknown" when there is none.
   */
  function ExtractParentAgency(filePath: string): (agency: string)
    ensures agency == "unknown" || agency in Split(filePath, Sep)
  {
    var parts := Split(filePath, Sep);
    match DataIndex(parts)
    case Some(i) => parts[i + 1]
    case None => "unknown"
  }

  /** Without a "data" component that has a successor, the agency is "unknown". */
  lemma NoDataIsUnknown(filePath: string)
    requires forall j :: 0 <= j && j + 1 < |Split(filePath, Sep)| ==> Split(filePath, Sep)[j] != "data"
    ensures ExtractParentAgency(filePath) == "unknown"
  {
  }

  /** Otherwise it is the component after the first "data" component. */
  lemma FirstDataGivesAgency(filePath: string, i: nat)
    requires i + 1 < |Split(filePath, Sep)| && Split(filePath, Sep)[i] == "data"
    requires forall j :: 0 <= j < i ==> Split(filePath, Sep)[j] != "data"
    ensures ExtractParentAgency(filePath) == Split(filePath, Sep)[i + 1]
  {
    var parts := Split(filePath, Sep);
    assert DataIndex(parts) == Some(i);
  }

  /** A last component without a separator splits off as one piece. */
  lemma SplitSnoc(x: string, c: string)
    requires Sep !in c
    ensures Split(x + [Sep] + c, Sep) == Split(x, Sep) + [c]
  {
    SplitAppend(x, Sep, c);
    SplitPlain(c, Sep);
  }

  /**
   * The file `download_regulation` stores under "./data" is credited to the
   * parent agency when it has one and to the agency itself otherwise.
   */
  lemma ParentAgencyOfStoredFile(agencySlug: Value, r: CfrReference, date: string, parentSlug: Value)
    requires Sep !in Render(agencySlug) && Sep !in date && Sep !in Regulations.ConstructFilename(r)
    requires Truthy(parentSlug) ==> Sep !in Render(parentSlug)
    ensures Truthy(parentSlug) ==>
              ExtractParentAgency(Regulations.FilepathText(agencySlug, r, date, parentSlug)) == Render(parentSlug)
    ensures !Truthy(parentSlug) ==>
              ExtractParentAgency(Regulations.FilepathText(agencySlug, r, date, parentSlug)) == Render(agencySlug)
  {
    var a, f := Render(agencySlug), Regulations.ConstructFilename(r);
    if Truthy(parentSlug) {
      var p := Render(parentSlug);
      var path := "./data/" + p + "/" + a + "/" + date + "/" + f;
      SplitFiveUnderData(p, a, date, f);
      FirstDataGivesAgency(path, 1);
    } else {
      var path := "./data/" + a + "/" + date + "/" + f;
      SplitFourUnderData(a, date, f);
      FirstDataGivesAgency(path, 1);
    }
  }

  lemma SplitUnderData()
    ensures Split("./data", Sep) == [".", "data"]
  {
    assert "./data" == "." + [Sep] + "data";
    SplitPlain(".", Sep);
    SplitSnoc(".", "data");
  }

  lemma SplitFiveUnderData(p: string, a: string, date: string, f: string)
    requires Sep !in p && Sep !in a && Sep !in date && Sep !in f
    ensures Split("./data/" + p + "/" + a + "/" + date + "/" + f, Sep) == [".", "data", p, a, date, f]
  {
    SplitUnderData();
    var s1 := "./data" + [Sep] + p;
    assert s1 == "./data/" + p;
    SplitSnoc("./data", p);
    var s2 := s1 + [Sep] + a;
    SplitSnoc(s1, a);
    var s3 := s2 + [Sep] + date;
    SplitSnoc(s2, date);
    SplitSnoc(s3, f);
  }

  lemma SplitFourUnderData(a: string, date: string, f: string)
    requires Sep !in a && Sep !in date && Sep !in f
    ensures Split("./data/" + a + "/" + date + "/" + f, Sep) == [".", "data", a, date, f]
  {
    SplitUnderData();
    var s1 := "./data" + [Sep] + a;
    assert s1 == "./data/" + a;
    SplitSnoc("./data", a);
    var s2 := s1 + [Sep] + date;
    SplitSnoc(s1, date);
    SplitSnoc(s2, f);
  }

  /**
   * `\b(20\d{2})\b` matches at `j`: "20" and two digits, with no word
   * character right before or right after them.
   */
  predicate YearAt(s: string, j: nat) {
    && j + 4 <= |s|
    && s[j] == '2' && s[j + 1] == '0' && IsDigit(s[j + 2]) && IsDigit(s[j + 3])
    && (j == 0 || !IsWordChar(s[j - 1]))
    && (j + 4 == |s| || !IsWordChar(s[j + 4]))
  }

  /** The leftmost match at or after `lo`, as `re.search` reports it. */
  function YearFrom(s: string, lo: nat): (r: Option<nat>)
    ensures r.Some? ==> lo <= r.value && YearAt(s, r.value)
    ensures r.Some? ==> forall j: nat :: lo <= j < r.value ==> !YearAt(s, j)
    ensures r.None? ==> forall j: nat :: lo <= j ==> !YearAt(s, j)
    decreases |s| - lo
  {
    if lo >= |s| then None
    else if YearAt(s, lo) then Some(lo)
    else YearFrom(s, lo + 1)
  }

  /** `extract_year`: `int()` of the leftmost match, `None` without one. */
  function ExtractYear(filePath: string): (year: Option<int>)
    ensures year.Some? ==> 2000 <= year.value <= 2099
  {
    match YearFrom(filePath, 0)
    case Some(j) => Some(2000 + 10 * DigitValue(filePath[j + 2]) + DigitValue(filePath[j + 3]))
    case None => None
  }

  /** A year is found exactly when the pattern matches somewhere, and then it is the leftmost match. */
  lemma ExtractYearMatches(s: string)
    ensures ExtractYear(s).Some? <==> exists j: nat :: YearAt(s, j)
    ensures forall j: nat :: YearAt(s, j) && (forall i: nat :: i < j ==> !YearAt(s, i)) ==>
              ExtractYear(s) == Some(2000 + 10 * DigitValue(s[j + 2]) + DigitValue(s[j + 3]))
  {
    forall j: nat | YearAt(s, j) && (forall i: nat :: i < j ==> !YearAt(s, i))
      ensures ExtractYear(s) == Some(2000 + 10 * DigitValue(s[j + 2]) + DigitValue(s[j + 3]))
    {
      ExtractYearAt(s, j);
    }
  }

  /** The leftmost match gives the year. */
  lemma ExtractYearAt(s: string, j: nat)
    requires YearAt(s, j) && forall i: nat :: i < j ==> !YearAt(s, i)
    ensures ExtractYear(s) == Some(2000 + 10 * DigitValue(s[j + 2]) + DigitValue(s[j + 3]))
  {
    var r := YearFrom(s, 0);
    assert r.Some?;
    assert !(r.value < j) && !(j < r.value);
  }

  /** A year from 2000 to 2099 prints as "20" and two digits. */
  lemma YearDigits(y: int)
    requires 2000 <= y <= 2099
    ensures IntToString(y) == ['2', '0', DigitChar((y / 10) % 10), DigitChar(y % 10)]
  {
    var q := y / 10;
    assert q / 10 == 20;
    assert NatToString(2) == ['2'];
    assert NatToString(20) == NatToString(2) + [DigitChar(0)] == ['2', '0'];
    assert NatToString(q) == NatToString(20) + [DigitChar(q % 10)];
    assert NatToString(y) == NatToString(q) + [DigitChar(y % 10)];
  }

  /**
   * The date directory of a stored file gives its year, provided nothing
   * before it already reads as a year.
   */
  lemma YearOfDateComponent(pre: string, y: int, post: string)
    requires 2000 <= y <= 2099
    requires ExtractYear(pre) == None
    ensures ExtractYear(pre + "/" + Regulations.DateFor(y) + post) == Some(y)
  {
    var tail := "/" + Regulations.DateFor(y) + post;
    var s := pre + tail;
    assert s == pre + "/" + Regulations.DateFor(y) + post;
    var m := |pre| + 1;
    YearAtDate(pre, y, post, s);
    NoYearBeforeDate(pre, tail, s);
    ExtractYearAt(s, m);
    YearOfLastDigits(y);
  }

  /** A year from 2000 to 2099 is 2000 plus ten times its tens digit plus its units digit. */
  lemma YearOfLastDigits(y: int)
    requires 2000 <= y <= 2099
    ensures 2000 + 10 * DigitValue(DigitChar((y / 10) % 10)) + DigitValue(DigitChar(y % 10)) == y
  {
    var q := y / 10;
    assert y == 10 * q + y % 10 && q % 10 == q - 200;
  }

  /** The date directory reads as a year, with the year's last two digits. */
  lemma YearAtDate(pre: string, y: int, post: string, s: string)
    requires 2000 <= y <= 2099
    requires s == pre + "/" + Regulations.DateFor(y) + post
    ensures YearAt(s, |pre| + 1)
    ensures s[|pre| + 3] == DigitChar((y / 10) % 10) && s[|pre| + 4] == DigitChar(y % 10)
  {
    var date := Regulations.DateFor(y);
    var m := |pre| + 1;
    YearDigits(y);
    assert date == IntToString(y) + "-" + Regulations.BaseDate;
    assert s[m..m + 5] == IntToString(y) + "-" by {
      assert s[m..] == date + post;
    }
    assert s[m - 1] == '/';
  }

  /** With no year in `pre`, nothing up to the slash after it reads as a year. */
  lemma NoYearBeforeDate(pre: string, tail: string, s: string)
    requires ExtractYear(pre) == None
    requires tail != [] && tail[0] == '/' && s == pre + tail
    ensures forall i: nat :: i <= |pre| ==> !YearAt(s, i)
  {
    ExtractYearMatches(pre);
    forall i: nat | i <= |pre|
      ensures !YearAt(s, i)
    {
      if i < |pre| {
        NoYearBeforeSlash(pre, tail, i);
      } else {
        assert s[i] == '/';
      }
    }
  }

  /** A match cannot reach past a slash, so text after one adds no match before it. */
  lemma NoYearBeforeSlash(pre: string, tail: string, i: nat)
    requires tail != [] && tail[0] == '/'
    requires i < |pre| && !YearAt(pre, i)
    ensures !YearAt(pre + tail, i)
  {
    var s := pre + tail;
    assert s[|pre|] == '/';
    if i + 4 <= |pre| {
      assert s[i..i + 4] == pre[i..i + 4];
      assert i + 4 < |pre| ==> s[i + 4] == pre[i + 4];
      assert i + 4 == |pre| ==> !IsWordChar(s[i + 4]);
      assert i > 0 ==> s[i - 1] == pre[i - 1];
    }
  }

  /**
   * The year credited to a stored file is the year of its date directory,
   * unless the agency directories above it already read as a year.
   */
  lemma YearOfStoredFile(agencySlug: Value, r: CfrReference, y: int, parentSlug: Value)
    requires 2000 <= y <= 2099
    requires Truthy(parentSlug) ==> ExtractYear("./data/" + Render(parentSlug) + "/" + Render(agencySlug)) == None
    requires !Truthy(parentSlug) ==> ExtractYear("./data/" + Render(agencySlug)) == None
    ensures ExtractYear(Regulations.FilepathText(agencySlug, r, Regulations.DateFor(y), parentSlug)) == Some(y)
  {
    var a, f, date := Render(agencySlug), Regulations.ConstructFilename(r), Regulations.DateFor(y);
    var pre := if Truthy(parentSlug) then "./data/" + Render(parentSlug) + "/" + a else "./data/" + a;
    assert Regulations.FilepathText(agencySlug, r, date, parentSlug) == pre + "/" + date + ("/" + f);
    YearOfDateComponent(pre, y, "/" + f);
  }

  /** Just past the last separator, 0 when there is none. */
  function TailStart(p: string): (i: nat)
    ensures i <= |p|
    ensures forall j :: i <= j < |p| ==> p[j] != Sep
    ensures i > 0 ==> p[i - 1] == Sep
  {
    match Sections.LastIndex(p, Sep)
    case Some(k) => k + 1
    case None => 0
  }

  /** `os.path.basename`: what follows the last separator. */
  function Basename(p: string): (name: string)
    ensures Sep !in name
  {
    var name := p[TailStart(p)..];
    assert forall j :: 0 <= j < |name| ==> name[j] == p[TailStart(p) + j];
    name
  }

  /** `s.rstrip(c)`. */
  function RStrip(s: string, c: char): (r: string)
    ensures r <= s
    ensures r == [] || r[|r| - 1] != c
    ensures forall j :: |r| <= j < |s| ==> s[j] == c
  {
    if s == [] || s[|s| - 1] != c then s else RStrip(s[..|s| - 1], c)
  }

  /**
   * `os.path.dirname`: everything up to the last separator, with trailing
   * separators stripped unless it consists of separators only.
   */
  function Dirname(p: string): (d: string)
    ensures d <= p
    ensures d == [] || Sep in p
  {
    var head := p[..TailStart(p)];
    if head != [] && (exists j :: 0 <= j < |head| && head[j] != Sep) then
      var d := RStrip(head, Sep);
      assert d == p[..|d|];
      d
    else head
  }

  /** The directory and name `os.path.join` put together are the ones `dirname` and `basename` take apart. */
  lemma DirnameBasenameOfJoin(d: string, f: string)
    requires d != [] && d[|d| - 1] != Sep && Sep !in f
    ensures Dirname(d + [Sep] + f) == d
    ensures Basename(d + [Sep] + f) == f
  {
    var p := d + [Sep] + f;
    var i := TailStart(p);
    assert p[|d|] == Sep;
    assert forall j :: |d| < j < |p| ==> p[j] == f[j - |d| - 1];
    assert i == |d| + 1;
    assert p[..i] == d + [Sep];
    assert p[i..] == f;
    assert (d + [Sep])[|d| - 1] != Sep;
    assert RStrip(d + [Sep], Sep) == RStrip(d, Sep) == d;
  }

  // ---------------------------------------------------------------------
  // The per-agency/per-year table of `process_file`
  // ---------------------------------------------------------------------

  /** One agency/year entry of `results`: word-weighted sums of the scores and the two counts. */
  datatype Bucket = Bucket(wordCount: int, restrictiveness: real, sentiment: real, avgSentenceLength: real, fileCount: nat)

  /** A new entry starts with all five accumulators at zero. */
  const EmptyBucket: Bucket := Bucket(0, 0.0, 0.0, 0.0, 0)

  function AddFile(b: Bucket, a: FileAnalysis): (r: Bucket)
    ensures r.wordCount == b.wordCount + a.wordCount && r.fileCount == b.fileCount + 1
    ensures b == EmptyBucket && a.wordCount != 0 ==>
              r.restrictiveness / r.wordCount as real == a.restrictiveness
              && r.sentiment / r.wordCount as real == a.sentiment
              && r.avgSentenceLength / r.wordCount as real == a.avgSentenceLength
  {
    var w := a.wordCount as real;
    Bucket(b.wordCount + a.wordCount,
           b.restrictiveness + a.restrictiveness * w,
           b.sentiment + a.sentiment * w,
           b.avgSentenceLength + a.avgSentenceLength * w,
           b.fileCount + 1)
  }

  /**
   * With exact arithmetic the entry does not depend on the order in which the
   * workers add their files; floating-point sums, whose rounding is not
   * modelled, can.
   */
  lemma AddFileCommutes(b: Bucket, a1: FileAnalysis, a2: FileAnalysis)
    ensures AddFile(AddFile(b, a1), a2) == AddFile(AddFile(b, a2), a1)
  {
  }

  type Results = map<string, map<int, Bucket>>

  function BucketOf(results: Results, agency: string, year: int): Bucket {
    if agency in results && year in results[agency] then results[agency][year] else EmptyBucket
  }

  /**
   * Adding a file to the entry of its agency and year, creating the agency
   * and the entry when missing; every other entry stays as it was.
   */
  function AddToResults(results: Results, agency: string, year: int, a: FileAnalysis): (r: Results)
    ensures r.Keys == results.Keys + {agency}
    ensures r[agency].Keys == (if agency in results then results[agency].Keys else {}) + {year}
    ensures r[agency][year].wordCount == BucketOf(results, agency, year).wordCount + a.wordCount
    ensures r[agency][year].fileCount == BucketOf(results, agency, year).fileCount + 1
    ensures forall g :: g in results && g != agency ==> r[g] == results[g]
    ensures agency in results ==> forall y :: y in results[agency] && y != year ==> r[agency][y] == results[agency][y]
  {
    var years := if agency in results then results[agency] else map[];
    results[agency := years[year := AddFile(BucketOf(results, agency, year), a)]]
  }

  /**
   * The update of `process_file`: the agency's table and the year's entry
   * are created empty when missing, then the file is added to the entry.
   */
  method AddEntry(results: Results, agency: string, year: int, a: FileAnalysis) returns (updated: Results)
    ensures updated == AddToResults(results, agency, year, a)
  {
    var years := map[];
    if agency in results {
      years := results[agency];
    }
    var bucket := EmptyBucket;
    if year in years {
      bucket := years[year];
    }
    updated := results[agency := years[year := AddFile(bucket, a)]];
  }

  /** One addition to `results`, as a record kept for the proofs only. */
  datatype Added = Added(path: string, agency: string, year: int, wordCount: int, replacing: bool)

  predicate At(e: Added, agency: string, year: int) { e.agency == agency && e.year == year }

  /** The words of the additions made to one entry. */
  function LoggedWords(log: seq<Added>, agency: string, year: int): int {
    if log == [] then 0
    else LoggedWords(log[..|log| - 1], agency, year) + (if At(log[|log| - 1], agency, year) then log[|log| - 1].wordCount else 0)
  }

  /** The number of additions made to one entry. */
  function LoggedFiles(log: seq<Added>, agency: string, year: int): nat {
    if log == [] then 0
    else LoggedFiles(log[..|log| - 1], agency, year) + (if At(log[|log| - 1], agency, year) then 1 else 0)
  }

  /** The paths added to one entry. */
  function LoggedPaths(log: seq<Added>, agency: string, year: int): set<string> {
    if log == [] then {}
    else LoggedPaths(log[..|log| - 1], agency, year) + (if At(log[|log| - 1], agency, year) then {log[|log| - 1].path} else {})
  }

  /** Every entry holds exactly the sums of the additions made to it, and every addition has its entry. */
  ghost predicate Tracks(results: Results, log: seq<Added>) {
    && (forall g | g in results :: forall y | y in results[g] ::
          results[g][y].wordCount == LoggedWords(log, g, y) && results[g][y].fileCount == LoggedFiles(log, g, y))
    && (forall i | 0 <= i < |log| :: log[i].agency in results && log[i].year in results[log[i].agency])
  }

  /** No addition, no sums. */
  lemma {:induction false} LoggedNothing(log: seq<Added>, agency: string, year: int)
    requires forall i :: 0 <= i < |log| ==> !At(log[i], agency, year)
    ensures LoggedWords(log, agency, year) == 0 && LoggedFiles(log, agency, year) == 0
    ensures LoggedPaths(log, agency, year) == {}
    decreases |log|
  {
    if log != [] {
      LoggedNothing(log[..|log| - 1], agency, year);
    }
  }

  /** Adding a file to its entry and recording the addition keeps the table in step with the record. */
  lemma TracksAdd(results: Results, log: seq<Added>, e: Added, a: FileAnalysis)
    requires Tracks(results, log) && e.wordCount == a.wordCount
    ensures Tracks(AddToResults(results, e.agency, e.year, a), log + [e])
  {
    var r: Results := AddToResults(results, e.agency, e.year, a);
    var log' := log + [e];
    assert log'[..|log|] == log;
    if !(e.agency in results && e.year in results[e.agency]) {
      LoggedNothing(log, e.agency, e.year);
    }
    forall g: string, y: int | g in r && y in r[g]
      ensures r[g][y].wordCount == LoggedWords(log', g, y) && r[g][y].fileCount == LoggedFiles(log', g, y)
    {
      LoggedSnoc(log, e, g, y);
    }
    forall i | 0 <= i < |log'|
      ensures log'[i].agency in r && log'[i].year in r[log'[i].agency]
    {
      if i < |log| { assert log'[i] == log[i]; }
    }
  }

  /** One more addition adds to its own entry's sums only. */
  lemma LoggedSnoc(log: seq<Added>, e: Added, agency: string, year: int)
    ensures LoggedWords(log + [e], agency, year)
            == LoggedWords(log, agency, year) + (if At(e, agency, year) then e.wordCount else 0)
    ensures LoggedFiles(log + [e], agency, year)
            == LoggedFiles(log, agency, year) + (if At(e, agency, year) then 1 else 0)
  {
    assert (log + [e])[..|log|] == log;
  }

  /**
   * When no addition was a replacing one, no path was added twice, so an
   * entry's file count is the number of distinct paths added to it.
   */
  lemma {:induction false} FileCountIsDistinctPaths(log: seq<Added>, agency: string, year: int)
    requires forall i, j :: 0 <= i < j < |log| && log[i].path == log[j].path ==> log[j].replacing
    requires forall i :: 0 <= i < |log| ==> !log[i].replacing
    ensures LoggedFiles(log, agency, year) == |LoggedPaths(log, agency, year)|
    decreases |log|
  {
    if log != [] {
      var last := log[|log| - 1];
      var init := log[..|log| - 1];
      FileCountIsDistinctPaths(init, agency, year);
      assert forall i :: 0 <= i < |init| ==> init[i] == log[i];
      LoggedPathsAvoid(init, agency, year, last.path);
    }
  }

  /** A path none of the additions had is not among an entry's paths. */
  lemma {:induction false} LoggedPathsAvoid(log: seq<Added>, agency: string, year: int, p: string)
    requires forall i :: 0 <= i < |log| ==> log[i].path != p
    ensures p !in LoggedPaths(log, agency, year)
    decreases |log|
  {
    if log != [] {
      LoggedPathsAvoid(log[..|log| - 1], agency, year, p);
    }
  }

  // ---------------------------------------------------------------------
  // The per-directory table
  // ---------------------------------------------------------------------

  datatype FileEntry = FileEntry(fileName: string, analysis: FileAnalysis)

  /** One directory of `dir_results`. */
  datatype DirData = DirData(totalWordCount: int, files: seq<FileEntry>)

  const EmptyDir: DirData := DirData(0, [])

  predicate Lists(files: seq<FileEntry>, name: string) {
    exists k :: 0 <= k < |files| && files[k].fileName == name
  }

  function FilesWords(files: seq<FileEntry>): int {
    if files == [] then 0 else FilesWords(files[..|files| - 1]) + files[|files| - 1].analysis.wordCount
  }

  /** Names are unique and the total is the sum of the listed files' word counts. */
  predicate DirValid(d: DirData) {
    && (forall i, j :: 0 <= i < j < |d.files| ==> d.files[i].fileName != d.files[j].fileName)
    && d.totalWordCount == FilesWords(d.files)
  }

  /**
   * A file is listed in its directory once: a name already listed leaves the
   * directory as it is, a new one is appended and its words added to the total.
   */
  function AddToDir(d: DirData, name: string, a: FileAnalysis): (r: DirData)
    ensures DirValid(d) ==> DirValid(r)
    ensures Lists(r.files, name)
    ensures Lists(d.files, name) ==> r == d
    ensures !Lists(d.files, name) ==>
              r.files == d.files + [FileEntry(name, a)] && r.totalWordCount == d.totalWordCount + a.wordCount
  {
    if Lists(d.files, name) then d
    else
      var files := d.files + [FileEntry(name, a)];
      assert files[..|files| - 1] == d.files;
      assert files[|files| - 1].fileName == name;
      DirData(d.totalWordCount + a.wordCount, files)
  }

  function DirOf(dirResults: map<string, DirData>, directory: string): DirData {
    if directory in dirResults then dirResults[directory] else EmptyDir
  }

  // ---------------------------------------------------------------------
  // Insertion order, which the final pass follows
  // ---------------------------------------------------------------------

  predicate Distinct<T(==)>(s: seq<T>) {
    forall i, j :: 0 <= i < j < |s| ==> s[i] != s[j]
  }

  /**
   * The orders in which agencies, and the years of each agency, were first
   * entered: each exactly once, as Python's dictionaries remember them.
   */
  ghost predicate Ordered(results: Results, agencyOrder: seq<string>, yearOrder: map<string, seq<int>>) {
    && Distinct(agencyOrder)
    && (forall g :: g in agencyOrder <==> g in results)
    && (forall g | g in results :: g in yearOrder && Distinct(yearOrder[g])
          && (forall y :: y in yearOrder[g] <==> y in results[g]))
  }

  function AgencyOrderAfter(agencyOrder: seq<string>, results: Results, agency: string): seq<string> {
    if agency in results then agencyOrder else agencyOrder + [agency]
  }

  function YearOrderAfter(yearOrder: map<string, seq<int>>, results: Results, agency: string, year: int): map<string, seq<int>>
    requires agency in results ==> agency in yearOrder
  {
    if agency !in results then yearOrder[agency := [year]]
    else if year in results[agency] then yearOrder
    else yearOrder[agency := yearOrder[agency] + [year]]
  }

  /** A new agency goes to the end of the agency order, a new year to the end of its agency's years. */
  lemma OrderedAdd(results: Results, agencyOrder: seq<string>, yearOrder: map<string, seq<int>>,
                   agency: string, year: int, a: FileAnalysis)
    requires Ordered(results, agencyOrder, yearOrder)
    ensures Ordered(AddToResults(results, agency, year, a),
                    AgencyOrderAfter(agencyOrder, results, agency),
                    YearOrderAfter(yearOrder, results, agency, year))
  {
    var r := AddToResults(results, agency, year, a);
    var yo := YearOrderAfter(yearOrder, results, agency, year);
    forall g | g in r
      ensures g in yo && Distinct(yo[g]) && (forall y :: y in yo[g] <==> y in r[g])
    {
      if g != agency {
        assert yo[g] == yearOrder[g];
      }
    }
  }

  // ---------------------------------------------------------------------
  // process_file
  // ---------------------------------------------------------------------

  /**
   * What the shared tables keep true: each entry holds the sums of the
   * additions made to it, the insertion orders list each key once, every
   * added path is recorded as processed, a path is added again only by a
   * replacing call, and every directory lists each name once with the right
   * total.
   */
  ghost predicate Consistent(results: Results, agencyOrder: seq<string>, yearOrder: map<string, seq<int>>,
                             dirResults: map<string, DirData>, processedFiles: set<string>, log: seq<Added>) {
    && Tracks(results, log)
    && Ordered(results, agencyOrder, yearOrder)
    && (forall i :: 0 <= i < |log| ==> log[i].path in processedFiles)
    && (forall i, j :: 0 <= i < j < |log| && log[i].path == log[j].path ==> log[j].replacing)
    && (forall d :: d in dirResults ==> DirValid(dirResults[d]))
  }

  /** Adding a new path, or any path when replacing, keeps the tables consistent. */
  lemma AddKeepsConsistent(results: Results, agencyOrder: seq<string>, yearOrder: map<string, seq<int>>,
                           dirResults: map<string, DirData>, processedFiles: set<string>, log: seq<Added>,
                           e: Added, a: FileAnalysis)
    requires Consistent(results, agencyOrder, yearOrder, dirResults, processedFiles, log)
    requires e.wordCount == a.wordCount && (e.path !in processedFiles || e.replacing)
    ensures Consistent(AddToResults(results, e.agency, e.year, a),
                       AgencyOrderAfter(agencyOrder, results, e.agency),
                       YearOrderAfter(yearOrder, results, e.agency, e.year),
                       dirResults, processedFiles + {e.path}, log + [e])
  {
    TracksAdd(results, log, e, a);
    OrderedAdd(results, agencyOrder, yearOrder, e.agency, e.year, a);
    var log' := log + [e];
    forall i, j | 0 <= i < j < |log'| && log'[i].path == log'[j].path
      ensures log'[j].replacing
    {
      if j < |log| {
        assert log'[i] == log[i] && log'[j] == log[j];
      } else {
        assert log'[i] == log[i];
      }
    }
  }

  /** Listing a file in its directory keeps the tables consistent. */
  lemma ListKeepsConsistent(results: Results, agencyOrder: seq<string>, yearOrder: map<string, seq<int>>,
                            dirResults: map<string, DirData>, processedFiles: set<string>, log: seq<Added>,
                            directory: string, name: string, a: FileAnalysis)
    requires Consistent(results, agencyOrder, yearOrder, dirResults, processedFiles, log)
    ensures Consistent(results, agencyOrder, yearOrder,
                       dirResults[directory := AddToDir(DirOf(dirResults, directory), name, a)],
                       processedFiles, log)
  {
    assert DirValid(DirOf(dirResults, directory));
  }

  /**
   * The analysis `process_file` uses: a stored one found for the file when
   * existing results are not to be replaced, otherwise a fresh one, which
   * may have failed.
   */
  function ChosenAnalysis(found: Option<FileAnalysis>, computed: Option<FileAnalysis>, replaceExisting: bool): (r: Option<FileAnalysis>)
    ensures replaceExisting ==> r == computed
    ensures !replaceExisting && found.Some? ==> r == found
    ensures !replaceExisting && found.None? ==> r == computed
  {
    var existing := if replaceExisting then None else found;
    if existing.Some? && !replaceExisting then existing else computed
  }

  /**
   * The shared state of `process_directory`'s workers, updated one file at a
   * time: `results`, `dir_results` and `processed_files`, with the insertion
   * orders of `results`.
   */
  class Analyzer {
    var results: Results
    var agencyOrder: seq<string>
    var yearOrder: map<string, seq<int>>
    var dirResults: map<string, DirData>
    var processedFiles: set<string>
    /** Every addition made to `results`, in order. */
    ghost var log: seq<Added>

    ghost predicate Valid()
      reads this
    {
      Consistent(results, agencyOrder, yearOrder, dirResults, processedFiles, log)
    }

    constructor()
      ensures Valid()
      ensures results == map[] && agencyOrder == [] && yearOrder == map[]
      ensures dirResults == map[] && processedFiles == {} && log == []
    {
      results, agencyOrder, yearOrder := map[], [], map[];
      dirResults, processedFiles := map[], {};
      log := [];
    }

    /**
     * `process_file` for a file whose stored analysis (if any) is `found` and
     * whose fresh analysis is `computed`. Without an analysis nothing changes.
     * With one, a file whose path gives a year and that is new, or any file
     * when replacing, is added to its agency/year entry and recorded as
     * processed; every file is listed in its directory.
     */
    method ProcessFile(filePath: string, found: Option<FileAnalysis>, computed: Option<FileAnalysis>, replaceExisting: bool)
      requires Valid()
      modifies this
      ensures Valid()
      ensures ChosenAnalysis(found, computed, replaceExisting).None? ==>
                results == old(results) && agencyOrder == old(agencyOrder) && yearOrder == old(yearOrder)
                && dirResults == old(dirResults) && processedFiles == old(processedFiles) && log == old(log)
      ensures ChosenAnalysis(found, computed, replaceExisting).Some? ==>
                var a := ChosenAnalysis(found, computed, replaceExisting).value;
                var agency, year := ExtractParentAgency(filePath), ExtractYear(filePath);
                var adds := year.Some? && (filePath !in old(processedFiles) || replaceExisting);
                && results == (if adds then AddToResults(old(results), agency, year.value, a) else old(results))
                && agencyOrder == (if adds then AgencyOrderAfter(old(agencyOrder), old(results), agency) else old(agencyOrder))
                && yearOrder == (if adds then YearOrderAfter(old(yearOrder), old(results), agency, year.value) else old(yearOrder))
                && processedFiles == (if adds then old(processedFiles) + {filePath} else old(processedFiles))
                && dirResults == old(dirResults)[Dirname(filePath) := AddToDir(DirOf(old(dirResults), Dirname(filePath)), Basename(filePath), a)]
                && log == (if adds then old(log) + [Added(filePath, agency, year.value, a.wordCount, replaceExisting)] else old(log))
    {
      var existing := if replaceExisting then None else found;
      var analysis: FileAnalysis;
      if existing.Some? && !replaceExisting {
        analysis := existing.value;
      } else {
        if computed.None? {
          return;
        }
        analysis := computed.value;
      }

      var agency := ExtractParentAgency(filePath);
      var year := ExtractYear(filePath);
      var directory := Dirname(filePath);
      var filename := Basename(filePath);

      if year.Some? && (filePath !in processedFiles || replaceExisting) {
        AddKeepsConsistent(results, agencyOrder, yearOrder, dirResults, processedFiles, log,
                           Added(filePath, agency, year.value, analysis.wordCount, replaceExisting), analysis);
        AddToTable(filePath, agency, year.value, analysis, replaceExisting);
      }

      ListKeepsConsistent(results, agencyOrder, yearOrder, dirResults, processedFiles, log, directory, filename, analysis);
      ListFile(directory, filename, analysis);
    }

    /** The second locked block: list the file in its directory unless its name is already there. */
    method ListFile(directory: string, filename: string, a: FileAnalysis)
      modifies this
      ensures dirResults == old(dirResults)[directory := AddToDir(DirOf(old(dirResults), directory), filename, a)]
      ensures results == old(results) && agencyOrder == old(agencyOrder) && yearOrder == old(yearOrder)
      ensures processedFiles == old(processedFiles) && log == old(log)
    {
      var d := if directory in dirResults then dirResults[directory] else EmptyDir;
      ghost var listed := AddToDir(d, filename, a);
      if !Lists(d.files, filename) {
        d := DirData(d.totalWordCount + a.wordCount, d.files + [FileEntry(filename, a)]);
      }
      assert d == listed;
      dirResults := dirResults[directory := d];
    }

    /** The locked block that adds one file to its agency/year entry and records the path. */
    method AddToTable(filePath: string, agency: string, year: int, a: FileAnalysis, replacing: bool)
      requires agency in results ==> agency in yearOrder
      modifies this
      ensures results == AddToResults(old(results), agency, year, a)
      ensures agencyOrder == AgencyOrderAfter(old(agencyOrder), old(results), agency)
      ensures yearOrder == YearOrderAfter(old(yearOrder), old(results), agency, year)
      ensures processedFiles == old(processedFiles) + {filePath}
      ensures dirResults == old(dirResults)
      ensures log == old(log) + [Added(filePath, agency, year, a.wordCount, replacing)]
    {
      var e := Added(filePath, agency, year, a.wordCount, replacing);
      var updated := AddEntry(results, agency, year, a);
      agencyOrder := AgencyOrderAfter(agencyOrder, results, agency);
      yearOrder := YearOrderAfter(yearOrder, results, agency, year);
      results := updated;
      processedFiles := processedFiles + {filePath};
      log := log + [e];
    }

    /**
     * The finalising loop of `process_directory`: agencies and years in
     * insertion order, a year emitted only with words and files, an agency
     * only with an emitted year.
     */
    method Finalize(minR: real, rangeR: real) returns (aggregated: seq<AgencyData>)
      requires Covers(agencyOrder, results, yearOrder) && rangeR != 0.0
      ensures aggregated == AgencyRows(agencyOrder, results, yearOrder, minR, rangeR)
    {
      aggregated := [];
      for i := 0 to |agencyOrder|
        invariant aggregated == AgencyRows(agencyOrder[..i], results, yearOrder, minR, rangeR)
      {
        var agency := agencyOrder[i];
        var years := results[agency];
        var order := yearOrder[agency];
        var data := [];
        for j := 0 to |order|
          invariant data == YearRows(order[..j], years, minR, rangeR)
        {
          var year := order[j];
          var stats := years[year];
          if stats.wordCount > 0 && stats.fileCount > 0 {
            data := data + [YearRow(year, stats, minR, rangeR)];
          }
          assert order[..j + 1][..j] == order[..j];
        }
        assert order[..|order|] == order;
        if data != [] {
          aggregated := aggregated + [AgencyData(agency, data)];
        }
        assert agencyOrder[..i + 1][..i] == agencyOrder[..i];
      }
      assert agencyOrder[..|agencyOrder|] == agencyOrder;
    }
  }

  // ---------------------------------------------------------------------
  // Finalisation
  // ---------------------------------------------------------------------

  datatype YearData = YearData(year: int, wordCount: int, avgSentenceLength: real, restrictiveness: real,
                               sentiment: real, fileCount: nat)

  datatype AgencyData = AgencyData(agency: string, data: seq<YearData>)

  /** An entry is emitted only when it has words and files. */
  predicate Emits(b: Bucket) { b.wordCount > 0 && b.fileCount > 0 }

  /**
   * One emitted year: the score sums divided by the words, restrictiveness
   * then scaled against the range of the per-file values, in percent.
   */
  function YearRow(year: int, b: Bucket, minR: real, rangeR: real): (row: YearData)
    requires b.wordCount > 0 && rangeR != 0.0
    ensures row.year == year && row.wordCount == b.wordCount && row.fileCount == b.fileCount
    ensures row.sentiment * b.wordCount as real == b.sentiment
    ensures row.avgSentenceLength * b.wordCount as real == b.avgSentenceLength
    ensures (row.restrictiveness / 100.0 * rangeR + minR) * b.wordCount as real == b.restrictiveness
  {
    var totalWords := b.wordCount as real;
    var rawRestrictiveness := b.restrictiveness / totalWords;
    YearData(year, b.wordCount, b.avgSentenceLength / totalWords,
             (rawRestrictiveness - minR) / rangeR * 100.0, b.sentiment / totalWords, b.fileCount)
  }

  /** The emitted years of one agency, in the order given. */
  function YearRows(years: seq<int>, buckets: map<int, Bucket>, minR: real, rangeR: real): (rows: seq<YearData>)
    requires forall y :: y in years ==> y in buckets
    requires rangeR != 0.0
    ensures |rows| <= |years|
    decreases |years|
  {
    if years == [] then []
    else
      var init, y := years[..|years| - 1], years[|years| - 1];
      assert forall x :: x in init ==> x in years;
      YearRows(init, buckets, minR, rangeR) + (if Emits(buckets[y]) then [YearRow(y, buckets[y], minR, rangeR)] else [])
  }

  /** Each row is for one of the years given, whose entry has words and files and whose counts it reports. */
  ghost predicate RowsReport(rows: seq<YearData>, years: seq<int>, buckets: map<int, Bucket>) {
    forall i :: 0 <= i < |rows| ==>
      && rows[i].year in years && rows[i].year in buckets && Emits(buckets[rows[i].year])
      && rows[i].wordCount == buckets[rows[i].year].wordCount
      && rows[i].fileCount == buckets[rows[i].year].fileCount
  }

  /** Only years with words and files are emitted, with their entry's counts. */
  lemma {:induction false} YearRowsSound(years: seq<int>, buckets: map<int, Bucket>, minR: real, rangeR: real)
    requires forall y :: y in years ==> y in buckets
    requires rangeR != 0.0
    ensures RowsReport(YearRows(years, buckets, minR, rangeR), years, buckets)
    decreases |years|
  {
    if years != [] {
      var init, y := years[..|years| - 1], years[|years| - 1];
      assert forall x :: x in init ==> x in years;
      YearRowsSound(init, buckets, minR, rangeR);
      var prefix, rows := YearRows(init, buckets, minR, rangeR), YearRows(years, buckets, minR, rangeR);
      assert rows == prefix + (if Emits(buckets[y]) then [YearRow(y, buckets[y], minR, rangeR)] else []);
      forall i | 0 <= i < |prefix|
        ensures rows[i] == prefix[i]
      {
      }
    }
  }

  /** Each given year with words and files is emitted. */
  lemma {:induction false} YearRowsComplete(years: seq<int>, buckets: map<int, Bucket>, minR: real, rangeR: real, y: int)
    requires forall y :: y in years ==> y in buckets
    requires rangeR != 0.0
    requires y in years && Emits(buckets[y])
    ensures exists i :: 0 <= i < |YearRows(years, buckets, minR, rangeR)| && YearRows(years, buckets, minR, rangeR)[i].year == y
    decreases |years|
  {
    var init, last := years[..|years| - 1], years[|years| - 1];
    assert forall x :: x in init ==> x in years;
    var prefix := YearRows(init, buckets, minR, rangeR);
    var rows := YearRows(years, buckets, minR, rangeR);
    assert rows[..|prefix|] == prefix;
    if y == last {
      assert rows[|prefix|].year == y;
    } else {
      assert y in init;
      YearRowsComplete(init, buckets, minR, rangeR, y);
      var i :| 0 <= i < |prefix| && prefix[i].year == y;
      assert rows[i] == prefix[i];
    }
  }

  /** Every listed agency has its entry and the order of its years. */
  ghost predicate Covers(agencies: seq<string>, results: Results, yearOrder: map<string, seq<int>>) {
    forall g :: g in agencies ==>
      g in results && g in yearOrder && forall y :: y in yearOrder[g] ==> y in results[g]
  }

  lemma CoversPrefix(agencies: seq<string>, results: Results, yearOrder: map<string, seq<int>>, n: nat)
    requires Covers(agencies, results, yearOrder) && n <= |agencies|
    ensures Covers(agencies[..n], results, yearOrder)
  {
    assert forall x :: x in agencies[..n] ==> x in agencies;
  }

  /** The agencies with an emitted year, each with its emitted years, in the order given. */
  function AgencyRows(agencies: seq<string>, results: Results, yearOrder: map<string, seq<int>>,
                      minR: real, rangeR: real): (out: seq<AgencyData>)
    requires Covers(agencies, results, yearOrder) && rangeR != 0.0
    ensures |out| <= |agencies|
    decreases |agencies|
  {
    if agencies == [] then []
    else
      var g := agencies[|agencies| - 1];
      CoversPrefix(agencies, results, yearOrder, |agencies| - 1);
      var data := YearRows(yearOrder[g], results[g], minR, rangeR);
      AgencyRows(agencies[..|agencies| - 1], results, yearOrder, minR, rangeR)
        + (if data != [] then [AgencyData(g, data)] else [])
  }

  /** Each row is for a listed agency, with its emitted years, of which it has at least one. */
  ghost predicate RowsList(out: seq<AgencyData>, agencies: seq<string>, results: Results,
                           yearOrder: map<string, seq<int>>, minR: real, rangeR: real)
    requires Covers(agencies, results, yearOrder) && rangeR != 0.0
  {
    forall i :: 0 <= i < |out| ==>
      && out[i].agency in agencies && out[i].data != []
      && out[i].data == YearRows(yearOrder[out[i].agency], results[out[i].agency], minR, rangeR)
  }

  /** Only listed agencies with an emitted year are emitted, each with its emitted years. */
  lemma {:induction false} AgencyRowsSound(agencies: seq<string>, results: Results, yearOrder: map<string, seq<int>>,
                                           minR: real, rangeR: real)
    requires Covers(agencies, results, yearOrder) && rangeR != 0.0
    ensures RowsList(AgencyRows(agencies, results, yearOrder, minR, rangeR), agencies, results, yearOrder, minR, rangeR)
    decreases |agencies|
  {
    if agencies != [] {
      var init := agencies[..|agencies| - 1];
      CoversPrefix(agencies, results, yearOrder, |init|);
      assert forall x :: x in init ==> x in agencies;
      AgencyRowsSound(init, results, yearOrder, minR, rangeR);
      var prefix := AgencyRows(init, results, yearOrder, minR, rangeR);
      var out := AgencyRows(agencies, results, yearOrder, minR, rangeR);
      forall i | 0 <= i < |prefix|
        ensures out[i] == prefix[i]
      {
      }
    }
  }

  /** Each listed agency with an emitted year is emitted. */
  lemma {:induction false} AgencyRowsComplete(agencies: seq<string>, results: Results, yearOrder: map<string, seq<int>>,
                                              minR: real, rangeR: real, g: string)
    requires Covers(agencies, results, yearOrder) && rangeR != 0.0
    requires g in agencies && YearRows(yearOrder[g], results[g], minR, rangeR) != []
    ensures exists i :: 0 <= i < |AgencyRows(agencies, results, yearOrder, minR, rangeR)|
                        && AgencyRows(agencies, results, yearOrder, minR, rangeR)[i].agency == g
    decreases |agencies|
  {
    var init, last := agencies[..|agencies| - 1], agencies[|agencies| - 1];
    CoversPrefix(agencies, results, yearOrder, |init|);
    var prefix := AgencyRows(init, results, yearOrder, minR, rangeR);
    var out := AgencyRows(agencies, results, yearOrder, minR, rangeR);
    assert out[..|prefix|] == prefix;
    if g == last {
      assert out[|prefix|].agency == g;
    } else {
      assert g in init;
      AgencyRowsComplete(init, results, yearOrder, minR, rangeR, g);
      var i :| 0 <= i < |prefix| && prefix[i].agency == g;
      assert out[i] == prefix[i];
    }
  }

  /**
   * Every emitted year reports the words and the number of the files added
   * to its entry.
   */
  lemma EmittedTotals(an: Analyzer, minR: real, rangeR: real)
    requires an.Valid() && rangeR != 0.0
    ensures Covers(an.agencyOrder, an.results, an.yearOrder)
    ensures var out := AgencyRows(an.agencyOrder, an.results, an.yearOrder, minR, rangeR);
      forall i, k :: 0 <= i < |out| && 0 <= k < |out[i].data| ==>
        && out[i].data[k].wordCount == LoggedWords(an.log, out[i].agency, out[i].data[k].year)
        && out[i].data[k].fileCount == LoggedFiles(an.log, out[i].agency, out[i].data[k].year)
  {
    var out := AgencyRows(an.agencyOrder, an.results, an.yearOrder, minR, rangeR);
    AgencyRowsSound(an.agencyOrder, an.results, an.yearOrder, minR, rangeR);
    forall i, k | 0 <= i < |out| && 0 <= k < |out[i].data|
      ensures && out[i].data[k].wordCount == LoggedWords(an.log, out[i].agency, out[i].data[k].year)
              && out[i].data[k].fileCount == LoggedFiles(an.log, out[i].agency, out[i].data[k].year)
    {
      var g := out[i].agency;
      assert g in an.results && g in an.yearOrder;
      YearRowsSound(an.yearOrder[g], an.results[g], minR, rangeR);
      var y := out[i].data[k].year;
      assert y in an.results[g];
    }
  }

  function MinOf(values: seq<real>): (m: real)
    requires values != []
    ensures m in values && forall v :: v in values ==> m <= v
  {
    if |values| == 1 then values[0]
    else
      var rest := MinOf(values[1..]);
      assert forall v :: v in values ==> v == values[0] || v in values[1..];
      if values[0] <= rest then values[0] else rest
  }

  function MaxOf(values: seq<real>): (m: real)
    requires values != []
    ensures m in values && forall v :: v in values ==> v <= m
  {
    if |values| == 1 then values[0]
    else
      var rest := MaxOf(values[1..]);
      assert forall v :: v in values ==> v == values[0] || v in values[1..];
      if values[0] >= rest then values[0] else rest
  }

  /**
   * The scaling bounds of `process_directory`: the smallest per-file
   * restrictiveness and the width of the range, 1 when the range is empty
   * or there are no values.
   */
  function ScaleBounds(values: seq<real>): (bounds: (real, real))
    ensures bounds.1 > 0.0
    ensures values == [] ==> bounds == (0.0, 1.0)
    ensures values != [] ==> bounds.0 in values && forall v :: v in values ==> bounds.0 <= v <= bounds.0 + bounds.1
    ensures values != [] && MaxOf(values) != MinOf(values) ==> bounds.0 + bounds.1 in values
    ensures values != [] && MaxOf(values) == MinOf(values) ==> bounds.1 == 1.0
  {
    var lo := if values == [] then 0.0 else MinOf(values);
    var hi := if values == [] then 0.0 else MaxOf(values);
    (lo, if hi - lo != 0.0 then hi - lo else 1.0)
  }
}

/**
 * Section extraction from downloaded regulation XML: the file stem is parsed
 * back into its CFR components, the most specific section those components
 * name is located in the text, and that section alone is kept inside a
 * `<DOC>` envelope.  Reading and writing the file are left to the caller:
 * the content comes in as a parameter and the new content goes out in the
 * result.
 */
module Sections {
  import opened Text
  import opened Agencies
  import opened Regulations

  // ---------------------------------------------------------------------
  // File names: `parse_filename` and `Path.stem`
  // ---------------------------------------------------------------------

  /** The four components `parse_filename` captures, as text ("None" kept verbatim). */
  datatype FileParams = FileParams(title: string, subtitle: string, chapter: string, subchapter: string)

  /** The text `t-<title>_st-<subtitle>_c-<chapter>_sc-<subchapter>` that the file pattern describes. */
  function Compose(p: FileParams): string {
    "t-" + p.title + "_st-" + p.subtitle + "_c-" + p.chapter + "_sc-" + p.subchapter
  }

  /** `Compose(p) + rest`, nested the way a left-to-right scan takes it apart. */
  function ComposeWith(p: FileParams, rest: string): string {
    "t-" + (p.title + ("_st-" + (p.subtitle + ("_c-" + (p.chapter + ("_sc-" + (p.subchapter + rest)))))))
  }

  lemma ComposeWithAppend(p: FileParams, rest: string)
    ensures ComposeWith(p, rest) == Compose(p) + rest
  {
    var r6 := "_sc-" + (p.subchapter + rest);
    var r4 := "_c-" + (p.chapter + r6);
    var r2 := "_st-" + (p.subtitle + r4);
    var q1 := "t-" + p.title;
    Assoc("t-", p.title, r2);
    Assoc(q1, "_st-", p.subtitle + r4);
    var q2 := q1 + "_st-";
    Assoc(q2, p.subtitle, r4);
    var q3 := q2 + p.subtitle;
    Assoc(q3, "_c-", p.chapter + r6);
    var q4 := q3 + "_c-";
    Assoc(q4, p.chapter, r6);
    var q5 := q4 + p.chapter;
    Assoc(q5, "_sc-", p.subchapter + rest);
    var q6 := q5 + "_sc-";
    Assoc(q6, p.subchapter, rest);
  }

  lemma Assoc(x: string, y: string, z: string)
    ensures x + (y + z) == (x + y) + z
  {
  }

  /** What the groups `(\d+)` and `(\w+)` can capture. */
  predicate ValidParams(p: FileParams) {
    |p.title| > 0 && AllDigits(p.title)
    && |p.subtitle| > 0 && AllWordChars(p.subtitle)
    && |p.chapter| > 0 && AllWordChars(p.chapter)
    && |p.subchapter| > 0 && AllWordChars(p.subchapter)
  }

  /**
   * A group of the file pattern followed by its literal `closer`: the group is
   * the whole run of `p`-characters at the front of `s` minus the first
   * `inRun` characters of the closer, which the run also swallows.  Because
   * the rest of the closer starts with a character `p` rejects, this is the
   * only way the regex can match.  Gives the group and the text after the
   * closer.
   */
  function Group(s: string, p: char -> bool, closer: string, inRun: nat): (r: Option<(string, string)>)
    ensures r.Some? ==> |r.value.0| > 0 && forall k :: 0 <= k < |r.value.0| ==> p(r.value.0[k])
  {
    var e := RunEnd(s, 0, p);
    if e > inRun && OccursAt(s, closer, e - inRun) then
      Some((s[..e - inRun], s[e - inRun + |closer|..]))
    else None
  }

  lemma GroupSound(s: string, p: char -> bool, closer: string, inRun: nat)
    requires Group(s, p, closer, inRun).Some?
    ensures s == Group(s, p, closer, inRun).value.0 + (closer + Group(s, p, closer, inRun).value.1)
  {
    var i := RunEnd(s, 0, p) - inRun;
    assert s == s[..i] + (s[i..i + |closer|] + s[i + |closer|..]);
  }

  lemma GroupComplete(g: string, p: char -> bool, closer: string, inRun: nat, rest: string)
    requires |g| > 0 && forall k :: 0 <= k < |g| ==> p(g[k])
    requires inRun < |closer| && (forall k :: 0 <= k < inRun ==> p(closer[k])) && !p(closer[inRun])
    ensures Group(g + (closer + rest), p, closer, inRun) == Some((g, rest))
  {
    var s := g + (closer + rest);
    var w := g + closer[..inRun];
    assert s == w + (closer[inRun..] + rest);
    assert forall k :: 0 <= k < |w| ==> p(w[k]) by {
      assert forall k :: |g| <= k < |w| ==> w[k] == closer[k - |g|];
    }
    RunBefore(w, closer[inRun..] + rest, p);
    var e := |w|;
    assert s[e - inRun..e - inRun + |closer|] == closer;
    assert s[..e - inRun] == g && s[e - inRun + |closer|..] == rest;
  }

  /**
   * `re.match(r"t-(\d+)_st-(\w+)_c-(\w+)_sc-(\w+)", stem)`.  Every group is a
   * greedy run followed by a character its class cannot hold, so the match is
   * found by a single left-to-right scan (`Group`); the last group is the
   * whole word run that follows "_sc-".
   */
  function ParseFilename(s: string): (r: Option<FileParams>)
    ensures r.Some? ==> ValidParams(r.value)
  {
    if StartsWith(s, "t-") then
      match MatchGroups(s[2..])
      case Some((p, _)) => Some(p)
      case None => None
    else None
  }

  /**
   * The four groups of the file pattern after its leading "t-", and the text
   * after the match: it holds the groups exactly, and no word character
   * follows the last one.
   */
  function MatchGroups(s1: string): (r: Option<(FileParams, string)>)
    ensures r.Some? ==> ValidParams(r.value.0)
    ensures r.Some? ==> r.value.1 == [] || !IsWordChar(r.value.1[0])
  {
    var g1 := Group(s1, IsDigit, "_st-", 0);
    if g1.None? then None
    else
      var g2 := Group(g1.value.1, IsWordChar, "_c-", 2);
      if g2.None? then None
      else
        var g3 := Group(g2.value.1, IsWordChar, "_sc-", 3);
        if g3.None? then None
        else
          var s7 := g3.value.1;
          var e := RunEnd(s7, 0, IsWordChar);
          if e == 0 then None
          else
            assert s7[e..] == [] || s7[e..][0] == s7[e];
            Some((FileParams(g1.value.0, g2.value.0, g3.value.0, s7[..e]), s7[e..]))
  }

  /** The text after "t-" is the matched groups, with their separators, and the rest. */
  lemma MatchGroupsSound(s1: string)
    requires MatchGroups(s1).Some?
    ensures "t-" + s1 == ComposeWith(MatchGroups(s1).value.0, MatchGroups(s1).value.1)
  {
    var (p, rest) := MatchGroups(s1).value;
    var g1 := Group(s1, IsDigit, "_st-", 0);
    GroupSound(s1, IsDigit, "_st-", 0);
    var g2 := Group(g1.value.1, IsWordChar, "_c-", 2);
    GroupSound(g1.value.1, IsWordChar, "_c-", 2);
    var g3 := Group(g2.value.1, IsWordChar, "_sc-", 3);
    GroupSound(g2.value.1, IsWordChar, "_sc-", 3);
    var s7 := g3.value.1;
    var e := RunEnd(s7, 0, IsWordChar);
    SliceSplit(s7, e);
    assert p == FileParams(g1.value.0, g2.value.0, g3.value.0, s7[..e]) && rest == s7[e..];
  }

  lemma SliceSplit(s: string, e: nat)
    requires e <= |s|
    ensures s == s[..e] + s[e..]
  {
  }

  /** A run of `p`-characters followed by something `p` rejects is a maximal run. */
  lemma RunBefore(w: string, rest: string, p: char -> bool)
    requires forall k :: 0 <= k < |w| ==> p(w[k])
    requires rest == [] || !p(rest[0])
    ensures RunEnd(w + rest, 0, p) == |w|
  {
    var s := w + rest;
    assert forall k :: 0 <= k < |w| ==> s[k] == w[k];
    assert |w| == |s| || s[|w|] == rest[0];
    RunEndUnique(s, 0, p, |w|);
  }

  /**
   * Whatever `ParseFilename` accepts starts with the composed text of the
   * components it returns, and the last group ends where the word run ends.
   */
  lemma ParseFilenameSound(s: string)
    requires ParseFilename(s).Some?
    ensures var p := ParseFilename(s).value;
            StartsWith(s, Compose(p))
            && (|s| == |Compose(p)| || !IsWordChar(s[|Compose(p)|]))
  {
    var s1 := s[2..];
    assert s == "t-" + s1;
    var (p, rest) := MatchGroups(s1).value;
    MatchGroupsSound(s1);
    ComposeWithAppend(p, rest);
    assert s[..|Compose(p)|] == Compose(p);
    assert |s| == |Compose(p)| || s[|Compose(p)|] == rest[0];
  }

  /** Every text the file pattern describes, followed by a non-word character or nothing, parses back. */
  lemma ParseFilenameComplete(p: FileParams, rest: string)
    requires ValidParams(p)
    requires rest == [] || !IsWordChar(rest[0])
    ensures ParseFilename(Compose(p) + rest) == Some(p)
  {
    ComposeWithAppend(p, rest);
    var s1 := p.title + ("_st-" + (p.subtitle + ("_c-" + (p.chapter + ("_sc-" + (p.subchapter + rest))))));
    assert ComposeWith(p, rest) == "t-" + s1;
    assert ("t-" + s1)[2..] == s1;
    MatchGroupsComplete(p, rest);
  }

  lemma MatchGroupsComplete(p: FileParams, rest: string)
    requires ValidParams(p)
    requires rest == [] || !IsWordChar(rest[0])
    ensures MatchGroups(p.title + ("_st-" + (p.subtitle + ("_c-" + (p.chapter + ("_sc-" + (p.subchapter + rest)))))))
            == Some((p, rest))
  {
    var s7 := p.subchapter + rest;
    var s5 := p.chapter + ("_sc-" + s7);
    var s3 := p.subtitle + ("_c-" + s5);
    var s1 := p.title + ("_st-" + s3);
    TitleGroup(p.title, s3);
    SubtitleGroup(p.subtitle, s5);
    ChapterGroup(p.chapter, s7);
    FinalGroup(p.subchapter, rest);
    MatchGroupsSteps(s1, s3, s5, s7, p, rest);
  }

  lemma TitleGroup(g: string, rest: string)
    requires |g| > 0 && AllDigits(g)
    ensures Group(g + ("_st-" + rest), IsDigit, "_st-", 0) == Some((g, rest))
  {
    ClosersShape();
    GroupComplete(g, IsDigit, "_st-", 0, rest);
  }

  lemma SubtitleGroup(g: string, rest: string)
    requires |g| > 0 && AllWordChars(g)
    ensures Group(g + ("_c-" + rest), IsWordChar, "_c-", 2) == Some((g, rest))
  {
    ClosersShape();
    GroupComplete(g, IsWordChar, "_c-", 2, rest);
  }

  lemma ChapterGroup(g: string, rest: string)
    requires |g| > 0 && AllWordChars(g)
    ensures Group(g + ("_sc-" + rest), IsWordChar, "_sc-", 3) == Some((g, rest))
  {
    ClosersShape();
    GroupComplete(g, IsWordChar, "_sc-", 3, rest);
  }

  /** `MatchGroups` read off from the result of each of its steps. */
  lemma MatchGroupsSteps(s1: string, s3: string, s5: string, s7: string, p: FileParams, rest: string)
    requires Group(s1, IsDigit, "_st-", 0) == Some((p.title, s3))
    requires Group(s3, IsWordChar, "_c-", 2) == Some((p.subtitle, s5))
    requires Group(s5, IsWordChar, "_sc-", 3) == Some((p.chapter, s7))
    requires |p.subchapter| > 0 && RunEnd(s7, 0, IsWordChar) == |p.subchapter|
    requires s7[..|p.subchapter|] == p.subchapter && s7[|p.subchapter|..] == rest
    ensures MatchGroups(s1) == Some((p, rest))
  {
  }

  /** Where each separator's run of word characters stops. */
  lemma ClosersShape()
    ensures !IsDigit("_st-"[0])
    ensures IsWordChar("_c-"[0]) && IsWordChar("_c-"[1]) && !IsWordChar("_c-"[2])
    ensures IsWordChar("_sc-"[0]) && IsWordChar("_sc-"[1]) && IsWordChar("_sc-"[2]) && !IsWordChar("_sc-"[3])
  {
  }

  /** The last group is the whole word run in front of a non-word rest. */
  lemma FinalGroup(g: string, rest: string)
    requires forall k :: 0 <= k < |g| ==> IsWordChar(g[k])
    requires rest == [] || !IsWordChar(rest[0])
    ensures RunEnd(g + rest, 0, IsWordChar) == |g|
    ensures (g + rest)[..|g|] == g && (g + rest)[|g|..] == rest
  {
    RunBefore(g, rest, IsWordChar);
    AppendSlices(g, rest);
  }

  lemma AppendSlices(a: string, b: string)
    ensures (a + b)[..|a|] == a && (a + b)[|a|..] == b
  {
  }

  /**
   * `parse_filename` succeeds exactly on the stems that begin with the file
   * pattern; anything may follow it.
   */
  lemma ParseFilenameAccepts(s: string)
    ensures ParseFilename(s).Some? <==> exists p :: ValidParams(p) && StartsWith(s, Compose(p))
  {
    if ParseFilename(s).Some? {
      ParseFilenameSound(s);
      var p := ParseFilename(s).value;
      assert ValidParams(p) && StartsWith(s, Compose(p));
    }
    if exists p :: ValidParams(p) && StartsWith(s, Compose(p)) {
      var p :| ValidParams(p) && StartsWith(s, Compose(p));
      ParseFilenameExtends(s, p);
    }
  }

  /** Any stem that begins with the file pattern parses, its last group taking the rest of its word run. */
  lemma ParseFilenameExtends(s: string, p: FileParams)
    requires ValidParams(p) && StartsWith(s, Compose(p))
    ensures ParseFilename(s).Some?
  {
    var rest := s[|Compose(p)|..];
    assert s == Compose(p) + rest;
    var k := RunEnd(rest, 0, IsWordChar);
    var q := p.(subchapter := p.subchapter + rest[..k]);
    assert ValidParams(q);
    ComposeExtend(p, rest, k);
    assert k == |rest| || rest[k..][0] == rest[k];
    ParseFilenameComplete(q, rest[k..]);
  }

  /** Moving the front of the text after a composed name into its last component. */
  lemma ComposeExtend(p: FileParams, rest: string, k: nat)
    requires k <= |rest|
    ensures Compose(p) + rest == Compose(p.(subchapter := p.subchapter + rest[..k])) + rest[k..]
  {
    var q := p.(subchapter := p.subchapter + rest[..k]);
    var front := "t-" + p.title + "_st-" + p.subtitle + "_c-" + p.chapter + "_sc-";
    assert Compose(p) == front + p.subchapter;
    assert Compose(q) == front + (p.subchapter + rest[..k]);
    assert rest == rest[..k] + rest[k..];
  }

  /** Position of the last `c` in `s`, as `str.rfind` reports it. */
  function LastIndex(s: string, c: char): (r: Option<nat>)
    ensures r.Some? ==> r.value < |s| && s[r.value] == c
    ensures r.Some? ==> forall j :: r.value < j < |s| ==> s[j] != c
    ensures r.None? ==> forall j :: 0 <= j < |s| ==> s[j] != c
    decreases |s|
  {
    if s == [] then None
    else if s[|s| - 1] == c then Some(|s| - 1)
    else LastIndex(s[..|s| - 1], c)
  }

  /** `PurePath.stem`: the name without its last suffix; a leading or trailing dot is no suffix. */
  function Stem(name: string): (stem: string)
    ensures stem <= name
    ensures stem != name ==> stem != [] && |stem| < |name| - 1 && name[|stem|] == '.'
  {
    match LastIndex(name, '.')
    case Some(i) => if 0 < i < |name| - 1 then name[..i] else name
    case None => name
  }

  /** `PurePath.name`: the last component of a path, or "" for the empty path. */
  function FileName(path: Path): (name: string)
    ensures path == [] ==> name == ""
    ensures path != [] ==> name in path
  {
    if path == [] then "" else path[|path| - 1]
  }

  /** The stem of a downloaded file's name drops exactly the ".xml". */
  lemma StemOfXml(base: string)
    requires base != []
    ensures Stem(base + ".xml") == base
  {
    var name := base + ".xml";
    assert name[|base|] == '.';
    assert name[|base| + 1] == 'x' && name[|base| + 2] == 'm' && name[|base| + 3] == 'l';
    var i := LastIndex(name, '.');
    assert i.Some? && i.value == |base|;
    assert name[..|base|] == base;
  }

  /** The components of a reference as `construct_filename` writes them. */
  function ReferenceParams(r: CfrReference): (p: FileParams)
    ensures ConstructFilename(r) == Compose(p) + ".xml"
  {
    FileParams(Render(r.title), Render(r.subtitle), Render(r.chapter), Render(r.subchapter))
  }

  /**
   * Round trip with `construct_filename`: the stem of the file name built for
   * a reference parses back into the reference's rendered components, given
   * a digit title and word-character components.
   */
  lemma ParseConstructedFilename(r: CfrReference)
    requires ValidParams(ReferenceParams(r))
    ensures ParseFilename(Stem(ConstructFilename(r))) == Some(ReferenceParams(r))
  {
    var p := ReferenceParams(r);
    StemOfXml(Compose(p));
    ParseFilenameComplete(p, "");
    assert Compose(p) + "" == Compose(p);
  }

  /** A name made of word characters and the pattern's punctuation has no '/'. */
  lemma ConstructedFilenamePlain(r: CfrReference)
    requires ValidParams(ReferenceParams(r))
    ensures PlainComponent(ConstructFilename(r))
  {
    var p := ReferenceParams(r);
    assert forall k :: 0 <= k < |p.title| ==> p.title[k] != '/';
    assert forall k :: 0 <= k < |p.subtitle| ==> p.subtitle[k] != '/';
    assert forall k :: 0 <= k < |p.chapter| ==> p.chapter[k] != '/';
    assert forall k :: 0 <= k < |p.subchapter| ==> p.subchapter[k] != '/';
    var name := ConstructFilename(r);
    assert name[0] == 't' && name[1] == '-';
  }

  /**
   * The path `retrieve_regulations` writes a reference to ends in a name that
   * `process_xml_file` parses back into that reference's components.
   */
  lemma DownloadedFileParses(agencySlug: Value, r: CfrReference, date: string, parentSlug: Value)
    requires PlainComponent(Render(agencySlug)) && PlainComponent(date)
    requires Truthy(parentSlug) ==> PlainComponent(Render(parentSlug))
    requires ValidParams(ReferenceParams(r))
    ensures ParseFilename(Stem(FileName(ConstructFilepath(agencySlug, r, date, parentSlug))))
            == Some(ReferenceParams(r))
  {
    ConstructedFilenamePlain(r);
    FilepathComponents(agencySlug, r, date, parentSlug);
    ParseConstructedFilename(r);
  }

  // ---------------------------------------------------------------------
  // `count_words`: `len(re.findall(r'\b\w+\b', content))`
  // ---------------------------------------------------------------------

  /** The number of maximal runs of word characters. */
  function CountWords(s: string): (n: nat)
    ensures n <= |s|
    decreases |s|
  {
    if s == [] then 0
    else if !IsWordChar(s[0]) then CountWords(s[1..])
    else 1 + CountWords(s[RunEnd(s, 0, IsWordChar)..])
  }

  /** Text counts no words exactly when it holds no word character. */
  lemma {:induction false} CountWordsZero(s: string)
    ensures CountWords(s) == 0 <==> forall i :: 0 <= i < |s| ==> !IsWordChar(s[i])
    decreases |s|
  {
    if s != [] && !IsWordChar(s[0]) {
      CountWordsZero(s[1..]);
      assert forall i :: 1 <= i < |s| ==> s[i] == s[1..][i - 1];
    }
  }

  /** A non-word character separates: the words on either side add up. */
  lemma {:induction false} CountWordsSplit(a: string, c: char, b: string)
    requires !IsWordChar(c)
    ensures CountWords(a + [c] + b) == CountWords(a) + CountWords(b)
    decreases |a|
  {
    var s := a + [c] + b;
    if a == [] {
      assert s[1..] == b;
    } else if !IsWordChar(a[0]) {
      assert s[1..] == a[1..] + [c] + b;
      CountWordsSplit(a[1..], c, b);
    } else {
      var e := RunEnd(a, 0, IsWordChar);
      RunBefore(a[..e], a[e..] + [c] + b, IsWordChar);
      assert a[..e] + (a[e..] + [c] + b) == s;
      assert RunEnd(s, 0, IsWordChar) == e;
      assert s[e..] == a[e..] + [c] + b;
      if e < |a| {
        assert !IsWordChar(a[e]);
        CountWordsSplit(a[e..], c, b);
      } else {
        assert a[e..] == [];
        assert s[e..] == [c] + b && ([c] + b)[1..] == b;
      }
    }
  }

  /** A single run of word characters is one word. */
  lemma CountWordsOfWord(w: string)
    requires |w| > 0 && AllWordChars(w)
    ensures CountWords(w) == 1
  {
    RunBefore(w, [], IsWordChar);
    assert w + [] == w;
    assert w[|w|..] == [];
  }

  // ---------------------------------------------------------------------
  // Section headers and spans
  // ---------------------------------------------------------------------

  /** A span `content[start:end]`. */
  datatype Span = Span(start: nat, end: nat)

  predicate NotLt(c: char) { c != '<' }

  /**
   * `opener\s*<HEAD>\s*heading[^<]*</HEAD>` matches at `i`.  Each `\s*` and the
   * `[^<]*` is followed by a character its class cannot hold, so each is the
   * whole run at its position.  The labels come from word-character file
   * components, which hold no regex metacharacter, so they match literally.
   */
  predicate HeaderAt(s: string, i: nat, opener: string, heading: string) {
    OccursAt(s, opener, i)
    && var j := RunEnd(s, i + |opener|, IsSpace);
       OccursAt(s, "<HEAD>", j)
       && var k := RunEnd(s, j + 6, IsSpace);
          OccursAt(s, heading, k)
          && OccursAt(s, "</HEAD>", RunEnd(s, k + |heading|, NotLt))
  }

  /** `re.search` for a header pattern: the leftmost position where it matches. */
  function FindHeader(s: string, opener: string, heading: string): (r: Option<nat>)
    ensures r.Some? ==> r.value < |s| && HeaderAt(s, r.value, opener, heading)
    ensures r.Some? ==> forall j :: 0 <= j < r.value ==> !HeaderAt(s, j, opener, heading)
    ensures r.None? ==> forall j :: 0 <= j < |s| ==> !HeaderAt(s, j, opener, heading)
  {
    var p := (j: nat) => HeaderAt(s, j, opener, heading);
    assert forall j: nat :: p(j) == HeaderAt(s, j, opener, heading);
    First(0, |s|, p)
  }

  function SubtitleOpen(subtitle: string): string { "<DIV2 N=\"" + subtitle + "\" TYPE=\"SUBTITLE\">" }
  function ChapterOpen(chapter: string): string { "<DIV3 N=\"" + chapter + "\" TYPE=\"CHAPTER\">" }
  function SubchapterOpen(subchapter: string): string { "<DIV4 N=\"" + subchapter + "\" TYPE=\"SUBCHAP\">" }

  /**
   * `re.search(tag, s[lo:hi])` for a literal tag, as a position in `s`: the
   * first occurrence of `tag` that starts at or after `lo` and ends by `hi`.
   */
  function FindBetween(s: string, tag: string, lo: nat, hi: nat): (r: Option<nat>)
    requires hi <= |s|
    ensures r.Some? ==> lo <= r.value && r.value + |tag| <= hi && OccursAt(s, tag, r.value)
    ensures r.Some? ==> forall j :: lo <= j < r.value ==> !OccursAt(s, tag, j)
    ensures r.None? ==> forall j :: lo <= j && j + |tag| <= hi ==> !OccursAt(s, tag, j)
    decreases hi - lo
  {
    if lo + |tag| > hi then None
    else if OccursAt(s, tag, lo) then Some(lo)
    else FindBetween(s, tag, lo + 1, hi)
  }

  /**
   * `lo + 1 + m.start() + len(tag)` when `re.search(tag, s[lo:hi])` finds
   * `m`, and `hi` otherwise: the end of a section closed by `tag`.
   */
  function CloseEnd(s: string, tag: string, lo: nat, hi: nat): (end: nat)
    requires hi <= |s|
    ensures ClosedAfter(s, tag, lo, hi, end)
  {
    match FindBetween(s, tag, lo, hi)
    case Some(i) => i + |tag|
    case None => hi
  }

  /**
   * `find_chapter_section`: from the leftmost chapter header to just after the
   * first "</DIV3>" found beyond the header's first character, or to the end
   * of the text when there is none.
   */
  function FindChapterSection(content: string, chapter: string): (r: Option<Span>)
    ensures r.Some? ==> r.value.start < r.value.end <= |content|
    ensures r.Some? <==> FindHeader(content, ChapterOpen(chapter), "CHAPTER " + chapter).Some?
    ensures r.Some? ==> r.value.start == FindHeader(content, ChapterOpen(chapter), "CHAPTER " + chapter).value
    ensures r.Some? ==> ClosedAfter(content, "</DIV3>", r.value.start + 1, |content|, r.value.end)
  {
    match FindHeader(content, ChapterOpen(chapter), "CHAPTER " + chapter)
    case None => None
    case Some(start) =>
      Some(Span(start, CloseEnd(content, "</DIV3>", start + 1, |content|)))
  }

  /**
   * `end` is just past the first `tag` that starts at or after `lo` and ends
   * by `hi`, or `hi` itself when there is no such tag.
   */
  ghost predicate ClosedAfter(s: string, tag: string, lo: nat, hi: nat, end: nat) {
    (lo + |tag| <= end <= hi && OccursAt(s, tag, end - |tag|)
     && forall j :: lo <= j < end - |tag| ==> !OccursAt(s, tag, j))
    || (end == hi && forall j :: lo <= j && j + |tag| <= hi ==> !OccursAt(s, tag, j))
  }

  /** The closing alternative of `find_subtitle_section`: `</DIV2>|<DIV2 N="\w+" TYPE="SUBTITLE">`. */
  predicate SubtitleEndAt(s: string, i: nat) {
    OccursAt(s, "</DIV2>", i)
    || (OccursAt(s, "<DIV2 N=\"", i)
        && var e := RunEnd(s, i + 9, IsWordChar);
           e > i + 9 && OccursAt(s, "\" TYPE=\"SUBTITLE\">", e))
  }

  /** The leftmost closing alternative at or after `i`. */
  function SubtitleEndFrom(s: string, i: nat): (r: Option<nat>)
    ensures r.Some? ==> i <= r.value < |s| && SubtitleEndAt(s, r.value)
    ensures r.Some? ==> forall j :: i <= j < r.value ==> !SubtitleEndAt(s, j)
    ensures r.None? ==> forall j :: i <= j < |s| ==> !SubtitleEndAt(s, j)
    decreases |s| - i
  {
    if i >= |s| then None
    else if SubtitleEndAt(s, i) then Some(i)
    else SubtitleEndFrom(s, i + 1)
  }

  /**
   * `find_subtitle_section`: from the leftmost subtitle header up to, but not
   * including, the first "</DIV2>" or subtitle opener in the text after the
   * header's first character, or to the end of the text when there is none.
   */
  function FindSubtitleSection(content: string, subtitle: string): (r: Option<Span>)
    ensures r.Some? ==> r.value.start < r.value.end <= |content|
    ensures r.Some? <==> FindHeader(content, SubtitleOpen(subtitle), "SUBTITLE " + subtitle).Some?
    ensures r.Some? ==> r.value.start == FindHeader(content, SubtitleOpen(subtitle), "SUBTITLE " + subtitle).value
  {
    match FindHeader(content, SubtitleOpen(subtitle), "SUBTITLE " + subtitle)
    case None => None
    case Some(start) =>
      var after := content[start + 1..];
      match SubtitleEndFrom(after, 0)
      case Some(m) => Some(Span(start, start + 1 + m))
      case None => Some(Span(start, |content|))
  }

  /**
   * The subtitle span ends where the first closing alternative in the text
   * after the header's first character begins, or at the end of the text.
   */
  lemma SubtitleSpan(content: string, subtitle: string)
    requires FindSubtitleSection(content, subtitle).Some?
    ensures var r := FindSubtitleSection(content, subtitle).value;
            var after := content[r.start + 1..];
            var m := r.end - (r.start + 1);
            (forall j :: 0 <= j < m ==> !SubtitleEndAt(after, j))
            && (SubtitleEndAt(after, m) || (r.end == |content| && forall j :: 0 <= j < |after| ==> !SubtitleEndAt(after, j)))
  {
    var start := FindHeader(content, SubtitleOpen(subtitle), "SUBTITLE " + subtitle).value;
    var after := content[start + 1..];
    var close := SubtitleEndFrom(after, 0);
    if close.Some? {
      assert FindSubtitleSection(content, subtitle).value == Span(start, start + 1 + close.value);
    } else {
      assert FindSubtitleSection(content, subtitle).value == Span(start, |content|);
    }
  }

  /**
   * `find_subchapter_section`: with a chapter, the chapter's span is found
   * first (lines 51-57 repeat `find_chapter_section`) and the subchapter is
   * looked for inside it; without one, inside the whole text.  The span runs
   * from the leftmost subchapter header in that window to just after the
   * first "</DIV4>" beyond the header's first character, or to the end of
   * the window.
   */
  function FindSubchapterSection(content: string, chapter: string, subchapter: string): (r: Option<Span>)
    ensures r.Some? ==> r.value.start < r.value.end <= |content|
    ensures r.Some? ==> var w := SubchapterWindow(content, chapter);
                        w.Some? && w.value.start <= r.value.start && r.value.end <= w.value.end
    ensures r.Some? <==>
              var w := SubchapterWindow(content, chapter);
              w.Some? && FindHeader(content[w.value.start..w.value.end], SubchapterOpen(subchapter), "SUBCHAPTER " + subchapter).Some?
  {
    match SubchapterWindow(content, chapter)
    case None => None
    case Some(w) =>
      var window := content[w.start..w.end];
      match FindHeader(window, SubchapterOpen(subchapter), "SUBCHAPTER " + subchapter)
      case None => None
      case Some(m) =>
        var start := w.start + m;
        Some(Span(start, CloseEnd(content, "</DIV4>", start + 1, w.end)))
  }

  /**
   * With a chapter, the subchapter span lies inside the chapter span, and a
   * chapter header that is not found means no span at all.
   */
  lemma SubchapterWithinChapter(content: string, chapter: string, subchapter: string)
    requires chapter != "None"
    ensures FindChapterSection(content, chapter).None? ==> FindSubchapterSection(content, chapter, subchapter).None?
    ensures FindSubchapterSection(content, chapter, subchapter).Some? ==>
              var c := FindChapterSection(content, chapter).value;
              var r := FindSubchapterSection(content, chapter, subchapter).value;
              c.start <= r.start && r.end <= c.end
  {
  }

  /**
   * The subchapter span starts at the leftmost subchapter header of the
   * window and ends just after the first "</DIV4>" beyond its first
   * character, or at the end of the window.
   */
  lemma SubchapterSpan(content: string, chapter: string, subchapter: string)
    requires FindSubchapterSection(content, chapter, subchapter).Some?
    ensures var w := SubchapterWindow(content, chapter).value;
            var r := FindSubchapterSection(content, chapter, subchapter).value;
            FindHeader(content[w.start..w.end], SubchapterOpen(subchapter), "SUBCHAPTER " + subchapter)
              == Some(r.start - w.start)
            && ClosedAfter(content, "</DIV4>", r.start + 1, w.end, r.end)
  {
    var w := SubchapterWindow(content, chapter).value;
    var m := FindHeader(content[w.start..w.end], SubchapterOpen(subchapter), "SUBCHAPTER " + subchapter).value;
    var end := CloseEnd(content, "</DIV4>", w.start + m + 1, w.end);
    assert FindSubchapterSection(content, chapter, subchapter).value == Span(w.start + m, end);
  }

  /** Where `find_subchapter_section` looks: the chapter's span, or the whole text without a chapter. */
  function SubchapterWindow(content: string, chapter: string): (r: Option<Span>)
    ensures r.Some? ==> r.value.start <= r.value.end <= |content|
  {
    if chapter != "None" then FindChapterSection(content, chapter)
    else Some(Span(0, |content|))
  }

  // ---------------------------------------------------------------------
  // `process_xml_file`
  // ---------------------------------------------------------------------

  /**
   * The most specific section the components name: the subchapter unless it
   * is "None", then the chapter, then the subtitle; nothing when all three
   * are "None".
   */
  function SelectSection(p: FileParams, content: string): (r: Option<Span>)
    ensures r.Some? ==> r.value.start < r.value.end <= |content|
    ensures p.subchapter == "None" && p.chapter == "None" && p.subtitle == "None" ==> r.None?
    ensures p.subchapter != "None" ==> r == FindSubchapterSection(content, p.chapter, p.subchapter)
    ensures p.subchapter == "None" && p.chapter != "None" ==> r == FindChapterSection(content, p.chapter)
    ensures p.subchapter == "None" && p.chapter == "None" && p.subtitle != "None" ==>
              r == FindSubtitleSection(content, p.subtitle)
  {
    if p.subchapter != "None" then FindSubchapterSection(content, p.chapter, p.subchapter)
    else if p.chapter != "None" then FindChapterSection(content, p.chapter)
    else if p.subtitle != "None" then FindSubtitleSection(content, p.subtitle)
    else None
  }

  const XmlHeader: string := "<?xml version=\"1.0\" encoding=\"UTF-8\"?>\n<DOC>\n"
  const XmlFooter: string := "\n</DOC>"

  /**
   * What `process_xml_file` does to a file: a name the pattern rejects and a
   * section that is not found both leave the file as it was; otherwise the
   * file is rewritten with the kept span.
   */
  datatype Outcome = InvalidName | SectionNotFound | Rewritten(kept: Span, content: string)

  /**
   * `process_xml_file`, given the file's path and its text.  The new text is
   * the XML declaration and `<DOC>`, the kept section, and `</DOC>`.
   */
  function ProcessXmlFile(filepath: Path, content: string): (out: Outcome)
    ensures ParseFilename(Stem(FileName(filepath))).None? <==> out == InvalidName
    ensures out.Rewritten? <==>
              ParseFilename(Stem(FileName(filepath))).Some?
              && SelectSection(ParseFilename(Stem(FileName(filepath))).value, content).Some?
    ensures out.Rewritten? ==> SelectSection(ParseFilename(Stem(FileName(filepath))).value, content) == Some(out.kept)
    ensures out.Rewritten? ==> out.kept.start < out.kept.end <= |content|
    ensures out.Rewritten? ==>
              out.content == XmlHeader + content[out.kept.start..out.kept.end] + XmlFooter
    ensures out.Rewritten? ==>
              |out.content| == |XmlHeader| + (out.kept.end - out.kept.start) + |XmlFooter|
  {
    match ParseFilename(Stem(FileName(filepath)))
    case None => InvalidName
    case Some(p) =>
      match SelectSection(p, content)
      case None => SectionNotFound
      case Some(span) =>
        Rewritten(span, XmlHeader + content[span.start..span.end] + XmlFooter)
  }

  /** A file whose components are all "None" is never rewritten. */
  lemma AllNoneSkipped(filepath: Path, content: string)
    requires ParseFilename(Stem(FileName(filepath))).Some?
    requires var p := ParseFilename(Stem(FileName(filepath))).value;
             p.subchapter == "None" && p.chapter == "None" && p.subtitle == "None"
    ensures ProcessXmlFile(filepath, content) == SectionNotFound
  {
  }

  /** The kept section can be read back out of the rewritten text. */
  lemma RewrittenKeepsSection(filepath: Path, content: string)
    requires ProcessXmlFile(filepath, content).Rewritten?
    ensures var out := ProcessXmlFile(filepath, content);
            out.content[|XmlHeader|..|out.content| - |XmlFooter|]
            == content[out.kept.start..out.kept.end]
  {
    var out := ProcessXmlFile(filepath, content);
    var section := content[out.kept.start..out.kept.end];
    assert out.content == XmlHeader + section + XmlFooter;
    assert (XmlHeader + section + XmlFooter)[|XmlHeader|..|XmlHeader| + |section|] == section;
  }
}

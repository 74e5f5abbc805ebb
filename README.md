# regulation-observer: a Dafny model of the retrieval and analysis pipeline

regulation-observer collects US federal regulations from the eCFR API and measures them. This project models four parts of its Python core in Dafny and proves properties of the model.

- **The agency catalogue** (`agencies.dfy`, module `Agencies`). Agency records from the eCFR agency list become a tree of agencies. Each agency carries its parent's slug. Reserved (title, chapter) references are dropped. The tree is flattened in pre-order, keeping only the top-level agencies that still have references, each with its whole subtree.
- **The downloader** (`regulations.dfy`, module `Regulations`). File names, storage paths and request URLs are built from a CFR reference. The list of 1 March dates is built, going back one year at a time. Download tasks are built, date by date, agency by agency, reference by reference. Each task is run with the counters of `DownloadStats`.
- **Section extraction** (`sections.dfy`, module `Sections`). A downloaded file's name is parsed back into its title, subtitle, chapter and subchapter. The most specific section those components name is located in the XML text. That section alone is kept inside a `<DOC>` envelope.
- **The analysis** (`analysis.dfy`, module `Analysis`). Each file's word count and restrictive-word share are computed. The file is credited to its parent agency and to the year of its path. The shared `results`, `dir_results` and `processed_files` tables are updated, one file at a time, by the class `Analyzer`. The per-agency, per-year rows are emitted at the end. `analysis/analyze_regulations.py` and `retriever/analyze_regulations.py` are the same program, so one model serves both. Citations below use the first.

`text.dfy` (module `Text`) holds the Python string operations the scripts rely on:
- `str.split` on one character, and `"sep".join`;
- `re.split(r'\s+')` with empty pieces dropped;
- `str.lower`, and `str()` of an integer;
- greedy regex runs, and the leftmost-match search.

Each regular expression the scripts use is written out as an explicit scan. Every group in them is a greedy run. Where the text after a group starts with characters of the run's class, as `_c-` and `_sc-` do after `\w+` in the file-name pattern, the group gives those characters back. The first character of that text that the class cannot hold (`-`, `"`, `<`) fixes where the group ends, so the scan is the only way the regex can match.

JSON scalars are `Value = Null | Int | Str`. A missing key and JSON `null` are both `Null`, as `dict.get` returns `None` for both. `Render` is how an f-string prints such a value.

Floating-point numbers are modelled as exact `real`s. Paths follow POSIX, where `os.sep` is `/`. `pathlib.Path` keeps the non-empty components other than `.`.

## Model

| member | source | states |
|---|---|---|
| Text.Lower | analysis/analyze_regulations.py:32 | `word.lower()` keeps the length and maps each character on its own, changing only `A`-`Z` |
| Text.IntToString | retriever/retrieve_regulations.py:115 | `str()` of an integer is non-empty; it starts with a digit exactly when the integer is not negative |
| Text.IntToStringInjective | retriever/retrieve_regulations.py:115 | different integers print differently |
| Text.DigitsValueOfNatToString | retriever/retrieve_regulations.py:115 | reading back the digits that `str()` prints gives the number |
| Text.Split | analysis/analyze_regulations.py:73 | `s.split(c)` always gives at least one piece |
| Text.Join | retriever/retrieve_regulations.py:67-68 | joining no pieces gives ""; a join starts with its first piece |
| Text.JoinSplit | analysis/analyze_regulations.py:73 | joining the pieces of `s.split(c)` with `c` gives `s` back |
| Text.SplitJoin | analysis/analyze_regulations.py:73 | splitting a join of `c`-free pieces on `c` gives the pieces back |
| Text.SplitAppend | analysis/analyze_regulations.py:73 | splitting `a + c + b` on `c` gives the pieces of `a`, then the pieces of `b` |
| Text.Tokens | analysis/analyze_regulations.py:32 | `re.split(r'\s+')` with empty pieces dropped: every piece is non-empty and holds no whitespace |
| Text.TokensKeepNonSpace | analysis/analyze_regulations.py:32 | the pieces, put together, are exactly the text's non-whitespace characters in order |
| Text.TokensAppendSpace | analysis/analyze_regulations.py:32 | pieces on either side of a whitespace character are split apart |
| Text.TokensOfBlank | analysis/analyze_regulations.py:32 | all-whitespace text has no pieces |
| Text.TokensOfWord | analysis/analyze_regulations.py:32 | a non-empty run without whitespace is a single token |
| Text.First | retriever/extract_extra_sections.py:27 | `re.search`: the leftmost position in a range that matches, or none when no position matches |
| Agencies.Render | retriever/retrieve_regulations.py:46 | an f-string prints `None` as "None", a string as itself and an integer in decimal |
| Agencies.Get | retriever/retrieve_agencies.py:107-110 | `dict.get`: `None` for a missing key, otherwise the stored value |
| Agencies.IsReserved | retriever/retrieve_agencies.py:71-74 | a reference is reserved only when its title is a listed integer and it has a chapter |
| Agencies.ReservedExamples | retriever/retrieve_agencies.py:11-23 | chapter 57 of title 48 is reserved as an integer and as a string; a string title "7" and a reference without a chapter are not reserved |
| Agencies.RemoveReserved | retriever/retrieve_agencies.py:76-78 | the kept references are exactly the input's unreserved ones |
| Agencies.RemoveReservedAppend | retriever/retrieve_agencies.py:76-78 | filtering works element by element and keeps the order |
| Agencies.RemoveReservedKeepsClean | retriever/retrieve_agencies.py:76-78 | a list without reserved references is kept whole |
| Agencies.RemoveReservedIdempotent | retriever/retrieve_agencies.py:76-78 | filtering twice is filtering once |
| Agencies.ProcessCfrReferences | retriever/retrieve_agencies.py:103-113 | one reference per record, each field being `get` of its key |
| Agencies.ProcessAgency | retriever/retrieve_agencies.py:115-141 | the agency has the given parent slug, its record's slug, name, short name, display name and sortable name, and its unreserved references; it has one child per child record, each child's parent slug is the agency's slug, and the whole processed tree is reserved-free and linked to its parents, with one agency per record |
| Agencies.ProcessChildren | retriever/retrieve_agencies.py:136-139 | one processed child per child record, each with the given parent slug and reserved-free and linked below |
| Agencies.ProcessAgencyChildren | retriever/retrieve_agencies.py:136-139 | the children of a processed agency are its child records processed in order, each with the agency's slug as parent slug |
| Agencies.ProcessChildrenInOrder | retriever/retrieve_agencies.py:136-139 | child k of the comprehension is child record k, processed with the given parent slug |
| Agencies.Flatten | retriever/retrieve_agencies.py:143-149 | the flat list is at least as long as the forest, and starts with its first agency |
| Agencies.FlattenAppend | retriever/retrieve_agencies.py:143-149 | flattening a list is flattening each part and concatenating |
| Agencies.FlattenOne | retriever/retrieve_agencies.py:146-148 | an agency comes first, then the flattening of its children |
| Agencies.FlattenStep | retriever/retrieve_agencies.py:145-148 | one more agency adds itself, then its children's flattening |
| Agencies.FlattenSplit | retriever/retrieve_agencies.py:143-149 | the flattening around the i-th agency is its elder siblings' flattening, the agency, its children's flattening and its younger siblings' flattening |
| Agencies.FlattenLength | retriever/retrieve_agencies.py:143-149 | the flat list has one entry per agency of the forest |
| Agencies.FlattenPreorder | retriever/retrieve_agencies.py:143-149 | each agency sits after its elder siblings' subtrees, directly followed by its own descendants |
| Agencies.FlattenClean | retriever/retrieve_agencies.py:143-149 | flattening reserved-free trees gives only reserved-free agencies |
| Agencies.FlattenLinked | retriever/retrieve_agencies.py:143-149 | flattening linked trees gives only agencies whose children carry their slug |
| Agencies.FlattenAgencies | retriever/retrieve_agencies.py:143-149 | the loop builds the pre-order flattening, one entry per agency |
| Agencies.ProcessAll | retriever/retrieve_agencies.py:158 | each top-level record is processed without a parent slug |
| Agencies.CollectReferenced | retriever/retrieve_agencies.py:160-165 | the loop gives the flattening of the top-level agencies that have references |
| Agencies.GetAgencyObjects | retriever/retrieve_agencies.py:151-167 | no agency list, or an empty one, gives `[]`; otherwise the flattened processed agencies whose top-level agency has references |
| Agencies.CatalogueCleanAndLinked | retriever/retrieve_agencies.py:151-167 | every catalogue entry is reserved-free and its children carry its slug |
| Agencies.CatalogueStep | retriever/retrieve_agencies.py:162-165 | one more top-level agency adds itself and its subtree when it has references, and nothing otherwise |
| Agencies.KeepReferenced | retriever/retrieve_agencies.py:161-165 | no more agencies than given, each with at least one reference |
| Agencies.KeepReferencedMembers | retriever/retrieve_agencies.py:163 | an agency is kept exactly when it was given and has references |
| Agencies.KeepReferencedAppend | retriever/retrieve_agencies.py:161-165 | the filter works agency by agency and keeps the order |
| Agencies.CatalogueSize | retriever/retrieve_agencies.py:151-167 | the catalogue holds every agency of the kept subtrees, and no more agencies than the whole forest |
| Regulations.ConstructFilename | retriever/retrieve_regulations.py:44-46 | the name is the four printed components plus the 17 characters of the fixed text |
| Regulations.ConstructFilenameShape | retriever/retrieve_regulations.py:44-46 | a file name starts with "t-" and ends with ".xml" |
| Regulations.KeepPlain | retriever/retrieve_regulations.py:52-53 | components that are non-empty, not "." and slash-free are all kept by `Path` |
| Regulations.KeepComponentsAppend | retriever/retrieve_regulations.py:52-53 | `Path` keeps components one by one |
| Regulations.PathPartsSlash | retriever/retrieve_regulations.py:52-53 | the components of `x/y` are those of `x`, then those of `y` |
| Regulations.DataRoot | retriever/retrieve_regulations.py:52-53 | "./data" is the single component "data" |
| Regulations.FilepathComponents | retriever/retrieve_regulations.py:48-53 | with a truthy parent slug the path is data/parent/agency/date/file, otherwise data/agency/date/file |
| Regulations.ConstructFilepath | retriever/retrieve_regulations.py:48-53 | no path component is empty or "." |
| Regulations.ParentPathParts | retriever/retrieve_regulations.py:52 | the path with a parent has exactly those five components |
| Regulations.AgencyPathParts | retriever/retrieve_regulations.py:53 | the path without a parent has exactly those four components |
| Regulations.QueryParams | retriever/retrieve_regulations.py:59-65 | one parameter for each of subtitle, chapter and subchapter that is not `None` |
| Regulations.Url | retriever/retrieve_regulations.py:55-69 | without parameters the URL is the title URL; with parameters it is longer |
| Regulations.BuildUrl | retriever/retrieve_regulations.py:55-69 | the method builds the URL of the reference and date |
| Regulations.UrlPrefix | retriever/retrieve_regulations.py:55-69 | the URL starts with the title URL, and equals it exactly when subtitle, chapter and subchapter are all `None` |
| Regulations.UrlShape | retriever/retrieve_regulations.py:59-68 | when no component holds "&", a URL longer than the title URL continues with "?", and splitting the rest on "&" gives the parameters back |
| Regulations.ParamsNoAmpersand | retriever/retrieve_regulations.py:59-65 | a parameter holds no "&" when the components hold none |
| Regulations.DateFor | retriever/retrieve_regulations.py:114-115 | a date is six characters longer than the year's digits |
| Regulations.DateForShape | retriever/retrieve_regulations.py:114-115 | a date is the year's digits followed by "-03-01" |
| Regulations.DateForInjective | retriever/retrieve_regulations.py:114-115 | different years give different dates |
| Regulations.GenerateDateList | retriever/retrieve_regulations.py:108-118 | the loop builds the reference list of `max(years, 0)` dates, the i-th being 1 March of the current year minus i |
| Regulations.DatesBackAt | retriever/retrieve_regulations.py:113-116 | the reference list of dates has 1 March of the current year minus i at position i |
| Regulations.DatesDistinct | retriever/retrieve_regulations.py:108-118 | the dates of the list are pairwise different |
| Regulations.RefTasks | retriever/retrieve_regulations.py:130-131 | one task per reference, with the agency's slug and parent slug and the date |
| Regulations.RefCountAppend | retriever/retrieve_regulations.py:129-131 | the reference count of a list adds up over its parts |
| Regulations.DateTasksAppend | retriever/retrieve_regulations.py:129-131 | the tasks of a date are the tasks of each agency in turn |
| Regulations.TasksAppend | retriever/retrieve_regulations.py:128-131 | the tasks of a list of dates are the tasks of each date in turn |
| Regulations.DateTasks | retriever/retrieve_regulations.py:129-131 | a date has one task per reference |
| Regulations.Tasks | retriever/retrieve_regulations.py:127-131 | there are `dates × references` tasks |
| Regulations.DateTasksAt | retriever/retrieve_regulations.py:129-131 | within a date, reference k of agency a sits after the references of the earlier agencies |
| Regulations.TasksAt | retriever/retrieve_regulations.py:127-131 | the task at date d, agency a, reference k is at position `d·R + (references before a) + k` and carries those four values |
| Regulations.TasksAround | retriever/retrieve_regulations.py:128-131 | the tasks of date d sit after the tasks of the d earlier dates |
| Regulations.BuildTasks | retriever/retrieve_regulations.py:127-131 | the nested loops build the date-major task list |
| Regulations.BuildDateTasks | retriever/retrieve_regulations.py:129-131 | the two inner loops build one date's tasks |
| Regulations.DownloadStats.constructor | retriever/retrieve_regulations.py:26-30 | all three counters start at zero |
| Regulations.DownloadStats.IncrementExisting | retriever/retrieve_regulations.py:32-34 | raises the existing-file counter by one and leaves the others |
| Regulations.DownloadStats.IncrementNew | retriever/retrieve_regulations.py:36-38 | raises the new-download counter by one and leaves the others |
| Regulations.DownloadStats.IncrementFailed | retriever/retrieve_regulations.py:40-42 | raises the failed-download counter by one and leaves the others |
| Regulations.FirstSuccess | retriever/retrieve_regulations.py:85-106 | the first attempt below the limit whose request succeeds, every earlier one having failed; none when all fail |
| Regulations.DownloadRegulation | retriever/retrieve_regulations.py:71-106 | a file already on disk is counted as existing and gives nothing; otherwise the first successful attempt's body is returned and counted as new, and when every attempt fails nothing is returned and one failure is counted |
| Regulations.FetchWithRetries | retriever/retrieve_regulations.py:84-106 | the retry loop returns the body of the first success and counts it as new, or counts one failure after the last attempt fails; the existing-file counter is untouched |
| Regulations.RunTask | retriever/retrieve_regulations.py:136-139 | one task raises the counters' total by one and writes at most its own file |
| Regulations.DownloadRegulations | retriever/retrieve_regulations.py:120-141 | the counters are new; each task raises exactly one of them, so they add up to `max(years, 0) × references`; files already on disk stay there, and every other file written is the path of one of the tasks |
| Sections.ComposeWithAppend | retriever/extract_extra_sections.py:7 | the nested and the flat spelling of the file pattern agree |
| Sections.Group | retriever/extract_extra_sections.py:7 | a captured group is a non-empty run of its class |
| Sections.GroupSound | retriever/extract_extra_sections.py:7 | the text is the group, then the closer, then the rest |
| Sections.GroupComplete | retriever/extract_extra_sections.py:7 | a run followed by its closer is captured exactly |
| Sections.ParseFilename | retriever/extract_extra_sections.py:5-17 | a successful parse has a digit title and three non-empty word-character components |
| Sections.MatchGroups | retriever/extract_extra_sections.py:7-10 | the groups are valid, and the text after the match does not start with a word character |
| Sections.MatchGroupsSound | retriever/extract_extra_sections.py:7-10 | the text is the pattern filled with the groups, then the rest |
| Sections.ParseFilenameSound | retriever/extract_extra_sections.py:5-17 | a parsed stem starts with "t-…_st-…_c-…_sc-…" filled with the components it gives |
| Sections.ParseFilenameComplete | retriever/extract_extra_sections.py:5-17 | filling the pattern with valid components, followed by a non-word character or nothing, parses back to those components |
| Sections.MatchGroupsComplete | retriever/extract_extra_sections.py:7-10 | the groups of a filled pattern are the components that filled it |
| Sections.ParseFilenameAccepts | retriever/extract_extra_sections.py:7-8 | `re.match` succeeds exactly when the stem starts with some filling of the pattern |
| Sections.ParseFilenameExtends | retriever/extract_extra_sections.py:7-8 | any stem that starts with a filled pattern parses |
| Sections.LastIndex | retriever/extract_extra_sections.py:73 | the last position of a character, or none |
| Sections.Stem | retriever/extract_extra_sections.py:73 | the stem is a prefix of the name; when it is shorter, a "." that is neither first nor last follows it |
| Sections.FileName | retriever/extract_extra_sections.py:73 | the empty path has the name ""; any other path's name is one of its components |
| Sections.StemOfXml | retriever/extract_extra_sections.py:73 | the stem of "name.xml" is "name" |
| Sections.ReferenceParams | retriever/retrieve_regulations.py:46 | the downloader's file name is the parser's pattern filled with the rendered components, then ".xml" |
| Sections.ParseConstructedFilename | retriever/extract_extra_sections.py:73-74 | the stem of a file name the downloader built parses back to its rendered components |
| Sections.ConstructedFilenamePlain | retriever/retrieve_regulations.py:44-53 | such a file name is a single path component |
| Sections.DownloadedFileParses | retriever/extract_extra_sections.py:73-74 | the file name of a stored regulation parses back to its reference's components |
| Sections.CountWords | retriever/extract_extra_sections.py:19-22 | the number of maximal word-character runs is at most the length |
| Sections.CountWordsZero | retriever/extract_extra_sections.py:19-22 | no words exactly when no word character |
| Sections.CountWordsSplit | retriever/extract_extra_sections.py:19-22 | words on either side of a non-word character add up |
| Sections.CountWordsOfWord | retriever/extract_extra_sections.py:19-22 | one run of word characters is one word |
| Sections.FindHeader | retriever/extract_extra_sections.py:26-27 | the leftmost position where the header pattern matches, or none when it matches nowhere |
| Sections.FindBetween | retriever/extract_extra_sections.py:43 | the first occurrence of a tag inside a window, or none when the window holds none |
| Sections.CloseEnd | retriever/extract_extra_sections.py:43-44 | the end lies just past the first closing tag, or is the window's end when there is none |
| Sections.FindChapterSection | retriever/extract_extra_sections.py:36-46 | a span exactly when the chapter header occurs; it starts at the leftmost header and ends just past the first "</DIV3>" after its first character, or at the end of the text |
| Sections.SubtitleEndFrom | retriever/extract_extra_sections.py:31 | the leftmost "</DIV2>" or subtitle opener, or none |
| Sections.FindSubtitleSection | retriever/extract_extra_sections.py:24-34 | a span exactly when the subtitle header occurs, starting at the leftmost header |
| Sections.SubtitleSpan | retriever/extract_extra_sections.py:31-32 | the subtitle span ends where the first closing alternative after the header's first character begins, or at the end of the text |
| Sections.FindSubchapterSection | retriever/extract_extra_sections.py:48-69 | a span exactly when the search window exists and holds the subchapter header; the span is non-empty and lies inside the window |
| Sections.SubchapterWithinChapter | retriever/extract_extra_sections.py:50-57 | with a chapter, a missing chapter means no subchapter, and a subchapter span lies inside the chapter span |
| Sections.SubchapterSpan | retriever/extract_extra_sections.py:62-68 | the span starts at the leftmost subchapter header of the window and ends just past the first "</DIV4>" after it, or at the window's end |
| Sections.SubchapterWindow | retriever/extract_extra_sections.py:50-60 | the search window lies within the text |
| Sections.SelectSection | retriever/extract_extra_sections.py:89-99 | a subchapter other than "None" decides; otherwise a chapter other than "None"; otherwise a subtitle other than "None"; the chosen span is non-empty and inside the text; with all three "None" there is none |
| Sections.ProcessXmlFile | retriever/extract_extra_sections.py:71-117 | a file is rewritten exactly when its stem parses and a section is found, and the kept span is that section; the new content is the XML declaration and `<DOC>`, the kept span, and `</DOC>` |
| Sections.AllNoneSkipped | retriever/extract_extra_sections.py:89-103 | a file whose components are all "None" is never rewritten |
| Sections.RewrittenKeepsSection | retriever/extract_extra_sections.py:106-112 | the kept section can be read back out of the envelope |
| Analysis.LowerAll | analysis/analyze_regulations.py:32 | one word per token, the k-th being the k-th token lowercased |
| Analysis.Words | analysis/analyze_regulations.py:32 | the words are the text's non-empty whitespace-separated tokens |
| Analysis.RestrictiveCount | analysis/analyze_regulations.py:34 | at most one restrictive hit per word |
| Analysis.AnalyzeText | analysis/analyze_regulations.py:32-36 | the word count is the number of tokens; restrictiveness is the share of restrictive words, between 0 and 1; the sentiment is 0 for empty text |
| Analysis.Share | analysis/analyze_regulations.py:35 | `part / whole`, which is 0 without a whole and between 0 and 1 |
| Analysis.NoWordsIffBlank | analysis/analyze_regulations.py:32-33 | no words exactly when the text is all whitespace |
| Analysis.WordsAppendSpace | analysis/analyze_regulations.py:32 | words on either side of whitespace are counted separately |
| Analysis.RestrictiveCountAppend | analysis/analyze_regulations.py:34 | restrictive counts add up over parts |
| Analysis.PunctuatedTokenNotCounted | analysis/analyze_regulations.py:20-34 | a token with a non-letter, such as "shall,", is never restrictive |
| Analysis.TokensOfLower | analysis/analyze_regulations.py:32 | lowercasing commutes with splitting into tokens |
| Analysis.WordsIgnoreCase | analysis/analyze_regulations.py:32-34 | the words and the restrictive count do not depend on letter case |
| Analysis.DataIndex | analysis/analyze_regulations.py:74-75 | the first "data" component that has a successor, or none |
| Analysis.ExtractParentAgency | analysis/analyze_regulations.py:72-77 | the agency is "unknown" or a component of the path |
| Analysis.NoDataIsUnknown | analysis/analyze_regulations.py:72-77 | without such a component the agency is "unknown" |
| Analysis.FirstDataGivesAgency | analysis/analyze_regulations.py:72-77 | otherwise it is the component after the first "data" |
| Analysis.ParentAgencyOfStoredFile | analysis/analyze_regulations.py:72-77 | a file the downloader stored is credited to its parent agency, or to its own agency when it has no parent |
| Analysis.YearFrom | analysis/analyze_regulations.py:80 | the leftmost `\b20\d\d\b` match from a position, or none |
| Analysis.ExtractYear | analysis/analyze_regulations.py:79-81 | a found year is between 2000 and 2099 |
| Analysis.ExtractYearMatches | analysis/analyze_regulations.py:79-81 | a year is found exactly when the pattern matches, and it is the year of the leftmost match |
| Analysis.YearDigits | analysis/analyze_regulations.py:80 | a year from 2000 to 2099 prints as "20" and two digits |
| Analysis.YearOfDateComponent | analysis/analyze_regulations.py:79-81 | a date directory gives its year when nothing before it reads as a year |
| Analysis.YearOfStoredFile | analysis/analyze_regulations.py:79-81 | a stored file is credited to the year of its date directory when its agency directories hold no year |
| Analysis.Basename | analysis/analyze_regulations.py:97 | `os.path.basename` holds no separator |
| Analysis.RStrip | analysis/analyze_regulations.py:96 | strips exactly the trailing run of the character |
| Analysis.Dirname | analysis/analyze_regulations.py:96 | `os.path.dirname` is a prefix of the path, and is empty when the path has no separator |
| Analysis.DirnameBasenameOfJoin | analysis/analyze_regulations.py:96-97 | `dirname` and `basename` take apart what `os.path.join` put together |
| Analysis.ChosenAnalysis | analysis/analyze_regulations.py:85-92 | when replacing, the fresh analysis; otherwise a stored one when there is one, and the fresh one when there is not |
| Analysis.AddFile | analysis/analyze_regulations.py:114-118 | the entry gains the file's words and one file; the sums are weighted by word count, so a first file's shares are read back by dividing by the words |
| Analysis.AddFileCommutes | analysis/analyze_regulations.py:114-118 | adding two files in either order gives the same entry |
| Analysis.AddToResults | analysis/analyze_regulations.py:104-118 | the agency and its year are added when missing; the entry gains the file's words and one file; every other entry is unchanged |
| Analysis.AddEntry | analysis/analyze_regulations.py:104-118 | the method performs that update |
| Analysis.LoggedNothing | analysis/analyze_regulations.py:99-120 | an entry no file was added to has no words, files or paths |
| Analysis.TracksAdd | analysis/analyze_regulations.py:104-118 | after an addition, every entry still holds exactly the sums of the files added to it |
| Analysis.LoggedSnoc | analysis/analyze_regulations.py:114-118 | one addition changes only its own entry's sums |
| Analysis.FileCountIsDistinctPaths | analysis/analyze_regulations.py:103-119 | without replacing calls, an entry's file count is the number of distinct paths added to it |
| Analysis.LoggedPathsAvoid | analysis/analyze_regulations.py:103-119 | a path never added is in no entry |
| Analysis.AddToDir | analysis/analyze_regulations.py:124-129 | a file is listed once: a listed name leaves the directory as it is; a new one is appended and its words added to the total; the total stays the sum of the listed files |
| Analysis.OrderedAdd | analysis/analyze_regulations.py:104-107 | new agencies and years go to the end of the insertion order, each once |
| Analysis.AddKeepsConsistent | analysis/analyze_regulations.py:102-120 | adding a new path, or any path when replacing, keeps the tables consistent |
| Analysis.ListKeepsConsistent | analysis/analyze_regulations.py:123-129 | listing a file keeps the tables consistent |
| Analysis.Analyzer.constructor | analysis/analyze_regulations.py:140-143 | all tables start empty |
| Analysis.Analyzer.ProcessFile | analysis/analyze_regulations.py:84-129 | without an analysis nothing changes; otherwise a file with a year that is new, or any such file when replacing, is added to its entry, recorded as processed and appended to the log of additions, and every file is listed in its directory; the tables stay consistent with the log |
| Analysis.Analyzer.ListFile | analysis/analyze_regulations.py:123-129 | only the file's directory listing changes |
| Analysis.Analyzer.AddToTable | analysis/analyze_regulations.py:102-120 | the entry update, the insertion orders and the processed set change as described, and nothing else |
| Analysis.Analyzer.Finalize | analysis/analyze_regulations.py:189-207 | the loops emit the agencies' rows in insertion order |
| Analysis.YearRow | analysis/analyze_regulations.py:195-204 | the row carries the entry's year, words and files, and its shares times the words give back the entry's sums, restrictiveness after undoing the scaling |
| Analysis.YearRows | analysis/analyze_regulations.py:192-204 | at most one row per year |
| Analysis.YearRowsSound | analysis/analyze_regulations.py:192-204 | only years of the agency whose entry has words and files are emitted, with the entry's counts |
| Analysis.YearRowsComplete | analysis/analyze_regulations.py:194 | every year with words and files is emitted |
| Analysis.CoversPrefix | analysis/analyze_regulations.py:190 | a prefix of the agency order still has its entries |
| Analysis.AgencyRows | analysis/analyze_regulations.py:190-207 | at most one row per agency |
| Analysis.AgencyRowsSound | analysis/analyze_regulations.py:190-207 | only agencies with an emitted year are emitted, each with its emitted years |
| Analysis.AgencyRowsComplete | analysis/analyze_regulations.py:206-207 | every agency with an emitted year is emitted |
| Analysis.EmittedTotals | analysis/analyze_regulations.py:189-207 | in a consistent state every emitted year reports the words and the number of files added to its entry |
| Analysis.MinOf | analysis/analyze_regulations.py:184 | `min` is an element and no element is smaller |
| Analysis.MaxOf | analysis/analyze_regulations.py:185 | `max` is an element and no element is larger |
| Analysis.ScaleBounds | analysis/analyze_regulations.py:183-186 | the lower bound is the smallest value and the range is positive and reaches the largest; without values the bounds are 0 and 1, and the range is 1 when all values are equal, as `or 1` makes it |

## Left out

- `retriever/retrieve_titles.py` is not part of this model.
- `retrieve_agencies`, the HTTP request and JSON file cache of `retriever/retrieve_agencies.py`, is I/O. `GetAgencyObjects` takes its result as a parameter: `None` for a failed request.
- Network requests are not modelled. In `download_regulation`, request number `attempt` is a parameter `fetch(url, attempt)` that gives a body or a `RequestException`. The timeout and `time.sleep` are left out.
- The file system is not modelled. Which files exist is a set of paths. A successful download adds its path to that set; the bytes written are not kept. `mkdir` is left out.
- Threads, locks and `ThreadPoolExecutor` are not modelled: tasks and files are processed one after another. With `MAX_THREADS = 1` the downloader runs that way too. The analysis's lock makes each locked block atomic, and the model runs the two blocks of one file in order.
- `main` in both scripts, and the directory walk (`os.walk`, `rglob`), file reading, JSON writing and logging of `process_directory`, are not modelled. The steps they call are modelled. The finalisation inside the analysis's `process_directory` (analysis/analyze_regulations.py:183-207) is modelled by `Finalize` and `ScaleBounds`.
- A JSON `null` for `cfr_references` or `children` makes `.get(key, [])` return `None`, and iterating over it raises `TypeError` in the source. The model reads a missing or `null` list as empty.
- JSON floats and booleans are not modelled: `Value` has no float or bool. In the source a title `7.0` is reserved, since `7.0 == 7`, and `str(True)` prints "True".
- The current year from `datetime.now()` is a parameter of `GenerateDateList`.
- `analyze_xml_content`: lxml parsing, extraction of text nodes and stripping are left out. The extracted text is the parameter `fullText`. VADER's compound sentiment score and the average sentence length are parameters too.
- `get_existing_analysis` reads JSON from disk. Its result is the parameter `found` of `ProcessFile`, and a fresh analysis, possibly failed, is `computed`. A stored analysis that is an empty record counts as none in the source; the model does not have empty records.
- Rounding to three places and the JSON output of the results are left out.
- `Finalize` and `ScaleBounds` are not joined together. `ScaleBounds` takes the per-file restrictiveness values as a list. `Finalize` takes the bound and the range as parameters.
- Analysis.Analyzer.Finalize: requires only that every listed agency has its entry and year order, which is weaker than the class invariant; `EmittedTotals` derives this requirement from the invariant.
- Floating point is exact `real` arithmetic. Rounding error in the per-file shares and in the sums is not modelled.
- Regular-expression classes are ASCII only: `\w`, `\d` and `\s` do not cover non-ASCII letters, digits or spaces. `str.lower` changes only `A`-`Z`.
- Paths are POSIX: `os.sep` is `/`, and Windows separators and drive letters are not modelled. `pathlib.Path` is modelled as its list of components.
- Log and `print` messages are left out. The word counts printed by `process_xml_file` are left out too; `CountWords` models `count_words` on its own.

# Grade Calculator: a verified model of its data-handling core

Grade Calculator is a browser tool in which a student keeps a table of
semesters and subjects. Subjects hold scores, weights and target grades. This
project models in Dafny the parts of the tool that turn data into other data:

- **The PDF grade-report parser** (`parseGradesFromPDF`). Each page's
  positioned text items are sorted top to bottom and left to right. They are
  grouped into lines at vertical jumps of more than 5 units, and each line is
  cleaned of extra whitespace. The page's semester is named from the first
  "Học kỳ n - Năm học yyyy-yyyy" header. Each line that starts with a course
  code gives a course row: its grade values, its credit token and its course
  name. The pages' results become semesters carrying default fields.
- **The grade book's state operations** (`useGradeApp`):
  - the theme switch;
  - loading the saved semesters, filling in missing ids, or falling back to
    the default state;
  - deleting a semester by id;
  - deleting a subject by position;
  - updating one field of one subject, where the four score fields pass
    through the score normaliser.
- **The graduation-eligibility check** (`checkGraduationEligibility`). Nine
  requirements are checked in a fixed order, and each one that is not met
  adds one reason.
- **The home page's import and export** (`Home`):
  - mapping the processed transcript from the upload service into semesters
    and subjects;
  - the page state after an upload;
  - the spreadsheet built from the semesters: one sheet per semester, with
    the name row, the label row and one row per subject.
- **The add-semester row**, which appends one new semester holding one blank
  subject.

The project also models the ECMAScript built-ins these operations depend on:
`trim`, the `\s` class, `replace` with the regular expressions used,
`split(/\s+/)`, `indexOf`, `substring`, `slice` and `parseFloat`.

How the model represents the program:

- Strings are sequences of Unicode scalar values. For text inside the Basic
  Multilingual Plane, which covers the Vietnamese the tool reads, one character
  is one UTF-16 code unit, as in ECMAScript.
- Numbers read from text are exact rationals (`real`).
- A subject is a map from field name to text. The code uses two naming
  schemes for the same fields, plus an optional `id`.
- Every operation the source writes as `map`, `filter` or spread is a
  function on values.
- The loops of the page parser are methods, each proved equal to the function
  that specifies it:
  - the in-place sort of the text items on an array;
  - the line-grouping `forEach`;
  - the grade, credit and row scans;
  - the page loop.
- The eligibility check is a method with one guarded push per requirement.
- The workbook is a class whose sheet list the export appends to.

Where the specification and the code disagree, the model follows the code:

- On load, only semesters without an id get one (src/hooks/useGradeApp.ts:34-37).
  Subjects without an id keep having none.
- The import reads `data.semesters` only (src/pages/Home.tsx:66). It has no path
  for a flat `grades` list. A response without `semesters` throws, and the
  catch turns that into an error message. In the model this is an upload that
  failed with a message.
- The processed transcript has no declared type in the code. Its shape
  (`semesters`, each with `semesterName` and `courses`, each course with
  optional code, name, credits and a `scores` object) is the one the import
  reads (src/pages/Home.tsx:66-87). Every field the import reads through `||`
  is optional in the model.
- A PDF with no course rows is not an error: the parser returns an empty list
  of semesters (src/utils/pdfParser.ts:169, 173).

## Model

| member | source | states |
|---|---|---|
| JsStrings.Trim | src/utils/pdfParser.ts:23 | `trim` returns a slice of its input with only whitespace before and after it and no whitespace at its own ends; it keeps normalised whitespace normalised and changes nothing in an already-trimmed string |
| JsStrings.CollapseSpaces | src/utils/pdfParser.ts:23 | `replace(/\s+/g, ' ')` leaves no two adjacent whitespace characters and only plain spaces; it is empty iff its input is, and a non-space first or last character is kept |
| JsStrings.CollapseTokens | src/utils/pdfParser.ts:23 | `replace(/\s+/g, ' ')` gives the tokens joined by single spaces, with one space in front when the string starts with whitespace and one at the end when it ends with whitespace (one space for a string of whitespace only) |
| JsStrings.TrimCollapse | src/utils/pdfParser.ts:23 | trimming the collapsed string leaves the tokens joined by single spaces |
| JsStrings.TrimEndsUnique | src/utils/pdfParser.ts:23 | a slice with only whitespace before and after it, and none at its own ends, is exactly what `trim` returns, so `trim` is fully determined by its contract |
| JsStrings.CollapseNormal | src/utils/pdfParser.ts:23 | collapsing whitespace that is already normalised changes nothing |
| JsStrings.ReplaceAll | src/utils/pdfParser.ts:23 | `replace(/\n/g, ' ')` replaces every line feed and changes no other character |
| JsStrings.ReplaceFirst | src/utils/pdfParser.ts:100 | `replace(',', '.')` replaces only the first comma; every other character is unchanged |
| JsStrings.Tokens | src/utils/pdfParser.ts:94 | `split(/\s+/).filter(Boolean)` yields non-empty tokens containing no whitespace |
| JsStrings.TokensSplit | src/utils/pdfParser.ts:94 | the string is exactly its whitespace gaps interleaved with its tokens; every gap is whitespace and every gap between two tokens is non-empty, so the tokens are the maximal runs of non-whitespace, in order |
| JsStrings.TokensAppend | src/utils/pdfParser.ts:76 | the tokens of two strings joined by a space are the tokens of the first followed by the tokens of the second |
| JsStrings.TokensOccur | src/utils/pdfParser.ts:94-127 | each token occurs in the string at its own position, and every token after the first lies beyond the end of the first |
| JsStrings.TrimStartBy | src/utils/pdfParser.ts:133 | removing the leading run of a class leaves a suffix that does not start with that class, and everything removed belongs to the class |
| JsStrings.TrimEndBy | src/utils/pdfParser.ts:134 | removing the trailing run of a class leaves a prefix that does not end with that class, and everything removed belongs to the class |
| JsStrings.IndexOf | src/utils/pdfParser.ts:127 | `indexOf(sub, from)` is -1 or an occurrence at or after the clamped start, and no earlier occurrence exists from that start |
| JsStrings.Substring | src/utils/pdfParser.ts:130 | `substring(a, b)` clamps both ends into the string and swaps them when a > b |
| JsStrings.SubstringSwap | src/utils/pdfParser.ts:130 | `substring(a, b)` and `substring(b, a)` are the same string |
| JsStrings.Slice | src/pages/Home.tsx:136 | `slice(0, 31)` is a prefix of at most 31 characters; it is the whole string when that is short enough and exactly 31 characters otherwise |
| JsStrings.NatToString | src/utils/pdfParser.ts:174 | the rendering of an index is a non-empty string of digits with no leading zero |
| JsStrings.NatToStringRoundTrip | src/utils/pdfParser.ts:174 | reading the digits of a rendered index back gives the index |
| JsStrings.NatToStringInjective | src/utils/pdfParser.ts:174 | different indices render differently |
| JsNumbers.ParseFloat | src/utils/pdfParser.ts:100 | `parseFloat` of the empty string is NaN |
| JsNumbers.ParseDigits | src/utils/pdfParser.ts:114 | `parseFloat` of a string of digits is its integer value |
| JsNumbers.ParseDecimal | src/utils/pdfParser.ts:114 | `parseFloat` of digits, a point and digits is the exact decimal they spell |
| JsNumbers.ParseFloatSkipsSpace | src/utils/pdfParser.ts:100 | leading whitespace does not change what `parseFloat` reads |
| JsNumbers.ParseFloatSign | src/utils/pdfParser.ts:100 | a '-' in front negates the result (NaN stays NaN) and a '+' in front changes nothing |
| JsNumbers.ParseFloatNoNumber | src/utils/pdfParser.ts:100 | a string whose first character can start no number (not whitespace, a digit, a point, a sign or 'I') is NaN |
| JsNumbers.ParseDigitsPrefix | src/utils/pdfParser.ts:100 | digits followed by anything that cannot continue a number read as the integer the digits spell, so only the numeric prefix counts |
| JsNumbers.ParseDecimalPrefix | src/utils/pdfParser.ts:100 | digits, a point and digits followed by anything that cannot continue a number (as in "8.5/10") read as the exact decimal they spell |
| PdfText.CleanText | src/utils/pdfParser.ts:21-24 | `cleanText` gives the words of the text (its maximal runs of non-whitespace), in order, joined by single spaces; its only whitespace is single plain spaces and there is none at either end |
| PdfText.CleanTextIdempotent | src/utils/pdfParser.ts:21-24 | `cleanText` output has no whitespace at either end and no two adjacent whitespace characters, and cleaning it again gives it back |
| PdfText.MatchHeader | src/utils/pdfParser.ts:28 | a match of the header pattern at the start of a text begins with "Học kỳ" (ignoring case) and lies within the text |
| PdfText.MatchHeaderForm | src/utils/pdfParser.ts:28-33 | the pattern anchored at the start matches exactly n characters if and only if those n characters are a whole header: "Học kỳ", optional whitespace, digits, optional whitespace, '-', optional whitespace, "Năm học", optional whitespace, four digits, '-', four digits (letters of the two phrases in any case) |
| PdfText.SearchHeader | src/utils/pdfParser.ts:28 | the search finds the leftmost position where the header pattern matches, and none if no position matches |
| PdfText.MatchHeaderLocal | src/utils/pdfParser.ts:28 | whether and where the header pattern matches depends only on the characters the match covers |
| PdfText.ExtractSemesterName | src/utils/pdfParser.ts:32-35 | `extractSemesterName` finds a name exactly when `isSemesterLine` holds, and the name is the text of the leftmost match |
| PdfText.ExtractSemesterNameIdempotent | src/utils/pdfParser.ts:32-35 | extracting the semester name from an extracted name gives that name back whole |
| PdfText.ExtractedNameForm | src/utils/pdfParser.ts:32-35 | the extracted name is a whole header, and no whole header starts earlier in the line |
| PdfLayout.InsertPermutes | src/utils/pdfParser.ts:59-64 | inserting an item adds exactly that item |
| PdfLayout.InsertSorted | src/utils/pdfParser.ts:59-64 | inserting into items sorted by the comparator keeps them sorted |
| PdfLayout.SortItemsSorted | src/utils/pdfParser.ts:59-64 | after sorting, an item never comes after an item it precedes (higher y first, then smaller x), and the result is a permutation of the input |
| PdfLayout.SortItemsStable | src/utils/pdfParser.ts:59-64 | items at one and the same position keep their relative order, as in a stable sort |
| PdfLayout.InsertInPlace | src/utils/pdfParser.ts:59-64 | one pass over the array turns its prefix into the insertion of the next item and leaves the rest untouched |
| PdfLayout.SortInPlace | src/utils/pdfParser.ts:59-64 | `textItems.sort(...)` leaves the array holding the sorted order of its old contents |
| PdfLayout.Segments | src/utils/pdfParser.ts:70-78 | there are no lines exactly when there are no items |
| PdfLayout.SegmentsFlatten | src/utils/pdfParser.ts:66-80 | the lines, read in order, hold all the items in sorted order |
| PdfLayout.SegmentsWellSplit | src/utils/pdfParser.ts:66-80 | every line is non-empty; neighbours inside a line are at most 5 units apart vertically; each new line starts with a jump of more than 5 from the previous item |
| PdfLayout.SegmentsPartition | src/utils/pdfParser.ts:66-80 | grouping loses and reorders nothing, and lines break exactly at the jumps of more than 5 units |
| PdfLayout.CleanAll | src/utils/pdfParser.ts:73 | each emitted line is `cleanText` of its items' strings joined by single spaces |
| PdfLayout.JoinLineWords | src/utils/pdfParser.ts:76 | the words of a line built by joining its items' strings with single spaces are the words of the items, in order |
| PdfLayout.CleanAllWords | src/utils/pdfParser.ts:73-80 | every cleaned line is the words of its items, in order, joined by single spaces |
| PdfLayout.Lines | src/utils/pdfParser.ts:66-80 | there is one line per segment, except that a last segment whose text is empty gives none |
| PdfLayout.LinesWords | src/utils/pdfParser.ts:66-80 | line k of a page is the words of the items of segment k, in order, joined by single spaces |
| PdfLayout.GroupLines | src/utils/pdfParser.ts:66-80 | the `forEach` over the items, with `currentLine` and `lastY`, produces exactly the cleaned lines of the segments; the last line is kept only when it is non-empty |
| PdfRows.CourseCodeLength | src/utils/pdfParser.ts:91 | a course code that starts a line has 5 to 8 characters |
| PdfRows.CourseCodeMatches | src/utils/pdfParser.ts:91 | the course code found is the match `^([A-Z]{2,4}\d{3,4})` gives under backtracking, on every line |
| PdfRows.GradeOf | src/utils/pdfParser.ts:100-101 | a token is a grade exactly when `parseFloat` of it, with its first comma made a point, is a number in [0, 10], and the grade is that number |
| PdfRows.GradeValuesSourced | src/utils/pdfParser.ts:98-104 | every collected grade value is the value of some token of the line |
| PdfRows.GradeValuesFromTokens | src/utils/pdfParser.ts:98-104 | every grade value comes from a token; a line has a grade value exactly when some token reads as a grade |
| PdfRows.TokenGradeCollected | src/utils/pdfParser.ts:98-104 | every token that reads as a grade contributes its value |
| PdfRows.ScanGrades | src/utils/pdfParser.ts:95-104 | the grade loop collects the grade values of the tokens, left to right |
| PdfRows.ReplaceSeparator | src/utils/pdfParser.ts:114 | replacing the first comma in digits, a separator and digits puts a point in place of the separator |
| PdfRows.GradeOfDecimal | src/utils/pdfParser.ts:100-101 | a token of digits, a point or comma, and digits is the grade it spells when that is at most 10 |
| PdfRows.CreditValue | src/utils/pdfParser.ts:111-114 | a token of digits, a point or comma, and digits has the credit shape and is read as the exact decimal it spells |
| PdfRows.CreditValueWhole | src/utils/pdfParser.ts:111-114 | a token of digits has the credit shape and is read as its integer value |
| PdfRows.CreditIndex | src/utils/pdfParser.ts:108-122 | the credit index is -1 or the first token after the first one with the credit shape and a value in (0, 10]; no earlier token qualifies |
| PdfRows.FindCreditIndex | src/utils/pdfParser.ts:108-120 | the credit loop, with its `break`, finds the credit index |
| PdfRows.CreditCountedAsGrade | src/utils/pdfParser.ts:98-120 | the credit token is not excluded from the grade scan: its value is also a grade value |
| PdfRows.CourseName | src/utils/pdfParser.ts:125-136 | the course name is the words of the slice between the code and the end, with separators dropped at both ends, joined by single spaces; its whitespace is single plain spaces, and there is no whitespace, '-' or ':' at either end |
| PdfRows.StripSepsTrim | src/utils/pdfParser.ts:131-134 | trimming whitespace before dropping separators at both ends changes nothing, since whitespace is a separator |
| PdfRows.CourseNameBetween | src/utils/pdfParser.ts:125-136 | the name is cut from the end of the course code to the first occurrence of the credit token at or after it (to the end of the line without a credit token); that occurrence is no later than the credit token's own position; the name is the words of that slice, with separators dropped at both ends, joined by single spaces |
| PdfRows.GradeField | src/utils/pdfParser.ts:140-143 | a grade field is never empty: the k-th grade value's rendering, or "0" when it is missing |
| PdfRows.RowOf | src/utils/pdfParser.ts:91-106 | a line gives a row exactly when it starts with a course code and has at least one grade value |
| PdfRows.ParseRow | src/utils/pdfParser.ts:89-166 | the body applied to each line computes the row the line gives |
| PdfRows.RowFields | src/utils/pdfParser.ts:122-164 | a row holds the course code, the credit token or "0", the first four grade values in order (each "0" when missing) and "0" as module grade |
| PdfParser.FindSemesterLine | src/utils/pdfParser.ts:83 | `lines.find(isSemesterLine)` gives the first header line, and no earlier line is one |
| PdfParser.SemesterName | src/utils/pdfParser.ts:83-84 | the page is named by the header in its first header line, or "Học kỳ k" with k one more than the semesters found before it |
| PdfParser.SemesterNameShape | src/utils/pdfParser.ts:83-84 | a page's name is a header that extracts to itself, or "Học kỳ k" with k one more than the semesters found before it |
| PdfParser.PageRows | src/utils/pdfParser.ts:89-167 | a page has at most one row per line |
| PdfParser.PageRowsGradeZero | src/utils/pdfParser.ts:163 | every row the page parser yields has "0" as its module grade |
| PdfParser.CollectRows | src/utils/pdfParser.ts:89-167 | the `forEach` that pushes rows collects exactly the rows of the lines, in line order |
| PdfParser.ParsePage | src/utils/pdfParser.ts:59-169 | sorting, grouping, naming and row extraction give what the page contributes |
| PdfParser.Collect | src/utils/pdfParser.ts:169 | each page contributes at most one result |
| PdfParser.ParsedPages | src/utils/pdfParser.ts:48-170 | there are no more semesters than pages |
| PdfParser.PageWithoutRowsSkipped | src/utils/pdfParser.ts:169 | a page without a course row contributes no semester |
| PdfParser.PageWithRowsAppended | src/utils/pdfParser.ts:169 | a page with a course row contributes exactly one semester, after the earlier ones |
| PdfParser.PageSpecGood | src/utils/pdfParser.ts:83-169 | a page's result has a row, "0" module grades and a well-formed name |
| PdfParser.ParsedPagesGood | src/utils/pdfParser.ts:48-170 | every semester has a course row, all with "0" module grades, and is named by a header or "Học kỳ k" where k - 1 semesters precede it |
| PdfParser.ToSemesters | src/utils/pdfParser.ts:173-195 | the final mapping keeps the number and order of semesters and subjects; semester i gets id `sem-<time>-i` and keeps its name |
| PdfParser.ParseGradesFromPdf | src/utils/pdfParser.ts:42-196 | the page loop returns the final mapping of the collected page results |
| PdfParser.SemesterIdInjective | src/utils/pdfParser.ts:174 | a semester id determines both the clock reading and the index |
| PdfParser.SemesterIdsDistinct | src/utils/pdfParser.ts:174 | the semesters of one import have pairwise different ids, whatever the clock reads |
| PdfParser.RowDefaults | src/utils/pdfParser.ts:184-193 | a row with "0" module grade becomes a subject carrying the default fields |
| PdfParser.ImportedSubjectDefaults | src/utils/pdfParser.ts:184-193 | every imported subject has min fields "0", weights "0.2"/"0.2"/"0.2"/"0.4", expected score "0" and module grade "0" |
| GradeTypes.OrElse | src/pages/Home.tsx:71 | an optional field or-else a fallback gives the value when it is present and non-empty, and the fallback otherwise |
| GradeTypes.AsSubjectKeys | src/types.ts:15-40 | a subject of the newer scheme sets exactly its declared fields, id included |
| GradeTypes.AsSubjectCourse | src/types.ts:16-19 | the id, code, name and credits fields hold the record's values |
| GradeTypes.AsSubjectScores | src/types.ts:22-39 | the four score fields and the score hold the record's values |
| GradeTypes.AsSubjectSettings | src/types.ts:28-40 | the minimum, weight and expected-score fields hold the record's values |
| GradeApp.InitialTheme | src/hooks/useGradeApp.ts:14-17 | the initial theme is the saved one when it is non-empty, "dark" otherwise |
| GradeApp.ToggleTheme | src/hooks/useGradeApp.ts:19-21 | `toggleTheme` always yields "dark" or "light", and differs from a "dark" or "light" argument |
| GradeApp.ToggleTwice | src/hooks/useGradeApp.ts:19-21 | toggling twice restores the theme |
| GradeApp.EnsureId | src/hooks/useGradeApp.ts:34-37 | the id migration keeps a non-empty id, supplies the fresh one otherwise, and changes nothing else |
| GradeApp.LoadSemesters | src/hooks/useGradeApp.ts:28-71 | a saved list loads with as many semesters; otherwise the state has one semester |
| GradeApp.LoadKeepsSaved | src/hooks/useGradeApp.ts:30-37 | loading keeps the saved semesters in order, changing only ids that are missing or empty |
| GradeApp.DefaultState | src/hooks/useGradeApp.ts:39-70 | with nothing readable saved, the state is one semester "Học kỳ 1" with one blank subject weighted 20/20/20/40 |
| GradeApp.LoadedIdsPresent | src/hooks/useGradeApp.ts:28-71 | after loading every semester has a non-empty id |
| GradeApp.DeleteSemester | src/hooks/useGradeApp.ts:87-89 | deleting never lengthens the list |
| GradeApp.DeleteSemesterMembers | src/hooks/useGradeApp.ts:87-89 | the kept semesters are exactly those whose id differs from the given one |
| GradeApp.DeleteSemesterAppend | src/hooks/useGradeApp.ts:87-89 | deletion works piecewise over a concatenation, so the kept semesters stay in their order |
| GradeApp.DeleteSemesterIdempotent | src/hooks/useGradeApp.ts:87-89 | deleting the same id twice is deleting it once |
| GradeApp.DeleteSemesterAbsent | src/hooks/useGradeApp.ts:87-89 | deleting an id no semester has changes nothing |
| GradeApp.WithoutIndex | src/hooks/useGradeApp.ts:98 | filtering out index k removes exactly the k-th subject, or nothing when k is out of range |
| GradeApp.DeleteSubject | src/hooks/useGradeApp.ts:92-102 | deleting a subject keeps the number of semesters |
| GradeApp.DeleteSubjectEffect | src/hooks/useGradeApp.ts:92-102 | only semester s changes, and only by losing its subject k; the other subjects keep their order |
| GradeApp.DeleteSubjectOutOfRange | src/hooks/useGradeApp.ts:92-102 | out-of-range indices leave the list unchanged |
| GradeApp.UpdateSubjectField | src/hooks/useGradeApp.ts:113-132 | the update keeps the number of semesters |
| GradeApp.UpdateSubjectFieldEffect | src/hooks/useGradeApp.ts:113-132 | only field f of subject k of semester s changes; it holds `normalizeScore(v)` for the four score fields and v otherwise; every other semester, subject and field is unchanged |
| Eligibility.Rank | src/config/appwrite.ts:45-79 | each requirement has a position in the check order |
| Eligibility.PushIf | src/config/appwrite.ts:47-48 | a guarded push appends the message exactly when the requirement fails |
| Eligibility.MessagesByCheck | src/config/appwrite.ts:45-79 | the messages of the failing requirements, in check order, are the nine guarded pushes applied in turn |
| Eligibility.CheckGraduationEligibility | src/config/appwrite.ts:42-80 | the reasons are the messages of the failed requirements in check order, and the record is eligible exactly when there are none |
| Eligibility.FailingMembers | src/config/appwrite.ts:47-77 | a requirement gives a reason exactly when the record fails it |
| Eligibility.FailingReasons | src/config/appwrite.ts:47-77 | credits < 130, GPA < 2.0, an F grade, thesis not completed or scored below 5.0, English below threshold, and each missing completion or disciplinary action each give a reason, and nothing else does; a completed thesis without a score passes |
| Eligibility.EnglishRequirement | src/config/appwrite.ts:59-68 | the English reason is given iff the score is below IELTS 5.5, TOEFL 61, TOEIC 600, VSTEP 3.5 or UIT 60, by test type |
| Eligibility.FailingInCheckOrder | src/config/appwrite.ts:45-79 | reasons come in check order, each requirement at most once, so there are at most nine |
| Eligibility.EligibleIffAllMet | src/config/appwrite.ts:79 | there is no reason exactly when every requirement is met |
| Home.ScoresOf | src/pages/Home.tsx:74-77 | a course without a scores object has no score at all |
| Home.NumberText | src/pages/Home.tsx:73-77 | the rendering of an optional number, or-else a fallback, is the fallback for a missing number and the rendering otherwise, unless that is empty |
| Home.ImportSemesters | src/pages/Home.tsx:66-89 | the import yields one semester per transcript semester |
| Home.ImportShape | src/pages/Home.tsx:66-89 | the import keeps the order and number of semesters and of courses in each, and names each semester by the transcript's semester name |
| Home.ImportDefaults | src/pages/Home.tsx:78-87 | every imported subject is weighted 20/20/20/40 and has empty minimum and expected scores |
| Home.ImportFields | src/pages/Home.tsx:70-86 | a missing code or name gives "" and missing credits give "0"; finalScore comes from finaltermScore and score from totalScore; a missing score gives "" |
| Home.ImportIdsDistinct | src/pages/Home.tsx:67-70 | the imported semesters have pairwise different ids, and so do the subjects within each semester |
| Home.HandlePdfUpload | src/pages/Home.tsx:56-98 | no file changes nothing; a processed transcript replaces the semesters and clears the error; a failure keeps the semesters and sets a non-empty error, the error's own message when it has one; loading ends either way |
| Home.FieldCell | src/pages/Home.tsx:110-112 | a raw field cell is blank exactly when the field is not set, and holds the field's text when it is |
| Home.TextCell | src/pages/Home.tsx:113-118 | a text cell is the field's text when set and non-empty, and '' otherwise |
| Home.SheetRows | src/pages/Home.tsx:105-120 | a sheet has one row per subject plus the name row and the label row |
| Home.Sheets | src/pages/Home.tsx:104-136 | the export has one sheet per semester |
| Home.SheetsShape | src/pages/Home.tsx:104-136 | sheet k is named by at most the first 31 characters of semester k's name and starts with its name row and the ten labels |
| Home.SubjectRows | src/pages/Home.tsx:108-119 | each subject row holds the 1-based position, code, name, credits, then progress, midterm, practice and final scores, score and expected score, each '' when empty |
| Home.ImportedRow | src/pages/Home.tsx:66-119 | exporting an imported course writes the course's own code, name, credits and scores |
| Home.Workbook.constructor | src/pages/Home.tsx:102 | a new workbook has no sheets |
| Home.Workbook.AppendSheet | src/pages/Home.tsx:136 | appending adds exactly the one sheet, at the end |
| Home.ExportToExcel | src/pages/Home.tsx:100-137 | the `forEach` leaves the workbook holding the sheets of the semesters, in order |
| AddSemesterRow.AddSemester | src/components/GradeTable/AddSemesterRow.tsx:20-22 | the list gains exactly one semester, at the end, and the existing ones are unchanged |
| AddSemesterRow.AddedSemester | src/components/GradeTable/AddSemesterRow.tsx:17-48 | the new semester is named "Nhập tên học kỳ" in both name fields, carries the year, has an id starting "sem-" and one subject with exactly the newer fields and an id starting "sub-" |
| AddSemesterRow.BlankSubject | src/components/GradeTable/AddSemesterRow.tsx:28-47 | the new subject is weighted 20/20/20/40 and every other field is empty |
| AddSemesterRow.DeleteUndoesAdd | src/components/GradeTable/AddSemesterRow.tsx:20-22 | deleting the new semester by its id gives back the list as it was, when no earlier semester has that id |

## Left out

- Loading the PDF (pdf.js document, pages, worker). The model's input is each page's positioned text items: their string and the x and y of their transform.
- `uploadPdf` (network I/O). The model's input is the outcome: no file, a failure with an optional message, or the processed transcript.
- The spreadsheet library. Column widths, `aoa_to_sheet`, `writeFile` and the file name are left out; the model keeps the array of rows per sheet and the workbook's ordered sheet list. The library's own checks on sheet names (duplicates, forbidden characters) are left out.
- Local storage, `document.body.className` and the React state and effect plumbing. State is passed in and returned as values. What was saved is a parameter: nothing, something unreadable, or a list.
- Clock, random and uuid values: `Date.now`, `Math.random`, `uuidv4` and the current year. They are parameters, because they are nondeterministic.
- `normalizeScore`, `getSearchResults` and the course catalogue. The first is a parameter; the others are not shown and are not part of this model.
- The grade solver: required scores and the redistribution of target averages. Its source is not part of this model.
- `openAdvancedModal` and the menu, dropdown and search state of the hook. They are UI state holders with no logic on the data.
- PdfText.ExtractSemesterName: gives no name where the source makes up a random "Học kỳ n". No caller reaches that case, because callers only pass header lines.
- Text outside the Basic Multilingual Plane: ECMAScript counts such a character as two UTF-16 code units, and the model counts it as one. Lengths and positions (`substring`, `slice(0, 31)`, `indexOf`) would then differ.
- PdfLayout.Far: the coordinates are exact reals, so there is no NaN. In the source a NaN coordinate makes every comparison false, so a NaN y never starts a new line.
- Eligibility.CheckGraduationEligibility: credits, GPA, thesis and English scores are exact reals, so there is no NaN. In the source a NaN score fails every `<` test, and the requirement would pass.
- JsNumbers.ParseFloat: values are exact rationals. Rounding to the nearest double, and negative zero, are not modelled.
- GradeApp.ToggleTheme: the state only ever holds "dark" or "light", so toggling twice is proved for those two values only. A saved theme with any other text (src/hooks/useGradeApp.ts:16) is toggled to "dark" on the first toggle.
- Number rendering (`toString`, `toFixed(2)`, template literals). It is a parameter: grade fields and messages are proved in terms of it, not of its digits.
- Eligibility.CheckGraduationEligibility: the English threshold is looked up by a type the record's type guarantees. A type outside the five is not modelled; the source would compare against `undefined` and never give the reason.
- `console.log`, `console.error`, `alert`, the JSX, the navigation bar and the upload button.

# Student record manager: grade and roster core

A Dafny model of the grade and roster logic of a student-records tool, with
proofs about it. The logic appears twice in that tool:

- In the **React frontend**:
  - the stats calculator (percentage and letter grade from a subject→score map);
  - the read-time backfill of records that lack stats;
  - the dashboard's average performance and top performer;
  - the subject columns of the roster table;
  - the case-insensitive search filter and the column sort with its direction toggle;
  - the CSV export;
  - the marks form, whose subject/score rows are validated into the marks payload.
- In the **plain-Java backend**:
  - the `Student` record with its setters, percentage and grade;
  - the `roll,name,course,k:v|k:v` line format of the roster file;
  - the JSON writer and the hand-rolled JSON field extractors;
  - the server's in-memory `students` list with its add (next roll = max + 1), update-by-roll and delete-by-roll;
  - the roll read from a request path;
  - the admin profile's field reader.

## Modules

| file | module | models |
|---|---|---|
| `grading.dfy` | `Grading` | The A+…F ladder over the thresholds 90/80/70/60/50. `toFixed(2)` as exact half-up rounding. |
| `app.dfy` | `App` | `calculateStats`, the backfill in `fetchStudents`, `avgPerformance` and `topPerformer` (frontend/src/App.jsx). |
| `student_list.dfy` | `StudentList` | `getAllSubjects` (a loop over a set), `calculateClientSideStats`, `requestSort`, `processedStudents` (a method that filters, then sorts with the comparator), and the text of `downloadCSV` with an RFC 4180 reader to read it back. |
| `student_form.dfy` | `StudentForm` | The validation loop of `handleSubmit`, the marks→rows conversion, `addSubject`/`removeSubject`, and `handleSubjectChange` (in place, on a `Row` class). |
| `marks.dfy` | `Marks` | A subject→score map as an insertion-ordered list of entries: a JavaScript object or a Java `HashMap`. |
| `sorting.dfy` | `Sorting` | `Array.prototype.filter` and the stable `Array.prototype.sort`, with their laws. |
| `text.dfy` | `Text` | The string and number routines the code calls: `indexOf`, `split`, `trim`, `replace`, `Integer.parseInt`, `int` printing and wrap-around, `toLowerCase`, and the default sort order. |
| `student_record.dfy` | `StudentRecord` | The Java `Student` as a value, plus the functions that specify its percentage, grade, line format, JSON text and extractors. |
| `students.dfy` | `Students` | The Java `Student` class with its setters, and the `StringBuilder` loops, `HashMap` loops and index loops, each proved against `StudentRecord`. |
| `student_server.dfy` | `StudentServer` | The `Server` class holding `students`, with `handleAdd`/`handleUpdate`/`handleDelete`, the path-to-roll dispatch, and `AdminProfile`. |
| `seqs.dfy`, `wrappers.dfy` | `Seqs`, `Wrappers` | Concatenation regrouping lemmas; `Option` and `Result`. |

Numbers:
- Frontend scores and percentages are exact `real`s.
- Backend rolls and scores are Java `int`s. Their 32-bit range and wrap-around are written out (`Text.Wrap32`, `Text.InInt32`).

Three behaviours of the code worth knowing:
- **Top-performer ties.** The dashboard's `reduce` keeps `curr` unless `max` is strictly greater, so of two records with the same percentage the later one is named (`App.TopPerformerTieGoesLater`).
- **CSV quoting.** The export quotes the name and course but does not escape a `"` inside them, and it writes subject names unquoted. A `"` in a name, or a ',' in a subject, shifts the columns of the exported text (`StudentList.CsvNameQuoteMerges`, `StudentList.CsvSubjectCommaShifts`).
- **Roll scope.** The Java server keeps one `students` list with no owners, so roll numbers form one sequence across the whole roster.

## Model

| member | source | states |
|---|---|---|
| Grading.LetterGrade | frontend/src/App.jsx:25-31 | The grade is the ladder entry indexed by the number of thresholds (50, 60, 70, 80, 90) the percentage reaches. |
| Grading.Reached | frontend/src/App.jsx:27-31 | The number of thresholds reached never exceeds the number of thresholds. |
| Grading.ReachedThresholds | frontend/src/App.jsx:27-31 | That count is 5 at ≥90, 4 at ≥80, 3 at ≥70, 2 at ≥60, 1 at ≥50 and 0 below: the first match of the if-chain. |
| Grading.ReachedMonotone | frontend/src/App.jsx:25-31 | A higher percentage reaches at least as many thresholds. |
| Grading.LetterGradeMonotone | frontend/src/App.jsx:25-31 | A higher percentage never gets a lower grade. |
| Grading.RoundHalfUp | frontend/src/App.jsx:23 | The result is a whole number of hundredths in (x − 0.005, x + 0.005]. |
| Grading.Round2 | frontend/src/App.jsx:23 | `toFixed(2)`: a whole number of hundredths within 0.005 of x, and non-negative for non-negative x. |
| Grading.Round2Monotone | frontend/src/App.jsx:23 | Rounding preserves order. |
| Grading.Round2Exact | frontend/src/App.jsx:23 | A value already in hundredths is unchanged. |
| Grading.Round2InRange | frontend/src/App.jsx:23 | A value in [0, 100] rounds into [0, 100]. |
| Grading.RoundedReaches | frontend/src/App.jsx:23-27 | The rounded value reaches a hundredths threshold t exactly when x ≥ t − 0.005. |
| Grading.RoundingChangesGrade | frontend/src/App.jsx:23-26 | Grading the rounded mean differs from grading the raw mean exactly when the mean lies in [t − 0.005, t) for some threshold t. |
| Grading.RoundingNeverLowersGrade | frontend/src/App.jsx:23-26 | Rounding first never gives a lower grade than the raw mean. |
| App.CalculateStats | frontend/src/App.jsx:17-34 | Absent or empty marks give 0.00 and F. Otherwise the percentage is a whole number of hundredths within 0.005 of the mean score. The grade is the ladder grade of that rounded percentage and is never empty. |
| App.CalculateStatsInRange | frontend/src/App.jsx:22-23 | Scores in [0, 100] give a percentage in [0, 100]. |
| App.CalculateStatsExample | frontend/src/App.jsx:17-34 | {Math: 100, Science: 80} gives 90.00 and A+. |
| App.LadderNonEmpty | frontend/src/App.jsx:25-31 | Every percentage gets a non-empty grade. |
| App.Backfill | frontend/src/App.jsx:116-121 | The result always has a truthy percentage and a grade. A record that had both is returned unchanged. Otherwise both fields are overwritten with the calculator's result for its marks, and the rest is kept. |
| App.BackfillAll | frontend/src/App.jsx:116-121 | The `map` keeps the length and order and backfills each record. |
| App.BackfillComplete | frontend/src/App.jsx:116-121 | Every backfilled record has stats. A recomputed record's grade is the grade of its recomputed percentage. |
| App.BackfillIdempotent | frontend/src/App.jsx:116-121 | Backfilling twice is backfilling once. |
| App.AveragePerformance | frontend/src/App.jsx:205-207 | 0.00 for an empty roster. Otherwise a whole number of hundredths within 0.005 of the mean of the parsed percentages, where an unparsable value counts as 0. |
| App.PctSumBounds | frontend/src/App.jsx:206 | Percentages in [0, 100] sum to between 0 and 100 × count. |
| App.AveragePerformanceInRange | frontend/src/App.jsx:205-207 | With percentages in [0, 100] the average is in [0, 100]. |
| App.BestIndex | frontend/src/App.jsx:210 | The `reduce` ends on a record whose percentage is maximal and strictly above every later record's. |
| App.TopPerformer | frontend/src/App.jsx:209-211 | "-" for an empty roster. Otherwise the name of a record with maximal percentage that no later record ties. |
| App.TopPerformerTieGoesLater | frontend/src/App.jsx:210 | Of two records with equal percentage, the later one is named. |
| StudentList.AllSubjects | frontend/src/StudentList.jsx:8-16 | The subjects are strictly ascending, hence duplicate-free. A subject is listed exactly when some record's marks have it. |
| StudentList.AddAll | frontend/src/StudentList.jsx:12 | Adding a record's keys to the set keeps it duplicate-free and makes it the union. |
| StudentList.HasSubjectSnoc | frontend/src/StudentList.jsx:10-14 | The subjects of one more record are the earlier ones plus its keys. |
| StudentList.SortedSubjects | frontend/src/StudentList.jsx:15 | Sorting the set gives a strictly ascending list with the same members. |
| StudentList.LexStrictWeak | frontend/src/StudentList.jsx:15 | The default string order is a strict weak order. |
| StudentList.ClientSideStats | frontend/src/StudentList.jsx:18-35 | The grade is never empty. |
| StudentList.ClientSideStatsAgrees | frontend/src/StudentList.jsx:18-35 | It agrees with the dashboard calculator on every input. |
| StudentList.RequestSort | frontend/src/StudentList.jsx:88-94 | The new key and subject flag are the requested ones. The direction is descending exactly when the same key was ascending. |
| StudentList.RequestSortAlternates | frontend/src/StudentList.jsx:88-94 | Requests on one key alternate the direction: the third request equals the first. |
| StudentList.BackfillMissing | frontend/src/StudentList.jsx:97-104 | An existing percentage or grade is kept and only a missing one is filled from the client-side stats. The other fields are unchanged. |
| StudentList.BackfillMissingAll | frontend/src/StudentList.jsx:97-104 | The `map` keeps the length and order and backfills each record. |
| StudentList.VisibleAll | frontend/src/StudentList.jsx:107 | An empty search term keeps every record. |
| StudentList.VisibleMatches | frontend/src/StudentList.jsx:106-115 | A record is shown exactly when its lower-cased name, course, roll text or grade contains the lower-cased term. |
| StudentList.VisibleAppend | frontend/src/StudentList.jsx:109-114 | Filtering keeps order: one more record appends it, or nothing. |
| StudentList.SameKind | frontend/src/StudentList.jsx:122-133 | For one sort key all records give values of the same kind (number or string). |
| StudentList.LessIrreflexive | frontend/src/StudentList.jsx:140 | No value is below itself. |
| StudentList.LessTransitive | frontend/src/StudentList.jsx:140-143 | `<` on sort values is transitive. |
| StudentList.LessNegTransitive | frontend/src/StudentList.jsx:140-146 | Incomparability is transitive on values of one kind. |
| StudentList.Comparator | frontend/src/StudentList.jsx:119-147 | The comparator returns −1, 0 or 1. |
| StudentList.DescendingNegates | frontend/src/StudentList.jsx:140-146 | The descending comparator is the negated ascending one. |
| StudentList.OrderDirected | frontend/src/StudentList.jsx:135-146 | a sorts before b exactly when its sort value is below b's, or above it when descending. |
| StudentList.OrderStrictWeak | frontend/src/StudentList.jsx:119-147 | For every key and direction the comparator is a strict weak order, so the sort is well defined. |
| StudentList.ProcessStudents | frontend/src/StudentList.jsx:96-150 | The view is a permutation of the backfilled, filtered list. It is that list unchanged when no key is set. Otherwise it is ordered by the comparator, and records that compare equal keep their relative order. |
| StudentList.SubjectSortOrder | frontend/src/StudentList.jsx:122-124 | Sorted ascending on a subject, scores never decrease, a missing subject counting as 0. |
| StudentList.CsvHeader | frontend/src/StudentList.jsx:45 | The header has one field per subject plus six. |
| StudentList.CsvHeaderAt | frontend/src/StudentList.jsx:45 | Field 3 + j of the header is subject j, and field 3 + (number of subjects) is "Total". |
| StudentList.CsvFields | frontend/src/StudentList.jsx:48-58 | A row has one field per header field. |
| StudentList.CsvFieldsAt | frontend/src/StudentList.jsx:49-58 | Field 3 + j of a row is the score of subject j, or 0 when it is missing. The field after the scores is the sum of all the marks. Field 1 is the name between quotes. |
| StudentList.CsvLines | frontend/src/StudentList.jsx:47-62 | The header line followed by one row line per student. |
| StudentList.DownloadCsv | frontend/src/StudentList.jsx:38-62 | There is no export exactly when the list is empty. Otherwise the export is the header line and the row lines joined by line breaks. |
| StudentList.CsvSplit | frontend/src/StudentList.jsx:59-62 | How RFC 4180 reads the fields of one line: the line is cut only at commas outside double quotes. There is always at least one field. |
| StudentList.CsvSplitLossless | frontend/src/StudentList.jsx:59-62 | Reading loses no text: the fields joined by commas are the line again. |
| StudentList.ReadAppend | frontend/src/StudentList.jsx:59-62 | Reading x + y is reading x, then reading y from the quote state x leaves. A comma outside quotes occurs in x + y exactly when it occurs in one of those two reads. |
| StudentList.CsvSplitPrefix | frontend/src/StudentList.jsx:59-62 | Text with no comma outside quotes becomes the start of the first field. |
| StudentList.CsvSplitClosed | frontend/src/StudentList.jsx:59-62 | A closed field followed by a comma is read as one field. |
| StudentList.CsvSplitJoin | frontend/src/StudentList.jsx:59-62 | Reading a line joined from closed fields gives back exactly those fields. |
| StudentList.PlainRead | frontend/src/StudentList.jsx:49-58 | Text with no comma and no quote is read through without a cut, and the quote state is unchanged. |
| StudentList.QuotedRead | frontend/src/StudentList.jsx:51-52 | Inside quotes, quote-free text is read through without a cut and the quote stays open. |
| StudentList.QuotedFieldClosed | frontend/src/StudentList.jsx:51-52 | A quote-free name or course between quotes is a closed field, even when it holds commas. |
| StudentList.CsvRowFields | frontend/src/StudentList.jsx:48-59 | The joined row of a record is one line and reads back as exactly its fields, when the name and course are single-line and quote-free and the grade holds no ',', '"' or line break. So it has as many fields as the header. |
| StudentList.CsvHeaderFields | frontend/src/StudentList.jsx:45-62 | When no subject holds ',', '"' or a line break, the joined header is one line and reads back as exactly the header fields. |
| StudentList.CsvLinesSplit | frontend/src/StudentList.jsx:62 | Under those conditions, cutting the export at its line breaks gives the header line and the row lines. |
| StudentList.CsvColumnsAlign | frontend/src/StudentList.jsx:44-62 | The export is cut into lines, and each line is read as RFC 4180 reads it. Then every row has as many fields as the header. The column headed by a subject holds that subject's score, or 0 when it is missing. The Total column holds the sum of the marks. The Name column holds the quoted name. |
| StudentList.CsvSubjectCommaShifts | frontend/src/StudentList.jsx:44-62 | A subject named `a,b` is written into the header unquoted. The header then reads as 8 fields, while every row reads as 7. |
| StudentList.HeaderCommaSplits | frontend/src/StudentList.jsx:45-62 | As text, the header for one subject `a,b` is the header for the two subjects a and b. |
| StudentList.OddQuoteOpens | frontend/src/StudentList.jsx:51 | The name `a"b` written between quotes has no cut, and it leaves a quote open. |
| StudentList.CsvNameQuoteMerges | frontend/src/StudentList.jsx:51-59 | A name holding one `"` is written between quotes without escaping. The open quote swallows every later comma, so the row reads as only two fields. |
| StudentForm.FirstInvalid | frontend/src/StudentForm.jsx:61-68 | The reported row is a kept row whose score is missing or outside [0, 100]. None exactly when no row is like that. |
| StudentForm.FirstInvalidSnoc | frontend/src/StudentForm.jsx:61-68 | One more row changes the verdict only when none failed before. |
| StudentForm.FirstInvalidStops | frontend/src/StudentForm.jsx:64-68 | The first failing kept row is the one reported. |
| StudentForm.PayloadSnoc | frontend/src/StudentForm.jsx:61-70 | One more row stores its trimmed subject and score, or nothing. |
| StudentForm.ValidateMarks | frontend/src/StudentForm.jsx:55-75 | The loop with early returns gives exactly the submission's verdict: the out-of-range error, the no-subjects error, or the payload. |
| StudentForm.PayloadKeys | frontend/src/StudentForm.jsx:62-69 | k is a payload key exactly when some kept row with a score has trimmed subject k. |
| StudentForm.PayloadLastWins | frontend/src/StudentForm.jsx:69 | The last row for a trimmed subject gives its value. |
| StudentForm.PayloadWellFormed | frontend/src/StudentForm.jsx:59-70 | When no row is rejected, keys are distinct, non-empty and trimmed, and values lie in [0, 100]. |
| StudentForm.PayloadSkipsBlank | frontend/src/StudentForm.jsx:62 | A blank-subject row adds nothing to the payload. |
| StudentForm.FirstInvalidSkipsBlank | frontend/src/StudentForm.jsx:62 | A blank-subject row is never rejected, whatever its score. |
| StudentForm.BlankRowIgnored | frontend/src/StudentForm.jsx:62 | Inserting a blank-subject row anywhere leaves the submission unchanged. |
| StudentForm.MarksToRows | frontend/src/StudentForm.jsx:17-25 | One row per marks entry in order, or a single blank row when there are none. |
| StudentForm.RowsOf | frontend/src/StudentForm.jsx:20-23 | Entry i becomes row i with its subject and score. |
| StudentForm.PayloadOfRows | frontend/src/StudentForm.jsx:20-23 | Rows made from well-formed marks give those marks back. |
| StudentForm.StoreNewMark | frontend/src/StudentForm.jsx:69 | Storing a new, trimmed subject appends it. |
| StudentForm.LastKeyNew | frontend/src/StudentForm.jsx:69 | In a map with distinct keys the last key is not among the earlier ones. |
| StudentForm.RowsRoundTrip | frontend/src/StudentForm.jsx:17-75 | Submitting an unedited form for well-formed marks sends those marks, or the no-subjects error when there are none. |
| StudentForm.AddSubject | frontend/src/StudentForm.jsx:46-48 | One blank row is appended and the others are kept. |
| StudentForm.RemoveSubject | frontend/src/StudentForm.jsx:50-53 | Exactly index i is removed and the rest keep their order. An index out of range removes nothing. |
| StudentForm.AddThenRemove | frontend/src/StudentForm.jsx:46-53 | Removing the row just added restores the rows. |
| StudentForm.AddSubjectKeepsSubmission | frontend/src/StudentForm.jsx:46-48 | Adding a blank row does not change the submission. |
| StudentForm.RemoveBlankKeepsSubmission | frontend/src/StudentForm.jsx:50-53 | Removing a blank-subject row does not change the submission. |
| StudentForm.Row.constructor | frontend/src/StudentForm.jsx:47 | A new row holds the given subject and score. |
| StudentForm.Apply | frontend/src/StudentForm.jsx:42 | Editing a field sets that field and keeps the other. |
| StudentForm.HandleSubjectChange | frontend/src/StudentForm.jsx:40-44 | The returned list holds the same row objects. Only the given field of the given row changes, and every other row is unchanged. |
| Marks.Keys | frontend/src/StudentList.jsx:12 | The keys in entry order. |
| Marks.Get | frontend/src/StudentList.jsx:123 | A lookup misses exactly when the key is absent, and otherwise finds that key's entry. |
| Marks.Put | frontend/src/StudentForm.jsx:69 | Storing an existing key keeps the key list. Storing a new key appends it. |
| Marks.GetPut | frontend/src/StudentForm.jsx:69 | After a store, the stored key reads the new value and every other key reads as before. |
| Marks.PutEntries | backend/Student.java:111 | After a store the new entry is present and every entry is new or was there before. |
| Marks.InKeysPut | backend/Student.java:111 | The keys after a store are the old keys plus the stored one. |
| Marks.PutKeepsKeysDistinct | backend/Student.java:111 | Storing never duplicates a key. |
| Marks.SumRealBounds | frontend/src/App.jsx:22 | Scores between lo and hi sum to between n·lo and n·hi. |
| Marks.SumIntBounds | backend/Student.java:53 | The same for `int` scores. |
| Sorting.Filter | frontend/src/StudentList.jsx:109-114 | `filter` keeps exactly the elements that pass, and never lengthens the list. |
| Sorting.FilterAppend | frontend/src/StudentList.jsx:109-114 | Filtering keeps the input order. |
| Sorting.FilterDrops | backend/StudentServer.java:170 | Something is filtered out exactly when some element fails the test. |
| Sorting.DistinctCountsOnce | frontend/src/StudentList.jsx:15 | A duplicate-free list holds each element at most once. |
| Sorting.DistinctPermutation | frontend/src/StudentList.jsx:15 | A permutation of a duplicate-free list is duplicate-free. |
| Sorting.Insert | frontend/src/StudentList.jsx:119 | Inserting adds exactly that element. |
| Sorting.InsertionSort | frontend/src/StudentList.jsx:119 | `sort` returns a permutation of its input. |
| Sorting.InsertSorted | frontend/src/StudentList.jsx:119 | Inserting into a sorted list keeps it sorted. |
| Sorting.SortIsSorted | frontend/src/StudentList.jsx:119-147 | Under a strict weak order the result is sorted. |
| Sorting.TiesAppend | frontend/src/StudentList.jsx:119 | The elements tied with y in a concatenation are those of each part. |
| Sorting.NoTies | frontend/src/StudentList.jsx:119 | A list with nothing tied to y has no ties with it. |
| Sorting.SortedTail | frontend/src/StudentList.jsx:119 | The tail of a sorted list is sorted. |
| Sorting.BeforeFirstNoTies | frontend/src/StudentList.jsx:119 | An element tied with y that sorts before a sorted list's head has nothing tied with y in that list. |
| Sorting.InsertTies | frontend/src/StudentList.jsx:119 | Insertion puts an element after every element tied with it. |
| Sorting.SortIsStable | frontend/src/StudentList.jsx:119-147 | The sort is stable: elements that compare equal keep their input order. |
| Text.Wrap32 | backend/Student.java:53 | Java `int` arithmetic: the result is an `int`, and an `int` is unchanged. |
| Text.ToLower | frontend/src/StudentList.jsx:108 | Lower-casing works character by character. |
| Text.IndexOf | backend/Student.java:173 | `indexOf` gives −1 or a position at which the pattern occurs. |
| Text.IndexOfFirst | backend/Student.java:173 | No earlier position from `from` is an occurrence, and −1 means there is none. |
| Text.IndexOfFirstAt | backend/Student.java:173 | The first occurrence is what `indexOf` finds. |
| Text.IndexOfAbsent | backend/Student.java:173-175 | Without an occurrence `indexOf` gives −1. |
| Text.ClosedBy | backend/Student.java:197 | Text without c followed by c: the next c is right after that text. |
| Text.FirstByMarker | backend/Student.java:197 | A pattern occurrence is the first when one of its characters occurs nowhere before it. |
| Text.Trim | frontend/src/StudentForm.jsx:62 | The result is trimmed, and trimmed text is unchanged. |
| Text.TrimStart | frontend/src/StudentForm.jsx:62 | The result starts with a non-space. |
| Text.TrimEnd | frontend/src/StudentForm.jsx:62 | The result ends with a non-space. |
| Text.TrimStartDropsSpace | frontend/src/StudentForm.jsx:62 | Only leading white space is removed. |
| Text.TrimEndDropsSpace | frontend/src/StudentForm.jsx:62 | Only trailing white space is removed. |
| Text.TrimEmpty | frontend/src/StudentForm.jsx:62 | A subject is blank exactly when it is all white space. |
| Text.SplitAll | backend/Student.java:96 | Splitting gives between 1 and length + 1 pieces. |
| Text.SplitAllSingle | backend/Student.java:96 | There is one piece exactly when the separator does not occur. |
| Text.DropTrailingEmpty | backend/Student.java:96 | Java's `split` drops empty pieces only from the end. |
| Text.DropTrailingEmptyPrefix | backend/Student.java:96 | What is dropped is a run of empty pieces at the end. |
| Text.SplitWithoutSeparator | backend/Student.java:109 | Text without the separator splits into itself. |
| Text.SplitAfterPiece | backend/StudentServer.java:87 | A piece before a separator is split off whole. |
| Text.SplitBeforePiece | backend/Student.java:96 | A piece after the last separator is split off whole. |
| Text.SplitJoin | backend/Student.java:96 | Splitting undoes joining when no piece holds the separator. |
| Text.JoinAppend | frontend/src/StudentList.jsx:62 | Joining two non-empty lists is joining each of them, with one separator between. |
| Text.JavaSplitKeepsAll | backend/Student.java:96 | `split` keeps every piece when the last is not empty. |
| Text.ReplaceChar | backend/Student.java:230 | `replace` never shortens with a non-empty replacement and never lengthens with a replacement of at most one character. |
| Text.ReplaceCharRemoves | backend/Student.java:219 | After `replace("\"", "")` no quote is left. |
| Text.ReplaceCharAbsent | backend/Student.java:230 | Text without the character is unchanged. |
| Text.ReplaceCharKeepsOut | backend/Student.java:219 | A character absent from the input and the replacement stays absent. |
| Text.ReplaceCharAppend | backend/Student.java:230 | `replace` distributes over concatenation. |
| Text.DigitChar | backend/Student.java:76 | The digit printed for d reads back as d. |
| Text.DigitsValueSnoc | backend/Student.java:184 | Appending a digit multiplies by ten and adds it. |
| Text.DigitsNumberValue | backend/Student.java:184 | A digit run parses exactly when it is non-empty and all digits, to its decimal value. |
| Text.ParseInt | backend/Student.java:100 | `Integer.parseInt` yields only `int` values. |
| Text.NatToString | backend/Student.java:76 | Printing a natural gives a non-empty digit run with that value. |
| Text.IntToString | backend/Student.java:76 | Printing an `int` gives digits, with a leading minus sign exactly for negatives. |
| Text.IntToStringChars | backend/Student.java:76 | A printed `int` holds only digits and at most a leading '-'. |
| Text.ParseIntToString | backend/Student.java:100 | `parseInt` reads back every printed `int`. |
| Text.LexIrreflexive | frontend/src/StudentList.jsx:15 | No string sorts before itself. |
| Text.LexTransitive | frontend/src/StudentList.jsx:15 | The default string order is transitive. |
| Text.LexTotal | frontend/src/StudentList.jsx:15 | Distinct strings are ordered one way or the other. |
| StudentRecord.Percentage | backend/Student.java:50-55 | 0 for null or empty marks. Otherwise the percentage times the count is the `int` total after 32-bit wrap-around. |
| StudentRecord.PercentageIsMean | backend/Student.java:53-54 | Whenever the total fits an `int`, the percentage is exactly sum / count. |
| StudentRecord.PercentageInRange | backend/Student.java:53-54 | Scores in [0, 100] whose total fits an `int` give a percentage in [0, 100]. |
| StudentRecord.MeanBounds | backend/Student.java:54 | A total within [0, 100·n] divided by n lies in [0, 100]. |
| StudentRecord.PercentageWraps | backend/Student.java:53 | Two scores of 2147483647 wrap to a total of −2, giving percentage −1. |
| StudentRecord.AsReal | backend/Student.java:54 | The scores as reals, key by key. |
| StudentRecord.SumAsReal | backend/Student.java:53-54 | The real sum is the integer sum. |
| StudentRecord.FrontendGrade | frontend/src/App.jsx:23-26 | On the same marks the frontend grades the percentage rounded to hundredths. |
| StudentRecord.BackendGradeVersusFrontend | backend/Student.java:57-71 | The backend grades the unrounded mean. The two grades differ exactly when the mean lies within 0.005 below a threshold, and the backend's grade is never the higher. |
| StudentRecord.NearlyNinety | backend/Student.java:57-71 | A witness roster of exactly n entries. |
| StudentRecord.NearlyNinetySum | backend/Student.java:53 | Those entries sum to 90·n − 1. |
| StudentRecord.GradesDisagree | backend/Student.java:57-71 | 200 subjects with mean 89.995: the backend says A, the frontend A+. |
| StudentRecord.Pieces | backend/Student.java:82-86 | One `key:value` piece per entry, in entry order. |
| StudentRecord.MarksTextSnoc | backend/Student.java:82-86 | One more entry appends a separator (none for the first) and its piece. |
| StudentRecord.ReadPiece | backend/Student.java:109-112 | A piece not made of exactly two ':'-parts is skipped. A kept value is an `int`. |
| StudentRecord.Steps | backend/Student.java:108 | One step per piece. |
| StudentRecord.CollectDistinct | backend/Student.java:105-113 | The map filled by the loop never holds a key twice. |
| StudentRecord.CollectStops | backend/Student.java:216-225 | A value that does not parse stops the loop. The pairs read before it are kept. |
| StudentRecord.CollectCompletes | backend/Student.java:108-113 | Without such a value the loop completes. |
| StudentRecord.SkipIgnored | backend/Student.java:109-112 | A malformed piece anywhere is ignored. |
| StudentRecord.KeepAll | backend/Student.java:111 | One kept step per entry. |
| StudentRecord.NewKey | backend/Student.java:111 | With distinct keys the next key is new. |
| StudentRecord.CollectKeepAll | backend/Student.java:108-113 | Reading the pieces of distinct-keyed entries rebuilds exactly those entries. |
| StudentRecord.KeepFirst | backend/Student.java:111 | Reading the first of such entries moves it to the map. |
| StudentRecord.CollectKeepStep | backend/Student.java:111 | The same step for a new key. |
| StudentRecord.IntToStringFits | backend/Student.java:85 | A printed `int` holds no separator, quote or brace and no outer white space. |
| StudentRecord.SplitKeyValue | backend/Student.java:109 | `k:v` splits into k and v. |
| StudentRecord.UnquoteKey | backend/Student.java:219 | A quoted, trimmed key reads back as itself. |
| StudentRecord.ReadPieceText | backend/Student.java:85 | A written piece reads back as its entry, in both formats. |
| StudentRecord.StepsOfPieces | backend/Student.java:107-113 | The written pieces all read back. |
| StudentRecord.PieceFits | backend/Student.java:85 | A piece is non-empty and holds no separator. |
| StudentRecord.SplitMarksText | backend/Student.java:107 | Splitting the written marks gives back the pieces. |
| StudentRecord.MarksRoundTrip | backend/Student.java:82-86 | Reading back the written non-empty marks gives exactly those marks, in both formats. |
| StudentRecord.ParseFields | backend/Student.java:96-115 | null with fewer than four parts or an unparsable roll. Otherwise the roll, name and course are the parts, and the marks map is present. |
| StudentRecord.ParsedMarksDistinct | backend/Student.java:105-113 | A parsed line's marks have distinct keys. |
| StudentRecord.SplitFileLine | backend/Student.java:76-78 | A safe record's line splits into its four fields. |
| StudentRecord.MarksTextHasNo | backend/Student.java:82-86 | Written marks hold no character that none of their pieces holds. |
| Text.JoinHasNo | backend/Student.java:76-78 | A character that is not the separator and occurs in no piece does not occur in the joined text. |
| StudentRecord.FileRoundTrip | backend/Student.java:73-119 | `fromFileString(toFileString(s))` gives back s when the marks are non-empty, name and course hold no ',', and keys hold no ':', '\|' or ','. |
| StudentRecord.EmptyMarksLost | backend/Student.java:76-78 | With null or empty marks the written line reads back as null. |
| StudentRecord.FixedFileRoundTrip | backend/Student.java:96 | With `split(",", -1)` every safe record reads back, null marks as an empty map. |
| StudentRecord.Escape | backend/Student.java:229-231 | Escaping never shortens. |
| StudentRecord.EscapePlain | backend/Student.java:229-231 | Text without quotes is unchanged. |
| StudentRecord.EscapedQuotes | backend/Student.java:229-231 | Every quote in the output is preceded by a backslash. |
| StudentRecord.TwoDecimals | backend/Student.java:127 | The text holds only digits and one '.'. |
| StudentRecord.TwoDecimalsDigits | backend/Student.java:127 | The text has two digits after the point, and without the point it reads as the number of hundredths. |
| StudentRecord.Fixed2NegativeZero | backend/Student.java:127 | A value just below zero (-0.001) prints as "-0.00", the sign taken from the unrounded value. |
| StudentRecord.Fixed2 | backend/Student.java:127 | `%.2f` prints the rounded value's hundredths, with a minus sign exactly when the value itself is negative. |
| StudentRecord.QuotedText | backend/Student.java:197-198 | A quoted read is never "absent". |
| StudentRecord.QuotedTextNoQuote | backend/Student.java:197-198 | The text read ends at the first quote. |
| StudentRecord.LookupAt | backend/Student.java:192-198 | Once the key's first position is known, the lookup is the quoted text after it. |
| StudentRecord.QuotedTextReads | backend/Student.java:197-198 | Quote-free text followed by a quote is read. |
| StudentRecord.NoCharAhead | backend/Student.java:197 | A stretch with no occurrence of c holds no c. |
| StudentRecord.StringFieldNoQuote | backend/Student.java:190-202 | What `extractString` reads never holds a quote. |
| StudentRecord.StringFieldOf | backend/Student.java:194-201 | "" unless the quoted text is found. |
| StudentRecord.StringFieldAbsent | backend/Student.java:193-195 | An absent key reads "". |
| StudentRecord.StringFieldReads | backend/Student.java:190-202 | After the first `"key":"`, quote-free text ending in a quote is what is read. |
| StudentRecord.EscapedQuoteCutsField | backend/Student.java:125 | A value with a quote, written through `escape`, is read back only up to the quote, plus a backslash. |
| StudentRecord.EscapeFirstQuote | backend/Student.java:229-231 | The first quote becomes backslash-quote. |
| StudentRecord.EscapeFixed | backend/Student.java:229-231 | The escaping that also doubles backslashes never shortens. |
| StudentRecord.EscapeFixedPlain | backend/Student.java:229-231 | Text without quotes or backslashes is unchanged by it. |
| StudentRecord.ReadQuoted | backend/Student.java:197 | An escape-aware read consumes something. |
| StudentRecord.ReadQuotedPlain | backend/Student.java:197 | A plain character is read as itself. |
| StudentRecord.ReadQuotedEscape | backend/Student.java:197 | A backslash pair is read as the escaped character. |
| StudentRecord.ReadEscaped | backend/Student.java:197-198 | The escape-aware read undoes the corrected escaping. |
| StudentRecord.EscapedHead | backend/Student.java:229-231 | Escaping proceeds character by character. |
| StudentRecord.StringFieldFixedReads | backend/Student.java:190-202 | With both corrections, any value written as a field reads back exactly. |
| StudentRecord.StringFieldFixedAbsent | backend/Student.java:193-195 | An absent key still reads "". |
| StudentRecord.StringFieldFixedAt | backend/Student.java:192-198 | The corrected lookup at the key's first position. |
| StudentRecord.QuotedAtReads | backend/Student.java:197-198 | A value written with the corrected escaping and closed by a quote is read back exactly from where it starts, whatever follows. |
| StudentRecord.RunEnd | backend/Student.java:181-183 | The index loop stops at the first character that is neither a digit nor '.'. |
| StudentRecord.IntField | backend/Student.java:170-188 | `extractInt` always yields a non-negative `int`. |
| StudentRecord.IntAt | backend/Student.java:181-184 | The same for the run read at a position. |
| StudentRecord.IntFieldReads | backend/Student.java:170-188 | After the first `"key":`, a printed non-negative `int` followed by a non-digit is what is read. |
| StudentRecord.IntFieldAt | backend/Student.java:173-184 | Once the key's first position is known, the field is the run read after it. |
| StudentRecord.IntFieldAbsent | backend/Student.java:173-175 | An absent key reads 0. |
| StudentRecord.IntAtReads | backend/Student.java:181-184 | A printed `int` followed by a non-digit is read. |
| StudentRecord.RunEndOfDigits | backend/Student.java:182-183 | The loop stops right after a digit run. |
| StudentRecord.IntFieldRejects | backend/Student.java:182-187 | A negative value, or a decimal in the run, reads 0. |
| StudentRecord.MarksFieldDistinct | backend/Student.java:204-227 | The marks read never hold a key twice. |
| StudentRecord.MarksAtDistinct | backend/Student.java:212-223 | The same from the object's start. |
| StudentRecord.MarksObjectDistinct | backend/Student.java:215-223 | The same for the object's content. |
| StudentRecord.MarksFieldAbsent | backend/Student.java:207-210 | Without `"marks":{` the map is empty. |
| StudentRecord.MarksFieldNone | backend/Student.java:208-210 | The same when `indexOf` gives −1. |
| StudentRecord.MarksFieldAt | backend/Student.java:207-213 | Once the key's position is known, the map is what is read after it. |
| StudentRecord.MarksAtUnclosed | backend/Student.java:212-213 | An unclosed object gives an empty map. |
| StudentRecord.MarksObjectReads | backend/Student.java:215-223 | Written marks are read back. |
| StudentRecord.MarksAtReads | backend/Student.java:212-223 | Written marks followed by '}' are read back. |
| StudentRecord.MarksObjectEnds | backend/Student.java:212 | The closing brace found is the one after the written marks. |
| StudentRecord.MarksJsonNoBrace | backend/Student.java:136 | Written marks hold no '}'. |
| StudentRecord.MarksAtIs | backend/Student.java:212-213 | The map is what the content between the braces gives. |
| StudentRecord.MarksFieldReads | backend/Student.java:204-227 | After the first `"marks":{`, written marks closed by '}' are read back exactly. |
| StudentRecord.JsonRecord | backend/Student.java:145-168 | `fromJson` always yields a map, never null, and a non-negative `int` roll. |
| StudentRecord.JsonRecordShape | backend/Student.java:158-161 | The parsed name and course hold no quote, and the marks have distinct keys. |
| Students.Student.constructor | backend/Student.java:11-16 | The new student holds the given fields. |
| Students.Student.SetRollNumber | backend/Student.java:22-24 | Only the roll changes. |
| Students.Student.SetName | backend/Student.java:38-40 | Only the name changes. |
| Students.Student.SetCourse | backend/Student.java:42-44 | Only the course changes. |
| Students.Student.SetSubjectMarks | backend/Student.java:46-48 | Only the marks change. |
| Students.Student.ToFileString | backend/Student.java:73-92 | The `StringBuilder` writes the line format of the student's value. |
| Students.FileMarks | backend/Student.java:80-87 | The entry loop writes the marks text. |
| Students.FileMarksStep | backend/Student.java:83-85 | One iteration appends '\|' (after the first) and `key:value`. |
| Students.Student.ToJson | backend/Student.java:121-143 | The `StringBuilder` writes the JSON text of the student's value. |
| Students.JsonMarks | backend/Student.java:131-139 | The entry loop writes the marks object's content. |
| Students.JsonMarksStep | backend/Student.java:134-136 | One iteration appends ',' (after the first) and `"key":value`. |
| Students.JoinFour | backend/Student.java:76-78 | The four fields joined by ','. |
| Students.FromFileString | backend/Student.java:94-119 | null exactly when the line does not parse. Otherwise a fresh student holding the parsed record. |
| Students.ExtractInt | backend/Student.java:170-188 | The index loop yields exactly `StudentRecord.IntField`, whose reading and rejection properties are proved there. |
| Students.ExtractMarks | backend/Student.java:204-227 | The pair loop with its early stop yields exactly `StudentRecord.MarksField`, which reads written marks back. |
| Students.FromJson | backend/Student.java:145-168 | A fresh student holding the parsed record. |
| StudentServer.MaxRollIsMax | backend/StudentServer.java:131-134 | The result is 0 for an empty list. Otherwise it is one of the rolls, and no roll exceeds it. |
| StudentServer.NextRollIs | backend/StudentServer.java:135 | The next roll is `maxRoll + 1` in `int` arithmetic. |
| StudentServer.NextRollFresh | backend/StudentServer.java:131-136 | The first roll is 1. Below the largest `int`, the new roll exceeds every roll in use. |
| StudentServer.AddKeepsRollsDistinct | backend/StudentServer.java:131-138 | An add keeps the rolls distinct, keeps the earlier records and gives the new one the next roll. |
| StudentServer.RollWrapCollides | backend/StudentServer.java:135 | At roll 2147483647 the next roll wraps to −2147483648, which a record may already hold. |
| StudentServer.FindRoll | backend/StudentServer.java:155 | None exactly when no record has the roll. Otherwise the index of the first one that does. |
| StudentServer.UpdateChangesFirstOnly | backend/StudentServer.java:154-164 | An update keeps the length and every roll. Only the first record with the roll changes, and it takes the new name, course and marks. Without such a record nothing changes. |
| StudentServer.UpdateIdempotent | backend/StudentServer.java:154-164 | Updating twice with the same body is updating once. |
| StudentServer.UpdateKeepsRollsDistinct | backend/StudentServer.java:154-164 | An update keeps the rolls distinct. |
| StudentServer.DeleteRemovesRoll | backend/StudentServer.java:170 | Exactly the records with other rolls remain. Something is removed exactly when some record has the roll. |
| StudentServer.DeleteSnoc | backend/StudentServer.java:170 | One more record is kept unless it has the roll. |
| StudentServer.DeleteKeepsOrder | backend/StudentServer.java:170 | Deleting from a concatenation deletes from each part, so the order is kept. |
| StudentServer.DeleteKeepsRollsDistinct | backend/StudentServer.java:170 | A delete keeps the rolls distinct. |
| StudentServer.StudentPath | backend/StudentServer.java:87-99 | `/api/students/` with an empty segment is "Invalid ID". With a segment, the result is the segment's `int` or "Invalid Roll Number". |
| StudentServer.RollPathRoundTrip | backend/StudentServer.java:87-99 | The path built for an `int` roll leads back to it. |
| StudentServer.RecordsOf | backend/StudentServer.java:14 | The list's records, position by position. |
| StudentServer.RecordsOfSnoc | backend/StudentServer.java:138 | Appending a student appends its record. |
| StudentServer.NotEarlier | backend/StudentServer.java:170 | In a list without repeated objects, no object appears before its own position. |
| StudentServer.Server.constructor | backend/StudentServer.java:14 | The roster starts empty. |
| StudentServer.Server.HandleAdd | backend/StudentServer.java:120-142 | Exactly one fresh student is appended and the earlier students are untouched. The records become the old ones plus the parsed record with roll `maxRoll + 1`. |
| StudentServer.Server.AddParsed | backend/StudentServer.java:129-140 | The same, for an already-parsed student. |
| StudentServer.Server.HandleUpdate | backend/StudentServer.java:144-166 | The list is the same. `found` says whether a record has the roll. The records become the specified update. |
| StudentServer.Server.UpdateParsed | backend/StudentServer.java:153-165 | The same, for already-parsed updates. |
| StudentServer.Server.HandleDelete | backend/StudentServer.java:168-178 | The records become the specified delete, keeping order. `removed` says whether any record had the roll. |
| StudentServer.Server.HandleSpecific | backend/StudentServer.java:82-110 | The path is checked before the list is touched. A rejected path, OPTIONS or another method leave the roster unchanged. A valid path with PUT updates, and with DELETE deletes. |
| StudentServer.ExtractAbsent | backend/StudentServer.java:255-257 | Without `"key":"` the field is "". |
| StudentServer.ExtractReads | backend/StudentServer.java:253-261 | After the first `"key":"`, quote-free text ending in a quote is read. |
| StudentServer.ExtractAgrees | backend/StudentServer.java:253-261 | Where it does not throw, `extract` reads what `extractString` reads, which never holds a quote. |
| StudentServer.AdminFromJsonFields | backend/StudentServer.java:241-251 | `fromJson` gives null exactly when one of the three keys opens a never-closed text. Otherwise each field is what `extract` reads. |
| StudentServer.AdminNameRoundTrip | backend/StudentServer.java:237-239 | A quote-free name written by `toJson` is read back by `extract`. |

## Left out

- HTTP plumbing is not modelled: the `HttpServer` setup, CORS headers, status codes and response writing, and reading the request body. The handlers take the body and path as parameters.
- `StudentSpecificHandler` is modelled by its reply: the rejection reason, or which handler ran.
- Roster file persistence (`loadFromFile`/`saveToFile`) is I/O. Only the line format and its parser are modelled.
- The `synchronized` blocks are not modelled: each handler runs as one sequential step.
- `handleGetList` and the admin-profile HTTP handlers are plumbing around modelled functions.
- Floating point is replaced by exact reals:
  - `toFixed(2)` and `%.2f` are exact half-up rounding;
  - `parseFloat`/`Number` read a score as an optional real (NaN is `None`);
  - an unparsable stored percentage counts as 0.
- `Locale`-dependent formatting is not modelled.
- Marks order:
  - A marks map is an insertion-ordered list.
  - Java's `HashMap` iteration order is unspecified, so the written order is the list order.
  - JavaScript lists integer-like keys first in `Object.keys`. This is not modelled.
- Characters:
  - `toLowerCase` folds ASCII letters only.
  - String order compares characters, not UTF-16 code units; the two agree on the Basic Multilingual Plane.
  - `Character.isDigit` and `Integer.parseInt` accept ASCII digits only.
- The CSV export ends at the text after the `data:text/csv;charset=utf-8,` prefix. The prefix, `encodeURI` and the anchor click are DOM side effects.
- JavaScript's number-to-text conversion is left abstract (`StudentList.NumberFormat`). `StudentList.CsvRowFields`, `StudentList.CsvLinesSplit` and `StudentList.CsvColumnsAlign` require it to print no ',', '"' or line break, which holds of JavaScript's number texts.
- `StudentList.CsvColumnsAlign` reads the export line by line. RFC 4180 also allows a line break inside a quoted field, so its requirement that names and courses be single-line is stronger than a full CSV reader needs. Subjects and grades must also be free of ',' and '"'; `StudentList.CsvSubjectCommaShifts` and `StudentList.CsvNameQuoteMerges` show how a row or the header misreads otherwise.
- The "No data to download!" alert is modelled as `None`.
- React state is not modelled: `useState`, `useMemo`, `useEffect` and `setFormData` are replaced by returned values. `handleSubjectChange` keeps its in-place row update.
- `Students.FromJson`: the Java method returns null when an exception escapes the field extractors. None can escape, because each extractor catches its own. So the model always yields a student, and the server's 400 "Invalid JSON" branch is unreachable and not modelled.
- `extractInt` computes an `end` from `,`/`}` that it never uses. The model omits it.
- `StudentServer.NextRollFresh` and `StudentServer.AddKeepsRollsDistinct` require the largest roll to be below 2147483647. At that roll, `maxRoll + 1` wraps around, and `StudentServer.RollWrapCollides` shows the collision that follows.
- `StudentRecord.PercentageIsMean` and `StudentRecord.PercentageInRange` require the total to fit in an `int`. `StudentRecord.PercentageWraps` shows the wrapped total otherwise.
- `StudentRecord.FileRoundTrip` requires the marks to be non-empty and the text to hold no separators, as the line format needs.
- `StudentServer.AdminNameRoundTrip` proves the round trip for the name only. For email and role, showing that `"email":"` and `"role":"` first occur at their own fields needs a case analysis over the preceding text that the proof does not carry out.
- The JSON writer and reader are related field by field (`StudentRecord.StringFieldReads`, `StudentRecord.IntFieldReads`, `StudentRecord.MarksFieldReads`). There is no whole-record round trip, because the percentage and grade fields sit between them and the escaping finding below breaks names that hold quotes.
- The Express/Mongoose server (`backend/server.js`), its models and scripts are not part of this model. Neither are the login, registration, password and settings pages.

## Findings

| source | as written | input that shows it | evidently intended | confidence | as-written member | corrected member |
|---|---|---|---|---|---|---|
| backend/Student.java:76-78 | The line ends in an empty marks field when the marks are null or empty. `split(",")` drops that trailing empty field, and `fromFileString` returns null for the three parts left. | Roll 1, name "A", course "X", marks {} is written "1,A,X," and read back as null. The record disappears on the next load. | Read the record back with an empty map (e.g. `split(",", -1)`). | not executed; follows from Java's `split` contract | StudentRecord.EmptyMarksLost | StudentRecord.FixedFileRoundTrip |
| backend/Student.java:229-231 | `escape` turns `"` into `\"`, but `extractString` stops at the first `"`, escaped or not. | The name `a"b` is written as `"name":"a\"b"` and read back as `a\`. | Escape backslashes too and read up to the first unescaped quote, so every name reads back. | not executed; follows from the two methods' text | StudentRecord.EscapedQuoteCutsField | StudentRecord.StringFieldFixedReads |

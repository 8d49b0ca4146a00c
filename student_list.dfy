/** The roster table of the frontend (frontend/src/StudentList.jsx): the subject
    columns, the client-side stats, the search filter, the column sort with its
    direction toggle, and the CSV export layout. */
module StudentList {
  import opened Wrappers
  import opened Text
  import opened Marks
  import opened Grading
  import opened Sorting
  import opened App

  // ---------------------------------------------------------------------------
  // Subject columns

  /** The subjects of one record: its marks' keys, none when it has no marks. */
  function SubjectsOf(s: Student): seq<string> {
    if s.marks.Some? then Keys(s.marks.value) else []
  }

  /** Some record among `ss` has a mark for `k`. */
  ghost predicate HasSubject(ss: seq<Student>, k: string) {
    exists i :: 0 <= i < |ss| && k in SubjectsOf(ss[i])
  }

  /** JavaScript's string `<` is a strict weak order (in fact a total one). */
  lemma {:induction false} LexStrictWeak(dom: seq<string>)
    ensures StrictWeakOn(LexLess, dom)
  {
    forall a | a in dom ensures !LexLess(a, a) {
      LexIrreflexive(a);
    }
    forall a, b, c | a in dom && b in dom && c in dom && LexLess(a, b) && LexLess(b, c)
      ensures LexLess(a, c)
    {
      LexTransitive(a, b, c);
    }
    forall a, b, c | a in dom && b in dom && c in dom && LexLess(a, c)
      ensures LexLess(a, b) || LexLess(b, c)
    {
      if b != a && b != c && !LexLess(a, b) {
        LexTotal(a, b);
        LexTransitive(b, a, c);
      }
    }
  }

  /** `getAllSubjects(students)`: every subject of every record with marks, added
      to a Set, then sorted. The result is strictly increasing (so without
      repetitions) and holds exactly the subjects some record has. */
  method AllSubjects(students: seq<Student>) returns (subjects: seq<string>)
    ensures forall i, j :: 0 <= i < j < |subjects| ==> LexLess(subjects[i], subjects[j])
    ensures forall k :: k in subjects <==> HasSubject(students, k)
  {
    var seen: seq<string> := [];
    var i := 0;
    while i < |students|
      invariant 0 <= i <= |students|
      invariant Distinct(seen)
      invariant forall k :: k in seen <==> HasSubject(students[..i], k)
    {
      HasSubjectSnoc(students, i);
      if students[i].marks.Some? {
        seen := AddAll(seen, Keys(students[i].marks.value));
      }
      i := i + 1;
    }
    assert students[..i] == students;
    subjects := InsertionSort(seen, LexLess);
    SortedSubjects(seen, subjects);
  }

  /** `forEach(sub => set.add(sub))`: each key not yet in the set is added once. */
  method AddAll(seen: seq<string>, keys: seq<string>) returns (r: seq<string>)
    requires Distinct(seen)
    ensures Distinct(r)
    ensures forall k :: k in r <==> k in seen || k in keys
  {
    r := seen;
    var j := 0;
    while j < |keys|
      invariant 0 <= j <= |keys|
      invariant Distinct(r)
      invariant forall k :: k in r <==> k in seen || k in keys[..j]
    {
      if keys[j] !in r {
        r := r + [keys[j]];
      }
      assert keys[..j + 1] == keys[..j] + [keys[j]];
      j := j + 1;
    }
    assert keys[..j] == keys;
  }

  /** One more record adds its own subjects to those of the records before it. */
  lemma {:induction false} HasSubjectSnoc(ss: seq<Student>, i: nat)
    requires i < |ss|
    ensures forall k :: HasSubject(ss[..i + 1], k) <==> HasSubject(ss[..i], k) || k in SubjectsOf(ss[i])
  {
    forall k ensures HasSubject(ss[..i + 1], k) <==> HasSubject(ss[..i], k) || k in SubjectsOf(ss[i]) {
      if HasSubject(ss[..i + 1], k) {
        var m :| 0 <= m < i + 1 && k in SubjectsOf(ss[..i + 1][m]);
        if m < i {
          assert ss[..i][m] == ss[..i + 1][m];
        }
      }
      if HasSubject(ss[..i], k) {
        var m :| 0 <= m < i && k in SubjectsOf(ss[..i][m]);
        assert ss[..i + 1][m] == ss[..i][m];
      }
      if k in SubjectsOf(ss[i]) {
        assert ss[..i + 1][i] == ss[i];
      }
    }
  }

  /** Sorting distinct subjects gives them in strictly increasing order, none lost
      and none added. */
  lemma {:induction false} SortedSubjects(seen: seq<string>, r: seq<string>)
    requires Distinct(seen) && r == InsertionSort(seen, LexLess)
    ensures forall i, j :: 0 <= i < j < |r| ==> LexLess(r[i], r[j])
    ensures forall k :: k in r <==> k in seen
  {
    LexStrictWeak(seen);
    SortIsSorted(seen, LexLess, seen);
    DistinctPermutation(seen, r);
    forall i, j | 0 <= i < j < |r| ensures LexLess(r[i], r[j]) {
      LexTotal(r[i], r[j]);
    }
    forall k ensures k in r <==> k in seen {
      assert k in r <==> k in multiset(r);
      assert k in seen <==> k in multiset(seen);
    }
  }

  // ---------------------------------------------------------------------------
  // Client-side stats

  /** `calculateClientSideStats(marks)`, this file's own copy of the calculator. */
  function ClientSideStats(marks: Option<seq<Entry<real>>>): (r: Stats)
    ensures r.grade != ""
  {
    if marks.None? || marks.value == [] then Stats(0.0, "F")
    else
      var percentage := Round2(SumReal(marks.value) / |marks.value| as real);
      var grade :=
        if percentage >= 90.0 then "A+"
        else if percentage >= 80.0 then "A"
        else if percentage >= 70.0 then "B"
        else if percentage >= 60.0 then "C"
        else if percentage >= 50.0 then "D"
        else "F";
      Stats(percentage, grade)
  }

  /** The table's calculator agrees with the dashboard's on every input. */
  lemma {:induction false} ClientSideStatsAgrees(marks: Option<seq<Entry<real>>>)
    ensures ClientSideStats(marks) == CalculateStats(marks)
  {
  }

  // ---------------------------------------------------------------------------
  // Sort direction

  /** The sort state: the column (a field name or a subject), its direction, and
      whether the column is a subject. */
  datatype SortConfig = SortConfig(key: Option<string>, ascending: bool, isSubject: bool)

  const InitialSort: SortConfig := SortConfig(None, true, false)

  /** `requestSort(key, isSubject)`: a click on a column sorts by it, descending when
      it was already the ascending column and ascending otherwise. */
  function RequestSort(cfg: SortConfig, key: string, isSubject: bool): (r: SortConfig)
    ensures r.key == Some(key) && r.isSubject == isSubject
    ensures !r.ascending <==> cfg.key == Some(key) && cfg.ascending
  {
    var ascending := !(cfg.key == Some(key) && cfg.ascending);
    SortConfig(Some(key), ascending, isSubject)
  }

  /** Clicking a column twice more after clicking it returns to the same state:
      the direction alternates. */
  lemma {:induction false} RequestSortAlternates(cfg: SortConfig, key: string, isSubject: bool)
    ensures var once := RequestSort(cfg, key, isSubject);
      var twice := RequestSort(once, key, isSubject);
      twice.ascending == !once.ascending && RequestSort(twice, key, isSubject) == once
  {
  }

  // ---------------------------------------------------------------------------
  // The processed view

  /** The table's backfill: a missing percentage or grade is filled in from the
      marks, an existing one is kept. */
  function BackfillMissing(s: Student): (r: Student)
    ensures HasStats(r)
    ensures r.rollNumber == s.rollNumber && r.name == s.name && r.course == s.course && r.marks == s.marks
    ensures PctTruthy(s.percentage) ==> r.percentage == s.percentage
    ensures !PctTruthy(s.percentage) ==> r.percentage == PctText(ClientSideStats(s.marks).percentage)
    ensures s.grade != "" ==> r.grade == s.grade
    ensures s.grade == "" ==> r.grade == ClientSideStats(s.marks).grade
  {
    if !PctTruthy(s.percentage) || s.grade == "" then
      var st := ClientSideStats(s.marks);
      s.(percentage := if PctTruthy(s.percentage) then s.percentage else PctText(st.percentage),
         grade := if s.grade != "" then s.grade else st.grade)
    else s
  }

  function BackfillMissingAll(ss: seq<Student>): (r: seq<Student>)
    ensures |r| == |ss|
    ensures forall i :: 0 <= i < |ss| ==> r[i] == BackfillMissing(ss[i])
  {
    seq(|ss|, i requires 0 <= i < |ss| => BackfillMissing(ss[i]))
  }

  /** `(s.rollNumber || '').toString()`: roll 0 searches as the empty text. */
  function RollText(roll: int): string {
    if roll == 0 then "" else IntToString(roll)
  }

  /** The search: the lower-cased term occurs in the lower-cased name, the
      lower-cased course, the roll number's text, or a present grade lower-cased. */
  predicate Matches(term: string, s: Student) {
    var t := ToLower(term);
    Contains(ToLower(s.name), t) || Contains(ToLower(s.course), t)
    || Contains(RollText(s.rollNumber), t) || (s.grade != "" && Contains(ToLower(s.grade), t))
  }

  function MatchesTerm(term: string): Student -> bool {
    s => Matches(term, s)
  }

  /** The records the table shows before sorting: all backfilled records when the
      search term is empty, otherwise those matching it, in their original order. */
  function Visible(students: seq<Student>, term: string): seq<Student> {
    var items := BackfillMissingAll(students);
    if term != "" then Filter(items, MatchesTerm(term)) else items
  }

  /** An empty search keeps every record. */
  lemma {:induction false} VisibleAll(students: seq<Student>)
    ensures Visible(students, "") == BackfillMissingAll(students)
  {
  }

  /** A non-empty search keeps exactly the matching records. */
  lemma {:induction false} VisibleMatches(students: seq<Student>, term: string, s: Student)
    requires term != ""
    ensures s in Visible(students, term) <==> s in BackfillMissingAll(students) && Matches(term, s)
  {
  }

  /** The kept records keep their order: a record appended to the roster is
      appended to the view when it matches, and the view is otherwise the same. */
  lemma {:induction false} VisibleAppend(students: seq<Student>, s: Student, term: string)
    requires term != ""
    ensures Visible(students + [s], term) ==
      Visible(students, term) + (if Matches(term, BackfillMissing(s)) then [BackfillMissing(s)] else [])
  {
    assert BackfillMissingAll(students + [s]) == BackfillMissingAll(students) + [BackfillMissing(s)];
    FilterAppend(BackfillMissingAll(students), [BackfillMissing(s)], MatchesTerm(term));
    assert [BackfillMissing(s)][1..] == [];
  }

  /** What the comparator compares. */
  datatype SortKey = Num(x: real) | Str(s: string) | Undef

  /** The value a record is sorted by: a subject's score (a missing one counting as
      0), the parsed percentage (0 when unparsable), the roll number, or the
      lower-cased name, course or grade; any other field is undefined. */
  function SortValue(key: string, isSubject: bool, s: Student): SortKey {
    if isSubject then
      Num(if s.marks.Some? && Get(s.marks.value, key).Some? then Get(s.marks.value, key).value else 0.0)
    else if key == "percentage" then Num(ParsePct(s.percentage))
    else if key == "rollNumber" then Num(s.rollNumber as real)
    else if key == "name" then Str(ToLower(s.name))
    else if key == "course" then Str(ToLower(s.course))
    else if key == "grade" then Str(ToLower(s.grade))
    else Undef
  }

  /** The comparator's `<`: numbers numerically, strings by character code;
      `undefined` is never less than anything. */
  predicate Less(u: SortKey, v: SortKey) {
    if u.Num? && v.Num? then u.x < v.x
    else if u.Str? && v.Str? then LexLess(u.s, v.s)
    else false
  }

  /** The comparator handed to `items.sort`: -1, 1 or 0, with the signs swapped when
      descending. */
  function Comparator(cfg: SortConfig, a: Student, b: Student): (c: int)
    requires cfg.key.Some?
    ensures c == -1 || c == 0 || c == 1
  {
    var u := SortValue(cfg.key.value, cfg.isSubject, a);
    var v := SortValue(cfg.key.value, cfg.isSubject, b);
    if Less(u, v) then (if cfg.ascending then -1 else 1)
    else if Less(v, u) then (if cfg.ascending then 1 else -1)
    else 0
  }

  /** Descending order is ascending order negated. */
  lemma {:induction false} DescendingNegates(cfg: SortConfig, a: Student, b: Student)
    requires cfg.key.Some?
    ensures Comparator(cfg.(ascending := false), a, b) == -Comparator(cfg.(ascending := true), a, b)
  {
    var u := SortValue(cfg.key.value, cfg.isSubject, a);
    var v := SortValue(cfg.key.value, cfg.isSubject, b);
    if Less(u, v) && Less(v, u) {
      LessTransitive(u, v, u);
      LessIrreflexive(u);
    }
  }

  /** `a` is placed before `b` by the comparator. */
  function Order(cfg: SortConfig): (Student, Student) -> bool
    requires cfg.key.Some?
  {
    (a, b) => Comparator(cfg, a, b) < 0
  }

  /** For a fixed column every record yields the same kind of value. */
  lemma {:induction false} SameKind(key: string, isSubject: bool, a: Student, b: Student)
    ensures SortValue(key, isSubject, a).Num? == SortValue(key, isSubject, b).Num?
    ensures SortValue(key, isSubject, a).Str? == SortValue(key, isSubject, b).Str?
  {
  }

  lemma {:induction false} LessIrreflexive(u: SortKey)
    ensures !Less(u, u)
  {
    if u.Str? {
      LexIrreflexive(u.s);
    }
  }

  lemma {:induction false} LessTransitive(u: SortKey, v: SortKey, w: SortKey)
    requires Less(u, v) && Less(v, w)
    ensures Less(u, w)
  {
    if u.Str? {
      LexTransitive(u.s, v.s, w.s);
    }
  }

  /** Values of one kind that are not ordered either way are interchangeable. */
  lemma {:induction false} LessNegTransitive(u: SortKey, v: SortKey, w: SortKey)
    requires u.Num? == v.Num? == w.Num? && u.Str? == v.Str? == w.Str?
    requires Less(u, w)
    ensures Less(u, v) || Less(v, w)
  {
    if u.Str? && v.s != u.s && v.s != w.s && !LexLess(u.s, v.s) {
      LexTotal(u.s, v.s);
      LexTransitive(v.s, u.s, w.s);
    }
  }

  /** The comparator puts `a` first exactly when its value is less, or greater
      when descending. */
  lemma {:induction false} OrderDirected(cfg: SortConfig, a: Student, b: Student)
    requires cfg.key.Some?
    ensures var u := SortValue(cfg.key.value, cfg.isSubject, a);
      var v := SortValue(cfg.key.value, cfg.isSubject, b);
      Order(cfg)(a, b) <==> if cfg.ascending then Less(u, v) else Less(v, u)
  {
    var u := SortValue(cfg.key.value, cfg.isSubject, a);
    var v := SortValue(cfg.key.value, cfg.isSubject, b);
    if Less(u, v) && Less(v, u) {
      LessTransitive(u, v, u);
      LessIrreflexive(u);
    }
  }

  lemma {:induction false} OrderStrictWeak(cfg: SortConfig, dom: seq<Student>)
    requires cfg.key.Some?
    ensures StrictWeakOn(Order(cfg), dom)
  {
    var key, sub := cfg.key.value, cfg.isSubject;
    var lt := Order(cfg);
    forall a | a in dom ensures !lt(a, a) {
      OrderDirected(cfg, a, a);
      LessIrreflexive(SortValue(key, sub, a));
    }
    forall a, b, c | a in dom && b in dom && c in dom && lt(a, b) && lt(b, c) ensures lt(a, c) {
      var u, v, w := SortValue(key, sub, a), SortValue(key, sub, b), SortValue(key, sub, c);
      OrderDirected(cfg, a, b);
      OrderDirected(cfg, b, c);
      OrderDirected(cfg, a, c);
      if cfg.ascending {
        LessTransitive(u, v, w);
      } else {
        LessTransitive(w, v, u);
      }
    }
    forall a, b, c | a in dom && b in dom && c in dom && lt(a, c) ensures lt(a, b) || lt(b, c) {
      var u, v, w := SortValue(key, sub, a), SortValue(key, sub, b), SortValue(key, sub, c);
      OrderDirected(cfg, a, b);
      OrderDirected(cfg, b, c);
      OrderDirected(cfg, a, c);
      SameKind(key, sub, a, b);
      SameKind(key, sub, a, c);
      if cfg.ascending {
        LessNegTransitive(u, v, w);
      } else {
        LessNegTransitive(w, v, u);
      }
    }
  }

  /** `processedStudents`: backfill, filter when a search term is set, then sort by
      the comparator when a column is chosen. The result is a rearrangement of the
      visible records; with no column it is exactly them; with a column it is in
      comparator order, and records the comparator ties keep their relative order. */
  method ProcessStudents(students: seq<Student>, cfg: SortConfig, searchTerm: string) returns (items: seq<Student>)
    ensures multiset(items) == multiset(Visible(students, searchTerm))
    ensures cfg.key.None? ==> items == Visible(students, searchTerm)
    ensures cfg.key.Some? ==> SortedBy(Order(cfg), items)
    ensures cfg.key.Some? ==>
      forall y :: y in items ==> Ties(items, y, Order(cfg)) == Ties(Visible(students, searchTerm), y, Order(cfg))
  {
    items := BackfillMissingAll(students);
    if searchTerm != "" {
      items := Filter(items, MatchesTerm(searchTerm));
    }
    if cfg.key.Some? {
      var visible := items;
      items := InsertionSort(visible, Order(cfg));
      OrderStrictWeak(cfg, visible);
      SortIsSorted(visible, Order(cfg), visible);
      forall y | y in items ensures Ties(items, y, Order(cfg)) == Ties(visible, y, Order(cfg)) {
        assert y in multiset(visible);
        SortIsStable(visible, y, Order(cfg), visible);
      }
    }
  }

  /** Sorted by a subject column: no record is placed before one with a lower score,
      a record lacking the subject counting as 0. */
  lemma {:induction false} SubjectSortOrder(items: seq<Student>, subject: string, i: int, j: int)
    requires SortedBy(Order(SortConfig(Some(subject), true, true)), items)
    requires 0 <= i < j < |items|
    ensures SortValue(subject, true, items[i]).x <= SortValue(subject, true, items[j]).x
  {
    assert !Order(SortConfig(Some(subject), true, true))(items[j], items[i]);
  }

  // ---------------------------------------------------------------------------
  // CSV export

  /** How JavaScript prints the numbers of a row, which the model leaves open:
      `number(x)` is the text of the number x, and `fixed(x)` the two-decimal
      text that `toFixed(2)` made for a percentage of value x. */
  datatype NumberFormat = NumberFormat(number: real -> string, fixed: real -> string)

  /** Text that can neither end a CSV field or line nor open a quote. */
  predicate Plain(t: string) {
    ',' !in t && '"' !in t && '\n' !in t
  }

  /** Every number text is plain, as JavaScript's are. */
  ghost predicate PlainFormat(f: NumberFormat) {
    forall x :: Plain(f.number(x)) && Plain(f.fixed(x))
  }

  function CsvHeader(subjects: seq<string>): (h: seq<string>)
    ensures |h| == |subjects| + 6
  {
    ["Roll Number", "Name", "Course"] + subjects + ["Total", "Percentage", "Grade"]
  }

  /** `headers.join(",")` */
  function HeaderLine(subjects: seq<string>): string {
    Join(CsvHeader(subjects), ',')
  }

  /** `s.marks || {}` */
  function MarksOf(s: Student): seq<Entry<real>> {
    if s.marks.Some? then s.marks.value else []
  }

  /** `marks[sub] || 0` */
  function ScoreOr0(marks: seq<Entry<real>>, sub: string): real {
    if Get(marks, sub).Some? then Get(marks, sub).value else 0.0
  }

  /** `s.percentage ? s.percentage + '%' : '0%'` */
  function PercentField(p: Pct, f: NumberFormat): string {
    match p
    case NoPct => "0%"
    case PctNum(x) => if x != 0.0 then f.number(x) + "%" else "0%"
    case PctText(x) => f.fixed(x) + "%"
  }

  /** The fields of one exported row before they are joined: roll, quoted name and
      course, the score of every subject column, the total of the marks, the
      percentage or "0%", the grade. */
  function CsvFields(s: Student, subjects: seq<string>, f: NumberFormat): (row: seq<string>)
    ensures |row| == |CsvHeader(subjects)|
  {
    var marks := MarksOf(s);
    [f.number(s.rollNumber as real), "\"" + s.name + "\"", "\"" + s.course + "\""]
    + ScoreFields(marks, subjects, f)
    + [f.number(SumReal(marks)), PercentField(s.percentage, f), s.grade]
  }

  /** `...allSubjects.map(sub => marks[sub] || 0)` */
  function ScoreFields(marks: seq<Entry<real>>, subjects: seq<string>, f: NumberFormat): (r: seq<string>)
    ensures |r| == |subjects|
  {
    seq(|subjects|, j requires 0 <= j < |subjects| => f.number(ScoreOr0(marks, subjects[j])))
  }

  /** One exported row: `[...].join(",")`. */
  function CsvRow(s: Student, subjects: seq<string>, f: NumberFormat): string {
    Join(CsvFields(s, subjects, f), ',')
  }

  /** The header line followed by one row per record. */
  function CsvLines(students: seq<Student>, subjects: seq<string>, f: NumberFormat): (lines: seq<string>)
    ensures |lines| == |students| + 1
  {
    [HeaderLine(subjects)] + seq(|students|, i requires 0 <= i < |students| => CsvRow(students[i], subjects, f))
  }

  /** `downloadCSV(students, allSubjects)`: nothing for an empty list, otherwise the
      lines joined by line breaks. */
  function DownloadCsv(students: seq<Student>, subjects: seq<string>, f: NumberFormat): (r: Option<string>)
    ensures r.None? <==> students == []
  {
    if students == [] then None else Some(Join(CsvLines(students, subjects, f), '\n'))
  }

  // ---------------------------------------------------------------------------
  // Reading the CSV text back

  /** The quote state after reading `s` from state `quoted`: every double quote
      toggles between quoted and unquoted text, so the escaped quote `""` of
      section 2 of RFC 4180 leaves the state as it was. */
  function After(s: string, quoted: bool): bool {
    if s == [] then quoted else After(s[1..], if s[0] == '"' then !quoted else quoted)
  }

  /** Reading `s` from state `quoted` meets no comma outside quotes. */
  predicate NoTopComma(s: string, quoted: bool) {
    s == [] || ((s[0] != ',' || quoted) && NoTopComma(s[1..], if s[0] == '"' then !quoted else quoted))
  }

  /** A field that a CSV reader takes whole: it holds no comma outside quotes and
      leaves no quote open. */
  predicate Closed(s: string) {
    NoTopComma(s, false) && !After(s, false)
  }

  /** The fields of one CSV line as a reader of RFC 4180 finds them: the line is cut
      at the commas outside quotes. The fields are kept as written, quotes
      included. */
  function CsvSplit(line: string, quoted: bool): (fields: seq<string>)
    ensures |fields| >= 1
  {
    if line == [] then [""]
    else if line[0] == ',' && !quoted then [""] + CsvSplit(line[1..], false)
    else
      Prepend([line[0]], CsvSplit(line[1..], if line[0] == '"' then !quoted else quoted))
  }

  /** `x` put in front of the first of `fields`. */
  function Prepend(x: string, fields: seq<string>): (r: seq<string>)
    requires |fields| >= 1
    ensures |r| == |fields| && r[0] == x + fields[0] && r[1..] == fields[1..]
  {
    [x + fields[0]] + fields[1..]
  }

  /** Prepending twice is prepending the concatenation. */
  lemma {:induction false} PrependTwice(c: string, x: string, fields: seq<string>)
    requires |fields| >= 1
    ensures Prepend(c, Prepend(x, fields)) == Prepend(c + x, fields)
  {
    assert c + (x + fields[0]) == c + x + fields[0];
  }

  /** Reading never loses text: the fields joined by commas are the line. */
  lemma {:induction false} CsvSplitLossless(line: string, quoted: bool)
    ensures Join(CsvSplit(line, quoted), ',') == line
  {
    if line == [] {
    } else if line[0] == ',' && !quoted {
      var rest := CsvSplit(line[1..], false);
      CsvSplitLossless(line[1..], false);
      assert CsvSplit(line, quoted) == [""] + rest;
      JoinAppend([""], rest, ',');
      assert [','] + line[1..] == line;
    } else {
      var rest := CsvSplit(line[1..], if line[0] == '"' then !quoted else quoted);
      CsvSplitLossless(line[1..], if line[0] == '"' then !quoted else quoted);
      assert CsvSplit(line, quoted) == [[line[0]] + rest[0]] + rest[1..];
      JoinHead(rest, line[0]);
      assert [line[0]] + line[1..] == line;
    }
  }

  /** Putting a character in front of the first piece puts it in front of the
      joined text. */
  lemma {:induction false} JoinHead(parts: seq<string>, c: char)
    requires |parts| >= 1
    ensures Join([[c] + parts[0]] + parts[1..], ',') == [c] + Join(parts, ',')
  {
    if |parts| > 1 {
      JoinAppend([parts[0]], parts[1..], ',');
      assert [parts[0]] + parts[1..] == parts;
      JoinAppend([[c] + parts[0]], parts[1..], ',');
    }
  }

  /** Reading `x + y` is reading x, then y from the state x leaves. */
  lemma {:induction false} ReadAppend(x: string, y: string, quoted: bool)
    ensures After(x + y, quoted) == After(y, After(x, quoted))
    ensures NoTopComma(x + y, quoted) <==> NoTopComma(x, quoted) && NoTopComma(y, After(x, quoted))
  {
    if x == [] {
      assert x + y == y;
    } else {
      assert (x + y)[0] == x[0];
      assert (x + y)[1..] == x[1..] + y;
      ReadAppend(x[1..], y, if x[0] == '"' then !quoted else quoted);
    }
  }

  /** Text with no comma outside quotes stays within the first field. */
  lemma {:induction false} CsvSplitPrefix(x: string, y: string, quoted: bool)
    requires NoTopComma(x, quoted)
    ensures CsvSplit(x + y, quoted) == Prepend(x, CsvSplit(y, After(x, quoted)))
  {
    if x == [] {
      var rest := CsvSplit(y, quoted);
      assert x + y == y && x + rest[0] == rest[0];
      assert [rest[0]] + rest[1..] == rest;
    } else {
      var q := if x[0] == '"' then !quoted else quoted;
      CsvSplitPrefix(x[1..], y, q);
      assert (x + y)[0] == x[0] && (x + y)[1..] == x[1..] + y;
      PrependTwice([x[0]], x[1..], CsvSplit(y, After(x, quoted)));
      assert [x[0]] + x[1..] == x;
    }
  }

  /** A closed field followed by a comma is read as one field. */
  lemma {:induction false} CsvSplitClosed(a: string, b: string)
    requires Closed(a)
    ensures CsvSplit(a + [','] + b, false) == [a] + CsvSplit(b, false)
  {
    CsvSplitPrefix(a, [','] + b, false);
    assert a + [','] + b == a + ([','] + b);
    assert ([','] + b)[1..] == b;
    assert a + "" == a;
  }

  /** Reading a line joined from closed fields gives back those fields. */
  lemma {:induction false} CsvSplitJoin(fields: seq<string>)
    requires |fields| >= 1
    requires forall i :: 0 <= i < |fields| ==> Closed(fields[i])
    ensures CsvSplit(Join(fields, ','), false) == fields
  {
    if |fields| == 1 {
      CsvSplitPrefix(fields[0], "", false);
      assert fields[0] + "" == fields[0];
    } else {
      JoinAppend([fields[0]], fields[1..], ',');
      assert [fields[0]] + fields[1..] == fields;
      CsvSplitClosed(fields[0], Join(fields[1..], ','));
      CsvSplitJoin(fields[1..]);
    }
  }

  /** Text free of commas and quotes is read through unchanged in either state. */
  lemma {:induction false} PlainRead(t: string, quoted: bool)
    requires ',' !in t && '"' !in t
    ensures NoTopComma(t, quoted) && After(t, quoted) == quoted
  {
    if t != [] {
      assert forall c :: c in t[1..] ==> c in t;
      PlainRead(t[1..], quoted);
    }
  }

  /** Inside quotes, quote-free text is read through whatever commas it holds. */
  lemma {:induction false} QuotedRead(t: string)
    requires '"' !in t
    ensures NoTopComma(t, true) && After(t, true)
  {
    if t != [] {
      assert forall c :: c in t[1..] ==> c in t;
      QuotedRead(t[1..]);
    }
  }

  /** A quote-free text between quotes is a closed field, commas and all. */
  lemma {:induction false} QuotedFieldClosed(t: string)
    requires '"' !in t
    ensures Closed("\"" + t + "\"")
  {
    QuotedRead(t);
    ReadAppend("\"", t, false);
    ReadAppend("\"" + t, "\"", false);
  }

  /** A record whose row keeps its columns: quote-free, single-line name and course,
      and a plain grade. A comma inside the quoted name or course is harmless. */
  predicate RowSafe(s: Student) {
    '"' !in s.name && '\n' !in s.name && '"' !in s.course && '\n' !in s.course && Plain(s.grade)
  }

  /** The row text of a safe record is read back as its fields, and is one line. */
  lemma {:induction false} CsvRowFields(s: Student, subjects: seq<string>, f: NumberFormat)
    requires PlainFormat(f) && RowSafe(s)
    ensures CsvSplit(CsvRow(s, subjects, f), false) == CsvFields(s, subjects, f)
    ensures '\n' !in CsvRow(s, subjects, f)
  {
    var fields := CsvFields(s, subjects, f);
    forall i | 0 <= i < |fields| ensures Closed(fields[i]) && '\n' !in fields[i] {
      if i == 1 {
        QuotedFieldClosed(s.name);
      } else if i == 2 {
        QuotedFieldClosed(s.course);
      } else {
        assert Plain(fields[i]) by {
          if i == |fields| - 2 {
            match s.percentage
            case NoPct =>
            case PctNum(x) => assert Plain(f.number(x));
            case PctText(x) => assert Plain(f.fixed(x));
          }
        }
        PlainRead(fields[i], false);
      }
    }
    CsvSplitJoin(fields);
    JoinHasNo(fields, ',', '\n');
  }

  /** With plain subject names the header line is read back as the header. */
  lemma {:induction false} CsvHeaderFields(subjects: seq<string>)
    requires forall j :: 0 <= j < |subjects| ==> Plain(subjects[j])
    ensures CsvSplit(HeaderLine(subjects), false) == CsvHeader(subjects)
    ensures '\n' !in HeaderLine(subjects)
  {
    var h := CsvHeader(subjects);
    forall i | 0 <= i < |h| ensures Closed(h[i]) && '\n' !in h[i] {
      assert Plain(h[i]);
      PlainRead(h[i], false);
    }
    CsvSplitJoin(h);
    JoinHasNo(h, ',', '\n');
  }

  /** Every name and course is quote-free and single-line, every grade and subject
      plain. */
  predicate ExportSafe(students: seq<Student>, subjects: seq<string>) {
    && (forall i :: 0 <= i < |students| ==> RowSafe(students[i]))
    && (forall j :: 0 <= j < |subjects| ==> Plain(subjects[j]))
  }

  /** Cutting a safe export at its line breaks gives the header line and one row
      per record. */
  lemma {:induction false} CsvLinesSplit(students: seq<Student>, subjects: seq<string>, f: NumberFormat)
    requires students != [] && PlainFormat(f) && ExportSafe(students, subjects)
    ensures SplitAll(DownloadCsv(students, subjects, f).value, '\n') == CsvLines(students, subjects, f)
  {
    var lines := CsvLines(students, subjects, f);
    forall i | 0 <= i < |lines| ensures '\n' !in lines[i] {
      if i == 0 {
        CsvHeaderFields(subjects);
      } else {
        CsvRowFields(students[i - 1], subjects, f);
      }
    }
    SplitJoin(lines, '\n');
  }

  /** In the exported text of a safe roster, read line by line as RFC 4180 reads
      it, every row has as many fields as the header, the column headed by a
      subject holds that subject's score (0 when missing), the Total column holds
      the sum of the row's marks, and the Name column holds the quoted name. */
  lemma {:induction false} CsvColumnsAlign(students: seq<Student>, subjects: seq<string>, f: NumberFormat, i: int, j: int)
    requires PlainFormat(f) && ExportSafe(students, subjects)
    requires 0 <= i < |students| && 0 <= j < |subjects|
    ensures var lines := SplitAll(DownloadCsv(students, subjects, f).value, '\n');
      var marks := MarksOf(students[i]);
      && |lines| == |students| + 1
      && |CsvSplit(lines[i + 1], false)| == |CsvSplit(lines[0], false)| == |subjects| + 6
      && CsvSplit(lines[0], false)[3 + j] == subjects[j]
      && CsvSplit(lines[i + 1], false)[3 + j] == f.number(ScoreOr0(marks, subjects[j]))
      && CsvSplit(lines[0], false)[3 + |subjects|] == "Total"
      && CsvSplit(lines[i + 1], false)[3 + |subjects|] == f.number(SumReal(marks))
      && CsvSplit(lines[i + 1], false)[1] == "\"" + students[i].name + "\""
  {
    CsvLinesSplit(students, subjects, f);
    var lines := CsvLines(students, subjects, f);
    assert lines[0] == HeaderLine(subjects);
    assert lines[i + 1] == CsvRow(students[i], subjects, f);
    CsvHeaderFields(subjects);
    CsvRowFields(students[i], subjects, f);
    CsvHeaderAt(subjects, j);
    CsvFieldsAt(students[i], subjects, f, j);
  }

  /** Where the subject names and "Total" sit in the header. */
  lemma {:induction false} CsvHeaderAt(subjects: seq<string>, j: int)
    requires 0 <= j < |subjects|
    ensures CsvHeader(subjects)[3 + j] == subjects[j]
    ensures CsvHeader(subjects)[3 + |subjects|] == "Total"
  {
    var front := ["Roll Number", "Name", "Course"];
    var back := ["Total", "Percentage", "Grade"];
    assert CsvHeader(subjects) == front + subjects + back;
  }

  /** Where the subject scores, the total and the name sit among a row's fields. */
  lemma {:induction false} CsvFieldsAt(s: Student, subjects: seq<string>, f: NumberFormat, j: int)
    requires 0 <= j < |subjects|
    ensures CsvFields(s, subjects, f)[3 + j] == f.number(ScoreOr0(MarksOf(s), subjects[j]))
    ensures CsvFields(s, subjects, f)[3 + |subjects|] == f.number(SumReal(MarksOf(s)))
    ensures CsvFields(s, subjects, f)[1] == "\"" + s.name + "\""
  {
    var scores := ScoreFields(MarksOf(s), subjects, f);
    var front := [f.number(s.rollNumber as real), "\"" + s.name + "\"", "\"" + s.course + "\""];
    var back := [f.number(SumReal(MarksOf(s))), PercentField(s.percentage, f), s.grade];
    var fields := front + scores + back;
    assert CsvFields(s, subjects, f) == fields;
    assert fields[3 + j] == scores[j];
    assert fields[3 + |subjects|] == back[0];
  }

  /** A subject name holding a comma is written into the header unquoted, so the
      header line reads as one field more than every row. */
  lemma {:induction false} CsvSubjectCommaShifts(a: string, b: string, s: Student, f: NumberFormat)
    requires Plain(a) && Plain(b) && PlainFormat(f) && RowSafe(s)
    ensures |CsvSplit(HeaderLine([a + "," + b]), false)| == 8
    ensures |CsvSplit(CsvRow(s, [a + "," + b], f), false)| == 7
  {
    var wide := ["Roll Number", "Name", "Course", a, b, "Total", "Percentage", "Grade"];
    HeaderCommaSplits(a, b);
    forall k | 0 <= k < |wide| ensures Closed(wide[k]) {
      assert ',' !in wide[k] && '"' !in wide[k];
      PlainRead(wide[k], false);
    }
    CsvSplitJoin(wide);
    CsvRowFields(s, [a + "," + b], f);
  }

  /** The header for a subject `a,b` is, as text, the header for the two subjects
      a and b. */
  lemma {:induction false} HeaderCommaSplits(a: string, b: string)
    ensures HeaderLine([a + "," + b])
      == Join(["Roll Number", "Name", "Course", a, b, "Total", "Percentage", "Grade"], ',')
  {
    var pre := ["Roll Number", "Name", "Course"];
    var post := ["Total", "Percentage", "Grade"];
    assert CsvHeader([a + "," + b]) == pre + ([a + "," + b] + post);
    JoinAppend(pre, [a + "," + b] + post, ',');
    JoinAppend([a + "," + b], post, ',');
    JoinAppend([a, b], post, ',');
    JoinAppend(pre, [a, b] + post, ',');
    assert pre + ([a, b] + post) == ["Roll Number", "Name", "Course", a, b, "Total", "Percentage", "Grade"];
    assert Join([a, b], ',') == a + "," + b;
  }

  /** A name holding one double quote is written between quotes without escaping,
      so the quote left open swallows every later comma of the row: the row reads
      as two fields, the roll and the rest. */
  lemma {:induction false} CsvNameQuoteMerges(s: Student, subjects: seq<string>, f: NumberFormat, a: string, b: string)
    requires s.name == a + "\"" + b && Plain(a) && Plain(b)
    requires Plain(s.course) && Plain(s.grade) && PlainFormat(f)
    ensures |CsvSplit(CsvRow(s, subjects, f), false)| == 2
  {
    var fields := CsvFields(s, subjects, f);
    var tail := Join(fields[3..], ',');
    var rest := fields[1] + [','] + fields[2] + [','] + tail;
    TailQuoteFree(s, subjects, f);
    QuotedRead(tail);
    OddQuoteOpens(a, b);
    QuotedReopens(s.course);
    StaysOpen(fields[1], fields[2], tail);
    JoinAfterFirst(fields);
    assert Closed(fields[0]) by { PlainRead(fields[0], false); }
    CsvSplitClosed(fields[0], rest);
    CsvSplitPrefix(rest, "", false);
    assert rest + "" == rest;
    assert |CsvSplit(rest, false)| == 1;
  }

  /** Every field after the course is quote-free when the grade and the number
      texts are. */
  lemma {:induction false} TailQuoteFree(s: Student, subjects: seq<string>, f: NumberFormat)
    requires Plain(s.grade) && PlainFormat(f)
    ensures '"' !in Join(CsvFields(s, subjects, f)[3..], ',')
  {
    var fields := CsvFields(s, subjects, f);
    forall k | 0 <= k < |fields[3..]| ensures '"' !in fields[3..][k] {
      assert Plain(fields[3 + k]) by {
        if 3 + k == |fields| - 2 {
          match s.percentage
          case NoPct =>
          case PctNum(x) => assert Plain(f.number(x));
          case PctText(x) => assert Plain(f.fixed(x));
        }
      }
    }
    JoinHasNo(fields[3..], ',', '"');
  }

  /** `"a"b"` holds no comma and leaves a quote open. */
  lemma {:induction false} OddQuoteOpens(a: string, b: string)
    requires Plain(a) && Plain(b)
    ensures var t := "\"" + (a + "\"" + b) + "\"";
      NoTopComma(t, false) && After(t, false)
  {
    PlainRead(a, true);
    PlainRead(b, false);
    ReadAppend("\"", a, false);
    ReadAppend("\"" + a, "\"", false);
    ReadAppend("\"" + a + "\"", b, false);
    ReadAppend("\"" + a + "\"" + b, "\"", false);
    assert "\"" + (a + "\"" + b) + "\"" == "\"" + a + "\"" + b + "\"";
  }

  /** From inside quotes, `"t"` closes the quote and opens it again. */
  lemma {:induction false} QuotedReopens(t: string)
    requires Plain(t)
    ensures NoTopComma("\"" + t + "\"", true) && After("\"" + t + "\"", true)
  {
    PlainRead(t, false);
    ReadAppend("\"", t, true);
    ReadAppend("\"" + t, "\"", true);
  }

  /** A field that leaves a quote open, a field read through inside quotes, and
      quote-free text: no comma between them is outside quotes. */
  lemma {:induction false} StaysOpen(x: string, y: string, z: string)
    requires NoTopComma(x, false) && After(x, false)
    requires NoTopComma(y, true) && After(y, true) && NoTopComma(z, true)
    ensures NoTopComma(x + [','] + y + [','] + z, false)
  {
    ReadAppend(x, [','], false);
    ReadAppend(x + [','], y, false);
    ReadAppend(x + [','] + y, [','], false);
    ReadAppend(x + [','] + y + [','], z, false);
  }

  /** A row of at least four fields is its first field, a comma, and the rest. */
  lemma {:induction false} JoinAfterFirst(fields: seq<string>)
    requires |fields| >= 4
    ensures Join(fields, ',') == fields[0] + [','] + (fields[1] + [','] + fields[2] + [','] + Join(fields[3..], ','))
  {
    JoinAppend([fields[1], fields[2]], fields[3..], ',');
    assert [fields[1], fields[2]] + fields[3..] == fields[1..];
    JoinAppend([fields[0]], fields[1..], ',');
    assert [fields[0]] + fields[1..] == fields;
  }
}

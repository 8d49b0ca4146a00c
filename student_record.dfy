/** The Java backend's student record (backend/Student.java): the record and its
    setters, the percentage and grade it reports, the line format of the roster
    file, and the JSON it writes and the hand-rolled field extractors that read
    request bodies. */
module StudentRecord {
  import opened Wrappers
  import opened Text
  import opened Seqs
  import opened Marks
  import opened Grading
  import App

  /** The fields of a `Student`: a Java `int` roll number, name, course, and the
      subject-to-score map, which may be null (None). */
  datatype Record = Record(
    rollNumber: int,
    name: string,
    course: string,
    subjectMarks: Option<seq<Entry<int>>>)

  // ---------------------------------------------------------------------------
  // Percentage and grade

  /** `getPercentage()`: 0 for a null or empty map; otherwise the `int` total,
      which wraps around as `IntStream.sum` does, divided by the number of
      subjects. */
  function Percentage(marks: Option<seq<Entry<int>>>): (p: real)
    ensures marks.None? || marks.value == [] ==> p == 0.0
    ensures marks.Some? && marks.value != [] ==>
      p * |marks.value| as real == Wrap32(SumInt(marks.value)) as real
  {
    if marks.None? || marks.value == [] then 0.0
    else Wrap32(SumInt(marks.value)) as real / |marks.value| as real
  }

  /** `getGrade()`: the grade ladder applied to the exact, unrounded percentage. */
  function Grade(marks: Option<seq<Entry<int>>>): string {
    LetterGrade(Percentage(marks))
  }

  /** While the total fits an `int`, the percentage is the exact mean of the
      scores. */
  lemma {:induction false} PercentageIsMean(m: seq<Entry<int>>)
    requires m != [] && InInt32(SumInt(m))
    ensures Percentage(Some(m)) == SumInt(m) as real / |m| as real
  {
    assert Wrap32(SumInt(m)) == SumInt(m);
  }

  /** Scores in [0, 100] whose total fits an `int` (any roster of fewer than 21
      million subjects) give a percentage in [0, 100]. */
  lemma {:induction false} PercentageInRange(m: seq<Entry<int>>)
    requires m != [] && InInt32(SumInt(m))
    requires forall i :: 0 <= i < |m| ==> 0 <= m[i].value <= 100
    ensures 0.0 <= Percentage(Some(m)) <= 100.0
  {
    PercentageIsMean(m);
    SumIntBounds(m, 0, 100);
    var n := |m| as real;
    var t := SumInt(m) as real;
    assert 0.0 <= t <= 100.0 * n;
    MeanBounds(t, n);
  }

  lemma {:induction false} MeanBounds(t: real, n: real)
    requires n > 0.0 && 0.0 <= t <= 100.0 * n
    ensures 0.0 <= t / n <= 100.0
  {
    var x := t / n;
    assert x * n == t;
  }

  /** Past 2^31 - 1 the total wraps: two subjects at the largest `int` score
      report a percentage of -1. */
  lemma {:induction false} PercentageWraps()
    ensures Percentage(Some([Entry("a", Int32Max), Entry("b", Int32Max)])) == -1.0
  {
    var m := [Entry("a", Int32Max), Entry("b", Int32Max)];
    assert m[..1] == [Entry("a", Int32Max)] && m[..1][..0] == [];
    assert SumInt(m[..1]) == Int32Max;
    assert SumInt(m) == 2 * Int32Max;
  }

  /** The same scores as the frontend holds them. */
  function AsReal(m: seq<Entry<int>>): (r: seq<Entry<real>>)
    ensures |r| == |m|
    ensures forall i :: 0 <= i < |m| ==> r[i] == Entry(m[i].key, m[i].value as real)
  {
    seq(|m|, i requires 0 <= i < |m| => Entry(m[i].key, m[i].value as real))
  }

  lemma {:induction false} SumAsReal(m: seq<Entry<int>>)
    ensures SumReal(AsReal(m)) == SumInt(m) as real
  {
    if m != [] {
      SumAsReal(m[..|m| - 1]);
      assert AsReal(m)[..|m| - 1] == AsReal(m[..|m| - 1]);
    }
  }

  /** The frontend's grade for the same scores is the ladder applied to the
      rounded percentage. */
  lemma {:induction false} FrontendGrade(m: seq<Entry<int>>)
    requires m != [] && InInt32(SumInt(m))
    ensures App.CalculateStats(Some(AsReal(m))).grade == LetterGrade(Round2(Percentage(Some(m))))
  {
    SumAsReal(m);
    assert App.Mean(AsReal(m)) == Percentage(Some(m));
  }

  /** The frontend grades the mean after rounding it to two decimals, the backend
      grades it exact. The two grades differ exactly when the mean lies less than
      half a hundredth below a threshold, and then the frontend's is the higher
      one. */
  lemma {:induction false} BackendGradeVersusFrontend(m: seq<Entry<int>>)
    requires m != [] && InInt32(SumInt(m))
    ensures App.CalculateStats(Some(AsReal(m))).grade != Grade(Some(m))
        <==> exists i :: 0 <= i < |Thresholds| && Thresholds[i] - 0.005 <= Percentage(Some(m)) < Thresholds[i]
    ensures Rank(Grade(Some(m))) <= Rank(App.CalculateStats(Some(AsReal(m))).grade)
  {
    FrontendGrade(m);
    RoundingChangesGrade(Percentage(Some(m)));
    RoundingNeverLowersGrade(Percentage(Some(m)));
  }

  /** One subject at 89 followed by subjects at 90. */
  function NearlyNinety(n: nat): (m: seq<Entry<int>>)
    ensures |m| == n
  {
    if n == 0 then [] else NearlyNinety(n - 1) + [Entry("s" , if n == 1 then 89 else 90)]
  }

  lemma {:induction false} NearlyNinetySum(n: nat)
    requires n >= 1
    ensures SumInt(NearlyNinety(n)) == 90 * n - 1
  {
    if n > 1 {
      NearlyNinetySum(n - 1);
      assert NearlyNinety(n)[..n - 1] == NearlyNinety(n - 1);
    } else {
      assert NearlyNinety(1)[..0] == [];
    }
  }

  /** With 200 such subjects the mean is 89.995: the frontend shows 90.00 and
      grade A+, the backend reports A. */
  lemma {:induction false} GradesDisagree()
    ensures Grade(Some(NearlyNinety(200))) == "A"
    ensures App.CalculateStats(Some(AsReal(NearlyNinety(200)))).grade == "A+"
  {
    var m := NearlyNinety(200);
    NearlyNinetySum(200);
    assert Percentage(Some(m)) == 89.995;
    FrontendGrade(m);
    RoundedReaches(89.995, 90.0);
  }

  // ---------------------------------------------------------------------------
  // Marks as text

  /** The two places marks are written as text: a roster-file line
      (`Math:90|Phy:80`) and the `marks` object of the JSON (`"Math":90,"Phy":80`). */
  datatype Format = FileFormat | JsonFormat

  function Separator(fmt: Format): char {
    if fmt == FileFormat then '|' else ','
  }

  /** One subject with its score. */
  function PieceText(fmt: Format, e: Entry<int>): string {
    if fmt == FileFormat then e.key + ":" + IntToString(e.value)
    else "\"" + e.key + "\":" + IntToString(e.value)
  }

  function Pieces(fmt: Format, m: seq<Entry<int>>): (ps: seq<string>)
    ensures |ps| == |m|
    ensures forall i :: 0 <= i < |m| ==> ps[i] == PieceText(fmt, m[i])
  {
    seq(|m|, i requires 0 <= i < |m| => PieceText(fmt, m[i]))
  }

  /** The pieces in map order, separated; nothing for an empty map. */
  function MarksText(fmt: Format, m: seq<Entry<int>>): string {
    if m == [] then "" else Join(Pieces(fmt, m), Separator(fmt))
  }

  /** The text grows by one piece per entry: what the loops of `toFileString` and
      `toJson` append. */
  lemma {:induction false} MarksTextSnoc(fmt: Format, m: seq<Entry<int>>, e: Entry<int>)
    ensures MarksText(fmt, m + [e]) ==
      (if m == [] then PieceText(fmt, e) else MarksText(fmt, m) + [Separator(fmt)] + PieceText(fmt, e))
  {
    var ps := Pieces(fmt, m + [e]);
    assert ps[..|m|] == Pieces(fmt, m);
    if m == [] {
      assert |ps| == 1;
    }
  }

  /** Subject names that survive being written and read back. */
  predicate KeyFits(fmt: Format, k: string) {
    if fmt == FileFormat then ':' !in k && '|' !in k && ',' !in k
    else ':' !in k && ',' !in k && '"' !in k && '}' !in k && Trimmed(k, Java)
  }

  // ---------------------------------------------------------------------------
  // Marks read back

  /** What reading one piece does: skip it (it does not split into exactly a key
      and a value), stop at it (its value is not an `int`: `parseInt` throws), or
      store the score under the key. */
  datatype Step = Skip | Stop | Keep(key: string, value: int)

  /** `kv = piece.split(":")`; the file format takes key and value as they are,
      the JSON reader removes the quotes from the key and trims both. */
  function ReadPiece(fmt: Format, piece: string): (r: Step)
    ensures r.Skip? <==> |JavaSplit(piece, ':')| != 2
    ensures r.Keep? ==> InInt32(r.value)
  {
    var kv := JavaSplit(piece, ':');
    if |kv| != 2 then Skip
    else
      var key := if fmt == FileFormat then kv[0] else JavaTrim(ReplaceChar(kv[0], '"', ""));
      var value := if fmt == FileFormat then kv[1] else JavaTrim(kv[1]);
      match ParseInt(value)
      case None => Stop
      case Some(v) => Keep(key, v)
  }

  /** Each piece read on its own. */
  function Steps(fmt: Format, pieces: seq<string>): (r: seq<Step>)
    ensures |r| == |pieces|
  {
    seq(|pieces|, i requires 0 <= i < |pieces| => ReadPiece(fmt, pieces[i]))
  }

  /** The map after applying the steps to `acc`: `Done` when every step was
      taken, `Failed` with the map as it stood at the first `Stop`. */
  datatype Outcome = Done(marks: seq<Entry<int>>) | Failed(marks: seq<Entry<int>>)

  function Collect(acc: seq<Entry<int>>, steps: seq<Step>): (r: Outcome)
    decreases |steps|
  {
    if steps == [] then Done(acc)
    else
      match steps[0]
      case Skip => Collect(acc, steps[1..])
      case Stop => Failed(acc)
      case Keep(k, v) => Collect(Put(acc, k, v), steps[1..])
  }

  /** Storing into a map keeps its keys distinct, so whatever is read is a map. */
  lemma {:induction false} CollectDistinct(acc: seq<Entry<int>>, steps: seq<Step>)
    requires DistinctKeys(acc)
    ensures DistinctKeys(Collect(acc, steps).marks)
    decreases |steps|
  {
    if steps != [] {
      match steps[0]
      case Skip => CollectDistinct(acc, steps[1..]);
      case Stop =>
      case Keep(k, v) =>
        PutKeepsKeysDistinct(acc, k, v);
        CollectDistinct(Put(acc, k, v), steps[1..]);
    }
  }

  /** Reading stops at the first piece whose value does not parse and keeps what
      the pieces before it stored. */
  lemma {:induction false} CollectStops(acc: seq<Entry<int>>, steps: seq<Step>, i: nat)
    requires i < |steps| && steps[i].Stop?
    requires forall j :: 0 <= j < i ==> !steps[j].Stop?
    ensures Collect(acc, steps) == Failed(Collect(acc, steps[..i]).marks)
    decreases i
  {
    if i > 0 {
      assert steps[..i][1..] == steps[1..][..i - 1];
      match steps[0]
      case Skip => CollectStops(acc, steps[1..], i - 1);
      case Keep(k, v) => CollectStops(Put(acc, k, v), steps[1..], i - 1);
    }
  }

  /** Without a `Stop` every step is taken. */
  lemma {:induction false} CollectCompletes(acc: seq<Entry<int>>, steps: seq<Step>)
    requires forall j :: 0 <= j < |steps| ==> !steps[j].Stop?
    ensures Collect(acc, steps).Done?
    decreases |steps|
  {
    if steps != [] {
      match steps[0]
      case Skip => CollectCompletes(acc, steps[1..]);
      case Keep(k, v) => CollectCompletes(Put(acc, k, v), steps[1..]);
    }
  }

  /** Storing every entry of `m`, in order. */
  function KeepAll(m: seq<Entry<int>>): (r: seq<Step>)
    ensures |r| == |m|
  {
    seq(|m|, i requires 0 <= i < |m| => Keep(m[i].key, m[i].value))
  }

  lemma {:induction false} NewKey(acc: seq<Entry<int>>, m: seq<Entry<int>>)
    requires m != [] && DistinctKeys(acc + m)
    ensures m[0].key !in Keys(acc)
  {
    forall j | 0 <= j < |acc| ensures Keys(acc)[j] != m[0].key {
      assert (acc + m)[j] == acc[j] && (acc + m)[|acc|] == m[0];
    }
  }

  /** Storing entries whose keys are new and distinct appends them. */
  lemma {:induction false} CollectKeepAll(acc: seq<Entry<int>>, m: seq<Entry<int>>)
    requires DistinctKeys(acc + m)
    ensures Collect(acc, KeepAll(m)) == Done(acc + m)
    decreases |m|
  {
    if m == [] {
      assert acc + m == acc;
    } else {
      KeepFirst(acc, m);
      CollectKeepAll(acc + [m[0]], m[1..]);
    }
  }

  /** The first entry is stored at the end of `acc`. */
  lemma {:induction false} KeepFirst(acc: seq<Entry<int>>, m: seq<Entry<int>>)
    requires m != [] && DistinctKeys(acc + m)
    ensures acc + [m[0]] + m[1..] == acc + m
    ensures Collect(acc, KeepAll(m)) == Collect(acc + [m[0]], KeepAll(m[1..]))
  {
    assert acc + [m[0]] + m[1..] == acc + m by {
      assert m == [m[0]] + m[1..];
    }
    assert m[0].key !in Keys(acc) by {
      NewKey(acc, m);
    }
    CollectKeepStep(acc, m);
  }

  lemma {:induction false} CollectKeepStep(acc: seq<Entry<int>>, m: seq<Entry<int>>)
    requires m != [] && m[0].key !in Keys(acc)
    ensures Collect(acc, KeepAll(m)) == Collect(acc + [m[0]], KeepAll(m[1..]))
  {
    assert KeepAll(m)[1..] == KeepAll(m[1..]);
  }

  lemma {:induction false} IntToStringFits(n: int)
    ensures ':' !in IntToString(n) && ',' !in IntToString(n) && '|' !in IntToString(n)
    ensures '"' !in IntToString(n) && '}' !in IntToString(n) && '{' !in IntToString(n)
    ensures Trimmed(IntToString(n), Java)
  {
    IntToStringChars(n);
  }

  lemma {:induction false} SplitKeyValue(k: string, vs: string)
    requires ':' !in k && ':' !in vs && vs != ""
    ensures JavaSplit(k + [':'] + vs, ':') == [k, vs]
  {
    SplitWithoutSeparator(vs, ':');
    SplitAfterPiece(k, vs, ':');
  }

  lemma {:induction false} UnquoteKey(k: string)
    requires '"' !in k && Trimmed(k, Java)
    ensures JavaTrim(ReplaceChar("\"" + k + "\"", '"', "")) == k
  {
    ReplaceCharAppend("\"" + k, "\"", '"', "");
    ReplaceCharAppend("\"", k, '"', "");
    assert ReplaceChar("\"", '"', "") == "";
    ReplaceCharAbsent(k, '"', "");
  }

  /** A written piece reads back as the entry it was written from. */
  lemma {:induction false} ReadPieceText(fmt: Format, e: Entry<int>)
    requires KeyFits(fmt, e.key) && InInt32(e.value)
    ensures ReadPiece(fmt, PieceText(fmt, e)) == Keep(e.key, e.value)
  {
    var vs := IntToString(e.value);
    IntToStringFits(e.value);
    ParseIntToString(e.value);
    if fmt == FileFormat {
      assert PieceText(fmt, e) == e.key + [':'] + vs;
      SplitKeyValue(e.key, vs);
    } else {
      var k := "\"" + e.key + "\"";
      assert PieceText(fmt, e) == k + [':'] + vs;
      SplitKeyValue(k, vs);
      UnquoteKey(e.key);
    }
  }

  /** Written pieces read back as storing their entries, in order. */
  lemma {:induction false} StepsOfPieces(fmt: Format, m: seq<Entry<int>>)
    requires forall i :: 0 <= i < |m| ==> KeyFits(fmt, m[i].key) && InInt32(m[i].value)
    ensures Steps(fmt, Pieces(fmt, m)) == KeepAll(m)
  {
    forall i | 0 <= i < |m| ensures Steps(fmt, Pieces(fmt, m))[i] == KeepAll(m)[i] {
      ReadPieceText(fmt, m[i]);
    }
  }

  lemma {:induction false} PieceFits(fmt: Format, e: Entry<int>)
    requires KeyFits(fmt, e.key)
    ensures Separator(fmt) !in PieceText(fmt, e) && PieceText(fmt, e) != ""
  {
    IntToStringFits(e.value);
  }

  /** Splitting the written marks gives back the pieces. */
  lemma {:induction false} SplitMarksText(fmt: Format, m: seq<Entry<int>>)
    requires m != []
    requires forall i :: 0 <= i < |m| ==> KeyFits(fmt, m[i].key)
    ensures JavaSplit(MarksText(fmt, m), Separator(fmt)) == Pieces(fmt, m)
  {
    var ps, sep := Pieces(fmt, m), Separator(fmt);
    forall i | 0 <= i < |ps| ensures sep !in ps[i] {
      PieceFits(fmt, m[i]);
    }
    SplitJoin(ps, sep);
    PieceFits(fmt, m[|m| - 1]);
    JavaSplitKeepsAll(MarksText(fmt, m), sep);
  }

  /** Marks with distinct keys that fit the format read back as written. */
  lemma {:induction false} MarksRoundTrip(fmt: Format, m: seq<Entry<int>>)
    requires m != [] && DistinctKeys(m)
    requires forall i :: 0 <= i < |m| ==> KeyFits(fmt, m[i].key) && InInt32(m[i].value)
    ensures Collect([], Steps(fmt, JavaSplit(MarksText(fmt, m), Separator(fmt)))) == Done(m)
  {
    SplitMarksText(fmt, m);
    StepsOfPieces(fmt, m);
    assert [] + m == m;
    CollectKeepAll([], m);
  }

  // ---------------------------------------------------------------------------
  // The roster-file line

  /** `toFileString()`: `roll,name,course,` followed by the marks as
      `Math:90|Phy:80`, or nothing when the map is null or empty. */
  function FileLine(r: Record): string {
    var marks := if r.subjectMarks.None? then "" else MarksText(FileFormat, r.subjectMarks.value);
    Join([IntToString(r.rollNumber), r.name, r.course, marks], ',')
  }

  /** The record built from the fields of a line: null (None) for fewer than four
      fields, a roll that is not an `int`, or a score that is not an `int`;
      otherwise a record with a (possibly empty) marks map. */
  function ParseFields(parts: seq<string>): (r: Option<Record>)
    ensures |parts| < 4 ==> r.None?
    ensures |parts| >= 4 && ParseInt(parts[0]).None? ==> r.None?
    ensures r.Some? ==> r.value.rollNumber == ParseInt(parts[0]).value
    ensures r.Some? ==> r.value.name == parts[1] && r.value.course == parts[2]
    ensures r.Some? ==> r.value.subjectMarks.Some?
  {
    if |parts| < 4 then None
    else
      match ParseInt(parts[0])
      case None => None
      case Some(roll) =>
        if parts[3] == "" then Some(Record(roll, parts[1], parts[2], Some([])))
        else
          match Collect([], Steps(FileFormat, JavaSplit(parts[3], '|')))
          case Failed(_) => None
          case Done(m) => Some(Record(roll, parts[1], parts[2], Some(m)))
  }

  /** A record read from a line holds a map: no subject twice. */
  lemma {:induction false} ParsedMarksDistinct(parts: seq<string>)
    requires ParseFields(parts).Some?
    ensures DistinctKeys(ParseFields(parts).value.subjectMarks.value)
  {
    if parts[3] != "" {
      CollectDistinct([], Steps(FileFormat, JavaSplit(parts[3], '|')));
    }
  }

  /** `fromFileString(line)`: the line split with `split(",")`, which drops
      trailing empty fields. */
  function ParseFileLine(line: string): Option<Record> {
    ParseFields(JavaSplit(line, ','))
  }

  /** The parser with the split that keeps trailing empty fields
      (`split(",", -1)`). */
  function ParseFileLineFixed(line: string): Option<Record> {
    ParseFields(SplitAll(line, ','))
  }

  /** A record whose roll, name, course and marks survive the line format: no
      ',' in name or course, keys free of ':', '|' and ',', keys distinct (as in
      any Java map). */
  predicate LineSafe(r: Record) {
    && InInt32(r.rollNumber)
    && ',' !in r.name && ',' !in r.course
    && (r.subjectMarks.Some? ==>
          && DistinctKeys(r.subjectMarks.value)
          && forall i :: 0 <= i < |r.subjectMarks.value| ==>
               KeyFits(FileFormat, r.subjectMarks.value[i].key) && InInt32(r.subjectMarks.value[i].value))
  }

  lemma {:induction false} SplitFileLine(r: Record)
    requires LineSafe(r)
    ensures SplitAll(FileLine(r), ',') ==
      [IntToString(r.rollNumber), r.name, r.course,
       if r.subjectMarks.None? then "" else MarksText(FileFormat, r.subjectMarks.value)]
  {
    var marks := if r.subjectMarks.None? then "" else MarksText(FileFormat, r.subjectMarks.value);
    var parts := [IntToString(r.rollNumber), r.name, r.course, marks];
    IntToStringFits(r.rollNumber);
    if r.subjectMarks.Some? && r.subjectMarks.value != [] {
      var m := r.subjectMarks.value;
      forall i | 0 <= i < |m| ensures ',' !in PieceText(FileFormat, m[i]) {
        IntToStringFits(m[i].value);
      }
      MarksTextHasNo(FileFormat, m, ',');
    }
    SplitJoin(parts, ',');
  }

  /** A character that is neither the separator nor in any piece is not in the
      marks text. */
  lemma {:induction false} MarksTextHasNo(fmt: Format, m: seq<Entry<int>>, c: char)
    requires c != Separator(fmt)
    requires forall i :: 0 <= i < |m| ==> c !in PieceText(fmt, m[i])
    ensures c !in MarksText(fmt, m)
  {
    if m != [] {
      JoinHasNo(Pieces(fmt, m), Separator(fmt), c);
    }
  }

  /** Writing a record with marks and reading the line back gives the record. */
  lemma {:induction false} FileRoundTrip(r: Record)
    requires LineSafe(r) && r.subjectMarks.Some? && r.subjectMarks.value != []
    ensures ParseFileLine(FileLine(r)) == Some(r)
  {
    var m := r.subjectMarks.value;
    SplitFileLine(r);
    PieceFits(FileFormat, m[|m| - 1]);
    assert MarksText(FileFormat, m) != "" by {
      SplitMarksText(FileFormat, m);
    }
    JavaSplitKeepsAll(FileLine(r), ',');
    ParseIntToString(r.rollNumber);
    MarksRoundTrip(FileFormat, m);
  }

  /** As written, a record whose marks are null or empty does not come back: its
      line ends in an empty field, which `split(",")` drops, leaving three. */
  lemma {:induction false} EmptyMarksLost(r: Record)
    requires LineSafe(r) && (r.subjectMarks.None? || r.subjectMarks.value == [])
    ensures ParseFileLine(FileLine(r)) == None
  {
    SplitFileLine(r);
  }

  /** With the trailing field kept, such a record comes back with an empty map
      (null is written as an empty field too), and records with marks still come
      back unchanged. */
  lemma {:induction false} FixedFileRoundTrip(r: Record)
    requires LineSafe(r)
    ensures ParseFileLineFixed(FileLine(r)) ==
      Some(r.(subjectMarks := if r.subjectMarks.None? then Some([]) else r.subjectMarks))
  {
    SplitFileLine(r);
    ParseIntToString(r.rollNumber);
    if r.subjectMarks.Some? && r.subjectMarks.value != [] {
      var m := r.subjectMarks.value;
      assert MarksText(FileFormat, m) != "" by {
        SplitMarksText(FileFormat, m);
        PieceFits(FileFormat, m[|m| - 1]);
      }
      MarksRoundTrip(FileFormat, m);
    }
  }

  /** A piece that is not `key:value` is ignored wherever it occurs: the line
      loads as if it were not there. */
  lemma {:induction false} SkipIgnored(acc: seq<Entry<int>>, a: seq<Step>, b: seq<Step>)
    ensures Collect(acc, a + [Skip] + b) == Collect(acc, a + b)
    decreases |a|
  {
    if a == [] {
      assert a + [Skip] + b == [Skip] + b && ([Skip] + b)[1..] == b && a + b == b;
    } else {
      assert (a + [Skip] + b)[0] == a[0] && (a + [Skip] + b)[1..] == a[1..] + [Skip] + b;
      assert (a + b)[0] == a[0] && (a + b)[1..] == a[1..] + b;
      match a[0]
      case Skip => SkipIgnored(acc, a[1..], b);
      case Stop =>
      case Keep(k, v) => SkipIgnored(Put(acc, k, v), a[1..], b);
    }
  }

  // ---------------------------------------------------------------------------
  // JSON written

  /** `escape(s)`: every '"' preceded by a backslash; backslashes themselves are
      left alone. */
  function Escape(s: string): (r: string)
    ensures |r| >= |s|
  {
    ReplaceChar(s, '"', "\\\"")
  }

  /** Text without quotes is written as it is. */
  lemma {:induction false} EscapePlain(s: string)
    requires '"' !in s
    ensures Escape(s) == s
  {
    ReplaceCharAbsent(s, '"', "\\\"");
  }

  /** Every quote `escape` writes has a backslash before it. */
  lemma {:induction false} EscapedQuotes(s: string)
    ensures forall i :: 0 <= i < |Escape(s)| && Escape(s)[i] == '"' ==> 0 < i && Escape(s)[i - 1] == '\\'
  {
    if s != [] {
      EscapedQuotes(s[1..]);
      var head := if s[0] == '"' then "\\\"" else [s[0]];
      var rest := Escape(s[1..]);
      var r := head + rest;
      assert r == Escape(s);
      forall i | 0 <= i < |r| && r[i] == '"' ensures 0 < i && r[i - 1] == '\\' {
        if i >= |head| {
          var j := i - |head|;
          assert r[i] == rest[j];
          assert 0 < j && rest[j - 1] == '\\';
          assert r[i - 1] == rest[j - 1];
        }
      }
    }
  }

  /** Two decimal places of a count of hundredths: the whole part, a point and
      two digits. */
  function TwoDecimals(a: nat): (s: string)
    ensures forall i :: 0 <= i < |s| ==> IsDigit(s[i]) || s[i] == '.'
  {
    NatToString(a / 100) + "." + [DigitChar(a % 100 / 10), DigitChar(a % 10)]
  }

  /** Removing the point leaves the decimal digits of `a`. */
  lemma {:induction false} TwoDecimalsDigits(a: nat)
    ensures var s := TwoDecimals(a); s[|s| - 3] == '.'
    ensures var s := TwoDecimals(a); AllDigits(s[..|s| - 3] + s[|s| - 2..])
    ensures var s := TwoDecimals(a); DigitsValue(s[..|s| - 3] + s[|s| - 2..]) == a
  {
    var w := NatToString(a / 100);
    var d1, d2 := DigitChar(a % 100 / 10), DigitChar(a % 10);
    var s := TwoDecimals(a);
    var t := w + [d1] + [d2];
    assert s[..|s| - 3] + s[|s| - 2..] == t by {
      assert s == w + ['.', d1, d2];
      assert s[..|s| - 3] == w && s[|s| - 2..] == [d1] + [d2];
      AppendAssoc(w, [d1], [d2]);
    }
    DigitsValueSnoc(w, d1);
    DigitsValueSnoc(w + [d1], d2);
    assert a == 100 * (a / 100) + 10 * (a % 100 / 10) + a % 10;
  }

  /** `String.format("%.2f", x)`: `x` rounded to hundredths, with a minus sign
      whenever `x` itself is negative (so a value just below 0 prints "-0.00"). */
  function Fixed2(x: real): (s: string)
    ensures forall i :: 0 <= i < |s| ==> IsDigit(s[i]) || s[i] == '.' || s[i] == '-'
    ensures x >= 0.0 ==> s == TwoDecimals((Round2(x) * 100.0).Floor as nat)
    ensures x < 0.0 ==> s == "-" + TwoDecimals((Round2(-x) * 100.0).Floor as nat)
  {
    var magnitude := if x < 0.0 then -x else x;
    var digits := TwoDecimals((Round2(magnitude) * 100.0).Floor as nat);
    if x < 0.0 then "-" + digits else digits
  }

  /** A value just below zero keeps its sign: -0.001 prints as "-0.00". */
  lemma {:induction false} Fixed2NegativeZero()
    ensures Fixed2(-0.001) == "-0.00"
  {
    assert Round2(0.001) == 0.0;
  }

  /** What `toJson()` writes before the marks object. */
  function JsonHead(r: Record): string {
    "{" + "\"rollNumber\":" + IntToString(r.rollNumber) + ","
    + "\"name\":\"" + Escape(r.name) + "\","
    + "\"course\":\"" + Escape(r.course) + "\","
    + "\"percentage\":" + Fixed2(Percentage(r.subjectMarks)) + ","
    + "\"grade\":\"" + Grade(r.subjectMarks) + "\","
  }

  function MarksJson(marks: Option<seq<Entry<int>>>): string {
    if marks.None? then "" else MarksText(JsonFormat, marks.value)
  }

  /** `toJson()`: the record's fields, its percentage and grade, and its marks as
      an object (empty for a null map). Subject names are written unescaped. */
  function JsonText(r: Record): string {
    JsonHead(r) + "\"marks\":{" + MarksJson(r.subjectMarks) + "}" + "}"
  }

  // ---------------------------------------------------------------------------
  // JSON read

  /** The outcome of looking for `"key":"` and the closing quote after it. */
  datatype Lookup = Absent | Unterminated | Found(text: string)

  function LookupString(json: string, key: string): Lookup {
    var at := IndexOf(json, "\"" + key + "\":\"", 0);
    if at == -1 then Absent else QuotedText(json, at + |key| + 4)
  }

  /** The text from `start` up to the next '"'. */
  function QuotedText(json: string, start: nat): (r: Lookup)
    requires start <= |json|
    ensures !r.Absent?
  {
    var end := IndexOf(json, "\"", start);
    if end == -1 then Unterminated else Found(json[start..end])
  }

  /** The text found never holds a quote: it ends at the first one. */
  lemma {:induction false} QuotedTextNoQuote(json: string, start: nat)
    requires start <= |json|
    ensures QuotedText(json, start).Found? ==> '"' !in QuotedText(json, start).text
  {
    var end := IndexOf(json, "\"", start);
    if end != -1 {
      IndexOfFirst(json, "\"", start);
      NoCharAhead(json, '"', start, end);
    }
  }

  lemma {:induction false} LookupAt(json: string, key: string, p: nat, r: Lookup)
    requires IndexOf(json, "\"" + key + "\":\"", 0) == p
    requires p + |key| + 4 <= |json| && QuotedText(json, p + |key| + 4) == r
    ensures LookupString(json, key) == r
  {
  }

  /** Text without quotes and then a quote: the text is found. */
  lemma {:induction false} QuotedTextReads(json: string, start: nat, v: string, rest: string)
    requires start <= |json| && json[start..] == v + "\"" + rest && '"' !in v
    ensures QuotedText(json, start) == Found(v)
  {
    assert json[start..start + |v|] == v;
    assert "\"" <= json[start + |v|..];
    FirstByMarker(json, "\"", start, start + |v|, 0);
  }

  lemma {:induction false} NoCharAhead(s: string, c: char, from: nat, end: nat)
    requires from <= end <= |s|
    requires forall j :: from <= j < end ==> !OccursAt(s, [c], j)
    ensures c !in s[from..end]
  {
    forall j | from <= j < end ensures s[j] != c {
      assert !OccursAt(s, [c], j);
      assert |s[j..]| > 0 && s[j..][0] == s[j];
    }
  }

  /** `extractString(json, key)`: the text after the first `"key":"` up to the
      next '"'; "" when the key is absent or the quote is never closed (the
      exception is caught). */
  function StringField(json: string, key: string): string {
    match LookupString(json, key)
    case Found(t) => t
    case _ => ""
  }

  /** What `extractString` reads never holds a quote. */
  lemma {:induction false} StringFieldNoQuote(json: string, key: string)
    ensures '"' !in StringField(json, key)
  {
    var r := LookupString(json, key);
    assert r.Found? ==> '"' !in r.text by {
      var at := IndexOf(json, "\"" + key + "\":\"", 0);
      if at != -1 {
        QuotedTextNoQuote(json, at + |key| + 4);
        LookupAt(json, key, at, QuotedText(json, at + |key| + 4));
      }
    }
    StringFieldOf(json, key, r);
  }

  lemma {:induction false} StringFieldOf(json: string, key: string, r: Lookup)
    requires LookupString(json, key) == r
    ensures StringField(json, key) == if r.Found? then r.text else ""
  {
  }

  /** No `"key":"` anywhere: `extractString` gives "". */
  lemma {:induction false} StringFieldAbsent(json: string, key: string)
    requires !Contains(json, "\"" + key + "\":\"")
    ensures StringField(json, key) == ""
  {
    IndexOfAbsent(json, "\"" + key + "\":\"");
  }

  /** The first occurrence of `"key":"` followed by text without quotes and a
      closing quote: that text is what is read. */
  lemma {:induction false} StringFieldReads(json: string, key: string, p: nat, v: string, rest: string)
    requires FirstAt(json, "\"" + key + "\":\"", p)
    requires json[p + |key| + 4..] == v + "\"" + rest && '"' !in v
    ensures StringField(json, key) == v
  {
    IndexOfFirstAt(json, "\"" + key + "\":\"", p);
    QuotedTextReads(json, p + |key| + 4, v, rest);
    LookupAt(json, key, p, Found(v));
  }

  /** What `toJson()` writes for a name holding a quote is read back by
      `extractString` only up to the backslash `escape` put before that quote. */
  lemma {:induction false} EscapedQuoteCutsField(json: string, key: string, p: nat, a: string, b: string, rest: string)
    requires FirstAt(json, "\"" + key + "\":\"", p)
    requires '"' !in a
    requires json[p + |key| + 4..] == Escape(a + "\"" + b) + "\"" + rest
    ensures StringField(json, key) == a + "\\"
  {
    var eb := ReplaceChar(b, '"', "\\\"");
    EscapeFirstQuote(a, b);
    Regroup(a, "\\", "\"", eb, "\"", rest);
    StringFieldReads(json, key, p, a + "\\", eb + "\"" + rest);
  }

  /** Escaping text whose first quote follows `a` puts a backslash and then that
      quote right after `a`. */
  lemma {:induction false} EscapeFirstQuote(a: string, b: string)
    requires '"' !in a
    ensures Escape(a + "\"" + b) == a + ("\\" + "\"") + ReplaceChar(b, '"', "\\\"")
  {
    var q := "\"" + b;
    var eb := ReplaceChar(b, '"', "\\\"");
    AppendAssoc(a, "\"", b);
    ReplaceCharAppend(a, q, '"', "\\\"");
    ReplaceCharAppend("\"", b, '"', "\\\"");
    assert ReplaceChar("\"", '"', "\\\"") == "\\" + "\"";
    ReplaceCharAbsent(a, '"', "\\\"");
    AppendAssoc(a, "\\" + "\"", eb);
  }

  /** Escaping as JSON requires it: a backslash before every '"' and every
      backslash. */
  function EscapeFixed(s: string): (r: string)
    ensures |r| >= |s|
  {
    if s == [] then []
    else (if s[0] == '"' || s[0] == '\\' then ['\\', s[0]] else [s[0]]) + EscapeFixed(s[1..])
  }

  /** Text without quotes or backslashes is written as it is. */
  lemma {:induction false} EscapeFixedPlain(s: string)
    requires '"' !in s && '\\' !in s
    ensures EscapeFixed(s) == s
  {
    if s != [] {
      EscapeFixedPlain(s[1..]);
      assert [s[0]] + s[1..] == s;
    }
  }

  /** The outcome of reading an escaped string up to its closing quote. */
  datatype Unquoted = Unclosed | Unquoted(text: string, rest: string)

  /** Reading an escaped string up to its closing quote: the unescaped text and
      what follows the quote, or `Unclosed` when no closing quote comes. */
  function ReadQuoted(s: string): (r: Unquoted)
    ensures r.Unquoted? ==> |r.rest| < |s|
  {
    if s == [] then Unclosed
    else if s[0] == '"' then Unquoted([], s[1..])
    else if s[0] == '\\' && |s| >= 2 then
      var r := ReadQuoted(s[2..]);
      if r.Unclosed? then Unclosed else Unquoted([s[1]] + r.text, r.rest)
    else if s[0] == '\\' then Unclosed
    else
      var r := ReadQuoted(s[1..]);
      if r.Unclosed? then Unclosed else Unquoted([s[0]] + r.text, r.rest)
  }

  /** An ordinary character is read as itself. */
  lemma {:induction false} ReadQuotedPlain(c: char, t: string)
    requires c != '"' && c != '\\'
    ensures ReadQuoted([c] + t) == if ReadQuoted(t).Unclosed? then Unclosed
      else Unquoted([c] + ReadQuoted(t).text, ReadQuoted(t).rest)
  {
    assert ([c] + t)[1..] == t;
  }

  /** A backslash and a character are read as that character. */
  lemma {:induction false} ReadQuotedEscape(c: char, t: string)
    ensures ReadQuoted(['\\', c] + t) == if ReadQuoted(t).Unclosed? then Unclosed
      else Unquoted([c] + ReadQuoted(t).text, ReadQuoted(t).rest)
  {
    assert (['\\', c] + t)[2..] == t;
  }

  /** Every string survives escaping and reading back, whatever follows it. */
  lemma {:induction false} ReadEscaped(v: string, rest: string)
    ensures ReadQuoted(EscapeFixed(v) + "\"" + rest) == Unquoted(v, rest)
  {
    if v == [] {
      assert EscapeFixed(v) + "\"" + rest == ['"'] + rest;
      assert (['"'] + rest)[1..] == rest;
    } else {
      var tail := EscapeFixed(v[1..]) + "\"" + rest;
      ReadEscaped(v[1..], rest);
      EscapedHead(v, rest);
      if v[0] == '"' || v[0] == '\\' {
        ReadQuotedEscape(v[0], tail);
      } else {
        ReadQuotedPlain(v[0], tail);
      }
      assert [v[0]] + v[1..] == v;
    }
  }

  /** The escaped text starts with the escaped first character. */
  lemma {:induction false} EscapedHead(v: string, rest: string)
    requires v != []
    ensures EscapeFixed(v) + "\"" + rest ==
      (if v[0] == '"' || v[0] == '\\' then ['\\', v[0]] else [v[0]]) + (EscapeFixed(v[1..]) + "\"" + rest)
  {
    var e := if v[0] == '"' || v[0] == '\\' then ['\\', v[0]] else [v[0]];
    var x := EscapeFixed(v[1..]);
    assert EscapeFixed(v) == e + x;
    AppendAssoc(e, x, "\"");
    AppendAssoc(e, x + "\"", rest);
  }

  /** `extractString` as the JSON it reads was written: the escaped text after the
      first `"key":"`, unescaped up to its closing quote; "" as before when the
      key is absent or the text is never closed. */
  function StringFieldFixed(json: string, key: string): string {
    var at := IndexOf(json, "\"" + key + "\":\"", 0);
    if at == -1 then "" else QuotedAt(json, at + |key| + 4)
  }

  /** Any name written with `EscapeFixed` after the first `"key":"` is read back
      whole, quotes and backslashes included. */
  lemma {:induction false} StringFieldFixedReads(json: string, key: string, p: nat, v: string, rest: string)
    requires FirstAt(json, "\"" + key + "\":\"", p)
    requires json[p + |key| + 4..] == EscapeFixed(v) + "\"" + rest
    ensures StringFieldFixed(json, key) == v
  {
    IndexOfFirstAt(json, "\"" + key + "\":\"", p);
    QuotedAtReads(json, p + |key| + 4, v, rest);
    StringFieldFixedAt(json, key, p, v);
  }

  /** No `"key":"` anywhere: the corrected reader gives "" too. */
  lemma {:induction false} StringFieldFixedAbsent(json: string, key: string)
    requires !Contains(json, "\"" + key + "\":\"")
    ensures StringFieldFixed(json, key) == ""
  {
    IndexOfAbsent(json, "\"" + key + "\":\"");
  }

  lemma {:induction false} StringFieldFixedAt(json: string, key: string, p: nat, v: string)
    requires IndexOf(json, "\"" + key + "\":\"", 0) == p
    requires p + |key| + 4 <= |json| && QuotedAt(json, p + |key| + 4) == v
    ensures StringFieldFixed(json, key) == v
  {
  }

  /** The escaped text from `start` up to its closing quote, unescaped, or "". */
  function QuotedAt(json: string, start: nat): string
    requires start <= |json|
  {
    var read := ReadQuoted(json[start..]);
    if read.Unquoted? then read.text else ""
  }

  /** Whatever was written with `EscapeFixed` and closed by a quote at `start` is
      read back from there exactly, whatever follows the closing quote. */
  lemma {:induction false} QuotedAtReads(json: string, start: nat, w: string, rest: string)
    requires start <= |json| && json[start..] == EscapeFixed(w) + "\"" + rest
    ensures QuotedAt(json, start) == w
  {
    ReadEscaped(w, rest);
  }

  /** The index just past the run of digits and '.' starting at `i`. */
  function RunEnd(s: string, i: nat): (j: nat)
    requires i <= |s|
    ensures i <= j <= |s|
    ensures forall k :: i <= k < j ==> IsDigit(s[k]) || s[k] == '.'
    ensures j == |s| || !(IsDigit(s[j]) || s[j] == '.')
    decreases |s| - i
  {
    if i < |s| && (IsDigit(s[i]) || s[i] == '.') then RunEnd(s, i + 1) else i
  }

  /** `extractInt(json, key)`: the run of digits and '.' after the first
      `"key":`, parsed as an `int`; 0 when the key is absent or the run does not
      parse (a sign, a decimal point, an empty run, a value past `int`). */
  function IntField(json: string, key: string): (n: int)
    ensures InInt32(n)
    ensures 0 <= n
  {
    var at := IndexOf(json, "\"" + key + "\":", 0);
    if at == -1 then 0 else IntAt(json, at + |key| + 3)
  }

  /** The run of digits and '.' from `start`, parsed, or 0. */
  function IntAt(json: string, start: nat): (n: int)
    requires start <= |json|
    ensures InInt32(n) && 0 <= n
  {
    match ParseInt(json[start..RunEnd(json, start)])
    case None => 0
    case Some(v) => v
  }

  /** A non-negative `int` written after the first `"key":` and followed by
      anything but a digit or '.' is read back. */
  lemma {:induction false} IntFieldReads(json: string, key: string, p: nat, n: int, rest: string)
    requires FirstAt(json, "\"" + key + "\":", p)
    requires json[p + |key| + 3..] == IntToString(n) + rest
    requires 0 <= n && InInt32(n)
    requires rest == [] || !(IsDigit(rest[0]) || rest[0] == '.')
    ensures IntField(json, key) == n
  {
    var q := p + |key| + 3;
    assert q <= |json|;
    IndexOfFirstAt(json, "\"" + key + "\":", p);
    IntAtReads(json, q, n, rest);
    assert IntAt(json, q) == n;
    IntFieldAt(json, key, p, n);
  }

  lemma {:induction false} IntFieldAt(json: string, key: string, p: nat, n: int)
    requires IndexOf(json, "\"" + key + "\":", 0) == p
    requires p + |key| + 3 <= |json| && IntAt(json, p + |key| + 3) == n
    ensures IntField(json, key) == n
  {
  }

  /** No `"key":` anywhere: `extractInt` gives 0. */
  lemma {:induction false} IntFieldAbsent(json: string, key: string)
    requires !Contains(json, "\"" + key + "\":")
    ensures IntField(json, key) == 0
  {
  }

  lemma {:induction false} IntAtReads(json: string, start: nat, n: int, rest: string)
    requires start <= |json| && json[start..] == IntToString(n) + rest
    requires 0 <= n && InInt32(n)
    requires rest == [] || !(IsDigit(rest[0]) || rest[0] == '.')
    ensures IntAt(json, start) == n
  {
    var t := IntToString(n);
    assert json[start..start + |t|] == t;
    if rest != [] {
      assert json[start + |t|] == rest[0];
    }
    RunEndOfDigits(json, start, start + |t|);
    ParseIntToString(n);
  }

  lemma {:induction false} RunEndOfDigits(s: string, i: nat, j: nat)
    requires i <= j <= |s|
    requires AllDigits(s[i..j])
    requires j == |s| || !(IsDigit(s[j]) || s[j] == '.')
    ensures RunEnd(s, i) == j
    decreases j - i
  {
    if i < j {
      assert s[i] == s[i..j][0];
      assert s[i + 1..j] == s[i..j][1..];
      RunEndOfDigits(s, i + 1, j);
    }
  }

  /** A negative number, or one with a decimal point, after the first `"key":`
      reads as 0. */
  lemma {:induction false} IntFieldRejects(json: string, key: string, p: nat)
    requires FirstAt(json, "\"" + key + "\":", p)
    requires p + |key| + 3 < |json|
    requires json[p + |key| + 3] == '-' || '.' in json[p + |key| + 3..RunEnd(json, p + |key| + 3)]
    ensures IntField(json, key) == 0
  {
    IndexOfFirstAt(json, "\"" + key + "\":", p);
    var start := p + |key| + 3;
    var run := json[start..RunEnd(json, start)];
    assert ParseInt(run).None? by {
      DigitsNumberValue(run);
      if json[start] == '-' {
        assert run == [];
      } else {
        var i :| 0 <= i < |run| && run[i] == '.';
        assert !IsDigit(run[i]);
        if |run| > 0 {
          assert run[0] == json[start];
        }
      }
    }
    IntFieldAt(json, key, p, 0);
  }

  /** `extractMarks(json)`: the text between the first `"marks":{` and the next
      '}', split at ',' and read pair by pair. An absent key or a missing '}'
      gives an empty map; a value that does not parse ends the reading, keeping
      the pairs before it. */
  function MarksField(json: string): seq<Entry<int>> {
    var at := IndexOf(json, "\"marks\":{", 0);
    if at == -1 then [] else MarksAt(json, at + 9)
  }

  /** The object from `start` up to the next '}', read pair by pair; nothing when
      no '}' follows. */
  function MarksAt(json: string, start: nat): seq<Entry<int>>
    requires start <= |json|
  {
    var end := IndexOf(json, "}", start);
    if end == -1 then [] else MarksObject(json[start..end])
  }

  /** The pairs of an object's text, split at ','. */
  function MarksObject(content: string): seq<Entry<int>> {
    Collect([], Steps(JsonFormat, JavaSplit(content, ','))).marks
  }

  /** Whatever `extractMarks` reads is a map: no subject twice. */
  lemma {:induction false} MarksFieldDistinct(json: string)
    ensures DistinctKeys(MarksField(json))
  {
    var at := IndexOf(json, "\"marks\":{", 0);
    if at != -1 {
      MarksAtDistinct(json, at + 9);
    }
  }

  lemma {:induction false} MarksAtDistinct(json: string, start: nat)
    requires start <= |json|
    ensures DistinctKeys(MarksAt(json, start))
  {
    var end := IndexOf(json, "}", start);
    if end != -1 {
      MarksObjectDistinct(json[start..end]);
    }
  }

  lemma {:induction false} MarksObjectDistinct(content: string)
    ensures DistinctKeys(MarksObject(content))
  {
    CollectDistinct([], Steps(JsonFormat, JavaSplit(content, ',')));
  }

  /** No `"marks":{` anywhere: `extractMarks` gives an empty map. */
  lemma {:induction false} MarksFieldAbsent(json: string)
    requires !Contains(json, "\"marks\":{")
    ensures MarksField(json) == []
  {
    IndexOfAbsent(json, "\"marks\":{");
  }

  lemma {:induction false} MarksFieldAt(json: string, p: nat, m: seq<Entry<int>>)
    requires IndexOf(json, "\"marks\":{", 0) == p
    requires p + 9 <= |json| && MarksAt(json, p + 9) == m
    ensures MarksField(json) == m
  {
    var at := IndexOf(json, "\"marks\":{", 0);
    assert at == p;
  }

  /** No `"marks":{`: an empty map. */
  lemma {:induction false} MarksFieldNone(json: string)
    requires IndexOf(json, "\"marks\":{", 0) == -1
    ensures MarksField(json) == []
  {
  }

  /** No '}' after the key: `substring` throws and the map stays empty. */
  lemma {:induction false} MarksAtUnclosed(json: string, start: nat)
    requires start <= |json| && IndexOf(json, "}", start) == -1
    ensures MarksAt(json, start) == []
  {
  }

  /** The text `toJson()` writes for a marks map is read back as that map. */
  lemma {:induction false} MarksObjectReads(content: string, m: seq<Entry<int>>)
    requires content == MarksText(JsonFormat, m)
    requires DistinctKeys(m)
    requires forall i :: 0 <= i < |m| ==> KeyFits(JsonFormat, m[i].key) && InInt32(m[i].value)
    ensures MarksObject(content) == m
  {
    if m == [] {
      SplitWithoutSeparator("", ',');
      assert Steps(JsonFormat, [""]) == [Skip];
      assert [Skip][1..] == [];
    } else {
      MarksRoundTrip(JsonFormat, m);
    }
  }

  /** The object ends at the first '}' after `start`, which the pieces never hold. */
  lemma {:induction false} MarksAtReads(json: string, start: nat, m: seq<Entry<int>>, rest: string)
    requires start <= |json| && json[start..] == MarksText(JsonFormat, m) + "}" + rest
    requires DistinctKeys(m)
    requires forall i :: 0 <= i < |m| ==> KeyFits(JsonFormat, m[i].key) && InInt32(m[i].value)
    ensures MarksAt(json, start) == m
  {
    var end := start + |MarksText(JsonFormat, m)|;
    MarksObjectEnds(json, start, m, rest);
    MarksObjectReads(json[start..end], m);
    MarksAtIs(json, start, end, m);
  }

  /** The object's text holds no '}', so the first '}' after it closes it. */
  lemma {:induction false} MarksObjectEnds(json: string, start: nat, m: seq<Entry<int>>, rest: string)
    requires start <= |json| && json[start..] == MarksText(JsonFormat, m) + "}" + rest
    requires forall i :: 0 <= i < |m| ==> KeyFits(JsonFormat, m[i].key) && InInt32(m[i].value)
    ensures start + |MarksText(JsonFormat, m)| < |json|
    ensures json[start..start + |MarksText(JsonFormat, m)|] == MarksText(JsonFormat, m)
    ensures IndexOf(json, "}", start) == start + |MarksText(JsonFormat, m)|
  {
    MarksJsonNoBrace(m);
    ClosedBy(json, start, MarksText(JsonFormat, m), '}', rest);
  }

  /** Keys that fit and numbers never put a '}' into the marks object. */
  lemma {:induction false} MarksJsonNoBrace(m: seq<Entry<int>>)
    requires forall i :: 0 <= i < |m| ==> KeyFits(JsonFormat, m[i].key) && InInt32(m[i].value)
    ensures '}' !in MarksText(JsonFormat, m)
  {
    forall i | 0 <= i < |m| ensures '}' !in PieceText(JsonFormat, m[i]) {
      IntToStringFits(m[i].value);
    }
    MarksTextHasNo(JsonFormat, m, '}');
  }

  lemma {:induction false} MarksAtIs(json: string, start: nat, end: nat, m: seq<Entry<int>>)
    requires start <= end <= |json| && IndexOf(json, "}", start) == end
    requires MarksObject(json[start..end]) == m
    ensures MarksAt(json, start) == m
  {
  }

  /** The marks object written by `toJson()` is read back by `extractMarks`
      when it is the first `"marks":{` and its keys fit. */
  lemma {:induction false} MarksFieldReads(json: string, p: nat, m: seq<Entry<int>>, rest: string)
    requires FirstAt(json, "\"marks\":{", p)
    requires json[p + 9..] == MarksText(JsonFormat, m) + "}" + rest
    requires DistinctKeys(m)
    requires forall i :: 0 <= i < |m| ==> KeyFits(JsonFormat, m[i].key) && InInt32(m[i].value)
    ensures MarksField(json) == m
  {
    IndexOfFirstAt(json, "\"marks\":{", p);
    MarksAtReads(json, p + 9, m, rest);
    MarksFieldAt(json, p, m);
  }

  /** `fromJson` first trims the body and drops one leading '{' and one trailing
      '}'. */
  function StripBraces(s: string): string {
    var a := if |s| > 0 && s[0] == '{' then s[1..] else s;
    if |a| > 0 && a[|a| - 1] == '}' then a[..|a| - 1] else a
  }

  /** `fromJson(json)`: a student built from the fields found in the body. The
      parser never fails: every extractor catches its own exceptions. */
  function JsonRecord(json: string): (r: Record)
    ensures r.subjectMarks.Some?
    ensures 0 <= r.rollNumber && InInt32(r.rollNumber)
  {
    var body := StripBraces(JavaTrim(json));
    Record(IntField(body, "rollNumber"), StringField(body, "name"), StringField(body, "course"), Some(MarksField(body)))
  }

  /** A student read from JSON has no quote in its name or course and no
      subject twice. */
  lemma {:induction false} JsonRecordShape(json: string)
    ensures '"' !in JsonRecord(json).name && '"' !in JsonRecord(json).course
    ensures DistinctKeys(JsonRecord(json).subjectMarks.value)
  {
    var body := StripBraces(JavaTrim(json));
    StringFieldNoQuote(body, "name");
    StringFieldNoQuote(body, "course");
    MarksFieldDistinct(body);
  }
}

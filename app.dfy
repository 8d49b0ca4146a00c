/** The dashboard side of the frontend (frontend/src/App.jsx): the stats calculator,
    the read-time backfill of fetched student records, and the two dashboard
    figures, average performance and top performer. */
module App {
  import opened Wrappers
  import opened Marks
  import opened Grading

  /** What a student record's `percentage` field holds on the client: nothing
      (absent, null or ""), a JSON number sent by the server, or the two-decimal
      text that the stats calculator produces. The three differ in JavaScript
      truthiness: the number 0 is falsy while the text "0.00" is not. */
  datatype Pct = NoPct | PctNum(num: real) | PctText(value: real)

  /** A student record as the frontend holds it. A missing `grade` is "". */
  datatype Student = Student(
    rollNumber: int,
    name: string,
    course: string,
    marks: Option<seq<Entry<real>>>,
    percentage: Pct,
    grade: string)

  /** What the calculator returns: the percentage (standing for its two-decimal
      text) and the letter grade. */
  datatype Stats = Stats(percentage: real, grade: string)

  /** `!!s.percentage` */
  predicate PctTruthy(p: Pct) {
    match p
    case NoPct => false
    case PctNum(x) => x != 0.0
    case PctText(_) => true
  }

  /** `parseFloat(s.percentage) || 0` */
  function ParsePct(p: Pct): real {
    match p
    case NoPct => 0.0
    case PctNum(x) => x
    case PctText(x) => x
  }

  /** The mean of the scores. */
  function Mean(m: seq<Entry<real>>): real
    requires m != []
  {
    SumReal(m) / |m| as real
  }

  lemma {:induction false} LadderNonEmpty(p: real)
    ensures LetterGrade(p) != ""
  {
    assert forall k :: 0 <= k < |Ladder| ==> Ladder[k] != "";
  }

  /** `calculateStats(marks)`: absent or empty marks give "0.00" and "F"; otherwise
      the mean rounded to two decimals, graded after the rounding. */
  function CalculateStats(marks: Option<seq<Entry<real>>>): (r: Stats)
    ensures marks.None? || marks.value == [] ==> r == Stats(0.0, "F")
    ensures marks.Some? && marks.value != [] ==>
      Hundredths(r.percentage) && Mean(marks.value) - 0.005 <= r.percentage <= Mean(marks.value) + 0.005
    ensures r.grade == LetterGrade(r.percentage)
    ensures r.grade != ""
  {
    if marks.None? || marks.value == [] then
      Round2Exact(0.0);
      Stats(0.0, "F")
    else
      var percentage := Round2(SumReal(marks.value) / |marks.value| as real);
      LadderNonEmpty(percentage);
      Stats(percentage, LetterGrade(percentage))
  }

  /** Scores in [0, 100] give a percentage in [0, 100]. */
  lemma {:induction false} CalculateStatsInRange(marks: seq<Entry<real>>)
    requires forall i :: 0 <= i < |marks| ==> 0.0 <= marks[i].value <= 100.0
    ensures 0.0 <= CalculateStats(Some(marks)).percentage <= 100.0
  {
    if marks != [] {
      SumRealBounds(marks, 0.0, 100.0);
      var n := |marks| as real;
      assert 0.0 <= SumReal(marks) / n <= 100.0 by {
        assert SumReal(marks) / n * n == SumReal(marks);
      }
      Round2InRange(Mean(marks));
    }
  }

  /** Two subjects scored 100 and 80 give "90.00" and "A+". */
  lemma {:induction false} CalculateStatsExample()
    ensures CalculateStats(Some([Entry("Math", 100.0), Entry("Science", 80.0)])) == Stats(90.0, "A+")
  {
    var m := [Entry("Math", 100.0), Entry("Science", 80.0)];
    assert m[..1] == [Entry("Math", 100.0)];
    assert m[..1][..0] == [];
    assert SumReal(m) == 180.0;
    Round2Exact(90.0);
  }

  // ---------------------------------------------------------------------------
  // Read-time backfill

  /** Both stats present (truthy). */
  predicate HasStats(s: Student) {
    PctTruthy(s.percentage) && s.grade != ""
  }

  /** The backfill applied to each fetched record: a record lacking either stat gets
      both recomputed from its marks; a record with both is left as it is. */
  function Backfill(s: Student): (r: Student)
    ensures HasStats(r)
    ensures HasStats(s) ==> r == s
    ensures !HasStats(s) ==>
      r == s.(percentage := PctText(CalculateStats(s.marks).percentage), grade := CalculateStats(s.marks).grade)
  {
    if !PctTruthy(s.percentage) || s.grade == "" then
      var st := CalculateStats(s.marks);
      s.(percentage := PctText(st.percentage), grade := st.grade)
    else s
  }

  /** `res.data.map(...)`: one backfilled record per fetched record, in order. */
  function BackfillAll(ss: seq<Student>): (r: seq<Student>)
    ensures |r| == |ss|
    ensures forall i :: 0 <= i < |ss| ==> r[i] == Backfill(ss[i])
  {
    seq(|ss|, i requires 0 <= i < |ss| => Backfill(ss[i]))
  }

  /** After the backfill every record has both stats, and a record that was
      recomputed carries a grade that matches its percentage. */
  lemma {:induction false} BackfillComplete(ss: seq<Student>, i: int)
    requires 0 <= i < |ss|
    ensures HasStats(BackfillAll(ss)[i])
    ensures !HasStats(ss[i]) ==>
      BackfillAll(ss)[i].grade == LetterGrade(ParsePct(BackfillAll(ss)[i].percentage))
  {
  }

  /** Backfilling twice is backfilling once. */
  lemma {:induction false} BackfillIdempotent(ss: seq<Student>)
    ensures BackfillAll(BackfillAll(ss)) == BackfillAll(ss)
  {
  }

  // ---------------------------------------------------------------------------
  // Dashboard figures

  /** `students.reduce((acc, curr) => acc + (parseFloat(curr.percentage) || 0), 0)` */
  function PctSum(ss: seq<Student>): real {
    if ss == [] then 0.0 else PctSum(ss[..|ss| - 1]) + ParsePct(ss[|ss| - 1].percentage)
  }

  /** Average performance (shown followed by '%'): 0 for an empty roster,
      otherwise the mean of the parsed percentages, an unparsable one counting as
      0, rounded to two decimals. */
  function AveragePerformance(ss: seq<Student>): (r: real)
    ensures ss == [] ==> r == 0.0
    ensures ss != [] ==> Hundredths(r)
    ensures ss != [] ==> PctSum(ss) / |ss| as real - 0.005 <= r <= PctSum(ss) / |ss| as real + 0.005
  {
    if |ss| > 0 then Round2(PctSum(ss) / |ss| as real) else 0.0
  }

  lemma {:induction false} PctSumBounds(ss: seq<Student>)
    requires forall i :: 0 <= i < |ss| ==> 0.0 <= ParsePct(ss[i].percentage) <= 100.0
    ensures 0.0 <= PctSum(ss) <= 100.0 * |ss| as real
  {
    if ss != [] {
      PctSumBounds(ss[..|ss| - 1]);
    }
  }

  /** Percentages in [0, 100] average to a figure in [0, 100]. */
  lemma {:induction false} AveragePerformanceInRange(ss: seq<Student>)
    requires forall i :: 0 <= i < |ss| ==> 0.0 <= ParsePct(ss[i].percentage) <= 100.0
    ensures 0.0 <= AveragePerformance(ss) <= 100.0
  {
    if ss != [] {
      PctSumBounds(ss);
      var n := |ss| as real;
      assert PctSum(ss) / n * n == PctSum(ss);
      Round2InRange(PctSum(ss) / n);
    }
  }

  /** The record that survives the `reduce` choosing between the running maximum
      and the current record: the maximum is replaced unless it is strictly
      greater, so the last of several maximal records wins. */
  function BestIndex(ss: seq<Student>): (b: nat)
    requires ss != []
    ensures b < |ss|
    ensures forall i :: 0 <= i < |ss| ==> ParsePct(ss[i].percentage) <= ParsePct(ss[b].percentage)
    ensures forall i :: b < i < |ss| ==> ParsePct(ss[i].percentage) < ParsePct(ss[b].percentage)
  {
    if |ss| == 1 then 0
    else
      var prev := BestIndex(ss[..|ss| - 1]);
      assert forall i :: 0 <= i < |ss| - 1 ==> ss[..|ss| - 1][i] == ss[i];
      if ParsePct(ss[prev].percentage) > ParsePct(ss[|ss| - 1].percentage) then prev else |ss| - 1
  }

  /** The top performer's name: "-" for an empty roster, otherwise the name of the
      last record whose percentage is maximal. */
  function TopPerformer(ss: seq<Student>): (r: string)
    ensures ss == [] ==> r == "-"
    ensures ss != [] ==>
      exists b :: 0 <= b < |ss| && r == ss[b].name
        && (forall i :: 0 <= i < |ss| ==> ParsePct(ss[i].percentage) <= ParsePct(ss[b].percentage))
        && (forall i :: b < i < |ss| ==> ParsePct(ss[i].percentage) < ParsePct(ss[b].percentage))
  {
    if |ss| > 0 then ss[BestIndex(ss)].name else "-"
  }

  /** Of two records with the same percentage, the later one is named. */
  lemma {:induction false} TopPerformerTieGoesLater(a: Student, b: Student)
    requires ParsePct(a.percentage) == ParsePct(b.percentage)
    ensures TopPerformer([a, b]) == b.name
  {
    assert [a, b][..1] == [a];
  }
}

/** The add/edit form of the frontend (frontend/src/StudentForm.jsx): the editable
    subject/score rows, their conversion from a record's marks, the row
    operations, and the validation that turns the rows into the marks sent to
    the server. */
module StudentForm {
  import opened Wrappers
  import opened Text
  import opened Marks
  import opened Seqs

  /** One editable row. `score` is what `parseFloat` reads from the score field:
      None where it reads NaN (an empty or non-numeric field). */
  datatype MarkRow = MarkRow(subject: string, score: Option<real>)

  /** `{ subject: '', score: '' }` */
  const BlankRow: MarkRow := MarkRow("", None)

  datatype FormError =
    | ScoreOutOfRange(subject: string)  // "Score for <subject> must be between 0 and 100"
    | NoSubjects                        // "Please add at least one subject with valid marks."

  /** A row whose subject is not blank once trimmed takes part in the submission. */
  predicate Kept(row: MarkRow) {
    JsTrim(row.subject) != ""
  }

  predicate ValidScore(row: MarkRow) {
    row.score.Some? && 0.0 <= row.score.value <= 100.0
  }

  predicate Rejects(row: MarkRow) {
    Kept(row) && !ValidScore(row)
  }

  /** The first kept row whose score is not a number in [0, 100]. */
  function FirstInvalid(rows: seq<MarkRow>): (r: Option<MarkRow>)
    ensures r.Some? ==> r.value in rows && Rejects(r.value)
    ensures r.None? <==> forall i :: 0 <= i < |rows| ==> !Rejects(rows[i])
  {
    if rows == [] then None
    else
      var p := rows[..|rows| - 1];
      assert forall i :: 0 <= i < |p| ==> p[i] == rows[i];
      Check(FirstInvalid(p), rows[|rows| - 1])
  }

  /** One step of the loop: the first offending row so far, if any, else this row
      if it offends. */
  function Check(found: Option<MarkRow>, row: MarkRow): Option<MarkRow> {
    if found.Some? then found else if Rejects(row) then Some(row) else None
  }

  lemma {:induction false} FirstInvalidSnoc(rows: seq<MarkRow>, row: MarkRow)
    ensures FirstInvalid(rows + [row]) == Check(FirstInvalid(rows), row)
  {
    assert (rows + [row])[..|rows|] == rows;
  }

  /** The marks object built from the rows: each kept row with a number stores it
      under its trimmed subject, a later row overwriting an earlier one. */
  function Payload(rows: seq<MarkRow>): seq<Entry<real>> {
    if rows == [] then [] else Store(Payload(rows[..|rows| - 1]), rows[|rows| - 1])
  }

  /** One step of the loop: a kept row with a number is stored under its trimmed
      subject. */
  function Store(payload: seq<Entry<real>>, row: MarkRow): seq<Entry<real>> {
    if Kept(row) && row.score.Some? then Put(payload, JsTrim(row.subject), row.score.value) else payload
  }

  lemma {:induction false} PayloadSnoc(rows: seq<MarkRow>, row: MarkRow)
    ensures Payload(rows + [row]) == Store(Payload(rows), row)
  {
    assert (rows + [row])[..|rows|] == rows;
  }

  /** The row stores its score under `k`. */
  predicate Stores(row: MarkRow, k: string) {
    Kept(row) && row.score.Some? && JsTrim(row.subject) == k
  }

  /** What submitting the rows yields: the first offending row's error, the error
      for an empty payload, or the payload. */
  function Submission(rows: seq<MarkRow>): Result<seq<Entry<real>>, FormError> {
    if FirstInvalid(rows).Some? then Err(ScoreOutOfRange(FirstInvalid(rows).value.subject))
    else if Payload(rows) == [] then Err(NoSubjects)
    else Ok(Payload(rows))
  }

  /** The offending row reported is the first one: once a prefix has none, a
      rejected row right after it is the one reported, whatever follows. */
  lemma {:induction false} FirstInvalidStops(rows: seq<MarkRow>, i: int)
    requires 0 <= i < |rows| && FirstInvalid(rows[..i]).None? && Rejects(rows[i])
    ensures FirstInvalid(rows) == Some(rows[i])
    decreases |rows|
  {
    if i == |rows| - 1 {
      assert rows[..|rows| - 1] == rows[..i];
    } else {
      var p := rows[..|rows| - 1];
      assert p[..i] == rows[..i] && p[i] == rows[i];
      FirstInvalidStops(p, i);
    }
  }

  /** The validation loop of `handleSubmit`: blank rows are skipped, the first kept
      row with a bad score ends the submission with its error, and an empty result
      is refused. */
  method ValidateMarks(rows: seq<MarkRow>) returns (r: Result<seq<Entry<real>>, FormError>)
    ensures r == Submission(rows)
  {
    var payload: seq<Entry<real>> := [];
    for i := 0 to |rows|
      invariant FirstInvalid(rows[..i]).None?
      invariant payload == Payload(rows[..i])
    {
      assert rows[..i + 1][..i] == rows[..i];
      var item := rows[i];
      if JsTrim(item.subject) == "" {
        continue;
      }
      if item.score.None? || item.score.value < 0.0 || item.score.value > 100.0 {
        FirstInvalidStops(rows, i);
        return Err(ScoreOutOfRange(item.subject));
      }
      payload := Put(payload, JsTrim(item.subject), item.score.value);
    }
    assert rows[..|rows|] == rows;
    if payload == [] {
      return Err(NoSubjects);
    }
    return Ok(payload);
  }

  /** The payload's subjects are exactly the trimmed subjects of the kept rows that
      carry a number. */
  lemma {:induction false} PayloadKeys(rows: seq<MarkRow>, k: string)
    ensures k in Keys(Payload(rows)) <==>
      exists i :: 0 <= i < |rows| && Stores(rows[i], k)
  {
    if rows != [] {
      var p, row := rows[..|rows| - 1], rows[|rows| - 1];
      assert rows == p + [row];
      PayloadSnoc(p, row);
      PayloadKeys(p, k);
      if Kept(row) && row.score.Some? {
        InKeysPut(Payload(p), JsTrim(row.subject), row.score.value, k);
      }
      if exists i :: 0 <= i < |rows| && Stores(rows[i], k) {
        var i :| 0 <= i < |rows| && Stores(rows[i], k);
        if i < |p| {
          assert p[i] == rows[i];
        }
      }
      if exists i :: 0 <= i < |p| && Stores(p[i], k) {
        var i :| 0 <= i < |p| && Stores(p[i], k);
        assert rows[i] == p[i];
      }
    }
  }

  /** A later row with the same trimmed subject overwrites an earlier one: the
      payload holds the score of the last such row. */
  lemma {:induction false} PayloadLastWins(rows: seq<MarkRow>, i: int)
    requires 0 <= i < |rows| && Kept(rows[i]) && rows[i].score.Some?
    requires forall j :: i < j < |rows| && Kept(rows[j]) && rows[j].score.Some? ==>
      JsTrim(rows[j].subject) != JsTrim(rows[i].subject)
    ensures Get(Payload(rows), JsTrim(rows[i].subject)) == rows[i].score
  {
    var p := rows[..|rows| - 1];
    var row := rows[|rows| - 1];
    var k := JsTrim(rows[i].subject);
    if i == |rows| - 1 {
      GetPut(Payload(p), k, row.score.value, k);
    } else {
      assert p[i] == rows[i];
      PayloadLastWins(p, i);
      if Kept(row) && row.score.Some? {
        GetPut(Payload(p), JsTrim(row.subject), row.score.value, k);
      }
    }
  }

  /** An accepted payload has distinct, non-empty, trimmed subjects and scores in
      [0, 100]. */
  lemma {:induction false} PayloadWellFormed(rows: seq<MarkRow>)
    requires FirstInvalid(rows).None?
    ensures DistinctKeys(Payload(rows))
    ensures forall e :: e in Payload(rows) ==>
      e.key != "" && Trimmed(e.key, JavaScript) && 0.0 <= e.value <= 100.0
  {
    if rows != [] {
      var p := rows[..|rows| - 1];
      var row := rows[|rows| - 1];
      assert forall i :: 0 <= i < |p| ==> p[i] == rows[i];
      PayloadWellFormed(p);
      if Kept(row) && row.score.Some? {
        PutKeepsKeysDistinct(Payload(p), JsTrim(row.subject), row.score.value);
        PutEntries(Payload(p), JsTrim(row.subject), row.score.value);
      }
    }
  }

  lemma {:induction false} PayloadSkipsBlank(a: seq<MarkRow>, row: MarkRow, b: seq<MarkRow>)
    requires !Kept(row)
    ensures Payload(a + [row] + b) == Payload(a + b)
    decreases |b|
  {
    if b == [] {
      PayloadSnoc(a, row);
      assert a + [row] + b == a + [row] && a + b == a;
    } else {
      var b', z := b[..|b| - 1], b[|b| - 1];
      PayloadSkipsBlank(a, row, b');
      assert b == b' + [z];
      AppendAssoc(a + [row], b', [z]);
      AppendAssoc(a, b', [z]);
      PayloadSnoc(a + [row] + b', z);
      PayloadSnoc(a + b', z);
    }
  }

  lemma {:induction false} FirstInvalidSkipsBlank(a: seq<MarkRow>, row: MarkRow, b: seq<MarkRow>)
    requires !Kept(row)
    ensures FirstInvalid(a + [row] + b) == FirstInvalid(a + b)
    decreases |b|
  {
    if b == [] {
      FirstInvalidSnoc(a, row);
      assert a + [row] + b == a + [row] && a + b == a;
    } else {
      var b', z := b[..|b| - 1], b[|b| - 1];
      FirstInvalidSkipsBlank(a, row, b');
      assert b == b' + [z];
      AppendAssoc(a + [row], b', [z]);
      AppendAssoc(a, b', [z]);
      FirstInvalidSnoc(a + [row] + b', z);
      FirstInvalidSnoc(a + b', z);
    }
  }

  /** A row with a blank subject has no effect on the submission wherever it is. */
  lemma {:induction false} BlankRowIgnored(a: seq<MarkRow>, row: MarkRow, b: seq<MarkRow>)
    requires !Kept(row)
    ensures Submission(a + [row] + b) == Submission(a + b)
  {
    PayloadSkipsBlank(a, row, b);
    FirstInvalidSkipsBlank(a, row, b);
  }

  // ---------------------------------------------------------------------------
  // Rows from marks, and the row operations

  /** The rows shown when a record is edited: one per mark, in the marks' order,
      or a single blank row when there are none. */
  function MarksToRows(marks: seq<Entry<real>>): (rows: seq<MarkRow>)
    ensures marks == [] ==> rows == [BlankRow]
    ensures marks != [] ==> |rows| == |marks|
    ensures marks != [] ==> forall i :: 0 <= i < |marks| ==> rows[i] == MarkRow(marks[i].key, Some(marks[i].value))
  {
    if marks == [] then [BlankRow] else RowsOf(marks)
  }

  /** A mark as a row: its subject and its score. */
  function RowOf(e: Entry<real>): MarkRow {
    MarkRow(e.key, Some(e.value))
  }

  function RowsOf(marks: seq<Entry<real>>): (rows: seq<MarkRow>)
    ensures |rows| == |marks|
    ensures forall i :: 0 <= i < |marks| ==> rows[i] == RowOf(marks[i])
  {
    seq(|marks|, i requires 0 <= i < |marks| => RowOf(marks[i]))
  }

  /** Submitting the rows of distinct, trimmed, non-empty subjects stores each
      mark in turn under a new key. */
  lemma {:induction false} PayloadOfRows(marks: seq<Entry<real>>)
    requires DistinctKeys(marks)
    requires forall e :: e in marks ==> e.key != "" && Trimmed(e.key, JavaScript)
    ensures Payload(RowsOf(marks)) == marks
  {
    if marks != [] {
      var p, e := marks[..|marks| - 1], marks[|marks| - 1];
      assert RowsOf(marks) == RowsOf(p) + [RowOf(e)];
      LastKeyNew(marks);
      forall x | x in p ensures x.key != "" && Trimmed(x.key, JavaScript) {
        assert x in marks;
      }
      PayloadOfRows(p);
      PayloadSnoc(RowsOf(p), RowOf(e));
      assert e in marks;
      StoreNewMark(p, e);
      assert p + [e] == marks;
    }
  }

  /** The last key of a map is not among the keys before it, which are distinct. */
  lemma {:induction false} LastKeyNew<V>(m: seq<Entry<V>>)
    requires m != [] && DistinctKeys(m)
    ensures DistinctKeys(m[..|m| - 1])
    ensures m[|m| - 1].key !in Keys(m[..|m| - 1])
  {
    var p := m[..|m| - 1];
    forall j | 0 <= j < |p| ensures Keys(p)[j] != m[|m| - 1].key {
      assert p[j] == m[j];
    }
  }

  /** The row of a mark with a new, trimmed, non-empty subject appends that mark. */
  lemma {:induction false} StoreNewMark(payload: seq<Entry<real>>, e: Entry<real>)
    requires e.key != "" && Trimmed(e.key, JavaScript) && e.key !in Keys(payload)
    ensures Store(payload, RowOf(e)) == payload + [e]
  {
    assert JsTrim(e.key) == e.key;
  }

  /** Opening a record's marks in the form and submitting them unchanged gives the
      same marks back, provided the subjects are distinct, trimmed and non-empty
      and the scores lie in [0, 100]; a record without marks is refused. */
  lemma {:induction false} RowsRoundTrip(marks: seq<Entry<real>>)
    requires DistinctKeys(marks)
    requires forall e :: e in marks ==> e.key != "" && Trimmed(e.key, JavaScript) && 0.0 <= e.value <= 100.0
    ensures Submission(MarksToRows(marks)) == if marks == [] then Err(NoSubjects) else Ok(marks)
  {
    var rows := MarksToRows(marks);
    if marks == [] {
      assert !Kept(BlankRow);
      PayloadSnoc([], BlankRow);
      FirstInvalidSnoc([], BlankRow);
      assert [] + [BlankRow] == rows;
    } else {
      PayloadOfRows(marks);
      forall i | 0 <= i < |rows| ensures !Rejects(rows[i]) {
        assert marks[i] in marks;
      }
      if FirstInvalid(rows).Some? {
        assert false;
      }
    }
  }

  /** `addSubject`: one blank row at the end. */
  function AddSubject(rows: seq<MarkRow>): (r: seq<MarkRow>)
    ensures |r| == |rows| + 1 && r[..|rows|] == rows && r[|rows|] == BlankRow
  {
    rows + [BlankRow]
  }

  /** `removeSubject(index)`: the rows at every position other than `index`. */
  function RemoveSubject(rows: seq<MarkRow>, index: int): (r: seq<MarkRow>)
    ensures 0 <= index < |rows| ==> r == rows[..index] + rows[index + 1..]
    ensures !(0 <= index < |rows|) ==> r == rows
  {
    if rows == [] then []
    else
      var p := rows[..|rows| - 1];
      var prev := RemoveSubject(p, index);
      assert rows == p + [rows[|rows| - 1]];
      if index == |rows| - 1 then prev else prev + [rows[|rows| - 1]]
  }

  /** Adding a row and removing it again leaves the rows as they were. */
  lemma {:induction false} AddThenRemove(rows: seq<MarkRow>)
    ensures RemoveSubject(AddSubject(rows), |rows|) == rows
  {
  }

  /** A new blank row does not change what is submitted. */
  lemma {:induction false} AddSubjectKeepsSubmission(rows: seq<MarkRow>)
    ensures Submission(AddSubject(rows)) == Submission(rows)
  {
    assert !Kept(BlankRow);
    BlankRowIgnored(rows, BlankRow, []);
    assert rows + [BlankRow] + [] == AddSubject(rows) && rows + [] == rows;
  }

  /** Removing a blank row does not change what is submitted. */
  lemma {:induction false} RemoveBlankKeepsSubmission(rows: seq<MarkRow>, index: int)
    requires 0 <= index < |rows| && !Kept(rows[index])
    ensures Submission(RemoveSubject(rows, index)) == Submission(rows)
  {
    var a, b := rows[..index], rows[index + 1..];
    assert RemoveSubject(rows, index) == a + b;
    assert a + [rows[index]] + b == rows;
    BlankRowIgnored(a, rows[index], b);
  }

  // ---------------------------------------------------------------------------
  // Editing a row in place

  /** A row object of the form's state, edited in place. */
  class Row {
    var subject: string
    var score: Option<real>

    constructor (subject: string, score: Option<real>)
      ensures this.subject == subject && this.score == score
    {
      this.subject := subject;
      this.score := score;
    }

    function Value(): MarkRow
      reads this
    {
      MarkRow(subject, score)
    }
  }

  /** A new value for one field of a row. */
  datatype Edit = SetSubject(subject: string) | SetScore(score: Option<real>)

  function Apply(row: MarkRow, e: Edit): (r: MarkRow)
    ensures e.SetSubject? ==> r.subject == e.subject && r.score == row.score
    ensures e.SetScore? ==> r.score == e.score && r.subject == row.subject
  {
    match e
    case SetSubject(s) => row.(subject := s)
    case SetScore(v) => row.(score := v)
  }

  /** `handleSubjectChange(index, field, value)`: the array is copied but the row
      objects are shared, and the given row's field is overwritten in place, so the
      change is visible through the old array as well. Only that field of that row
      changes. */
  method HandleSubjectChange(marks: seq<Row>, index: int, e: Edit) returns (newMarks: seq<Row>)
    requires 0 <= index < |marks|
    modifies marks[index]
    ensures newMarks == marks
    ensures marks[index].Value() == Apply(old(marks[index].Value()), e)
    ensures forall j :: 0 <= j < |marks| && marks[j] != marks[index] ==> marks[j].Value() == old(marks[j].Value())
  {
    newMarks := marks;
    match e
    case SetSubject(s) => newMarks[index].subject := s;
    case SetScore(v) => newMarks[index].score := v;
  }
}

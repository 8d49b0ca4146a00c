/** The `Student` object of the Java backend (backend/Student.java) as the server
    holds it: four fields changed in place by setters, the two writers that fill a
    `StringBuilder` in a loop, and the readers that fill a map in a loop. Each is
    proved against the functions of `StudentRecord`. */
module Students {
  import opened Wrappers
  import opened Text
  import opened Marks
  import opened StudentRecord

  class Student {
    var rollNumber: int
    var name: string
    var course: string
    var subjectMarks: Option<seq<Entry<int>>>

    /** The fields as a value. */
    function Value(): Record
      reads this
    {
      Record(rollNumber, name, course, subjectMarks)
    }

    constructor (rollNumber: int, name: string, course: string, subjectMarks: Option<seq<Entry<int>>>)
      ensures Value() == Record(rollNumber, name, course, subjectMarks)
    {
      this.rollNumber := rollNumber;
      this.name := name;
      this.course := course;
      this.subjectMarks := subjectMarks;
    }

    method SetRollNumber(rollNumber: int)
      modifies this
      ensures Value() == old(Value()).(rollNumber := rollNumber)
    {
      this.rollNumber := rollNumber;
    }

    method SetName(name: string)
      modifies this
      ensures Value() == old(Value()).(name := name)
    {
      this.name := name;
    }

    method SetCourse(course: string)
      modifies this
      ensures Value() == old(Value()).(course := course)
    {
      this.course := course;
    }

    method SetSubjectMarks(subjectMarks: Option<seq<Entry<int>>>)
      modifies this
      ensures Value() == old(Value()).(subjectMarks := subjectMarks)
    {
      this.subjectMarks := subjectMarks;
    }

    /** `toFileString()`: the line a roster file holds for this student. */
    method ToFileString() returns (line: string)
      ensures line == FileLine(Value())
    {
      var sb := IntToString(rollNumber) + "," + name + "," + course + ",";
      var mb := "";
      if subjectMarks.Some? {
        mb := FileMarks(subjectMarks.value);
      }
      line := sb + mb;
      JoinFour(IntToString(rollNumber), name, course, mb);
    }

    /** `toJson()`: the JSON object the server answers with for this student. */
    method ToJson() returns (json: string)
      ensures json == JsonText(Value())
    {
      var sb := "{";
      sb := sb + "\"rollNumber\":" + IntToString(rollNumber) + ",";
      sb := sb + "\"name\":\"" + Escape(name) + "\",";
      sb := sb + "\"course\":\"" + Escape(course) + "\",";
      sb := sb + "\"percentage\":" + Fixed2(Percentage(subjectMarks)) + ",";
      sb := sb + "\"grade\":\"" + Grade(subjectMarks) + "\",";
      sb := sb + "\"marks\":{";
      assert sb == JsonHead(Value()) + "\"marks\":{";
      var mb := "";
      if subjectMarks.Some? {
        mb := JsonMarks(subjectMarks.value);
      }
      json := sb + mb + "}" + "}";
    }
  }

  /** The marks loop of `toFileString()`: a '|' before every piece once the
      builder holds something. */
  method FileMarks(m: seq<Entry<int>>) returns (mb: string)
    ensures mb == MarksText(FileFormat, m)
  {
    mb := "";
    var i := 0;
    while i < |m|
      invariant 0 <= i <= |m|
      invariant mb == MarksText(FileFormat, m[..i])
      invariant |mb| > 0 <==> i > 0
    {
      var piece := m[i].key + ":" + IntToString(m[i].value);
      FileMarksStep(m, i);
      if |mb| > 0 {
        mb := mb + "|";
      }
      mb := mb + piece;
      i := i + 1;
    }
    assert m[..i] == m;
  }

  /** One more entry adds its piece, after a '|' unless it is the first. */
  lemma {:induction false} FileMarksStep(m: seq<Entry<int>>, i: nat)
    requires i < |m|
    ensures MarksText(FileFormat, m[..i + 1]) ==
      (if i == 0 then "" else MarksText(FileFormat, m[..i]) + "|") + (m[i].key + ":" + IntToString(m[i].value))
    ensures |MarksText(FileFormat, m[..i + 1])| > 0
  {
    assert m[..i + 1] == m[..i] + [m[i]];
    MarksTextSnoc(FileFormat, m[..i], m[i]);
    if i == 0 {
      assert m[..i] == [];
    }
  }

  /** The marks loop of `toJson()`: a ',' before every piece but the first. */
  method JsonMarks(m: seq<Entry<int>>) returns (mb: string)
    ensures mb == MarksText(JsonFormat, m)
  {
    mb := "";
    var i := 0;
    while i < |m|
      invariant 0 <= i <= |m|
      invariant mb == MarksText(JsonFormat, m[..i])
    {
      var piece := "\"" + m[i].key + "\":" + IntToString(m[i].value);
      JsonMarksStep(m, i);
      if i > 0 {
        mb := mb + ",";
      }
      mb := mb + piece;
      i := i + 1;
    }
    assert m[..i] == m;
  }

  /** One more entry adds its piece, after a ',' unless it is the first. */
  lemma {:induction false} JsonMarksStep(m: seq<Entry<int>>, i: nat)
    requires i < |m|
    ensures MarksText(JsonFormat, m[..i + 1]) ==
      (if i == 0 then MarksText(JsonFormat, m[..i]) else MarksText(JsonFormat, m[..i]) + ",")
      + ("\"" + m[i].key + "\":" + IntToString(m[i].value))
  {
    assert m[..i + 1] == m[..i] + [m[i]];
    MarksTextSnoc(JsonFormat, m[..i], m[i]);
    if i == 0 {
      assert m[..i] == [];
    }
  }

  /** Four fields joined with ',' are the fields with a ',' after each of the
      first three. */
  lemma {:induction false} JoinFour(a: string, b: string, c: string, d: string)
    ensures Join([a, b, c, d], ',') == a + "," + b + "," + c + "," + d
  {
    assert [a, b, c, d][..3] == [a, b, c];
    assert [a, b, c][..2] == [a, b];
    assert [a, b][..1] == [a];
    assert Join([a, b], ',') == a + [','] + b;
    assert Join([a, b, c], ',') == a + [','] + b + [','] + c;
  }

  /** `fromFileString(line)`: a new student for a line that parses, null
      otherwise. */
  method FromFileString(line: string) returns (s: Student?)
    ensures s == null <==> ParseFileLine(line).None?
    ensures s != null ==> fresh(s) && s.Value() == ParseFileLine(line).value
  {
    var parts := JavaSplit(line, ',');
    if |parts| < 4 {
      return null;
    }
    var roll := ParseInt(parts[0]);
    if roll.None? {
      return null;
    }
    var marks: seq<Entry<int>> := [];
    if parts[3] != "" {
      var subjects := JavaSplit(parts[3], '|');
      ghost var steps := Steps(FileFormat, subjects);
      var i := 0;
      while i < |subjects|
        invariant 0 <= i <= |subjects|
        invariant Collect(marks, steps[i..]) == Collect([], steps)
      {
        assert steps[i..][1..] == steps[i + 1..];
        var kv := JavaSplit(subjects[i], ':');
        if |kv| == 2 {
          var v := ParseInt(kv[1]);
          if v.None? {
            return null;
          }
          marks := Put(marks, kv[0], v.value);
        }
        i := i + 1;
      }
    }
    s := new Student(roll.value, parts[1], parts[2], Some(marks));
  }

  /** `extractInt(json, key)`: the index advances over the run of digits and '.'
      after the first `"key":`. */
  method ExtractInt(json: string, key: string) returns (n: int)
    ensures n == IntField(json, key)
  {
    var pat := "\"" + key + "\":";
    var at := IndexOf(json, pat, 0);
    if at == -1 {
      return 0;
    }
    var start := at + |key| + 3;  // just past the pattern
    var i := start;
    while i < |json| && (IsDigit(json[i]) || json[i] == '.')
      invariant start <= i <= |json|
      invariant RunEnd(json, i) == RunEnd(json, start)
      decreases |json| - i
    {
      i := i + 1;
    }
    var v := ParseInt(json[start..i]);
    n := if v.Some? then v.value else 0;
    IntFieldAt(json, key, at, n);
  }

  /** `extractMarks(json)`: the pairs of the marks object put into a map one by
      one; a value that does not parse ends the loop with the map as it stands. */
  method ExtractMarks(json: string) returns (m: seq<Entry<int>>)
    ensures m == MarksField(json)
  {
    m := [];
    var pat := "\"marks\":{";
    var at := IndexOf(json, pat, 0);
    if at == -1 {
      MarksFieldNone(json);
      return;
    }
    var start := at + |pat|;
    var end := IndexOf(json, "}", start);
    if end == -1 {
      MarksAtUnclosed(json, start);
      MarksFieldAt(json, at, m);
      return;
    }
    var pairs := JavaSplit(json[start..end], ',');
    ghost var steps := Steps(JsonFormat, pairs);
    var i := 0;
    while i < |pairs|
      invariant 0 <= i <= |pairs|
      invariant Collect(m, steps[i..]) == Collect([], steps)
    {
      assert steps[i..][1..] == steps[i + 1..];
      var kv := JavaSplit(pairs[i], ':');
      if |kv| == 2 {
        var k := JavaTrim(ReplaceChar(kv[0], '"', ""));
        var v := ParseInt(JavaTrim(kv[1]));
        if v.None? {
          break;
        }
        m := Put(m, k, v.value);
      }
      i := i + 1;
    }
    assert Collect([], steps).marks == m;
    MarksAtIs(json, start, end, m);
    MarksFieldAt(json, at, m);
  }

  /** `fromJson(json)`: a new student from the fields of the body; it never fails. */
  method FromJson(json: string) returns (s: Student)
    ensures fresh(s) && s.Value() == JsonRecord(json)
  {
    var body := JavaTrim(json);
    if |body| > 0 && body[0] == '{' {
      body := body[1..];
    }
    if |body| > 0 && body[|body| - 1] == '}' {
      body := body[..|body| - 1];
    }
    assert body == StripBraces(JavaTrim(json));
    var roll := ExtractInt(body, "rollNumber");
    var name := StringField(body, "name");
    var course := StringField(body, "course");
    var marks := ExtractMarks(body);
    s := new Student(roll, name, course, Some(marks));
  }
}

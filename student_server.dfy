/** The roster kept by the Java server (backend/StudentServer.java): the in-memory
    list of students with the add, update and delete handlers run on it, the
    roll number read from a request path, and the admin profile's field reader.
    HTTP, the roster file and the `synchronized` blocks are not modelled; each
    handler runs as one sequential step on the list. */
module StudentServer {
  import opened Wrappers
  import opened Seqs
  import opened Text
  import opened Sorting
  import opened StudentRecord
  import opened Students

  // ---------------------------------------------------------------------------
  // Roll numbers

  /** `students.stream().mapToInt(getRollNumber).max().orElse(0)`. */
  function MaxRoll(rs: seq<Record>): int {
    if rs == [] then 0
    else if |rs| == 1 then rs[0].rollNumber
    else
      var m := MaxRoll(rs[..|rs| - 1]);
      if rs[|rs| - 1].rollNumber > m then rs[|rs| - 1].rollNumber else m
  }

  /** The largest roll of a non-empty roster is one of its rolls and no roll
      exceeds it; an empty roster gives 0. */
  lemma {:induction false} MaxRollIsMax(rs: seq<Record>)
    ensures rs == [] ==> MaxRoll(rs) == 0
    ensures rs != [] ==> exists i :: 0 <= i < |rs| && rs[i].rollNumber == MaxRoll(rs)
    ensures forall i :: 0 <= i < |rs| ==> rs[i].rollNumber <= MaxRoll(rs)
  {
    if |rs| > 1 {
      var p := rs[..|rs| - 1];
      MaxRollIsMax(p);
      forall i | 0 <= i < |p| ensures p[i] == rs[i] {
      }
      if rs[|rs| - 1].rollNumber <= MaxRoll(p) {
        var i :| 0 <= i < |p| && p[i].rollNumber == MaxRoll(p);
        assert rs[i].rollNumber == MaxRoll(rs);
      } else {
        assert rs[|rs| - 1].rollNumber == MaxRoll(rs);
      }
    } else if |rs| == 1 {
      assert rs[0].rollNumber == MaxRoll(rs);
    }
  }

  /** `maxRoll + 1` in Java `int` arithmetic. */
  function NextRoll(rs: seq<Record>): int {
    Wrap32(MaxRoll(rs) + 1)
  }

  lemma {:induction false} NextRollIs(rs: seq<Record>, m: int, n: int)
    requires MaxRoll(rs) == m && Wrap32(m + 1) == n
    ensures NextRoll(rs) == n
  {
  }

  /** No two records share a roll number. */
  predicate DistinctRolls(rs: seq<Record>) {
    forall i, j :: 0 <= i < j < |rs| ==> rs[i].rollNumber != rs[j].rollNumber
  }

  /** The roll an add hands out is 1 for an empty roster, and otherwise above
      every roll in use, unless the largest roll is the largest `int`. */
  lemma {:induction false} NextRollFresh(rs: seq<Record>)
    requires forall i :: 0 <= i < |rs| ==> InInt32(rs[i].rollNumber)
    ensures rs == [] ==> NextRoll(rs) == 1
    ensures MaxRoll(rs) < Int32Max ==> forall i :: 0 <= i < |rs| ==> rs[i].rollNumber < NextRoll(rs)
  {
    MaxRollIsMax(rs);
    if rs != [] {
      var i :| 0 <= i < |rs| && rs[i].rollNumber == MaxRoll(rs);
      assert InInt32(MaxRoll(rs));
    }
  }

  /** `handleAdd` on the values: the new record, with the next roll, goes last. */
  function Added(rs: seq<Record>, r: Record): seq<Record> {
    rs + [r.(rollNumber := NextRoll(rs))]
  }

  /** An add keeps the rolls distinct and the records before it as they were,
      while the largest roll is below the largest `int`. */
  lemma {:induction false} AddKeepsRollsDistinct(rs: seq<Record>, r: Record)
    requires DistinctRolls(rs)
    requires forall i :: 0 <= i < |rs| ==> InInt32(rs[i].rollNumber)
    requires MaxRoll(rs) < Int32Max
    ensures DistinctRolls(Added(rs, r))
    ensures Added(rs, r)[..|rs|] == rs
    ensures Added(rs, r)[|rs|].rollNumber == NextRoll(rs)
  {
    NextRollFresh(rs);
    var a := Added(rs, r);
    assert a[..|rs|] == rs;
    forall i, j | 0 <= i < j < |a| ensures a[i].rollNumber != a[j].rollNumber {
      if j == |rs| {
        assert a[i] == rs[i];
      } else {
        assert a[i] == rs[i] && a[j] == rs[j];
      }
    }
  }

  /** At the largest `int` the next roll wraps round to the smallest one, which a
      record may already have. */
  lemma {:induction false} RollWrapCollides()
    ensures var rs := [Record(Int32Max, "A", "X", None), Record(Int32Min, "B", "Y", None)];
      DistinctRolls(rs) && NextRoll(rs) == rs[1].rollNumber && !DistinctRolls(Added(rs, rs[0]))
  {
    var rs := [Record(Int32Max, "A", "X", None), Record(Int32Min, "B", "Y", None)];
    assert rs[..1] == [rs[0]];
    assert MaxRoll(rs) == Int32Max;
    var a := Added(rs, rs[0]);
    assert a[1].rollNumber == a[2].rollNumber;
  }

  // ---------------------------------------------------------------------------
  // Update and delete on the values

  /** `students.stream().filter(s -> s.getRollNumber() == roll).findFirst()`, as
      an index. */
  function FindRoll(rs: seq<Record>, roll: int): (r: Option<nat>)
    ensures r.None? <==> forall i :: 0 <= i < |rs| ==> rs[i].rollNumber != roll
    ensures r.Some? ==> r.value < |rs| && rs[r.value].rollNumber == roll
    ensures r.Some? ==> forall i :: 0 <= i < r.value ==> rs[i].rollNumber != roll
  {
    if rs == [] then None
    else if rs[0].rollNumber == roll then Some(0)
    else
      match FindRoll(rs[1..], roll)
      case None =>
        assert forall i :: 1 <= i < |rs| ==> rs[i] == rs[1..][i - 1];
        None
      case Some(k) =>
        assert forall i :: 1 <= i <= k + 1 ==> rs[i] == rs[1..][i - 1];
        Some(k + 1)
  }

  /** The three setters `handleUpdate` applies to the record it found. */
  function WithFields(r: Record, u: Record): Record {
    r.(name := u.name, course := u.course, subjectMarks := u.subjectMarks)
  }

  /** `handleUpdate` on the values: the first record with the roll takes the
      name, course and marks of `u`; without one nothing changes. */
  function Updated(rs: seq<Record>, roll: int, u: Record): seq<Record> {
    match FindRoll(rs, roll)
    case None => rs
    case Some(k) => rs[k := WithFields(rs[k], u)]
  }

  /** An update changes one record at most, never a roll, and only the first record
      holding the roll; the record changed holds the new fields. */
  lemma {:induction false} UpdateChangesFirstOnly(rs: seq<Record>, roll: int, u: Record)
    ensures |Updated(rs, roll, u)| == |rs|
    ensures forall i :: 0 <= i < |rs| ==> Updated(rs, roll, u)[i].rollNumber == rs[i].rollNumber
    ensures forall i :: 0 <= i < |rs| && Updated(rs, roll, u)[i] != rs[i] ==>
      FindRoll(rs, roll) == Some(i) && Updated(rs, roll, u)[i] == WithFields(rs[i], u)
    ensures FindRoll(rs, roll).None? ==> Updated(rs, roll, u) == rs
  {
  }

  /** Updating twice with the same body is updating once. */
  lemma {:induction false} UpdateIdempotent(rs: seq<Record>, roll: int, u: Record)
    ensures Updated(Updated(rs, roll, u), roll, u) == Updated(rs, roll, u)
  {
    var t := Updated(rs, roll, u);
    UpdateChangesFirstOnly(rs, roll, u);
    match FindRoll(rs, roll)
    case None =>
    case Some(k) =>
      assert FindRoll(t, roll) == Some(k) by {
        assert forall i :: 0 <= i < k ==> t[i].rollNumber != roll;
      }
  }

  /** An update keeps the rolls distinct. */
  lemma {:induction false} UpdateKeepsRollsDistinct(rs: seq<Record>, roll: int, u: Record)
    requires DistinctRolls(rs)
    ensures DistinctRolls(Updated(rs, roll, u))
  {
    UpdateChangesFirstOnly(rs, roll, u);
  }

  function KeepsRoll(roll: int): Record -> bool {
    (r: Record) => r.rollNumber != roll
  }

  /** `students.removeIf(s -> s.getRollNumber() == roll)` on the values. */
  function Deleted(rs: seq<Record>, roll: int): seq<Record> {
    Filter(rs, KeepsRoll(roll))
  }

  /** A delete keeps exactly the records with other rolls, in their order, and
      removes something exactly when some record has the roll. */
  lemma {:induction false} DeleteRemovesRoll(rs: seq<Record>, roll: int)
    ensures forall r :: r in Deleted(rs, roll) <==> r in rs && r.rollNumber != roll
    ensures |Deleted(rs, roll)| < |rs| <==> exists i :: 0 <= i < |rs| && rs[i].rollNumber == roll
  {
    FilterDrops(rs, KeepsRoll(roll));
  }

  /** One more record considered: it is kept unless it has the roll. */
  lemma {:induction false} DeleteSnoc(rs: seq<Record>, i: nat, roll: int)
    requires i < |rs|
    ensures Deleted(rs[..i + 1], roll) ==
      Deleted(rs[..i], roll) + (if rs[i].rollNumber != roll then [rs[i]] else [])
  {
    assert rs[..i + 1] == rs[..i] + [rs[i]];
    DeleteKeepsOrder(rs[..i], [rs[i]], roll);
    assert [rs[i]][1..] == [];
  }

  /** A delete keeps the rolls distinct. */
  lemma {:induction false} DeleteKeepsRollsDistinct(rs: seq<Record>, roll: int)
    requires DistinctRolls(rs)
    ensures DistinctRolls(Deleted(rs, roll))
    decreases |rs|
  {
    if rs != [] {
      var t := rs[1..];
      assert DistinctRolls(t) by {
        forall i, j | 0 <= i < j < |t| ensures t[i].rollNumber != t[j].rollNumber {
          assert t[i] == rs[i + 1] && t[j] == rs[j + 1];
        }
      }
      DeleteKeepsRollsDistinct(t, roll);
      var d := Deleted(t, roll);
      assert forall r :: r in d ==> r in t by {
        DeleteRemovesRoll(t, roll);
      }
      forall r | r in d ensures r.rollNumber != rs[0].rollNumber {
        var k :| 0 <= k < |t| && t[k] == r;
        assert rs[k + 1] == r;
      }
      if rs[0].rollNumber != roll {
        var a := [rs[0]] + d;
        forall i, j | 0 <= i < j < |a| ensures a[i].rollNumber != a[j].rollNumber {
          assert a[j] == d[j - 1] && a[j] in d;
          if i > 0 {
            assert a[i] == d[i - 1];
          }
        }
      }
    }
  }

  /** Deleting from a concatenation deletes from each part: the records kept stay
      in their order. */
  lemma {:induction false} DeleteKeepsOrder(a: seq<Record>, b: seq<Record>, roll: int)
    ensures Deleted(a + b, roll) == Deleted(a, roll) + Deleted(b, roll)
  {
    FilterAppend(a, b, KeepsRoll(roll));
  }

  // ---------------------------------------------------------------------------
  // The roll in a request path

  /** What `StudentSpecificHandler` makes of a path: "Invalid ID" when it has fewer
      than four '/'-separated segments, "Invalid Roll Number" when the fourth is not
      an `int`, and the roll otherwise. */
  datatype PathRoll = InvalidId | InvalidRollNumber | Roll(roll: int)

  /** The fourth segment read with `Integer.parseInt`. */
  function SegmentRoll(seg: string): PathRoll {
    match ParseInt(seg)
    case None => InvalidRollNumber
    case Some(n) => Roll(n)
  }

  function ParseRollPath(path: string): PathRoll
  {
    var segments := JavaSplit(path, '/');
    if |segments| < 4 then InvalidId else SegmentRoll(segments[3])
  }

  /** `/api/students/<segment>` for a segment without '/': the segment's `int`, or
      "Invalid Roll Number" when it does not parse; an empty segment leaves only
      three segments. */
  lemma {:induction false} StudentPath(seg: string)
    requires '/' !in seg
    ensures seg == "" ==> ParseRollPath("/api/students/" + seg) == InvalidId
    ensures seg != "" ==> ParseRollPath("/api/students/" + seg) == SegmentRoll(seg)
  {
    var path := "/api/students/" + seg;
    assert path == "" + ['/'] + ("api" + ['/'] + ("students" + ['/'] + seg));
    assert '/' !in "" && '/' !in "api" && '/' !in "students";
    SplitAfterPiece("", "api" + ['/'] + ("students" + ['/'] + seg), '/');
    SplitAfterPiece("api", "students" + ['/'] + seg, '/');
    SplitAfterPiece("students", seg, '/');
    SplitWithoutSeparator(seg, '/');
    var all := ["", "api", "students", seg];
    assert SplitAll(path, '/') == all;
    if seg == "" {
      assert all[..3] == ["", "api", "students"];
    } else {
      JavaSplitKeepsAll(path, '/');
    }
  }

  /** The path the frontend builds for a roll leads back to that roll. */
  lemma {:induction false} RollPathRoundTrip(n: int)
    requires InInt32(n)
    ensures ParseRollPath("/api/students/" + IntToString(n)) == Roll(n)
  {
    var seg := IntToString(n);
    IntToStringChars(n);
    assert '/' !in seg by {
      forall i | 0 <= i < |seg| ensures seg[i] != '/' {
      }
    }
    StudentPath(seg);
    ParseIntToString(n);
  }

  // ---------------------------------------------------------------------------
  // The in-memory roster

  /** The records of a list of students, in list order. */
  function RecordsOf(ss: seq<Student>): (rs: seq<Record>)
    reads ss
    ensures |rs| == |ss|
    ensures forall i :: 0 <= i < |ss| ==> rs[i] == ss[i].Value()
  {
    seq(|ss|, i requires 0 <= i < |ss| reads ss => ss[i].Value())
  }

  lemma {:induction false} RecordsOfSnoc(ss: seq<Student>, x: Student)
    ensures RecordsOf(ss + [x]) == RecordsOf(ss) + [x.Value()]
  {
  }

  /** No student object is in a list twice. */
  ghost predicate DistinctObjects(ss: seq<Student>) {
    forall i, j :: 0 <= i < j < |ss| ==> ss[i] != ss[j]
  }

  lemma {:induction false} NotEarlier(ss: seq<Student>, i: nat)
    requires DistinctObjects(ss) && i < |ss|
    ensures ss[i] !in ss[..i]
  {
    forall j | 0 <= j < i ensures ss[..i][j] != ss[i] {
      assert ss[..i][j] == ss[j];
    }
  }

  /** The server's `students` list: every handler changes it, or the students in
      it, in place. */
  class Server {
    var students: seq<Student>

    /** The list never holds one student object twice: each comes from a parse. */
    ghost predicate Valid()
      reads this
    {
      DistinctObjects(students)
    }

    function Records(): seq<Record>
      reads this, students
    {
      RecordsOf(students)
    }

    /** An empty roster (the file is not modelled). */
    constructor ()
      ensures Valid() && students == []
    {
      students := [];
    }

    /** `handleAdd(body)`: the body is parsed, given the next roll and appended;
        the records before it are untouched. */
    method HandleAdd(body: string) returns (s: Student)
      requires Valid()
      modifies this
      ensures Valid() && fresh(s)
      ensures students == old(students) + [s]
      ensures Records() == Added(old(Records()), JsonRecord(body))
    {
      s := FromJson(body);
      AddParsed(s);
    }

    /** The locked part of `handleAdd`: `maxRoll + 1` for the parsed student, who
        then joins the end of the list. */
    method AddParsed(s: Student)
      requires Valid() && s !in students
      modifies this, s
      ensures Valid()
      ensures students == old(students) + [s]
      ensures Records() == Added(old(Records()), old(s.Value()))
    {
      ghost var before := Records();
      var maxRoll := MaxRoll(Records());
      var newRoll := Wrap32(maxRoll + 1);
      NextRollIs(before, maxRoll, newRoll);
      s.SetRollNumber(newRoll);
      assert RecordsOf(students) == before;
      RecordsOfSnoc(students, s);
      students := students + [s];
    }

    /** `handleUpdate(roll, body)`: the first student with the roll takes the
        parsed name, course and marks; `found` is false, and nothing changes, when
        no student has the roll. */
    method HandleUpdate(roll: int, body: string) returns (found: bool)
      requires Valid()
      modifies set s | s in students
      ensures Valid() && students == old(students)
      ensures found <==> exists i :: 0 <= i < |old(Records())| && old(Records())[i].rollNumber == roll
      ensures Records() == Updated(old(Records()), roll, JsonRecord(body))
    {
      var updates := FromJson(body);
      found := UpdateParsed(roll, updates);
    }

    /** The locked part of `handleUpdate`: the setters applied to the first student
        with the roll. */
    method UpdateParsed(roll: int, updates: Student) returns (found: bool)
      requires Valid() && updates !in students
      modifies set s | s in students
      ensures Valid() && students == old(students)
      ensures found <==> exists i :: 0 <= i < |old(Records())| && old(Records())[i].rollNumber == roll
      ensures Records() == Updated(old(Records()), roll, updates.Value())
    {
      var k := FindRoll(Records(), roll);
      if k.None? {
        return false;
      }
      var s := students[k.value];
      s.SetName(updates.name);
      s.SetCourse(updates.course);
      s.SetSubjectMarks(updates.subjectMarks);
      found := true;
      forall i | 0 <= i < |students| && i != k.value ensures students[i].Value() == old(students[i].Value()) {
        assert students[i] != s;
      }
    }

    /** `StudentSpecificHandler.handle`: the roll is read from the path before the
        list is touched; a rejected path, OPTIONS and any other method leave the
        roster as it was, PUT updates and DELETE deletes. */
    method HandleSpecific(path: string, verb: Verb, body: string) returns (reply: Reply)
      requires Valid()
      modifies this, set s | s in students
      ensures Valid()
      ensures reply.Rejected? <==> !ParseRollPath(path).Roll?
      ensures reply.Rejected? ==> reply.reason == ParseRollPath(path)
      ensures (reply.Rejected? || verb == Options || verb == OtherVerb) ==>
        students == old(students) && Records() == old(Records())
      ensures ParseRollPath(path).Roll? && verb == Put ==>
        reply.UpdateReply? && Records() == Updated(old(Records()), ParseRollPath(path).roll, JsonRecord(body))
      ensures ParseRollPath(path).Roll? && verb == Delete ==>
        reply.DeleteReply? && Records() == Deleted(old(Records()), ParseRollPath(path).roll)
      ensures ParseRollPath(path).Roll? && verb == Options ==> reply == NoContent
      ensures ParseRollPath(path).Roll? && verb == OtherVerb ==> reply == MethodNotAllowed
    {
      var target := ParseRollPath(path);
      if !target.Roll? {
        return Rejected(target);
      }
      var roll := target.roll;
      if verb == Put {
        var found := HandleUpdate(roll, body);
        reply := UpdateReply(found);
      } else if verb == Delete {
        var removed := HandleDelete(roll);
        reply := DeleteReply(removed);
      } else if verb == Options {
        reply := NoContent;
      } else {
        reply := MethodNotAllowed;
      }
    }

    /** `handleDelete(roll)`: every student with the roll leaves the list, the rest
        keep their order; `removed` tells whether any left. */
    method HandleDelete(roll: int) returns (removed: bool)
      requires Valid()
      modifies this
      ensures Valid()
      ensures removed <==> exists i :: 0 <= i < |old(Records())| && old(Records())[i].rollNumber == roll
      ensures Records() == Deleted(old(Records()), roll)
    {
      ghost var before := Records();
      var kept: seq<Student> := [];
      var i := 0;
      while i < |students|
        invariant 0 <= i <= |students|
        invariant DistinctObjects(kept)
        invariant forall x :: x in kept ==> x in students[..i]
        invariant students == old(students) && |before| == |students|
        invariant RecordsOf(kept) == Deleted(before[..i], roll)
      {
        DeleteSnoc(before, i, roll);
        if students[i].rollNumber != roll {
          NotEarlier(students, i);
          RecordsOfSnoc(kept, students[i]);
          kept := kept + [students[i]];
        }
        i := i + 1;
      }
      assert before[..i] == before;
      DeleteRemovesRoll(before, roll);
      removed := |kept| < |students|;
      students := kept;
    }
  }

  /** The request methods `StudentSpecificHandler` tells apart. */
  datatype Verb = Put | Delete | Options | OtherVerb

  /** What `StudentSpecificHandler` answers: a rejected path, the outcome of an
      update or a delete, 204 for OPTIONS, or 405. */
  datatype Reply = Rejected(reason: PathRoll) | UpdateReply(found: bool) | DeleteReply(removed: bool)
    | NoContent | MethodNotAllowed

  // ---------------------------------------------------------------------------
  // The admin profile

  datatype AdminProfile = AdminProfile(name: string, email: string, role: string)

  /** `AdminProfile.extract(json, key)`: "" when `"key":"` is absent, the text up to
      the next '"' otherwise; None where `substring` throws because no '"'
      follows. */
  function Extract(json: string, key: string): Option<string> {
    match LookupString(json, key)
    case Absent => Some("")
    case Unterminated => None
    case Found(t) => Some(t)
  }

  /** No `"key":"`: the field reads as "". */
  lemma {:induction false} ExtractAbsent(json: string, key: string)
    requires !Contains(json, "\"" + key + "\":\"")
    ensures Extract(json, key) == Some("")
  {
    IndexOfAbsent(json, "\"" + key + "\":\"");
  }

  /** After the first `"key":"`, text without a quote followed by a quote is what is
      read. */
  lemma {:induction false} ExtractReads(json: string, key: string, p: nat, v: string, rest: string)
    requires FirstAt(json, "\"" + key + "\":\"", p)
    requires json[p + |key| + 4..] == v + "\"" + rest && '"' !in v
    ensures Extract(json, key) == Some(v)
  {
    IndexOfFirstAt(json, "\"" + key + "\":\"", p);
    QuotedTextReads(json, p + |key| + 4, v, rest);
    LookupAt(json, key, p, Found(v));
  }

  /** Where it does not throw, `extract` reads what the student parser's
      `extractString` reads, and so never a quote. */
  lemma {:induction false} ExtractAgrees(json: string, key: string)
    ensures Extract(json, key).Some? ==> Extract(json, key).value == StringField(json, key)
    ensures Extract(json, key).Some? ==> '"' !in Extract(json, key).value
  {
    StringFieldNoQuote(json, key);
  }

  /** `AdminProfile.fromJson(json)`: the three fields, or null when any of them
      throws. */
  function AdminFromJson(json: string): Option<AdminProfile> {
    match (Extract(json, "name"), Extract(json, "email"), Extract(json, "role"))
    case (Some(n), Some(e), Some(r)) => Some(AdminProfile(n, e, r))
    case _ => None
  }

  /** `AdminProfile.toJson()`: the three fields, each between quotes, unescaped. */
  function AdminToJson(a: AdminProfile): string {
    "{\"name\":\"" + a.name + "\"" + AdminTail(a)
  }

  /** What `toJson` writes after the name. */
  function AdminTail(a: AdminProfile): string {
    ",\"email\":\"" + a.email + "\",\"role\":\"" + a.role + "\"}"
  }

  /** The name a profile is written with is read back, when it holds no quote. */
  lemma {:induction false} AdminNameRoundTrip(a: AdminProfile)
    requires '"' !in a.name
    ensures Extract(AdminToJson(a), "name") == Some(a.name)
  {
    var json := AdminToJson(a);
    var h, pat, t := "{\"name\":\"", "\"name\":\"", AdminTail(a);
    var v := a.name + "\"" + t;
    assert json == h + v by {
      AppendAssoc(h, a.name, "\"");
      AppendAssoc(h, a.name + "\"", t);
    }
    assert json[|h|..] == v;
    assert json[1..] == pat + v by {
      assert h == "{" + pat;
      AppendAssoc("{", pat, v);
    }
    assert json[0] == '{';
    ExtractReads(json, "name", 1, a.name, t);
  }

  /** A body is refused exactly when one of the three keys is present and its text
      is never closed; otherwise each field is what `extract` reads. */
  lemma {:induction false} AdminFromJsonFields(json: string)
    ensures AdminFromJson(json).None? <==>
      LookupString(json, "name").Unterminated? || LookupString(json, "email").Unterminated?
      || LookupString(json, "role").Unterminated?
    ensures AdminFromJson(json).Some? ==>
      Some(AdminFromJson(json).value.name) == Extract(json, "name")
      && Some(AdminFromJson(json).value.email) == Extract(json, "email")
      && Some(AdminFromJson(json).value.role) == Extract(json, "role")
  {
  }
}

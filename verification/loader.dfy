/** `readInStudentsFile` and `readInTeachersFile` without the file: each row
    of an already parsed sheet becomes one record, and the records are then
    deduplicated by identity. */
module Loader {
  import opened PyText
  import opened WeekParser
  import opened Records
  import opened Dedup

  /** The records the rows become, in row order, before deduplication. */
  function MapRows<T>(rows: seq<seq<string>>, build: seq<string> --> T): (r: seq<T>)
    requires forall i :: 0 <= i < |rows| ==> build.requires(rows[i])
    ensures |r| == |rows|
    ensures forall i :: 0 <= i < |r| ==> r[i] == build(rows[i])
  {
    seq(|rows|, i requires 0 <= i < |rows| => build(rows[i]))
  }

  /** Appending the record of row `i` extends the records of the rows before it. */
  lemma MapRowsPush<T>(rows: seq<seq<string>>, build: seq<string> --> T, i: nat, built: seq<T>, x: T)
    requires i < |rows| && forall k :: 0 <= k < |rows| ==> build.requires(rows[k])
    requires built == MapRows(rows[..i], build) && x == build(rows[i])
    ensures built + [x] == MapRows(rows[..i + 1], build)
  {
    var next := MapRows(rows[..i + 1], build);
    assert |built + [x]| == |next|;
    forall k | 0 <= k < |next|
      ensures (built + [x])[k] == next[k]
    {
      assert rows[..i + 1][k] == rows[k];
      if k < i {
        assert rows[..i][k] == rows[k];
      }
    }
  }

  /** The body of the students loop for one row: the flags, the seat count,
      the preferences and the availability list, then the constructor. */
  method StudentOfRow(row: seq<string>) returns (s: Student)
    requires StudentRowDefined(row)
    ensures s == StudentFromRow(row)
  {
    var isDriver := row[3] == "Yes";
    var numSeats := PyInt(row[4]).value;
    var isReturner := row[10] == "Yes";
    var schoolPreference := row[11];
    var teacherPreference := row[12];
    assert [row[5], row[6], row[7], row[8], row[9]] == row[5..10];
    var timeSlotIds := GenerateListOfTimeIntervalIds(row[5], row[6], row[7], row[8], row[9], true);
    s := NewStudent(row[1], isReturner, schoolPreference, teacherPreference, timeSlotIds, isDriver, numSeats);
  }

  /** The body of the teachers loop for one row. */
  method TeacherOfRow(row: seq<string>) returns (t: Teacher)
    requires TeacherRowDefined(row)
    ensures t == TeacherFromRow(row)
  {
    var teacherName := row[1];
    var teacherSchool := row[3];
    assert [row[7], row[8], row[9], row[10], row[11]] == row[7..12];
    var timeSlotIds := GenerateListOfTimeIntervalIds(row[7], row[8], row[9], row[10], row[11], false);
    t := NewTeacher(teacherName, teacherSchool, timeSlotIds);
  }

  /** `readInStudentsFile` on the rows of the sheet: one student per distinct
      id, each of them the student of some row. */
  method ReadInStudents(rows: seq<seq<string>>) returns (students: seq<Student>)
    requires forall i :: 0 <= i < |rows| ==> StudentRowDefined(rows[i])
    ensures IsDedupOf(students, MapRows(rows, StudentFromRow), StudentKey)
  {
    var built: seq<Student> := [];
    for i := 0 to |rows|
      invariant built == MapRows(rows[..i], StudentFromRow)
    {
      var s := StudentOfRow(rows[i]);
      MapRowsPush(rows, StudentFromRow, i, built, s);
      built := built + [s];
    }
    assert rows[..|rows|] == rows;
    students := DedupFirst(built, StudentKey);
  }

  /** `readInTeachersFile` on the rows of the sheet: one teacher per distinct
      school-and-name id, each of them the teacher of some row. */
  method ReadInTeachers(rows: seq<seq<string>>) returns (teachers: seq<Teacher>)
    requires forall i :: 0 <= i < |rows| ==> TeacherRowDefined(rows[i])
    ensures IsDedupOf(teachers, MapRows(rows, TeacherFromRow), TeacherKey)
  {
    var built: seq<Teacher> := [];
    for i := 0 to |rows|
      invariant built == MapRows(rows[..i], TeacherFromRow)
    {
      var t := TeacherOfRow(rows[i]);
      MapRowsPush(rows, TeacherFromRow, i, built, t);
      built := built + [t];
    }
    assert rows[..|rows|] == rows;
    teachers := DedupFirst(built, TeacherKey);
  }

  /** What a deduplicated list of row records means in terms of the rows:
      every record comes from a row, every row's record shares its key with
      exactly one survivor, and there are as many survivors as distinct keys
      among the rows. */
  lemma LoadedRecords<T, K>(rows: seq<seq<string>>, build: seq<string> --> T, key: T -> K, recs: seq<T>)
    requires forall i :: 0 <= i < |rows| ==> build.requires(rows[i])
    requires IsDedupOf(recs, MapRows(rows, build), key)
    ensures forall j :: 0 <= j < |recs| ==> exists i :: 0 <= i < |rows| && recs[j] == build(rows[i])
    ensures forall i, j, k :: 0 <= i < |rows| && 0 <= j < |recs| && 0 <= k < |recs|
              && key(recs[j]) == key(build(rows[i])) && key(recs[k]) == key(build(rows[i]))
              ==> j == k
    ensures forall i :: 0 <= i < |rows| ==> exists j :: 0 <= j < |recs| && key(recs[j]) == key(build(rows[i]))
    ensures |recs| == |set i | 0 <= i < |rows| :: key(build(rows[i]))|
  {
    var built := MapRows(rows, build);
    forall j | 0 <= j < |recs|
      ensures exists i :: 0 <= i < |rows| && recs[j] == build(rows[i])
    {
      var i :| 0 <= i < |built| && built[i] == recs[j];
    }
    forall i | 0 <= i < |rows|
      ensures exists j :: 0 <= j < |recs| && key(recs[j]) == key(build(rows[i]))
    {
      assert key(built[i]) in Keys(built, key);
    }
    DedupSize(recs, built, key);
    assert Keys(built, key) == set i | 0 <= i < |rows| :: key(build(rows[i]));
  }
}

/** The two record kinds the encoder's loaders produce, their identity
    (`__eq__` / `__hash__`) and the mapping from one CSV row to one record. */
module Records {
  import opened PyText
  import opened WeekParser

  /** A volunteer student: one row of the students sheet. */
  datatype Student = Student(
    studentId: string,
    isReturner: bool,
    schoolPreference: string,
    teacherPreference: string,
    timeSlotIds: seq<int>,
    isDriver: bool,
    numSeats: int)

  /** A teacher: one row of the teachers sheet. Its id is the stripped school
      name followed directly by the stripped teacher name. */
  datatype Teacher = Teacher(
    teacherName: string,
    teacherSchool: string,
    teacherId: string,
    timeSlotIds: seq<int>)

  /** The right-hand side of an `==` test: a student, a teacher, or any other
      Python object. */
  datatype Value = StudentValue(student: Student) | TeacherValue(teacher: Teacher) | OtherValue

  /** `Student(...)`: the id and both preferences are kept stripped; flags,
      seats and availability are kept as given. */
  function NewStudent(studentId: string, isReturner: bool, schoolPreference: string,
                      teacherPreference: string, timeSlotIds: seq<int>, isDriver: bool,
                      numSeats: int): Student
  {
    Student(Strip(studentId), isReturner, Strip(schoolPreference), Strip(teacherPreference),
            timeSlotIds, isDriver, numSeats)
  }

  /** `Teacher(...)`: name and school are kept stripped and the id is their
      concatenation, school first, with no separator. */
  function NewTeacher(teacherName: string, teacherSchool: string, timeSlotIds: seq<int>): Teacher
  {
    var name := Strip(teacherName);
    var school := Strip(teacherSchool);
    Teacher(name, school, school + name, timeSlotIds)
  }

  /** The value `__hash__` hashes, which is also the one `__eq__` compares. */
  function StudentKey(s: Student): string {
    s.studentId
  }

  function TeacherKey(t: Teacher): string {
    t.teacherId
  }

  /** `Student.__eq__`: false for anything that is not a student. */
  predicate StudentEquals(s: Student, other: Value) {
    other.StudentValue? && s.studentId == other.student.studentId
  }

  /** `Teacher.__eq__`: false for anything that is not a teacher. */
  predicate TeacherEquals(t: Teacher, other: Value) {
    other.TeacherValue? && t.teacherId == other.teacher.teacherId
  }

  /** Student equality is an equivalence relation, and the hashed value is
      exactly what identifies a student: equal students hash alike, and
      students with the same hashed value are equal. */
  lemma StudentIdentity(a: Student, b: Student, c: Student, t: Teacher)
    ensures StudentEquals(a, StudentValue(a))
    ensures StudentEquals(a, StudentValue(b)) <==> StudentEquals(b, StudentValue(a))
    ensures StudentEquals(a, StudentValue(b)) && StudentEquals(b, StudentValue(c)) ==>
              StudentEquals(a, StudentValue(c))
    ensures StudentEquals(a, StudentValue(b)) <==> StudentKey(a) == StudentKey(b)
    ensures !StudentEquals(a, TeacherValue(t)) && !StudentEquals(a, OtherValue)
  {
  }

  /** The same for teachers. */
  lemma TeacherIdentity(a: Teacher, b: Teacher, c: Teacher, s: Student)
    ensures TeacherEquals(a, TeacherValue(a))
    ensures TeacherEquals(a, TeacherValue(b)) <==> TeacherEquals(b, TeacherValue(a))
    ensures TeacherEquals(a, TeacherValue(b)) && TeacherEquals(b, TeacherValue(c)) ==>
              TeacherEquals(a, TeacherValue(c))
    ensures TeacherEquals(a, TeacherValue(b)) <==> TeacherKey(a) == TeacherKey(b)
    ensures !TeacherEquals(a, StudentValue(s))
    ensures !TeacherEquals(a, OtherValue)
  {
  }

  /** Two constructed students are equal exactly when their ids agree after
      stripping; returner and driver flags, seats, preferences and availability
      play no part. */
  lemma NewStudentEquality(id1: string, ret1: bool, school1: string, teacher1: string,
                           ids1: seq<int>, driver1: bool, seats1: int,
                           id2: string, ret2: bool, school2: string, teacher2: string,
                           ids2: seq<int>, driver2: bool, seats2: int)
    ensures StudentEquals(NewStudent(id1, ret1, school1, teacher1, ids1, driver1, seats1),
                          StudentValue(NewStudent(id2, ret2, school2, teacher2, ids2, driver2, seats2)))
            <==> Strip(id1) == Strip(id2)
  {
  }

  /** Two constructed teachers are equal exactly when stripped school followed
      by stripped name agree; availability plays no part. */
  lemma NewTeacherEquality(name1: string, school1: string, ids1: seq<int>,
                           name2: string, school2: string, ids2: seq<int>)
    ensures TeacherEquals(NewTeacher(name1, school1, ids1), TeacherValue(NewTeacher(name2, school2, ids2)))
            <==> Strip(school1) + Strip(name1) == Strip(school2) + Strip(name2)
  {
  }

  /** Surrounding whitespace on a student id does not make a new student:
      any run of whitespace before and after the id is ignored. */
  lemma PaddedStudentId(pre: string, id: string, post: string, ret: bool, school: string,
                        teacher: string, ids: seq<int>, driver: bool, seats: int)
    requires forall k :: 0 <= k < |pre| ==> IsSpace(pre[k])
    requires forall k :: 0 <= k < |post| ==> IsSpace(post[k])
    requires id == [] || (!IsSpace(id[0]) && !IsSpace(id[|id| - 1]))
    ensures StudentEquals(NewStudent(pre + id + post, ret, school, teacher, ids, driver, seats),
                          StudentValue(NewStudent(id, false, "", "", [], false, 0)))
  {
    StripUnchanged(id);
    if id == [] {
      assert pre + id + post == pre + post;
      AllSpaceStrip(pre, post);
    } else {
      StripPadded(pre, id, post);
    }
  }

  /** Text made only of whitespace strips to nothing. */
  lemma AllSpaceStrip(pre: string, post: string)
    requires forall k :: 0 <= k < |pre| ==> IsSpace(pre[k])
    requires forall k :: 0 <= k < |post| ==> IsSpace(post[k])
    ensures Strip(pre + post) == []
  {
    var s := pre + post;
    assert forall k :: 0 <= k < |s| ==> IsSpace(s[k]) by {
      forall k | 0 <= k < |s|
        ensures IsSpace(s[k])
      {
        if k >= |pre| {
          assert s[k] == post[k - |pre|];
        }
      }
    }
    assert SkipSpaces(s, 0) == |s|;
  }

  /** Because the teacher id joins school and name with no separator, two
      different teachers at different schools can share an id and so count as
      the same teacher. */
  lemma TeacherIdCollision(ids1: seq<int>, ids2: seq<int>)
    ensures NewTeacher("12", "Smith", ids1).teacherName != NewTeacher("2", "Smith1", ids2).teacherName
    ensures NewTeacher("12", "Smith", ids1).teacherSchool != NewTeacher("2", "Smith1", ids2).teacherSchool
    ensures TeacherEquals(NewTeacher("12", "Smith", ids1), TeacherValue(NewTeacher("2", "Smith1", ids2)))
  {
    StripUnchanged("12");
    StripUnchanged("2");
    StripUnchanged("Smith");
    StripUnchanged("Smith1");
    assert "Smith" + "12" == "Smith1" + "2";
  }

  /** Python evaluates a students-sheet row without raising: thirteen columns,
      an integer in the seats column and weekday columns the encoder accepts. */
  ghost predicate StudentRowDefined(row: seq<string>) {
    |row| >= 13 && PyInt(row[4]).Some? && WeekDefined(row[5..10], true)
  }

  /** Python evaluates a teachers-sheet row without raising: twelve columns and
      weekday columns the encoder accepts. */
  ghost predicate TeacherRowDefined(row: seq<string>) {
    |row| >= 12 && WeekDefined(row[7..12], false)
  }

  /** The student one students-sheet row becomes. */
  function StudentFromRow(row: seq<string>): Student
    requires StudentRowDefined(row)
  {
    NewStudent(row[1], row[10] == "Yes", row[11], row[12], WeekIds(row[5..10], true),
               row[3] == "Yes", PyInt(row[4]).value)
  }

  /** The teacher one teachers-sheet row becomes. */
  function TeacherFromRow(row: seq<string>): Teacher
    requires TeacherRowDefined(row)
  {
    NewTeacher(row[1], row[3], WeekIds(row[7..12], false))
  }

  /** Column layout of the students sheet: column 1 is the id, 3 the driver
      flag (exactly `Yes`), 4 the seat count, 5 to 9 Monday to Friday in
      half-hour intervals, 10 the returner flag (exactly `Yes`), 11 and 12 the
      school and teacher preferences. Columns 0 and 2 are never read. */
  lemma StudentRowColumns(row: seq<string>, other: string)
    requires StudentRowDefined(row)
    ensures StudentFromRow(row).studentId == Strip(row[1])
    ensures StudentFromRow(row).isDriver <==> row[3] == "Yes"
    ensures StudentFromRow(row).numSeats == PyInt(row[4]).value
    ensures StudentFromRow(row).timeSlotIds == WeekIds(row[5..10], true)
    ensures StudentFromRow(row).isReturner <==> row[10] == "Yes"
    ensures StudentFromRow(row).schoolPreference == Strip(row[11])
    ensures StudentFromRow(row).teacherPreference == Strip(row[12])
    ensures StudentRowDefined(row[0 := other]) && StudentFromRow(row[0 := other]) == StudentFromRow(row)
    ensures StudentRowDefined(row[2 := other]) && StudentFromRow(row[2 := other]) == StudentFromRow(row)
  {
    assert row[0 := other][5..10] == row[5..10];
    assert row[2 := other][5..10] == row[5..10];
  }

  /** Column layout of the teachers sheet: column 1 is the name, 3 the school,
      7 to 11 Monday to Friday in whole hours. Columns 0, 2 and 4 to 6 are
      never read. */
  lemma TeacherRowColumns(row: seq<string>, k: nat, other: string)
    requires TeacherRowDefined(row)
    requires k < |row| && k != 1 && k != 3 && !(7 <= k < 12)
    ensures TeacherFromRow(row).teacherName == Strip(row[1])
    ensures TeacherFromRow(row).teacherSchool == Strip(row[3])
    ensures TeacherFromRow(row).teacherId == Strip(row[3]) + Strip(row[1])
    ensures TeacherFromRow(row).timeSlotIds == WeekIds(row[7..12], false)
    ensures TeacherRowDefined(row[k := other]) && TeacherFromRow(row[k := other]) == TeacherFromRow(row)
  {
    assert row[k := other][7..12] == row[7..12];
  }

  /** A student's identity depends on column 1 alone. */
  lemma StudentRowIdentity(row1: seq<string>, row2: seq<string>)
    requires StudentRowDefined(row1) && StudentRowDefined(row2)
    ensures StudentEquals(StudentFromRow(row1), StudentValue(StudentFromRow(row2)))
            <==> Strip(row1[1]) == Strip(row2[1])
  {
  }

  /** A teacher's identity depends on columns 3 and 1 alone. */
  lemma TeacherRowIdentity(row1: seq<string>, row2: seq<string>)
    requires TeacherRowDefined(row1) && TeacherRowDefined(row2)
    ensures TeacherEquals(TeacherFromRow(row1), TeacherValue(TeacherFromRow(row2)))
            <==> Strip(row1[3]) + Strip(row1[1]) == Strip(row2[3]) + Strip(row2[1])
  {
  }

  /** A student whose weekday intervals lie on the clock gets ids that lie in
      the week, grouped by weekday in Monday-to-Friday order. */
  lemma StudentRowSlots(row: seq<string>)
    requires StudentRowDefined(row)
    requires forall d :: 0 <= d < 5 ==> DayOnClock(Split(row[5..10][d], ','), true)
    ensures forall x :: x in StudentFromRow(row).timeSlotIds ==> 0 <= x < 5 * SlotsPerDay
    ensures BlockOrdered(StudentFromRow(row).timeSlotIds)
  {
    WeekIdsInRange(row[5..10], true);
  }

  /** The same for a teacher's weekday hours. */
  lemma TeacherRowSlots(row: seq<string>)
    requires TeacherRowDefined(row)
    requires forall d :: 0 <= d < 5 ==> DayOnClock(Split(row[7..12][d], ','), false)
    ensures forall x :: x in TeacherFromRow(row).timeSlotIds ==> 0 <= x < 5 * SlotsPerDay
    ensures BlockOrdered(TeacherFromRow(row).timeSlotIds)
  {
    WeekIdsInRange(row[7..12], false);
  }
}

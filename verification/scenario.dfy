/** A small fixture that borrows names from the seed data: one class
    "MAT101" taught by a teacher, two enrolled students, a task worth 100
    points, and one submission awaiting a grade. Unlike the seed, it enrolls
    only two students and leaves the submission ungraded. */
module Scenario {
  import opened Http
  import opened Text
  import opened Classroom
  import Submissions
  import Classes

  const Day: int := 24 * 60 * 60 * 1000
  const Start: int := 0

  function SeedStore(): (st: Store)
    ensures Valid(st)
  {
    var st := Store(
      map["admin" := User(Admin), "teacher1" := User(Teacher), "student1" := User(Student),
          "student2" := User(Student), "student3" := User(Student)],
      map["class1" := Class("teacher1", "MAT101", "Matematicas", "Algebra y calculo", Some("Matematicas"))],
      {("class1", "student1"), ("class1", "student2")},
      map["task1" := Task("class1", "teacher1", "Ejercicios", "Resolver los ejercicios", Start + 7 * Day, Some(100))],
      map["sub2" := Submission("task1", "student2", "Ejercicios completados con procedimiento detallado.",
                               None, Submitted, None, None, Start + Day, None)],
      map[], map[]);
    assert IsClassCode("MAT101");
    st
  }

  /** The class teacher grades the waiting submission 95 of 100 points; 101
      is refused as over the task's points, and another student is refused
      outright. */
  lemma SeedGrading()
    ensures var r := Submissions.GradeSubmission(SeedStore(), Principal("teacher1", Teacher), "sub2",
                                                 Given(95.0), Given("Excelente trabajo"), Start + 2 * Day);
      r.Ok? && r.value.store.submissions["sub2"].grade == Some(95.0)
      && r.value.store.submissions["sub2"].status == Graded
    ensures Submissions.GradeSubmission(SeedStore(), Principal("teacher1", Teacher), "sub2",
                                        Given(101.0), Absent, Start + 2 * Day) == Err(BadRequest)
    ensures Submissions.GradeSubmission(SeedStore(), Principal("student1", Student), "sub2",
                                        Given(95.0), Absent, Start + 2 * Day) == Err(Forbidden)
  {
  }

  /** A third student joins with the code typed in lower case, and is told
      the class now has three students. */
  lemma SeedJoin()
    ensures var r := Classes.JoinClass(SeedStore(), Principal("student3", Student), "mat101");
      r.Ok? && r.value.reply == Classes.Joined("class1", 3)
  {
    var st := SeedStore();
    assert ToUpper("mat101") == "MAT101";
    assert StudentsOf(st, "class1") == {"student1", "student2"};
  }
}

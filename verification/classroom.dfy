/** The classroom store the controllers read and write through the ORM:
    users, classes, enrollments, tasks, submissions, announcements and
    materials, as one immutable record of maps and sets. */
module Classroom {
  import opened Http
  import opened Text

  type UserId = string
  type ClassId = string
  type TaskId = string
  type SubmissionId = string
  type AnnouncementId = string
  type MaterialId = string

  datatype Role = Admin | Teacher | Student

  datatype User = User(role: Role)

  /** The authenticated caller (`req.user`): its id and its stored role. */
  datatype Principal = Principal(id: UserId, role: Role)

  datatype Class = Class(
    teacherId: UserId,
    code: string,
    name: string,
    description: string,
    subject: Option<string>)

  /** An assignment. `points`, when set, bounds the grades of its submissions. */
  datatype Task = Task(
    classId: ClassId,
    authorId: UserId,
    title: string,
    description: string,
    dueDate: int,
    points: Option<int>)

  datatype SubmissionStatus = Submitted | Graded

  datatype Submission = Submission(
    taskId: TaskId,
    studentId: UserId,
    content: string,
    fileUrl: Option<string>,
    status: SubmissionStatus,
    grade: Option<real>,
    feedback: Option<string>,
    submittedAt: int,
    gradedAt: Option<int>)

  datatype Announcement = Announcement(
    classId: ClassId,
    authorId: UserId,
    title: string,
    content: string)

  datatype Material = Material(
    classId: ClassId,
    authorId: UserId,
    title: string,
    description: Option<string>,
    fileUrl: Option<string>,
    link: Option<string>)

  datatype Store = Store(
    users: map<UserId, User>,
    classes: map<ClassId, Class>,
    enrollments: set<(ClassId, UserId)>,
    tasks: map<TaskId, Task>,
    submissions: map<SubmissionId, Submission>,
    announcements: map<AnnouncementId, Announcement>,
    materials: map<MaterialId, Material>)

  /** What a handler that succeeds leaves behind: the new store and its reply. */
  datatype Step<+T> = Step(store: Store, reply: T)

  predicate IsEnrolled(st: Store, c: ClassId, u: UserId)
  {
    (c, u) in st.enrollments
  }

  /** The students enrolled in class `c`. */
  function StudentsOf(st: Store, c: ClassId): set<UserId>
  {
    set e | e in st.enrollments && e.0 == c :: e.1
  }

  /** The ids of the submissions of student `u` to task `t`. */
  function SubmissionsFor(subs: map<SubmissionId, Submission>, t: TaskId, u: UserId): set<SubmissionId>
  {
    set id | id in subs && subs[id].taskId == t && subs[id].studentId == u
  }

  /** The ids of all submissions to task `t`. */
  function SubmissionsOfTask(subs: map<SubmissionId, Submission>, t: TaskId): set<SubmissionId>
  {
    set id | id in subs && subs[id].taskId == t
  }

  // The store's constraints: unique keys and foreign keys.

  /** Unique constraint on `Class.code`; codes are six characters of `[A-Z0-9]`. */
  ghost predicate CodesValid(classes: map<ClassId, Class>)
  {
    && (forall c | c in classes :: IsClassCode(classes[c].code))
    && (forall c, d | c in classes && d in classes && classes[c].code == classes[d].code :: c == d)
  }

  /** Unique constraint on `Submission(taskId, studentId)`. */
  ghost predicate SubmissionKeyUnique(subs: map<SubmissionId, Submission>)
  {
    forall a, b | a in subs && b in subs
      && subs[a].taskId == subs[b].taskId && subs[a].studentId == subs[b].studentId :: a == b
  }

  ghost predicate TasksInClasses(st: Store)
  {
    forall t | t in st.tasks :: st.tasks[t].classId in st.classes
  }

  ghost predicate SubmissionsOnTasks(st: Store)
  {
    forall s | s in st.submissions :: st.submissions[s].taskId in st.tasks
  }

  ghost predicate AnnouncementsInClasses(st: Store)
  {
    forall a | a in st.announcements :: st.announcements[a].classId in st.classes
  }

  ghost predicate Valid(st: Store)
  {
    && CodesValid(st.classes)
    && SubmissionKeyUnique(st.submissions)
    && (forall e | e in st.enrollments :: e.0 in st.classes)
    && TasksInClasses(st)
    && SubmissionsOnTasks(st)
    && AnnouncementsInClasses(st)
    && (forall m | m in st.materials :: st.materials[m].classId in st.classes)
  }

  /** Under the unique key, a (task, student) pair names at most one submission. */
  lemma AtMostOneSubmission(subs: map<SubmissionId, Submission>, t: TaskId, u: UserId, id: SubmissionId)
    requires SubmissionKeyUnique(subs)
    requires id in SubmissionsFor(subs, t, u)
    ensures SubmissionsFor(subs, t, u) == {id}
  {
  }

  /** `findUnique` on the (task, student) key. */
  function SubmissionFor(st: Store, t: TaskId, u: UserId): (r: Option<SubmissionId>)
    requires SubmissionKeyUnique(st.submissions)
    ensures r.None? <==> SubmissionsFor(st.submissions, t, u) == {}
    ensures r.Some? ==> SubmissionsFor(st.submissions, t, u) == {r.value}
  {
    var ids := SubmissionsFor(st.submissions, t, u);
    if ids == {} then None
    else
      var id :| id in ids;
      AtMostOneSubmission(st.submissions, t, u, id);
      Some(id)
  }

  /** `findUnique` on the unique class code. */
  function ClassWithCode(st: Store, code: string): (r: Option<ClassId>)
    requires CodesValid(st.classes)
    ensures r.Some? ==> r.value in st.classes && st.classes[r.value].code == code
    ensures r.None? ==> forall c | c in st.classes :: st.classes[c].code != code
  {
    var ids := set c | c in st.classes && st.classes[c].code == code;
    if ids == {} then
      assert forall c | c in st.classes :: st.classes[c].code == code ==> c in ids;
      None
    else
      var c :| c in ids;
      Some(c)
  }

  /** The teacher of the class that task `t` belongs to. */
  function TaskTeacher(st: Store, t: TaskId): UserId
    requires TasksInClasses(st)
    requires t in st.tasks
  {
    st.classes[st.tasks[t].classId].teacherId
  }
}

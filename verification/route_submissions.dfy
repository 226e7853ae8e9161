/** The submission routes: role gates in front of the submission handlers,
    with no body validators. */
module SubmissionRoutes {
  import opened Http
  import opened Classroom
  import opened Auth
  import Submissions
  import Ordering

  const TeacherOrAdmin: seq<RoleArg> := [RoleList([Teacher, Admin])]
  const StudentOnly: seq<RoleArg> := [RoleList([Student])]

  /** GET /tasks/:taskId/submissions: teachers and administrators, then the
      handler's own class-teacher check. */
  method GetTaskSubmissionsRoute(st: Store, header: Option<string>, verify: string -> Verified, taskId: TaskId)
    returns (r: Result<seq<SubmissionId>>)
    requires TasksInClasses(st)
    ensures !Authenticate(st, header, verify).Identified? ==> r == Err(Unauthenticated)
    ensures Authenticate(st, header, verify).Identified? && Authenticate(st, header, verify).p.role == Student ==>
      r == Err(Forbidden)
    ensures Authenticate(st, header, verify).Identified? && Authenticate(st, header, verify).p.role != Student ==>
      var p := Authenticate(st, header, verify).p;
      && (taskId !in st.tasks ==> r == Err(NotFound))
      && (taskId in st.tasks ==> (r.Ok? <==> p.role == Admin || p.id == TaskTeacher(st, taskId)))
    ensures r.Ok? ==> forall id :: id in r.value <==> id in SubmissionsOfTask(st.submissions, taskId)
    ensures r.Ok? ==> Ordering.Distinct(r.value)
    ensures r.Ok? ==> Submissions.NewestFirstIn(st.submissions, r.value)
  {
    var gate := Gate(st, header, verify, TeacherOrAdmin);
    if gate.Err? {
      return Err(gate.status);
    }
    r := Submissions.GetTaskSubmissions(st, gate.value, taskId);
  }

  /** GET /tasks/:taskId/my-submission: students only. */
  function GetMySubmissionRoute(st: Store, header: Option<string>, verify: string -> Verified, taskId: TaskId)
    : (r: Result<Submission>)
    requires SubmissionKeyUnique(st.submissions)
    ensures !Authenticate(st, header, verify).Identified? ==> r == Err(Unauthenticated)
    ensures Authenticate(st, header, verify).Identified? ==>
      var p := Authenticate(st, header, verify).p;
      && (p.role != Student ==> r == Err(Forbidden))
      && (p.role == Student ==> r == Submissions.GetMySubmission(st, p, taskId))
  {
    var p :- Gate(st, header, verify, StudentOnly);
    Submissions.GetMySubmission(st, p, taskId)
  }

  /** POST /tasks/:taskId/submit: students only. */
  function SubmitRoute(st: Store, header: Option<string>, verify: string -> Verified, taskId: TaskId,
                       content: Option<string>, fileUrl: Arg<string>, now: int, freshId: SubmissionId)
    : (r: Result<Step<SubmissionId>>)
    requires SubmissionKeyUnique(st.submissions) && freshId !in st.submissions
    ensures !Authenticate(st, header, verify).Identified? ==> r == Err(Unauthenticated)
    ensures Authenticate(st, header, verify).Identified? ==>
      var p := Authenticate(st, header, verify).p;
      && (p.role != Student ==> r == Err(Forbidden))
      && (p.role == Student ==> r == Submissions.SubmitTask(st, p, taskId, content, fileUrl, now, freshId))
  {
    var p :- Gate(st, header, verify, StudentOnly);
    Submissions.SubmitTask(st, p, taskId, content, fileUrl, now, freshId)
  }

  /** Teachers and administrators never submit, even to a class they are
      enrolled in: the gate refuses them first. */
  lemma OnlyStudentsSubmit(st: Store, header: Option<string>, verify: string -> Verified, taskId: TaskId,
                           content: Option<string>, fileUrl: Arg<string>, now: int, freshId: SubmissionId)
    requires SubmissionKeyUnique(st.submissions) && freshId !in st.submissions
    requires SubmitRoute(st, header, verify, taskId, content, fileUrl, now, freshId).Ok?
    ensures Authenticate(st, header, verify).Identified?
    ensures Authenticate(st, header, verify).p.role == Student
    ensures taskId in st.tasks && IsEnrolled(st, st.tasks[taskId].classId, Authenticate(st, header, verify).p.id)
  {
  }

  /** POST /submissions/:submissionId/grade: teachers and administrators. */
  function GradeRoute(st: Store, header: Option<string>, verify: string -> Verified, subId: SubmissionId,
                      grade: Arg<real>, feedback: Arg<string>, now: int): (r: Result<Step<SubmissionId>>)
    requires SubmissionsOnTasks(st) && TasksInClasses(st)
    ensures !Authenticate(st, header, verify).Identified? ==> r == Err(Unauthenticated)
    ensures Authenticate(st, header, verify).Identified? ==>
      var p := Authenticate(st, header, verify).p;
      && (p.role == Student ==> r == Err(Forbidden))
      && (p.role != Student ==> r == Submissions.GradeSubmission(st, p, subId, grade, feedback, now))
  {
    var p :- Gate(st, header, verify, TeacherOrAdmin);
    Submissions.GradeSubmission(st, p, subId, grade, feedback, now)
  }

  /** The gate runs before the lookup: a student asking to grade a submission
      that does not exist is told 403, not 404, while the handler alone
      would say 404. */
  lemma StudentGradingMissingIsForbidden(st: Store, header: Option<string>, verify: string -> Verified,
                                         subId: SubmissionId, grade: Arg<real>, feedback: Arg<string>, now: int)
    requires SubmissionsOnTasks(st) && TasksInClasses(st)
    requires Authenticate(st, header, verify).Identified? && Authenticate(st, header, verify).p.role == Student
    requires subId !in st.submissions
    ensures GradeRoute(st, header, verify, subId, grade, feedback, now) == Err(Forbidden)
    ensures Submissions.GradeSubmission(st, Authenticate(st, header, verify).p, subId, grade, feedback, now)
            == Err(NotFound)
  {
  }

  /** GET /submissions/:submissionId: authentication only; the handler decides. */
  function GetSubmissionRoute(st: Store, header: Option<string>, verify: string -> Verified, subId: SubmissionId)
    : (r: Result<Submission>)
    requires SubmissionsOnTasks(st) && TasksInClasses(st)
    ensures !Authenticate(st, header, verify).Identified? ==> r == Err(Unauthenticated)
    ensures Authenticate(st, header, verify).Identified? ==>
      r == Submissions.GetSubmissionById(st, Authenticate(st, header, verify).p, subId)
  {
    var p :- Identify(st, header, verify);
    Submissions.GetSubmissionById(st, p, subId)
  }
}

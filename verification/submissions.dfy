/** The submission handlers: submitting (an upsert on the (task, student)
    key), grading, and the three ways of reading submissions. */
module Submissions {
  import opened Http
  import opened Text
  import opened Classroom
  import opened Access
  import Ordering

  /** The content rule of `submitTask`: present, and at least ten UTF-16 code
      units once trimmed (JavaScript's `length`). The stored content is the
      untrimmed text. */
  predicate ContentAccepted(content: Option<string>)
  {
    content.Some? && Utf16Length(Trim(content.value)) >= 10
  }

  /** The rule counts code units, not characters: five emoji outside the
      Basic Multilingual Plane pass it, and so would ten plain letters, but
      not five plain letters. */
  lemma ContentCountsCodeUnits()
    ensures ContentAccepted(Some("\U{1F600}\U{1F600}\U{1F600}\U{1F600}\U{1F600}"))
    ensures !ContentAccepted(Some("abcde"))
  {
    var e := "\U{1F600}\U{1F600}\U{1F600}\U{1F600}\U{1F600}";
    TrimmedIsFixed(e);
    assert Astral(e[0]);
    assert Utf16Length(e[4..]) == 2;
    assert Utf16Length(e) == 10;
    TrimmedIsFixed("abcde");
    Utf16LengthBmp("abcde");
  }

  /** A first submission: SUBMITTED, ungraded, stamped `now`. */
  function FreshSubmission(taskId: TaskId, studentId: UserId, content: string, fileUrl: Arg<string>, now: int): Submission
  {
    Submission(taskId, studentId, content, fileUrl.Over(None), Submitted, None, None, now, None)
  }

  /** The update half of the upsert: content, file, time and status are
      overwritten; an omitted file keeps the old one. */
  function Resubmit(prior: Submission, content: string, fileUrl: Arg<string>, now: int): Submission
  {
    prior.(content := content, fileUrl := fileUrl.Over(prior.fileUrl), submittedAt := now, status := Submitted)
  }

  /** The upsert on the (task, student) key: overwrite the pair's row if
      there is one, otherwise add a row under `freshId`. Either way the pair
      ends up with exactly one row and no other row changes. */
  function Upsert(subs: map<SubmissionId, Submission>, t: TaskId, u: UserId, content: string, fileUrl: Arg<string>,
                  now: int, freshId: SubmissionId): (r: (map<SubmissionId, Submission>, SubmissionId))
    requires SubmissionKeyUnique(subs)
    requires freshId !in subs
    ensures SubmissionsFor(r.0, t, u) == {r.1}
    ensures SubmissionKeyUnique(r.0)
    ensures r.0.Keys == subs.Keys + {r.1}
    ensures forall id | id in subs && id != r.1 :: r.0[id] == subs[id]
    ensures r.0[r.1].content == content && r.0[r.1].status == Submitted && r.0[r.1].submittedAt == now
    ensures SubmissionsFor(subs, t, u) == {} ==> r.1 == freshId && r.0[r.1] == FreshSubmission(t, u, content, fileUrl, now)
    ensures SubmissionsFor(subs, t, u) != {} ==>
      r.1 in SubmissionsFor(subs, t, u) && r.0[r.1] == Resubmit(subs[r.1], content, fileUrl, now)
  {
    var ids := SubmissionsFor(subs, t, u);
    if ids == {} then
      var subs' := subs[freshId := FreshSubmission(t, u, content, fileUrl, now)];
      PairHasOneRow(subs, freshId, subs'[freshId], t, u);
      (subs', freshId)
    else
      var id :| id in ids;
      AtMostOneSubmission(subs, t, u, id);
      var subs' := subs[id := Resubmit(subs[id], content, fileUrl, now)];
      PairHasOneRow(subs, id, subs'[id], t, u);
      (subs', id)
  }

  /** Writing a row for pair (t, u) under `id`, when no other id holds that
      pair, leaves `id` the pair's only row and keeps the key unique. */
  lemma PairHasOneRow(subs: map<SubmissionId, Submission>, id: SubmissionId, s: Submission, t: TaskId, u: UserId)
    requires SubmissionKeyUnique(subs)
    requires SubmissionsFor(subs, t, u) <= {id}
    requires s.taskId == t && s.studentId == u
    ensures SubmissionsFor(subs[id := s], t, u) == {id}
    ensures SubmissionKeyUnique(subs[id := s])
  {
    var subs' := subs[id := s];
    forall x | x in subs && subs[x].taskId == t && subs[x].studentId == u
      ensures x == id
    {
      assert x in SubmissionsFor(subs, t, u);
    }
    forall a, b | a in subs' && b in subs' && subs'[a].taskId == subs'[b].taskId && subs'[a].studentId == subs'[b].studentId
      ensures a == b
    {
      if a != id && b != id {
        assert subs'[a] == subs[a] && subs'[b] == subs[b];
      }
    }
  }

  /** POST /tasks/:taskId/submit. Checks, in order: the content, that the
      task exists, that the caller is enrolled in its class, and the
      deadline, which is inclusive. Then creates or overwrites the caller's
      one submission to the task. `freshId` is the id the store would give
      a new row. */
  function SubmitTask(st: Store, p: Principal, taskId: TaskId, content: Option<string>, fileUrl: Arg<string>,
                      now: int, freshId: SubmissionId): (r: Result<Step<SubmissionId>>)
    requires SubmissionKeyUnique(st.submissions)
    requires freshId !in st.submissions
    ensures !ContentAccepted(content) ==> r == Err(BadRequest)
    ensures ContentAccepted(content) && taskId !in st.tasks ==> r == Err(NotFound)
    ensures ContentAccepted(content) && taskId in st.tasks ==>
      (r == Err(Forbidden) <==> !Allowed(p, SubmitAs(IsEnrolled(st, st.tasks[taskId].classId, p.id))))
    ensures ContentAccepted(content) && taskId in st.tasks && IsEnrolled(st, st.tasks[taskId].classId, p.id) ==>
      (r.Ok? <==> now <= st.tasks[taskId].dueDate) && (r.Err? ==> r.status == BadRequest)
    ensures r.Ok? ==>
      var st' := r.value.store;
      && st' == st.(submissions := st'.submissions)
      && SubmissionsFor(st'.submissions, taskId, p.id) == {r.value.reply}
      && st'.submissions.Keys == st.submissions.Keys + {r.value.reply}
      && (forall id | id in st.submissions && id != r.value.reply :: st'.submissions[id] == st.submissions[id])
    ensures r.Ok? ==> SubmissionKeyUnique(r.value.store.submissions)
    ensures r.Ok? ==>
      var s := r.value.store.submissions[r.value.reply];
      && s.content == content.value && s.status == Submitted && s.submittedAt == now
  {
    if !ContentAccepted(content) then Err(BadRequest)
    else SubmitAccepted(st, p, taskId, content.value, fileUrl, now, freshId)
  }

  /** `submitTask` once the content has passed: the task must exist, the
      caller must be enrolled in its class and the deadline must not have
      passed; then the upsert. */
  function SubmitAccepted(st: Store, p: Principal, taskId: TaskId, content: string, fileUrl: Arg<string>,
                          now: int, freshId: SubmissionId): (r: Result<Step<SubmissionId>>)
    requires SubmissionKeyUnique(st.submissions)
    requires freshId !in st.submissions
    ensures taskId !in st.tasks ==> r == Err(NotFound)
    ensures taskId in st.tasks ==>
      (r == Err(Forbidden) <==> !Allowed(p, SubmitAs(IsEnrolled(st, st.tasks[taskId].classId, p.id))))
    ensures taskId in st.tasks && IsEnrolled(st, st.tasks[taskId].classId, p.id) ==>
      (r.Ok? <==> now <= st.tasks[taskId].dueDate) && (r.Err? ==> r.status == BadRequest)
    ensures r.Ok? ==>
      var st' := r.value.store;
      && st' == st.(submissions := st'.submissions)
      && SubmissionsFor(st'.submissions, taskId, p.id) == {r.value.reply}
      && st'.submissions.Keys == st.submissions.Keys + {r.value.reply}
      && (forall id | id in st.submissions && id != r.value.reply :: st'.submissions[id] == st.submissions[id])
    ensures r.Ok? ==> SubmissionKeyUnique(r.value.store.submissions)
    ensures r.Ok? ==>
      var s := r.value.store.submissions[r.value.reply];
      && s.content == content && s.status == Submitted && s.submittedAt == now
  {
    if taskId !in st.tasks then Err(NotFound)
    else if !IsEnrolled(st, st.tasks[taskId].classId, p.id) then Err(Forbidden)
    else if now > st.tasks[taskId].dueDate then Err(BadRequest)
    else
      var (subs, id) := Upsert(st.submissions, taskId, p.id, content, fileUrl, now, freshId);
      Ok(Step(st.(submissions := subs), id))
  }

  /** The deadline is inclusive: a submission at exactly the due date is
      accepted, one a moment later is refused. */
  lemma DeadlineInclusive(st: Store, p: Principal, taskId: TaskId, content: Option<string>, fileUrl: Arg<string>, freshId: SubmissionId)
    requires SubmissionKeyUnique(st.submissions) && freshId !in st.submissions
    requires ContentAccepted(content) && taskId in st.tasks
    requires IsEnrolled(st, st.tasks[taskId].classId, p.id)
    ensures SubmitTask(st, p, taskId, content, fileUrl, st.tasks[taskId].dueDate, freshId).Ok?
    ensures SubmitTask(st, p, taskId, content, fileUrl, st.tasks[taskId].dueDate + 1, freshId) == Err(BadRequest)
  {
  }

  /** A first submission gets the fresh id, is SUBMITTED and carries no
      grade, feedback or grading time. */
  lemma FirstSubmission(st: Store, p: Principal, taskId: TaskId, content: Option<string>, fileUrl: Arg<string>,
                        now: int, freshId: SubmissionId)
    requires SubmissionKeyUnique(st.submissions) && freshId !in st.submissions
    requires SubmissionsFor(st.submissions, taskId, p.id) == {}
    requires SubmitTask(st, p, taskId, content, fileUrl, now, freshId).Ok?
    ensures var r := SubmitTask(st, p, taskId, content, fileUrl, now, freshId).value;
      && r.reply == freshId
      && r.store.submissions[freshId].grade.None?
      && r.store.submissions[freshId].feedback.None?
      && r.store.submissions[freshId].gradedAt.None?
      && r.store.submissions[freshId].fileUrl == (if fileUrl.Given? then Some(fileUrl.v) else None)
  {
    assert ContentAccepted(content);
    assert SubmitTask(st, p, taskId, content, fileUrl, now, freshId)
        == SubmitAccepted(st, p, taskId, content.value, fileUrl, now, freshId);
  }

  /** A resubmission keeps the row's id, grade, feedback and grading time,
      overwrites content, time and status, and replaces the file only when
      one is sent. */
  lemma Resubmission(st: Store, p: Principal, taskId: TaskId, content: Option<string>, fileUrl: Arg<string>,
                     now: int, freshId: SubmissionId, prior: SubmissionId)
    requires SubmissionKeyUnique(st.submissions) && freshId !in st.submissions
    requires prior in SubmissionsFor(st.submissions, taskId, p.id)
    requires SubmitTask(st, p, taskId, content, fileUrl, now, freshId).Ok?
    ensures var r := SubmitTask(st, p, taskId, content, fileUrl, now, freshId).value;
      var before := st.submissions[prior];
      var after := r.store.submissions[prior];
      && r.reply == prior
      && after.grade == before.grade && after.feedback == before.feedback && after.gradedAt == before.gradedAt
      && after.status == Submitted && after.content == content.value && after.submittedAt == now
      && after.fileUrl == fileUrl.Over(before.fileUrl)
  {
    var r := SubmitTask(st, p, taskId, content, fileUrl, now, freshId).value;
    var task := st.tasks[taskId];
    var (subs, id) := Upsert(st.submissions, taskId, p.id, content.value, fileUrl, now, freshId);
    assert r == Step(st.(submissions := subs), id);
    AtMostOneSubmission(st.submissions, taskId, p.id, prior);
    assert id == prior;
    assert r.store.submissions[prior] == Resubmit(st.submissions[prior], content.value, fileUrl, now);
  }

  /** Every successful submission keeps the store's constraints, in
      particular the (task, student) key stays unique. */
  lemma SubmitPreservesValid(st: Store, p: Principal, taskId: TaskId, content: Option<string>, fileUrl: Arg<string>,
                             now: int, freshId: SubmissionId)
    requires Valid(st) && freshId !in st.submissions
    requires SubmitTask(st, p, taskId, content, fileUrl, now, freshId).Ok?
    ensures Valid(SubmitTask(st, p, taskId, content, fileUrl, now, freshId).value.store)
  {
    var r := SubmitTask(st, p, taskId, content, fileUrl, now, freshId).value;
    var st' := r.store;
    assert r.reply in SubmissionsFor(st'.submissions, taskId, p.id);
    assert SubmissionsOnTasks(st') by {
      forall s | s in st'.submissions
        ensures st'.submissions[s].taskId in st'.tasks
      {
        if s != r.reply {
          assert st'.submissions[s] == st.submissions[s];
        }
      }
    }
  }

  /** Submitting twice to the same task leaves one row, under the id the
      first call used, holding the second content, in status SUBMITTED. */
  lemma SubmitTwice(st: Store, p: Principal, taskId: TaskId, c1: Option<string>, c2: Option<string>,
                    f1: Arg<string>, f2: Arg<string>, t1: int, t2: int, id1: SubmissionId, id2: SubmissionId)
    requires SubmissionKeyUnique(st.submissions) && id1 !in st.submissions
    requires SubmitTask(st, p, taskId, c1, f1, t1, id1).Ok?
    requires id2 !in SubmitTask(st, p, taskId, c1, f1, t1, id1).value.store.submissions
    requires SubmitTask(SubmitTask(st, p, taskId, c1, f1, t1, id1).value.store, p, taskId, c2, f2, t2, id2).Ok?
    ensures var first := SubmitTask(st, p, taskId, c1, f1, t1, id1).value;
      var r := SubmitTask(first.store, p, taskId, c2, f2, t2, id2).value;
      && r.reply == first.reply
      && SubmissionsFor(r.store.submissions, taskId, p.id) == {first.reply}
      && r.store.submissions[first.reply].content == c2.value
      && r.store.submissions[first.reply].status == Submitted
  {
    var first := SubmitTask(st, p, taskId, c1, f1, t1, id1).value;
    Resubmission(first.store, p, taskId, c2, f2, t2, id2, first.reply);
  }

  /** The bounds a grade must meet: present, not negative, and not above the
      task's points when the points are truthy (a null or zero points value
      sets no upper bound). */
  predicate GradeAccepted(grade: Arg<real>, points: Option<int>)
  {
    && grade.Given?
    && 0.0 <= grade.v
    && (points.Some? && points.value != 0 ==> grade.v <= points.value as real)
  }

  /** POST /submissions/:submissionId/grade. Checks, in order: the submission
      exists, the caller teaches its class or is an admin, then the grade's
      bounds. Grading works from either status. */
  function GradeSubmission(st: Store, p: Principal, subId: SubmissionId, grade: Arg<real>, feedback: Arg<string>,
                           now: int): (r: Result<Step<SubmissionId>>)
    requires SubmissionsOnTasks(st) && TasksInClasses(st)
    ensures subId !in st.submissions ==> r == Err(NotFound)
    ensures subId in st.submissions ==>
      (r == Err(Forbidden) <==> !Allowed(p, GradeIn(TaskTeacher(st, st.submissions[subId].taskId))))
    ensures subId in st.submissions && Allowed(p, GradeIn(TaskTeacher(st, st.submissions[subId].taskId))) ==>
      && (r.Ok? <==> GradeAccepted(grade, st.tasks[st.submissions[subId].taskId].points))
      && (r.Err? ==> r.status == BadRequest)
    ensures r.Ok? ==>
      var st' := r.value.store;
      && r.value.reply == subId
      && st' == st.(submissions := st'.submissions)
      && st'.submissions.Keys == st.submissions.Keys
      && (forall id | id in st.submissions && id != subId :: st'.submissions[id] == st.submissions[id])
    ensures r.Ok? ==>
      var before := st.submissions[subId];
      var after := r.value.store.submissions[subId];
      && after.status == Graded && after.grade == Some(grade.v) && after.gradedAt == Some(now)
      && after.feedback == feedback.Over(before.feedback)
      && after.content == before.content && after.taskId == before.taskId && after.studentId == before.studentId
      && after.submittedAt == before.submittedAt && after.fileUrl == before.fileUrl
  {
    if subId !in st.submissions then Err(NotFound) else
    var s := st.submissions[subId];
    var task := st.tasks[s.taskId];
    :- Need(!(p.role != Admin && st.classes[task.classId].teacherId != p.id), Forbidden);
    :- Need(!(grade.Absent? || grade.Null?), BadRequest);
    :- Need(!(grade.v < 0.0), BadRequest);
    :- Need(!(task.points.Some? && task.points.value != 0 && grade.v > task.points.value as real), BadRequest);
    var graded := s.(grade := Some(grade.v), feedback := feedback.Over(s.feedback), gradedAt := Some(now), status := Graded);
    Ok(Step(st.(submissions := st.submissions[subId := graded]), subId))
  }

  /** A task whose points are 0 (possible only through an update) bounds no
      grade, exactly like a task without points. */
  lemma ZeroPointsSetNoBound(g: real)
    requires 0.0 <= g
    ensures GradeAccepted(Given(g), Some(0)) && GradeAccepted(Given(g), None)
    ensures g > 100.0 ==> !GradeAccepted(Given(g), Some(100))
  {
  }

  lemma GradePreservesValid(st: Store, p: Principal, subId: SubmissionId, grade: Arg<real>, feedback: Arg<string>, now: int)
    requires Valid(st)
    requires GradeSubmission(st, p, subId, grade, feedback, now).Ok?
    ensures Valid(GradeSubmission(st, p, subId, grade, feedback, now).value.store)
  {
    var st' := GradeSubmission(st, p, subId, grade, feedback, now).value.store;
    assert forall id | id in st'.submissions ::
      st'.submissions[id].taskId == st.submissions[id].taskId && st'.submissions[id].studentId == st.submissions[id].studentId;
  }

  /** GET /submissions/:submissionId: after the existence check, the owner,
      the class teacher and admins may read it. */
  function GetSubmissionById(st: Store, p: Principal, subId: SubmissionId): (r: Result<Submission>)
    requires SubmissionsOnTasks(st) && TasksInClasses(st)
    ensures subId !in st.submissions ==> r == Err(NotFound)
    ensures subId in st.submissions ==>
      var s := st.submissions[subId];
      && (r.Ok? <==> Allowed(p, ViewSubmission(s.studentId, TaskTeacher(st, s.taskId))))
      && (r.Ok? ==> r.value == s)
      && (r.Err? ==> r.status == Forbidden)
  {
    if subId !in st.submissions then Err(NotFound) else
    var s := st.submissions[subId];
    var isOwner := s.studentId == p.id;
    var isTeacher := st.classes[st.tasks[s.taskId].classId].teacherId == p.id;
    var isAdmin := p.role == Admin;
    :- Need(isOwner || isTeacher || isAdmin, Forbidden);
    Ok(s)
  }

  /** Grading is visible to the graded student: after a successful grade the
      owner reads back the graded row. */
  lemma GradeThenOwnerReads(st: Store, p: Principal, subId: SubmissionId, grade: Arg<real>, feedback: Arg<string>,
                            now: int, owner: Principal)
    requires Valid(st)
    requires GradeSubmission(st, p, subId, grade, feedback, now).Ok?
    requires owner.id == st.submissions[subId].studentId
    ensures var st' := GradeSubmission(st, p, subId, grade, feedback, now).value.store;
      Valid(st') && GetSubmissionById(st', owner, subId) == Ok(st'.submissions[subId])
      && st'.submissions[subId].status == Graded
  {
    GradePreservesValid(st, p, subId, grade, feedback, now);
  }

  /** GET /tasks/:taskId/my-submission: the task must exist, the caller must
      be enrolled in its class, and a submission must exist. */
  function GetMySubmission(st: Store, p: Principal, taskId: TaskId): (r: Result<Submission>)
    requires SubmissionKeyUnique(st.submissions)
    ensures taskId !in st.tasks ==> r == Err(NotFound)
    ensures taskId in st.tasks ==>
      (r == Err(Forbidden) <==> !IsEnrolled(st, st.tasks[taskId].classId, p.id))
    ensures taskId in st.tasks && IsEnrolled(st, st.tasks[taskId].classId, p.id) ==>
      (r.Ok? <==> SubmissionsFor(st.submissions, taskId, p.id) != {}) && (r.Err? ==> r.status == NotFound)
    ensures r.Ok? ==> exists id :: id in SubmissionsFor(st.submissions, taskId, p.id) && r.value == st.submissions[id]
  {
    if taskId !in st.tasks then Err(NotFound) else
    :- Need(IsEnrolled(st, st.tasks[taskId].classId, p.id), Forbidden);
    match SubmissionFor(st, taskId, p.id)
    case None => Err(NotFound)
    case Some(id) => Ok(st.submissions[id])
  }

  /** What a student submits is what the student reads back. */
  lemma SubmitThenRead(st: Store, p: Principal, taskId: TaskId, content: Option<string>, fileUrl: Arg<string>,
                       now: int, freshId: SubmissionId)
    requires Valid(st) && freshId !in st.submissions
    requires SubmitTask(st, p, taskId, content, fileUrl, now, freshId).Ok?
    ensures var st' := SubmitTask(st, p, taskId, content, fileUrl, now, freshId).value.store;
      Valid(st') && GetMySubmission(st', p, taskId).Ok?
      && GetMySubmission(st', p, taskId).value.content == content.value
      && GetMySubmission(st', p, taskId).value.status == Submitted
  {
    SubmitPreservesValid(st, p, taskId, content, fileUrl, now, freshId);
  }

  /** Every listed id is stored, and later submissions come first. */
  ghost predicate NewestFirstIn(subs: map<SubmissionId, Submission>, s: seq<SubmissionId>)
  {
    forall i, j :: 0 <= i < j < |s| ==>
      s[i] in subs && s[j] in subs && subs[s[i]].submittedAt >= subs[s[j]].submittedAt
  }

  /** Lists `ids` newest submission first. */
  method NewestFirst(subs: map<SubmissionId, Submission>, ids: set<SubmissionId>) returns (s: seq<SubmissionId>)
    requires ids <= subs.Keys
    ensures forall id :: id in s <==> id in ids
    ensures Ordering.Distinct(s)
    ensures NewestFirstIn(subs, s)
  {
    var rank := (id: SubmissionId) => if id in subs then -subs[id].submittedAt else 0;
    s := Ordering.SortBy(ids, rank);
    forall i, j | 0 <= i < j < |s|
      ensures s[i] in subs && s[j] in subs && subs[s[i]].submittedAt >= subs[s[j]].submittedAt
    {
      assert rank(s[i]) <= rank(s[j]);
    }
  }

  /** GET /tasks/:taskId/submissions: the task's submissions, newest first,
      for admins and the class teacher. */
  method GetTaskSubmissions(st: Store, p: Principal, taskId: TaskId) returns (r: Result<seq<SubmissionId>>)
    requires TasksInClasses(st)
    ensures taskId !in st.tasks ==> r == Err(NotFound)
    ensures taskId in st.tasks ==>
      (r.Ok? <==> Allowed(p, ViewTaskSubmissions(TaskTeacher(st, taskId)))) && (r.Err? ==> r.status == Forbidden)
    ensures r.Ok? ==> forall id :: id in r.value <==> id in SubmissionsOfTask(st.submissions, taskId)
    ensures r.Ok? ==> Ordering.Distinct(r.value)
    ensures r.Ok? ==> NewestFirstIn(st.submissions, r.value)
  {
    if taskId !in st.tasks {
      return Err(NotFound);
    }
    var task := st.tasks[taskId];
    if p.role != Admin && st.classes[task.classId].teacherId != p.id {
      return Err(Forbidden);
    }
    var listed := NewestFirst(st.submissions, SubmissionsOfTask(st.submissions, taskId));
    return Ok(listed);
  }
}

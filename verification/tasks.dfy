/** The task handlers: create, update, delete, read one, list a class's. */
module Tasks {
  import opened Http
  import opened Text
  import opened Classroom
  import opened Access
  import Ordering

  /** POST /classes/:classId/tasks. Checks, in order: the class exists, the
      caller teaches it or is an admin, the due date is strictly in the
      future. The new task is authored by the caller; a points value of 0
      is stored as no points (`points || null`). */
  function CreateTask(st: Store, p: Principal, classId: ClassId, title: string, description: string,
                      dueDate: int, points: Arg<int>, now: int, freshId: TaskId): (r: Result<Step<TaskId>>)
    requires freshId !in st.tasks
    ensures classId !in st.classes ==> r == Err(NotFound)
    ensures classId in st.classes ==>
      (r == Err(Forbidden) <==> !Allowed(p, PostIn(st.classes[classId].teacherId)))
    ensures classId in st.classes && Allowed(p, PostIn(st.classes[classId].teacherId)) ==>
      (r.Ok? <==> dueDate > now) && (r.Err? ==> r.status == BadRequest)
    ensures r.Ok? ==>
      && r.value.reply == freshId && freshId in r.value.store.tasks
      && r.value.store == st.(tasks := st.tasks[freshId := r.value.store.tasks[freshId]])
    ensures r.Ok? ==>
      var t := r.value.store.tasks[freshId];
      && t.classId == classId && t.authorId == p.id && t.title == title && t.description == description
      && t.dueDate == dueDate
      && (t.points.Some? <==> points.Given? && points.v != 0)
      && (t.points.Some? ==> t.points.value == points.v)
  {
    if classId !in st.classes then Err(NotFound) else
    :- Need(!(st.classes[classId].teacherId != p.id && p.role != Admin), Forbidden);
    :- Need(!(dueDate <= now), BadRequest);
    var stored := if points.Given? && points.v != 0 then Some(points.v) else None;
    var task := Task(classId, p.id, title, description, dueDate, stored);
    Ok(Step(st.(tasks := st.tasks[freshId := task]), freshId))
  }

  lemma CreatePreservesValid(st: Store, p: Principal, classId: ClassId, title: string, description: string,
                             dueDate: int, points: Arg<int>, now: int, freshId: TaskId)
    requires Valid(st) && freshId !in st.tasks
    requires CreateTask(st, p, classId, title, description, dueDate, points, now, freshId).Ok?
    ensures Valid(CreateTask(st, p, classId, title, description, dueDate, points, now, freshId).value.store)
  {
  }

  /** PUT /tasks/:taskId. Checks, in order: the task exists, the caller is
      its author or an admin (a class teacher who is not the author is
      refused), and a given due date is strictly in the future. Title and
      description change only when truthy, the due date when given, and the
      points whenever the field is present, `null` and 0 included. */
  function UpdateTask(st: Store, p: Principal, taskId: TaskId, title: Option<string>, description: Option<string>,
                      dueDate: Option<int>, points: Arg<int>, now: int): (r: Result<Step<TaskId>>)
    ensures taskId !in st.tasks ==> r == Err(NotFound)
    ensures taskId in st.tasks ==>
      (r == Err(Forbidden) <==> !Allowed(p, ChangeTask(st.tasks[taskId].authorId)))
    ensures taskId in st.tasks && Allowed(p, ChangeTask(st.tasks[taskId].authorId)) ==>
      (r.Ok? <==> (dueDate.None? || dueDate.value > now)) && (r.Err? ==> r.status == BadRequest)
    ensures r.Ok? ==>
      && r.value.reply == taskId && taskId in st.tasks && taskId in r.value.store.tasks
      && r.value.store == st.(tasks := st.tasks[taskId := r.value.store.tasks[taskId]])
    ensures r.Ok? ==>
      var before := st.tasks[taskId];
      var after := r.value.store.tasks[taskId];
      && after.classId == before.classId && after.authorId == before.authorId
      && (Truthy(title) ==> after.title == title.value) && (!Truthy(title) ==> after.title == before.title)
      && (Truthy(description) ==> after.description == description.value)
      && (!Truthy(description) ==> after.description == before.description)
      && (dueDate.Some? ==> after.dueDate == dueDate.value) && (dueDate.None? ==> after.dueDate == before.dueDate)
      && after.points == points.Over(before.points)
  {
    if taskId !in st.tasks then Err(NotFound) else
    var task := st.tasks[taskId];
    :- Need(!(task.authorId != p.id && p.role != Admin), Forbidden);
    var t1 := if Truthy(title) then task.(title := title.value) else task;
    var t2 := if Truthy(description) then t1.(description := description.value) else t1;
    :- Need(!(dueDate.Some? && dueDate.value <= now), BadRequest);
    var t3 := if dueDate.Some? then t2.(dueDate := dueDate.value) else t2;
    var t4 := if !points.Absent? then t3.(points := points.Over(t3.points)) else t3;
    Ok(Step(st.(tasks := st.tasks[taskId := t4]), taskId))
  }

  /** Repeating an update that succeeded changes nothing more. */
  lemma UpdateIdempotent(st: Store, p: Principal, taskId: TaskId, title: Option<string>, description: Option<string>,
                         dueDate: Option<int>, points: Arg<int>, now: int)
    requires UpdateTask(st, p, taskId, title, description, dueDate, points, now).Ok?
    ensures var st1 := UpdateTask(st, p, taskId, title, description, dueDate, points, now).value.store;
      UpdateTask(st1, p, taskId, title, description, dueDate, points, now) == Ok(Step(st1, taskId))
  {
    var st1 := UpdateTask(st, p, taskId, title, description, dueDate, points, now).value.store;
    var st2 := UpdateTask(st1, p, taskId, title, description, dueDate, points, now).value.store;
    assert st2.tasks[taskId] == st1.tasks[taskId];
    assert st2.tasks == st1.tasks;
  }

  /** A class teacher who did not author the task may not change it. */
  lemma TeacherWhoIsNotAuthorRefused(st: Store, p: Principal, taskId: TaskId, title: Option<string>,
                                     description: Option<string>, dueDate: Option<int>, points: Arg<int>, now: int)
    requires TasksInClasses(st)
    requires taskId in st.tasks && p.role == Teacher
    requires p.id == TaskTeacher(st, taskId) && p.id != st.tasks[taskId].authorId
    ensures UpdateTask(st, p, taskId, title, description, dueDate, points, now) == Err(Forbidden)
    ensures DeleteTask(st, p, taskId) == Err(Forbidden)
  {
  }

  lemma UpdatePreservesValid(st: Store, p: Principal, taskId: TaskId, title: Option<string>, description: Option<string>,
                             dueDate: Option<int>, points: Arg<int>, now: int)
    requires Valid(st)
    requires UpdateTask(st, p, taskId, title, description, dueDate, points, now).Ok?
    ensures Valid(UpdateTask(st, p, taskId, title, description, dueDate, points, now).value.store)
  {
  }

  /** DELETE /tasks/:taskId. Checks existence, then that the caller is the
      author or an admin. The task goes, and with it its submissions. */
  function DeleteTask(st: Store, p: Principal, taskId: TaskId): (r: Result<Step<()>>)
    ensures taskId !in st.tasks ==> r == Err(NotFound)
    ensures taskId in st.tasks ==>
      (r.Ok? <==> Allowed(p, ChangeTask(st.tasks[taskId].authorId))) && (r.Err? ==> r.status == Forbidden)
    ensures r.Ok? ==>
      var st' := r.value.store;
      && st'.tasks.Keys == st.tasks.Keys - {taskId}
      && (forall t | t in st'.tasks :: st'.tasks[t] == st.tasks[t])
      && (forall id :: id in st'.submissions <==> id in st.submissions && st.submissions[id].taskId != taskId)
      && (forall id | id in st'.submissions :: st'.submissions[id] == st.submissions[id])
      && st' == st.(tasks := st'.tasks, submissions := st'.submissions)
  {
    if taskId !in st.tasks then Err(NotFound) else
    :- Need(!(st.tasks[taskId].authorId != p.id && p.role != Admin), Forbidden);
    var subs := map id | id in st.submissions && st.submissions[id].taskId != taskId :: st.submissions[id];
    Ok(Step(st.(tasks := st.tasks - {taskId}, submissions := subs), ()))
  }

  lemma DeletePreservesValid(st: Store, p: Principal, taskId: TaskId)
    requires Valid(st)
    requires DeleteTask(st, p, taskId).Ok?
    ensures Valid(DeleteTask(st, p, taskId).value.store)
  {
  }

  /** Deleting a task just created undoes the creation. */
  lemma CreateThenDelete(st: Store, p: Principal, classId: ClassId, title: string, description: string,
                         dueDate: int, points: Arg<int>, now: int, freshId: TaskId)
    requires SubmissionsOnTasks(st) && freshId !in st.tasks
    requires CreateTask(st, p, classId, title, description, dueDate, points, now, freshId).Ok?
    ensures DeleteTask(CreateTask(st, p, classId, title, description, dueDate, points, now, freshId).value.store, p, freshId)
            == Ok(Step(st, ()))
  {
    var st1 := CreateTask(st, p, classId, title, description, dueDate, points, now, freshId).value.store;
    var st2 := DeleteTask(st1, p, freshId).value.store;
    assert st2.tasks == st.tasks;
    assert st2.submissions == st.submissions;
  }

  /** What GET /tasks/:taskId answers: the task, and its submissions when
      the caller may see them. */
  datatype TaskView = TaskView(task: Task, submissions: Option<set<SubmissionId>>)

  /** GET /tasks/:taskId. Any authenticated caller may read an existing task;
      the submissions are attached exactly for the class teacher and admins. */
  function GetTaskById(st: Store, p: Principal, taskId: TaskId): (r: Result<TaskView>)
    requires TasksInClasses(st)
    ensures r.Ok? <==> taskId in st.tasks
    ensures r.Err? ==> r.status == NotFound
    ensures r.Ok? ==> r.value.task == st.tasks[taskId]
    ensures r.Ok? ==>
      (r.value.submissions.Some? <==> Allowed(p, ViewTaskSubmissions(TaskTeacher(st, taskId))))
    ensures r.Ok? && r.value.submissions.Some? ==>
      r.value.submissions.value == SubmissionsOfTask(st.submissions, taskId)
  {
    if taskId !in st.tasks then Err(NotFound) else
    var task := st.tasks[taskId];
    var attached :=
      if st.classes[task.classId].teacherId == p.id || p.role == Admin
      then Some(set id | id in st.submissions && st.submissions[id].taskId == taskId)
      else None;
    Ok(TaskView(task, attached))
  }

  /** A task just created reads back as created, for its author. */
  lemma CreateThenRead(st: Store, p: Principal, classId: ClassId, title: string, description: string,
                       dueDate: int, points: Arg<int>, now: int, freshId: TaskId)
    requires TasksInClasses(st) && freshId !in st.tasks
    requires CreateTask(st, p, classId, title, description, dueDate, points, now, freshId).Ok?
    ensures var st1 := CreateTask(st, p, classId, title, description, dueDate, points, now, freshId).value.store;
      TasksInClasses(st1)
      && GetTaskById(st1, p, freshId).Ok?
      && GetTaskById(st1, p, freshId).value.task.title == title
      && GetTaskById(st1, p, freshId).value.task.authorId == p.id
  {
  }

  /** Every listed id is a stored task, and due dates never decrease. */
  ghost predicate EarliestDueFirst(tasks: map<TaskId, Task>, s: seq<TaskId>)
  {
    forall i, j :: 0 <= i < j < |s| ==>
      s[i] in tasks && s[j] in tasks && tasks[s[i]].dueDate <= tasks[s[j]].dueDate
  }

  /** GET /classes/:classId/tasks: exactly the class's tasks, earliest due
      date first. There is no membership check and no class lookup: an
      unknown class lists nothing. */
  method GetTasks(st: Store, classId: ClassId) returns (s: seq<TaskId>)
    ensures forall t :: t in s <==> t in st.tasks && st.tasks[t].classId == classId
    ensures Ordering.Distinct(s)
    ensures EarliestDueFirst(st.tasks, s)
  {
    var tasks := st.tasks;
    var ids := set t | t in tasks && tasks[t].classId == classId;
    var rank := (t: TaskId) => if t in tasks then tasks[t].dueDate else 0;
    s := Ordering.SortBy(ids, rank);
    forall i, j | 0 <= i < j < |s|
      ensures s[i] in tasks && s[j] in tasks && tasks[s[i]].dueDate <= tasks[s[j]].dueDate
    {
      assert s[i] in ids && s[j] in ids;
      assert rank(s[i]) <= rank(s[j]);
    }
  }
}

/** The routes for a single task: read, update, delete. Update and delete
    pass 'TEACHER' and 'ADMIN' to `requireRole` as two separate arguments;
    the `...Intended` members pass them as one list. */
module TaskByIdRoutes {
  import opened Http
  import opened Text
  import opened Classroom
  import opened Access
  import opened Auth
  import opened Validation
  import Tasks
  import TaskRoutes

  /** GET /tasks/:taskId: authentication only; the handler decides what to show. */
  function GetTaskRoute(st: Store, header: Option<string>, verify: string -> Verified, taskId: TaskId)
    : (r: Result<Tasks.TaskView>)
    requires TasksInClasses(st)
    ensures !Authenticate(st, header, verify).Identified? ==> r == Err(Unauthenticated)
    ensures Authenticate(st, header, verify).Identified? ==>
      r == Tasks.GetTaskById(st, Authenticate(st, header, verify).p, taskId)
    ensures r.Err? ==> r.status in {Unauthenticated, NotFound}
  {
    var p :- Identify(st, header, verify);
    Tasks.GetTaskById(st, p, taskId)
  }

  /** What the update validators accept: a UUID path id, a title that is
      absent or at least three characters once trimmed, a due date that is
      absent or ISO 8601, and points absent or a non-negative integer. */
  predicate UpdateFieldsValid(isUuid: string -> bool, taskId: TaskId, title: Option<string>, dueDate: DateField,
                              points: IntField)
  {
    isUuid(taskId) && OptionalMinLength(title, 3) && !dueDate.NotIso8601? && OptionalNat(points)
  }

  /** The validators, then the handler on the sanitized fields. */
  function UpdateTaskChecked(st: Store, p: Principal, isUuid: string -> bool, taskId: TaskId, title: Option<string>,
                             description: Option<string>, dueDate: DateField, points: IntField, now: int)
    : (r: Result<Step<TaskId>>)
    ensures !UpdateFieldsValid(isUuid, taskId, title, dueDate, points) ==> r == Err(BadRequest)
    ensures UpdateFieldsValid(isUuid, taskId, title, dueDate, points) ==>
      r == Tasks.UpdateTask(st, p, taskId, TrimField(title), TrimField(description),
                            if dueDate.Iso8601? then Some(dueDate.at) else None, IntArg(points), now)
    ensures r.Ok? ==> var t := r.value.store.tasks[taskId];
      |t.title| >= 3 || t.title == st.tasks[taskId].title
  {
    if !UpdateFieldsValid(isUuid, taskId, title, dueDate, points) then Err(BadRequest) else
    Tasks.UpdateTask(st, p, taskId, TrimField(title), TrimField(description),
                     if dueDate.Iso8601? then Some(dueDate.at) else None, IntArg(points), now)
  }

  /** PUT /tasks/:taskId as written: the role gate runs before the
      validators, which run before the handler. */
  function UpdateTaskRoute(st: Store, header: Option<string>, verify: string -> Verified, isUuid: string -> bool,
                           taskId: TaskId, title: Option<string>, description: Option<string>, dueDate: DateField,
                           points: IntField, now: int): (r: Result<Step<TaskId>>)
    ensures !Authenticate(st, header, verify).Identified? ==> r == Err(Unauthenticated)
    ensures Authenticate(st, header, verify).Identified? ==>
      var p := Authenticate(st, header, verify).p;
      && (p.role != Teacher ==> r == Err(Forbidden))
      && (p.role == Teacher ==>
            r == UpdateTaskChecked(st, p, isUuid, taskId, title, description, dueDate, points, now))
  {
    var p :- Gate(st, header, verify, TaskRoutes.CreateRolesAsWritten);
    UpdateTaskChecked(st, p, isUuid, taskId, title, description, dueDate, points, now)
  }

  function UpdateTaskRouteIntended(st: Store, header: Option<string>, verify: string -> Verified,
                                   isUuid: string -> bool, taskId: TaskId, title: Option<string>,
                                   description: Option<string>, dueDate: DateField, points: IntField, now: int)
    : (r: Result<Step<TaskId>>)
    ensures !Authenticate(st, header, verify).Identified? ==> r == Err(Unauthenticated)
    ensures Authenticate(st, header, verify).Identified? ==>
      var p := Authenticate(st, header, verify).p;
      && (p.role == Student ==> r == Err(Forbidden))
      && (p.role != Student ==>
            r == UpdateTaskChecked(st, p, isUuid, taskId, title, description, dueDate, points, now))
  {
    var p :- Gate(st, header, verify, TaskRoutes.TeacherOrAdmin);
    UpdateTaskChecked(st, p, isUuid, taskId, title, description, dueDate, points, now)
  }

  /** DELETE /tasks/:taskId as written. */
  function DeleteTaskRoute(st: Store, header: Option<string>, verify: string -> Verified, taskId: TaskId)
    : (r: Result<Step<()>>)
    ensures !Authenticate(st, header, verify).Identified? ==> r == Err(Unauthenticated)
    ensures Authenticate(st, header, verify).Identified? ==>
      var p := Authenticate(st, header, verify).p;
      && (p.role != Teacher ==> r == Err(Forbidden))
      && (p.role == Teacher ==> r == Tasks.DeleteTask(st, p, taskId))
  {
    var p :- Gate(st, header, verify, TaskRoutes.CreateRolesAsWritten);
    Tasks.DeleteTask(st, p, taskId)
  }

  function DeleteTaskRouteIntended(st: Store, header: Option<string>, verify: string -> Verified, taskId: TaskId)
    : (r: Result<Step<()>>)
    ensures !Authenticate(st, header, verify).Identified? ==> r == Err(Unauthenticated)
    ensures Authenticate(st, header, verify).Identified? ==>
      var p := Authenticate(st, header, verify).p;
      && (p.role == Student ==> r == Err(Forbidden))
      && (p.role != Student ==> r == Tasks.DeleteTask(st, p, taskId))
  {
    var p :- Gate(st, header, verify, TaskRoutes.TeacherOrAdmin);
    Tasks.DeleteTask(st, p, taskId)
  }

  /** As written, an administrator can neither change nor delete any task,
      although both handlers let administrators act on every task. */
  lemma AdminCannotChangeTasks(st: Store, header: Option<string>, verify: string -> Verified, isUuid: string -> bool,
                               taskId: TaskId, title: Option<string>, description: Option<string>,
                               dueDate: DateField, points: IntField, now: int)
    requires Authenticate(st, header, verify).Identified? && Authenticate(st, header, verify).p.role == Admin
    ensures UpdateTaskRoute(st, header, verify, isUuid, taskId, title, description, dueDate, points, now)
            == Err(Forbidden)
    ensures DeleteTaskRoute(st, header, verify, taskId) == Err(Forbidden)
    ensures taskId in st.tasks ==>
      Tasks.DeleteTask(st, Authenticate(st, header, verify).p, taskId).Ok?
  {
  }

  /** With the roles as one list, an administrator deletes any existing
      task, and a teacher fares exactly as with the routes as written. */
  lemma IntendedAdmitsAdmin(st: Store, header: Option<string>, verify: string -> Verified, isUuid: string -> bool,
                            taskId: TaskId, title: Option<string>, description: Option<string>,
                            dueDate: DateField, points: IntField, now: int)
    requires Authenticate(st, header, verify).Identified?
    ensures Authenticate(st, header, verify).p.role == Admin && taskId in st.tasks ==>
      DeleteTaskRouteIntended(st, header, verify, taskId).Ok?
    ensures Authenticate(st, header, verify).p.role != Admin ==>
      && DeleteTaskRouteIntended(st, header, verify, taskId) == DeleteTaskRoute(st, header, verify, taskId)
      && UpdateTaskRouteIntended(st, header, verify, isUuid, taskId, title, description, dueDate, points, now)
         == UpdateTaskRoute(st, header, verify, isUuid, taskId, title, description, dueDate, points, now)
  {
  }

  /** The gate runs first: a student is refused even when the body is invalid
      or the task does not exist. */
  lemma GateBeforeValidation(st: Store, header: Option<string>, verify: string -> Verified, isUuid: string -> bool,
                             taskId: TaskId, title: Option<string>, description: Option<string>,
                             dueDate: DateField, points: IntField, now: int)
    requires Authenticate(st, header, verify).Identified? && Authenticate(st, header, verify).p.role == Student
    ensures UpdateTaskRoute(st, header, verify, isUuid, taskId, title, description, dueDate, points, now)
            == Err(Forbidden)
    ensures UpdateTaskRouteIntended(st, header, verify, isUuid, taskId, title, description, dueDate, points, now)
            == Err(Forbidden)
  {
  }
}

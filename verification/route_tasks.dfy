/** The routes nested under a class for its tasks: list them, and create
    one. Creation passes 'TEACHER' and 'ADMIN' to `requireRole` as two
    separate arguments; see CreateTaskRoute and CreateTaskRouteIntended. */
module TaskRoutes {
  import opened Http
  import opened Text
  import opened Classroom
  import opened Auth
  import opened Validation
  import Tasks
  import opened Access
  import Ordering

  /** The roles as the route passes them: two arguments. */
  const CreateRolesAsWritten: seq<RoleArg> := [RoleName(Teacher), RoleName(Admin)]

  /** The roles the route means: one list of two. */
  const TeacherOrAdmin: seq<RoleArg> := [RoleList([Teacher, Admin])]

  /** What the creation validators accept. */
  predicate CreateFieldsValid(title: Option<string>, description: Option<string>, dueDate: DateField, points: IntField)
  {
    MinLength(title, 3) && NotBlank(description) && dueDate.Iso8601? && OptionalNat(points)
  }

  /** The validators, then the handler on the sanitized fields. */
  function CreateTaskChecked(st: Store, p: Principal, classId: ClassId, title: Option<string>,
                             description: Option<string>, dueDate: DateField, points: IntField,
                             now: int, freshId: TaskId): (r: Result<Step<TaskId>>)
    requires freshId !in st.tasks
    ensures !CreateFieldsValid(title, description, dueDate, points) ==> r == Err(BadRequest)
    ensures CreateFieldsValid(title, description, dueDate, points) ==>
      r == Tasks.CreateTask(st, p, classId, Trim(FieldText(title)), Trim(FieldText(description)),
                            dueDate.at, IntArg(points), now, freshId)
    ensures r.Ok? ==> var t := r.value.store.tasks[freshId];
      |t.title| >= 3 && Trimmed(t.title) && t.description != "" && Trimmed(t.description)
      && (t.points.Some? ==> t.points.value > 0)
  {
    if !CreateFieldsValid(title, description, dueDate, points) then Err(BadRequest) else
    Tasks.CreateTask(st, p, classId, Trim(FieldText(title)), Trim(FieldText(description)),
                     dueDate.at, IntArg(points), now, freshId)
  }

  /** POST /classes/:classId/tasks as written: `auth`, then
      `requireRole('TEACHER', 'ADMIN')`, then the validators and the handler. */
  function CreateTaskRoute(st: Store, header: Option<string>, verify: string -> Verified, classId: ClassId,
                           title: Option<string>, description: Option<string>, dueDate: DateField, points: IntField,
                           now: int, freshId: TaskId): (r: Result<Step<TaskId>>)
    requires freshId !in st.tasks
    ensures !Authenticate(st, header, verify).Identified? ==> r == Err(Unauthenticated)
    ensures Authenticate(st, header, verify).Identified? ==>
      var p := Authenticate(st, header, verify).p;
      && (p.role != Teacher ==> r == Err(Forbidden))
      && (p.role == Teacher ==> r == CreateTaskChecked(st, p, classId, title, description, dueDate, points, now, freshId))
  {
    var p :- Gate(st, header, verify, CreateRolesAsWritten);
    CreateTaskChecked(st, p, classId, title, description, dueDate, points, now, freshId)
  }

  /** The same route with the roles passed as one list, as the other routes do. */
  function CreateTaskRouteIntended(st: Store, header: Option<string>, verify: string -> Verified, classId: ClassId,
                                   title: Option<string>, description: Option<string>, dueDate: DateField,
                                   points: IntField, now: int, freshId: TaskId): (r: Result<Step<TaskId>>)
    requires freshId !in st.tasks
    ensures !Authenticate(st, header, verify).Identified? ==> r == Err(Unauthenticated)
    ensures Authenticate(st, header, verify).Identified? ==>
      var p := Authenticate(st, header, verify).p;
      && (p.role == Student ==> r == Err(Forbidden))
      && (p.role != Student ==> r == CreateTaskChecked(st, p, classId, title, description, dueDate, points, now, freshId))
  {
    var p :- Gate(st, header, verify, TeacherOrAdmin);
    CreateTaskChecked(st, p, classId, title, description, dueDate, points, now, freshId)
  }

  /** As written, an administrator can never create a task, whatever the
      class, the fields or the time. */
  lemma AdminCannotCreateTask(st: Store, header: Option<string>, verify: string -> Verified, classId: ClassId,
                              title: Option<string>, description: Option<string>, dueDate: DateField, points: IntField,
                              now: int, freshId: TaskId)
    requires freshId !in st.tasks
    requires Authenticate(st, header, verify).Identified? && Authenticate(st, header, verify).p.role == Admin
    ensures CreateTaskRoute(st, header, verify, classId, title, description, dueDate, points, now, freshId)
            == Err(Forbidden)
  {
  }

  /** With the roles as one list, an administrator creates a task in any
      existing class given valid fields and a future due date. */
  lemma IntendedAdmitsAdmin(st: Store, header: Option<string>, verify: string -> Verified, classId: ClassId,
                            title: Option<string>, description: Option<string>, dueDate: DateField, points: IntField,
                            now: int, freshId: TaskId)
    requires freshId !in st.tasks
    requires Authenticate(st, header, verify).Identified? && Authenticate(st, header, verify).p.role == Admin
    requires classId in st.classes && CreateFieldsValid(title, description, dueDate, points) && dueDate.at > now
    ensures CreateTaskRouteIntended(st, header, verify, classId, title, description, dueDate, points, now, freshId).Ok?
  {
    var p := Authenticate(st, header, verify).p;
    var t, d := Trim(FieldText(title)), Trim(FieldText(description));
    var checked := CreateTaskChecked(st, p, classId, title, description, dueDate, points, now, freshId);
    assert CreateTaskRouteIntended(st, header, verify, classId, title, description, dueDate, points, now, freshId)
        == checked;
    assert checked == Tasks.CreateTask(st, p, classId, t, d, dueDate.at, IntArg(points), now, freshId);
    AdminCreatesInAnyClass(st, p, classId, t, d, dueDate.at, IntArg(points), now, freshId);
  }

  /** The handler alone: an administrator passes the ownership check of any
      existing class, so only the due date can stop the creation. */
  lemma AdminCreatesInAnyClass(st: Store, p: Principal, classId: ClassId, title: string, description: string,
                               dueDate: int, points: Arg<int>, now: int, freshId: TaskId)
    requires freshId !in st.tasks && p.role == Admin && classId in st.classes && dueDate > now
    ensures Tasks.CreateTask(st, p, classId, title, description, dueDate, points, now, freshId).Ok?
  {
    assert Allowed(p, PostIn(st.classes[classId].teacherId));
  }

  /** Passing the roles as one list changes nothing for a caller who is not
      an administrator. */
  lemma IntendedAgreesForOthers(st: Store, header: Option<string>, verify: string -> Verified, classId: ClassId,
                                title: Option<string>, description: Option<string>, dueDate: DateField,
                                points: IntField, now: int, freshId: TaskId)
    requires freshId !in st.tasks
    requires !Authenticate(st, header, verify).Identified? || Authenticate(st, header, verify).p.role != Admin
    ensures CreateTaskRouteIntended(st, header, verify, classId, title, description, dueDate, points, now, freshId)
            == CreateTaskRoute(st, header, verify, classId, title, description, dueDate, points, now, freshId)
  {
  }

  /** GET /classes/:classId/tasks: any authenticated caller gets the class's
      tasks, earliest due date first, with no membership check. */
  method GetTasksRoute(st: Store, header: Option<string>, verify: string -> Verified, classId: ClassId)
    returns (r: Result<seq<TaskId>>)
    ensures r.Ok? <==> Authenticate(st, header, verify).Identified?
    ensures r.Err? ==> r.status == Unauthenticated
    ensures r.Ok? ==> forall t :: t in r.value <==> t in st.tasks && st.tasks[t].classId == classId
    ensures r.Ok? ==> Ordering.Distinct(r.value)
    ensures r.Ok? ==> Tasks.EarliestDueFirst(st.tasks, r.value)
  {
    var who := Identify(st, header, verify);
    if who.Err? {
      return Err(who.status);
    }
    var listed := Tasks.GetTasks(st, classId);
    return Ok(listed);
  }
}

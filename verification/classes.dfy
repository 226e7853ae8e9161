/** The class handlers: listings, details, create/update/delete, and the
    enrollment operations (join by code, list and remove students). */
module Classes {
  import opened Http
  import opened Text
  import opened Classroom
  import opened Access

  /** GET /classes: teachers and admins get the classes they teach; anyone
      else (a student) gets the classes they are enrolled in. */
  function GetClasses(st: Store, p: Principal): (r: set<ClassId>)
    ensures p.role != Student ==> forall c :: c in r <==> c in st.classes && st.classes[c].teacherId == p.id
    ensures p.role == Student ==> forall c :: c in r <==> c in st.classes && IsEnrolled(st, c, p.id)
  {
    if p.role == Teacher || p.role == Admin then
      set c | c in st.classes && st.classes[c].teacherId == p.id
    else
      assert p.role == Student;
      set c | c in st.classes && IsEnrolled(st, c, p.id)
  }

  /** What GET /classes/:classId answers. */
  datatype ClassView = ClassView(
    info: Class,
    students: set<UserId>,
    tasks: set<TaskId>,
    announcements: set<AnnouncementId>,
    materials: set<MaterialId>)

  /** GET /classes/:classId: 404 for an unknown class, then 403 unless the
      caller teaches it, is enrolled in it, or is an admin. */
  function GetClassById(st: Store, p: Principal, c: ClassId): (r: Result<ClassView>)
    ensures c !in st.classes ==> r == Err(NotFound)
    ensures c in st.classes ==>
      (r.Ok? <==> Allowed(p, ViewClass(st.classes[c].teacherId, IsEnrolled(st, c, p.id))))
      && (r.Err? ==> r.status == Forbidden)
    ensures r.Ok? ==>
      && r.value.info == st.classes[c]
      && r.value.students == StudentsOf(st, c)
      && (forall t :: t in r.value.tasks <==> t in st.tasks && st.tasks[t].classId == c)
      && (forall a :: a in r.value.announcements <==> a in st.announcements && st.announcements[a].classId == c)
      && (forall m :: m in r.value.materials <==> m in st.materials && st.materials[m].classId == c)
  {
    if c !in st.classes then Err(NotFound) else
    var info := st.classes[c];
    :- Need(!(info.teacherId != p.id && !IsEnrolled(st, c, p.id) && p.role != Admin), Forbidden);
    Ok(ClassView(
      info,
      StudentsOf(st, c),
      set t | t in st.tasks && st.tasks[t].classId == c,
      set a | a in st.announcements && st.announcements[a].classId == c,
      set m | m in st.materials && st.materials[m].classId == c))
  }

  /** Every class a caller's listing shows, the caller may open. */
  lemma ListedClassesOpen(st: Store, p: Principal, c: ClassId)
    requires c in GetClasses(st, p)
    ensures GetClassById(st, p, c).Ok?
  {
  }

  /** POST /classes. The code comes from the generator, whose promise is a
      fresh six-character `[A-Z0-9]` code; the caller becomes the teacher.
      The reply's student count is always 0. */
  function CreateClass(st: Store, p: Principal, name: string, description: string, subject: Option<string>,
                       code: string, freshId: ClassId): (r: Step<ClassId>)
    requires IsClassCode(code)
    requires forall c | c in st.classes :: st.classes[c].code != code
    requires freshId !in st.classes
    ensures r.reply == freshId && freshId in r.store.classes
    ensures r.store == st.(classes := st.classes[freshId := r.store.classes[freshId]])
    ensures var k := r.store.classes[freshId];
      k.teacherId == p.id && k.code == code && k.name == name && k.description == description && k.subject == subject
    ensures StudentsOf(r.store, freshId) == StudentsOf(st, freshId)
  {
    Step(st.(classes := st.classes[freshId := Class(p.id, code, name, description, subject)]), freshId)
  }

  lemma CreateClassPreservesValid(st: Store, p: Principal, name: string, description: string, subject: Option<string>,
                                  code: string, freshId: ClassId)
    requires Valid(st)
    requires IsClassCode(code)
    requires forall c | c in st.classes :: st.classes[c].code != code
    requires freshId !in st.classes
    ensures Valid(CreateClass(st, p, name, description, subject, code, freshId).store)
    ensures StudentsOf(st, freshId) == {}
  {
  }

  /** PUT /classes/:classId: 404, then the teacher-or-admin rule. Name and
      description change only when truthy; subject whenever the field is
      present, `null` included. Teacher and code never change. */
  function UpdateClass(st: Store, p: Principal, c: ClassId, name: Option<string>, description: Option<string>,
                       subject: Arg<string>): (r: Result<Step<ClassId>>)
    ensures c !in st.classes ==> r == Err(NotFound)
    ensures c in st.classes ==>
      (r.Ok? <==> Allowed(p, ManageClass(st.classes[c].teacherId))) && (r.Err? ==> r.status == Forbidden)
    ensures r.Ok? ==>
      && r.value.reply == c && c in st.classes && c in r.value.store.classes
      && r.value.store == st.(classes := st.classes[c := r.value.store.classes[c]])
    ensures r.Ok? ==>
      var before := st.classes[c];
      var after := r.value.store.classes[c];
      && after.teacherId == before.teacherId && after.code == before.code
      && (Truthy(name) ==> after.name == name.value) && (!Truthy(name) ==> after.name == before.name)
      && (Truthy(description) ==> after.description == description.value)
      && (!Truthy(description) ==> after.description == before.description)
      && after.subject == subject.Over(before.subject)
  {
    if c !in st.classes then Err(NotFound) else
    var k := st.classes[c];
    :- Need(!(k.teacherId != p.id && p.role != Admin), Forbidden);
    var k1 := if Truthy(name) then k.(name := name.value) else k;
    var k2 := if Truthy(description) then k1.(description := description.value) else k1;
    var k3 := if !subject.Absent? then k2.(subject := subject.Over(k2.subject)) else k2;
    Ok(Step(st.(classes := st.classes[c := k3]), c))
  }

  lemma UpdateClassPreservesValid(st: Store, p: Principal, c: ClassId, name: Option<string>,
                                  description: Option<string>, subject: Arg<string>)
    requires Valid(st)
    requires UpdateClass(st, p, c, name, description, subject).Ok?
    ensures Valid(UpdateClass(st, p, c, name, description, subject).value.store)
  {
    var st' := UpdateClass(st, p, c, name, description, subject).value.store;
    assert forall d | d in st'.classes :: st'.classes[d].code == st.classes[d].code;
  }

  /** The store without class `c` and everything that belongs to it. */
  function WithoutClass(st: Store, c: ClassId): (r: Store)
    ensures r.classes.Keys == st.classes.Keys - {c}
    ensures forall d | d in r.classes :: r.classes[d] == st.classes[d]
    ensures forall e :: e in r.enrollments <==> e in st.enrollments && e.0 != c
    ensures forall t :: t in r.tasks <==> t in st.tasks && st.tasks[t].classId != c
    ensures forall s :: s in r.submissions <==>
      s in st.submissions && st.submissions[s].taskId in r.tasks
    ensures forall a :: a in r.announcements <==> a in st.announcements && st.announcements[a].classId != c
    ensures forall m :: m in r.materials <==> m in st.materials && st.materials[m].classId != c
    ensures r.users == st.users
    ensures forall t | t in r.tasks :: r.tasks[t] == st.tasks[t]
    ensures forall s | s in r.submissions :: r.submissions[s] == st.submissions[s]
    ensures forall a | a in r.announcements :: r.announcements[a] == st.announcements[a]
    ensures forall m | m in r.materials :: r.materials[m] == st.materials[m]
  {
    var tasks := map t | t in st.tasks && st.tasks[t].classId != c :: st.tasks[t];
    Store(
      st.users,
      st.classes - {c},
      (set e | e in st.enrollments && e.0 != c),
      tasks,
      (map s | s in st.submissions && st.submissions[s].taskId in tasks :: st.submissions[s]),
      (map a | a in st.announcements && st.announcements[a].classId != c :: st.announcements[a]),
      map m | m in st.materials && st.materials[m].classId != c :: st.materials[m])
  }

  /** DELETE /classes/:classId: 404, then the teacher-or-admin rule. The
      class goes with its enrollments, tasks (and their submissions),
      announcements and materials. */
  function DeleteClass(st: Store, p: Principal, c: ClassId): (r: Result<Step<()>>)
    ensures c !in st.classes ==> r == Err(NotFound)
    ensures c in st.classes ==>
      (r.Ok? <==> Allowed(p, ManageClass(st.classes[c].teacherId))) && (r.Err? ==> r.status == Forbidden)
    ensures r.Ok? ==> r.value.store == WithoutClass(st, c)
  {
    if c !in st.classes then Err(NotFound) else
    :- Need(!(st.classes[c].teacherId != p.id && p.role != Admin), Forbidden);
    Ok(Step(WithoutClass(st, c), ()))
  }

  lemma DeleteClassPreservesValid(st: Store, p: Principal, c: ClassId)
    requires Valid(st)
    requires DeleteClass(st, p, c).Ok?
    ensures Valid(DeleteClass(st, p, c).value.store)
  {
    WithoutClassPreservesValid(st, c);
  }

  /** Removing a class together with everything that refers to it leaves no
      dangling reference and keeps codes and submission keys unique. */
  lemma WithoutClassPreservesValid(st: Store, c: ClassId)
    requires Valid(st)
    ensures Valid(WithoutClass(st, c))
  {
    var st' := WithoutClass(st, c);
    assert CodesValid(st'.classes);
    assert SubmissionKeyUnique(st'.submissions) by {
      forall a, b | a in st'.submissions && b in st'.submissions
        && st'.submissions[a].taskId == st'.submissions[b].taskId
        && st'.submissions[a].studentId == st'.submissions[b].studentId
        ensures a == b
      {
        assert st'.submissions[a] == st.submissions[a] && st'.submissions[b] == st.submissions[b];
      }
    }
    assert TasksInClasses(st');
    assert SubmissionsOnTasks(st');
    assert AnnouncementsInClasses(st');
  }

  /** Removing a class nothing refers to removes just that class. */
  lemma WithoutUnreferencedClass(st: Store, c: ClassId)
    requires forall e | e in st.enrollments :: e.0 != c
    requires forall t | t in st.tasks :: st.tasks[t].classId != c
    requires SubmissionsOnTasks(st)
    requires forall a | a in st.announcements :: st.announcements[a].classId != c
    requires forall m | m in st.materials :: st.materials[m].classId != c
    ensures WithoutClass(st, c) == st.(classes := st.classes - {c})
  {
    var r := WithoutClass(st, c);
    assert r.enrollments == st.enrollments;
    assert r.tasks == st.tasks;
    assert r.submissions == st.submissions;
    assert r.announcements == st.announcements;
    assert r.materials == st.materials;
  }

  /** Deleting a class just created restores the store. */
  lemma CreateThenDeleteClass(st: Store, p: Principal, name: string, description: string, subject: Option<string>,
                              code: string, freshId: ClassId)
    requires Valid(st)
    requires IsClassCode(code)
    requires forall c | c in st.classes :: st.classes[c].code != code
    requires freshId !in st.classes
    ensures DeleteClass(CreateClass(st, p, name, description, subject, code, freshId).store, p, freshId)
            == Ok(Step(st, ()))
  {
    var st1 := CreateClass(st, p, name, description, subject, code, freshId).store;
    WithoutUnreferencedClass(st1, freshId);
    assert st1.classes - {freshId} == st.classes;
  }

  /** The reply of a successful join: the class and its new head count. */
  datatype Joined = Joined(classId: ClassId, studentsCount: nat)

  /** POST /classes/join. Only students may join (checked before any
      lookup); the code is upper-cased and looked up; an unknown code is
      404, an existing enrollment 400, and otherwise exactly that one pair
      is added. The count reported is the count before, plus one. */
  function JoinClass(st: Store, p: Principal, code: string): (r: Result<Step<Joined>>)
    requires CodesValid(st.classes)
    ensures p.role != Student ==> r == Err(Forbidden)
    ensures p.role == Student && (forall c | c in st.classes :: st.classes[c].code != ToUpper(code)) ==>
      r == Err(NotFound)
    ensures p.role == Student ==> forall c | c in st.classes && st.classes[c].code == ToUpper(code) ::
      && (IsEnrolled(st, c, p.id) ==> r == Err(BadRequest))
      && (!IsEnrolled(st, c, p.id) ==>
            r == Ok(Step(st.(enrollments := st.enrollments + {(c, p.id)}), Joined(c, |StudentsOf(st, c)| + 1))))
  {
    if p.role != Student then Err(Forbidden) else
    var found := ClassWithCode(st, ToUpper(code));
    :- Need(found.Some?, NotFound);
    var c := found.value;
    :- Need(!IsEnrolled(st, c, p.id), BadRequest);
    Ok(Step(st.(enrollments := st.enrollments + {(c, p.id)}), Joined(c, |StudentsOf(st, c)| + 1)))
  }

  /** The reported count is the number of students enrolled after the join. */
  lemma JoinCountIsNewCount(st: Store, p: Principal, code: string)
    requires CodesValid(st.classes)
    requires JoinClass(st, p, code).Ok?
    ensures var r := JoinClass(st, p, code).value;
      r.reply.studentsCount == |StudentsOf(r.store, r.reply.classId)|
  {
    var r := JoinClass(st, p, code).value;
    var c := r.reply.classId;
    assert StudentsOf(r.store, c) == StudentsOf(st, c) + {p.id};
    assert p.id !in StudentsOf(st, c);
  }

  /** The code is matched case-insensitively: any spelling that upper-cases
      to a class's code joins the same class. */
  lemma JoinIgnoresCase(st: Store, p: Principal, code: string)
    requires CodesValid(st.classes)
    ensures JoinClass(st, p, code) == JoinClass(st, p, ToUpper(code))
  {
    ToUpperIdempotent(code);
  }

  lemma JoinPreservesValid(st: Store, p: Principal, code: string)
    requires Valid(st)
    requires JoinClass(st, p, code).Ok?
    ensures Valid(JoinClass(st, p, code).value.store)
  {
  }

  /** After joining, the class shows in the student's listing and opens for them;
      a second join with the same code is refused. */
  lemma JoinThenListed(st: Store, p: Principal, code: string)
    requires CodesValid(st.classes)
    requires JoinClass(st, p, code).Ok?
    ensures var r := JoinClass(st, p, code).value;
      && CodesValid(r.store.classes)
      && r.reply.classId in GetClasses(r.store, p)
      && GetClassById(r.store, p, r.reply.classId).Ok?
      && JoinClass(r.store, p, code) == Err(BadRequest)
  {
  }

  /** GET /classes/:classId/students: 404, then the teacher-or-admin rule. */
  function GetClassStudents(st: Store, p: Principal, c: ClassId): (r: Result<set<UserId>>)
    ensures c !in st.classes ==> r == Err(NotFound)
    ensures c in st.classes ==>
      (r.Ok? <==> Allowed(p, ManageClass(st.classes[c].teacherId))) && (r.Err? ==> r.status == Forbidden)
    ensures r.Ok? ==> forall u :: u in r.value <==> IsEnrolled(st, c, u)
  {
    if c !in st.classes then Err(NotFound) else
    :- Need(!(st.classes[c].teacherId != p.id && p.role != Admin), Forbidden);
    Ok(StudentsOf(st, c))
  }

  /** DELETE /classes/:classId/students/:studentId: 404 for the class, then
      the teacher-or-admin rule, then 404 when the student is not enrolled;
      otherwise exactly that pair goes. */
  function RemoveStudentFromClass(st: Store, p: Principal, c: ClassId, s: UserId): (r: Result<Step<()>>)
    ensures c !in st.classes ==> r == Err(NotFound)
    ensures c in st.classes && !Allowed(p, ManageClass(st.classes[c].teacherId)) ==> r == Err(Forbidden)
    ensures c in st.classes && Allowed(p, ManageClass(st.classes[c].teacherId)) ==>
      (r.Ok? <==> IsEnrolled(st, c, s)) && (r.Err? ==> r.status == NotFound)
    ensures r.Ok? ==> r.value.store == st.(enrollments := st.enrollments - {(c, s)})
  {
    if c !in st.classes then Err(NotFound) else
    :- Need(!(st.classes[c].teacherId != p.id && p.role != Admin), Forbidden);
    :- Need(IsEnrolled(st, c, s), NotFound);
    Ok(Step(st.(enrollments := st.enrollments - {(c, s)}), ()))
  }

  lemma RemoveStudentPreservesValid(st: Store, p: Principal, c: ClassId, s: UserId)
    requires Valid(st)
    requires RemoveStudentFromClass(st, p, c, s).Ok?
    ensures Valid(RemoveStudentFromClass(st, p, c, s).value.store)
  {
  }

  /** Removing a student who just joined, by the class teacher or an admin,
      restores the store. */
  lemma JoinThenRemove(st: Store, student: Principal, manager: Principal, code: string)
    requires CodesValid(st.classes)
    requires JoinClass(st, student, code).Ok?
    requires var c := JoinClass(st, student, code).value.reply.classId;
      Allowed(manager, ManageClass(st.classes[c].teacherId))
    ensures var r := JoinClass(st, student, code).value;
      RemoveStudentFromClass(r.store, manager, r.reply.classId, student.id) == Ok(Step(st, ()))
  {
    var r := JoinClass(st, student, code).value;
    var c := r.reply.classId;
    assert (c, student.id) !in st.enrollments;
    assert r.store.enrollments - {(c, student.id)} == st.enrollments;
  }

  /** The roster follows the enrollments: after a join, the class teacher or
      an admin sees the new student listed beside everyone already there. */
  lemma JoinThenOnRoster(st: Store, student: Principal, manager: Principal, code: string)
    requires CodesValid(st.classes)
    requires JoinClass(st, student, code).Ok?
    requires var c := JoinClass(st, student, code).value.reply.classId;
      Allowed(manager, ManageClass(st.classes[c].teacherId))
    ensures var r := JoinClass(st, student, code).value;
      && GetClassStudents(st, manager, r.reply.classId).Ok?
      && student.id !in GetClassStudents(st, manager, r.reply.classId).value
      && GetClassStudents(r.store, manager, r.reply.classId)
         == Ok(GetClassStudents(st, manager, r.reply.classId).value + {student.id})
  {
    var r := JoinClass(st, student, code).value;
    var c := r.reply.classId;
    assert StudentsOf(r.store, c) == StudentsOf(st, c) + {student.id};
  }

  /** After a removal, the roster is the one before without that student. */
  lemma RemoveThenOffRoster(st: Store, p: Principal, c: ClassId, s: UserId)
    requires RemoveStudentFromClass(st, p, c, s).Ok?
    ensures GetClassStudents(st, p, c).Ok? && s in GetClassStudents(st, p, c).value
    ensures var st' := RemoveStudentFromClass(st, p, c, s).value.store;
      GetClassStudents(st', p, c) == Ok(GetClassStudents(st, p, c).value - {s})
  {
    var st' := RemoveStudentFromClass(st, p, c, s).value.store;
    assert StudentsOf(st', c) == StudentsOf(st, c) - {s};
  }

  /** GET /classes/all: admins only. */
  function GetAllClasses(st: Store, p: Principal): (r: Result<set<ClassId>>)
    ensures r.Ok? <==> Allowed(p, ListAllClasses)
    ensures r.Err? ==> r.status == Forbidden
    ensures r.Ok? ==> forall c :: c in r.value <==> c in st.classes
  {
    if p.role != Admin then Err(Forbidden) else
    Ok(st.classes.Keys)
  }

  /** An admin's full listing contains every class anyone's listing shows. */
  lemma AllClassesCoverListings(st: Store, admin: Principal, p: Principal)
    requires admin.role == Admin
    ensures GetAllClasses(st, admin).Ok?
    ensures GetClasses(st, p) <= GetAllClasses(st, admin).value
  {
  }
}

/** The class routes: `auth` on all of them, a role gate on most, and the
    name, description and code validators. */
module ClassRoutes {
  import opened Http
  import opened Text
  import opened Classroom
  import opened Access
  import opened Auth
  import opened Validation
  import Classes

  const AdminOnly: seq<RoleArg> := [RoleList([Admin])]
  const TeacherOrAdmin: seq<RoleArg> := [RoleList([Teacher, Admin])]
  const StudentOnly: seq<RoleArg> := [RoleList([Student])]

  /** GET /classes/all: administrators only. */
  function GetAllClassesRoute(st: Store, header: Option<string>, verify: string -> Verified): (r: Result<set<ClassId>>)
    ensures !Authenticate(st, header, verify).Identified? ==> r == Err(Unauthenticated)
    ensures Authenticate(st, header, verify).Identified? ==>
      (r.Ok? <==> Authenticate(st, header, verify).p.role == Admin) && (r.Err? ==> r.status == Forbidden)
    ensures r.Ok? ==> r.value == st.classes.Keys
  {
    var p :- Gate(st, header, verify, AdminOnly);
    Classes.GetAllClasses(st, p)
  }

  /** GET /classes: authentication only. */
  function GetClassesRoute(st: Store, header: Option<string>, verify: string -> Verified): (r: Result<set<ClassId>>)
    ensures r.Ok? <==> Authenticate(st, header, verify).Identified?
    ensures r.Err? ==> r.status == Unauthenticated
    ensures r.Ok? ==> r.value == Classes.GetClasses(st, Authenticate(st, header, verify).p)
  {
    var p :- Identify(st, header, verify);
    Ok(Classes.GetClasses(st, p))
  }

  /** GET /classes/:classId: authentication only; the handler decides access. */
  function GetClassRoute(st: Store, header: Option<string>, verify: string -> Verified, c: ClassId)
    : (r: Result<Classes.ClassView>)
    ensures !Authenticate(st, header, verify).Identified? ==> r == Err(Unauthenticated)
    ensures Authenticate(st, header, verify).Identified? ==>
      r == Classes.GetClassById(st, Authenticate(st, header, verify).p, c)
  {
    var p :- Identify(st, header, verify);
    Classes.GetClassById(st, p, c)
  }

  /** The creation validators, then the handler on the sanitized fields:
      a name of at least three characters and a non-blank description,
      once trimmed. */
  function CreateClassChecked(st: Store, p: Principal, name: Option<string>, description: Option<string>,
                              subject: Option<string>, code: string, freshId: ClassId): (r: Result<Step<ClassId>>)
    requires IsClassCode(code)
    requires forall c | c in st.classes :: st.classes[c].code != code
    requires freshId !in st.classes
    ensures r.Ok? <==> MinLength(name, 3) && NotBlank(description)
    ensures r.Err? ==> r.status == BadRequest
    ensures r.Ok? ==> r.value == Classes.CreateClass(st, p, Trim(FieldText(name)), Trim(FieldText(description)),
                                                     TrimField(subject), code, freshId)
    ensures r.Ok? ==> var k := r.value.store.classes[freshId];
      |k.name| >= 3 && k.description != "" && Trimmed(k.name) && Trimmed(k.description)
  {
    if !(MinLength(name, 3) && NotBlank(description)) then Err(BadRequest) else
    Ok(Classes.CreateClass(st, p, Trim(FieldText(name)), Trim(FieldText(description)), TrimField(subject), code, freshId))
  }

  /** POST /classes: teachers and administrators, then the validators. */
  function CreateClassRoute(st: Store, header: Option<string>, verify: string -> Verified, name: Option<string>,
                            description: Option<string>, subject: Option<string>, code: string, freshId: ClassId)
    : (r: Result<Step<ClassId>>)
    requires IsClassCode(code)
    requires forall c | c in st.classes :: st.classes[c].code != code
    requires freshId !in st.classes
    ensures !Authenticate(st, header, verify).Identified? ==> r == Err(Unauthenticated)
    ensures Authenticate(st, header, verify).Identified? ==>
      var p := Authenticate(st, header, verify).p;
      && (p.role == Student ==> r == Err(Forbidden))
      && (p.role != Student ==> r == CreateClassChecked(st, p, name, description, subject, code, freshId))
  {
    var p :- Gate(st, header, verify, TeacherOrAdmin);
    CreateClassChecked(st, p, name, description, subject, code, freshId)
  }

  /** PUT /classes/:classId: teachers and administrators; a UUID path id and
      a name, when given, of at least three characters once trimmed. */
  function UpdateClassRoute(st: Store, header: Option<string>, verify: string -> Verified, isUuid: string -> bool,
                            c: ClassId, name: Option<string>, description: Option<string>, subject: Option<string>)
    : (r: Result<Step<ClassId>>)
    ensures !Authenticate(st, header, verify).Identified? ==> r == Err(Unauthenticated)
    ensures Authenticate(st, header, verify).Identified? ==>
      var p := Authenticate(st, header, verify).p;
      && (p.role == Student ==> r == Err(Forbidden))
      && (p.role != Student && !(isUuid(c) && OptionalMinLength(name, 3)) ==> r == Err(BadRequest))
      && (p.role != Student && isUuid(c) && OptionalMinLength(name, 3) ==>
            r == Classes.UpdateClass(st, p, c, TrimField(name), TrimField(description),
                                     if subject.Some? then Given(Trim(subject.value)) else Absent))
  {
    var p :- Gate(st, header, verify, TeacherOrAdmin);
    :- Need(isUuid(c) && OptionalMinLength(name, 3), BadRequest);
    Classes.UpdateClass(st, p, c, TrimField(name), TrimField(description),
                        if subject.Some? then Given(Trim(subject.value)) else Absent)
  }

  /** DELETE /classes/:classId: teachers and administrators. */
  function DeleteClassRoute(st: Store, header: Option<string>, verify: string -> Verified, c: ClassId)
    : (r: Result<Step<()>>)
    ensures !Authenticate(st, header, verify).Identified? ==> r == Err(Unauthenticated)
    ensures Authenticate(st, header, verify).Identified? ==>
      var p := Authenticate(st, header, verify).p;
      && (p.role == Student ==> r == Err(Forbidden))
      && (p.role != Student ==> r == Classes.DeleteClass(st, p, c))
  {
    var p :- Gate(st, header, verify, TeacherOrAdmin);
    Classes.DeleteClass(st, p, c)
  }

  /** POST /classes/join: students only; the code must be exactly six
      characters once trimmed, and the trimmed code is what is looked up. */
  function JoinClassRoute(st: Store, header: Option<string>, verify: string -> Verified, code: Option<string>)
    : (r: Result<Step<Classes.Joined>>)
    requires CodesValid(st.classes)
    ensures !Authenticate(st, header, verify).Identified? ==> r == Err(Unauthenticated)
    ensures Authenticate(st, header, verify).Identified? ==>
      var p := Authenticate(st, header, verify).p;
      && (p.role != Student ==> r == Err(Forbidden))
      && (p.role == Student && |Trim(FieldText(code))| != 6 ==> r == Err(BadRequest))
      && (p.role == Student && |Trim(FieldText(code))| == 6 ==>
            r == Classes.JoinClass(st, p, Trim(FieldText(code))))
  {
    var p :- Gate(st, header, verify, StudentOnly);
    :- Need(|Trim(FieldText(code))| == 6, BadRequest);
    Classes.JoinClass(st, p, Trim(FieldText(code)))
  }

  /** A student joins with a code typed in any case and with surrounding
      blanks: the route trims it and the handler upper-cases it. */
  lemma JoinWithLooseCode(st: Store, header: Option<string>, verify: string -> Verified, c: ClassId,
                          typed: string, pad: string)
    requires CodesValid(st.classes) && c in st.classes
    requires Authenticate(st, header, verify).Identified? && Authenticate(st, header, verify).p.role == Student
    requires !IsEnrolled(st, c, Authenticate(st, header, verify).p.id)
    requires Trimmed(typed) && AllWhitespace(pad) && ToUpper(typed) == st.classes[c].code
    ensures var r := JoinClassRoute(st, header, verify, Some(pad + typed + pad));
      r.Ok? && r.value.reply.classId == c && IsEnrolled(r.value.store, c, Authenticate(st, header, verify).p.id)
  {
    TrimPadded(typed, pad);
  }

  /** GET /classes/:classId/students: no role gate; the handler decides. */
  function GetClassStudentsRoute(st: Store, header: Option<string>, verify: string -> Verified, c: ClassId)
    : (r: Result<set<UserId>>)
    ensures !Authenticate(st, header, verify).Identified? ==> r == Err(Unauthenticated)
    ensures Authenticate(st, header, verify).Identified? ==>
      r == Classes.GetClassStudents(st, Authenticate(st, header, verify).p, c)
  {
    var p :- Identify(st, header, verify);
    Classes.GetClassStudents(st, p, c)
  }

  /** DELETE /classes/:classId/students/:studentId: teachers and administrators. */
  function RemoveStudentRoute(st: Store, header: Option<string>, verify: string -> Verified, c: ClassId, s: UserId)
    : (r: Result<Step<()>>)
    ensures !Authenticate(st, header, verify).Identified? ==> r == Err(Unauthenticated)
    ensures Authenticate(st, header, verify).Identified? ==>
      var p := Authenticate(st, header, verify).p;
      && (p.role == Student ==> r == Err(Forbidden))
      && (p.role != Student ==> r == Classes.RemoveStudentFromClass(st, p, c, s))
  {
    var p :- Gate(st, header, verify, TeacherOrAdmin);
    Classes.RemoveStudentFromClass(st, p, c, s)
  }
}

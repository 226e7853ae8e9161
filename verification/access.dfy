/** The permission matrix the handlers apply, gathered in one place. Each
    handler re-derives its own "is the teacher / is the author / is an
    admin" test inline; the handler modules prove that their `Forbidden`
    answers are exactly the denials of this table. The route-level role
    gates are separate (module Auth). */
module Access {
  import opened Classroom

  /** An action together with the ownership facts its rule needs, so the
      evaluator never reads the store itself. */
  datatype Action =
    | PostIn(classTeacher: UserId)  // a task, an announcement or a material
    | ChangeTask(author: UserId)
    | ManageClass(classTeacher: UserId)
    | ViewClass(classTeacher: UserId, enrolled: bool)
    | ViewTaskSubmissions(classTeacher: UserId)
    | ViewSubmission(owner: UserId, classTeacher: UserId)
    | GradeIn(classTeacher: UserId)
    | RemoveAnnouncement(author: UserId, classTeacher: UserId)
    | SubmitAs(enrolled: bool)
    | JoinByCode
    | ListAllClasses

  /** Whether principal `p` may perform `a`. */
  predicate Allowed(p: Principal, a: Action)
  {
    var admin := p.role == Admin;
    match a
    case PostIn(t) => admin || p.id == t
    case ChangeTask(author) => admin || p.id == author
    case ManageClass(t) => admin || p.id == t
    case ViewClass(t, enrolled) => admin || p.id == t || enrolled
    case ViewTaskSubmissions(t) => admin || p.id == t
    case ViewSubmission(owner, t) => admin || p.id == owner || p.id == t
    case GradeIn(t) => admin || p.id == t
    case RemoveAnnouncement(author, t) => admin || p.id == author || p.id == t
    case SubmitAs(enrolled) => enrolled
    case JoinByCode => p.role == Student
    case ListAllClasses => admin
  }

  /** An administrator may do everything except what is reserved for
      students (joining) or for enrolled students (submitting). */
  lemma AdminBypassesOwnership(p: Principal, a: Action)
    requires p.role == Admin
    requires !a.SubmitAs? && !a.JoinByCode?
    ensures Allowed(p, a)
  {
  }

  /** The owner-based rules are monotone: whoever may manage a class, as its
      teacher or an admin, may also view it, its task submissions and its
      submissions, grade in it, and remove its announcements. */
  lemma ManagersMayView(p: Principal, t: UserId, enrolled: bool)
    requires Allowed(p, ManageClass(t))
    ensures Allowed(p, ViewClass(t, enrolled))
    ensures Allowed(p, ViewTaskSubmissions(t))
    ensures Allowed(p, GradeIn(t))
    ensures forall owner :: Allowed(p, ViewSubmission(owner, t))
    ensures forall author :: Allowed(p, RemoveAnnouncement(author, t))
  {
  }
}

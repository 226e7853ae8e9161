/** The announcement routes: listing needs authentication only; posting and
    deleting are for teachers and administrators, and posting validates the
    title and the content. */
module AnnouncementRoutes {
  import opened Http
  import opened Text
  import opened Classroom
  import opened Auth
  import opened Validation
  import Announcements

  const TeacherOrAdmin: seq<RoleArg> := [RoleList([Teacher, Admin])]

  /** GET /classes/:classId/announcements. */
  function GetAnnouncementsRoute(st: Store, header: Option<string>, verify: string -> Verified, c: ClassId)
    : (r: Result<set<AnnouncementId>>)
    ensures r.Ok? <==> Authenticate(st, header, verify).Identified?
    ensures r.Err? ==> r.status == Unauthenticated
    ensures r.Ok? ==> r.value == Announcements.GetAnnouncements(st, c)
  {
    var _ :- Identify(st, header, verify);
    Ok(Announcements.GetAnnouncements(st, c))
  }

  /** The posting validators: a title of at least three and content of at
      least ten characters, once trimmed. */
  predicate PostFieldsValid(title: Option<string>, content: Option<string>)
  {
    MinLength(title, 3) && MinLength(content, 10)
  }

  /** POST /classes/:classId/announcements. The array form of the gate admits
      both teachers and administrators. */
  function CreateAnnouncementRoute(st: Store, header: Option<string>, verify: string -> Verified, c: ClassId,
                                   title: Option<string>, content: Option<string>, freshId: AnnouncementId)
    : (r: Result<Step<AnnouncementId>>)
    requires freshId !in st.announcements
    ensures !Authenticate(st, header, verify).Identified? ==> r == Err(Unauthenticated)
    ensures Authenticate(st, header, verify).Identified? ==>
      var p := Authenticate(st, header, verify).p;
      && (p.role == Student ==> r == Err(Forbidden))
      && (p.role != Student && !PostFieldsValid(title, content) ==> r == Err(BadRequest))
      && (p.role != Student && PostFieldsValid(title, content) ==>
            r == Announcements.CreateAnnouncement(st, p, c, Trim(FieldText(title)), Trim(FieldText(content)), freshId))
    ensures r.Ok? ==> var a := r.value.store.announcements[freshId];
      |a.title| >= 3 && |a.content| >= 10
  {
    var p :- Gate(st, header, verify, TeacherOrAdmin);
    :- Need(PostFieldsValid(title, content), BadRequest);
    Announcements.CreateAnnouncement(st, p, c, Trim(FieldText(title)), Trim(FieldText(content)), freshId)
  }

  /** DELETE /announcements/:announcementId. */
  function DeleteAnnouncementRoute(st: Store, header: Option<string>, verify: string -> Verified, a: AnnouncementId)
    : (r: Result<Step<()>>)
    requires AnnouncementsInClasses(st)
    ensures !Authenticate(st, header, verify).Identified? ==> r == Err(Unauthenticated)
    ensures Authenticate(st, header, verify).Identified? ==>
      var p := Authenticate(st, header, verify).p;
      && (p.role == Student ==> r == Err(Forbidden))
      && (p.role != Student ==> r == Announcements.DeleteAnnouncement(st, p, a))
  {
    var p :- Gate(st, header, verify, TeacherOrAdmin);
    Announcements.DeleteAnnouncement(st, p, a)
  }

  /** A student who authored an announcement may delete it by the handler's
      rule, but the route's gate refuses them first. */
  lemma StudentAuthorRefused(st: Store, header: Option<string>, verify: string -> Verified, a: AnnouncementId)
    requires AnnouncementsInClasses(st)
    requires Authenticate(st, header, verify).Identified? && Authenticate(st, header, verify).p.role == Student
    requires a in st.announcements && st.announcements[a].authorId == Authenticate(st, header, verify).p.id
    ensures Announcements.DeleteAnnouncement(st, Authenticate(st, header, verify).p, a).Ok?
    ensures DeleteAnnouncementRoute(st, header, verify, a) == Err(Forbidden)
  {
  }
}

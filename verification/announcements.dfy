/** The announcement handlers: list a class's, post one, delete one. */
module Announcements {
  import opened Http
  import opened Classroom
  import opened Access

  /** GET /classes/:classId/announcements: the class's announcements. There
      is no membership check and no class lookup. */
  function GetAnnouncements(st: Store, c: ClassId): (r: set<AnnouncementId>)
    ensures forall a :: a in r <==> a in st.announcements && st.announcements[a].classId == c
  {
    set a | a in st.announcements && st.announcements[a].classId == c
  }

  /** POST /classes/:classId/announcements: 404 for an unknown class, then
      403 unless the caller teaches it or is an admin. The caller becomes
      the author. */
  function CreateAnnouncement(st: Store, p: Principal, c: ClassId, title: string, content: string,
                              freshId: AnnouncementId): (r: Result<Step<AnnouncementId>>)
    requires freshId !in st.announcements
    ensures c !in st.classes ==> r == Err(NotFound)
    ensures c in st.classes ==>
      (r.Ok? <==> Allowed(p, PostIn(st.classes[c].teacherId))) && (r.Err? ==> r.status == Forbidden)
    ensures r.Ok? ==>
      && r.value.reply == freshId && freshId in r.value.store.announcements
      && r.value.store == st.(announcements := st.announcements[freshId := r.value.store.announcements[freshId]])
      && r.value.store.announcements[freshId] == Announcement(c, p.id, title, content)
  {
    if c !in st.classes then Err(NotFound) else
    :- Need(!(st.classes[c].teacherId != p.id && p.role != Admin), Forbidden);
    Ok(Step(st.(announcements := st.announcements[freshId := Announcement(c, p.id, title, content)]), freshId))
  }

  lemma CreateAnnouncementPreservesValid(st: Store, p: Principal, c: ClassId, title: string, content: string,
                                         freshId: AnnouncementId)
    requires Valid(st) && freshId !in st.announcements
    requires CreateAnnouncement(st, p, c, title, content, freshId).Ok?
    ensures Valid(CreateAnnouncement(st, p, c, title, content, freshId).value.store)
  {
  }

  /** A posted announcement is listed for its class. */
  lemma CreateThenListed(st: Store, p: Principal, c: ClassId, title: string, content: string, freshId: AnnouncementId)
    requires freshId !in st.announcements
    requires CreateAnnouncement(st, p, c, title, content, freshId).Ok?
    ensures var st1 := CreateAnnouncement(st, p, c, title, content, freshId).value.store;
      GetAnnouncements(st1, c) == GetAnnouncements(st, c) + {freshId}
  {
  }

  /** DELETE /announcements/:announcementId: 404, then 403 unless the caller
      is the author, the class teacher or an admin. Only that announcement
      goes. */
  function DeleteAnnouncement(st: Store, p: Principal, a: AnnouncementId): (r: Result<Step<()>>)
    requires AnnouncementsInClasses(st)
    ensures a !in st.announcements ==> r == Err(NotFound)
    ensures a in st.announcements ==>
      var ann := st.announcements[a];
      (r.Ok? <==> Allowed(p, RemoveAnnouncement(ann.authorId, st.classes[ann.classId].teacherId)))
      && (r.Err? ==> r.status == Forbidden)
    ensures r.Ok? ==> r.value.store == st.(announcements := st.announcements - {a})
  {
    if a !in st.announcements then Err(NotFound) else
    var ann := st.announcements[a];
    var isAuthor := ann.authorId == p.id;
    var isTeacher := st.classes[ann.classId].teacherId == p.id;
    var isAdmin := p.role == Admin;
    :- Need(!(!isAuthor && !isTeacher && !isAdmin), Forbidden);
    Ok(Step(st.(announcements := st.announcements - {a}), ()))
  }

  lemma DeleteAnnouncementPreservesValid(st: Store, p: Principal, a: AnnouncementId)
    requires Valid(st)
    requires DeleteAnnouncement(st, p, a).Ok?
    ensures Valid(DeleteAnnouncement(st, p, a).value.store)
  {
  }

  /** Deleting an announcement just posted, by its author, restores the store. */
  lemma CreateThenDeleteAnnouncement(st: Store, p: Principal, c: ClassId, title: string, content: string,
                                     freshId: AnnouncementId)
    requires AnnouncementsInClasses(st) && freshId !in st.announcements
    requires CreateAnnouncement(st, p, c, title, content, freshId).Ok?
    ensures var st1 := CreateAnnouncement(st, p, c, title, content, freshId).value.store;
      AnnouncementsInClasses(st1) && DeleteAnnouncement(st1, p, freshId) == Ok(Step(st, ()))
  {
    var st1 := CreateAnnouncement(st, p, c, title, content, freshId).value.store;
    assert st1.announcements - {freshId} == st.announcements;
  }
}

/** The material handler that posts a file or a link to a class. */
module Materials {
  import opened Http
  import opened Text
  import opened Classroom
  import opened Access

  /** POST /classes/:classId/materials. A material must carry a truthy file
      URL or link, and that is checked before the class is looked up; then
      404 for an unknown class and 403 unless the caller teaches it or is an
      admin. The caller becomes the author. */
  function CreateMaterial(st: Store, p: Principal, c: ClassId, title: string, description: Option<string>,
                          fileUrl: Option<string>, link: Option<string>, freshId: MaterialId): (r: Result<Step<MaterialId>>)
    requires freshId !in st.materials
    ensures !Truthy(fileUrl) && !Truthy(link) ==> r == Err(BadRequest)
    ensures (Truthy(fileUrl) || Truthy(link)) && c !in st.classes ==> r == Err(NotFound)
    ensures (Truthy(fileUrl) || Truthy(link)) && c in st.classes ==>
      (r.Ok? <==> Allowed(p, PostIn(st.classes[c].teacherId))) && (r.Err? ==> r.status == Forbidden)
    ensures r.Ok? ==>
      && r.value.reply == freshId && freshId in r.value.store.materials
      && r.value.store == st.(materials := st.materials[freshId := r.value.store.materials[freshId]])
      && r.value.store.materials[freshId] == Material(c, p.id, title, description, fileUrl, link)
  {
    if !Truthy(fileUrl) && !Truthy(link) then Err(BadRequest) else
    :- Need(c in st.classes, NotFound);
    :- Need(!(st.classes[c].teacherId != p.id && p.role != Admin), Forbidden);
    Ok(Step(st.(materials := st.materials[freshId := Material(c, p.id, title, description, fileUrl, link)]), freshId))
  }

  lemma CreateMaterialPreservesValid(st: Store, p: Principal, c: ClassId, title: string, description: Option<string>,
                                     fileUrl: Option<string>, link: Option<string>, freshId: MaterialId)
    requires Valid(st) && freshId !in st.materials
    requires CreateMaterial(st, p, c, title, description, fileUrl, link, freshId).Ok?
    ensures Valid(CreateMaterial(st, p, c, title, description, fileUrl, link, freshId).value.store)
  {
  }

  /** A stored material always has something to open. */
  lemma StoredMaterialHasTarget(st: Store, p: Principal, c: ClassId, title: string, description: Option<string>,
                                fileUrl: Option<string>, link: Option<string>, freshId: MaterialId)
    requires freshId !in st.materials
    requires CreateMaterial(st, p, c, title, description, fileUrl, link, freshId).Ok?
    ensures var m := CreateMaterial(st, p, c, title, description, fileUrl, link, freshId).value.store.materials[freshId];
      Truthy(m.fileUrl) || Truthy(m.link)
  {
  }
}

/**
 * The note endpoints as store transitions with the JSON they answer:
 * delete, archive, retrieve, update and create a note, create a category,
 * and the home page's worktable resolution.
 */
module Views {
  import opened Wrappers
  import opened PyInt
  import opened Models
  import opened FormFields
  import opened NoteForms

  /** A JSON value as `JsonResponse` serialises it. */
  datatype Json = JNull | JInt(i: int) | JStr(s: string) | JArr(items: seq<Json>) | JObj(fields: map<string, Json>)

  /** What a view gives back: a JSON response with a status, or an
      exception it does not catch, which ends the request as a server error. */
  datatype Reply = Reply(status: int, body: Json) | Raised(exception: Exception)

  datatype Outcome = Outcome(store: Store, reply: Reply)

  function NotFoundMessage(rawId: string): string {
    "Not found such note by id=" + rawId
  }

  /** The 404 answer for a missing note, echoing the id as given in the URL. */
  function NotFound(rawId: string): Reply {
    Reply(404, JObj(map["errors" := JArr([JStr(NotFoundMessage(rawId))])]))
  }

  function ErrorsJson(e: Errors): Json {
    JObj(map f | f in e :: JArr(seq(|e[f]|, i requires 0 <= i < |e[f]| => JStr(e[f][i]))))
  }

  /** The 400 answer for an invalid form. */
  function Invalid(e: Errors): Reply {
    Reply(400, JObj(map["errors" := ErrorsJson(e)]))
  }

  function NoteIdBody(id: Id): Json {
    JObj(map["note" := JObj(map["id" := JInt(id)])])
  }

  /** `Note.objects.get(id=rawId)`: the URL's id is read as Python's `int()`
      reads it; a value that is no integer raises `ValueError`. */
  function FindNote(st: Store, rawId: string): (r: Result<Id, Exception>)
    ensures r.Ok? <==> ParseInt(rawId).Some? && ParseInt(rawId).value in st.notes
    ensures r.Ok? ==> r.value == ParseInt(rawId).value
    ensures r == Err(ValueError) <==> ParseInt(rawId).None?
    ensures r.Err? ==> r.error in {DoesNotExist, ValueError}
  {
    match ParseInt(rawId)
    case None => Err(ValueError)
    case Some(id) => if id in st.notes then Ok(id) else Err(DoesNotExist)
  }

  /** `j` shows category `cat`: exactly its title and colour, and its id
      when `id` is given. */
  predicate ShowsCategory(j: Json, cat: Category, id: Option<Id>) {
    && j.JObj?
    && j.fields.Keys == (if id.Some? then {"id", "title", "color"} else {"title", "color"})
    && j.fields["title"] == JStr(cat.title)
    && j.fields["color"] == JStr(cat.color)
    && (id.Some? ==> j.fields["id"] == JInt(id.value))
  }

  /** The `category` block of a response: present exactly when the note has
      a category; `withId` adds the category's id as `retrieve_note` does. */
  function CategoryBlock(st: Store, category: Option<Id>, withId: bool): (r: map<string, Json>)
    requires category.Some? ==> category.value in st.categories
    ensures "category" in r <==> category.Some?
    ensures r.Keys <= {"category"}
    ensures category.Some? ==>
              ShowsCategory(r["category"], st.categories[category.value], if withId then category else None)
  {
    match category
    case None => map[]
    case Some(c) =>
      var fields := map["title" := JStr(st.categories[c].title), "color" := JStr(st.categories[c].color)];
      map["category" := JObj(if withId then fields["id" := JInt(c)] else fields)]
  }

  predicate HasCategoryBlock(reply: Reply) {
    reply.Reply? && reply.body.JObj? && "category" in reply.body.fields
  }

  // ---------------------------------------------------------------------
  // delete_note, archive_note, retrieve_note

  /** `delete_note`: removes exactly the requested note and echoes its id;
      a missing note is a 404 and changes nothing. */
  function DeleteNote(st: Store, rawId: string): (r: Outcome)
    ensures FindNote(st, rawId).Ok? ==>
              var id := FindNote(st, rawId).value;
              && r.store == st.(notes := st.notes - {id})
              && |r.store.notes| == |st.notes| - 1
              && r.reply == Reply(200, NoteIdBody(id))
    ensures FindNote(st, rawId) == Err(DoesNotExist) ==> r.store == st && r.reply == NotFound(rawId)
    ensures FindNote(st, rawId) == Err(ValueError) ==> r.store == st && r.reply == Raised(ValueError)
  {
    match FindNote(st, rawId)
    case Ok(id) => Outcome(st.(notes := st.notes - {id}), Reply(200, NoteIdBody(id)))
    case Err(DoesNotExist) => Outcome(st, NotFound(rawId))
    case Err(e) => Outcome(st, Raised(e))
  }

  /** `archive_note`: sets the archive flag of exactly the requested note. */
  function ArchiveNote(st: Store, rawId: string): (r: Outcome)
    ensures FindNote(st, rawId).Ok? ==>
              var id := FindNote(st, rawId).value;
              && r.store == st.(notes := st.notes[id := st.notes[id].(isArchived := true)])
              && r.reply == Reply(200, NoteIdBody(id))
    ensures FindNote(st, rawId) == Err(DoesNotExist) ==> r.store == st && r.reply == NotFound(rawId)
    ensures FindNote(st, rawId) == Err(ValueError) ==> r.store == st && r.reply == Raised(ValueError)
  {
    match FindNote(st, rawId)
    case Ok(id) => Outcome(st.(notes := st.notes[id := st.notes[id].(isArchived := true)]), Reply(200, NoteIdBody(id)))
    case Err(DoesNotExist) => Outcome(st, NotFound(rawId))
    case Err(e) => Outcome(st, Raised(e))
  }

  function NoteBlock(n: Note): Json {
    JObj(map["title" := JStr(n.title), "text" := if n.text.Some? then JStr(n.text.value) else JNull])
  }

  /** The body `retrieve_note` answers for an existing note. */
  function RetrieveBody(st: Store, id: Id): (j: Json)
    requires id in st.notes
    requires ReferencesResolve(st)
    ensures j.JObj? && j.fields.Keys <= {"note", "category"}
    ensures "note" in j.fields && j.fields["note"] == NoteBlock(st.notes[id])
    ensures "category" in j.fields <==> st.notes[id].category.Some?
    ensures st.notes[id].category.Some? ==>
              var c := st.notes[id].category.value;
              ShowsCategory(j.fields["category"], st.categories[c], Some(c))
  {
    var block := CategoryBlock(st, st.notes[id].category, true);
    var fields := map["note" := NoteBlock(st.notes[id])] + block;
    assert "note" !in block;
    JObj(fields)
  }

  /** `retrieve_note`: title and text, and a category block with id, title
      and colour exactly when the note has a category; it changes nothing. */
  function RetrieveNote(st: Store, rawId: string): (r: Reply)
    requires ReferencesResolve(st)
    ensures FindNote(st, rawId).Ok? ==> r == Reply(200, RetrieveBody(st, FindNote(st, rawId).value))
    ensures FindNote(st, rawId) == Err(DoesNotExist) ==> r == NotFound(rawId)
    ensures FindNote(st, rawId) == Err(ValueError) ==> r == Raised(ValueError)
  {
    match FindNote(st, rawId)
    case Ok(id) => Reply(200, RetrieveBody(st, id))
    case Err(DoesNotExist) => NotFound(rawId)
    case Err(e) => Raised(e)
  }

  /** A retrieved note shows a category block exactly when it has a category. */
  lemma RetrieveCategoryBlockIff(st: Store, rawId: string)
    requires ReferencesResolve(st)
    requires FindNote(st, rawId).Ok?
    ensures HasCategoryBlock(RetrieveNote(st, rawId)) <==> st.notes[FindNote(st, rawId).value].category.Some?
  {
  }

  // ---------------------------------------------------------------------
  // update_note, create_new_note, create_category

  /** `j` is the answer after note `id` was saved with `title`: a `note`
      block with the id and title, and a `category` block with the title
      and colour of `category` exactly when there is one. */
  predicate AnswersSavedNote(j: Json, id: Id, title: string, category: Option<Category>) {
    && j.JObj?
    && j.fields.Keys == (if category.Some? then {"note", "category"} else {"note"})
    && j.fields["note"].JObj?
    && j.fields["note"].fields.Keys == {"id", "title"}
    && j.fields["note"].fields["id"] == JInt(id)
    && j.fields["note"].fields["title"] == JStr(title)
    && (category.Some? ==> ShowsCategory(j.fields["category"], category.value, None))
  }

  /** The category a note refers to, if any. */
  function CategoryOf(st: Store, category: Option<Id>): Option<Category>
    requires category.Some? ==> category.value in st.categories
  {
    if category.Some? then Some(st.categories[category.value]) else None
  }

  /** The `note` and `category` blocks answered after a note was saved. */
  function SavedNoteBody(st: Store, id: Id): (j: Json)
    requires id in st.notes
    requires st.notes[id].category.Some? ==> st.notes[id].category.value in st.categories
    ensures AnswersSavedNote(j, id, st.notes[id].title, CategoryOf(st, st.notes[id].category))
    ensures "category" in j.fields <==> st.notes[id].category.Some?
  {
    var block := CategoryBlock(st, st.notes[id].category, false);
    var note := map["note" := JObj(map["id" := JInt(id), "title" := JStr(st.notes[id].title)])];
    assert "note" !in block;
    JObj(note + block)
  }

  /** `update_note`: a missing note raises (the view does not catch it); an
      invalid form is a 400 that changes nothing; otherwise the note takes
      the form's category, title and text and the answer is a 200. */
  function UpdateNoteView(st: Store, rawId: string, data: PostData): (r: Outcome)
    ensures FindNote(st, rawId).Err? ==> r == Outcome(st, Raised(FindNote(st, rawId).error))
    ensures FindNote(st, rawId).Ok? && CleanNoteForm(st, data).Err? ==>
              r == Outcome(st, Invalid(CleanNoteForm(st, data).error))
    ensures FindNote(st, rawId).Ok? && CleanNoteForm(st, data).Ok? ==>
              var id := FindNote(st, rawId).value;
              var f := CleanNoteForm(st, data).value;
              && r.store == UpdateNote(st, id, f)
              && r.reply.Reply? && r.reply.status == 200
              && AnswersSavedNote(r.reply.body, id, f.title, CategoryOf(st, f.category))
              && (HasCategoryBlock(r.reply) <==> f.category.Some?)
  {
    match FindNote(st, rawId)
    case Err(e) => Outcome(st, Raised(e))
    case Ok(id) =>
      match CleanNoteForm(st, data)
      case Err(errors) => Outcome(st, Invalid(errors))
      case Ok(f) =>
        var st' := UpdateNote(st, id, f);
        Outcome(st', Reply(200, SavedNoteBody(st', id)))
  }

  /** `create_new_note`: an invalid form is a 400 that creates nothing; a
      valid one adds one note to the requester's worktable and answers 201
      with the note and, exactly when it has one, its category. */
  function CreateNewNote(st: Store, req: Request, data: PostData, now: nat): (r: Outcome)
    requires OneWorktablePerOwner(st)
    ensures CleanNoteForm(st, data).Err? ==> r == Outcome(st, Invalid(CleanNoteForm(st, data).error))
    ensures CleanNoteForm(st, data).Ok? && SaveNote(st, req, CleanNoteForm(st, data).value, now).Err? ==>
              r == Outcome(st, Raised(SaveNote(st, req, CleanNoteForm(st, data).value, now).error))
    ensures CleanNoteForm(st, data).Ok? && SaveNote(st, req, CleanNoteForm(st, data).value, now).Ok? ==>
              var saved := SaveNote(st, req, CleanNoteForm(st, data).value, now).value;
              r == Outcome(saved.store, Reply(201, SavedNoteBody(saved.store, saved.id)))
  {
    CreateFromForm(st, req, CleanNoteForm(st, data), now)
  }

  /** The part of `create_new_note` after the form has been cleaned. */
  function CreateFromForm(st: Store, req: Request, form: Result<NoteFields, Errors>, now: nat): (r: Outcome)
    requires OneWorktablePerOwner(st)
    requires form.Ok? && form.value.category.Some? ==> form.value.category.value in st.categories
    ensures form.Err? ==> r == Outcome(st, Invalid(form.error))
    ensures form.Ok? && SaveNote(st, req, form.value, now).Err? ==>
              r == Outcome(st, Raised(SaveNote(st, req, form.value, now).error))
    ensures form.Ok? && SaveNote(st, req, form.value, now).Ok? ==>
              var saved := SaveNote(st, req, form.value, now).value;
              r == Outcome(saved.store, Reply(201, SavedNoteBody(saved.store, saved.id)))
  {
    match form
    case Err(errors) => Outcome(st, Invalid(errors))
    case Ok(f) =>
      match SaveNote(st, req, f, now)
      case Err(e) => Outcome(st, Raised(e))
      case Ok(saved) => Outcome(saved.store, Reply(201, SavedNoteBody(saved.store, saved.id)))
  }

  /** A create that does not answer 201 leaves the store as it was. */
  lemma CreateFailureKeepsStore(st: Store, req: Request, data: PostData, now: nat)
    requires OneWorktablePerOwner(st)
    ensures var r := CreateNewNote(st, req, data, now);
            r.reply.Raised? || r.reply.status != 201 ==> r.store == st
  {
  }

  /** A created note is filed under the next id, and the answer shows that
      id, the cleaned title and, exactly when the form chose a category,
      that category's title and colour. */
  lemma CreateNewNoteShape(st: Store, req: Request, data: PostData, now: nat)
    requires OneWorktablePerOwner(st)
    ensures var r := CreateNewNote(st, req, data, now);
      r.reply.Reply? && r.reply.status == 201 ==>
        && CleanNoteForm(st, data).Ok?
        && r.store.notes.Keys == st.notes.Keys + {st.nextNote}
        && (HasCategoryBlock(r.reply) <==> CleanNoteForm(st, data).value.category.Some?)
        && var f := CleanNoteForm(st, data).value;
           AnswersSavedNote(r.reply.body, st.nextNote, f.title, CategoryOf(st, f.category))
  {
    var form := CleanNoteForm(st, data);
    if form.Ok? {
      SavedShape(st, req, form.value, now);
    }
  }

  lemma SavedShape(st: Store, req: Request, f: NoteFields, now: nat)
    requires OneWorktablePerOwner(st)
    requires f.category.Some? ==> f.category.value in st.categories
    ensures var saved := SaveNote(st, req, f, now);
      saved.Ok? ==>
        && saved.value.store.notes.Keys == st.notes.Keys + {st.nextNote}
        && (HasCategoryBlock(Reply(201, SavedNoteBody(saved.value.store, saved.value.id))) <==> f.category.Some?)
        && AnswersSavedNote(SavedNoteBody(saved.value.store, saved.value.id), st.nextNote, f.title, CategoryOf(st, f.category))
  {
  }

  /** `create_category`: answers the new category's id and title with 201. */
  function CreateCategory(st: Store, req: Request, data: PostData): (r: Outcome)
    requires OneWorktablePerOwner(st)
    ensures CleanCategoryForm(data).Err? ==> r == Outcome(st, Invalid(CleanCategoryForm(data).error))
    ensures CleanCategoryForm(data).Ok? && SaveCategory(st, req, CleanCategoryForm(data).value).Ok? ==>
              r.reply.Reply? && r.reply.status == 201 &&
              r.store == SaveCategory(st, req, CleanCategoryForm(data).value).value.store
    ensures CleanCategoryForm(data).Ok? && SaveCategory(st, req, CleanCategoryForm(data).value).Err? ==>
              r == Outcome(st, Raised(SaveCategory(st, req, CleanCategoryForm(data).value).error))
    ensures r.reply.Reply? && r.reply.status == 201 ==>
              && CleanCategoryForm(data).Ok?
              && SaveCategory(st, req, CleanCategoryForm(data).value).Ok?
              && var saved := SaveCategory(st, req, CleanCategoryForm(data).value).value;
                 r.store == saved.store &&
                 r.reply.body == JObj(map["category" := JObj(map["id" := JInt(saved.id),
                                                                  "title" := JStr(CleanCategoryForm(data).value.title)])])
    ensures r.reply.Raised? ==> r.store == st
  {
    match CleanCategoryForm(data)
    case Err(errors) => Outcome(st, Invalid(errors))
    case Ok(f) =>
      match SaveCategory(st, req, f)
      case Err(e) => Outcome(st, Raised(e))
      case Ok(saved) =>
        Outcome(saved.store, Reply(201, JObj(map["category" := JObj(map["id" := JInt(saved.id), "title" := JStr(f.title)])])))
  }

  // ---------------------------------------------------------------------
  // HomeView.get_worktable

  /** The worktable found for a request, the store after it, and the
      request as it stands afterwards (with the session key it was given). */
  datatype Resolution = Resolution(store: Store, request: Request, worktable: Id)

  /** `HomeView.get_worktable`: the user's worktable; for an anonymous
      visitor, a session key is made first when there is none (`freshKey`)
      and the worktable of that key is fetched or created. */
  function GetWorktable(st: Store, req: Request, freshKey: SessionKey): (r: Result<Resolution, Exception>)
    requires OneWorktablePerOwner(st) && IdsIssued(st)
    ensures req.Authenticated? ==>
              (r.Ok? <==> exists w :: OwnedByUser(st, w, req.user)) &&
              (r.Ok? ==> r.value.store == st && OwnedByUser(st, r.value.worktable, req.user)) &&
              (r.Err? ==> r.error == RelatedObjectDoesNotExist)
    ensures req.Anonymous? ==>
              && r.Ok?
              && var key := req.sessionKey.GetOr(freshKey);
                 && r.value.request == Anonymous(Some(key))
                 && OwnedBySession(r.value.store, r.value.worktable, key)
                 && (r.value.store == st || forall w :: !OwnedBySession(st, w, key))
                 && r.value.store.worktables.Keys <= st.worktables.Keys + {r.value.worktable}
                 && (forall w :: w in st.worktables ==>
                       w in r.value.store.worktables && r.value.store.worktables[w] == st.worktables[w])
                 && (r.value.store != st ==>
                       && r.value.worktable !in st.worktables
                       && r.value.store.worktables[r.value.worktable] == Worktable(None, Some(key)))
                 && r.value.store == st.(worktables := r.value.store.worktables, nextWorktable := r.value.store.nextWorktable)
  {
    match req
    case Authenticated(u) =>
      (match WorktableOfUser(st, u)
       case Some(w) => Ok(Resolution(st, req, w))
       case None => Err(RelatedObjectDoesNotExist))
    case Anonymous(k) =>
      var key := k.GetOr(freshKey);
      match WorktableOfSession(st, key)
      case Some(w) => Ok(Resolution(st, Anonymous(Some(key)), w))
      case None =>
        var w := st.nextWorktable;
        Ok(Resolution(st.(worktables := st.worktables[w := Worktable(None, Some(key))], nextWorktable := w + 1),
                      Anonymous(Some(key)), w))
  }

  // ---------------------------------------------------------------------
  // Properties across calls

  /** Archiving twice leaves the store as archiving once. */
  lemma ArchiveIdempotent(st: Store, rawId: string)
    ensures ArchiveNote(ArchiveNote(st, rawId).store, rawId).store == ArchiveNote(st, rawId).store
  {
  }

  /** Once a note is deleted, retrieving it is a 404. */
  lemma DeleteThenRetrieveNotFound(st: Store, rawId: string)
    requires ReferencesResolve(st)
    requires FindNote(st, rawId).Ok?
    ensures ReferencesResolve(DeleteNote(st, rawId).store)
    ensures RetrieveNote(DeleteNote(st, rawId).store, rawId) == NotFound(rawId)
  {
  }

  /** After archiving, retrieving the note still works and shows the same
      title and text. */
  lemma ArchiveKeepsRetrieve(st: Store, rawId: string)
    requires ReferencesResolve(st)
    requires FindNote(st, rawId).Ok?
    ensures ReferencesResolve(ArchiveNote(st, rawId).store)
    ensures RetrieveNote(ArchiveNote(st, rawId).store, rawId) == RetrieveNote(st, rawId)
  {
    var id := FindNote(st, rawId).value;
    var st' := ArchiveNote(st, rawId).store;
    assert st'.notes[id].category == st.notes[id].category;
  }

  /** Resolving the worktable again, with the request as it stands after
      the first resolution, finds the same worktable and creates nothing. */
  lemma GetWorktableIdempotent(st: Store, req: Request, freshKey: SessionKey, otherKey: SessionKey)
    requires OneWorktablePerOwner(st) && IdsIssued(st)
    requires GetWorktable(st, req, freshKey).Ok?
    ensures var first := GetWorktable(st, req, freshKey).value;
            OneWorktablePerOwner(first.store) && IdsIssued(first.store) &&
            GetWorktable(first.store, first.request, otherKey) == Ok(first)
  {
    var first := GetWorktable(st, req, freshKey).value;
    assert OneWorktablePerOwner(first.store) by {
      if req.Anonymous? && first.store != st {
        var key := req.sessionKey.GetOr(freshKey);
        forall a, b | a in first.store.worktables && b in first.store.worktables && a != b
          ensures first.store.worktables[a].session.Some? ==> first.store.worktables[a].session != first.store.worktables[b].session
        {
          if a == first.worktable || b == first.worktable {
          }
        }
      }
    }
  }

  /** In a valid store a successful create adds exactly one note. */
  lemma CreateAddsOneNote(st: Store, req: Request, data: PostData, now: nat)
    requires Valid(st)
    ensures var r := CreateNewNote(st, req, data, now);
            r.reply.Reply? && r.reply.status == 201 ==> |r.store.notes| == |st.notes| + 1
  {
    var r := CreateNewNote(st, req, data, now);
    if r.store != st {
      assert st.nextNote !in st.notes;
    }
  }

  lemma DeleteNoteValid(st: Store, rawId: string)
    requires Valid(st)
    ensures Valid(DeleteNote(st, rawId).store)
  {
  }

  lemma ArchiveNoteValid(st: Store, rawId: string)
    requires Valid(st)
    ensures Valid(ArchiveNote(st, rawId).store)
  {
    if FindNote(st, rawId).Ok? {
      var id := FindNote(st, rawId).value;
      ReplaceNoteValid(st, id, st.notes[id].(isArchived := true));
    }
  }

  lemma UpdateNoteViewValid(st: Store, rawId: string, data: PostData)
    requires Valid(st)
    ensures Valid(UpdateNoteView(st, rawId, data).store)
  {
    if FindNote(st, rawId).Ok? && CleanNoteForm(st, data).Ok? {
      UpdateNoteValid(st, FindNote(st, rawId).value, data);
    }
  }

  lemma CreateNewNoteValid(st: Store, req: Request, data: PostData, now: nat)
    requires Valid(st)
    ensures Valid(CreateNewNote(st, req, data, now).store)
  {
    if CleanNoteForm(st, data).Ok? {
      SaveNoteValid(st, req, data, now);
    }
  }

  lemma CreateCategoryValid(st: Store, req: Request, data: PostData)
    requires Valid(st)
    ensures Valid(CreateCategory(st, req, data).store)
  {
    if CleanCategoryForm(data).Ok? {
      SaveCategoryValid(st, req, data);
    }
  }

  lemma GetWorktableValid(st: Store, req: Request, freshKey: SessionKey)
    requires Valid(st)
    requires GetWorktable(st, req, freshKey).Ok?
    ensures Valid(GetWorktable(st, req, freshKey).value.store)
  {
    var r := GetWorktable(st, req, freshKey).value;
    if r.store != st {
      GetWorktableIdempotent(st, req, freshKey, freshKey);
      assert OwnersValid(r.store);
      assert ReferencesResolve(r.store);
      assert IdsIssued(r.store);
    }
  }
}

/**
 * The notes forms: which fields the note and category forms read, how
 * they are cleaned, how a create form attaches the new row to the
 * requester's worktable, and how an update form changes a row.
 */
module NoteForms {
  import opened Wrappers
  import opened Chars
  import opened PyInt
  import opened Models
  import opened FormFields

  /** Who is asking: a logged-in user, or an anonymous visitor whose
      session may not have a key yet. */
  datatype Request = Authenticated(user: Id) | Anonymous(sessionKey: Option<SessionKey>)

  /** An exception the code raises and does not catch: a failed lookup,
      a missing reverse one-to-one link, or a value that is no integer. */
  datatype Exception = DoesNotExist | RelatedObjectDoesNotExist | ValueError

  datatype NoteFields = NoteFields(category: Option<Id>, title: string, text: string)
  datatype CategoryFields = CategoryFields(title: string, color: string)

  /** A row inserted by a create form, and the store after it. */
  datatype Saved = Saved(store: Store, id: Id)

  const NoteFieldNames: set<string> := {"category", "title", "text"}
  const CategoryFieldNames: set<string> := {"title", "color"}

  /** The `title` field of both forms: required, stripped, at most 50 characters. */
  function CleanTitle(raw: Option<string>): (r: Cleaned<string>)
    ensures r.Ok? <==> TitleAccepted(raw)
    ensures r.Ok? ==> r.value == Strip(raw.GetOr(""))
    ensures raw.None? ==> r == Err([RequiredMessage])
    ensures r.Err? ==> (NullCharactersMessage in r.error <==> '\0' in Strip(raw.GetOr("")))
  {
    CleanText(raw, true, true, Some(TitleMaxLength))
  }

  /** The note's `category` field: an optional choice among the store's categories. */
  function CleanCategory(st: Store, raw: Option<string>): (r: Cleaned<Option<Id>>)
    ensures r.Ok? <==> CategoryAccepted(st, raw)
    ensures r.Ok? && r.value.Some? ==> Chooses(raw, r.value.value) && r.value.value in st.categories
    ensures r.Ok? && r.value.None? ==> raw.None? || raw == Some("")
  {
    CleanChoice(raw, st.categories.Keys)
  }

  /** The note's `text` field: optional and stripped, so it fails only on a
      NUL character. */
  function CleanNoteText(raw: Option<string>): (r: Cleaned<string>)
    ensures r.Ok? <==> TextAccepted(raw)
    ensures r.Ok? ==> r.value == Strip(raw.GetOr(""))
    ensures r.Err? ==> r.error == [NullCharactersMessage]
  {
    CleanText(raw, false, true, None)
  }

  /** The category's `color` field: required and stripped. */
  function CleanColor(raw: Option<string>): (r: Cleaned<string>)
    ensures r.Ok? <==> ColorAccepted(raw)
    ensures r.Ok? ==> r.value == Strip(raw.GetOr(""))
  {
    CleanText(raw, true, true, None)
  }

  /** The note form's `errors`: one entry per failed field, holding its messages. */
  function NoteErrors(category: Cleaned<Option<Id>>, title: Cleaned<string>, text: Cleaned<string>): (e: Errors)
    ensures e.Keys <= NoteFieldNames
    ensures "category" in e <==> category.Err?
    ensures "title" in e <==> title.Err?
    ensures "text" in e <==> text.Err?
    ensures title.Err? ==> e["title"] == title.error
    ensures text.Err? ==> e["text"] == text.error
  {
    FieldErrors("category", category) + FieldErrors("title", title) + FieldErrors("text", text)
  }

  /** The category form's `errors`. */
  function CategoryErrors(title: Cleaned<string>, color: Cleaned<string>): (e: Errors)
    ensures e.Keys <= CategoryFieldNames
    ensures "title" in e <==> title.Err?
    ensures "color" in e <==> color.Err?
    ensures title.Err? ==> e["title"] == title.error
  {
    FieldErrors("title", title) + FieldErrors("color", color)
  }

  /** A title passes when, stripped, it is non-empty, fits the column and
      holds no NUL character. */
  predicate TitleAccepted(raw: Option<string>) {
    var t := Strip(raw.GetOr(""));
    0 < |t| <= TitleMaxLength && '\0' !in t
  }

  /** A text passes when it holds no NUL character. */
  predicate TextAccepted(raw: Option<string>) {
    '\0' !in Strip(raw.GetOr(""))
  }

  /** A colour passes when, stripped, it is non-empty and holds no NUL
      character. */
  predicate ColorAccepted(raw: Option<string>) {
    var c := Strip(raw.GetOr(""));
    c != "" && '\0' !in c
  }

  /** A category passes when it is left empty or names an existing category. */
  predicate CategoryAccepted(st: Store, raw: Option<string>) {
    raw.None? || raw == Some("") ||
    (ParseInt(raw.value).Some? && ParseInt(raw.value).value in st.categories)
  }

  /** The submitted category value reads as the id `c`. */
  predicate Chooses(raw: Option<string>, c: Id) {
    raw.Some? && ParseInt(raw.value) == Some(c)
  }

  /** What cleaning the note form promises about the raw values of
      `category`, `title` and `text`: it passes exactly when all three do; then the title and text are the stripped values and the
      category is the id the value reads as, an existing one; a failure
      names at least one of the form's fields and no other. */
  predicate NoteFormCleaned(st: Store, category: Option<string>, title: Option<string>, text: Option<string>,
                            r: Result<NoteFields, Errors>) {
    && (r.Ok? <==> TitleAccepted(title) && CategoryAccepted(st, category) && TextAccepted(text))
    && (r.Ok? ==> r.value.title == Strip(title.GetOr("")) && r.value.text == Strip(text.GetOr("")))
    && (r.Ok? && r.value.category.Some? ==>
          Chooses(category, r.value.category.value) && r.value.category.value in st.categories)
    && (r.Err? ==> r.error != map[] && r.error.Keys <= NoteFieldNames)
  }

  /** The note create and update forms, given the raw values of their
      fields `category`, `title` and `text`. */
  function CleanNoteFields(st: Store, category: Option<string>, title: Option<string>, text: Option<string>): (r: Result<NoteFields, Errors>)
    ensures NoteFormCleaned(st, category, title, text, r)
    ensures r.Ok? ==> 0 < |r.value.title| <= TitleMaxLength
    ensures r.Ok? && r.value.category.None? ==> category.None? || category == Some("")
    ensures r.Err? ==> ("title" in r.error <==> !TitleAccepted(title))
    ensures r.Err? ==> ("category" in r.error <==> !CategoryAccepted(st, category))
    ensures r.Err? ==> ("text" in r.error <==> !TextAccepted(text))
  {
    var category := CleanCategory(st, category);
    var title := CleanTitle(title);
    var text := CleanNoteText(text);
    if category.Ok? && title.Ok? && text.Ok? then
      Ok(NoteFields(category.value, title.value, text.value))
    else
      Err(NoteErrors(category, title, text))
  }

  function CleanNoteForm(st: Store, data: PostData): (r: Result<NoteFields, Errors>)
    ensures NoteFormCleaned(st, Get(data, "category"), Get(data, "title"), Get(data, "text"), r)
  {
    CleanNoteFields(st, Get(data, "category"), Get(data, "title"), Get(data, "text"))
  }

  /** What cleaning the category form promises about the raw values of
      `title` and `color`: it passes exactly when both do, and then both are the stripped
      values; a failure names at least one of the form's fields and no other. */
  predicate CategoryFormCleaned(title: Option<string>, color: Option<string>, r: Result<CategoryFields, Errors>) {
    && (r.Ok? <==> TitleAccepted(title) && ColorAccepted(color))
    && (r.Ok? ==> r.value.title == Strip(title.GetOr("")) && r.value.color == Strip(color.GetOr("")))
    && (r.Err? ==> r.error != map[] && r.error.Keys <= CategoryFieldNames)
  }

  /** The category create and update forms, given the raw values of their
      fields `title` and `color`. */
  function CleanCategoryFields(title: Option<string>, color: Option<string>): (r: Result<CategoryFields, Errors>)
    ensures CategoryFormCleaned(title, color, r)
    ensures r.Ok? ==> 0 < |r.value.title| <= TitleMaxLength && r.value.color != ""
    ensures r.Err? ==> ("title" in r.error <==> !TitleAccepted(title))
    ensures r.Err? ==> ("color" in r.error <==> !ColorAccepted(color))
  {
    var title := CleanTitle(title);
    var color := CleanColor(color);
    if title.Ok? && color.Ok? then
      Ok(CategoryFields(title.value, color.value))
    else
      Err(CategoryErrors(title, color))
  }

  function CleanCategoryForm(data: PostData): (r: Result<CategoryFields, Errors>)
    ensures CategoryFormCleaned(Get(data, "title"), Get(data, "color"), r)
  {
    CleanCategoryFields(Get(data, "title"), Get(data, "color"))
  }

  /** A note form posted without a title is rejected with a required-field
      error on `title`, whatever else it holds. */
  lemma MissingTitleRejectsNote(st: Store, data: PostData)
    requires "title" !in data
    ensures CleanNoteForm(st, data).Err?
    ensures "title" in CleanNoteForm(st, data).error
    ensures CleanNoteForm(st, data).error["title"] == [RequiredMessage]
  {
    assert CleanTitle(Get(data, "title")) == Err([RequiredMessage]);
  }

  /** Likewise for the category forms. */
  lemma MissingTitleRejectsCategory(data: PostData)
    requires "title" !in data
    ensures CleanCategoryForm(data).Err?
    ensures "title" in CleanCategoryForm(data).error
    ensures CleanCategoryForm(data).error["title"] == [RequiredMessage]
  {
    assert CleanTitle(Get(data, "title")) == Err([RequiredMessage]);
  }

  /** A note whose text holds a NUL character is rejected with the NUL
      message on `text`, whatever else the form holds. */
  lemma NullTextRejectsNote(st: Store, data: PostData)
    requires '\0' in Strip(Get(data, "text").GetOr(""))
    ensures CleanNoteForm(st, data).Err?
    ensures "text" in CleanNoteForm(st, data).error
    ensures CleanNoteForm(st, data).error["text"] == [NullCharactersMessage]
  {
    assert CleanNoteText(Get(data, "text")) == Err([NullCharactersMessage]);
  }

  predicate AgreeOn(a: PostData, b: PostData, fields: set<string>) {
    forall f :: f in fields ==> Get(a, f) == Get(b, f)
  }

  /** The note forms read nothing but `category`, `title` and `text`: extra
      keys such as `worktable` or `is_archived` in the data change nothing. */
  lemma NoteFormReadsOnlyItsFields(st: Store, a: PostData, b: PostData)
    requires AgreeOn(a, b, NoteFieldNames)
    ensures CleanNoteForm(st, a) == CleanNoteForm(st, b)
  {
    assert Get(a, "category") == Get(b, "category");
    assert Get(a, "title") == Get(b, "title");
    assert Get(a, "text") == Get(b, "text");
  }

  /** The category forms read nothing but `title` and `color`. */
  lemma CategoryFormReadsOnlyItsFields(a: PostData, b: PostData)
    requires AgreeOn(a, b, CategoryFieldNames)
    ensures CleanCategoryForm(a) == CleanCategoryForm(b)
  {
    assert Get(a, "title") == Get(b, "title");
    assert Get(a, "color") == Get(b, "color");
  }

  /** `BaseCreateForm.save` finding the worktable: the user's own one, or
      the one whose session key is the request's. It never creates one. */
  function RequestWorktable(st: Store, req: Request): (r: Result<Id, Exception>)
    requires OneWorktablePerOwner(st)
    ensures r.Ok? && req.Authenticated? ==> OwnedByUser(st, r.value, req.user)
    ensures r.Ok? && req.Anonymous? ==> req.sessionKey.Some? && OwnedBySession(st, r.value, req.sessionKey.value)
    ensures r.Err? && req.Authenticated? ==> r.error == RelatedObjectDoesNotExist && forall w :: !OwnedByUser(st, w, req.user)
    ensures r.Err? && req.Anonymous? && req.sessionKey.Some? ==>
              r.error == DoesNotExist && forall w :: !OwnedBySession(st, w, req.sessionKey.value)
  {
    match req
    case Authenticated(u) =>
      (match WorktableOfUser(st, u)
       case Some(w) => Ok(w)
       case None => Err(RelatedObjectDoesNotExist))
    case Anonymous(key) =>
      if key.None? then Err(DoesNotExist)
      else match WorktableOfSession(st, key.value)
        case Some(w) => Ok(w)
        case None => Err(DoesNotExist)
  }

  /** Saving a valid note create form: a new note in the requester's
      worktable, under the next note id; nothing else changes. */
  function SaveNote(st: Store, req: Request, f: NoteFields, now: nat): (r: Result<Saved, Exception>)
    requires OneWorktablePerOwner(st)
    ensures r.Err? ==> RequestWorktable(st, req).Err?
    ensures r.Ok? ==>
      && RequestWorktable(st, req).Ok?
      && r.value.id == st.nextNote
      && r.value.store.notes == st.notes[st.nextNote := NewNote(RequestWorktable(st, req).value, f.category, f.title, f.text, now)]
      && r.value.store == st.(notes := r.value.store.notes, nextNote := st.nextNote + 1)
  {
    match RequestWorktable(st, req)
    case Err(e) => Err(e)
    case Ok(w) =>
      var id := st.nextNote;
      Ok(Saved(st.(notes := st.notes[id := NewNote(w, f.category, f.title, f.text, now)], nextNote := id + 1), id))
  }

  /** Saving a valid category create form: a new category in the
      requester's worktable, under the next category id. */
  function SaveCategory(st: Store, req: Request, f: CategoryFields): (r: Result<Saved, Exception>)
    requires OneWorktablePerOwner(st)
    ensures r.Err? ==> RequestWorktable(st, req).Err?
    ensures r.Ok? ==>
      && RequestWorktable(st, req).Ok?
      && r.value.id == st.nextCategory
      && r.value.store.categories == st.categories[st.nextCategory := Category(RequestWorktable(st, req).value, f.title, f.color)]
      && r.value.store == st.(categories := r.value.store.categories, nextCategory := st.nextCategory + 1)
  {
    match RequestWorktable(st, req)
    case Err(e) => Err(e)
    case Ok(w) =>
      var id := st.nextCategory;
      Ok(Saved(st.(categories := st.categories[id := Category(w, f.title, f.color)], nextCategory := id + 1), id))
  }

  /** The note update form: the cleaned fields replace category, title and
      text; the worktable, archive flag, creation time and counts stay. */
  function UpdateNote(st: Store, id: Id, f: NoteFields): (r: Store)
    requires id in st.notes
    ensures r.notes.Keys == st.notes.Keys
    ensures r.notes[id].worktable == st.notes[id].worktable
    ensures r.notes[id].isArchived == st.notes[id].isArchived && r.notes[id].created == st.notes[id].created
    ensures r.notes[id].category == f.category && r.notes[id].title == f.title && r.notes[id].text == Some(f.text)
    ensures forall n :: n in st.notes && n != id ==> r.notes[n] == st.notes[n]
    ensures r == st.(notes := r.notes)
  {
    st.(notes := st.notes[id := st.notes[id].(category := f.category, title := f.title, text := Some(f.text))])
  }

  /** The category update form: title and colour change, the worktable stays. */
  function UpdateCategory(st: Store, id: Id, f: CategoryFields): (r: Store)
    requires id in st.categories
    ensures r.categories.Keys == st.categories.Keys
    ensures r.categories[id] == Category(st.categories[id].worktable, f.title, f.color)
    ensures forall c :: c in st.categories && c != id ==> r.categories[c] == st.categories[c]
    ensures r == st.(categories := r.categories)
  {
    st.(categories := st.categories[id := st.categories[id].(title := f.title, color := f.color)])
  }

  /** Saving a create form attaches the new row to the authenticated user's
      own worktable. */
  lemma CreateAttachesToUserWorktable(st: Store, u: Id, f: NoteFields, now: nat, w: Id)
    requires OneWorktablePerOwner(st)
    requires OwnedByUser(st, w, u)
    ensures SaveNote(st, Authenticated(u), f, now).Ok?
    ensures var s := SaveNote(st, Authenticated(u), f, now).value;
            s.store.notes[s.id].worktable == w
  {
  }

  /** For an anonymous request the new row goes to the worktable of the
      request's session key; without one the save fails and creates nothing. */
  lemma CreateAttachesToSessionWorktable(st: Store, key: SessionKey, f: CategoryFields)
    requires OneWorktablePerOwner(st)
    ensures var r := SaveCategory(st, Anonymous(Some(key)), f);
      && (r.Ok? <==> exists w :: OwnedBySession(st, w, key))
      && (r.Ok? ==> OwnedBySession(st, r.value.store.categories[r.value.id].worktable, key))
  {
    var r := SaveCategory(st, Anonymous(Some(key)), f);
    if exists w :: OwnedBySession(st, w, key) {
      var w :| OwnedBySession(st, w, key);
      assert WorktableOfSession(st, key).Some?;
    }
  }

  lemma SaveNoteValid(st: Store, req: Request, data: PostData, now: nat)
    requires Valid(st)
    requires CleanNoteForm(st, data).Ok?
    ensures var r := SaveNote(st, req, CleanNoteForm(st, data).value, now);
            r.Ok? ==> Valid(r.value.store)
  {
    var f := CleanNoteForm(st, data).value;
    var r := SaveNote(st, req, f, now);
    if r.Ok? {
      var w := RequestWorktable(st, req).value;
      InsertNoteValid(st, NewNote(w, f.category, f.title, f.text, now));
    }
  }

  lemma SaveCategoryValid(st: Store, req: Request, data: PostData)
    requires Valid(st)
    requires CleanCategoryForm(data).Ok?
    ensures var r := SaveCategory(st, req, CleanCategoryForm(data).value);
            r.Ok? ==> Valid(r.value.store)
  {
    var f := CleanCategoryForm(data).value;
    var r := SaveCategory(st, req, f);
    if r.Ok? {
      var w := RequestWorktable(st, req).value;
      InsertCategoryValid(st, Category(w, f.title, f.color));
    }
  }

  lemma UpdateNoteValid(st: Store, id: Id, data: PostData)
    requires Valid(st) && id in st.notes
    requires CleanNoteForm(st, data).Ok?
    ensures Valid(UpdateNote(st, id, CleanNoteForm(st, data).value))
  {
    var f := CleanNoteForm(st, data).value;
    ReplaceNoteValid(st, id, st.notes[id].(category := f.category, title := f.title, text := Some(f.text)));
  }

  lemma UpdateCategoryValid(st: Store, id: Id, data: PostData)
    requires Valid(st) && id in st.categories
    requires CleanCategoryForm(data).Ok?
    ensures Valid(UpdateCategory(st, id, CleanCategoryForm(data).value))
  {
    var f := CleanCategoryForm(data).value;
    ReplaceCategoryValid(st, id, st.categories[id].(title := f.title, color := f.color));
  }
}

/**
 * The notes data model: users, worktables, categories and notes kept in
 * an in-memory store of tables keyed by id, with the validation rule of a
 * worktable, its display string, and the cascade and set-null effects of
 * deleting rows.
 */
module Models {
  import opened Wrappers

  type Id = int
  type SessionKey = string

  /** `max_length` of the note and category titles. */
  const TitleMaxLength: nat := 50

  const InvalidOwnerCode: string := "invalid_user_and_session"
  const InvalidOwnerMessage: string := "Worktable must have only user or only session for creation."

  /** A stored password: the hash of the raw password it was set from.
      The hashing scheme itself is not modelled. */
  datatype Credential = PasswordHash(raw: string)

  datatype User = User(email: string, password: Credential)

  /** Belongs to a registered user or to an anonymous session. */
  datatype Worktable = Worktable(user: Option<Id>, session: Option<SessionKey>)

  datatype Category = Category(worktable: Id, title: string, color: string)

  /** `words` and `uniqueWords` are stored numbers; nothing in the model
      derives them from `text`. `created` is an opaque timestamp. */
  datatype Note = Note(
    worktable: Id,
    category: Option<Id>,
    title: string,
    text: Option<string>,
    isArchived: bool,
    created: nat,
    words: nat,
    uniqueWords: nat)

  datatype ValidationError = ValidationError(message: string, code: string)

  /** The tables, and for each the id the next inserted row receives. */
  datatype Store = Store(
    users: map<Id, User>,
    worktables: map<Id, Worktable>,
    categories: map<Id, Category>,
    notes: map<Id, Note>,
    nextUser: Id,
    nextWorktable: Id,
    nextCategory: Id,
    nextNote: Id)

  const EmptyStore: Store := Store(map[], map[], map[], map[], 1, 1, 1, 1)

  /** A note as the create form builds it: not archived, no word counts yet. */
  function NewNote(worktable: Id, category: Option<Id>, title: string, text: string, now: nat): (n: Note)
    ensures !n.isArchived
    ensures n.worktable == worktable && n.category == category
    ensures n.title == title && n.text == Some(text) && n.created == now
  {
    Note(worktable, category, title, Some(text), false, now, 0, 0)
  }

  // ---------------------------------------------------------------------
  // Worktable

  /** `Worktable.clean`: fails when both or neither of user and session are set. */
  function CleanWorktable(w: Worktable): (r: Option<ValidationError>)
    ensures r.None? <==> (w.user.Some? <==> w.session.None?)
    ensures r.Some? ==> r.value.code == InvalidOwnerCode && r.value.message == InvalidOwnerMessage
  {
    if (w.user.Some? && w.session.Some?) || (w.user.None? && w.session.None?) then
      Some(ValidationError(InvalidOwnerMessage, InvalidOwnerCode))
    else
      None
  }

  /** `Worktable.__str__`: the owner's email, else the session key; with
      neither set Python returns `None` and `str()` raises, here `None`. */
  function WorktableStr(w: Worktable, users: map<Id, User>): (r: Option<string>)
    requires w.user.Some? ==> w.user.value in users
    ensures w.user.Some? ==> r == Some(users[w.user.value].email)
    ensures w.user.None? ==> r == w.session
  {
    match w.user
    case Some(u) => Some(users[u].email)
    case None => w.session
  }

  /** A worktable that passes validation always has a display string, and
      it names the one owner it has. */
  lemma ValidWorktableHasStr(w: Worktable, users: map<Id, User>)
    requires CleanWorktable(w).None?
    requires w.user.Some? ==> w.user.value in users
    ensures WorktableStr(w, users).Some?
    ensures w.session.Some? ==> WorktableStr(w, users) == w.session
  {
  }

  // ---------------------------------------------------------------------
  // Store invariant

  predicate OwnersValid(st: Store) {
    forall w :: w in st.worktables ==> CleanWorktable(st.worktables[w]).None?
  }

  /** The one-to-one links: at most one worktable per user and per session. */
  predicate OneWorktablePerOwner(st: Store) {
    forall a, b :: a in st.worktables && b in st.worktables && a != b ==>
      (st.worktables[a].user.Some? ==> st.worktables[a].user != st.worktables[b].user) &&
      (st.worktables[a].session.Some? ==> st.worktables[a].session != st.worktables[b].session)
  }

  /** Every foreign key points at an existing row. */
  predicate ReferencesResolve(st: Store) {
    && (forall w :: w in st.worktables && st.worktables[w].user.Some? ==> st.worktables[w].user.value in st.users)
    && (forall c :: c in st.categories ==> st.categories[c].worktable in st.worktables)
    && (forall n :: n in st.notes ==> st.notes[n].worktable in st.worktables)
    && (forall n :: n in st.notes && st.notes[n].category.Some? ==> st.notes[n].category.value in st.categories)
  }

  predicate TitlesFit(st: Store) {
    && (forall c :: c in st.categories ==> |st.categories[c].title| <= TitleMaxLength)
    && (forall n :: n in st.notes ==> |st.notes[n].title| <= TitleMaxLength)
  }

  /** Ids handed out so far are below the next id of their table. */
  predicate IdsIssued(st: Store) {
    && 1 <= st.nextUser && 1 <= st.nextWorktable && 1 <= st.nextCategory && 1 <= st.nextNote
    && (forall u :: u in st.users ==> 1 <= u < st.nextUser)
    && (forall w :: w in st.worktables ==> 1 <= w < st.nextWorktable)
    && (forall c :: c in st.categories ==> 1 <= c < st.nextCategory)
    && (forall n :: n in st.notes ==> 1 <= n < st.nextNote)
  }

  predicate Valid(st: Store) {
    && OwnersValid(st)
    && OneWorktablePerOwner(st)
    && ReferencesResolve(st)
    && TitlesFit(st)
    && IdsIssued(st)
  }

  lemma EmptyStoreValid()
    ensures Valid(EmptyStore)
  {
  }

  /** Inserting a note whose references resolve keeps the store valid. */
  lemma InsertNoteValid(st: Store, n: Note)
    requires Valid(st)
    requires n.worktable in st.worktables && |n.title| <= TitleMaxLength
    requires n.category.Some? ==> n.category.value in st.categories
    ensures Valid(st.(notes := st.notes[st.nextNote := n], nextNote := st.nextNote + 1))
  {
    var r := st.(notes := st.notes[st.nextNote := n], nextNote := st.nextNote + 1);
    assert ReferencesResolve(r);
    assert TitlesFit(r);
    assert IdsIssued(r);
  }

  /** Inserting a category of an existing worktable keeps the store valid. */
  lemma InsertCategoryValid(st: Store, c: Category)
    requires Valid(st)
    requires c.worktable in st.worktables && |c.title| <= TitleMaxLength
    ensures Valid(st.(categories := st.categories[st.nextCategory := c], nextCategory := st.nextCategory + 1))
  {
    var r := st.(categories := st.categories[st.nextCategory := c], nextCategory := st.nextCategory + 1);
    assert ReferencesResolve(r);
    assert TitlesFit(r);
    assert IdsIssued(r);
  }

  /** Inserting a user keeps the store valid: no worktable points at it yet. */
  lemma InsertUserValid(st: Store, u: User)
    requires Valid(st)
    ensures Valid(st.(users := st.users[st.nextUser := u], nextUser := st.nextUser + 1))
  {
    var r := st.(users := st.users[st.nextUser := u], nextUser := st.nextUser + 1);
    assert OwnersValid(r) by {
      forall w | w in r.worktables ensures CleanWorktable(r.worktables[w]).None? {
        assert r.worktables[w] == st.worktables[w];
      }
    }
    assert ReferencesResolve(r);
    assert IdsIssued(r);
  }

  /** Overwriting a note in place, same worktable, keeps the store valid. */
  lemma ReplaceNoteValid(st: Store, id: Id, n: Note)
    requires Valid(st) && id in st.notes
    requires n.worktable == st.notes[id].worktable && |n.title| <= TitleMaxLength
    requires n.category.Some? ==> n.category.value in st.categories
    ensures Valid(st.(notes := st.notes[id := n]))
  {
    var r := st.(notes := st.notes[id := n]);
    assert ReferencesResolve(r);
    assert TitlesFit(r);
    assert IdsIssued(r);
  }

  /** Overwriting a category in place, same worktable, keeps the store valid. */
  lemma ReplaceCategoryValid(st: Store, id: Id, c: Category)
    requires Valid(st) && id in st.categories
    requires c.worktable == st.categories[id].worktable && |c.title| <= TitleMaxLength
    ensures Valid(st.(categories := st.categories[id := c]))
  {
    var r := st.(categories := st.categories[id := c]);
    assert ReferencesResolve(r);
    assert TitlesFit(r);
    assert IdsIssued(r);
  }

  // ---------------------------------------------------------------------
  // Lookups by owner

  predicate OwnedBySession(st: Store, w: Id, key: SessionKey) {
    w in st.worktables && st.worktables[w].session == Some(key)
  }

  predicate OwnedByUser(st: Store, w: Id, user: Id) {
    w in st.worktables && st.worktables[w].user == Some(user)
  }

  /** `Worktable.objects.get(session_key=key)`, `None` for `DoesNotExist`. */
  function WorktableOfSession(st: Store, key: SessionKey): (r: Option<Id>)
    requires OneWorktablePerOwner(st)
    ensures r.Some? ==> OwnedBySession(st, r.value, key)
    ensures r.None? ==> forall w :: !OwnedBySession(st, w, key)
  {
    if exists w :: w in st.worktables && OwnedBySession(st, w, key) then
      var w :| w in st.worktables && OwnedBySession(st, w, key);
      Some(w)
    else
      None
  }

  /** `user.worktable`, `None` when the reverse one-to-one link is missing. */
  function WorktableOfUser(st: Store, user: Id): (r: Option<Id>)
    requires OneWorktablePerOwner(st)
    ensures r.Some? ==> OwnedByUser(st, r.value, user)
    ensures r.None? ==> forall w :: !OwnedByUser(st, w, user)
  {
    if exists w :: w in st.worktables && OwnedByUser(st, w, user) then
      var w :| w in st.worktables && OwnedByUser(st, w, user);
      Some(w)
    else
      None
  }

  // ---------------------------------------------------------------------
  // Deletion: CASCADE and SET_NULL

  /** A note after the categories in `gone` were deleted: `SET_NULL`. */
  function Unlink(n: Note, gone: set<Id>): (r: Note)
    ensures r == n || (r == n.(category := None) && n.category.Some? && n.category.value in gone)
    ensures r.category.Some? ==> r.category.value !in gone
  {
    if n.category.Some? && n.category.value in gone then n.(category := None) else n
  }

  /** Deleting a category: the row goes, its notes stay with no category. */
  function DeleteCategory(st: Store, c: Id): (r: Store)
    ensures r.categories.Keys == st.categories.Keys - {c}
    ensures forall k :: k in r.categories ==> r.categories[k] == st.categories[k]
    ensures r.notes.Keys == st.notes.Keys
    ensures forall n :: n in st.notes && st.notes[n].category == Some(c) ==>
              r.notes[n] == st.notes[n].(category := None)
    ensures forall n :: n in st.notes && st.notes[n].category != Some(c) ==> r.notes[n] == st.notes[n]
    ensures r.users == st.users && r.worktables == st.worktables
    ensures r == st.(categories := r.categories, notes := r.notes)
  {
    st.(categories := st.categories - {c},
        notes := map n | n in st.notes :: Unlink(st.notes[n], {c}))
  }

  /** The categories of the worktables in `ws`. */
  function CategoriesOf(st: Store, ws: set<Id>): set<Id> {
    set c | c in st.categories && st.categories[c].worktable in ws
  }

  /** Deleting the worktables `ws`: their categories and notes go with them
      (`CASCADE`), and notes elsewhere that used one of those categories
      lose it (`SET_NULL`). */
  function DeleteWorktables(st: Store, ws: set<Id>): (r: Store)
    ensures r.worktables.Keys == st.worktables.Keys - ws
    ensures forall w :: w in r.worktables ==> r.worktables[w] == st.worktables[w]
    ensures forall c :: c in r.categories <==> c in st.categories && st.categories[c].worktable !in ws
    ensures forall c :: c in r.categories ==> r.categories[c] == st.categories[c]
    ensures forall n :: n in r.notes <==> n in st.notes && st.notes[n].worktable !in ws
    ensures forall n :: n in r.notes ==> r.notes[n] == Unlink(st.notes[n], CategoriesOf(st, ws))
    ensures r.users == st.users
    ensures r == st.(worktables := r.worktables, categories := r.categories, notes := r.notes)
  {
    var gone := CategoriesOf(st, ws);
    st.(worktables := st.worktables - ws,
        categories := map c | c in st.categories && c !in gone :: st.categories[c],
        notes := map n | n in st.notes && st.notes[n].worktable !in ws :: Unlink(st.notes[n], gone))
  }

  function DeleteWorktable(st: Store, w: Id): Store {
    DeleteWorktables(st, {w})
  }

  /** The worktables linked to user `u`. */
  function WorktablesOfUser(st: Store, u: Id): set<Id> {
    set w | w in st.worktables && OwnedByUser(st, w, u)
  }

  /** Deleting a user deletes the worktable linked to it, with its contents;
      other users and the other worktables' rows stay. */
  function DeleteUser(st: Store, u: Id): (r: Store)
    ensures r.users.Keys == st.users.Keys - {u}
    ensures forall k :: k in r.users ==> r.users[k] == st.users[k]
    ensures forall w :: w in r.worktables <==> w in st.worktables && !OwnedByUser(st, w, u)
    ensures forall w :: w in r.worktables ==> r.worktables[w] == st.worktables[w]
    ensures forall c :: c in r.categories <==> c in st.categories && !OwnedByUser(st, st.categories[c].worktable, u)
    ensures forall c :: c in r.categories ==> r.categories[c] == st.categories[c]
    ensures forall n :: n in r.notes <==> n in st.notes && !OwnedByUser(st, st.notes[n].worktable, u)
    ensures forall n :: n in r.notes ==> r.notes[n] == Unlink(st.notes[n], CategoriesOf(st, WorktablesOfUser(st, u)))
    ensures r == st.(users := r.users, worktables := r.worktables, categories := r.categories, notes := r.notes)
  {
    var r := DeleteWorktables(st, WorktablesOfUser(st, u));
    r.(users := r.users - {u})
  }

  /** Deleting one worktable removes all its notes and categories and
      nothing that belongs to another worktable. */
  lemma DeleteWorktableCascade(st: Store, w: Id)
    requires Valid(st)
    ensures var r := DeleteWorktable(st, w);
      && w !in r.worktables
      && (forall c :: c in r.categories ==> r.categories[c].worktable != w)
      && (forall n :: n in r.notes ==> r.notes[n].worktable != w)
      && (forall c :: c in st.categories && st.categories[c].worktable != w ==> c in r.categories)
      && (forall n :: n in st.notes && st.notes[n].worktable != w ==> n in r.notes)
      && (forall n :: n in r.notes ==>
            r.notes[n] == st.notes[n] ||
            (r.notes[n] == st.notes[n].(category := None) && st.notes[n].category.Some? &&
             st.categories[st.notes[n].category.value].worktable == w))
  {
  }

  lemma DeleteWorktablesValid(st: Store, ws: set<Id>)
    requires Valid(st)
    ensures Valid(DeleteWorktables(st, ws))
  {
    var r := DeleteWorktables(st, ws);
    DeleteWorktablesResolve(st, ws);
    assert OwnersValid(r) && OneWorktablePerOwner(r);
    assert TitlesFit(r) by {
      forall n | n in r.notes ensures |r.notes[n].title| <= TitleMaxLength {
        assert r.notes[n].title == st.notes[n].title;
      }
    }
    assert IdsIssued(r);
  }

  /** After a cascade no foreign key dangles: the notes of surviving
      worktables lost exactly the categories that went. */
  lemma DeleteWorktablesResolve(st: Store, ws: set<Id>)
    requires Valid(st)
    ensures ReferencesResolve(DeleteWorktables(st, ws))
  {
    var r := DeleteWorktables(st, ws);
    forall n | n in r.notes && r.notes[n].category.Some?
      ensures r.notes[n].category.value in r.categories
    {
      var c := r.notes[n].category.value;
      assert st.notes[n].category == Some(c);
      assert c !in CategoriesOf(st, ws);
    }
  }

  /** Deleting a category keeps the store valid. */
  lemma DeleteCategoryValid(st: Store, c: Id)
    requires Valid(st)
    ensures Valid(DeleteCategory(st, c))
  {
  }

  lemma DeleteUserValid(st: Store, u: Id)
    requires Valid(st)
    ensures Valid(DeleteUser(st, u))
  {
    var ws := set w | w in st.worktables && OwnedByUser(st, w, u);
    DeleteWorktablesValid(st, ws);
  }
}

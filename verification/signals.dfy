/**
 * The session-deletion hook: when a session row is deleted, the worktable
 * of that session key is deleted with it, if there is one.
 */
module Signals {
  import opened Wrappers
  import opened Models

  /** `delete_worktable_after_deleting_session`: looks the worktable up by
      exact session key and deletes it (with its notes and categories); when
      there is none the lookup's `DoesNotExist` is swallowed. */
  function DeleteWorktableOfSession(st: Store, key: SessionKey): (r: Store)
    requires OneWorktablePerOwner(st)
    ensures forall w :: !OwnedBySession(r, w, key)
    ensures (forall w :: !OwnedBySession(st, w, key)) ==> r == st
    ensures forall w :: w in st.worktables && st.worktables[w].session != Some(key) ==>
              w in r.worktables && r.worktables[w] == st.worktables[w]
    ensures r.users == st.users
  {
    match WorktableOfSession(st, key)
    case None => st
    case Some(w) => DeleteWorktable(st, w)
  }

  /** The deleted worktable's notes and categories go with it; everything
      of other worktables stays. */
  lemma SessionDeleteCascades(st: Store, key: SessionKey, w: Id)
    requires Valid(st)
    requires OwnedBySession(st, w, key)
    ensures var r := DeleteWorktableOfSession(st, key);
      && w !in r.worktables
      && (forall n :: n in r.notes ==> r.notes[n].worktable != w)
      && (forall c :: c in r.categories ==> r.categories[c].worktable != w)
      && (forall n :: n in st.notes && st.notes[n].worktable != w ==> n in r.notes)
      && (forall c :: c in st.categories && st.categories[c].worktable != w ==> c in r.categories)
  {
    assert WorktableOfSession(st, key) == Some(w);
    DeleteWorktableCascade(st, w);
  }

  lemma DeleteWorktableOfSessionValid(st: Store, key: SessionKey)
    requires Valid(st)
    ensures Valid(DeleteWorktableOfSession(st, key))
  {
    if WorktableOfSession(st, key).Some? {
      DeleteWorktablesValid(st, {WorktableOfSession(st, key).value});
    }
  }
}

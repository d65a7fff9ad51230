# Notes app core in Dafny

This project models the core of a small Django note-taking app and proves
properties of that model. Users and anonymous visitors each own one
*worktable*. A worktable holds *categories* and *notes*, and notes may be
archived, filtered and counted. The model keeps all rows in an immutable
in-memory `Store`: one map from id to record per table, plus the next id
of each table. Every operation is a pure function from a store (and the
request data) to a new store and a JSON answer.

Modules, following the program's layout:

- `Wrappers` (`wrappers.dfy`): `Option` and `Result`.
- `Chars` (`chars.dfy`): Python's ASCII character classes (`\s`, `\w`),
  the narrower whitespace class `int()` skips, `str.lower()` and
  `str.strip()`.
- `PyInt` (`pyint.dfy`): Python's `int(str)` and `str(int)` in base 10.
- `WordCount` (`word_count.dfy`): `count_words_in_text`.
- `Models` (`models.dfy`): the records, the worktable rule and display
  string, the store invariant, and deletion with `CASCADE` and `SET_NULL`.
- `FormFields` (`form_fields.dfy`): how a text field and a row-choice
  field clean one submitted value.
- `NoteForms` (`note_forms.dfy`): the note and category forms, and how a
  create form attaches its row to the requester's worktable.
- `Views` (`views.dfy`): the note endpoints and `HomeView.get_worktable`.
- `Signals` (`signals.dfy`): deleting the worktable of a deleted session.
- `NoteFilter` (`note_filter.dfy`): the note list filter.
- `AccountForms` (`account_forms.dfy`): the registration form.

Modelling choices:

- An exception a view does not catch is the outcome `Raised(e)`. Django
  turns it into a server error.
- A URL's `id` reaches the view as a string. `objects.get(id=...)` reads it
  as Python's `int()` does, and a non-integer raises `ValueError`. On an
  ASCII string `int()` skips only tab, LF, VT, FF, CR and space around the
  numeral. It does not skip the separators 0x1C-0x1F, although `str.strip()`
  and `str.split()` treat them as whitespace.
- `int()` refuses a numeral of more than 4300 digits, counting leading
  zeros but not underscores, and `str()` refuses to print such an integer.
  This is Python's default `sys.set_int_max_str_digits` limit.
- A missing POST value reads as the empty string in a text field. Text
  fields strip surrounding whitespace unless declared with `strip=False`.
  A non-empty value then runs the field's validators in order: the length
  limit, then the ban on NUL characters that every Django `CharField`
  form field carries. Every failing validator adds its message, so one
  field can report several.
- The word counter follows the code, not the docstring. The docstring
  promises "unique words", but in that mode the code counts the words that
  occur exactly once.
- The worktable model declares a one-to-one field `session`, but the views,
  forms and signal look worktables up by `session_key`. The model follows
  the lookups: a worktable carries an optional session key, and a lookup
  matches that key exactly.

## Model

| member | source | states |
|---|---|---|
| WordCount.SkipPunct | src/notes/services.py:12 | what it drops is one whole run of characters that are neither whitespace nor word characters, and what remains starts with whitespace, a word character, or nothing |
| WordCount.Substitute | src/notes/services.py:12 | the cleaned text contains only whitespace and word characters and is never longer than the input |
| WordCount.Words | src/notes/services.py:12-13 | every word of the list is a non-empty run of lower-case word characters |
| WordCount.WordsAreTokens | src/notes/services.py:12-13 | the words the service builds (substitute, lower-case, split on whitespace) are exactly the maximal runs of word characters of the lower-cased input, every other character acting as a separator |
| WordCount.TokenShape | src/notes/services.py:12-13 | every word is a non-empty run of word characters with no upper-case letter |
| WordCount.TokensSpellWordChars | src/notes/services.py:12-13 | read one after another, the words spell the input's word characters, lower-cased, in their original order; nothing is lost, added or reordered |
| WordCount.NoTokensIffNoWordChars | src/notes/services.py:12-18 | a text has no words, so both counts are 0, exactly when it contains no word character (empty, whitespace-only or punctuation-only) |
| WordCount.WordsAdditive | src/notes/services.py:12-18 | joining two texts with a space concatenates their word lists, so the total count is additive |
| WordCount.CaseInsensitive | src/notes/services.py:13 | texts that agree once lower-cased have the same words, so changing letter case changes neither count |
| WordCount.ApostropheSplits | src/notes/services.py:12-13 | the apostrophe separates: `It's` gives the two words `it` and `s` |
| WordCount.OnceAtMostTotal | src/notes/services.py:16-18 | the exactly-once count never exceeds the total count, and equals it exactly when no word repeats |
| WordCount.RepeatedWordNotCounted | src/notes/services.py:16 | a word that occurs at two positions is not among the words counted in unique mode |
| WordCount.Tally | src/notes/services.py:16 | `Counter(words)`: its keys are exactly the words, and each maps to its number of occurrences |
| WordCount.SumOfOnes | src/notes/services.py:16 | summing the counts equal to 1 gives the number of words counted exactly once |
| WordCount.CountWordsInText | src/notes/services.py:5-18 | a non-`str` argument is rejected with `Type of "text" must be str.`; otherwise the result is the number of words, or in unique mode the number of distinct words occurring exactly once |
| PyInt.ParseInt | src/notes/filters.py:24 | `int()` accepts a value exactly when, with tab, LF, VT, FF, CR and space stripped from both ends, it is one optional sign followed by digits with single underscores between digits, at most 4300 digits in all; an accepted value holds a digit |
| PyInt.ParseIntChars | src/notes/filters.py:24 | an accepted value consists only of digits, that padding, signs and underscores |
| PyInt.ParseIntRoundTrip | src/notes/filters.py:22-27 | every integer of at most 4300 digits, written in decimal, reads back as itself; a longer one is no integer |
| PyInt.NoDigitNoInt | src/notes/filters.py:23-26 | a value without any digit never parses as an integer |
| PyInt.TooManyDigitsNoInt | src/notes/filters.py:23-26 | more than 4300 digits are no integer, however many of them are leading zeros |
| PyInt.DigitReads | src/notes/filters.py:24 | a single digit reads as its value |
| PyInt.ParseIntIgnoresPadding | src/notes/filters.py:24 | tab, newline, vertical tab, form feed, carriage return and space around a value do not change what `int()` reads |
| PyInt.PaddedDigitReads | src/notes/filters.py:23-26 | `" \t5\n"` reads as 5: the padding `int()` skips does not make a status value invalid |
| PyInt.SeparatorIsNoPadding | src/notes/filters.py:23-26 | an information separator 0x1C before a digit is not padding for `int()`, so that value is no integer and the status reads as 0 |
| NoteFilter.ValueAsInt | src/notes/filters.py:22-27 | the status value is the integer `int()` reads from it, or 0 when `int()` raises `ValueError` |
| NoteFilter.ValueAsIntReadsIntegers | src/notes/filters.py:22-27 | any written-out integer of at most 4300 digits reads as itself, a longer one as 0, and a value with no digit reads as 0 |
| NoteFilter.FilterByStatus | src/notes/filters.py:29-39 | ACTIVE (1) keeps exactly the notes not archived, ARCHIVED (2) exactly the archived ones, and any other value returns the notes unchanged |
| NoteFilter.FilterByStatusIsSubsequence | src/notes/filters.py:29-39 | status filtering never adds or reorders notes: the result is a subsequence of the input |
| NoteFilter.StatusPartition | src/notes/filters.py:32-35 | the ACTIVE and ARCHIVED results share no note, together hold every note as often as the input does, and their sizes sum to the input size |
| NoteFilter.RangeInclusive | src/notes/filters.py:13-14 | a range keeps a value equal to either bound and rejects the values just outside it |
| NoteFilter.FilterByWords | src/notes/filters.py:13 | keeps exactly the notes whose word count lies in the range, a missing bound not constraining |
| NoteFilter.FilterByUniqueWords | src/notes/filters.py:14 | keeps exactly the notes whose unique-word count lies in the range |
| NoteFilter.FilterByCategory | src/notes/filters.py:18-20 | keeps exactly the notes of the chosen category, so uncategorised notes never match; with no choice it keeps all notes |
| NoteFilter.CategoryChoice | src/notes/filters.py:18-20 | the generated category filter chooses an id exactly when the raw value reads with `int()` as the id of a category of the store; an empty, non-integer or unknown value chooses nothing, because the failed field is left out of the cleaned data |
| NoteFilter.ApplyFilters | src/notes/filters.py:8-20 | the filtered list holds exactly the notes that pass every given filter, as the independent predicate `Matches` states them; a category value naming no category of the store constrains nothing |
| NoteFilter.UnknownCategoryIgnored | src/notes/filters.py:18-20 | a category value naming no category gives the same list as a query without one |
| NoteFilter.UnknownCategoryKeepsEveryNote | src/notes/filters.py:18-20 | a query holding only an unknown category, such as `?category=999`, lists every note |
| NoteFilter.ApplyFiltersIsSubsequence | src/notes/filters.py:8-20 | the filtered list is a subsequence of the input: order kept, nothing added |
| Models.NewNote | src/notes/models.py:27-34 | a newly created note is not archived and holds the worktable, category, title, text and creation time it was given |
| Models.CleanWorktable | src/notes/models.py:84-95 | validation passes exactly when one of user and session is set; both-set and neither-set fail with code `invalid_user_and_session` and its message |
| Models.WorktableStr | src/notes/models.py:97-101 | a worktable displays as its user's email when it has a user, otherwise as its session key |
| Models.ValidWorktableHasStr | src/notes/models.py:93-101 | a worktable that passes validation always has a display string, naming its one owner |
| Models.WorktableOfSession | src/notes/signals.py:11 | the lookup by session key finds a worktable with exactly that key, or reports that none exists |
| Models.WorktableOfUser | src/notes/forms.py:16 | `user.worktable` finds the user's worktable, or reports that none exists |
| Models.Unlink | src/notes/models.py:15-17 | `SET_NULL`: a note keeps its category unless that category was deleted, in which case only the category is cleared |
| Models.DeleteCategory | src/notes/models.py:15-17 | deleting a category keeps every note, clears the category of that category's notes, and leaves all other notes, categories, users and worktables and every id counter unchanged |
| Models.DeleteWorktables | src/notes/models.py:10-50 | deleting worktables removes exactly their categories and notes, clears surviving notes' references to removed categories, and keeps every other row and every id counter as it was |
| Models.DeleteWorktableCascade | src/notes/models.py:10-50 | after deleting one worktable, none of its notes or categories remain, every row of other worktables remains, and each surviving note is unchanged or only lost a category of the deleted worktable |
| Models.DeleteWorktablesValid | src/notes/models.py:10-50 | the cascade keeps the store invariant: owners valid, one worktable per owner, no dangling reference, titles within 50 characters |
| Models.DeleteCategoryValid | src/notes/models.py:15-17 | deleting a category keeps the store invariant; no note is left pointing at it |
| Models.DeleteUser | src/notes/models.py:69-75 | deleting a user removes exactly that user and the worktables linked to it, with those worktables' categories and notes; surviving notes lose references to removed categories, and every other user, worktable, category and note, and every id counter, stays as it was |
| Models.DeleteUserValid | src/notes/models.py:69-75 | deleting a user keeps the store invariant |
| NoteForms.CleanTitle | src/notes/models.py:18-21 | the required `title` field passes exactly when its stripped value has 1 to 50 characters and no NUL character, and then holds that stripped value; a missing title gives the required-field message, and a failure names NUL characters exactly when the title holds one |
| NoteForms.CleanCategory | src/notes/models.py:15-17 | the optional `category` choice passes exactly when left empty or when `int()` reads it as the id of an existing category, and then holds that id, or none when left empty |
| NoteForms.CleanNoteText | src/notes/models.py:22-26 | the optional `text` field passes exactly when it holds no NUL character, holding the stripped submitted value (empty when missing); otherwise the only message is the NUL one |
| NoteForms.CleanColor | src/notes/models.py:55-57 | the required `color` field passes exactly when its stripped value is non-empty and holds no NUL character, and then holds that stripped value |
| NoteForms.NoteErrors | src/notes/forms.py:35-44 | the note form's error map has an entry for exactly the failed fields among `category`, `title` and `text`, the title's and text's entries being their messages |
| NoteForms.CategoryErrors | src/notes/forms.py:23-32 | the category form's error map has an entry for exactly the failed fields among `title` and `color`, the title's entry being its messages |
| NoteForms.CleanNoteFields | src/notes/forms.py:35-44 | the form passes exactly when the stripped title has 1 to 50 characters, the category is empty or the id of an existing category, and neither title nor text holds a NUL character; then the title and text are the stripped submitted values and the category is the parsed id, or none when left empty; a failure reports errors on `title`, `category` and `text` exactly when that field failed |
| NoteForms.CleanCategoryFields | src/notes/forms.py:23-32 | the form passes exactly when the stripped title has 1 to 50 characters, the stripped colour is non-empty, and neither holds a NUL character; then both are the stripped submitted values; a failure reports errors on `title` exactly when the title failed and on `color` exactly when the colour failed |
| NoteForms.CleanNoteForm | src/notes/forms.py:35-44 | the same pass condition and cleaned values, read from the submitted `title`, `text` and `category` keys |
| NoteForms.CleanCategoryForm | src/notes/forms.py:23-32 | the same pass condition and cleaned values, read from the submitted `title` and `color` keys |
| NoteForms.MissingTitleRejectsNote | src/notes/models.py:18-21 | a note form without a title is rejected with the required-field message on `title` |
| NoteForms.NullTextRejectsNote | src/notes/forms.py:35-44 | a note form whose text holds a NUL character is rejected with `Null characters are not allowed.` on `text` |
| NoteForms.MissingTitleRejectsCategory | src/notes/models.py:51-54 | a category form without a title is rejected with the required-field message on `title` |
| NoteForms.NoteFormReadsOnlyItsFields | src/notes/forms.py:35-44 | two submissions that agree on `category`, `title` and `text` clean to the same result, whatever other keys they carry |
| NoteForms.CategoryFormReadsOnlyItsFields | src/notes/forms.py:23-32 | two submissions that agree on `title` and `color` clean to the same result |
| NoteForms.RequestWorktable | src/notes/forms.py:13-20 | the worktable a create form uses is the user's own or the one of the request's session key; when there is none the lookup fails, and nothing is created |
| NoteForms.SaveNote | src/notes/forms.py:13-20 | saving inserts one unarchived note into the requester's worktable under the next note id, and changes nothing else |
| NoteForms.SaveCategory | src/notes/forms.py:13-20 | saving inserts one category into the requester's worktable under the next category id, and changes nothing else |
| NoteForms.UpdateNote | src/notes/forms.py:41-44 | the update form replaces category, title and text of that one note, and keeps its worktable, archive flag and creation time and every other note |
| NoteForms.UpdateCategory | src/notes/forms.py:29-32 | the update form replaces title and colour of that one category, and keeps its worktable and every other category |
| NoteForms.CreateAttachesToUserWorktable | src/notes/forms.py:15-16 | an authenticated user's new note lands in that user's own worktable |
| NoteForms.CreateAttachesToSessionWorktable | src/notes/forms.py:17-18 | an anonymous request's new category lands in the worktable of its session key, and the save succeeds exactly when that worktable exists |
| NoteForms.SaveNoteValid | src/notes/forms.py:13-20 | saving a valid note form keeps the store invariant |
| NoteForms.SaveCategoryValid | src/notes/forms.py:13-20 | saving a valid category form keeps the store invariant |
| NoteForms.UpdateNoteValid | src/notes/forms.py:41-44 | updating a note keeps the store invariant |
| NoteForms.UpdateCategoryValid | src/notes/forms.py:29-32 | updating a category keeps the store invariant |
| Views.FindNote | src/notes/views.py:27 | the lookup succeeds exactly when the URL id reads as an integer naming a note; a non-integer, including one padded with 0x1C-0x1F or one of more than 4300 digits, raises `ValueError`; otherwise a missing note is `DoesNotExist` |
| Views.CategoryBlock | src/notes/views.py:56-61 | a response carries a `category` block exactly when the note has a category, and the block holds exactly that category's title and colour, plus its id when asked |
| Views.DeleteNote | src/notes/views.py:25-31 | removes exactly the requested note, one fewer note, and echoes its id with 200; a missing note is a 404 with `Not found such note by id=<id>` and changes nothing |
| Views.ArchiveNote | src/notes/views.py:34-41 | sets the archive flag of exactly the requested note and echoes its id with 200; a missing note is the same 404 and changes nothing |
| Views.RetrieveBody | src/notes/views.py:47-61 | the answer holds the note's title and text, plus a category block with the category's id, title and colour exactly when the note has a category, and nothing else |
| Views.RetrieveNote | src/notes/views.py:44-65 | an existing note is answered with 200 and its body; a missing one with the 404 |
| Views.RetrieveCategoryBlockIff | src/notes/views.py:56-61 | a retrieved note shows a category block exactly when it has a category |
| Views.SavedNoteBody | src/notes/views.py:73-83 | the answer after a save holds a note block with exactly the note's id and title, plus a category block with exactly the category's title and colour when the saved note has a category |
| Views.UpdateNoteView | src/notes/views.py:68-87 | a missing note raises; an invalid form is a 400 that changes nothing; a valid one updates the note and answers 200 with the note's id, the cleaned title and, exactly when a category was chosen, that category's title and colour |
| Views.CreateNewNote | src/notes/views.py:90-115 | an invalid form is a 400 with its errors and creates nothing; a valid one saves the note and answers 201 with the saved note's body |
| Views.CreateFailureKeepsStore | src/notes/views.py:90-115 | a create that does not answer 201 leaves the store unchanged |
| Views.CreateNewNoteShape | src/notes/views.py:90-115 | a 201 create came from a valid form, adds exactly the next note id, and answers that id, the cleaned title and, exactly when the form chose a category, that category's title and colour |
| Views.SavedShape | src/notes/views.py:101-111 | after a save the answer holds the next note id and the saved title, and its category block is present exactly when the saved fields name a category |
| Views.CreateAddsOneNote | src/notes/views.py:90-115 | in a valid store a successful create adds exactly one note |
| Views.CreateCategory | src/notes/views.py:10-22 | an invalid form is a 400 that creates nothing; a valid form whose worktable exists is saved and answered with 201, carrying the new category's id and title; a valid form without a worktable raises the lookup error and changes nothing |
| Views.GetWorktable | src/notes/views.py:133-139 | an authenticated request gets the user's worktable and changes nothing; an anonymous one gets a session key if it had none, then the worktable of that key; when none existed, exactly one new worktable for that key is added under a fresh id and every existing worktable stays as it was |
| Views.GetWorktableIdempotent | src/notes/views.py:133-139 | resolving again, with the request as it stands after the first resolution, finds the same worktable and creates nothing more |
| Views.ArchiveIdempotent | src/notes/views.py:34-41 | archiving twice leaves the store as archiving once |
| Views.DeleteThenRetrieveNotFound | src/notes/views.py:25-65 | once a note is deleted, retrieving it is the 404 |
| Views.ArchiveKeepsRetrieve | src/notes/views.py:34-65 | archiving does not change what retrieving the note answers |
| Views.DeleteNoteValid | src/notes/views.py:25-31 | deleting a note keeps the store invariant |
| Views.ArchiveNoteValid | src/notes/views.py:34-41 | archiving keeps the store invariant |
| Views.UpdateNoteViewValid | src/notes/views.py:68-87 | the update endpoint keeps the store invariant |
| Views.CreateNewNoteValid | src/notes/views.py:90-115 | the create endpoint keeps the store invariant |
| Views.CreateCategoryValid | src/notes/views.py:10-22 | the category endpoint keeps the store invariant |
| Views.GetWorktableValid | src/notes/views.py:133-139 | worktable resolution keeps the store invariant, including one worktable per session |
| Signals.DeleteWorktableOfSession | src/notes/signals.py:8-14 | after a session is deleted no worktable has its key; with no such worktable nothing changes; worktables of other sessions and of users stay as they were |
| Signals.SessionDeleteCascades | src/notes/signals.py:11-12 | the session's worktable goes with its notes and categories, and every row of other worktables stays |
| Signals.DeleteWorktableOfSessionValid | src/notes/signals.py:8-14 | the hook keeps the store invariant |
| AccountForms.CleanConfirmingPassword | src/accounts/forms.py:31-37 | a mismatch is raised exactly when both values are non-empty and differ, with code `password_mismatch` and message `The passwords didn't match.`; otherwise the confirmation is returned |
| AccountForms.MatchingPasswordsConfirm | src/accounts/forms.py:31-37 | equal passwords always pass and the confirmation comes back |
| AccountForms.EmptyNeverMismatches | src/accounts/forms.py:35 | when either value is empty or missing, no mismatch is raised |
| AccountForms.CleanPassword | src/accounts/forms.py:10-21 | a password field passes exactly when the value is present, non-empty and free of NUL characters, and its value is kept unstripped; a missing or empty one gets the required-field message, one with a NUL the NUL message |
| AccountForms.CleanEmail | src/accounts/models.py:10-13 | the email passes exactly when, stripped, it is non-empty, at most 254 characters, free of NUL characters and not yet registered, and then it is the stripped submitted value; it fails with `User with this Email already exists.` exactly when it passes the field but is registered |
| AccountForms.CleanConfirmation | src/accounts/forms.py:16-37 | the confirmation passes exactly when it passed as a required field and the password failed, is empty or equals it; a passed confirmation that differs fails with the mismatch message |
| AccountForms.CleanRegisterForm | src/accounts/forms.py:9-37 | the form passes exactly when the email passes, the password is non-empty and free of NUL characters, and the confirmation equals it; then the email is the stripped submission and the password the unstripped one; an invalid one reports errors only on `email`, `password` or `confirming_password`, and at least one |
| AccountForms.MismatchRejected | src/accounts/forms.py:10-37 | two different non-empty passwords without NUL characters put the mismatch message on `confirming_password`; a NUL fails the field holding it with the NUL message, and a failed password leaves the confirmation unchecked |
| AccountForms.EmptyPasswordRequired | src/accounts/forms.py:10-15 | an empty password gets the required-field message on `password`; the confirmation then never reports a mismatch, only the errors of its own field, and exactly when that field fails |
| AccountForms.EmptyConfirmationRequired | src/accounts/forms.py:16-21 | an empty confirmation gets the required-field message on `confirming_password` |
| AccountForms.SaveRegistration | src/accounts/forms.py:39-44 | the saved user has the email and a credential made from the `password` field; without commit the store is unchanged, with commit exactly that user is added under the next id |
| AccountForms.RegisterAddsOneUser | src/accounts/forms.py:39-44 | a committed registration adds exactly one user, under a fresh id, with the credential of the `password` field, and leaves worktables, categories and notes alone |
| AccountForms.DryRunStoresNothing | src/accounts/forms.py:39-44 | a save without commit returns the user but stores nothing |
| AccountForms.NewEmailStaysUnique | src/accounts/models.py:10-13 | adding a user whose email is not taken keeps emails unique |
| AccountForms.RegisterKeepsStoreValid | src/accounts/forms.py:39-44 | a committed registration keeps the store invariant and email uniqueness |

## Left out

- HTTP, `JsonResponse` serialisation and the status plumbing are reduced to a `Json` value and a status number.
- URL routing and `reverse`: the `urls` blocks of the retrieve and create answers are omitted.
- The `date` entry of the create answer (`strftime`) and the `created` date-range filter are omitted. `created` is an opaque natural number.
- Unicode: whitespace, word characters, lower-casing, stripping and `int()` digits are ASCII only. On a string with non-ASCII characters, `int()` first maps every non-ASCII whitespace character and digit to its ASCII counterpart. That path is not modelled: `PyInt.ParseInt` reads only ASCII digits and skips only tab, LF, VT, FF, CR and space.
- Password hashing is opaque: the credential records the raw password it was made from.
- AccountForms.CleanEmail, AccountForms.CleanRegisterForm: the email field's format validator (`Enter a valid email address.`) and email normalisation are not modelled, so a malformed email such as `abc` passes. Email uniqueness compares strings exactly.
- NoteForms.CleanColor: colour validation belongs to the `ColorField` library and is not modelled; any non-empty colour is accepted.
- The sessions table is not modelled. A session is its key. Saving a new session is the `freshKey` parameter of `Views.GetWorktable`, and nothing constrains it. Django gives a newly saved session a key no live session has. A worktable is deleted together with its session, so in Django no existing worktable carries that key. The model does not state this, so its "new" session may adopt an existing worktable.
- `words` and `unique_words` are plain stored naturals. The note model declares no such fields, and no code shown derives them from `text`.
- NoteForms.RequestWorktable: an anonymous request whose session has no key yet fails with `DoesNotExist`. Django would instead look up worktables whose key is NULL.
- NoteFilter.ApplyFilters: a non-empty status value goes straight to `filter_by_status`. The library's choice validation, which drops values outside `1` and `2` before filtering, is not modelled.
- NoteFilter.ApplyFilters: the `words` and `unique_words` bounds are taken as already-read integers. The library reads them as decimals and drops the whole range when either bound is not a number, so that range then filters nothing. That reading is not modelled.
- Views.UpdateNoteView: a missing id raises instead of answering 404, because the code does not catch the lookup error.
- A URL id that is not an integer raises `ValueError` in every note endpoint. Which ids the URL patterns admit is not modelled.
- The registration tests expect the anonymous worktable to be bound to the new user. `UserRegisterForm.save` does not do this, so the model does not either.
- WordCount: the test sample's counts (36 and 23) are not computed; the `It's` example is proved instead.
- Query ordering (`ordering` in the model `Meta` classes) is not modelled; filters keep input order.
- `HomeView.get_context_data` and `get` only render a template with empty forms. Of `HomeView`, only `get_worktable` is modelled.
- `Note.__str__` and `Category.__str__` return the title; they are not modelled.
- Concurrency: races in get-or-create and database uniqueness errors are not modelled.
- Admin classes, the management command, Selenium tests, settings, `src/accounts/views.py` and the client script are not part of this model.

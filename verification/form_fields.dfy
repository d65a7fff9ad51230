/**
 * How the forms turn one raw POST value into a cleaned value or an error
 * message, for the field kinds the notes and accounts forms declare: a
 * text field (optionally stripped, optionally length-limited) and a
 * choice of an existing row by id.
 */
module FormFields {
  import opened Wrappers
  import opened Chars
  import opened PyInt

  /** Submitted form data: field name to raw value. */
  type PostData = map<string, string>

  /** Per-field error messages, as serialised under `errors`. */
  type Errors = map<string, seq<string>>

  /** One field's cleaned value, or the messages it failed with. */
  type Cleaned<T> = Result<T, seq<string>>

  const RequiredMessage: string := "This field is required."
  const NullCharactersMessage: string := "Null characters are not allowed."
  const InvalidChoiceMessage: string := "Select a valid choice. That choice is not one of the available choices."

  function MaxLengthMessage(limit: nat, actual: nat): string {
    "Ensure this value has at most " + NatToString(limit) + " characters (it has " + NatToString(actual) + ")."
  }

  function Get(data: PostData, field: string): Option<string> {
    if field in data then Some(data[field]) else None
  }

  /** The value a text field validates: the submission, or empty when
      missing, stripped of surrounding whitespace when `strip` is set. */
  function TextValue(raw: Option<string>, strip: bool): string {
    if strip then Strip(raw.GetOr("")) else raw.GetOr("")
  }

  /** A non-empty text value breaks the length limit or holds a NUL. */
  predicate TextInvalid(v: string, maxLength: Option<nat>) {
    (maxLength.Some? && |v| > maxLength.value) || '\0' in v
  }

  /** The messages of the text field's validators, run in the order the
      field lists them: the length limit, then the ban on NUL characters;
      every validator that fails contributes its message. */
  function ValidatorMessages(v: string, maxLength: Option<nat>): (m: seq<string>)
    ensures m == [] <==> !TextInvalid(v, maxLength)
    ensures NullCharactersMessage in m <==> '\0' in v
    ensures RequiredMessage !in m
    ensures forall msg :: msg in m ==> ValidatorMessage(msg, v, maxLength)
  {
    MessagesDiffer();
    (if maxLength.Some? && |v| > maxLength.value then [MaxLengthMessage(maxLength.value, |v|)] else [])
      + (if '\0' in v then [NullCharactersMessage] else [])
  }

  /** A message one of the text field's validators gives for `v`. */
  predicate ValidatorMessage(msg: string, v: string, maxLength: Option<nat>) {
    msg == NullCharactersMessage || (maxLength.Some? && msg == MaxLengthMessage(maxLength.value, |v|))
  }

  lemma MessagesDiffer()
    ensures forall limit: nat, actual: nat :: MaxLengthMessage(limit, actual) != NullCharactersMessage
    ensures forall limit: nat, actual: nat :: MaxLengthMessage(limit, actual) != RequiredMessage
    ensures NullCharactersMessage != RequiredMessage
  {
    forall limit: nat, actual: nat
      ensures MaxLengthMessage(limit, actual)[0] == 'E'
    {
    }
    assert NullCharactersMessage[0] == 'N' && RequiredMessage[0] == 'T';
  }

  /** A text field: a missing value reads as empty, surrounding whitespace
      is stripped when `strip` is set, an empty value is an error only when
      the field is required, and a non-empty value fails when it exceeds
      `maxLength` or holds a NUL character. */
  function CleanText(raw: Option<string>, required: bool, strip: bool, maxLength: Option<nat>): (r: Cleaned<string>)
    ensures r.Ok? ==> r.value == TextValue(raw, strip)
    ensures r.Ok? && maxLength.Some? ==> |r.value| <= maxLength.value
    ensures r.Ok? && required ==> r.value != ""
    ensures r.Ok? ==> '\0' !in r.value
    ensures r.Err? <==>
              var v := TextValue(raw, strip);
              (v == "" && required) || (v != "" && TextInvalid(v, maxLength))
    ensures r.Err? && TextValue(raw, strip) == "" ==> r.error == [RequiredMessage]
    ensures r.Err? && TextValue(raw, strip) != "" ==>
              && r.error != []
              && RequiredMessage !in r.error
              && (NullCharactersMessage in r.error <==> '\0' in TextValue(raw, strip))
              && (forall msg :: msg in r.error ==> ValidatorMessage(msg, TextValue(raw, strip), maxLength))
  {
    var v := TextValue(raw, strip);
    if v == "" then
      if required then Err([RequiredMessage]) else Ok("")
    else
      var messages := ValidatorMessages(v, maxLength);
      if messages == [] then Ok(v) else Err(messages)
  }

  /** An optional choice of a row by id among `ids`: an empty value is no
      choice; a value that does not parse as an integer or names no row is
      an invalid choice. */
  function CleanChoice(raw: Option<string>, ids: set<int>): (r: Cleaned<Option<int>>)
    ensures r.Ok? && r.value.Some? ==> r.value.value in ids
    ensures r.Ok? && r.value.Some? ==> raw.Some? && ParseInt(raw.value) == Some(r.value.value)
    ensures r.Ok? && r.value.None? ==> raw.None? || raw == Some("")
    ensures (raw.None? || raw == Some("")) ==> r == Ok(None)
    ensures r.Err? ==> r.error == [InvalidChoiceMessage]
    ensures r.Err? <==> raw.Some? && raw.value != "" &&
                        (ParseInt(raw.value).None? || ParseInt(raw.value).value !in ids)
  {
    match raw
    case None => Ok(None)
    case Some(v) =>
      if v == "" then Ok(None)
      else match ParseInt(v)
        case None => Err([InvalidChoiceMessage])
        case Some(k) => if k in ids then Ok(Some(k)) else Err([InvalidChoiceMessage])
  }

  /** The error entry of one field: present only when the field failed. */
  function FieldErrors<T>(field: string, r: Cleaned<T>): (e: Errors)
    ensures r.Ok? ==> e == map[]
    ensures r.Err? ==> e == map[field := r.error]
    ensures e.Keys <= {field}
    ensures r.Err? <==> field in e
  {
    if r.Err? then map[field := r.error] else map[]
  }
}

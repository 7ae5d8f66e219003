/**
  The converter's input: one logical key with an ICU template per locale
  (in the order the locales were given) and an optional comment.
*/
module IcuMessage {
  import opened Results
  import opened OrderedMaps

  /** `LocalizableICUMessageValue`: a template and its state label. */
  datatype LocalizableICUMessageValue = LocalizableICUMessageValue(value: string, state: string)

  /** The state label a value gets when its input gives none. */
  const DefaultLocalizationState: string := "translated"

  /** A value as read from input: a missing state label becomes the default. */
  function ReadMessageValue(value: string, state: Option<string>): (v: LocalizableICUMessageValue)
    ensures v.value == value
    ensures state.None? ==> v.state == DefaultLocalizationState
    ensures state.Some? ==> v.state == state.value
  {
    LocalizableICUMessageValue(value, match state case Some(s) => s case None => DefaultLocalizationState)
  }

  /** `LocalizableICUString`: a message as it appears in the input file. */
  datatype LocalizableICUString = LocalizableICUString(
    key: string,
    messages: OrderedMap<string, LocalizableICUMessageValue>,
    comment: Option<string>)

  /** `LocalizableICUMessage`: what the converter works on. */
  datatype LocalizableICUMessage = LocalizableICUMessage(
    key: string,
    messages: OrderedMap<string, LocalizableICUMessageValue>,
    comment: Option<string>)

  /** `From<LocalizableICUString>`: moves the key, the locale map (order included) and the comment over. */
  function FromIcuString(s: LocalizableICUString): (m: LocalizableICUMessage)
    ensures m.key == s.key
    ensures Keys(m.messages) == Keys(s.messages)
    ensures forall locale :: Get(m.messages, locale) == Get(s.messages, locale)
    ensures m.comment == s.comment
  {
    LocalizableICUMessage(s.key, s.messages, s.comment)
  }
}

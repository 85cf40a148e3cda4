/**
 * `HexToNameColor` (backend/api/serializers.py:24-32): the tag colour field.
 * On input a hex colour is replaced by its name; on output the stored value is
 * returned as it is. The hex-to-name table belongs to a colour library and is a
 * parameter: `None` stands for the ValueError it raises on an unnamed or
 * malformed colour.
 */
module ColorField {
  import opened Wrappers
  import opened Errors

  /** `to_representation`: the stored value, unchanged. */
  function ToRepresentation(value: string): (r: string)
    ensures r == value
  {
    value
  }

  /** `to_internal_value`: the colour's name, or a validation error on the colour field when it has none. */
  function ToInternalValue(data: string, hexToName: string -> Option<string>): (r: Result<string, WriteError>)
    ensures r.Failure? <==> hexToName(data).None?
    ensures r.Failure? ==> r.error == ValidationError({ColorNameField})
    ensures r.Success? ==> r.value == hexToName(data).value
  {
    match hexToName(data)
    case None => Failure(ValidationError({ColorNameField}))
    case Some(name) => Success(name)
  }

  /**
   * Writing a hex colour and reading it back yields the colour's name; the
   * original hex string comes back only when it is its own name.
   */
  lemma ReadBackGivesName(hex: string, hexToName: string -> Option<string>)
    requires hexToName(hex).Some?
    ensures ToInternalValue(hex, hexToName).Success?
    ensures ToRepresentation(ToInternalValue(hex, hexToName).value) == hexToName(hex).value
    ensures ToRepresentation(ToInternalValue(hex, hexToName).value) == hex <==> hexToName(hex).value == hex
  {
  }
}

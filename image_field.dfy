/**
 * `Base64ImageField.to_internal_value` (backend/api/serializers.py:15-21): a
 * string of the form `data:image/<ext>;base64,<payload>` is decoded into a file
 * named `temp.<ext>`; anything else is handed on unchanged. The base64 decoder
 * is a parameter, and what the parent `ImageField` does with the value
 * afterwards is not part of this module.
 */
module ImageField {
  import opened Wrappers
  import opened PyStr

  datatype ImageFile = ImageFile(name: string, content: seq<bv8>)

  /** What the field receives: a string (possibly a data URI) or an uploaded file. */
  datatype Upload = Text(s: string) | File(file: ImageFile)

  /**
   * The ValueErrors the conversion can raise: the two-name unpack of the split
   * got another number of parts, or the payload is not valid base64.
   */
  datatype ImageError = UnpackError(parts: nat) | Base64Error

  const IMAGE_PREFIX := "data:image"
  const BASE64_MARKER := ";base64,"
  const TEMP_NAME := "temp."

  /** The `isinstance(data, str) and data.startswith('data:image')` guard. */
  predicate IsDataUri(data: Upload) {
    data.Text? && StartsWith(data.s, IMAGE_PREFIX)
  }

  /** `format.split('/')[-1]`. */
  function Extension(format: string): string {
    var parts := Split(format, "/");
    parts[|parts| - 1]
  }

  /** The marker occurs exactly once: the string is `format + marker + payload` with neither half holding it. */
  ghost predicate SingleMarker(s: string) {
    exists format, payload ::
      s == format + BASE64_MARKER + payload && !Contains(format, BASE64_MARKER) && !Contains(payload, BASE64_MARKER)
  }

  function ToInternalValue(data: Upload, b64decode: string -> Option<seq<bv8>>): (r: Result<Upload, ImageError>)
    ensures !IsDataUri(data) ==> r == Success(data)
    ensures IsDataUri(data) && r.Success? ==> r.value.File? && StartsWith(r.value.file.name, TEMP_NAME)
  {
    if !IsDataUri(data) then Success(data)
    else
      var parts := Split(data.s, BASE64_MARKER);
      if |parts| != 2 then Failure(UnpackError(|parts|))
      else
        match b64decode(parts[1])
        case None => Failure(Base64Error)
        case Some(bytes) => Success(File(ImageFile(TEMP_NAME + Extension(parts[0]), bytes)))
  }

  /** Two occurrences of the marker can never overlap. */
  lemma MarkerBorderless()
    ensures Borderless(BASE64_MARKER)
  {
    var m := BASE64_MARKER;
    assert m[0] == ';';
    assert forall i :: 1 <= i < |m| ==> m[i] != ';';
    forall k | 0 < k < |m|
      ensures m[..k] != m[|m| - k..]
    {
      assert m[..k][0] == m[0];
      assert m[|m| - k..][0] == m[|m| - k];
    }
  }

  /** The extension is the text after the last '/' of the format, or all of it when there is none. */
  lemma ExtensionIsLastSegment(format: string)
    ensures var ext := Extension(format);
      && '/' !in ext
      && |ext| <= |format| && format[|format| - |ext|..] == ext
      && (|ext| == |format| || format[|format| - |ext| - 1] == '/')
  {
    var parts := Split(format, "/");
    var ext := parts[|parts| - 1];
    SplitPartsAvoidSep(format, "/");
    JoinSplit(format, "/");
    assert !Contains(ext, "/");
    forall i | 0 <= i < |ext|
      ensures ext[i] != '/'
    {
      assert !OccursAt(ext, "/", i);
      assert ext[i..i + 1] == [ext[i]];
    }
    if |parts| > 1 {
      JoinLast(parts, "/");
      var head := Join(parts[..|parts| - 1], "/");
      assert format == (head + "/") + ext;
    }
  }

  /** The two-way unpack succeeds exactly when the marker occurs once. */
  lemma SplitInTwoIffSingleMarker(s: string)
    ensures |Split(s, BASE64_MARKER)| == 2 <==> SingleMarker(s)
  {
    var parts := Split(s, BASE64_MARKER);
    if |parts| == 2 {
      JoinSplit(s, BASE64_MARKER);
      SplitPartsAvoidSep(s, BASE64_MARKER);
      assert s == parts[0] + BASE64_MARKER + parts[1];
      assert !Contains(parts[0], BASE64_MARKER) && !Contains(parts[1], BASE64_MARKER);
    }
    if SingleMarker(s) {
      var format, payload :|
        s == format + BASE64_MARKER + payload && !Contains(format, BASE64_MARKER) && !Contains(payload, BASE64_MARKER);
      MarkerBorderless();
      SplitAround(format, BASE64_MARKER, payload);
      SplitNoSep(payload, BASE64_MARKER);
    }
  }

  /** A data URI whose marker is not there exactly once raises the unpack error; one that has it never does. */
  lemma UnpackErrorIffNotSingleMarker(s: string, b64decode: string -> Option<seq<bv8>>)
    requires StartsWith(s, IMAGE_PREFIX)
    ensures ToInternalValue(Text(s), b64decode).Failure? && ToInternalValue(Text(s), b64decode).error.UnpackError?
            <==> !SingleMarker(s)
  {
    SplitInTwoIffSingleMarker(s);
  }

  /**
   * A well-formed data URI decodes its payload into a file named `temp.` plus the
   * extension of its format, or raises the base64 error.
   */
  lemma DataUriDecoded(format: string, payload: string, b64decode: string -> Option<seq<bv8>>)
    requires StartsWith(format + BASE64_MARKER + payload, IMAGE_PREFIX)
    requires !Contains(format, BASE64_MARKER) && !Contains(payload, BASE64_MARKER)
    ensures ToInternalValue(Text(format + BASE64_MARKER + payload), b64decode)
            == match b64decode(payload)
               case None => Failure(Base64Error)
               case Some(bytes) => Success(File(ImageFile(TEMP_NAME + Extension(format), bytes)))
  {
    MarkerBorderless();
    SplitAround(format, BASE64_MARKER, payload);
    SplitNoSep(payload, BASE64_MARKER);
  }
}

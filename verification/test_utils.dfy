/** The null-tolerant string helpers of `TestUtils`. */
module TestUtils {
  import opened Wrappers
  import opened JavaString

  /** Lines 83-85: `value == null || value.trim().isEmpty()`. */
  function IsNullOrEmpty(value: Option<string>): bool
  {
    value.None? || |Trim(value.value)| == 0
  }

  /** Null and the strings of characters at or below U+0020 only, such as
      `""` and `" \t\n"`, count as empty. */
  lemma IsNullOrEmptyIff(value: Option<string>)
    ensures IsNullOrEmpty(value) <==>
              value.None? || forall i :: 0 <= i < |value.value| ==> IsTrimmed(value.value[i])
  {
    if value.Some? {
      TrimEmptyIffAllSpace(value.value);
    }
  }

  /** Lines 73-75: `value.toString()`, or `"null"` for null.  `toString`
      is the object's own, passed in. */
  function SafeString<T>(value: Option<T>, toString: T -> string): (r: string)
    ensures value.Some? ==> r == toString(value.value)
    ensures r == "null" <==> value.None? || toString(value.value) == "null"
  {
    if value.Some? then toString(value.value) else "null"
  }

  /** For a string, whose `toString` is itself, the result is the string
      with null read as `"null"`; so a null and the text `"null"` print
      alike, while only the null is `isNullOrEmpty`. */
  lemma SafeStringOfString(value: Option<string>)
    ensures SafeString(value, (s: string) => s) == value.GetOr("null")
    ensures SafeString(None, (s: string) => s) == SafeString(Some("null"), (s: string) => s)
    ensures IsNullOrEmpty(None) && !IsNullOrEmpty(Some("null"))
  {
    assert !IsTrimmed("null"[0]);
    IsNullOrEmptyIff(Some("null"));
  }
}

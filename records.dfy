/**
 * The stored spell-check record (the `checks` collection). Times are integer
 * milliseconds since the epoch; optional fields are `Option`s.
 */
module Records {
  import opened Wrappers

  /**
   * `corrected_string`: declared as an array of fragments, but readers also
   * accept a plain string, and the field may be missing.
   */
  datatype Corrected = Absent | Fragments(parts: seq<string>) | Plain(text: string)

  datatype SpellCheck = SpellCheck(
    correctedString: Corrected,
    expire: Option<int>,
    createdAt: Option<int>,
    id: Option<string>,
    originalString: string,
    withoutErrors: bool,
    ownerUid: Option<string>,
    language: string,
    shared: Option<bool>,
    userEmail: Option<string>,
    userUid: Option<string>,
    userName: Option<string>)

  /** JavaScript truthiness of an optional string: absent and `''` are both false. */
  predicate Truthy(s: Option<string>)
  {
    s.Some? && s.value != []
  }

  /** `s || fallback` for an optional string. */
  function OrElse(s: Option<string>, fallback: string): string
  {
    if Truthy(s) then s.value else fallback
  }
}

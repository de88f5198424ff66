/**
 * The decision `saveUser` takes on form submission: write the session
 * cookie, or refuse a blank name.
 */
module Session {
  import opened Whitespace

  /** Days a saved session lasts: the `3` passed to `setCookies`. */
  const SessionDays: int := 3

  /** Either write a cookie for `key` holding `value` for `days` days, or
      reject the submission (the script's `alert`). */
  datatype Decision<K, V> = Write(key: K, value: V, days: int) | Reject

  /** `saveUser()`: writes exactly when the name typed in, once trimmed, is
      not empty, that is when it holds some non-white-space character. The
      cookie's key and value are left abstract. */
  function SaveUser<K, V>(typedName: string, key: K, value: V): (d: Decision<K, V>)
    ensures d.Write? <==> exists i :: 0 <= i < |typedName| && !IsWhitespace(typedName[i])
    ensures d.Write? ==> d == Write(key, value, SessionDays)
  {
    TrimEmptyIffBlank(typedName);
    if Trim(typedName) != "" then Write(key, value, SessionDays) else Reject
  }
}

/**
 * The stored-token check made at start-up: a persisted token is reused only while its
 * expiry instant lies in the future.
 *
 * Instants are integers (seconds since an epoch). Parsing the stored ISO-8601 text is the
 * parameter `parse`: `None` stands for the `ValueError` that `datetime.fromisoformat` raises.
 */
module Token {
  import opened Base

  /** The persisted credentials record; `token` and `expires` are read with `.get`. */
  datatype Credentials = Credentials(username: string, token: Option<string>, expires: Option<string>)

  /** `is_token_valid`: missing, empty and unparsable expiries are all invalid. */
  function IsTokenValid(expires: Option<string>, parse: string -> Option<int>, now: int): (valid: bool)
    ensures expires == None || expires == Some("") ==> !valid
    ensures expires.Some? && parse(expires.value).None? ==> !valid
    ensures expires.Some? && expires.value != "" && parse(expires.value).Some? ==>
              (valid <==> now < parse(expires.value).value)
  {
    match expires
    case None => false
    case Some(text) =>
      if text == "" then false
      else
        match parse(text)
        case None => false
        case Some(expireTime) => now < expireTime
  }

  /** A token valid now was valid at every earlier instant. */
  lemma ValidityIsMonotone(expires: Option<string>, parse: string -> Option<int>, now: int, earlier: int)
    requires earlier <= now
    ensures IsTokenValid(expires, parse, now) ==> IsTokenValid(expires, parse, earlier)
  {
  }

  /** A token is valid one second before its expiry and invalid at and after it. */
  lemma ValidityWindow(text: string, parse: string -> Option<int>, expireTime: int)
    requires text != "" && parse(text) == Some(expireTime)
    ensures IsTokenValid(Some(text), parse, expireTime - 1)
    ensures !IsTokenValid(Some(text), parse, expireTime)
    ensures !IsTokenValid(Some(text), parse, expireTime + 1)
  {
  }

  /** What start-up restores: the user name to pre-fill and the token to reuse, if any. */
  datatype Startup = Startup(username: Option<string>, token: Option<string>)

  /**
   * `initialize_app`: with no stored record nothing is restored; otherwise the user name is
   * always pre-filled, and the token is reused iff it is non-empty and still valid.
   */
  function Restore(stored: Option<Credentials>, parse: string -> Option<int>, now: int): (s: Startup)
    ensures stored.None? ==> s == Startup(None, None)
    ensures stored.Some? ==> s.username == Some(stored.value.username)
    ensures s.token.Some? <==>
              stored.Some? && stored.value.token.Some? && stored.value.token.value != ""
              && IsTokenValid(stored.value.expires, parse, now)
    ensures s.token.Some? ==> s.token == stored.value.token
  {
    match stored
    case None => Startup(None, None)
    case Some(c) =>
      var reuse := c.token.Some? && c.token.value != "" && IsTokenValid(c.expires, parse, now);
      Startup(Some(c.username), if reuse then c.token else None)
  }
}

/**
 * What the browser client keeps of a session in local storage, and the two
 * reads the rest of the client makes of it.
 */
module ClientSession {
  import opened Types
  import opened JsNumbers

  /** Local storage: every stored value is a string; a missing key reads as null. */
  type Storage = map<string, string>

  /** getItem: the stored value, or null when the key is missing. */
  function GetItem(storage: Storage, key: string): Option<string> {
    if key in storage then Some(storage[key]) else None
  }

  /** isLoggedIn: a session token is stored (an empty one is falsy). */
  function IsLoggedIn(storage: Storage): (r: bool)
    ensures r <==> "session_token" in storage && |storage["session_token"]| > 0
  {
    Truthy(GetItem(storage, "session_token"))
  }

  /**
   * getCurrentUserId: null when no id is stored, otherwise parseInt of the
   * stored text, which is NaN when that text does not start with digits.
   */
  function CurrentUserId(storage: Storage): (r: Option<JsInt>)
    ensures r.None? <==> "user_id" !in storage || storage["user_id"] == ""
    ensures r.Some? ==> r.value == ParseInt(storage["user_id"])
  {
    if Truthy(GetItem(storage, "user_id")) then Some(ParseInt(storage["user_id"])) else None
  }

  /**
   * login, once the server answered: with a truthy token the token and the
   * user id (as text) are stored; otherwise nothing is written.
   */
  function AfterLogin(storage: Storage, userId: nat, token: string): Storage {
    if token != "" then storage["session_token" := token]["user_id" := NatToString(userId)] else storage
  }

  /** logout, and any 401 answer: both keys are removed. */
  function AfterLogout(storage: Storage): Storage {
    storage - {"session_token", "user_id"}
  }

  /**
   * After a login that returned a token the client is logged in as exactly
   * the user the server named: the id survives the trip through text.
   */
  lemma LoginStoresSession(storage: Storage, userId: nat, token: string)
    requires token != ""
    ensures IsLoggedIn(AfterLogin(storage, userId, token))
    ensures CurrentUserId(AfterLogin(storage, userId, token)) == Some(Int(userId))
  {
    ParseIntNatToString(userId);
  }

  /** After a logout (or a 401) the client is logged out and has no user id. */
  lemma LogoutClearsSession(storage: Storage)
    ensures !IsLoggedIn(AfterLogout(storage))
    ensures CurrentUserId(AfterLogout(storage)) == None
  {
  }
}

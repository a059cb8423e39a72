/**
 * The two guards in front of the handlers. Both read the X-Authorization
 * header and look the token up among the users. `storeFails` stands for the
 * lookup failing.
 */
module AuthMiddleware {
  import opened Types
  import UserModel

  /**
   * isAuthenticated: 401 without a token, 500 when the lookup fails, 401
   * when nobody holds the token; otherwise go on as the user holding it.
   */
  function IsAuthenticated(t: Tables, header: Option<string>, storeFails: bool): (d: Decision<int>)
    ensures d.Proceed? <==> Truthy(header) && !storeFails && UserModel.FindBySessionToken(t, header.value).Some?
    ensures d.Proceed? ==> IsUserId(t, d.value) && UserOf(t, d.value).sessionToken == header
    ensures !Truthy(header) ==> d == Respond(Response(401, ErrorMessage("Unauthorised!")))
    ensures Truthy(header) && storeFails ==> d == Respond(Response(500, ErrorMessage("Internal server error, sorry!")))
    ensures Truthy(header) && !storeFails && d.Respond? ==>
              d.response == Response(401, ErrorMessage("Unauthorised!"))
              && forall k :: 0 <= k < |t.users| ==> t.users[k].sessionToken != header
  {
    if !Truthy(header) then Respond(Response(401, ErrorMessage("Unauthorised!")))
    else if storeFails then Respond(Response(500, ErrorMessage("Internal server error, sorry!")))
    else
      match UserModel.FindBySessionToken(t, header.value)
      case None => Respond(Response(401, ErrorMessage("Unauthorised!")))
      case Some(id) => Proceed(id)
  }

  /**
   * optionalAuth: without a token go on anonymously; 500 when the lookup
   * fails; otherwise go on as the user holding the token, or anonymously
   * when nobody holds it.
   */
  function OptionalAuth(t: Tables, header: Option<string>, storeFails: bool): (d: Decision<Option<int>>)
    ensures d.Respond? <==> Truthy(header) && storeFails
    ensures d.Respond? ==> d.response == Response(500, ErrorMessage("Internal server error, sorry!"))
    ensures !Truthy(header) ==> d == Proceed(None)
    ensures d.Proceed? && d.value.Some? ==>
              Truthy(header) && IsUserId(t, d.value.value) && UserOf(t, d.value.value).sessionToken == header
    ensures Truthy(header) && d == Proceed(None) ==> forall k :: 0 <= k < |t.users| ==> t.users[k].sessionToken != header
  {
    if !Truthy(header) then Proceed(None)
    else if storeFails then Respond(Response(500, ErrorMessage("Internal server error, sorry!")))
    else Proceed(UserModel.FindBySessionToken(t, header.value))
  }

  /** Whoever passes isAuthenticated is the same user optionalAuth recognises. */
  lemma AuthenticatedIsRecognised(t: Tables, header: Option<string>, storeFails: bool)
    ensures IsAuthenticated(t, header, storeFails).Proceed? ==>
              OptionalAuth(t, header, storeFails) == Proceed(Some(IsAuthenticated(t, header, storeFails).value))
    ensures OptionalAuth(t, header, storeFails).Proceed? && OptionalAuth(t, header, storeFails).value.Some? ==>
              IsAuthenticated(t, header, storeFails) == Proceed(OptionalAuth(t, header, storeFails).value.value)
  {
  }
}

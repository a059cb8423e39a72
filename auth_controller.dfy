/** Logging in and out. */
module AuthController {
  import opened Types
  import opened Validators
  import UserModel
  import AuthMiddleware
  import UserController
  import Invariants
  import Store

  /**
   * The guard chain of login: the schema (400), a key not allowed (400),
   * then the same 400 for an unknown e-mail and for a wrong password. A user
   * who already holds a token gets it back (200) without any write; anyone
   * else goes on to be issued a new one, and the id is returned.
   */
  function CheckLogin(t: Tables, body: Body, env: Env): (d: Decision<int>)
    ensures d.Proceed? ==> IsUserId(t, d.value) && !Truthy(UserOf(t, d.value).sessionToken)
    ensures d.Proceed? || d.response.status == 200 <==>
              && Validate(LoginSchema, body, env).None?
              && UserModel.FindByEmail(t, Str(body, "email")).Some?
              && env.hash(Str(body, "password"), UserOf(t, UserModel.FindByEmail(t, Str(body, "email")).value).salt)
                 == UserOf(t, UserModel.FindByEmail(t, Str(body, "email")).value).password
    ensures d.Respond? && d.response.status == 200 ==>
              var id := UserModel.FindByEmail(t, Str(body, "email")).value;
              Truthy(UserOf(t, id).sessionToken) && d.response.reply == Session(id, UserOf(t, id).sessionToken.value)
    ensures d.Proceed? ==> d.value == UserModel.FindByEmail(t, Str(body, "email")).value
    ensures Validate(LoginSchema, body, env).Some? ==>
              d == Respond(Response(400, SchemaRejected(Validate(LoginSchema, body, env).value)))
    ensures Validate(LoginSchema, body, env).None? && d.Respond? && d.response.status != 200 ==>
              d.response == Response(400, ErrorMessage("Invalid email or password!"))
  {
    match Validate(LoginSchema, body, env)
    case Some(e) => Respond(Response(400, SchemaRejected(e)))
    case None =>
      if HasExtraFields(body, ["email", "password"]) then
        Respond(Response(400, ErrorMessage("Extra fields not allowed!")))
      else
        match UserModel.FindByEmail(t, Str(body, "email"))
        case None => Respond(Response(400, ErrorMessage("Invalid email or password!")))
        case Some(id) =>
          var u := UserOf(t, id);
          if env.hash(Str(body, "password"), u.salt) != u.password then
            Respond(Response(400, ErrorMessage("Invalid email or password!")))
          else if Truthy(u.sessionToken) then Respond(Response(200, Session(id, u.sessionToken.value)))
          else Proceed(id)
  }

  /** Changing session tokens leaves every e-mail, item, bid and question as it was. */
  lemma SetTokenKeepsConsistent(t: Tables, users: seq<User>)
    requires Invariants.Consistent(t) && |users| == |t.users|
    requires forall k :: 0 <= k < |users| ==> users[k] == t.users[k].(sessionToken := users[k].sessionToken)
    ensures Invariants.Consistent(t.(users := users))
  {
    var t' := t.(users := users);
    assert forall k :: 0 <= k < |users| ==> users[k].email == t.users[k].email;
    assert Invariants.EmailsUnique(t');
  }

  /**
   * login: run the guard chain; a user without a token is given `freshToken`
   * (standing for the generated one) and gets it back with 200.
   */
  method Login(db: Store.Db, body: Body, freshToken: string, env: Env) returns (resp: Response)
    requires db.Valid()
    modifies db
    ensures db.Valid()
    ensures var d := CheckLogin(old(db.State()), body, env);
            var t := old(db.State());
            if d.Proceed? then
              resp == Response(200, Session(d.value, freshToken))
              && db.State() == t.(users := t.users[d.value - 1 := t.users[d.value - 1].(sessionToken := Some(freshToken))])
            else resp == d.response && db.State() == t
  {
    var d := CheckLogin(db.State(), body, env);
    if d.Respond? {
      return d.response;
    }
    var t := db.State();
    SetTokenKeepsConsistent(t, t.users[d.value - 1 := t.users[d.value - 1].(sessionToken := Some(freshToken))]);
    db.UpdateSessionToken(d.value, freshToken);
    resp := Response(200, Session(d.value, freshToken));
  }

  /** The store after a login, as a function of the store before it. */
  function AfterLogin(t: Tables, body: Body, freshToken: string, env: Env): Tables {
    var d := CheckLogin(t, body, env);
    if d.Proceed? then t.(users := t.users[d.value - 1 := t.users[d.value - 1].(sessionToken := Some(freshToken))])
    else t
  }

  /** The response of a login, as a function of the store before it. */
  function LoginResponse(t: Tables, body: Body, freshToken: string, env: Env): Response {
    var d := CheckLogin(t, body, env);
    if d.Proceed? then Response(200, Session(d.value, freshToken)) else d.response
  }

  /**
   * Logging in twice with the same credentials answers the same session
   * both times, and the second login changes nothing.
   */
  lemma LoginIsIdempotent(t: Tables, body: Body, token1: string, token2: string, env: Env)
    requires token1 != ""
    ensures var t1 := AfterLogin(t, body, token1, env);
            && AfterLogin(t1, body, token2, env) == t1
            && LoginResponse(t1, body, token2, env) == LoginResponse(t, body, token1, env)
  {
    var d := CheckLogin(t, body, env);
    var t1 := AfterLogin(t, body, token1, env);
    if d.Proceed? {
      UserModel.FindByEmailIgnoresTokens(t, t1.users, Str(body, "email"));
    }
  }

  /**
   * A token issued by login to a user authenticates that user, provided no
   * other user already held the same token.
   */
  lemma IssuedTokenAuthenticates(t: Tables, body: Body, freshToken: string, env: Env)
    requires CheckLogin(t, body, env).Proceed? && freshToken != ""
    requires forall k :: 0 <= k < |t.users| ==> t.users[k].sessionToken != Some(freshToken)
    ensures AuthMiddleware.IsAuthenticated(AfterLogin(t, body, freshToken, env), Some(freshToken), false)
            == Proceed(CheckLogin(t, body, env).value)
  {
    var id := CheckLogin(t, body, env).value;
    var t1 := AfterLogin(t, body, freshToken, env);
    UserModel.TokenResolvesToHolder(t1, id, freshToken);
  }

  /**
   * A user who registered can log in with the same e-mail and password:
   * the login is accepted and the session belongs to the new user.
   */
  lemma RegisteredUserCanLogIn(t: Tables, body: Body, salt: string, freshToken: string, env: Env)
    requires UserController.CheckRegister(t, body, salt, env).Proceed?
    ensures var t1 := t.(users := t.users + [UserController.CheckRegister(t, body, salt, env).value]);
            LoginResponse(t1, LoginBody(body), freshToken, env) == Response(200, Session(|t.users| + 1, freshToken))
  {
    var u := UserController.CheckRegister(t, body, salt, env).value;
    var t1 := t.(users := t.users + [u]);
    var login := LoginBody(body);
    LoginBodyOfRegistration(body, env);
    AllowListIsRedundant(LoginSchema, login, env, ["email", "password"]);
    assert UserModel.FindByEmail(t1, Str(login, "email")) == Some(|t.users| + 1) by {
      assert t1.users[|t.users|] == u;
      assert forall k :: 0 <= k < |t.users| ==> t1.users[k] == t.users[k];
    }
    assert UserOf(t1, |t.users| + 1) == u;
    assert env.hash(Str(login, "password"), u.salt) == u.password;
    assert !Truthy(u.sessionToken);
    assert CheckLogin(t1, login, env) == Proceed(|t.users| + 1);
  }

  /** A login body carrying the e-mail and the password of a registration body. */
  function LoginBody(body: Body): Body {
    map["email" := JStr(Str(body, "email")), "password" := JStr(Str(body, "password"))]
  }

  /** The e-mail and password of an accepted registration make an accepted login body. */
  lemma LoginBodyOfRegistration(body: Body, env: Env)
    requires Validate(UserCreateSchema, body, env).None?
    ensures var login := LoginBody(body);
            && Validate(LoginSchema, login, env).None?
            && Str(login, "email") == Str(body, "email") && Str(login, "password") == Str(body, "password")
  {
    var login := LoginBody(body);
    assert FieldOk(UserCreateSchema[2], body, env) && FieldOk(UserCreateSchema[3], body, env);
    assert FieldOk(LoginSchema[0], login, env) && FieldOk(LoginSchema[1], login, env);
    assert login.Keys <= Keys(LoginSchema) by {
      assert LoginSchema[0].key == "email" && LoginSchema[1].key == "password";
    }
  }

  // ---- logout ----

  /**
   * The guard chain of logout: 401 without a token, 401 when nobody holds
   * it; otherwise go on to clear it.
   */
  function CheckLogout(t: Tables, header: Option<string>): (d: Decision<string>)
    ensures d.Proceed? <==> Truthy(header) && UserModel.FindBySessionToken(t, header.value).Some?
    ensures d.Proceed? ==> d.value == header.value
    ensures d.Respond? ==> d.response == Response(401, ErrorMessage("Unauthorised!"))
  {
    if !Truthy(header) then Respond(Response(401, ErrorMessage("Unauthorised!")))
    else if UserModel.FindBySessionToken(t, header.value).None? then Respond(Response(401, ErrorMessage("Unauthorised!")))
    else Proceed(header.value)
  }

  /** logout: clear the token from every user holding it; 200. */
  method Logout(db: Store.Db, header: Option<string>) returns (resp: Response)
    requires db.Valid()
    modifies db
    ensures db.Valid()
    ensures var d := CheckLogout(old(db.State()), header);
            if d.Proceed? then
              resp == Response(200, Message("Logged out successfully, goodbye my friend!"))
              && db.State() == old(db.State()).(users := Store.ClearToken(old(db.State()).users, d.value))
            else resp == d.response && db.State() == old(db.State())
  {
    var d := CheckLogout(db.State(), header);
    if d.Respond? {
      return d.response;
    }
    SetTokenKeepsConsistent(db.State(), Store.ClearToken(db.State().users, d.value));
    var _ := db.ClearSessionToken(d.value);
    resp := Response(200, Message("Logged out successfully, goodbye my friend!"));
  }

  /**
   * After a logout the token no longer authenticates anybody, and every
   * other user keeps their token.
   */
  lemma LogoutRevokesToken(t: Tables, header: Option<string>)
    requires CheckLogout(t, header).Proceed?
    ensures var t' := t.(users := Store.ClearToken(t.users, header.value));
            && AuthMiddleware.IsAuthenticated(t', header, false) == Respond(Response(401, ErrorMessage("Unauthorised!")))
            && forall k :: 0 <= k < |t.users| && t.users[k].sessionToken != header ==> t'.users[k] == t.users[k]
  {
    var t' := t.(users := Store.ClearToken(t.users, header.value));
    assert forall k :: 0 <= k < |t'.users| ==> t'.users[k].sessionToken != Some(header.value);
  }
}

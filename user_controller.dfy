/** Registering a user and reading a user's profile. */
module UserController {
  import opened Types
  import opened JsNumbers
  import opened Validators
  import UserModel
  import Invariants
  import Store

  /**
   * The guard chain of user create: the schema (400), a key not allowed
   * (400), an e-mail already registered (400). The row to insert stores the
   * password hashed with the fresh `salt`, and no session token.
   */
  function CheckRegister(t: Tables, body: Body, salt: string, env: Env): (d: Decision<User>)
    ensures d.Proceed? <==> Validate(UserCreateSchema, body, env).None? && UserModel.FindByEmail(t, Str(body, "email")).None?
    ensures d.Proceed? ==>
              && d.value == User(Str(body, "first_name"), Str(body, "last_name"), Str(body, "email"),
                                 env.hash(Str(body, "password"), salt), salt, None)
              && ValidPassword(Str(body, "password"))
              && forall k :: 0 <= k < |t.users| ==> t.users[k].email != d.value.email
    ensures Validate(UserCreateSchema, body, env).Some? ==>
              d == Respond(Response(400, SchemaRejected(Validate(UserCreateSchema, body, env).value)))
    ensures Validate(UserCreateSchema, body, env).None? && UserModel.FindByEmail(t, Str(body, "email")).Some? ==>
              d == Respond(Response(400, ErrorMessage("Email already exists :/")))
  {
    match Validate(UserCreateSchema, body, env)
    case Some(e) => Respond(Response(400, SchemaRejected(e)))
    case None =>
      AcceptedPassword(body, env);
      if HasExtraFields(body, ["first_name", "last_name", "email", "password"]) then
        Respond(Response(400, ErrorMessage("Extra fields not allowed!")))
      else if UserModel.FindByEmail(t, Str(body, "email")).Some? then
        Respond(Response(400, ErrorMessage("Email already exists :/")))
      else
        Proceed(User(Str(body, "first_name"), Str(body, "last_name"), Str(body, "email"),
                     env.hash(Str(body, "password"), salt), salt, None))
  }

  /** A user with an e-mail nobody holds keeps the store consistent. */
  lemma AppendUserKeepsConsistent(t: Tables, u: User)
    requires Invariants.Consistent(t)
    requires forall k :: 0 <= k < |t.users| ==> t.users[k].email != u.email
    ensures Invariants.Consistent(t.(users := t.users + [u]))
  {
    var t' := t.(users := t.users + [u]);
    assert forall k :: 0 <= k < |t.users| ==> t'.users[k] == t.users[k];
    assert Invariants.EmailsUnique(t');
  }

  /**
   * user create: run the guard chain and insert the user; 201 with the new
   * id. `salt` stands for the salt the password library generates.
   */
  method Register(db: Store.Db, body: Body, salt: string, env: Env) returns (resp: Response)
    requires db.Valid()
    modifies db
    ensures db.Valid()
    ensures var d := CheckRegister(old(db.State()), body, salt, env);
            if d.Proceed? then
              resp == Response(201, UserCreated(|old(db.State()).users| + 1))
              && db.State() == old(db.State()).(users := old(db.State()).users + [d.value])
            else resp == d.response && db.State() == old(db.State())
  {
    var d := CheckRegister(db.State(), body, salt, env);
    if d.Respond? {
      return d.response;
    }
    AppendUserKeepsConsistent(db.State(), d.value);
    var id := db.InsertUser(d.value);
    resp := if id.Some? then Response(201, UserCreated(id.value)) else Response(500, ErrorMessage("Internal sever error!"));
  }

  /**
   * getOne: 404 for a non-numeric id or an unknown user; otherwise 200 with
   * the user's profile.
   */
  function GetOne(t: Tables, userParam: string, now: int): (resp: Response)
    ensures resp.status == 200 <==> ParseInt(userParam).Int? && IsUserId(t, ParseInt(userParam).n)
    ensures resp.status != 200 ==> resp == Response(404, ErrorMessage("User not found!"))
    ensures resp.status == 200 ==>
              && resp.reply.UserProfile?
              && resp.reply.profile == UserModel.GetProfile(t, ParseInt(userParam).n, now).value
              && resp.reply.profile.userId == ParseInt(userParam).n
  {
    match ParseInt(userParam)
    case NaN => Response(404, ErrorMessage("User not found!"))
    case Int(userId) =>
      match UserModel.GetProfile(t, userId, now)
      case None => Response(404, ErrorMessage("User not found!"))
      case Some(p) => Response(200, UserProfile(p))
  }

  /** A registered user's profile is found under the id the registration returned. */
  lemma RegisteredUserHasProfile(t: Tables, body: Body, salt: string, env: Env, now: int)
    requires CheckRegister(t, body, salt, env).Proceed?
    ensures var t' := t.(users := t.users + [CheckRegister(t, body, salt, env).value]);
            GetOne(t', NatToString(|t.users| + 1), now).status == 200
            && GetOne(t', NatToString(|t.users| + 1), now).reply.profile.firstName == Str(body, "first_name")
  {
    ParseIntNatToString(|t.users| + 1);
  }
}

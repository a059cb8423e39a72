/**
 * The request-body schemas and the `validate` helper.
 *
 * A schema is an ordered list of fields. As in the schema library the server
 * uses, an object schema checks its declared keys in order, stops at the first
 * failure, and only then rejects keys it does not declare.
 */
module Validators {
  import opened Types
  import opened JsNumbers

  /** Number.MAX_SAFE_INTEGER: the schema library rejects integers beyond it. */
  const MaxSafeInteger: int := 9007199254740991

  datatype Rule =
    | NonEmptyString   // Joi.string().min(1), and Joi.string() alone (which refuses "")
    | EmailAddress     // Joi.string().email()
    | Password         // passwordSchema
    | PositiveInteger  // Joi.number().integer().min(1)
    | FutureEndDate    // the alternatives of end_date
    | IntegerList      // an array of integers

  datatype Field = Field(key: string, rule: Rule, required: bool)

  type Schema = seq<Field>

  /** The characters the password's "special character" pattern accepts. */
  const SpecialCharacters: set<char> :=
    {'!', '@', '#', '$', '%', '^', '&', '*', '(', ')', ',', '.', '?', '"', ':', '{', '}', '|', '<', '>'}

  predicate HasUpper(s: string) { exists i :: 0 <= i < |s| && 'A' <= s[i] <= 'Z' }
  predicate HasLower(s: string) { exists i :: 0 <= i < |s| && 'a' <= s[i] <= 'z' }
  predicate HasDigit(s: string) { exists i :: 0 <= i < |s| && IsDigit(s[i]) }
  predicate HasSpecial(s: string) { exists i :: 0 <= i < |s| && s[i] in SpecialCharacters }

  /**
   * JavaScript's `length` of a string: its UTF-16 code units. A character
   * above U+FFFF takes a surrogate pair, every other character one unit.
   */
  function Utf16Length(s: string): (n: nat)
    ensures |s| <= n <= 2 * |s|
    ensures (forall i :: 0 <= i < |s| ==> s[i] as int <= 0xFFFF) ==> n == |s|
  {
    if s == [] then 0
    else (if s[0] as int > 0xFFFF then 2 else 1) + Utf16Length(s[1..])
  }

  lemma {:induction false} Utf16LengthAppend(a: string, b: string)
    ensures Utf16Length(a + b) == Utf16Length(a) + Utf16Length(b)
  {
    if a == [] {
      assert a + b == b;
    } else {
      assert (a + b)[0] == a[0] && (a + b)[1..] == a[1..] + b;
      Utf16LengthAppend(a[1..], b);
    }
  }

  lemma {:induction false} AstralCountsTwice(e: string)
    requires forall i :: 0 <= i < |e| ==> e[i] as int > 0xFFFF
    ensures Utf16Length(e) == 2 * |e|
  {
    if e != [] {
      AstralCountsTwice(e[1..]);
    }
  }

  /**
   * Characters outside the Basic Multilingual Plane (emoji, say) count twice
   * towards the password's length bounds: "Aa1!" followed by two of them has
   * length 8 and passes the lower bound with only six characters.
   */
  lemma PasswordLengthCountsSurrogates(p: string, e: string)
    requires forall i :: 0 <= i < |p| ==> p[i] as int <= 0xFFFF
    requires forall i :: 0 <= i < |e| ==> e[i] as int > 0xFFFF
    ensures Utf16Length(p + e) == |p| + 2 * |e|
  {
    Utf16LengthAppend(p, e);
    AstralCountsTwice(e);
  }

  /** The password rule; its length bounds count UTF-16 code units, as the schema library does. */
  predicate ValidPassword(s: string) {
    8 <= Utf16Length(s) <= 32 && HasUpper(s) && HasLower(s) && HasDigit(s) && HasSpecial(s)
  }

  /**
   * The number Joi.number() sees: a JSON integer, or a string of digits,
   * which the library converts before checking it.
   */
  function AsNumber(j: Json): Option<int> {
    match j
    case JInt(i) => Some(i)
    case JStr(s) => if |s| >= 1 && AllDigits(s) then Some(DigitsValue(s)) else None
    case _ => None
  }

  predicate SafeInteger(n: int) { -MaxSafeInteger <= n <= MaxSafeInteger }

  /**
   * end_date: an integer greater than the clock read when the module was
   * loaded, or else a string of digits whose value exceeds the clock read
   * during validation.
   */
  predicate ValidEndDate(j: Json, env: Env) {
    (AsNumber(j).Some? && SafeInteger(AsNumber(j).value) && AsNumber(j).value > env.loadTime)
    || (j.JStr? && |j.s| >= 1 && AllDigits(j.s) && DigitsValue(j.s) > env.now)
  }

  predicate Satisfies(rule: Rule, j: Json, env: Env) {
    match rule
    case NonEmptyString => j.JStr? && |j.s| >= 1
    case EmailAddress => j.JStr? && |j.s| >= 1 && env.isEmail(j.s)
    case Password => j.JStr? && ValidPassword(j.s)
    case PositiveInteger => AsNumber(j).Some? && SafeInteger(AsNumber(j).value) && AsNumber(j).value >= 1
    case FutureEndDate => ValidEndDate(j, env)
    case IntegerList => j.JArr? && forall k :: 0 <= k < |j.elems| ==> j.elems[k].JInt?
  }

  predicate FieldOk(f: Field, body: Body, env: Env) {
    if f.key in body then Satisfies(f.rule, body[f.key], env) else !f.required
  }

  function ErrorFor(f: Field, body: Body): SchemaError {
    if f.key in body then Invalid(f.key) else Missing(f.key)
  }

  function Keys(schema: Schema): set<string> {
    set i | 0 <= i < |schema| :: schema[i].key
  }

  /** The error of the first field, in declaration order, that fails. */
  function FirstFieldError(schema: Schema, body: Body, env: Env): (r: Option<SchemaError>)
    ensures r.None? <==> forall i :: 0 <= i < |schema| ==> FieldOk(schema[i], body, env)
    ensures r.Some? ==> exists i :: 0 <= i < |schema| && !FieldOk(schema[i], body, env)
                                   && r.value == ErrorFor(schema[i], body)
                                   && forall j :: 0 <= j < i ==> FieldOk(schema[j], body, env)
  {
    if schema == [] then None
    else if !FieldOk(schema[0], body, env) then Some(ErrorFor(schema[0], body))
    else
      var r := FirstFieldError(schema[1..], body, env);
      if r.Some? then
        ghost var i :| 0 <= i < |schema[1..]| && !FieldOk(schema[1..][i], body, env)
                       && r.value == ErrorFor(schema[1..][i], body)
                       && forall j :: 0 <= j < i ==> FieldOk(schema[1..][j], body, env);
        assert forall j :: 0 <= j < i + 1 ==> FieldOk(schema[j], body, env) by {
          forall j | 0 <= j < i + 1 ensures FieldOk(schema[j], body, env) {
            if j > 0 { assert schema[j] == schema[1..][j - 1]; }
          }
        }
        r
      else
        assert forall i :: 0 <= i < |schema| ==> FieldOk(schema[i], body, env) by {
          forall i | 0 <= i < |schema| ensures FieldOk(schema[i], body, env) {
            if i > 0 { assert schema[i] == schema[1..][i - 1]; }
          }
        }
        r
  }

  /** `validate(schema, data)`: `{valid: true}`, or the first problem found. */
  function Validate(schema: Schema, body: Body, env: Env): (r: Option<SchemaError>)
    ensures r.None? <==> (forall i :: 0 <= i < |schema| ==> FieldOk(schema[i], body, env))
                         && body.Keys <= Keys(schema)
    ensures r == Some(NotAllowed) ==> forall i :: 0 <= i < |schema| ==> FieldOk(schema[i], body, env)
  {
    var first := FirstFieldError(schema, body, env);
    if first.Some? then first
    else if body.Keys <= Keys(schema) then None
    else Some(NotAllowed)
  }

  /** The text under `key`, or "" when there is none. */
  function Str(body: Body, key: string): string {
    if key in body && body[key].JStr? then body[key].s else ""
  }

  /** The number the schema library reads under `key`, or 0 when there is none. */
  function Num(body: Body, key: string): int {
    if key in body && AsNumber(body[key]).Some? then AsNumber(body[key]).value else 0
  }

  /** The controllers' own allow-list test: does the body hold a key not listed? */
  predicate HasExtraFields(body: Body, allowed: seq<string>) {
    exists k :: k in body && k !in allowed
  }

  /**
   * A body the schema accepts never has extra fields, so the controllers'
   * allow-list check, which runs after validation, never fires.
   */
  lemma AllowListIsRedundant(schema: Schema, body: Body, env: Env, allowed: seq<string>)
    requires Keys(schema) <= set k | k in allowed
    requires Validate(schema, body, env).None?
    ensures !HasExtraFields(body, allowed)
  {
  }

  // ---- the schemas ----

  const UserCreateSchema: Schema := [
    Field("first_name", NonEmptyString, true),
    Field("last_name", NonEmptyString, true),
    Field("email", EmailAddress, true),
    Field("password", Password, true)]

  const LoginSchema: Schema := [
    Field("email", EmailAddress, true),
    Field("password", NonEmptyString, true)]

  /** itemCreateSchema as the validators module declares it: no `categories` key. */
  const ItemCreateSchemaAsWritten: Schema := [
    Field("name", NonEmptyString, true),
    Field("description", NonEmptyString, true),
    Field("starting_bid", PositiveInteger, true),
    Field("end_date", FutureEndDate, true)]

  /** itemCreateSchema with the optional `categories` list the item controller expects. */
  const ItemCreateSchema: Schema := ItemCreateSchemaAsWritten + [Field("categories", IntegerList, false)]

  const BidCreateSchema: Schema := [Field("amount", PositiveInteger, true)]

  const QuestionCreateSchema: Schema := [Field("question_text", NonEmptyString, true)]

  const AnswerCreateSchema: Schema := [Field("answer_text", NonEmptyString, true)]

  /**
   * As written, the item schema refuses every body that carries `categories`,
   * so the category step of item creation can never run.
   */
  lemma ItemSchemaAsWrittenRejectsCategories(body: Body, env: Env)
    requires "categories" in body
    ensures Validate(ItemCreateSchemaAsWritten, body, env).Some?
  {
    assert "categories" !in Keys(ItemCreateSchemaAsWritten);
  }

  /**
   * The corrected item schema accepts a well-formed body with a list of
   * category ids, and accepts exactly what the written one accepts on bodies
   * without `categories`.
   */
  lemma ItemSchemaAcceptsCategories(body: Body, env: Env)
    requires Validate(ItemCreateSchemaAsWritten, body - {"categories"}, env).None?
    requires "categories" in body && body["categories"].JArr?
    requires forall k :: 0 <= k < |body["categories"].elems| ==> body["categories"].elems[k].JInt?
    ensures Validate(ItemCreateSchema, body, env).None?
  {
    var s := ItemCreateSchema;
    var w := ItemCreateSchemaAsWritten;
    forall i | 0 <= i < |s| ensures FieldOk(s[i], body, env) {
      if i < |w| {
        assert s[i] == w[i] && w[i].key != "categories";
        assert FieldOk(w[i], body - {"categories"}, env);
      }
    }
    assert (body - {"categories"}).Keys <= Keys(w);
    KeysOfAppend(w, [Field("categories", IntegerList, false)]);
    var tail := [Field("categories", IntegerList, false)];
    assert tail[0].key == "categories";
    assert "categories" in Keys(tail);
    assert body.Keys <= Keys(s);
    assert FirstFieldError(s, body, env).None?;
  }

  lemma ItemSchemasAgreeWithoutCategories(body: Body, env: Env)
    requires "categories" !in body
    ensures Validate(ItemCreateSchema, body, env) == Validate(ItemCreateSchemaAsWritten, body, env)
  {
    var s := ItemCreateSchema;
    var w := ItemCreateSchemaAsWritten;
    assert FieldOk(s[|w|], body, env);
    KeysOfAppend(w, [s[|w|]]);
    if FirstFieldError(w, body, env).None? {
      assert forall i :: 0 <= i < |s| ==> FieldOk(s[i], body, env) by {
        forall i | 0 <= i < |s| ensures FieldOk(s[i], body, env) {
          if i < |w| { assert s[i] == w[i]; }
        }
      }
    } else {
      FirstErrorOfPrefix(w, [s[|w|]], body, env);
      assert s == w + [s[|w|]];
    }
  }

  lemma KeysOfAppend(a: Schema, b: Schema)
    ensures Keys(a + b) == Keys(a) + Keys(b)
  {
    forall k | k in Keys(a + b) ensures k in Keys(a) + Keys(b) {
      var i :| 0 <= i < |a + b| && (a + b)[i].key == k;
      if i >= |a| { assert b[i - |a|].key == k; }
    }
    forall k | k in Keys(a) + Keys(b) ensures k in Keys(a + b) {
      if k in Keys(a) {
        var i :| 0 <= i < |a| && a[i].key == k;
        assert (a + b)[i].key == k;
      } else {
        var i :| 0 <= i < |b| && b[i].key == k;
        assert (a + b)[|a| + i].key == k;
      }
    }
  }

  lemma {:induction false} FirstErrorOfPrefix(w: Schema, tail: Schema, body: Body, env: Env)
    requires FirstFieldError(w, body, env).Some?
    ensures FirstFieldError(w + tail, body, env) == FirstFieldError(w, body, env)
  {
    if FieldOk(w[0], body, env) {
      assert (w + tail)[1..] == w[1..] + tail;
      FirstErrorOfPrefix(w[1..], tail, body, env);
    }
  }

  /** A password the schema accepts has 8 to 32 UTF-16 code units and all four kinds of character. */
  lemma PasswordRule(body: Body, env: Env)
    requires Validate(UserCreateSchema, body, env).None?
    ensures "password" in body && body["password"].JStr?
    ensures 8 <= Utf16Length(body["password"].s) <= 32 && 4 <= |body["password"].s| <= 32
    ensures HasUpper(body["password"].s) && HasLower(body["password"].s)
    ensures HasDigit(body["password"].s) && HasSpecial(body["password"].s)
  {
    assert FieldOk(UserCreateSchema[3], body, env);
  }

  lemma AcceptedPassword(body: Body, env: Env)
    requires Validate(UserCreateSchema, body, env).None?
    ensures ValidPassword(Str(body, "password"))
  {
    assert FieldOk(UserCreateSchema[3], body, env);
  }

  /** Every key of every schema as written is required: a missing key is reported by name. */
  lemma MissingKeyRejected(schema: Schema, body: Body, env: Env, k: nat)
    requires schema in {UserCreateSchema, LoginSchema, ItemCreateSchemaAsWritten, BidCreateSchema,
                        QuestionCreateSchema, AnswerCreateSchema}
    requires k < |schema| && schema[k].key !in body
    ensures Validate(schema, body, env).Some?
    ensures Validate(schema, body, env) != Some(NotAllowed)
  {
    assert schema[k].required;
    assert !FieldOk(schema[k], body, env);
  }
}

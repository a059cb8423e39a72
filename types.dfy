/**
 * Rows of the auction store, the values a client sends and receives, and the
 * responses the REST API produces.
 *
 * Tables keep rows in insertion order and ids are never reused or deleted, so
 * the row with id `k` of an AUTOINCREMENT table is the one at index `k - 1`.
 */
module Types {

  datatype Option<T> = None | Some(value: T) {
    function GetOr(default: T): T {
      match this
      case Some(v) => v
      case None => default
    }
  }

  /** JavaScript truthiness of a string that may be missing: present and non-empty. */
  predicate Truthy(s: Option<string>) {
    s.Some? && s.value != ""
  }

  /** A JSON value as the body parser hands it to a controller. */
  datatype Json =
    | JNull
    | JBool(b: bool)
    | JInt(i: int)        // a number without fractional part
    | JFrac(x: real)      // a number with a fractional part
    | JStr(s: string)
    | JArr(elems: seq<Json>)
    | JObj(fields: map<string, Json>)

  /** A request body: the object's keys and their values. */
  type Body = map<string, Json>

  /** The outcome of JavaScript's parseInt: an integer or NaN. */
  datatype JsInt = NaN | Int(n: int)

  /** What the request handlers consult besides the store: clocks and library functions. */
  datatype Env = Env(
    loadTime: int,                        // Date.now() when the validators module was loaded
    now: int,                             // Date.now() while the request is handled
    isEmail: string -> bool,              // the schema library's e-mail syntax check
    profane: string -> bool,              // the profanity library's check
    hash: (string, string) -> string)     // the salted password hash (password, salt)

  // ---- table rows ----

  datatype User = User(firstName: string, lastName: string, email: string,
                       password: string, salt: string, sessionToken: Option<string>)

  datatype Item = Item(name: string, description: string, startingBid: int,
                       startDate: int, endDate: int, creatorId: int)

  datatype Bid = Bid(itemId: int, userId: int, amount: int, timestamp: int)

  datatype Question = Question(text: string, answer: Option<string>, askedBy: int, itemId: int)

  datatype Category = Category(name: string, description: string)

  /** The whole relational store. `itemCategories` holds (item_id, category_id) pairs. */
  datatype Tables = Tables(users: seq<User>, items: seq<Item>, bids: seq<Bid>,
                           questions: seq<Question>, categories: seq<Category>,
                           itemCategories: seq<(int, int)>)

  predicate IsUserId(t: Tables, id: int) { 1 <= id <= |t.users| }
  predicate IsItemId(t: Tables, id: int) { 1 <= id <= |t.items| }
  predicate IsQuestionId(t: Tables, id: int) { 1 <= id <= |t.questions| }
  predicate IsCategoryId(t: Tables, id: int) { 1 <= id <= |t.categories| }

  function UserOf(t: Tables, id: int): User requires IsUserId(t, id) { t.users[id - 1] }
  function ItemOf(t: Tables, id: int): Item requires IsItemId(t, id) { t.items[id - 1] }
  function QuestionOf(t: Tables, id: int): Question requires IsQuestionId(t, id) { t.questions[id - 1] }
  function CategoryOf(t: Tables, id: int): Category requires IsCategoryId(t, id) { t.categories[id - 1] }

  // ---- rows returned by queries ----

  /** A user as `findById` exposes it: no password, salt or token. */
  datatype PublicUser = PublicUser(userId: int, firstName: string, lastName: string, email: string)

  datatype HistoryRow = HistoryRow(itemId: int, userId: int, amount: int, timestamp: int,
                                   firstName: string, lastName: string)

  datatype BidHolder = BidHolder(userId: int, firstName: string, lastName: string)

  datatype ItemDetails = ItemDetails(itemId: int, name: string, description: string,
                                     startingBid: int, startDate: int, endDate: int,
                                     creatorId: int, firstName: string, lastName: string,
                                     currentBid: int, currentBidHolder: Option<BidHolder>)

  datatype SearchRow = SearchRow(itemId: int, name: string, description: string,
                                 startingBid: int, endDate: int, creatorId: int,
                                 firstName: string, lastName: string, currentBid: Option<int>)

  datatype ProfileItem = ProfileItem(itemId: int, name: string, description: string, endDate: int,
                                     creatorId: int, firstName: string, lastName: string)

  datatype Profile = Profile(userId: int, firstName: string, lastName: string,
                             selling: seq<ProfileItem>, biddingOn: seq<ProfileItem>,
                             auctionsEnded: seq<ProfileItem>)

  datatype QuestionRow = QuestionRow(questionId: int, questionText: string, answerText: Option<string>)

  /** A question joined with the creator of the item it is about. */
  datatype QuestionWithCreator = QuestionWithCreator(questionId: int, text: string, answer: Option<string>,
                                                     askedBy: int, itemId: int, creatorId: int)

  datatype CategoryRow = CategoryRow(categoryId: int, name: string, description: string)

  // ---- responses ----

  /** Why a schema rejected a body; the library's own message text is not modelled. */
  datatype SchemaError = Missing(key: string) | Invalid(key: string) | NotAllowed

  datatype Reply =
    | ErrorMessage(message: string)
    | SchemaRejected(error: SchemaError)
    | Message(message: string)
    | UserCreated(userId: int)
    | Session(userId: int, sessionToken: string)
    | ItemCreated(itemId: int)
    | QuestionCreated(questionId: int)
    | BidHistory(history: seq<HistoryRow>)
    | ItemDetail(details: ItemDetails, categories: Option<seq<CategoryRow>>)
    | SearchResults(results: seq<SearchRow>)
    | QuestionList(questions: seq<QuestionRow>)
    | UserProfile(profile: Profile)

  datatype Response = Response(status: int, reply: Reply)

  /** The outcome of a handler's guard chain: go on with `value`, or answer at once. */
  datatype Decision<T> = Proceed(value: T) | Respond(response: Response)
}

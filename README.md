# Auctionary: the business rules of an auction marketplace, in Dafny

Auctionary is a small auction site. Users register and log in. They put
items up for auction with a starting bid, an end date and categories. Other
users bid on an item, ask its creator questions, and the creator answers
them. The server is a REST API over an SQLite database. The browser client
keeps the session and item drafts in local storage, and shows toast
notifications.

This project models the server's request handlers, the queries and writes
they make, the request-body schemas and the authentication middleware. It
also models three client pieces: the draft store, the session helpers and
the toast list.

- **The store.** `Store.Db` is one object with a sequence per table. A row's
  id is its position plus one: the tables are AUTOINCREMENT and nothing is
  ever deleted. Queries are pure functions of the table contents
  (`Types.Tables`). Inserts and updates are methods of `Db`.
- **The handlers.** Each handler has two parts:
  - a function (`CheckBid`, `CheckLogin`, …) that runs the handler's guard
    chain in the handler's order and yields either the response or the row
    to write;
  - a method (`PlaceBid`, `Login`, …) that performs the write and answers.
    Its contract ties the new store and the response to that function.
- **The invariant.** `Invariants.Consistent` collects the constraints the
  schema declares and the rules the handlers enforce. Every writing handler
  preserves it:
  - e-mails are unique, and item–category pairs are unique;
  - items have a positive starting bid;
  - bids are by someone other than the creator, exceed the starting bid, and
    strictly increase per item;
  - questions are by someone other than the creator.
- **Outside inputs.** The clocks, the password hash, the e-mail syntax check
  and the profanity word list are fields of `Types.Env`, and the model never
  looks inside them. Generated salts and session tokens are method parameters.
- **The client.** The draft store is the class `Drafts.DraftStore`, whose one
  field is what local storage holds under the drafts key. The toast list is
  the class `Toasts.ToastCenter`: the list plus the id counter. The session
  helpers are functions of the storage map.

## Model

| member | source | states |
|---|---|---|
| Validators.FirstFieldError | auctionary_starter/app/validators/validators.js:52-58 | The first field, in declaration order, that fails its rule is the one reported; None exactly when every field passes |
| Validators.Validate | auctionary_starter/app/validators/validators.js:52-58 | A body is accepted iff every declared field passes and it has no undeclared key; an undeclared key is reported only once every field passes |
| Validators.PasswordRule | auctionary_starter/app/validators/validators.js:3-10 | An accepted registration's password is 8 to 32 UTF-16 code units long (JavaScript's `length`, where a character above U+FFFF counts two) and has an upper-case letter, a lower-case letter, a digit and a listed special character |
| Validators.Utf16Length | auctionary_starter/app/validators/validators.js:4-5 | A string's JavaScript length: between its character count and twice that, and equal to it when no character lies above U+FFFF |
| Validators.PasswordLengthCountsSurrogates | auctionary_starter/app/validators/validators.js:4-5 | Characters above U+FFFF count twice towards the length bounds, so "Aa1!" plus two emoji has length 8 |
| Validators.MissingKeyRejected | auctionary_starter/app/validators/validators.js:12-50 | In every schema as written, each key is required: a body missing one is rejected, and not as an unknown key |
| Validators.AllowListIsRedundant | auctionary_starter/app/controllers/bid.server.controller.js:19-24 | A body the schema accepts never holds a key outside the handler's allow-list, so the handlers' extra-field check cannot fire |
| Validators.ItemSchemaAsWrittenRejectsCategories | auctionary_starter/app/validators/validators.js:24-38 | The item schema as written rejects every body that carries `categories` |
| Validators.ItemSchemaAcceptsCategories | auctionary_starter/app/controllers/item.server.controller.js:12-17 | The corrected item schema accepts a body that is otherwise valid and carries a list of integer category ids |
| Validators.ItemSchemasAgreeWithoutCategories | auctionary_starter/app/validators/validators.js:24-38 | Without `categories`, the corrected and the written item schema give the same verdict |
| Profanity.FirstProfaneField | auctionary_starter/app/lib/profanityFilter.js:32-42 | The reported field is the first flagged one in order; None iff no field is flagged |
| Profanity.NameCheckedFirst | auctionary_starter/app/controllers/item.server.controller.js:29-38 | A flagged name is reported ahead of the description; the description is reported only when the name is clean |
| JsNumbers.ParseInt | auctionary_starter/app/controllers/bid.server.controller.js:8-12 | parseInt yields NaN exactly when no digit follows the sign and the leading white space. White space is ECMAScript's: tab, vertical tab, form feed, the byte-order mark, every Unicode space separator (including U+1680, U+2000–U+200A, U+202F, U+205F and U+3000) and the four line terminators |
| JsNumbers.ParseIntSkipsSpace | auctionary_starter/app/controllers/bid.server.controller.js:8 | A leading white-space character never changes what parseInt reads |
| JsNumbers.ParseIntAfterIdeographicSpace | auctionary_starter/app/controllers/item.server.controller.js:71 | An ideographic space (U+3000) before an id's decimal text is skipped, so the id parses back to itself |
| JsNumbers.ParseIntOfDigits | auctionary_starter/app/controllers/bid.server.controller.js:8 | A string of digits parses to its decimal value (exactly; see Left out for values above 2^53) |
| JsNumbers.ParseIntNatToString | auctionary_starter/frontend/src/services/api.js:114 | parseInt of the decimal text of a non-negative integer gives back that integer (exactly; see Left out for values above 2^53) |
| Store.ClearToken | auctionary_starter/app/models/user.server.model.js:70-78 | Every user holding the token loses it; every other user is unchanged |
| Store.Db.constructor | auctionary_starter/database.js:95-106 | A fresh store is empty except for the ten seeded categories, and is consistent |
| Store.Db.InsertUser | auctionary_starter/app/models/user.server.model.js:3-23 | A taken e-mail fails (UNIQUE) and changes nothing; otherwise one user is appended with no token and the new id is returned |
| Store.Db.UpdateSessionToken | auctionary_starter/app/models/user.server.model.js:48-57 | Only that user's token is set; an unknown id changes nothing |
| Store.Db.ClearSessionToken | auctionary_starter/app/models/user.server.model.js:70-78 | The token is cleared from every holder; the result is true iff somebody held it |
| Store.Db.InsertItem | auctionary_starter/app/models/item.server.model.js:3-23 | Exactly one item is appended and its id, the new table length, is returned |
| Store.Db.InsertBid | auctionary_starter/app/models/bid.server.model.js:3-22 | The bid is appended iff no stored bid has the same (item, user, amount) key (database.js:54); otherwise nothing changes |
| Store.Db.InsertQuestion | auctionary_starter/app/models/question.server.model.js:3-21 | Exactly one question is appended and its fresh id returned |
| Store.Db.SetAnswer | auctionary_starter/app/models/question.server.model.js:46-57 | Only that question's answer is overwritten; the result is true iff the question exists, and otherwise nothing changes |
| Store.Db.AddCategoriesToItem | auctionary_starter/app/models/category.server.model.js:89-134 | An empty list succeeds with no write. Otherwise the item's pairs become exactly its distinct ids and other items keep theirs. The callback runs once, with an error iff an id repeats |
| Store.InsertAllPairs | auctionary_starter/app/models/category.server.model.js:106-132 | After the inserts, the item is paired with each distinct id once, in first-seen order, and an insert failed iff an id repeats |
| Store.InsertAllCallbacks | auctionary_starter/app/models/category.server.model.js:114-131 | Every insert but the failed one completes; the callback runs once, with the first error or with success after the last insert |
| BidModel.HighestBid | auctionary_starter/app/models/bid.server.model.js:24-40 | The largest amount bid on the item, attained by one of its bids; None iff the item has no bids |
| BidModel.HighestBidIgnoresOtherItems | auctionary_starter/app/models/bid.server.model.js:27 | A bid on another item leaves the highest bid unchanged |
| BidModel.JoinedBids | auctionary_starter/app/models/bid.server.model.js:44-51 | Exactly the item's bids whose bidder exists, each carrying the bidder's names |
| BidModel.History | auctionary_starter/app/models/bid.server.model.js:42-63 | A permutation of the item's joined bids, in non-increasing amount order |
| BidModel.HistoryIgnoresOtherItems | auctionary_starter/app/models/bid.server.model.js:52 | A bid on another item leaves the history unchanged |
| BidController.ValidBidBody | auctionary_starter/app/validators/validators.js:40-42 | An accepted bid body carries an integer amount of at least 1 |
| BidController.CurrentBidBounds | auctionary_starter/app/controllers/bid.server.controller.js:44 | In a consistent store the current bid is the highest bid, or else the starting bid; it is at least the starting bid and at least every bid on the item |
| BidController.CheckBid | auctionary_starter/app/controllers/bid.server.controller.js:7-65 | The bid goes ahead iff the id parses, the body is valid, the item exists, the bidder is not its creator and the amount exceeds the current bid. A NaN id gives 404 before validation, a bad body 400, an unknown item 404 ("Item not found!") and the creator 403. An amount not above the current bid, a tie included, is 400 ("Bid must be higher than current bid, duh!"). There is no end-date check |
| BidController.AcceptedBidKeepsConsistent | auctionary_starter/app/controllers/bid.server.controller.js:50-61 | An accepted bid keeps the store consistent and collides with no stored bid's key |
| BidController.AppendBidKeepsConsistent | auctionary_starter/app/controllers/bid.server.controller.js:35-48 | A bid that tops every bid on its item, by someone other than the creator, keeps the invariant |
| BidController.PlaceBid | auctionary_starter/app/controllers/bid.server.controller.js:7-65 | 201 with exactly the checked bid appended; otherwise the guard chain's response and no write |
| BidController.AcceptedBidBecomesCurrent | auctionary_starter/app/controllers/bid.server.controller.js:44-61 | After an accepted bid, the item's details show that amount as the current bid, held by the bidder |
| BidController.StepKeepsConsistent | auctionary_starter/app/controllers/bid.server.controller.js:26-64 | Serving one bid request by a registered user keeps the store consistent and changes only the bids |
| BidController.RunKeepsBidsIncreasing | auctionary_starter/app/controllers/bid.server.controller.js:26-64 | In any sequential run of bid requests, the bids on each item strictly increase in order and all exceed the starting bid |
| BidController.GetHistory | auctionary_starter/app/controllers/bid.server.controller.js:68-92 | 404 for a NaN or unknown item; otherwise 200 with that item's history |
| AuthMiddleware.IsAuthenticated | auctionary_starter/app/middleware/auth.middleware.js:3-23 | 401 with no header; 500 when the lookup fails; 401 when nobody holds the token; otherwise the id of a user holding it |
| AuthMiddleware.OptionalAuth | auctionary_starter/app/middleware/auth.middleware.js:26-43 | Anonymous without a header or for an unknown token; 500 only when the lookup fails; otherwise the holder's id |
| AuthMiddleware.AuthenticatedIsRecognised | auctionary_starter/app/middleware/auth.middleware.js:10-41 | Both guards resolve a token to the same user |
| UserModel.FirstUserWhere | auctionary_starter/app/models/user.server.model.js:25-68 | The first user, in id order, satisfying a condition; None iff there is none |
| UserModel.FindByEmail | auctionary_starter/app/models/user.server.model.js:25-34 | The user registered with the e-mail, or None iff nobody is |
| UserModel.FindById | auctionary_starter/app/models/user.server.model.js:36-46 | For a known id, the id, names and e-mail only (no password, salt or token); None otherwise |
| UserModel.FindBySessionToken | auctionary_starter/app/models/user.server.model.js:59-68 | A user holding the token, or None iff nobody holds it |
| UserModel.TokenResolvesToHolder | auctionary_starter/app/models/user.server.model.js:59-68 | A token held by exactly one user resolves to that user |
| UserModel.SectionRows | auctionary_starter/app/models/user.server.model.js:91-143 | A profile section lists each qualifying item whose creator exists, once, in item order, and nothing else |
| UserModel.GetProfile | auctionary_starter/app/models/user.server.model.js:80-162 | None iff the user is unknown; otherwise the user's id and names with the three sections |
| UserModel.ProfileSelling | auctionary_starter/app/models/user.server.model.js:91-102 | Selling rows are the user's own items whose end date is after now |
| UserModel.ProfileBidding | auctionary_starter/app/models/user.server.model.js:109-122 | Bidding rows are distinct items the user bid on whose end date is after now |
| UserModel.ProfileEnded | auctionary_starter/app/models/user.server.model.js:129-143 | Ended rows are distinct items ended by now that the user created or bid on |
| UserController.CheckRegister | auctionary_starter/app/controllers/user.server.controller.js:5-46 | Goes ahead iff the body is valid and the e-mail is free, storing the password hashed with the fresh salt and no token. A bad body is 400 and a taken e-mail is 400 |
| UserController.AppendUserKeepsConsistent | auctionary_starter/app/controllers/user.server.controller.js:27-44 | A user with an unused e-mail keeps the store consistent |
| UserController.Register | auctionary_starter/app/controllers/user.server.controller.js:5-46 | 201 with the new id and exactly that user appended; otherwise the guard chain's response and no write |
| UserController.GetOne | auctionary_starter/app/controllers/user.server.controller.js:48-66 | 404 for a NaN or unknown id; otherwise 200 with the user's profile |
| UserController.RegisteredUserHasProfile | auctionary_starter/app/controllers/user.server.controller.js:38-44 | The id a registration returns finds the new user's profile |
| AuthController.CheckLogin | auctionary_starter/app/controllers/auth.server.controller.js:6-52 | An invalid body is 400 before any lookup. An unknown e-mail and a wrong password give the same 400 message. A user already holding a token gets it back with 200; otherwise the login goes ahead for that user |
| AuthController.SetTokenKeepsConsistent | auctionary_starter/app/models/user.server.model.js:48-78 | Changing only session tokens keeps the store consistent |
| AuthController.Login | auctionary_starter/app/controllers/auth.server.controller.js:6-52 | A login that goes ahead stores the new token on that user only and returns it; otherwise the guard chain's response and no write |
| AuthController.LoginIsIdempotent | auctionary_starter/app/controllers/auth.server.controller.js:33-38 | A second login with the same body changes nothing and answers exactly what the first one answered |
| AuthController.IssuedTokenAuthenticates | auctionary_starter/app/controllers/auth.server.controller.js:39-50 | A newly issued token that nobody else holds authenticates the user who logged in |
| AuthController.RegisteredUserCanLogIn | auctionary_starter/app/controllers/auth.server.controller.js:19-50 | A user who just registered can log in with the same e-mail and password, and gets a session for the new id |
| AuthController.LoginBodyOfRegistration | auctionary_starter/app/validators/validators.js:12-22 | The e-mail and password of an accepted registration form an accepted login body |
| AuthController.CheckLogout | auctionary_starter/app/controllers/auth.server.controller.js:54-78 | 401 without a token and 401 for a token nobody holds; otherwise it goes ahead with the token |
| AuthController.Logout | auctionary_starter/app/controllers/auth.server.controller.js:54-78 | 200 with the token cleared from every holder; otherwise 401 and no write |
| AuthController.LogoutRevokesToken | auctionary_starter/app/controllers/auth.server.controller.js:70-76 | After a logout the token authenticates nobody, and users not holding it are unchanged |
| ItemModel.FindItem | auctionary_starter/app/models/item.server.model.js:25-33 | The item with the id, or None iff there is none |
| ItemModel.Details | auctionary_starter/app/models/item.server.model.js:35-99 | None iff the item or its creator is missing. Otherwise the item's fields and creator names. With no joined bid, the current bid is the starting bid and nobody holds it; else the largest joined amount, held by a bidder who offered it |
| ItemModel.DetailsCurrentBidIsHighest | auctionary_starter/app/models/item.server.model.js:88-93 | In a consistent store the current bid is the highest bid, or the starting bid when nobody has bid |
| ItemModel.MatchIgnoresCaseOfPattern | auctionary_starter/app/models/item.server.model.js:156-160 | The text match ignores the ASCII case of the search term |
| ItemModel.EffectiveLimit | auctionary_starter/app/models/item.server.model.js:168 | `limit \|\| 10`: a given non-zero limit is kept; 0 and NaN become 10 |
| ItemModel.EffectiveOffset | auctionary_starter/app/models/item.server.model.js:169 | `offset \|\| 0`: NaN becomes 0 |
| ItemModel.Window | auctionary_starter/app/models/item.server.model.js:170-172 | LIMIT/OFFSET as SQLite applies them, element by element: a negative offset skips nothing and a negative limit keeps all |
| ItemModel.PagesConcatenate | auctionary_starter/app/models/item.server.model.js:168-172 | Two consecutive pages make up the page of their combined size |
| ItemModel.Search | auctionary_starter/app/models/item.server.model.js:101-180 | Every row is a selected item shown as stored. Rows are in increasing id order, each item at most once, and there are at most `limit` of them |
| ItemModel.SearchStatusMeaning | auctionary_starter/app/models/item.server.model.js:120-160 | No status: open items. OPEN: the viewer's own open items. BID: open items the viewer bid on. ARCHIVE: ended items. The current bid is the highest bid or null, never the starting bid |
| ItemModel.SearchComplete | auctionary_starter/app/models/item.server.model.js:101-180 | A first page no smaller than the store contains every matching item |
| ItemModel.SearchPagesConcatenate | auctionary_starter/app/models/item.server.model.js:166-172 | Paging with consecutive offsets covers the ordered hits without gap or overlap |
| ItemController.ValidItemBody | auctionary_starter/app/validators/validators.js:24-38 | A body either item schema accepts has a non-empty name and description, a starting bid of at least 1 and a numeric end date. It carries `categories` only under the corrected schema, and then as a list of integers |
| ItemController.EndDate | auctionary_starter/app/controllers/item.server.controller.js:19-22 | The end date as a number: a string of digits is parsed |
| ItemController.CategoryIds | auctionary_starter/app/controllers/item.server.controller.js:54-55 | The listed category ids; none when the key is absent |
| ItemController.ProfanityMessage | auctionary_starter/app/controllers/item.server.controller.js:29-38 | No message iff neither field is flagged; the name's message when the name is flagged, else the description's |
| ItemController.CheckCreate | auctionary_starter/app/controllers/item.server.controller.js:6-47 | For the schema it validates with (as written, or corrected): goes ahead iff the body is valid, the end date is after now and neither text is profane. The row is created by the caller and starts now; every refusal is 400. Under the schema as written, nothing that goes ahead lists categories |
| ItemController.CreateAsWrittenRefusesCategories | auctionary_starter/app/controllers/item.server.controller.js:7-10 | As written, item create answers every body carrying `categories` with the schema's 400 |
| ItemController.CorrectedCreateAcceptsCategories | auctionary_starter/app/controllers/item.server.controller.js:12-62 | Under the corrected schema, a body the written handler accepts once `categories` is removed goes ahead with the same row and exactly the listed ids |
| ItemController.AppendItemKeepsConsistent | auctionary_starter/app/controllers/item.server.controller.js:40-50 | An item by a registered user with a positive starting bid keeps the store consistent |
| ItemController.ReplacePairsKeepsConsistent | auctionary_starter/app/models/category.server.model.js:95-132 | Replacing an existing item's categories keeps the store consistent |
| ItemController.CreateItem | auctionary_starter/app/controllers/item.server.controller.js:6-67 | 201 with the new id, the item appended and its categories replaced by the listed ones (a category failure still answers 201); otherwise the guard chain's response and no write. With the schema as written, a body carrying `categories` gets 400 and nothing is stored |
| ItemController.NewItemDetails | auctionary_starter/app/controllers/item.server.controller.js:40-66 | A new item shows its starting bid as current bid with no holder, and exactly the listed existing categories. Under the schema as written it has no categories |
| ItemController.FreshItemHasNoCategories | auctionary_starter/app/models/category.server.model.js:156-171 | No category is listed for an item that was just inserted |
| ItemController.GetOne | auctionary_starter/app/controllers/item.server.controller.js:70-98 | 404 for a NaN or unknown id. Otherwise 200 with the details, plus the item's categories unless fetching them fails |
| ItemController.NumberOr | auctionary_starter/app/controllers/item.server.controller.js:104-105 | An absent or empty parameter takes the default; otherwise parseInt |
| ItemController.SearchItems | auctionary_starter/app/controllers/item.server.controller.js:101-132 | An unknown status is 400. OPEN or BID without a user is 400, not 401. Otherwise 200 with a page whose rows mean what the status asks for, in id order, within the limit |
| QuestionModel.FindQuestion | auctionary_starter/app/models/question.server.model.js:23-44 | The question with its item's creator; None iff the question or its item is missing |
| QuestionModel.ByItem | auctionary_starter/app/models/question.server.model.js:59-77 | Exactly the item's questions, answered or not, with their stored text and answer, in descending id order |
| QuestionModel.OtherItemsListUnchanged | auctionary_starter/app/models/question.server.model.js:59-77 | A question about another item leaves the item's list unchanged |
| QuestionModel.NewQuestionListedFirst | auctionary_starter/app/models/question.server.model.js:3-21 | A new question heads its item's list with its fresh id; the rest is unchanged |
| QuestionController.CheckAsk | auctionary_starter/app/controllers/question.server.controller.js:7-64 | Goes ahead iff the id parses, the body is valid, the item exists, the asker is not its creator and the text is clean; the question is then unanswered and asked by the caller. NaN is 404, a bad body 400, an unknown item 404, the creator 403, profanity 400 |
| QuestionController.AppendQuestionKeepsConsistent | auctionary_starter/app/controllers/question.server.controller.js:35-62 | A question on an existing item by someone other than its creator keeps the store consistent |
| QuestionController.Ask | auctionary_starter/app/controllers/question.server.controller.js:7-64 | 200 with the new id and exactly that question appended; otherwise the guard chain's response and no write |
| QuestionController.AskedQuestionListedFirst | auctionary_starter/app/controllers/question.server.controller.js:50-62 | An accepted question heads its item's list, unanswered |
| QuestionController.CheckAnswer | auctionary_starter/app/controllers/question.server.controller.js:66-117 | Goes ahead iff the id parses, the body is valid, the question and its item exist, the caller is the creator and the text is clean. NaN or unknown is 404, another caller 403, profanity 400; an already-answered question is not refused |
| QuestionController.Answered | auctionary_starter/app/models/question.server.model.js:46-57 | Only that question's answer changes, to the new text |
| QuestionController.AnswerKeepsConsistent | auctionary_starter/app/controllers/question.server.controller.js:109-115 | Overwriting an answer keeps the store consistent |
| QuestionController.AnswerQuestion | auctionary_starter/app/controllers/question.server.controller.js:66-117 | 200 with that answer overwritten; otherwise the guard chain's response and no write |
| QuestionController.AnswerRowsPointwise | auctionary_starter/app/models/question.server.model.js:59-77 | On a listed row, the answer changes only for the answered question; ids and texts stay |
| QuestionController.AnswerShownInList | auctionary_starter/app/controllers/question.server.controller.js:109-115 | After an answer, the item's list is the same list with the new answer on that question |
| QuestionController.GetByItem | auctionary_starter/app/controllers/question.server.controller.js:119-143 | 404 for a NaN or unknown item; otherwise 200 with all of the item's questions, newest first |
| CategoryModel.Rows | auctionary_starter/app/models/category.server.model.js:42-51 | The rows of the category table in id order |
| CategoryModel.AllCategories | auctionary_starter/app/models/category.server.model.js:42-51 | A permutation of the categories, sorted by name |
| CategoryModel.AllCategoriesListsEach | auctionary_starter/app/models/category.server.model.js:42-51 | Every category is listed, and every listed row is a stored category |
| CategoryModel.FindCategory | auctionary_starter/app/models/category.server.model.js:62-71 | The category with the id, or None iff there is none |
| CategoryModel.Joined | auctionary_starter/app/models/category.server.model.js:156-165 | The existing categories paired with the item, and only those |
| CategoryModel.ByItem | auctionary_starter/app/models/category.server.model.js:156-171 | A permutation of the item's categories, sorted by name |
| CategoryModel.ByItemMembership | auctionary_starter/app/models/category.server.model.js:156-171 | An existing category is listed for an item iff it is paired with the item |
| CategoryModel.Distinct | auctionary_starter/app/models/category.server.model.js:114-121 | The ids without repeats, holding every id |
| CategoryModel.DistinctShorterIffDuplicate | auctionary_starter/app/models/category.server.model.js:114-121 | An id repeats iff the distinct ids are fewer than the ids |
| CategoryModel.WithoutItem | auctionary_starter/app/models/category.server.model.js:97 | The delete removes exactly the item's pairs and keeps pairs unique |
| CategoryModel.PairsFor | auctionary_starter/app/models/category.server.model.js:106-115 | One (item, id) pair per id, in order |
| CategoryModel.ReplacePairsNamesIds | auctionary_starter/app/models/category.server.model.js:95-132 | After the replace, the item is paired with exactly the listed ids |
| CategoryModel.ReplacePairsKeepsOthers | auctionary_starter/app/models/category.server.model.js:95-132 | Pairs of other items are never changed |
| CategoryModel.ReplacePairsUnique | auctionary_starter/database.js:122 | The replace keeps every pair unique |
| ClientSession.IsLoggedIn | auctionary_starter/frontend/src/services/api.js:140-142 | Logged in iff a non-empty session token is stored |
| ClientSession.CurrentUserId | auctionary_starter/frontend/src/services/api.js:148-151 | null iff no non-empty user id is stored; otherwise parseInt of it |
| ClientSession.LoginStoresSession | auctionary_starter/frontend/src/services/api.js:105-118 | After a login that returned a token, the client is logged in as exactly the user id the server sent |
| ClientSession.LogoutClearsSession | auctionary_starter/frontend/src/services/api.js:124-134 | After a logout, or any 401 answer (api.js:36-39), the client is logged out and has no user id |
| Drafts.FirstWithId | auctionary_starter/frontend/src/services/api.js:330-334 | The first position whose draft has the id, or None iff no draft has it |
| Drafts.WithoutId | auctionary_starter/frontend/src/services/api.js:353 | The drafts without the id and no others; it has the same length iff no draft had the id, and is then unchanged |
| Drafts.NewDraftFields | auctionary_starter/frontend/src/services/api.js:313-318 | A saved draft holds the given fields with both timestamps set to now; without a given id it gets the generated id |
| Drafts.MergedFields | auctionary_starter/frontend/src/services/api.js:336-340 | An updated draft takes the given fields, keeps its others, and its updated_at is now |
| Drafts.DraftStore.GetAll | auctionary_starter/frontend/src/services/api.js:291-294 | The stored drafts, or [] when nothing is stored |
| Drafts.DraftStore.GetOne | auctionary_starter/frontend/src/services/api.js:301-304 | The first draft with the id; null iff none has it |
| Drafts.DraftStore.Save | auctionary_starter/frontend/src/services/api.js:311-322 | Exactly one new draft is appended at the end and the earlier drafts are unchanged |
| Drafts.DraftStore.Update | auctionary_starter/frontend/src/services/api.js:330-344 | null and no write when no draft has the id; otherwise only the first such draft is replaced by the merge, which is returned |
| Drafts.DraftStore.Delete | auctionary_starter/frontend/src/services/api.js:351-359 | false and no write iff no draft has the id; otherwise true and every draft with it is removed |
| Drafts.DraftStore.ClearAll | auctionary_starter/frontend/src/services/api.js:364-366 | Nothing stored; getAll is [] |
| Drafts.SavedDraftIsFound | auctionary_starter/frontend/src/services/api.js:301-322 | A draft saved under a fresh id is found again by it, at the end |
| Drafts.UpdatedDraftIsFound | auctionary_starter/frontend/src/services/api.js:301-344 | An updated draft is still the first one found under its id |
| Drafts.DeletedDraftIsGone | auctionary_starter/frontend/src/services/api.js:301-359 | After a delete no draft has the id, and every draft with another id remains |
| Toasts.IndexOfId | auctionary_starter/frontend/src/composables/useToast.js:28 | The first position of a toast with the id, or -1 iff none has it |
| Toasts.ClosedRemovesOnlyThatToast | auctionary_starter/frontend/src/composables/useToast.js:27-32 | Close removes exactly the toast with the id: the others stay, and the list shrinks by one iff it was there |
| Toasts.ClosedDropsOnlyId | auctionary_starter/frontend/src/composables/useToast.js:27-32 | Every toast left after a close was there before and has another id |
| Toasts.ClosedKeepsOthers | auctionary_starter/frontend/src/composables/useToast.js:27-32 | Every toast with another id survives a close |
| Toasts.ClosedKeepsOrder | auctionary_starter/frontend/src/composables/useToast.js:27-32 | A close keeps the ids increasing |
| Toasts.CloseTwiceIsNoOp | auctionary_starter/frontend/src/composables/useToast.js:27-32 | A second close of the same toast changes nothing |
| Toasts.CloseUndoesShow | auctionary_starter/frontend/src/composables/useToast.js:19-38 | Closing the toast just shown restores the list as it was before |
| Toasts.ToastCenter.constructor | auctionary_starter/frontend/src/composables/useToast.js:9-11 | No toasts, and the counter at 0 |
| Toasts.ToastCenter.ShowToast | auctionary_starter/frontend/src/composables/useToast.js:19-38 | The toast takes the counter as its id, greater than every earlier id, and the counter goes up by one. It is appended at the end; the type defaults to 'success' and the duration to 3000 |
| Toasts.ToastCenter.Close | auctionary_starter/frontend/src/composables/useToast.js:27-32 | The list becomes the list with that toast spliced out; the counter is unchanged and the ids stay increasing |
| Toasts.ToastCenter.Success | auctionary_starter/frontend/src/composables/useToast.js:47 | A toast of type 'success' is appended |
| Toasts.ToastCenter.Error | auctionary_starter/frontend/src/composables/useToast.js:48 | A toast of type 'error' is appended |
| Toasts.ToastCenter.Info | auctionary_starter/frontend/src/composables/useToast.js:49 | A toast of type 'info' is appended |
| Toasts.ToastCenter.Warning | auctionary_starter/frontend/src/composables/useToast.js:50 | A toast of type 'warning' is appended |

## Left out

- Store failures:
  - A failing SQLite call answers 500 in every handler. The model includes this only where a rule depends on it: `storeFails` in the middleware, and `categoriesFail` for item getOne.
  - Elsewhere every query is assumed to succeed.
  - The bid insert's own 500 is kept in `PlaceBid`, but it cannot happen in a consistent store.
- Outside inputs:
  - The password hash (PBKDF2) and salt and token generation (`app/lib/passwords.js`) are not part of this model. The hash is a function in `Env`, and the salt and token are parameters.
  - The clocks are values in `Env`: `loadTime` for the `Date.now()` read when the validators module loads, and one `now` per request. Where the source reads `Date.now()` several times within one request, the model collapses those reads into that single `now`, which rules out the outputs listed under the three members below.
- Library behaviour:
  - The schema library's message text and its e-mail syntax check are not modelled. The e-mail check is a predicate in `Env`.
  - Only digit strings are converted to numbers; the library's other conversions are left out.
  - The profanity word list (the `leo-profanity` library) is a predicate in `Env`.
- `UserModel.GetProfile`: the three sections read `Date.now()` separately, in nested callbacks (user.server.model.js:104,124,145). The model uses one `now` for all three. So an item whose end date falls between the first and the third read, which the source lists in both `selling` and `auctions_ended`, cannot appear in both in the model.
- `ItemController.CheckCreate`: the end date is compared with one clock read (item.server.controller.js:24), and `start_date` is stored from a later read (item.server.model.js:12). The model uses the same `now` for both, so it always stores `start_date < end_date`. In the source a row with `start_date >= end_date` can occur when the end date is only milliseconds away.
- `Drafts.NewDraftFields`: save reads the clock three times, for the id, `created_at` and `updated_at` (api.js:314,316,317). The model uses one `now` for all three, so it always gives `created_at == updated_at` and the id's timestamp. The source can give three different values.
- `JsNumbers.ParseInt`: JavaScript's parseInt returns a double, so a result above 2^53 is rounded (parseInt("9007199254740993", 10) is 9007199254740992). The model's integers are unbounded, so `ParseInt`, `JsNumbers.ParseIntOfDigits`, `JsNumbers.ParseIntNatToString` and `ItemController.EndDate` give the exact value there. An end date given as a digit string above 2^53 is stored rounded by the source and exact by the model. The bid amount and starting bid are refused above 2^53 by the schema, and an id parsed from that far out matches no stored row either way.
- `ItemModel.Search`: SQL LIKE is modelled as ASCII case-insensitive substring search. `%` and `_` inside the search term are taken literally, not as wildcards.
- Item create takes the schema it validates with as a parameter. `ItemCreateSchemaAsWritten` gives the handler as written, which refuses every body with `categories`. `ItemCreateSchema` gives the corrected handler, which attaches them (see Findings).
- `ItemController.SearchItems`: the `category` query parameter is parsed but never used, as in the source. The model has no category filter.
- `BidModel.History`: the order of rows with equal amounts is not stated, because SQLite does not fix it.
- `UserModel.GetProfile`: the profile queries have no ORDER BY. The model lists rows in item id order, and the `selling` query is modelled as one row per item.
- `Drafts.WithoutId`: states which drafts remain and when the list is unchanged, not that the remaining drafts keep their order.
- Drafts on the client:
  - JSON serialisation to local storage is not modelled; the store holds the parsed value directly.
  - A draft id is `draft_` plus the clock in milliseconds. Two saves in the same millisecond get the same id, and the model does not rule that out.
- Toasts:
  - The toast's `close` closure is modelled as `Close` applied to the toast's own id.
  - Vue reactivity is not modelled.
  - Auto-dismiss after `duration` is done by a component outside this model.
- Client requests: `apiRequest` (fetch, JSON parsing, the redirect to /login) is not modelled. Only its clearing of the two session keys on a 401 is, as `ClientSession.AfterLogout`.
- Concurrency:
  - Handlers are modelled as running one at a time. The gap between reading the highest bid and inserting the bid (bid.server.controller.js:39-56) is not modelled.
  - `RunKeepsBidsIncreasing` covers sequential runs only.
- Not modelled at all: the HTTP wiring (server.js and the route files), the category controller (a pass-through to `getAll`), the client router and its auth store, and the console logging.

## Findings

| source | as written | input that shows it | evidently intended | confidence | as-written member | corrected member |
|---|---|---|---|---|---|---|
| auctionary_starter/app/validators/validators.js:24-38 | itemCreateSchema declares no `categories` key, and the object schema rejects undeclared keys, so any item body with `categories` is refused with 400 | a body with a valid name, description, starting_bid and end_date plus `"categories": [1, 2]` | the item handler allows `categories` (item.server.controller.js:12) and attaches them (lines 54-62), so the schema should accept an optional list of integer ids | not executed | ItemController.CreateAsWrittenRefusesCategories | ItemController.CorrectedCreateAcceptsCategories |

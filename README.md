# project-node in Dafny

A model of the request-handling core of project-node, a small Express and
Mongoose REST backend. It covers:

- the local-login verify callback and session (de)serialization of
  passport;
- the session guards and the validation-error guard;
- registration, login, logout, `/me` and the OAuth failure endpoint;
- the `User` and `Item` schemas: setters, defaults, validators and their
  messages;
- the user and item CRUD controllers;
- the development `mockDB` user store.

The database, the session store and the HTTP layer are replaced by
in-memory state, as follows:

- **Collections.** A collection is a sequence of documents held by a class
  (`UserCollection`, `ItemCollection`, `MockDB`). The two store-backed
  collections keep the invariant `Valid()`: unique ids in the lower-case
  hexadecimal spelling the store gives an ObjectId, unique e-mails for
  users, and every stored document admitted by its schema. `MockDB`, like
  data/database.js, checks nothing and has no invariant.
- **Ids.** Casting an id to an ObjectId ignores the case of its hex
  digits, so a lookup accepts any spelling of a stored id.
- **Handlers.** Each handler is a method that returns the status code and
  the JSON body. Its `ensures` states the reply and the new collection for
  every outcome.
- **Sessions.** The session is the stored user id, as `serializeUser`
  keeps it. `req.user` is that id looked up again.
- **Schema validation.** It is a pure function from the request body to
  either the document or the list of failing paths' messages.
  - Setters run first: `trim`; for category the store runs a path's
    setters from the last declared to the first, so the value is trimmed
    and then lower-cased.
  - `maxlength` and `minlength` count UTF-16 code units, JavaScript's
    `length`.
  - A path reports the first of its validators that fails: `required`
    first, then the others in schema order.
- **Prices.** A price is an exact decimal `units / 10^scale`. Its
  `toString()` text is modelled as the shortest plain decimal spelling of
  that value, which is what JavaScript writes for every number from 1e-6 up
  to, but not including, 1e21.
- **Supplied inputs.** Ids, creation times and clocks are parameters. So
  are express-validator's `isEmail` and `normalizeEmail`, which are
  library code.

The registration handler writes `username` and `password`. models/user.js
has neither path and requires `firstName` and `lastName`. Registration is
therefore modelled against its own account table (`AuthServer.accounts`),
exactly as the handler is written, and not against the `User` schema. The
stand-in `User` of data/passport.js and its fallback password
`password123` are modelled as written: the real `User` model defines no
`comparePassword`, so the fallback branch is the one a stored account
takes (`LoginUsesFallbackPassword`).

## Model

| member | source | states |
|---|---|---|
| AuthGuards.RequireAuth | middleware/auth.js:4-12 | passes exactly the authenticated requests; every other request gets 401 'Authentication required. Please log in.' |
| AuthGuards.RequireNoAuth | middleware/auth.js:15-23 | passes exactly the anonymous requests; an authenticated one gets 400 'You are already logged in.' |
| AuthGuards.HandleValidationErrors | middleware/auth.js:26-36 | passes iff the error list is empty; otherwise 400 'Validation failed' carrying that same list |
| AuthGuards.ExactlyOneSessionGuardPasses | middleware/auth.js:4-23 | in every session state exactly one of the two session guards passes |
| Passport.VerifyLocal | data/passport.js:35-64 | a rejection always carries 'Invalid email or password'; a success returns the very user the lookup of the lower-cased e-mail found, and only after its comparator (or, without one, the fallback password) accepted |
| Passport.VerifyOutcomes | data/passport.js:41-63 | the full decision table: a missing user is rejected, a failing lookup or comparison is an error (not a rejection), a found user is accepted iff the password check succeeds |
| Passport.VerifyLowercasesEmail | data/passport.js:41 | submitting the e-mail already lower-cased gives the same verdict |
| Passport.VerifyIgnoresEmailCase | data/passport.js:41 | two e-mails equal up to ASCII case are decided alike |
| Passport.WrongPasswordLooksLikeUnknownUser | data/passport.js:43-56 | a wrong password for an existing user gets exactly the verdict of an unknown e-mail |
| Passport.FallbackPasswordDecides | data/passport.js:49-56 | a user without `comparePassword` is accepted iff the password is 'password123' |
| Passport.SessionKeepsOnlyTheId | data/passport.js:66-77 | two users with the same id deserialize to the same result: only the id is kept |
| Passport.FindAccount | data/passport.js:41-72 | a table-backed `findOne` or `findById` on one field: found only an account of the table with that value; missing iff no account has it; never fails |
| Passport.FindAccountUnique | data/passport.js:41-72 | with that field unique, the lookup of a stored account's value finds exactly that account |
| Passport.PasswordCheck | data/passport.js:49-56 | definition: the user's own comparator if it has one, else equality with the fallback password; its verdicts are stated by VerifyOutcomes and FallbackPasswordDecides |
| Passport.Serialize | data/passport.js:66-68 | definition: the session keeps the user id; stated by SessionKeepsOnlyTheId and SessionRoundTrip |
| Passport.Deserialize | data/passport.js:70-77 | definition: the stored id is looked up again, a missing user and a failing lookup passed on; stated by SessionRoundTrip and MockSessionRoundTrip |
| Passport.SessionRoundTrip | data/passport.js:66-77 | serializing a stored user and deserializing the id against the table gives back that user |
| Passport.MockFindOne | data/passport.js:14-26 | the stand-in `findOne` finds a user iff the e-mail is test@test.com, and then the test user |
| Passport.MockCompare | data/passport.js:22 | the stand-in comparator accepts exactly 'password123' |
| Passport.MockFindById | data/passport.js:27-31 | the stand-in `findById` finds, for every id, a user with that id and without `comparePassword` |
| Passport.MockLogin | data/passport.js:13-59 | against the stand-in store a login succeeds iff the e-mail lower-cases to test@test.com and the password is 'password123', returning the test user |
| Passport.MockSessionRoundTrip | data/passport.js:27-77 | the stand-in round trip keeps the id but does not give back the test user (its comparator is lost) |
| AuthRoutes.Check | routes/auth.js:41-43 | one validator: an error for the field iff the check fails, always with 'Invalid value' |
| AuthRoutes.IsLengthCount | routes/auth.js:41-43 | the length `isLength` measures: at most the number of characters, and exactly that when no U+FE0E or U+FE0F variation selector occurs |
| AuthRoutes.IsLengthCountOfChar | routes/auth.js:41-43 | one character counts one, a U+FE0E or U+FE0F variation selector none |
| AuthRoutes.IsLengthCountConcat | routes/auth.js:41-43 | the count of a concatenation is the sum of its parts' counts |
| AuthRoutes.ChainOfThree | routes/auth.js:40-44 | three one-validator chains record no error iff all pass, an error for a field iff it fails, all 'Invalid value', only those three paths and none twice |
| AuthRoutes.ChainPaths | routes/auth.js:40-44 | chains of at most one error each name only their own fields, each at most once |
| AuthRoutes.RegisterErrors | routes/auth.js:40-44 | no error iff the username's `isLength` count is in [3, 30], the e-mail is valid and the password's count is at least 6; an error for a field iff it fails, all 'Invalid value', no other path and no field twice |
| AuthRoutes.VariationSelectorNotCounted | routes/auth.js:41 | "ab" followed by U+FE0F counts 2, so that username is refused |
| AuthRoutes.Clashes | routes/auth.js:50-52 | definition: some account has the e-mail or the username, the `$or` query; Register answers 409 exactly then |
| AuthRoutes.RegisterKeepsIdentitiesUnique | routes/auth.js:50-55 | adding an account that clashes with no e-mail or username keeps ids, e-mails and usernames unique |
| AuthRoutes.LoginUsesFallbackPassword | data/passport.js:49-51 | a registered account (stored without `comparePassword`) logs in with its stored e-mail iff the password is 'password123'; its own password plays no part |
| AuthRoutes.OAuthFailure | routes/auth.js:205-210 | always 401 'OAuth authentication failed' |
| AuthRoutes.AuthServer.Me | routes/auth.js:128-130 | always 200 with the session user, or none |
| AuthRoutes.SessionUser | routes/auth.js:128-130 | `req.user`: present only as a table account whose id is the session id; absent iff the session is anonymous or no account has that id |
| AuthRoutes.AuthServer.CurrentUser | routes/auth.js:128-130 | definition: SessionUser of the server's table and session |
| AuthRoutes.AuthServer.IsAuthenticated | middleware/auth.js:5-16 | definition: `req.isAuthenticated()` holds iff the session resolves to a user; the guards are stated on it |
| AuthRoutes.AuthServer.Register | routes/auth.js:37-70 | authenticated: 400 and nothing changes; validation errors: 400 with them and nothing changes; e-mail or username taken: 409 and nothing changes; otherwise exactly one account appended with the normalized e-mail, the session becomes it, 201 |
| AuthRoutes.AuthServer.Login | routes/auth.js:91-98 | authenticated: 400; a missing credential: 400; otherwise the verify callback decides: 200 with the session set to the user, 401, or 500; the table never changes |
| AuthRoutes.AuthServer.Logout | routes/auth.js:111-115 | always 200 'Logged out' and the session becomes anonymous, whatever it was |
| EmailPattern.NameReShape | models/user.js:21 | the clause `\w+([.-]?\w+)*` accepts exactly the non-empty strings of word characters and single separators that start and end with a word character |
| EmailPattern.GroupsReShape | models/user.js:21 | the clause `([.-]?\w+)*` accepts exactly the empty string and the strings of word characters and separators with no two separators in a row that end in a word character |
| EmailPattern.DomainReShape | models/user.js:21 | the domain clause accepts exactly the name-shaped strings that end in a dot followed by 2 or 3 word characters |
| EmailPattern.MatchesEmailShape | models/user.js:20-23 | the whole pattern accepts exactly a local part, '@', and a domain of those shapes |
| EmailPattern.MatchesEmail | models/user.js:21 | definition: the regular expression as written, a `\w+([.-]?\w+)*` part, '@', and the domain clause; its meaning is MatchesEmailShape |
| EmailPattern.TestAddressMatches | models/user.js:20-23 | test@test.com matches |
| EmailPattern.ShortSuffixRefused | models/user.js:20-23 | a@b.c does not match: its suffix is one character |
| Text.Trim | models/user.js:7 | the result has no white space at either end and is no longer than the input |
| Text.TrimStartSpec | models/user.js:7 | the leading white space is removed: the result is a suffix after white space only, and starts with a non-space |
| Text.TrimEndSpec | models/user.js:7 | the trailing white space is removed: the result is a prefix before white space only, and ends with a non-space |
| Text.TrimIsPaddedInfix | models/user.js:7 | the trimmed string is the infix of the input with only white space around it |
| Text.TrimOfTrimmed | models/user.js:7 | a string without white space at its ends is unchanged by trim |
| Text.TrimIdempotent | models/user.js:7 | trim is idempotent |
| Text.Utf16Length | models/user.js:8 | JavaScript's `length`: between one and two units per character, exactly one per character when none lies above U+FFFF and exactly two per character when all do |
| Text.Utf16LengthOfChar | models/user.js:8 | one character is one code unit, or two above U+FFFF |
| Text.Utf16LengthConcat | models/user.js:8 | the code units of a concatenation are the sum of its parts' |
| Text.ToLower | data/passport.js:41 | same length, each ASCII upper-case letter mapped to its lower-case letter, every other character kept |
| Text.ToLowerIsLower | models/item.js:43 | lower-casing leaves no upper-case letter and leaves lower-case strings alone |
| Text.ToLowerIdempotent | data/passport.js:41 | lower-casing is idempotent |
| Text.ToLowerKeepsTrimmed | models/item.js:36-45 | lower-casing a trimmed string keeps it trimmed |
| SchemaRules.Required | models/user.js:6 | fails iff the value is empty, with the given message |
| SchemaRules.MaxLength | models/user.js:8 | fails iff the value has more UTF-16 code units than the bound, with the given message |
| SchemaRules.MinLength | models/item.js:9 | fails iff the value has fewer UTF-16 code units than the bound, with the given message |
| SchemaRules.OneOf | models/user.js:27 | fails iff the value is not listed, with the given message |
| SchemaRules.Rule | models/item.js:10-15 | a custom validator fails iff its test fails, with its message |
| SchemaRules.Messages | models/user.js:3-33 | the messages of the failing paths: none iff every path passes, a message present iff some path reports it, no more than the paths, and none twice when the paths report distinct messages |
| SchemaRules.MessagesOfFour | models/item.js:3-49 | the same facts for a document of four paths |
| UserSchema.FirstNameError | models/user.js:4-9 | no error iff the trimmed value has 1 to 50 UTF-16 code units; empty gives 'Please add a first name', too long gives 'First name cannot be more than 50 characters' |
| UserSchema.LastNameError | models/user.js:10-15 | the same for lastName with its messages |
| UserSchema.EmailError | models/user.js:16-24 | no error iff the pattern matches; empty gives 'Please add an email', otherwise 'Please add a valid email' |
| UserSchema.RoleError | models/user.js:25-29 | no error iff the role is customer, admin or vendor; otherwise the store's enum message for the value |
| UserSchema.PathMessagesDiffer | models/user.js:3-33 | the four paths never report the same message |
| UserSchema.UserErrors | models/user.js:3-33 | no messages iff every path passes; a message is present iff it is the message of a failing path; at most four, none twice |
| UserSchema.FromInput | models/user.js:3-33 | first and last name are the trims of the supplied values (empty when absent), e-mail as given, role `customer` and isActive `true` unless supplied |
| UserSchema.ValidateNewUser | models/user.js:3-33 | accepted: the set and defaulted document, which the schema admits; refused: the non-empty message list of that document |
| UserSchema.FromInputOfTrimmed | models/user.js:3-33 | a document with trimmed names is unchanged by the setters and defaults |
| UserSchema.ValidUserRoundTrip | models/user.js:3-33 | submitting a valid document's own fields creates exactly that document |
| UserSchema.BlankFirstNameRefused | models/user.js:4-9 | a first name of white space only, or none, is refused with 'Please add a first name' |
| UserSchema.AstralFirstNameTooLong | models/user.js:8 | a first name of more than 25 characters above U+FFFF exceeds 50 code units and gets 'First name cannot be more than 50 characters' |
| UserSchema.ApplyPatch | controllers/userController.js:103-109 | each supplied path is set through its setter; every other path keeps its value |
| UserSchema.PatchErrors | controllers/userController.js:103-111 | no messages iff every supplied path passes its validators |
| UserSchema.PatchReportsOnlySuppliedPaths | controllers/userController.js:103-111 | saving a patched valid document reports exactly the failures of the supplied paths |
| UserSchema.PatchKeepsValid | controllers/userController.js:103-111 | a patch none of whose paths fails keeps a valid document valid |
| UserSchema.EmptyPatchChangesNothing | controllers/userController.js:103-109 | a body that supplies no path leaves the document unchanged |
| Price.Normalize | models/item.js:31 | drops trailing fraction zeros: no shorter scale, and none left |
| Price.NormalizeKeepsValue | models/item.js:31 | normalizing keeps the numeric value |
| Price.NormalizeKeepsSign | models/item.js:31 | normalizing keeps the sign |
| Price.Digits | models/item.js:31 | the decimal digits of n: their value is n, with no leading zero |
| Price.PadDigits | models/item.js:31 | exactly w decimal digits whose value is n mod 10^w |
| Price.DigitsValue | models/item.js:31 | definition: the number a string of decimal digits spells, the reading that Digits and PadDigits are stated against |
| Price.DecimalTextPattern | models/item.js:29-33 | a spelling matches `^\d+(\.\d{1,2})?$` iff the number is not negative and has at most two fraction digits |
| Price.NumberTextPattern | models/item.js:29-33 | the plain spelling of `v.toString()` matches iff the value is not negative and needs at most two fraction digits |
| Price.WholeCentsMatch | models/item.js:29-33 | every non-negative amount with at most two fraction digits matches |
| Price.ThirdDecimalPlaceRefused | models/item.js:29-33 | a value with a non-zero third or later fraction digit does not match |
| Price.NumberText | models/item.js:31 | definition: `v.toString()` as the shortest plain spelling of the value, JavaScript's spelling from 1e-6 up to 1e21; stated by NumberTextPattern |
| Price.PricePattern | models/item.js:31 | definition: `^\d+(\.\d{1,2})?$` as written; its meaning is DecimalTextPattern |
| ItemSchema.NameError | models/item.js:4-16 | no error iff the trimmed name has 2 to 50 UTF-16 code units, all letters, digits, white space, '-' or '_'; each failure has its message, in validator order |
| ItemSchema.DescriptionError | models/item.js:17-23 | no error iff the trimmed description has 10 to 500 UTF-16 code units; each failure has its message |
| ItemSchema.PriceError | models/item.js:24-35 | no error iff a price is given, lies in [0, 100000] and needs at most two fraction digits; missing, negative, too high and badly formatted each have their messages |
| ItemSchema.SetCategory | models/item.js:36-45 | the category trimmed and then lower-cased, the setters' run order; the result is lower-case with no white space at its ends |
| ItemSchema.CategoryError | models/item.js:36-45 | no error iff the set category is electronics, clothing, books, home or other; empty gives 'Please add a category', otherwise the enum message |
| ItemSchema.SetCategoryOfSet | models/item.js:36-45 | the setters leave a lower-case trimmed string unchanged |
| ItemSchema.CategoriesAreSet | models/item.js:36-45 | each listed category is unchanged by the setters |
| ItemSchema.CategoryCaseAndPaddingIgnored | models/item.js:36-45 | a category equal to a listed one up to ASCII case and surrounding white space is accepted |
| ItemSchema.ItemErrors | models/item.js:3-49 | no messages iff each of name, description, price and category passes; a message is present iff it is the message of a failing path; at most four, none twice |
| ItemSchema.ValidateNewItem | models/item.js:3-49 | accepted iff there are no messages, and then a document the schema admits whose name and description are the trimmed inputs, category the set one, the price as given and inStock `true` unless supplied; refused: exactly the messages |
| ItemSchema.SettersKeepValidItem | models/item.js:3-49 | the setters leave a valid item's string paths unchanged |
| ItemSchema.ValidItemPasses | models/item.js:3-49 | a valid item's own fields pass every validator |
| ItemSchema.ValidItemRoundTrip | models/item.js:3-49 | submitting a valid item's own fields creates exactly that item |
| ItemSchema.ApplyPatch | controllers/itemsController.js:42 | each supplied path is set through its setters; every other path keeps its value |
| ItemSchema.PatchErrors | controllers/itemsController.js:42 | no messages iff every supplied path passes its validators |
| ItemSchema.PatchErrorsAreSuppliedFailures | controllers/itemsController.js:42-46 | a message is reported iff it is the message of a supplied path that fails |
| ItemSchema.PatchErrorsDistinct | controllers/itemsController.js:42-46 | no message is reported twice |
| ItemSchema.PatchKeepsValid | controllers/itemsController.js:42 | an update that passes its validators keeps a valid item valid |
| Collection.IsObjectId | controllers/userController.js:28-46 | definition: 24 hexadecimal digits in either case, the shape the ObjectId cast accepts |
| Collection.IsStoredId | controllers/userController.js:61 | definition: an ObjectId spelled as the store returns it, in lower case |
| Collection.CastIgnoresCase | controllers/userController.js:28-46 | lower-casing an id keeps it castable and makes it a stored spelling |
| Collection.Insert | controllers/userController.js:8 | inserting into a newest-first sequence keeps it newest first and adds exactly that element |
| Collection.SortNewestFirst | controllers/userController.js:8 | the result is ordered by creation time, newest first, and is a permutation of the input |
| Collection.IndexOf | controllers/userController.js:28 | the first position with the id, or none iff no element has it |
| Collection.FindById | controllers/userController.js:28-46 | a cast error iff the id is not ObjectId-shaped (hex digits in either case); not found iff no element has its lower-case spelling; otherwise the first position holding that spelling |
| Collection.FindByIdIgnoresCase | controllers/userController.js:28-46 | two spellings of an id equal up to case are looked up alike |
| Collection.StoredIdIsFound | controllers/userController.js:28-46 | with unique keys, any spelling of a stored element's id finds exactly its position |
| Collection.IndexOfUnique | controllers/userController.js:28 | with unique ids, the lookup of a stored element's id finds exactly its position |
| Collection.AppendedIsFound | controllers/userController.js:61 | an element appended with a new stored id is found at the end, under any spelling of that id |
| Collection.RemoveAt | controllers/userController.js:161 | one element fewer: the elements before the position stay, those after shift down by one, and exactly that element leaves the multiset |
| Collection.RemoveAtKeepsUnique | controllers/userController.js:161 | removing an element keeps the keys unique and its key is gone |
| Collection.RemovedIsNotFound | controllers/userController.js:161 | once removed, an element's id is not found, under any spelling |
| Collection.ReplaceKeepsUnique | controllers/userController.js:111 | replacing an element by one whose key no other element has keeps the keys unique |
| Collection.AppendKeepsUnique | controllers/userController.js:61 | appending an element with a new key keeps the keys unique |
| UserController.ReplaceKeepsValidUsers | controllers/userController.js:103-117 | a patched document that passes validation and keeps its e-mail unique can replace the original, and the collection stays valid |
| UserController.PatchedUserIsValid | controllers/userController.js:103-111 | a patched valid document reporting no message is admitted by the schema |
| UserController.UserCollection.GetUsers | controllers/userController.js:6-21 | every user, newest first, a permutation of the collection, with `count` the number returned |
| UserController.UserCollection.GetUser | controllers/userController.js:26-54 | 400 'Invalid user ID' for a malformed id, 404 'User not found' when no user has the id, whatever the case of its hex digits, otherwise 200 with that user |
| UserController.UserCollection.CreateUser | controllers/userController.js:59-87 | refused: 400 'Validation Error' with the messages; e-mail taken: 400 'Email already exists'; both leave the collection unchanged; otherwise exactly the new document appended and 201 with it; the collection stays valid |
| UserController.UserCollection.UpdateUser | controllers/userController.js:92-145 | 400 for a malformed id, 404 for an absent one, 400 with the messages, 400 for a taken e-mail (all with no change), otherwise only the fetched document is replaced, by its patched form, and 200 with it; the collection stays valid |
| UserController.UserCollection.DeleteUser | controllers/userController.js:150-181 | 400 for a malformed id, 404 for an absent one (both with no change), otherwise exactly that document removed and 200 'User deleted successfully' |
| UserController.CreatedUserIsFound | controllers/userController.js:59-65 | a created user is found under any spelling of its id |
| UserController.DeletedUserIsGone | controllers/userController.js:150-167 | a deleted user is not found any more, under any spelling of its id |
| UserController.EmptyUpdateKeepsUser | controllers/userController.js:103-111 | an update that supplies nothing saves the document unchanged |
| UserController.UpdateRefusedOnlyForSuppliedPaths | controllers/userController.js:103-125 | in a valid collection an update is refused for validation with exactly the messages of the supplied paths |
| ItemsController.ReplaceKeepsValidItems | controllers/itemsController.js:42-44 | an update passing its validators can replace the item, and the collection stays valid |
| ItemsController.ItemCollection.GetItems | controllers/itemsController.js:4-12 | every item, newest first, a permutation of the collection, with `count` the number returned |
| ItemsController.ItemCollection.GetItem | controllers/itemsController.js:15-25 | 400 'Invalid ID format' for a malformed id, 404 'Item not found' when no item has the id, whatever the case of its hex digits, otherwise 200 with the item |
| ItemsController.ItemCollection.CreateItem | controllers/itemsController.js:28-37 | refused: 400 'Validation Error' with the messages and no change; otherwise exactly the new document appended and 201 with it; the collection stays valid |
| ItemsController.ItemCollection.UpdateItem | controllers/itemsController.js:40-51 | 400 for a malformed id, then 400 with exactly the messages of the failing supplied paths (PatchErrorsAreSuppliedFailures), then 404 for an absent id (all with no change), otherwise only that item replaced by its updated form and 200 with the updated item |
| ItemsController.ItemCollection.DeleteItem | controllers/itemsController.js:54-65 | 400 for a malformed id, 404 for an absent one (both with no change), otherwise exactly that item removed and 200 'Item deleted'; the collection stays valid |
| ItemsController.CreatedItemIsFound | controllers/itemsController.js:30-31 | a created item is found under any spelling of its id and holds a document the schema admits |
| ItemsController.DeletedItemIsGone | controllers/itemsController.js:56-59 | a deleted item is not found any more, under any spelling of its id |
| ItemsController.StockOnlyUpdateAccepted | controllers/itemsController.js:42 | an update of inStock alone always passes and changes only inStock |
| MockDatabase.Field | data/database.js:20-27 | `_id` reads the record's id; any other field is present iff it was copied, with its value |
| MockDatabase.MakeRecord | data/database.js:20-27 | the record's `_id` is the caller's `_id` if given, else the generated one; `createdAt` is now; every other supplied field is carried with its value, and no field that was not supplied appears |
| MockDatabase.ComparePassword | data/database.js:24-26 | true iff the record's stored password is exactly the given one |
| MockDatabase.Matches | data/database.js:33-35 | definition: a record matches when its e-mail equals the query's or its username equals the query's, an absent field equal to an absent one; stated by MissingUsernamesMatch, FindUser and FindUserById |
| MockDatabase.CreatedPasswordCompares | data/database.js:19-30 | a created record compares true exactly to the password it was created with |
| MockDatabase.MissingUsernamesMatch | data/database.js:32-36 | a query without a username matches every record without one, whatever its e-mail |
| MockDatabase.MockDB.CreateUser | data/database.js:19-30 | exactly one record, built from the fields, is appended; earlier records are unchanged |
| MockDatabase.MockDB.FindUser | data/database.js:32-36 | nothing iff no record matches; otherwise the first matching record |
| MockDatabase.MockDB.FindUserById | data/database.js:38-40 | nothing iff no record has the id; otherwise the first record that has it |

## Left out

- Logging (`console.log`, `console.error`) and the 500 replies of the controllers' `catch` blocks: they report failures of the store or network, and the model's collections have none.
- The global error handler of server.js:135-142 is modelled only where an error reaches it in the model: a failing lookup or comparison in login, which AuthServer.Login answers with its 500 'Internal Server Error'. The reply's `error` field (the error message outside production) is not modelled.
- `connectDB`: a network connection and `process.exit`.
- server.js, swagger.js and routes/items.js: framework wiring, with no logic of their own.
- The OAuth start and callback routes and `/oauth-status`: they redirect to external providers or echo environment variables.
- Concurrency: the race between the uniqueness lookup and the save in registration and in the user controller.
- TrimStart and TrimEnd: `trim` is modelled on code points (Dafny characters), not on UTF-16 code units.
- Text.ToLower: only ASCII letters are lower-cased. `toLowerCase()` also maps other letters.
- AuthRoutes.AuthServer.Register: `isEmail` and `normalizeEmail` are parameters. Their own rules are not modelled.
- AuthRoutes.AuthServer.Register: the handler against the `User` schema is not modelled. That schema requires `firstName` and `lastName` and has no `username` or `password` path; registration is modelled against its own account table, as the handler is written.
- Collection.IsObjectId: only the 24-hex-digit form of an id is castable. The 12-byte string form and `ObjectId` values are not modelled.
- UserController.UserCollection.CreateUser: the fresh id and creation time are parameters, required to be new ones. A body that supplies its own `_id` or `createdAt` is not modelled: the store would keep them, and a supplied `_id` that is already taken would fail with a duplicate-key error (400 'Email already exists' in this handler); the model always uses the fresh id and the clock.
- ItemsController.ItemCollection.CreateItem: the same for items; a body-supplied `_id` or `createdAt` is not modelled, and a taken `_id` (a 500 there) is not captured.
- `updatedAt` and the other timestamp bookkeeping of `timestamps: true`: not modelled.
- Price.NumberText: JavaScript's exponent spellings (`1e+21` for 1e21 and above, `1e-7` for non-zero values below 1e-6) are not modelled; the plain spelling is used for every value. The verdicts of PriceError are the same either way: the pattern is consulted only for prices from 0 to 100000, where `toString()` is plain or, below 1e-6, fails the pattern in both spellings (more than two fraction digits).
- Type casting of request values: JSON values of the wrong type, `null`, prices written as strings and exponent number formats are not modelled. A price is an exact decimal.
- ItemsController.ItemCollection.CreateItem: a validation failure carries the failing paths' messages. The text of `error.message` that joins them is not built.
- ItemsController.ItemCollection.UpdateItem: the same for updates.
- UserSchema.UserErrors: the messages come in schema path order. The store's own order of `error.errors` is not modelled.
- UserController.UserCollection.DeleteUser: the reply's `data: {}` is modelled as no data.
- MockDatabase.MakeRecord: field values are strings. The record's `comparePassword` function is modelled as the separate ComparePassword.
- MockDatabase.MockDB.CreateUser: the `Date.now()` id and the creation date are parameters.

# Sneaker shop backend: basket and identity model

A Dafny model of the state-changing core of a small Flask/SQLAlchemy shop
backend (`main.py`). It covers:

- the per-user shopping basket (`BasketItem` rows) and its five handlers:
  list, add with merge on (user, product, size), update, remove and clear;
- the user registry (`User` rows) and its handlers: register, login,
  profile read and profile update, with the public user view;
- the read-only product catalog (`Sneaker` rows): listing and lookup by id.

Each handler is a pure function from the table(s) and the request to an
outcome and the table afterwards. The relational store is a `map` from row
id to row. Two store rules are modelled explicitly:

- `.first()` on a filter yields the matching row with the least id (a rowid scan);
- a new row gets one more than the largest id in use, or 1 in an empty table
  (SQLite's rule for an `INTEGER PRIMARY KEY` without `AUTOINCREMENT`).

The authenticated caller is a user id parameter. Password hashing is a
function parameter `hash`, and password checking is a predicate parameter
`verify`. Python truthiness is modelled as follows:

- `not data.get('size')` treats a missing field, `null` and `0`/`0.0` as absent.
- `not data.get('email')` treats a missing field, `null` and `""` as absent.

The basket operations are specified against an abstract view:
`Basket.Holding(lines, key)` is the quantity that the merge lookup finds
under a (user, product, size) key.

Files: `common.dfy` (options, errors, row-id rules, table scan),
`catalog.dfy`, `basket.dfy`, `basket_laws.dfy`, `identity.dfy`,
`identity_laws.dfy`.

### An expectation the code does not enforce

A basket line's quantity defaults to 1 (main.py:80), and one would expect a
stored quantity to stay at least 1. The code does not enforce that.
`add_to_basket` takes `quantity` from the request unchecked (main.py:296 and
main.py:303). An add with quantity 0 or below therefore stores a
non-positive line, or lowers an existing one. The model follows the code:

- `BasketLaws.AddAcceptsNonPositiveQuantity` exhibits such an add.
- `BasketLaws.AddPreservesPositive` proves that quantities stay positive when the added quantity is at least 1.
- `BasketLaws.UpdatePreservesPositive` proves that update never stores a non-positive quantity.

## Model

| member | source | states |
|---|---|---|
| Common.NextId | main.py:76 | a newly inserted row's id is not in use, is greater than every id in use and directly follows the largest one (so a deleted top id is handed out again); an empty table gives id 1 |
| Common.FalsyInt | main.py:279 | a numeric field fails the truthiness check exactly when reading it with default 0 gives 0: missing, null and 0 are all rejected |
| Common.FalsyString | main.py:151 | a text field fails the truthiness check exactly when reading it with default "" gives "": missing, null and the empty string are all rejected |
| Common.Listing | main.py:250-251 | a full-table scan returns every row exactly once, each paired with its own id, in strictly increasing id order |
| Catalog.ListProducts | main.py:247-251 | the catalog listing contains every product exactly once with its current content, in id order |
| Catalog.GetProduct | main.py:253-259 | lookup succeeds exactly when the id is in the catalog and then returns that product; otherwise it is a not-found error, never a success without a product |
| Basket.FindMerge | main.py:288-292 | the merge lookup finds nothing exactly when no line has the key; otherwise it finds a line with that key whose id is the least among such lines |
| Basket.Add | main.py:271-308 | a missing or falsy product id or size gives a validation error; an unknown product gives not-found; otherwise the add succeeds; a failed add leaves the table unchanged and a successful one removes no line |
| Basket.Update | main.py:310-329 | it succeeds exactly when the line exists and belongs to the caller, else not-found with the table unchanged; quantity <= 0 deletes the line; quantity > 0 sets exactly that quantity on the same key; no quantity changes nothing; every other line is untouched |
| Basket.Remove | main.py:331-343 | it succeeds exactly when the line exists and belongs to the caller, else not-found with the table unchanged; success deletes exactly that id and keeps every other line as it was |
| Basket.Clear | main.py:345-353 | it always succeeds; afterwards a line remains exactly when it belonged to another user, unchanged |
| Basket.ViewOf | main.py:84-94 | a line's view carries the line's fields and the product's current catalog entry, or no product when the id is no longer in the catalog |
| Basket.List | main.py:263-269 | the listing holds exactly the caller's lines, each once, in id order, each as its view |
| BasketLaws.AddAccumulates | main.py:288-305 | a successful add raises the quantity held under (caller, product, size) by the added quantity (default 1), starting from nothing when no line has that key; the quantity under every other key is unchanged |
| BasketLaws.AddMergesIntoFirstMatch | main.py:288-296 | when a line with the key exists, add creates no line: the first matching line's quantity grows by the added quantity and every other line is unchanged |
| BasketLaws.AddInsertsFreshLine | main.py:297-305 | when no line has the key, add inserts exactly one line under a fresh id above all ids in use, holding the added quantity; every other line is unchanged |
| BasketLaws.AddPreservesUniqueKeys | main.py:288-305 | starting from at most one line per (user, product, size), add keeps it so |
| BasketLaws.AddPreservesPositive | main.py:296-303 | with an added quantity of at least 1, add keeps every line's quantity positive |
| BasketLaws.AddAcceptsNonPositiveQuantity | main.py:296-303 | the added quantity is not validated: adding quantity -2 succeeds and stores a line with a non-positive quantity |
| BasketLaws.AddNotFoundAgreesWithCatalog | main.py:283-285 | with product and size present, add answers not-found exactly when the catalog lookup of that product does |
| BasketLaws.UpdateSetsHolding | main.py:321-326 | under unique keys, update with quantity > 0 makes the key hold exactly that quantity (replace, not increment); quantity <= 0 leaves the key holding nothing; no quantity keeps it; every other key is unaffected |
| BasketLaws.UpdateIdempotent | main.py:321-326 | repeating an update leaves the table as one update did |
| BasketLaws.UpdatePreservesUniqueKeys | main.py:317-326 | update keeps at most one line per (user, product, size) |
| BasketLaws.UpdatePreservesPositive | main.py:321-326 | update never leaves a non-positive quantity behind |
| BasketLaws.UpdateToNonPositiveHidesLine | main.py:322-324 | after an update to quantity <= 0 the line no longer appears in the caller's listing |
| BasketLaws.RemoveIsUpdateToZero | main.py:331-343 | remove has the same outcome and resulting table as update with quantity 0 |
| BasketLaws.RemoveDropsHolding | main.py:337-341 | under unique keys, a successful remove leaves the line's key holding nothing and every other key unchanged |
| BasketLaws.ClearEmptiesOnlyCaller | main.py:351 | after clear the caller holds nothing under any key and every other user holds exactly what they held |
| BasketLaws.ClearIdempotent | main.py:351 | clearing twice is clearing once |
| BasketLaws.ClearThenListEmpty | main.py:345-353 | clear succeeds even on an empty basket, and the caller's listing is empty afterwards |
| BasketLaws.ApplyIsolates | main.py:271-353 | no add, update, remove or clear by one user changes, adds or removes a line of another user |
| BasketLaws.RunPreservesUniqueKeys | main.py:271-353 | any sequence of basket requests by any users keeps the merge key unique |
| BasketLaws.RunIsolates | main.py:271-353 | a user who makes none of a sequence of basket requests finds their lines exactly as before |
| Identity.View | main.py:40-49 | the public user view carries the id, email, names, phone and admin flag of the row, each equal to its column, and no password hash |
| Identity.FindByEmail | main.py:191 | the email lookup finds nothing exactly when no user has that email; otherwise it finds the least-id user with it |
| Identity.Register | main.py:145-179 | a missing or empty email or password gives a validation error; a taken email gives a conflict; otherwise it succeeds; a failure leaves the registry unchanged; a success stores exactly one new user under a fresh id, with the hashed password, and returns that user's public view |
| Identity.Login | main.py:181-204 | a missing field gives a validation error; an unknown email or a password that does not verify gives the same auth error; it succeeds exactly when both fields are present, the email is registered and the first user with it has a hash that verifies the password, and then returns that user's public view |
| Identity.GetProfile | main.py:206-216 | it returns the user's public view exactly when the id exists, else not-found |
| Identity.UpdateProfile | main.py:218-243 | an unknown id gives not-found and no change; otherwise only the caller's row changes; email, password hash and admin flag are kept; each of first name, last name and phone takes the patch's value when present (null included) and is kept when absent |
| IdentityLaws.ViewIgnoresHash | main.py:40-49 | the public user view does not depend on the password hash |
| IdentityLaws.UniqueEmailsAtMostOne | main.py:27 | with unique emails, at most one user has a given email |
| IdentityLaws.RegisterPreservesUniqueEmails | main.py:154-170 | registration keeps emails unique across users |
| IdentityLaws.RegisterTwiceConflicts | main.py:154-156 | registering the same email again is a conflict that leaves the registry unchanged, and exactly one user holds that email |
| IdentityLaws.RegisterThenProfile | main.py:160-178 | reading the profile of a newly registered id returns the registration's view, with the registered email |
| IdentityLaws.RegisterThenLogin | main.py:181-204 | after registration, logging in with the same email and a password that verifies against its own hash returns the new user's view |
| IdentityLaws.LoginFailuresIndistinguishable | main.py:194-195 | login with an unknown email and login with a known email and a wrong password give identical answers |
| IdentityLaws.UpdateProfilePreservesUniqueEmails | main.py:230-235 | a profile update keeps emails unique |
| IdentityLaws.UpdateProfileIdempotent | main.py:230-235 | applying the same patch twice has the same outcome and resulting registry as applying it once |
| IdentityLaws.UpdateThenProfile | main.py:238-243 | the profile read after an update equals what the update returned |
| IdentityLaws.RunPreservesUniqueEmails | main.py:145-243 | any sequence of registrations and profile updates keeps emails unique |

## Left out

- Orders and order lines (main.py:52-71): no handler creates or reads them.
- Token issuance and checking (`create_access_token`, `@jwt_required`): the caller is a user id parameter, and register/login return the user view without a token.
- Password hashing and checking (bcrypt): these are the parameters `hash` and `verify`. The random salt of a real hash is hidden inside the supplied function.
- Flask routing, JSON encoding and HTTP status codes: results are the error enum `Validation | NotFound | Conflict | Auth` plus the success value.
- Request fields of unexpected JSON types: the model takes numbers as `int` and text as `string`. The source fails with a server error on these. Examples are a null quantity on an add that merges into an existing line (main.py:296), a null quantity on update (main.py:322), and a body that is not a JSON object. A null quantity on an add that inserts a new line gets the column default 1, as a missing one does.
- Timestamps (`created_at`, `added_at`) and their ISO formatting: they are clock reads.
- Float columns: product price and product size. A basket line's size is an integer code compared only for equality, with 0 standing for the falsy 0.0.
- Column length limits such as `String(120)`: SQLite does not enforce them.
- The 64-bit limit on row ids: `Common.NextId` is unbounded.
- Basket.Add: does not model the 64-bit width of stored integers. The database driver rejects an integer of 2^63 or more with a server error and no change. That covers a product id at the lookup (main.py:283), a quantity at the insert (main.py:303), and a merged sum at the increment (main.py:296). The model's unbounded `int` answers not-found or success instead.
- Basket.Update: does not model the 64-bit width either. An update to a quantity of 2^63 or more (main.py:326) is a server error in the source and a success in the model.
- Concurrency: two simultaneous adds of the same key can both insert a line. The sequential model cannot show that race.
- Process bootstrap, table creation, admin and catalog seeding, CORS and configuration (main.py:1-21, main.py:356-722).
- BasketLaws.UpdateSetsHolding: stated only for tables with unique merge keys. With duplicate lines, which only the add race can create, deleting one line can expose another line with the same key.
- BasketLaws.RemoveDropsHolding: stated only for tables with unique merge keys, for the same reason.

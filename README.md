# Digital menu management: a verified model of the server routers

This project models the server side of a restaurant digital-menu application in
Dafny and proves properties of the model. Restaurant owners sign in with a
six-digit code sent by email, then manage their restaurants' categories and dishes.
Dish images go through an upload endpoint.

The modelled surface:

- **Authentication router** (`auth.dfy`). `sendCode` issues a code; `verifyCode`
  consumes one. `register` and `login` check a code and issue a session. `me`
  returns the caller's profile and `updateProfile` changes it. Over the
  verification-code and user tables.
- **Category router** (`category.dfy`). `create`, `getByRestaurant`, `update` and
  `delete`. Every call checks that the caller owns the restaurant. A parent
  category must belong to the same restaurant.
- **Dish router** (`dish.dfy`). `create`, `getByRestaurant`, `getById`, `update` and
  `delete`, over the dish table and the dish-category link table. Listed category
  ids are checked with a count: the count of matching categories must equal the
  length of the list.
- **Upload endpoint** (`upload.dfy`, with `base64.dfy`). It checks presence, then
  type, then size. With a blob-store token it stores the file. Without one it
  answers with a `data:` URL carrying the file in base64 (section 4 of RFC 4648).

The store (`store.dfy`) is one class, `Db`. Each table is a field, and the rows
of each table are kept in insertion order, so "find first" means the first
match. A monotone clock `now` stamps expiry and creation times. `Valid()` holds
these invariants, and every procedure preserves them:

- one code row per email;
- unique user ids and unique user emails;
- unique category ids and unique dish ids;
- every category and dish points at an existing restaurant;
- creation times are ordered and never in the future.

The router procedures are methods over a `Db`. Each method's frame names exactly
the tables it may write. Each method's postcondition gives the new tables as
functions of the old ones, the error raised at each check, and the order of the
checks. Errors are the datatype `Common.Error`, with one constructor per distinct
(code, message) pair the routers throw. A pair thrown at several places (an
invalid code in `verifyCode`, `register` and `login`, say) is one constructor.
`Code()` gives its tRPC code and `Message()` its exact message.

Two behaviours of the code are worth stating outright:

- The generated code is `Math.floor(100000 + Math.random() * 900000)`, so it lies
  in 100000 to 999999 and never has a leading zero. No code below 100000 is ever
  issued.
- `register` checks the verification code first. An invalid code is always
  UNAUTHORIZED, even when the email is already registered. CONFLICT is raised
  only for a valid code and a valid country.

## Model

| member | source | states |
|---|---|---|
| Common.FirstIndex | src/server/api/routers/auth.ts:68-76 | a `findFirst`/`findUnique` over a table in insertion order returns the position of the first row satisfying the filter, none exactly when no row does |
| Common.ApplyPatch | src/server/api/routers/dish.ts:217-221 | a field sent as undefined keeps its value, null clears it, and any other value replaces it |
| Common.ErrorsDistinct | src/server/api/routers/auth.ts:79-82 | no two errors share both their tRPC code and their message, so each error the routers throw is identified by what the client receives |
| Store.FindUserByEmail | src/server/api/routers/auth.ts:130-132 | `user.findUnique` by email returns a user row with that email, none exactly when no user has it |
| Store.FindUserById | src/server/auth.ts:40-48 | `user.findUnique` by id returns a user row with that id, none exactly when no user has it |
| Store.FindCategory | src/server/api/routers/category.ts:106-111 | `category.findFirst` by id returns the first category with that id, none exactly when no category has it |
| Store.FindDish | src/server/api/routers/dish.ts:120-130 | `dish.findFirst` by id returns the first dish with that id, none exactly when no dish has it |
| Store.Db.constructor | src/server/api/routers/auth.ts:28-40 | an empty store over a given restaurant table satisfies `Valid()`: one code per email, unique user ids and emails, unique category and dish ids, rows whose restaurants exist, creation order |
| Store.Db.Tick | src/server/api/routers/auth.ts:26 | the clock read by `Date.now()` and `new Date()` only moves forward, and advancing it keeps `Valid()` |
| Decimal.ToDecimal | src/server/api/routers/auth.ts:14 | `toString()` of a non-negative integer below 10^21 gives non-empty decimal digits that denote it, with a leading zero only for 0 |
| Decimal.DecimalLength | src/server/api/routers/auth.ts:14 | a number in [10^k, 10^(k+1)) is rendered with exactly k+1 characters |
| AuthRouter.GenerateCode | src/server/api/routers/auth.ts:13-15 | the code is six decimal digits with no leading zero, denoting 100000 + the random offset, within 100000 to 999999 |
| AuthRouter.FindCode | src/server/api/routers/auth.ts:68-76 | the lookup returns the first row with that email and code whose expiry is strictly after now; none exactly when no row is live |
| AuthRouter.RowsFor | src/server/api/routers/auth.ts:29-31 | the rows of one email: a row is kept iff it is in the table with that email |
| AuthRouter.WithoutEmail | src/server/api/routers/auth.ts:29-31 | `deleteMany` by email keeps a row iff it has another email |
| AuthRouter.ReplaceCode | src/server/api/routers/auth.ts:28-40 | after `sendCode` the table holds a row iff it is an old row of another email or the new row, and the new row is last |
| AuthRouter.RowsForAppend | src/server/api/routers/auth.ts:28-40 | the rows of an email in a concatenation are the rows from each part, in order |
| AuthRouter.RowsForWithout | src/server/api/routers/auth.ts:28-31 | after deleting an email's rows it has none, and every other email keeps its rows |
| AuthRouter.ReplaceCodeRows | src/server/api/routers/auth.ts:26-40 | after `sendCode` the email has exactly one row, the new one; every other email's rows are unchanged |
| AuthRouter.ReplaceCodeWindow | src/server/api/routers/auth.ts:26-40 | after `sendCode` a lookup succeeds iff it uses the new code before now + 600000 ms; older codes of the email no longer work |
| AuthRouter.WithoutEmailKeepsOne | src/server/api/routers/auth.ts:29-31 | deleting an email's rows keeps at most one row per email |
| AuthRouter.ReplaceCodeKeepsOne | src/server/api/routers/auth.ts:28-40 | `sendCode` keeps at most one row per email |
| AuthRouter.RemoveKeepsOne | src/server/api/routers/auth.ts:85-88 | deleting a used code keeps at most one row per email |
| AuthRouter.ConsumedCodeIsGone | src/server/api/routers/auth.ts:85-88 | once the matching row is deleted, that email and code match no row at any time: a replay fails |
| AuthRouter.SendCodeReply | src/server/api/routers/auth.ts:42-57 | the reply always reports success; a warning is present iff the mail was not delivered; it is the fixed message when delivery reports failure, and the thrown message or the fallback message when dispatch throws |
| AuthRouter.SendCode | src/server/api/routers/auth.ts:24-57 | the code table becomes the old one without the email's rows, plus the new code expiring at now + 600000; the reply is `SendCodeReply` of the mail outcome |
| AuthRouter.VerifyCode | src/server/api/routers/auth.ts:67-91 | succeeds iff a live matching row exists, removing exactly that row so the code cannot be replayed; otherwise UNAUTHORIZED with the table unchanged |
| AuthRouter.Register | src/server/api/routers/auth.ts:102-184 | the checks run in order: code (UNAUTHORIZED), country (BAD_REQUEST), existing email (CONFLICT), each error raised exactly when the earlier checks pass and it fails; failure changes nothing; success appends one user, deletes the matched code and issues a session for the new user |
| AuthRouter.Login | src/server/api/routers/auth.ts:193-258 | an invalid code gives UNAUTHORIZED; a valid code with no user gives NOT_FOUND and leaves the code in place; success deletes the code, leaves users unchanged, and returns the user with a session for them |
| AuthRouter.Me | src/server/api/routers/auth.ts:266-276 | null exactly for an anonymous caller; otherwise the caller's id, email, name and country |
| AuthRouter.ResolveSession | src/server/auth.ts:34-51 | a request resolves to a user only through a valid session naming an existing user id, and then to that user |
| AuthRouter.SessionRoundTrip | src/server/api/routers/auth.ts:156-159 | the session issued at registration or login resolves back to exactly that user |
| AuthRouter.ApplyProfile | src/server/api/routers/auth.ts:294-300 | id and email are preserved; each non-empty given field replaces the old value and the others are kept |
| AuthRouter.UpdateProfile | src/server/api/routers/auth.ts:285-308 | fails with BAD_REQUEST, changing nothing, iff a non-empty country is given and is invalid; otherwise only the caller's row changes, to `ApplyProfile` of it |
| CategoryRouter.CategoriesOf | src/server/api/routers/category.ts:76-79 | a category is selected iff it is in the table with that restaurant id |
| CategoryRouter.CategoriesOfOldestFirst | src/server/api/routers/category.ts:89-91 | the selection of a table ordered by createdAt is ordered by createdAt ascending |
| CategoryRouter.CategoriesOfUnique | src/server/api/routers/category.ts:76-92 | the selection repeats no category id |
| CategoryRouter.GetByRestaurant | src/server/api/routers/category.ts:60-95 | NOT_FOUND iff the caller does not own the restaurant; otherwise exactly that restaurant's categories, oldest first, no id twice |
| CategoryRouter.CategoryAccess | src/server/api/routers/category.ts:106-125 | NOT_FOUND iff no category has the id; then FORBIDDEN iff its restaurant's owner is not the caller; otherwise the position of the category |
| CategoryRouter.ApplyUpdate | src/server/api/routers/category.ts:144-150 | id, restaurant and creation time are kept; the name changes only when a non-empty one is given; `parentId` is written whenever it is not undefined, and null detaches the category |
| CategoryRouter.RemoveCategoryExactly | src/server/api/routers/category.ts:179-181 | deleting the found row removes exactly the category with that id and keeps every other |
| CategoryRouter.RemoveCategoryKeepsValid | src/server/api/routers/category.ts:179-181 | deleting a category keeps ids unique, restaurants existing and the table in creation order |
| CategoryRouter.Create | src/server/api/routers/category.ts:14-56 | NOT_FOUND iff the caller does not own the restaurant. Then, for a non-empty `parentId`, NOT_FOUND iff it is not a category of the same restaurant. Success appends exactly one category stamped with the current time; failure changes nothing |
| CategoryRouter.Update | src/server/api/routers/category.ts:105-153 | NOT_FOUND, then FORBIDDEN, then, for a non-empty new parent, NOT_FOUND unless it is in the category's restaurant; success overwrites only that row with `ApplyUpdate`; failure changes nothing |
| CategoryRouter.Delete | src/server/api/routers/category.ts:157-184 | NOT_FOUND, then FORBIDDEN; success removes only the target row and returns true; failure changes nothing |
| DishRouter.CountMatching | src/server/api/routers/dish.ts:37-42 | the number of matching category rows never exceeds the table size |
| DishRouter.MatchedIds | src/server/api/routers/dish.ts:37-42 | the ids of the matching rows are all among the listed ids |
| DishRouter.MatchedIdsMeaning | src/server/api/routers/dish.ts:37-42 | an id is matched iff it is listed and names a category of the restaurant |
| DishRouter.CountIsMatchedIds | src/server/api/routers/dish.ts:37-44 | with unique category ids, the count equals the number of distinct matched ids |
| DishRouter.DistinctCardinality | src/server/api/routers/dish.ts:44 | a list has at most as many distinct ids as entries, and exactly as many iff no id repeats |
| DishRouter.CountCheckMeaning | src/server/api/routers/dish.ts:36-50 | the count check passes iff the listed ids are distinct and each names a category of the restaurant, so a foreign, missing or repeated id gives BAD_REQUEST |
| DishRouter.NewLinks | src/server/api/routers/dish.ts:62-66 | the link rows created for a dish are exactly one per listed category id, all for that dish |
| DishRouter.ReplaceLinks | src/server/api/routers/dish.ts:200-210 | after the link rewrite the dish is linked to exactly the listed categories, and every other dish's links are untouched |
| DishRouter.NewLinksExactly | src/server/api/routers/dish.ts:62-66 | a new dish gets one link per listed category and no other; other dishes' links are unchanged |
| DishRouter.CheckedLinksBelong | src/server/api/routers/dish.ts:184-210 | after a passing check, every category a dish is linked to belongs to the dish's restaurant |
| DishRouter.DishesNewestFirst | src/server/api/routers/dish.ts:98-101 | a dish is selected iff it is in the table with that restaurant id |
| DishRouter.DishesNewestFirstOrdered | src/server/api/routers/dish.ts:109-111 | over a table in creation order, the selection is in createdAt descending order |
| DishRouter.DishesNewestFirstUnique | src/server/api/routers/dish.ts:98-111 | over a table with unique ids, the selection repeats no dish id |
| DishRouter.GetByRestaurant | src/server/api/routers/dish.ts:82-115 | NOT_FOUND iff the caller does not own the restaurant; otherwise exactly that restaurant's dishes, newest first, no id twice |
| DishRouter.DishAccess | src/server/api/routers/dish.ts:163-182 | NOT_FOUND iff no dish has the id; then FORBIDDEN iff its restaurant's owner is not the caller; otherwise the position of the dish |
| DishRouter.GetById | src/server/api/routers/dish.ts:119-147 | NOT_FOUND iff no dish has the id; FORBIDDEN iff it exists but the caller does not own its restaurant; otherwise success with the dish of that id, owned by the caller |
| DishRouter.ApplyUpdate | src/server/api/routers/dish.ts:213-222 | id, restaurant and creation time are kept. `name` and `dietaryType` change only when given. `image`, `description`, `spiceLevel` and `price` change whenever not undefined, and null clears them |
| DishRouter.RemoveDishExactly | src/server/api/routers/dish.ts:259-261 | deleting the found row removes exactly the dish with that id and keeps every other |
| DishRouter.RemoveDishKeepsValid | src/server/api/routers/dish.ts:259-261 | deleting a dish keeps ids unique, restaurants existing and the table in creation order |
| DishRouter.Create | src/server/api/routers/dish.ts:19-78 | succeeds iff the caller owns the restaurant and, for a non-empty list, the count check passes; NOT_FOUND iff the caller does not own the restaurant, then BAD_REQUEST iff the count check fails; success appends one dish (vegetarian by default, stamped now) and one link per listed id; failure changes nothing |
| DishRouter.Update | src/server/api/routers/dish.ts:162-233 | NOT_FOUND, then FORBIDDEN, then the count check for given `categoryIds`, all before any write. Success rewrites the dish's links exactly when `categoryIds` is given, and overwrites only that dish's row with `ApplyUpdate`. Failure changes nothing |
| DishRouter.Delete | src/server/api/routers/dish.ts:237-264 | NOT_FOUND, then FORBIDDEN; success removes only the target row and returns true; failure changes nothing |
| Base64.Index | src/app/api/upload/route.ts:50 | each symbol of the base64 alphabet denotes a 6-bit value |
| Base64.Symbol | src/app/api/upload/route.ts:50 | each 6-bit value has a symbol of the alphabet |
| Base64.IndexSymbol | src/app/api/upload/route.ts:50 | `Index` maps the symbol of a 6-bit value back to that value |
| Base64.SymbolIndex | src/app/api/upload/route.ts:50 | `Symbol` maps the value of an alphabet symbol back to that symbol |
| Base64.EncodeLength | src/app/api/upload/route.ts:48-50 | n bytes encode to 4 * ceil(n / 3) characters |
| Base64.Regroup | src/app/api/upload/route.ts:50 | the 6-bit pieces cut from one, two or three bytes reassemble into those bytes |
| Base64.DecodeOne | src/app/api/upload/route.ts:50 | a final group of one byte (two symbols and two pads) is well formed and decodes to that byte |
| Base64.DecodeTwo | src/app/api/upload/route.ts:50 | a final group of two bytes (three symbols and one pad) is well formed and decodes to those bytes |
| Base64.DecodeThree | src/app/api/upload/route.ts:50 | a four-symbol group decodes to its three bytes, followed by the decoding of the rest |
| Base64.DecodeEncodeStep | src/app/api/upload/route.ts:50 | a full group in front of an encoding that round-trips gives an encoding that round-trips |
| Base64.DecodeEncode | src/app/api/upload/route.ts:48-51 | every encoding is well-formed base64 and decodes back to exactly the bytes of the file |
| Base64.Ungroup | src/app/api/upload/route.ts:50 | the bytes assembled from four 6-bit values, cut back into 6-bit pieces, give those values; spare bits that are zero are recovered as zero |
| Base64.JoinOne | src/app/api/upload/route.ts:50 | the byte of two 6-bit values whose spare bits are zero encodes to their two symbols and two pads |
| Base64.JoinTwo | src/app/api/upload/route.ts:50 | the two bytes of three 6-bit values whose spare bits are zero encode to their three symbols and one pad |
| Base64.JoinThree | src/app/api/upload/route.ts:50 | the three bytes of four 6-bit values encode to their four symbols |
| Base64.EncodeDecodeOne | src/app/api/upload/route.ts:50 | a canonical final quad with two pads is the encoding of the byte it decodes to |
| Base64.EncodeDecodeTwo | src/app/api/upload/route.ts:50 | a canonical final quad with one pad is the encoding of the bytes it decodes to |
| Base64.ReencodeFull | src/app/api/upload/route.ts:50 | a quad of four symbols is the encoding of the three bytes it carries |
| Base64.EncodeFront | src/app/api/upload/route.ts:50 | three bytes in front of more bytes encode as one full group in front of the encoding of the rest |
| Base64.EncodeJoin | src/app/api/upload/route.ts:50 | a first quad that encodes three bytes, followed by the encoding of the remaining bytes, is the encoding of all of them |
| Base64.EncodeDecodeStep | src/app/api/upload/route.ts:50 | a full quad in front of a text that round-trips gives a text that round-trips |
| Base64.EncodeDecode | src/app/api/upload/route.ts:48-51 | a canonical text (zero spare bits) is exactly the encoding of the bytes it decodes to, so the encoding is the only canonical text for those bytes |
| Upload.NoFile | src/app/api/upload/route.ts:10 | `!file` holds exactly for a missing entry or an empty text field; a file part is never falsy |
| Upload.AllowedType | src/app/api/upload/route.ts:18-19 | the type check passes exactly for a file part of one of the four image types, each an `image/` type |
| Upload.Post | src/app/api/upload/route.ts:5-64 | the checks run presence, then type (four image types), then size (at most 5242880 bytes, that bound included), first failure 400 with its message. With a token the reply is the stored URL. Without one it is a data URL whose payload is canonical base64 of the file (it decodes to the file, so by `EncodeDecode` it is the file's encoding), plus the warning. A malformed body or a failing store gives 500 |

## Left out

- Cookies, JWT signing and verification, `logout`, the token relay and the protected-procedure gate are not modelled. A session is the payload a token would be minted for. `ResolveSession` takes the outcome of token verification (a session or none), not the token.
- AuthRouter.SendCode: mail dispatch is an external call. Its outcome is the `mail` parameter (delivered, not delivered, threw with an optional message), so any outcome may happen.
- AuthRouter.GenerateCode: `Math.random` is replaced by the offset parameter, the integer `Math.floor(Math.random() * 900000)`. The code is a function of it, and nothing about uniformity is claimed.
- The database generates new row ids with `cuid()`. Here they are the `newId` parameter, and the precondition requires that the id is not in use.
- Wall-clock time is the class's `now` field. It only moves forward (`Store.Db.Tick`), which is what makes creation order agree with insertion order. When two rows share a creation time the source gives no tie-break order; the model uses insertion order.
- Zod input validation (email and URL format, minimum lengths, integer ranges, enum values) happens before the handlers run and is not modelled. Inputs are assumed to have the declared types.
- `isValidCountry` is a parameter (`string -> bool`): the country list is not part of this model.
- `price` is a floating-point number, modelled as a real on which no arithmetic is done.
- Query results omit the included relations: the parent, children and dish count of categories, the categories of dishes, and the restaurant row.
- Foreign-key constraints and cascading deletes are not assumed. Deleting a category or a dish removes only its row, and link rows of a deleted dish stay in the link table. A stored category `parentId` is not checked to name a row; the empty string is stored as given. No acyclicity holds between categories.
- The restaurant table is constant: the restaurant router is not part of this model, nor is the public menu router.
- Every procedure runs to completion before the next starts. Concurrent requests and the lack of a transaction around a dish's link rewrite and row update are not modelled.
- AuthRouter.UpdateProfile: requires that the caller's id is in the user table, which the session gate establishes. A user deleted between the gate and the update would make the source throw, and that path is not modelled.
- Upload.Post: the blob store's `put` is an external call. Its outcome is the `put` parameter, so the stored URL is arbitrary. Reading the body into memory and logging the error are not modelled. Beyond the raw bytes of the file, only the MIME type and size are used.

# Anime Hub: a Dafny model of its input handling and sync logic

Anime Hub is a small anime catalogue. An Express back end runs on MySQL.
A script copies the catalogue into a MongoDB cache. Two browser pages use
the API. This project models the parts of it that decide things:

- the reviews controller's sanitisers and the guard of `createReview`
  (module `Reviews`);
- the register and login handlers of the auth controller (module `Auth`);
- the MySQL-to-MongoDB sync script: the adaptive column mapping of
  `selectAnime` (`SyncSelect`), the helpers `groupToSetMap` and
  `groupToArrMap` (`SyncGroup`), the relation bucketing loop
  (`SyncRelations`) and the assembly of the cached documents (`SyncDocs`);
- the catalogue page's cell fallbacks, synopsis shortening and search
  query (`Catalog`);
- the registration page's submit checks (`RegisterForm`).

Two shared modules hold the JavaScript semantics the code relies on.
`Js` covers values, truthiness, loose `== null`, `Number(...)`, `.length`
and `Math.round`. `Text` covers ECMAScript `trim`, `slice(0, n)`, ASCII
`toLowerCase` and `includes`.

Each operation is modelled at the level of JavaScript values. A `null`, a
missing field, a number where a string was expected and an empty string
each follow the branch the code takes for them. For example, a review
whose `user` field is a number makes `.trim()` throw. The handler's catch
turns that into a 500, and `Reviews.CreateReview` says so.

The loops stay loops: the sync script's grouping helpers, its relation
loop and its column-selection loop. Each loop method is proved equal to a
recursive specification function. Lemmas then state what that function
guarantees: membership, no duplicates, nothing lost, and the partition
into "related" and "recommended". The catalogue page's one piece of
mutable state, the last search query, is the field of the class
`Catalog.SearchPage`.

The repository's concurrency test script (test-race-condition.js:16-17,
59-60 and 95) expects a per-user daily limit on review submissions: of a
burst of concurrent posts by one user, 10 succeed with 201 and the rest
are answered with 429. `createReview` (reviewsController.js:52-84) has no
limiter and never answers 429. The model follows the code:
`Reviews.CreateReview` depends on the request alone and admits every
well-formed review.

## Model

| member | source | states |
|---|---|---|
| Js.Get | backend/controllers/reviewsController.js:55-57 | a field missing from a body or row reads as `undefined`; a present field reads as its value |
| Js.Length | backend/controllers/authController.js:23 | `.length` is a number exactly for strings, and then it is the string's length; for any other value it is `undefined`, so both comparisons with it are false |
| Js.Round | backend/controllers/reviewsController.js:16 | `Math.round` gives the integer within half a unit, halves going up |
| Text.TrimStart | backend/controllers/reviewsController.js:5 | the leading whitespace is dropped and nothing else: the result is a suffix, what was dropped is whitespace, and the result does not start with whitespace |
| Text.TrimEnd | backend/controllers/reviewsController.js:5 | the trailing whitespace is dropped and nothing else |
| Text.Trim | backend/controllers/reviewsController.js:5 | `trim` returns the infix that has only whitespace around it and neither starts nor ends with whitespace |
| Text.TrimEmptyIff | backend/controllers/reviewsController.js:5-6 | the trimmed string is empty exactly when the input is all whitespace |
| Text.TrimIdempotent | frontend/app.js:102 | trimming a trimmed string changes nothing |
| Text.Take | backend/controllers/reviewsController.js:8 | `slice(0, n)` is the prefix of length min(n, length) |
| Text.LowerChar | backend/scripts/sync_to_mongo.js:174 | `toLowerCase` maps an ASCII capital to its small letter and leaves other ASCII alone |
| Text.ToLowerAscii | backend/scripts/sync_to_mongo.js:174 | the lowered string has the same length and is lowered character by character |
| Reviews.TrimmedOrEmpty | backend/controllers/reviewsController.js:5 | `(input \|\| '').trim()` throws exactly for a truthy non-string; otherwise it is the trimmed string, or "" for a falsy input |
| Reviews.SanitizeUser | backend/controllers/reviewsController.js:4-9 | throws exactly for a truthy non-string; "Anonymous" when nothing is left after trimming; otherwise a prefix of the trimmed name of length min(60, length); the result has 1 to 60 characters |
| Reviews.NormalizeScore | backend/controllers/reviewsController.js:11-17 | null exactly for undefined, null, "" or a value whose conversion is not finite; otherwise the rounded number clamped to 0..10, equal to the rounded number when that lies in range |
| Reviews.NormalizeScoreIdempotent | backend/controllers/reviewsController.js:11-17 | normalising a stored score again gives the same score |
| Reviews.SanitizeReviewText | backend/controllers/reviewsController.js:19-25 | throws exactly for a truthy non-string; "" exactly when nothing is left after trimming; otherwise a prefix of the trimmed text of length min(5000, length) |
| Reviews.CreateReview | backend/controllers/reviewsController.js:52-84 | 500 exactly when the user or review field is a truthy non-string; otherwise 400 "Review text is required" exactly when the review is blank; an inserted row has the route's anime id, a 1..60-character name, a score in 0..10 or null, and a non-empty review of at most 5000 characters that is a prefix of the trimmed input; the inserted row is exactly the route's id with the sanitised user, the normalised score and the sanitised review text |
| Auth.Register | backend/controllers/authController.js:11-78 | the three 400 checks in order with their messages; 400 exactly when validation fails; 409 exactly when validation passes and the name is taken; a user is inserted exactly when validation passes, the name is free and the password is a string; 500 exactly when validation passes, the name is free and the password is not a string (hashing throws); the stored password is the hash of a password of at least 6 characters, and a string username has 3 to 30 characters |
| Auth.Login | backend/controllers/authController.js:81-146 | 400 "Username and password are required" exactly for a missing field; 500 exactly when the user is known and the password is not a string (hashing throws); 401 "Invalid username or password" exactly for an unknown user or a string password matching neither the stored plaintext nor its hash; success exactly when the password matches, with the stored id and name; `is_admin` is true exactly for stored 1 or true |
| Auth.UnknownUserLikeWrongPassword | backend/controllers/authController.js:102-121 | an unknown username and a wrong string password get the same answer |
| Auth.NonStringPasswordTellsUsersApart | backend/controllers/authController.js:102-113 | with a truthy non-string password (`{password: 123456}`) an unknown username gets 401 but a known one gets 500, because hashing throws only once the user is found: the two cases can be told apart |
| Auth.RegisteredCanLogIn | backend/controllers/authController.js:48-56 | once the registered user is stored with the stored password and `is_admin` 0, logging in with the same password succeeds as a non-admin |
| SyncSelect.FirstAlias | backend/scripts/sync_to_mongo.js:50-55 | the first alias in list order that the table has, or none exactly when it has none of them |
| SyncSelect.FirstAliasAt | backend/scripts/sync_to_mongo.js:50-55 | the alias at the first index whose alias exists is the one chosen |
| SyncSelect.PieceFor | backend/scripts/sync_to_mongo.js:47-67 | the canonical column wins, else the first alias present, else a constant: 'Untitled' for title, 0 for score and members, NULL otherwise; the item is always named after the wanted field |
| SyncSelect.SelectPieces | backend/scripts/sync_to_mongo.js:35-68 | one SELECT item per wanted field, in declaration order, each the item `PieceFor` chooses |
| SyncSelect.NoColumnsGivesDefaults | backend/scripts/sync_to_mongo.js:57-64 | a wanted field whose column and aliases are all missing from the table, whatever other columns it has, is selected as its default constant, and only the title's default is 'Untitled' |
| SyncGroup.DistinctMembership | backend/scripts/sync_to_mongo.js:82 | a value is in the set exactly when it was added |
| SyncGroup.DistinctHasNoDuplicates | backend/scripts/sync_to_mongo.js:82 | a set holds each value once |
| SyncGroup.ValuesForMembership | backend/scripts/sync_to_mongo.js:77-83 | `v` is collected under `k` exactly when some row with non-null key and value has key `k` and value `v` |
| SyncGroup.ValuesForNonEmpty | backend/scripts/sync_to_mongo.js:80-81 | a key has values exactly when some kept row has that key |
| SyncGroup.KeySeqMembership | backend/scripts/sync_to_mongo.js:80-81 | the keys met in order are exactly the keys of kept rows |
| SyncGroup.ArrMapSnoc | backend/scripts/sync_to_mongo.js:90-94 | one more row: a skipped row changes nothing, a kept row creates its key's array if needed and appends its value |
| SyncGroup.SetMapSkip | backend/scripts/sync_to_mongo.js:80 | a row with a null key or value leaves the set map unchanged |
| SyncGroup.SetMapAdd | backend/scripts/sync_to_mongo.js:81-82 | a kept row creates its key's set if needed and adds its value unless the set holds it |
| SyncGroup.GroupOfNoRows | backend/scripts/sync_to_mongo.js:76 | no rows give the empty map |
| SyncGroup.SetMapMembership | backend/scripts/sync_to_mongo.js:75-85 | `v` is in the set under `k` exactly when some row with both fields non-null has key `k` and value `v` |
| SyncGroup.SetMapWellFormed | backend/scripts/sync_to_mongo.js:75-85 | every set in the map is non-empty and duplicate-free, and neither a null key nor a null value ever enters it |
| SyncGroup.SumLengthsUpdate | backend/scripts/sync_to_mongo.js:93-94 | replacing one key's list changes the total length by the change in that list's length |
| SyncGroup.ArrMapTotal | backend/scripts/sync_to_mongo.js:87-97 | `groupToArrMap` loses nothing: its arrays hold as many values in total as there are kept rows |
| SyncGroup.GroupToSetMap | backend/scripts/sync_to_mongo.js:75-85 | the loop builds exactly the set map of its rows |
| SyncGroup.GroupToArrMap | backend/scripts/sync_to_mongo.js:87-97 | the loop builds exactly the array map of its rows |
| SyncRelations.KindOf | backend/scripts/sync_to_mongo.js:174-175 | a link is "recommended" exactly when its type, lowered, contains "recommend" |
| SyncRelations.TargetsMembership | backend/scripts/sync_to_mongo.js:170-178 | `d` is listed under `src` and a kind exactly when a valid link row goes from `src` to `d` with a type of that kind |
| SyncRelations.BucketsPartitionLinks | backend/scripts/sync_to_mongo.js:174-177 | every valid link leaving `src` lands in exactly one of its two lists |
| SyncRelations.SourcesSnoc | backend/scripts/sync_to_mongo.js:173-176 | a row adds its source to the keys exactly when both its ends are non-zero numbers |
| SyncRelations.TargetsNonEmpty | backend/scripts/sync_to_mongo.js:176 | a source has an entry exactly when some valid link leaves it |
| SyncRelations.TargetsSnoc | backend/scripts/sync_to_mongo.js:177 | a valid row appends its destination to the list of its kind under its source |
| SyncRelations.TargetsOther | backend/scripts/sync_to_mongo.js:173 | a row leaves the lists of other sources, of the other kind, and everything when it is dropped, unchanged |
| SyncRelations.GroupOfNoLinks | backend/scripts/sync_to_mongo.js:169 | no link rows give the empty map |
| SyncRelations.BucketsSkip | backend/scripts/sync_to_mongo.js:173 | a row with a zero or NaN end changes nothing |
| SyncRelations.BucketsFile | backend/scripts/sync_to_mongo.js:174-177 | a valid row creates its source's entry if needed and appends its destination to the list of its kind |
| SyncRelations.BucketRelations | backend/scripts/sync_to_mongo.js:169-178 | the loop builds exactly the map of per-source related and recommended lists |
| SyncRelations.BucketsHoldOnlyValidEnds | backend/scripts/sync_to_mongo.js:171-173 | every source and destination in the map is a number other than 0 and NaN |
| SyncDocs.BuildDoc | backend/scripts/sync_to_mongo.js:192-206 | the document's id is `Number(anime_id)`; the title defaults to "Untitled" and type and synopsis to null exactly when missing; otherwise type and synopsis are the row's values; the numeric fields are null exactly when missing and otherwise `Number(...)` of the row's value; each list is the map's entry for the id, or empty when there is none |
| SyncDocs.BuildDocs | backend/scripts/sync_to_mongo.js:192 | one document per anime row, in row order |
| SyncDocs.Synchronise | backend/scripts/sync_to_mongo.js:128-206 | the documents are those built from the four maps the helpers and the relation loop produce |
| SyncDocs.DocGenres | backend/scripts/sync_to_mongo.js:200 | a document's genres are exactly the genres joined to its id, each once |
| SyncDocs.DocImages | backend/scripts/sync_to_mongo.js:204 | a document's images are all image paths of its id, in row order, repetitions kept |
| SyncDocs.DocRelations | backend/scripts/sync_to_mongo.js:202-203 | a document's related and recommended lists are the destinations of the valid links leaving its id, split by kind; a non-numeric id finds none |
| Catalog.Pick | frontend/app.js:67-70 | the value of the first key whose value is not undefined, null or "", or the fallback when there is none |
| Catalog.PickSource | frontend/app.js:67-70 | the picked value is the fallback or a present value of one of the keys |
| Catalog.PickAbsent | frontend/app.js:67-70 | with none of the keys present, `pick` gives the fallback |
| Catalog.ShortenSynopsis | frontend/app.js:82 | a string longer than 220 characters becomes its first 220 characters followed by "…" (221 in all); anything else is unchanged |
| Catalog.RowCells | frontend/app.js:73-92 | each cell is the first present value among its own columns, in the code's order, with "Untitled" as the title's fallback and "" as the others'; the date cells show "" for a falsy value; the synopsis is the shortened pick |
| Catalog.BareRowCells | frontend/app.js:73-92 | a row in which none of the looked-up columns holds a present value, whatever other columns it has, shows "Untitled" and empty cells |
| Catalog.RequestFor | frontend/app.js:22 | the request carries `q` exactly when the stored query is non-empty, and then carries it unchanged |
| Catalog.SearchPage.constructor | frontend/app.js:10 | the page starts with an empty query |
| Catalog.SearchPage.ApplySearch | frontend/app.js:101-104 | the stored query becomes the trimmed input and the list is requested with it |
| Catalog.SearchPage.Refresh | frontend/app.js:108 | a refresh requests the list with the stored query |
| Catalog.SearchQueryIsTrimmed | frontend/app.js:101-104 | a search sends `q` exactly when the input has something besides whitespace, and what it sends has no surrounding whitespace |
| RegisterForm.Submit | frontend/register.js:17-49 | the four checks in order with their messages; the request is sent exactly when the trimmed username has at least 3 characters, the password at least 6 and the confirmation matches; the body is the trimmed username and the untrimmed password |
| RegisterForm.BlankUsernameIsMissing | frontend/register.js:17-25 | a username box holding only whitespace is reported as an empty field |
| RegisterForm.ServerChecksOnLongEnough | backend/controllers/authController.js:16-35 | for a username of at least 3 and a password of at least 6 characters, the server's validation comes down to the 30-character bound |
| RegisterForm.SentRequestMeetsServerChecks | frontend/register.js:27-49 | the form has no upper bound: a request it sends passes the server's validation exactly when the username has at most 30 characters, and the username sent is already trimmed |

## Left out

- Rate limiting: test-race-condition.js:16-17, 59-60 and 95 expects 10 reviews per user per day, with 429 for the rest. `createReview` (reviewsController.js:52-84) has no limiter, so the model has none.
- I/O: HTTP plumbing, MySQL and MongoDB connections, `fetch`, DOM rendering and HTML escaping are not modelled. Query results, user lookups and column sets are parameters.
- Database failures: a failing query or insert turns into a 500 in every handler. Only the 500s that come from the handlers' own code are modelled: `trim` on a non-string, and hashing a non-string password.
- Reviews.CreateReview: stops at the row handed to the INSERT. Reading the row back and the date and time columns are not modelled.
- `listReviews`, `deleteReview`, `logout`, `logAction` and the other controllers are not part of this model.
- Auth.Register: the password hash is a parameter (SHA-256 is not modelled). A truthy non-string password reaches the hash and is answered with 500 (`RegisterFailed`). The username sent to the lookup and stored is the body's value as given; MySQL's coercion and collation in the `WHERE username = ?` comparison are folded into the `lookup` parameter.
- Auth.Register: a truthy non-string username (a number, for example) has no `.length`, so it passes both length checks; the model keeps this and bounds the length of string usernames only.
- Auth.Login: the 500 for a non-string password that reaches the hash is `LoginFailed`; a stored `password` column that is not a string is not modelled.
- Number conversion: `Number(string)` follows JavaScript's numeric-string grammar, which is not modelled; it is the parameter `parse`. Finite numbers are exact reals, so IEEE rounding is not modelled.
- String length: strings are sequences of code points, while JavaScript counts UTF-16 units. The 3, 6, 30, 60, 220 and 5000 limits therefore differ for text outside the Basic Multilingual Plane.
- `toLowerCase` is modelled for ASCII letters only. This is enough for `includes("recommend")`: the only non-ASCII characters that lower to ASCII letters are U+212A KELVIN SIGN (to "k") and U+0130 (to "i" and a combining dot), and "recommend" contains neither "k" nor "i". A number or boolean link type prints as digits, signs, "e", "Infinity", "NaN", "true" or "false", none of which contains "recommend", so SyncRelations.IsRecommendation is false for them.
- JSON arrays and objects in request bodies or rows are not modelled: values are undefined, null, booleans, numbers and strings.
- SyncSelect: the SQL text of the SELECT, its execution and the INFORMATION_SCHEMA query behind `hasCol` are not modelled. `hasCol` is membership in a given set of column names, compared exactly.
- SyncRelations: the choice among the three relation queries and `anime_link`, and the `tableExists` checks, are not modelled; the link rows are a parameter.
- SyncDocs: `updated_at` is not modelled. The unique index, the batched upsert into `anime_cache` and the connection handling are not modelled.
- SyncGroup: the maps hold values, while the source puts mutable `Set` and array objects in its maps and updates them in place. The result is the same because each object is reachable from one key only; aliasing is not modelled.
- Map keys use datatype equality, which agrees with JavaScript's SameValueZero on the modelled values (NaN equals NaN, and there is one zero).
- Catalog: `encodeURIComponent` and the URL prefix are not modelled; the request is the query string itself. The table header, the record and column counts and the error messages are not modelled.
- RegisterForm: the redirect for a logged-in user, the response handling after `fetch` and the page messages are not modelled.

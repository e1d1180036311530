# urlshort core in Dafny

urlshort is a URL shortener. A short code (letters and digits) names a long
URL, and `GET /:code` redirects to it through an in-memory LRU cache.
Signed-in users manage their own links through a JSON API at `/api/url`.
Access is granted by an admin bearer token or by an OpenID Connect token
from Keycloak. A static back-office page decides locally whether to show
itself, based on the user's groups.

This project models that core and proves properties of the model:

- `jsstring.dfy`: JavaScript's `String.prototype.trim`, with its
  specification proved.
- `validate.dfy` (`src/utils/validate.ts`):
  - the URL check, with the WHATWG parser as an input function;
  - optional-date parsing, with `new Date` as an input function;
  - the short-code rule.
- `code.dfy` (`src/utils/code.ts`): the 62-letter alphabet and
  `generateCode`. The `Math.random` draws are an input.
- `service.dfy` (`src/services/shortUrl.service.ts`):
  - `ShortUrlService` is a class whose `records` map stands for the
    `shortUrl` table;
  - each operation is specified by a function over that map;
  - `create`'s five-attempt loop takes its codes from supplied draws, and a
    supplied fault per attempt says which inserts the database rejects for
    other reasons.
- `redirect.dfy` (`src/routes/redirect.ts`):
  - the `LRUCache` class, specified by an insertion-ordered state
    (`LruState`);
  - the cache-size setting and `invalidateCacheFor`;
  - the `/:code` resolver as a function (`Resolve`), and a method
    `HandleRedirect` that runs it against the cache and the service.
- `auth.dfy` (`src/middleware/auth.ts`):
  - `authMiddleware` as a function of the header, the configuration, and the
    outcome of `jwtVerify` (an input);
  - the memoised `getJwks` as a class with one mutable field.
- `api.dfy` (`src/routes/api.ts`):
  - each handler is split at its `await` into a plan (answer at once, or
    call the service) and a reply built from the service's outcome;
  - `Put` and `Delete` methods connect the service and the redirect cache.
- `groups.dfy` (`public/backend/app.js`): `normalizeGroupName` and
  `isAuthorized`.

Conventions:

- JavaScript's `undefined`, `null` and strings in request bodies are the
  datatype `Field` (`Missing | Null | Text`).
- Dates are integers (milliseconds).
- The record column `label` is called `title`, because `label` is a reserved
  word in Dafny. The error strings still say "label".

## Model

| member | source | states |
|---|---|---|
| JsString.Trim | src/services/shortUrl.service.ts:40 | `trim()`: strip leading and trailing whitespace; its properties are the lemmas below |
| JsString.TrimStartSpec | src/services/shortUrl.service.ts:40 | stripping leading whitespace leaves a suffix that starts with no whitespace, and everything removed was whitespace |
| JsString.TrimEndSpec | src/services/shortUrl.service.ts:51 | stripping trailing whitespace leaves a prefix that ends with no whitespace, and everything removed was whitespace |
| JsString.TrimIsSlice | src/services/shortUrl.service.ts:51 | `trim()` yields a slice of the input; everything cut from either end is whitespace; the result neither starts nor ends with whitespace |
| JsString.TrimEmptyIffBlank | src/services/shortUrl.service.ts:40 | a label trims to "" exactly when every character is whitespace |
| JsString.TrimIdempotent | src/services/shortUrl.service.ts:51 | trimming an already trimmed label changes nothing |
| Validate.IsValidHttpUrl | src/utils/validate.ts:1-8 | valid when the URL parses and its scheme is http: or https: (characterised by HttpUrlRule) |
| Validate.IsCodeValid | src/utils/validate.ts:16-18 | 1 to 32 ASCII letters or digits (examples in CodeValidExamples) |
| Validate.ParseOptionalDate | src/utils/validate.ts:10-14 | undefined, null and "" give no date; any other string gives what the date parser makes of it, and nothing when it cannot be parsed |
| Validate.InvalidDateMeansUnparseable | src/routes/api.ts:43-46 | the handlers' "invalid expiresAt" test holds exactly for a non-empty string the date parser rejects |
| Validate.HttpUrlRule | src/utils/validate.ts:1-8 | a URL that does not parse is invalid; a URL is valid exactly when it parses with scheme http: or https:, so every other scheme is refused |
| Validate.CodeValidExamples | src/utils/validate.ts:16-18 | "Abc123" is a valid code; "bad!", "" and a 33-letter code are not |
| CodeGen.AlphabetAt | src/utils/code.ts:1 | each of the 62 alphabet positions holds an ASCII letter or digit |
| CodeGen.UpperRun | src/utils/code.ts:1 | positions 0-25 of the alphabet are 'A'..'Z' |
| CodeGen.LowerRun | src/utils/code.ts:1 | positions 26-51 are 'a'..'z' |
| CodeGen.DigitRun | src/utils/code.ts:1 | positions 52-61 are '0'..'9' |
| CodeGen.AlphabetLayout | src/utils/code.ts:1 | the alphabet has 62 characters, laid out as upper case, then lower case, then digits |
| CodeGen.AlphabetIsAlnum | src/utils/code.ts:1 | a character is in the alphabet exactly when it is an ASCII letter or digit |
| CodeGen.Spell | src/utils/code.ts:6-7 | one character per draw, namely the alphabet letter the draw indexes |
| CodeGen.GenerateCode | src/utils/code.ts:3-10 | the loop builds exactly the spelled code: one alphabet letter per draw, `length` letters in all, and a valid short code when 1 <= length <= 32 |
| CodeGen.SpelledCodeIsValid | src/utils/code.ts:3-10 | every spelled code of length 1-32 passes `isCodeValid`; length 0 gives "" |
| Groups.NormalizeGroupName | public/backend/app.js:27-29 | a missing name gives ""; exactly one leading '/' is removed; any other name is unchanged |
| Groups.NormalizedGroups | public/backend/app.js:35 | the set holds exactly the normalised names of the user's groups; missing groups give the empty set |
| Groups.NormalizeExamples | public/backend/app.js:27-29 | "//a" gives "/a", "/users" gives "users", "users" stays, and a missing name gives "" |
| Groups.NormalizeStable | public/backend/app.js:27-29 | a name without a leading slash is a fixed point, and adding one slash in front is undone |
| Groups.IsAuthorized | public/backend/app.js:31-38 | the back-office gate (characterised by AuthorizedIff) |
| Groups.AuthorizedIff | public/backend/app.js:31-38 | authorised iff no user group is required, or a group normalises to the required group, or a non-empty admin group is among the groups |
| Groups.MissingGroupsAreEmpty | public/backend/app.js:31-38 | missing groups behave like an empty list, which passes only when no group is required |
| Groups.GateExamples | public/backend/app.js:31-38 | "/users" satisfies "users"; "/other" does not; membership of the admin group passes; an empty admin group grants nothing |
| UrlService.AttemptCode | src/services/shortUrl.service.ts:46 | each attempt's code has six characters and is a valid short code |
| UrlService.CreateOutcome | src/services/shortUrl.service.ts:39-64 | what `create` returns or throws: label check, URL check, then up to five insert attempts (see LoopOutcome, CreatedRecord, ExhaustedIff) |
| UrlService.LoopOutcome | src/services/shortUrl.service.ts:44-63 | with valid input, the first attempt whose insert goes through decides the record and the number of inserts (its index + 1); with no such attempt the result is "could not generate unique code" after 5 inserts; the new store keeps the invariant |
| UrlService.FirstSuccessIsEarliest | src/services/shortUrl.service.ts:44-63 | the chosen attempt is the earliest one whose code is free and whose insert does not fail; every earlier attempt failed; none exists only when all five fail |
| UrlService.CreateValidatesFirst | src/services/shortUrl.service.ts:40-41 | a blank label fails with "label is required" before the URL is checked; an invalid URL then fails with "invalid longUrl" |
| UrlService.NoInsertIffInvalid | src/services/shortUrl.service.ts:39-45 | no insert is attempted exactly when the label is blank or the URL is invalid |
| UrlService.CreatedRecord | src/services/shortUrl.service.ts:48-57 | a created record has a fresh valid 6-character code, the trimmed non-empty label, the given URL and expiry, creator = updater = input creator, and 0 clicks, stamped now |
| UrlService.CreateKeepsInv | src/services/shortUrl.service.ts:39-64 | adding the created record keeps every key equal to its record's valid code |
| UrlService.RetryAfterTwoConflicts | src/services/shortUrl.service.ts:58-61 | two rejected inserts and then an accepted one give three inserts and the third code's record |
| UrlService.ExhaustedIff | src/services/shortUrl.service.ts:63 | "could not generate unique code" happens exactly when the input is valid and all five inserts are rejected, and then five inserts were made |
| UrlService.Merge | src/services/shortUrl.service.ts:77-84 | the row `update` writes (see MergeRules) |
| UrlService.UpdateOutcome | src/services/shortUrl.service.ts:66-86 | what `update` returns or throws, store faults included (see UpdateOrder) |
| UrlService.UpdateOrder | src/services/shortUrl.service.ts:66-86 | a failed lookup rejects first; then a missing code gives null, a non-admin non-owner gets "forbidden" before the URL is checked; an update is written exactly when the record exists, the caller may modify it, the URL is absent or valid and the database accepts the write; a database error results exactly from a failed lookup or a rejected permitted write |
| UrlService.AnonymousCannotUpdate | src/services/shortUrl.service.ts:69-71 | a non-admin with no identity never gets an existing record written: "forbidden" unless the lookup itself fails |
| UrlService.MergeRules | src/services/shortUrl.service.ts:77-84 | an absent (or null) label or URL keeps the old one; undefined expiresAt keeps it, null clears it, a date sets it; updatedBy is always replaced; code, creator, clicks, last access and creation time are untouched |
| UrlService.MergeIdempotent | src/services/shortUrl.service.ts:77-84 | applying the same update twice equals applying it once |
| UrlService.UpdateKeepsInv | src/services/shortUrl.service.ts:77-84 | the written record keeps its code, so the store invariant is kept |
| UrlService.RemoveOutcome | src/services/shortUrl.service.ts:88-96 | what `remove` returns or throws, store faults included (see RemoveIff) |
| UrlService.RemoveIff | src/services/shortUrl.service.ts:88-96 | true exactly when the record exists, the caller may modify it and the delete is accepted; false exactly for a missing code; "forbidden" exactly for someone else's record; a database error exactly for a failed lookup or a rejected permitted delete |
| UrlService.AfterRedirect | src/services/shortUrl.service.ts:98-106 | the store after one counted redirect (see AfterRedirectBumpsOne) |
| UrlService.AfterRedirectBumpsOne | src/services/shortUrl.service.ts:98-106 | a redirect adds one click and sets the last access to now for that code only; other records and all other fields are unchanged; an unknown code changes nothing |
| UrlService.BumpsAccumulate | src/services/shortUrl.service.ts:98-106 | n redirects add n clicks; the last access is the time of the latest one |
| UrlService.InsertNewestFirst | src/services/shortUrl.service.ts:28 | inserting into the ordered listing adds exactly that record and keeps all others |
| UrlService.InsertKeepsNewestFirst | src/services/shortUrl.service.ts:28 | the insertion keeps the listing ordered by createdAt, newest first |
| UrlService.InsertKeepsCodesDistinct | src/services/shortUrl.service.ts:26-29 | inserting a record whose code is new keeps the codes distinct |
| UrlService.ListingIsUnique | src/services/shortUrl.service.ts:25-37 | any two listings of the same user's records have the same members and the same length |
| UrlService.DistinctCodesCard | src/services/shortUrl.service.ts:25-30 | a listing with distinct codes has no repeated record |
| UrlService.ShortUrlService.constructor | src/services/shortUrl.service.ts:109 | the service starts with an empty, well-formed store |
| UrlService.ShortUrlService.GetByCode | src/services/shortUrl.service.ts:21-23 | returns the record stored under the code, or null when there is none |
| UrlService.ShortUrlService.ListByUser | src/services/shortUrl.service.ts:25-37 | returns exactly the records created by that email, each once, newest first (`listByEmailAsAdmin` is the same query) |
| UrlService.ShortUrlService.TryInsert | src/services/shortUrl.service.ts:48-57 | an insert succeeds exactly when the code is free and the database does not fail; only then is the record added |
| UrlService.ShortUrlService.Create | src/services/shortUrl.service.ts:39-64 | returns the create specification's outcome and insert count; success adds exactly the new record, and failure leaves the store unchanged |
| UrlService.ShortUrlService.Update | src/services/shortUrl.service.ts:66-86 | returns the update specification's outcome, including a rejected lookup or write; only a written update changes the store, replacing that one record |
| UrlService.ShortUrlService.Remove | src/services/shortUrl.service.ts:88-96 | returns the removal specification's outcome, including a rejected lookup or delete; only `true` removes the record |
| UrlService.ShortUrlService.IncrementStatsOnRedirect | src/services/shortUrl.service.ts:98-106 | the store becomes the redirect-counted store; returns the updated record, or nothing for an unknown code |
| Redirect.Without | src/routes/redirect.ts:15 | deleting a key from the insertion order never lengthens it |
| Redirect.AppendDistinct | src/routes/redirect.ts:20 | appending a new key keeps the order free of duplicates |
| Redirect.DistinctSplit | src/routes/redirect.ts:22-23 | both halves of a duplicate-free order are duplicate-free and disjoint |
| Redirect.WithoutMembers | src/routes/redirect.ts:15 | after deleting a key the order holds exactly the other keys, and deleting an absent key changes nothing |
| Redirect.WithoutDistinct | src/routes/redirect.ts:15 | deleting keeps the order duplicate-free and shortens it by one when the key was present |
| Redirect.DistinctCard | src/routes/redirect.ts:21 | a duplicate-free order has as many distinct keys as entries |
| Redirect.SizeIsOrderLength | src/routes/redirect.ts:21 | the map's size equals the length of its insertion order |
| Redirect.LruGet | src/routes/redirect.ts:11-18 | `get` on the cache state (see GetMiss, GetHit) |
| Redirect.LruSet | src/routes/redirect.ts:19-25 | `set` on the cache state, evicting the oldest key on overflow (see SetExisting, SetNew, SetValid) |
| Redirect.LruDelete | src/routes/redirect.ts:26-28 | `delete` on the cache state (see DeleteRemoves) |
| Redirect.GetMiss | src/routes/redirect.ts:12-13 | a missing key returns undefined and leaves the cache untouched |
| Redirect.GetHit | src/routes/redirect.ts:11-18 | a hit returns the stored entry, keeps the entries, and moves the key to the most recent end |
| Redirect.SetExisting | src/routes/redirect.ts:19-25 | overwriting a key keeps its position and evicts nothing |
| Redirect.SetNew | src/routes/redirect.ts:19-25 | a new key goes to the most recent end; when the size exceeds max, the oldest key is evicted; with max >= 1 the new key is present with its value |
| Redirect.DropFront | src/routes/redirect.ts:22-23 | dropping the oldest key leaves exactly the other keys, still duplicate-free |
| Redirect.SetValid | src/routes/redirect.ts:19-25 | `set` keeps the cache within max and its order consistent with its map |
| Redirect.DeleteRemoves | src/routes/redirect.ts:26-28 | after delete the key is absent; all other keys and values are unchanged; deleting a missing key changes nothing |
| Redirect.SetAll | src/routes/redirect.ts:19-25 | a run of sets keeps the cache well formed with its capacity |
| Redirect.FillUpToCapacity | src/routes/redirect.ts:19-25 | setting up to max distinct keys evicts none, and they are held in insertion order |
| Redirect.OverflowEvictsOldest | src/routes/redirect.ts:21-24 | setting max + 1 distinct keys evicts exactly the first one and leaves max entries |
| Redirect.RecencyFill | src/routes/redirect.ts:19-25 | in a capacity-2 cache, setting x then y keeps both, x oldest |
| Redirect.RecencyTouch | src/routes/redirect.ts:11-18 | reading x then makes y the oldest |
| Redirect.RecencyEvict | src/routes/redirect.ts:19-25 | setting a third key then evicts y, the least recently used, not x |
| Redirect.InvalidationMisses | src/routes/redirect.ts:26-28 | after a set and a delete of the same key, a get misses |
| Redirect.LRUCache.constructor | src/routes/redirect.ts:10 | a new cache is empty with the given max |
| Redirect.LRUCache.Get | src/routes/redirect.ts:11-18 | the method's new state and result are those of the LRU specification's get |
| Redirect.LRUCache.Set | src/routes/redirect.ts:19-25 | the new state is that of the specification's set |
| Redirect.LRUCache.Delete | src/routes/redirect.ts:26-28 | the new state is that of the specification's delete |
| Redirect.RouteCacheMax | src/routes/redirect.ts:31 | an unset or 0 setting gives 2000, a positive setting is used as is, and a negative one gives 0 (nothing stays cached) |
| Redirect.InvalidateCacheFor | src/routes/redirect.ts:33-35 | the code is no longer cached and nothing else changes |
| Redirect.Resolve | src/routes/redirect.ts:40-69 | the `/:code` handler on a cache state and a store lookup (see the lemmas below) |
| Redirect.HitSkipsStore | src/routes/redirect.ts:43-44 | a cached code is answered without the store, whatever the store would say |
| Redirect.MissWithoutRecord | src/routes/redirect.ts:45-46 | an uncached unknown code is a 404 that caches nothing; a failing lookup is a 500 |
| Redirect.MissCachesRecord | src/routes/redirect.ts:47-48 | an uncached known code is looked up and its URL and expiry are cached |
| Redirect.ExpiryAndRedirect | src/routes/redirect.ts:51-65 | a routed code always gets one of the route's statuses; the reply is 410 exactly when the (cached or fresh) entry's expiry is at or before now; clicks are counted exactly on a 302 redirect to its URL |
| Redirect.ResolveKeepsInv | src/routes/redirect.ts:40-69 | resolving a code keeps the cache well formed |
| Redirect.RepeatVisit | src/routes/redirect.ts:40-69 | the first visit reads the store and redirects; the second is served from the cache with the same URL; both count a click |
| Redirect.InvalidatedCodeIsLookedUp | src/routes/redirect.ts:33-35 | after invalidation the next visit reads the store |
| Redirect.HandleRedirect | src/routes/redirect.ts:40-69 | the reply and the new cache are those of the resolver against the store's lookup; the store is updated by one click exactly when the reply is a redirect |
| Auth.Authenticate | src/middleware/auth.ts:21-71 | `authMiddleware`: a rejection with status and message, or the admin/user decision (see the lemmas below) |
| Auth.VerifyOnlyWhenNeeded | src/middleware/auth.ts:23-41 | when no token check is needed, the outcome ignores verification and is a 401/500 or the admin bypass |
| Auth.MissingBearer | src/middleware/auth.ts:25-28 | without an "Authorization: Bearer " header the answer is 401 "Missing Bearer token" |
| Auth.AdminBypassIff | src/middleware/auth.ts:30-36 | the admin decision (no email) is made exactly when the trimmed token equals a configured admin token; with no admin token nobody is admin |
| Auth.OidcFailures | src/middleware/auth.ts:38-46 | a non-admin token with no issuer is a 500 "OIDC not configured"; a failed verification is a 401 "Invalid token" |
| Auth.AudienceRule | src/middleware/auth.ts:48-55 | with enforcement on and an audience set, a token whose aud does not match is a 401 "Invalid audience" |
| Auth.AudienceExamples | src/middleware/auth.ts:50 | an array aud matches by membership, a string aud by equality, and a missing aud never matches |
| Auth.IdentityFallback | src/middleware/auth.ts:58 | the identity is email, else preferred_username, else sub (first truthy one), and is never "" |
| Auth.IdentityDecides | src/middleware/auth.ts:57-66 | a verified token with no identity is a 403; otherwise a non-admin decision carrying that identity |
| Auth.OutcomeShapes | src/middleware/auth.ts:21-71 | every pass is admin with no email or non-admin with an email; every rejection is 401, 403 or 500 |
| Auth.CertsUrlSlash | src/middleware/auth.ts:15 | one trailing slash of the issuer is dropped before the certs path; a second one is kept |
| Auth.GetJwksSpec | src/middleware/auth.ts:10-19 | one `getJwks` call: its result and the memo afterwards (see JwksMemoised) |
| Auth.JwksMemoised | src/middleware/auth.ts:9-19 | the first success memoises the key set built for the issuer's certs URL, and later calls return it unchanged; no issuer is always an error |
| Auth.JwksCache.constructor | src/middleware/auth.ts:9 | the memo starts empty |
| Auth.JwksCache.GetJwks | src/middleware/auth.ts:10-19 | the result and new memo are those of the `getJwks` specification |
| Api.ListPlan | src/routes/api.ts:15-22 | what GET /api/url does before awaiting (see ListRules) |
| Api.ListRules | src/routes/api.ts:13-23 | an admin without a (truthy) email query gets 400; an admin with one lists that email; anyone else lists their own identity |
| Api.ListReplyRule | src/routes/api.ts:19-26 | a listing is a 200 when it succeeds and a 500 when it throws |
| Api.GetPlan | src/routes/api.ts:31-33 | the code check of GET /api/url/:code (see GetRules) |
| Api.GetReply | src/routes/api.ts:34-36 | the answer once the record is read (see GetRules) |
| Api.GetRules | src/routes/api.ts:30-37 | an invalid code is a 400 without a lookup; a missing record a 404 for anyone; an existing one is shown exactly to an admin or its creator, else 403 |
| Api.PostPlan | src/routes/api.ts:42-52 | the checks of POST /api/url and the `create` call it makes (see PostValidationOrder, CreatedByRule) |
| Api.PostReply | src/routes/api.ts:53-57 | the status of POST once `create` has returned or thrown (see PostStatus) |
| Api.PostValidationOrder | src/routes/api.ts:43-48 | the date check, then the presence check, then the URL check, each a 400; the service is called exactly when all pass |
| Api.CreatedByRule | src/routes/api.ts:50-52 | only the admin token lets the body's email (or 'system@local') be the creator; group admins and users create as themselves |
| Api.PostStatus | src/routes/api.ts:53-57 | success is 201; "could not generate unique code" is 409; any other error is 500 |
| Api.BlankLabelIsServerError | src/routes/api.ts:47 | any label made only of whitespace passes the handler's presence check and ends as a 500 from the service's trim check |
| Api.PutPlan | src/routes/api.ts:64-76 | the checks of PUT /api/url and the `update` call it makes (see PutValidation, PutForwarding) |
| Api.PutReply | src/routes/api.ts:77-85 | the status and the cache invalidation once `update` has returned or thrown (see PutOutcomes) |
| Api.PutForwarding | src/routes/api.ts:72-76 | an omitted date is not touched; null and "" clear it; a date sets it; admins update as 'admin@local', others as themselves; the requester and admin flag are forwarded |
| Api.PutValidation | src/routes/api.ts:65-70 | code, then URL (when present), then date checks, each a 400; the service is called exactly when all pass |
| Api.PutOutcomes | src/routes/api.ts:77-85 | the cache is invalidated exactly after a written update (200); null is a 404; 'forbidden' 403; 'invalid longUrl' 400; anything else 500 |
| Api.DeletePlan | src/routes/api.ts:92-94 | the code check of DELETE /api/url and the `remove` call (see DeleteValidation) |
| Api.DeleteReply | src/routes/api.ts:95-101 | the status and the cache invalidation once `remove` has returned or thrown (see DeleteOutcomes) |
| Api.DeleteOutcomes | src/routes/api.ts:94-101 | the cache is invalidated exactly after a removal (204); false is a 404; 'forbidden' 403; anything else 500 |
| Api.DeleteValidation | src/routes/api.ts:92-94 | a missing or invalid code is a 400 without a call; otherwise the caller's identity and admin flag go to `remove` |
| Api.StoreFailuresAreServerErrors | src/routes/api.ts:81-85 | a rejected database call behind PUT or DELETE is a 500 with no cache invalidation; a failed lookup is a 500 whatever the request |
| Api.Put | src/routes/api.ts:62-87 | the reply, the store and the redirect cache after PUT follow the plan, the update specification (store faults included) and the reply mapping; the cache entry is invalidated only after a written update |
| Api.Delete | src/routes/api.ts:90-103 | the reply, the store and the cache after DELETE follow the plan, the removal specification (store faults included) and the reply mapping |
| Api.SuccessfulWriteRefreshesRedirect | src/routes/api.ts:78-79 | after a successful write, the next redirect for that code reads the store |

## Left out

- I/O:
  - HTTP, Express routing, headers such as Cache-Control and X-Robots-Tag,
    and response bodies beyond their status and error message;
  - Prisma and the database, modelled as a map from code to record;
  - `async` scheduling and concurrency (two requests racing on the cache or
    the store).
- `updatedAt`: the model has no such column. The database defaults
  (clickCount 0, lastAccessAt null, createdAt now) are written explicitly at
  creation.
- Foreign code:
  - the WHATWG `URL` parser and `new Date` are input functions;
  - `jwtVerify` (signatures, issuer, expiry), `createRemoteJWKSet` and
    the network are inputs or opaque values;
  - `Math.random` is a sequence of index draws.
- The `LRUCache` constructor's default capacity of 1000 is not modelled: the
  only cache is built with an explicit capacity.
- Redirect.RouteCacheMax: a fractional `REDIRECT_CACHE_MAX` is not modelled.
  Only whole numbers and an unset value are.
- Redirect.HandleRedirect:
  - the resolver uses one `now` for the expiry check and for `lastAccessAt`;
  - the fire-and-forget increment is applied at once;
  - its own failures, which the source swallows, are not modelled;
  - the route pattern restricts codes to 1-32 letters and digits, and
    other paths are not routed here.
- Request bodies and JWT claims are strings, null or absent. Other JSON types
  (numbers, arrays, objects) are not modelled, and neither is the
  `String(...)` coercion of an array query parameter.
- Api.GetRules: a store failure in `GET /api/url/:code` is not modelled,
  because the handler has no `try`. Nor is the unhandled rejection that would
  follow.
- A rejected database call in `update` or `remove` carries one fixed
  message (`STORE_ERROR`) in place of Prisma's own. The handlers only
  compare it with 'forbidden' and 'invalid longUrl', which it is not.
- `req.adminToken` is never set by the middleware, so it is taken as an input
  flag of POST.
- Api.PutForwarding: a non-admin without an identity is forwarded with ""
  instead of `undefined` as updatedBy. The service refuses that request
  before writing (`AnonymousCannotUpdate`).
- UrlService.ShortUrlService.IncrementStatsOnRedirect: an unknown code leaves
  the store unchanged, where Prisma throws. The redirect route swallows that
  error.
- UrlService.ShortUrlService.ListByUser: `listByEmailAsAdmin` runs the same
  query and shares this member. Ties in createdAt may appear in any order; the
  model fixes one.
- The rest of `public/backend/app.js` (DOM rendering, Keycloak login, fetch
  calls), `src/server.ts` and `src/config/appConfig.ts` are not part of this
  model.

# Link shortener core in Dafny

This project models the backend link service of a URL shortener. It also models
the two small pure pieces that go with it: the user upsert used by every owner
operation, and the message rule of the frontend's not-found page.

The service is a state machine over three parts of state:

- the durable store, which holds the `ShortUrl` table (in insertion order) and the `User` table (keyed by Clerk id);
- the Redis cache, mapping `short:<code>` to a long URL together with the TTL it was written with;
- the environment of each request, which holds the `FRONTEND_URL` setting (default `http://localhost:5173`) and the set of database or cache calls that throw.

Each of the four handlers is a pure function from a state to a new state and a response:

- `getURL` does cache-aside redirect resolution with click counting;
- `patchUrl` is an update scoped to the caller, followed by cache invalidation;
- `createURL` stores a fresh 7-character nanoid code;
- `getAllUrls` lists the caller's links, newest first.

Other parts of the environment become inputs:

- the ids the database would generate, nanoid's random bytes and the clock are supplied as values;
- the caller's Clerk id is an input;
- TTL expiry is a separate `Expire` transition.

Modules, one per source concern:

- `Types`: entities, state, environment, and the database invariants (`Valid`).
- `Store`: the Prisma calls on the `ShortUrl` table: `findUnique`, the click `update`, and `updateMany`.
- `Cache`: the cache key, `redis.get`, and TTL expiry.
- `Users`: `getOrCreateUser` (backend/lib/createUser.js).
- `NanoId`: `nanoid(7)` as a function of a random byte stream.
- `Listing`: `findMany` filtered by owner and ordered by `createdAt` descending.
- `Links`: the four handlers (backend/services/url.services.js).
- `Resolution`, `Ownership`: properties of the handlers, alone and in sequence.
- `Service`: any sequence of requests, with the invariants that hold across it.
- `NotFoundPage`, `SearchParams`, `RedirectPages`: the frontend message rule (frontend/src/pages/NotFoundPage.jsx), and the message that rule gives when applied to the query of the two fallback redirects of `getURL`. The app does not route that page, so the lemmas are about the rule, not about a page a browser would show.

Behaviour of the code worth knowing:

- On a cache hit, a click is counted for the record with the code even if that record is inactive.
- A failing click increment is not swallowed. It sends the redirect to `/?error=server`, on the hit path too.
- A duplicate generated code fails creation with 500. There is no retry.
- If the re-read or the cache delete fails after `updateMany` has committed, `patchUrl` answers 500. The update is not rolled back and the cache entry stays stale (`Ownership.PatchStaleWhenCacheDown`).

JavaScript truthiness is modelled explicitly: an empty string is falsy. So a cached empty string counts as a miss, an empty `FRONTEND_URL` falls back to the default, and an empty `longUrl` gets the 400 response.

## Model

| member | source | states |
|---|---|---|
| Users.GetOrCreateUser | backend/lib/createUser.js:8-30 | A falsy clerkId fails with nothing changed. An existing user is returned as it is. A new clerkId, with the upsert up and an unused id, adds exactly the user with that id and clerkId and returns it. The call fails exactly when the clerkId is falsy, the upsert throws, or the new row would break the id constraint. |
| Users.GetOrCreateIdempotent | backend/lib/createUser.js:16-22 | Calling a second time with the same clerkId returns the same user and leaves the user map as the first call left it. |
| Users.GetOrCreateOthersUntouched | backend/lib/createUser.js:16-22 | Users with any other clerkId are never modified or removed. |
| Users.GetOrCreatePreservesWellKeyed | backend/lib/createUser.js:16-22 | The upsert keeps users keyed by clerkId with unique ids, never drops a user id, and the returned user is the one stored under the clerkId. |
| Store.IndexOf | backend/services/url.services.js:72-74 | `findUnique` finds the first row with the key, and finds nothing exactly when no row has it. |
| Store.FindUnique | backend/services/url.services.js:72-74 | `findUnique` returns a row of the table that has the key, and returns nothing exactly when no row has it. |
| Store.IndexOfUnique | backend/services/url.services.js:94-96 | Under the unique constraints, a row that has the key is the row `findUnique` returns. |
| Store.SameKeysIndexOf | backend/services/url.services.js:146-148 | A lookup by a unique key gives the same position in two tables that agree on ids, codes and owners. |
| Store.IncrementClicks | backend/services/url.services.js:83-86 | The rows with the id gain exactly one click, every other row keeps its count, and no other column of any row changes. |
| Store.CountMatches | backend/services/url.services.js:141 | The `updateMany` count is zero exactly when no row matches both the id and the owner. |
| Store.UpdateMany | backend/services/url.services.js:133-139 | Rows matching both id and owner get exactly the supplied fields written. Every other row is unchanged. The count is zero iff nothing matched, and then the table is unchanged. |
| NanoId.Generate | backend/services/url.services.js:31 | The code has exactly the requested number of symbols. Each symbol is URL-safe and encodes the low six bits of its random byte. |
| NanoId.SymbolRoundTrip | backend/services/url.services.js:31 | Symbol and SymbolIndex are inverse bijections between 0..63 and the URL-safe alphabet. |
| Listing.OwnedBy | backend/services/url.services.js:173-174 | The filtered list holds each row of the given owner as many times as the table does, and no other row. |
| Listing.SortNewestFirst | backend/services/url.services.js:175 | The result is ordered by `createdAt`, newest first, and is a permutation of its input. |
| Cache.CacheKeyInjective | backend/services/url.services.js:65 | Distinct codes never share a cache key. |
| Cache.ReadAfterWrite | backend/services/url.services.js:68-91 | A `redis.get` after `redis.set` reads back the stored string. After a delete or expiry it reads nothing. Neither write changes what any other key reads. |
| Cache.Expire | backend/services/url.services.js:91 | When a key's TTL elapses, only that key disappears. Store and users are unchanged. |
| Links.FrontendUrl | backend/services/url.services.js:42 | The base is never empty: the configured `FRONTEND_URL`, or the default when that is unset or empty. |
| Links.GetUrl | backend/services/url.services.js:59-115 | Every response is a 302 redirect and users are untouched. Each record either stays the same or gains exactly one click. Only a record sharing the id of the row with the requested code can change. The cache either stays the same or gains `short:<code>` holding the long URL of that active record, with TTL 3600. |
| Links.PatchUrl | backend/services/url.services.js:119-159 | The users afterwards are those the caller's upsert leaves. Ids, codes and owners never change. A record changes only if it matches the id and the user id the upsert returned, and then only by the supplied fields. A failed upsert gives 500 with table and cache unchanged. A 404 leaves table and cache unchanged. A 200 means the caller owns a record with that id. |
| Links.ScopedUpdate | backend/services/url.services.js:129-154 | The same scoping for a resolved owner id. The answer is 404 exactly when `updateMany` succeeds and no record matches, and then nothing changes. When `updateMany` succeeds and a record matches, the table becomes its result, and with the re-read and the delete up the answer is 200. The cache either stays the same or, on a 200, loses exactly the key of a record with that id. |
| Links.CreateUrl | backend/services/url.services.js:14-55 | The answer is 400 exactly when longUrl is falsy, and then nothing changes. Otherwise the users are those the caller's upsert leaves. A 201 happens only when the insert succeeds, and appends exactly one record: the supplied id, the generated 7-symbol URL-safe code, the given longUrl, the upserted user's id, active, zero clicks, the current time. Its `shortUrl` is base + "/" + code. With the upsert and the insert up and an unused id and code, the answer is 201. Any other outcome leaves the table unchanged, and the cache is never touched. |
| Links.GetAllUrls | backend/services/url.services.js:163-186 | Table and cache are unchanged, and the users are those the caller's upsert leaves. The answer is 200 exactly when the upsert and `findMany` succeed. A 200 lists exactly the records of the upserted user, each once per row, newest first. |
| Resolution.IncrementOne | backend/services/url.services.js:83-86 | Under the unique constraints, the click update by id changes exactly one row, by one click. |
| Resolution.GetUrlMissNotFound | backend/services/url.services.js:70-80 | On a miss for a missing or inactive record, the redirect goes to `base/?notfound=<code>`, and store and cache are unchanged. |
| Resolution.GetUrlMissActive | backend/services/url.services.js:65-108 | On a miss for an active record, that record's clicks rise by exactly one and nothing else in the table changes. `short:<code>` is set to its longUrl with TTL 3600, and the redirect goes to that longUrl. |
| Resolution.GetUrlHit | backend/services/url.services.js:92-108 | On a hit, the redirect goes to the cached string whatever the store holds, and the cache is not written. A click is counted iff a record with the code exists, whether or not it is active. |
| Resolution.GetUrlErrors | backend/services/url.services.js:63-114 | Each failing call the handler reaches (cache read, store read, click increment, cache write) redirects to `base/?error=server`. Every failure before a write leaves the state unchanged. |
| Resolution.GetUrlTargets | backend/services/url.services.js:59-115 | Every redirect goes to the cached target, the stored longUrl of the code's active record, the not-found page or the error page. |
| Resolution.GetUrlPreservesValid | backend/services/url.services.js:83-86 | A redirect keeps the unique constraints and the owner references. |
| Resolution.GetUrlPreservesCoherence | backend/services/url.services.js:88-91 | If every cache entry held the longUrl of an active record with its code before a redirect, that still holds after it. |
| Resolution.GetUrlAgreesWithStore | backend/services/url.services.js:67-108 | With a coherent cache and no failures, the redirect target equals the store-only resolution: the active record's longUrl, or the not-found page. |
| Resolution.RepeatedRedirect | backend/services/url.services.js:67-108 | Two redirects in a row for an active code both reach its longUrl (the first fills the cache, and the second is served from it) and count two clicks. |
| Resolution.ExpiredDeactivatedNotFound | backend/services/url.services.js:70-91 | Once the cache entry of an inactive record has expired, its code redirects to the not-found page. |
| Resolution.ExpirePreservesCoherence | backend/services/url.services.js:91 | Expiry keeps the cache coherent. |
| Ownership.UpdateManyOne | backend/services/url.services.js:133-139 | Under the unique constraints, the scoped update changes exactly the one row it matches. |
| Ownership.ScopedUpdateSuccess | backend/services/url.services.js:133-154 | A 200 means one record matched both the id and the owner. Only that record changed, and exactly its cache key was deleted. |
| Ownership.PatchSuccessInvalidates | backend/services/url.services.js:145-154 | The same for the whole PATCH handler, where the owner is the caller's resolved user id. |
| Ownership.PatchOwnerApplies | backend/services/url.services.js:127-154 | Once the caller is resolved, with the update, re-read and cache delete up, a patch of the caller's record with that id answers 200 and the table becomes the `updateMany` result. |
| Ownership.PatchForeignRecord | backend/services/url.services.js:133-143 | A patch by a caller who does not own record `id` answers 404 and changes nothing, so another owner's record looks like a missing one. |
| Ownership.PatchOnlyOwnFields | backend/services/url.services.js:129-139 | A patch never changes ids, codes, owners, click counts or creation times. A field left undefined in the body stays unchanged in every record. |
| Ownership.PatchPreservesValid | backend/services/url.services.js:127-139 | A patch keeps the unique constraints, the user keys and the owner references. |
| Ownership.PatchPreservesCoherence | backend/services/url.services.js:145-154 | A patch that does not answer 500 keeps the cache coherent. |
| Ownership.DeactivateThenRedirect | backend/services/url.services.js:145-154 | After a successful patch with `isActive: false`, the next redirect for that record's code goes to the not-found page. |
| Ownership.MissOnInactive | backend/services/url.services.js:70-80 | An inactive record without a cache entry redirects to the not-found page. |
| Ownership.PatchStaleWhenCacheDown | backend/services/url.services.js:145-158 | Concrete case: if the cache delete fails, the answer is 500 while the record is already inactive. The cache is then incoherent and the old target is still served. |
| Ownership.CreateDuplicateCodeFails | backend/services/url.services.js:31-54 | A generated code that is already taken gives 500 with the table unchanged. There is no retry. |
| Ownership.CreatePreservesValid | backend/services/url.services.js:29-39 | Creation keeps the unique constraints, the user keys and the owner references. |
| Ownership.CreatePreservesCoherence | backend/services/url.services.js:33-39 | Creation keeps the cache coherent. |
| Ownership.PrefixIndexOf | backend/services/url.services.js:33-39 | Appending a row does not move the first match of a key already in the table. |
| Ownership.CreateThenRedirect | backend/services/url.services.js:33-39 | With a coherent cache, a link just created redirects to its longUrl. |
| Ownership.ListExactlyOwn | backend/services/url.services.js:170-181 | A listing holds a record iff the user id returned by the caller's upsert owns it. It is newest first, and table and cache are unchanged. |
| Service.Handle | backend/services/url.services.js:14-186 | One request keeps the id, code and owner of every existing record, adds at most one record, and leaves every existing user exactly as it was. |
| Service.Run | backend/services/url.services.js:14-186 | A sequence of requests adds at most one record per request. It keeps the id, code and owner of every existing record, in place, and leaves every existing user exactly as it was. |
| Service.HandleClicksGrow | backend/services/url.services.js:83-86 | No request removes a record, changes its key columns or creation time, or lowers its click count. |
| Service.HandlePreservesValid | backend/services/url.services.js:14-186 | Every request keeps the database invariants. |
| Service.PatchReachableCoherence | backend/services/url.services.js:145-154 | A patch whose re-read and cache delete cannot fail keeps the cache coherent, whatever it answers. |
| Service.HandlePreservesCoherence | backend/services/url.services.js:14-186 | Every request keeps the cache coherent, as long as a patch can reach its invalidation. |
| Service.RunInvariants | backend/services/url.services.js:14-186 | Over any sequence of requests the database invariants hold, no record is removed, and click counts never go down. |
| Service.RunKeepsCacheCoherent | backend/services/url.services.js:14-186 | Over any sequence of requests in which every patch can reach its invalidation, the cache stays coherent. |
| NotFoundPage.Message | frontend/src/pages/NotFoundPage.jsx:8-13 | A truthy `notfound` gives `The short link "`, then exactly that code, then `" was not found or has been deactivated.`. Otherwise the message is the error text iff `error` is truthy, and the default text iff it is not. |
| NotFoundPage.MessageSelection | frontend/src/pages/NotFoundPage.jsx:8-13 | A truthy `notfound` gives the not-found message: the not-found wording around exactly that code, winning over `error`. Otherwise a truthy `error` gives the processing-error text. Otherwise the page gives the default text. The three cases are told apart in both directions. |
| NotFoundPage.NotFoundMessageInjective | frontend/src/pages/NotFoundPage.jsx:10 | Different codes give different not-found messages. |
| SearchParams.SinglePair | frontend/src/pages/NotFoundPage.jsx:4-6 | A query `name=value` yields `value` for `name` and nothing for any other name. |
| RedirectPages.DefaultBaseIsPlain | backend/services/url.services.js:78 | The default frontend address has no query or fragment, so the fallback redirects carry their parameter when `FRONTEND_URL` is unset. |
| RedirectPages.ParamOfRedirect | frontend/src/pages/NotFoundPage.jsx:4-6 | On `base/?name=value`, the page's query reading gives `value` for `name` and nothing for any other parameter. |
| RedirectPages.NotFoundRedirectNamesCode | frontend/src/pages/NotFoundPage.jsx:5-10 | Applied to the query of the `?notfound=<code>` redirect, the not-found page's message rule gives the message that names that code. |
| RedirectPages.ErrorRedirectShowsError | frontend/src/pages/NotFoundPage.jsx:6-12 | Applied to the query of the `?error=server` redirect, the message rule gives the processing-error message. |
| RedirectPages.FallbackRedirectsExplained | backend/services/url.services.js:63-113 | The message rule is applied to the query of the location `getURL` redirects to, for a URL-safe code. After a failed cache or store read it gives the processing-error message. With a coherent cache and no failing call, a code with no active record gives the message naming the code. |

## Left out

- Rate limiting: the limiter middlewares run in the Express chain before the handlers. Their windows and counters are not part of this model.
- Express wiring, CORS, security headers, route order and the 404 handler: framework plumbing.
- Clerk authentication: `requireAuth` and `req.auth()` are replaced by the caller's Clerk id as an input. An `auth` call that throws is not modelled.
- Prisma and Redis client construction, connection handling and timeouts: foreign I/O. A failing call is modelled as a `Step` in `Env.down`.
- TTL timing: there is no clock. Expiry is the separate `Cache.Expire` transition.
- Generated values: the randomness of nanoid, the database's ids and `now()` are inputs (`Links.Fresh`). A duplicate generated id or code is a unique-constraint failure.
- NanoId.Generate: the symbol set is the 64-character URL-safe alphabet in base64url order. The nanoid library is not part of this model, so its own ordering of the symbols is not modelled.
- The Prisma schema is not part of this model. New records are assumed active with zero clicks. `totalClicks` is an unbounded `nat`, so an overflow of the database column is not modelled.
- Records with equal `createdAt` are listed in an order this model fixes. The database leaves that order unspecified.
- Request bodies are modelled as optional strings and booleans. On POST, a falsy `longUrl` (missing, `null`, `0`, `false`, empty) gets the handler's 400 before the database is reached, as `None` or `""` does here. A truthy non-string `longUrl` on POST, and on PATCH a `null`, numeric or non-boolean field, are passed to Prisma, which rejects them with a 500 that is not modelled.
- The encoding `res.redirect` applies to the Location header is not modelled.
- SearchParams.Param: percent-decoding and `+` as space are not modelled. The frontend lemmas are stated for URL-safe codes, where decoding changes nothing.
- Store.UpdateMany: a patch body with neither field makes `updateMany` run with empty `data`. The count is assumed to be the number of matching rows, because the database engine's handling of an empty update is not part of this model. If the engine reports 0 instead, the handler would answer 404.
- Concurrency, including the atomicity of concurrent click increments: the model is sequential.
- Console logging.
- The other frontend files (dashboard, routing, layout, sign-in pages, redirect page) are UI rendering and navigation. The not-found page is not routed in the app, so a `/?notfound=` redirect lands on the home page. Only the page's message rule is modelled.

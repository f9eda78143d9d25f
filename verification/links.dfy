/** The four request handlers of the link service, each a transition from a state
    to a new state and the response it sends. */
module Links {
  import opened Types
  import opened Store
  import opened Cache
  import Users
  import NanoId
  import Listing

  const DefaultFrontendUrl := "http://localhost:5173"

  /** Length of a generated short code (`nanoid(7)`). */
  const CodeLength: nat := 7

  /** `process.env.FRONTEND_URL || 'http://localhost:5173'`. */
  function FrontendUrl(env: Env): (base: string)
    ensures base != ""
    ensures env.frontendUrl == Some(base) || (!Truthy(env.frontendUrl) && base == DefaultFrontendUrl)
  {
    if Truthy(env.frontendUrl) then env.frontendUrl.value else DefaultFrontendUrl
  }

  /** The query parameters the fallback redirects carry to the frontend. */
  const NotFoundParam := "notfound"
  const ErrorParam := "error"

  /** `${frontendUrl}/?notfound=${shortCode}`. */
  function NotFoundLocation(base: string, code: string): string {
    base + "/?" + NotFoundParam + "=" + code
  }

  /** `${frontendUrl}/?error=server`. */
  function ErrorLocation(base: string): string {
    base + "/?" + ErrorParam + "=" + "server"
  }

  /** `res.redirect(status, location)`. */
  datatype Redirect = Redirect(status: nat, location: string)

  /** The JSON bodies the API handlers send; all but ErrorBody carry `success: true`. */
  datatype Body =
    | ErrorBody(error: string)
    | CreatedBody(url: ShortUrl, shortUrl: string)
    | AckBody(message: string)
    | ListBody(urls: seq<ShortUrl>)

  datatype Response = Response(status: nat, body: Body)

  /** Values generated while creating a link: the database's ids for a new
      ShortUrl and a new User, nanoid's random byte stream, and the clock. */
  datatype Fresh = Fresh(urlId: string, userId: string, random: nat -> bv8, now: int)

  /** `getOrCreateUser(auth.userId)` against the state's User table, with
      `newId` the id the database would give a created row. */
  function Upsert(st: State, env: Env, clerkId: Option<string>, newId: string): (map<string, User>, Result<User>) {
    Users.GetOrCreateUser(st.users, clerkId, newId, env.down)
  }

  /** The record GET /:shortCode would count a click for: the row with that code. */
  function CodeRow(st: State, code: string): Option<ShortUrl> {
    FindUnique(st.urls, Code(code))
  }

  /** The table after counting one click for `u`. */
  function CountClick(st: State, u: ShortUrl): State {
    st.(urls := IncrementClicks(st.urls, u.id))
  }

  /** GET /:shortCode: cache-aside resolution of a short code to a redirect.
      On a cache miss the store is read, and an active record gets a click and
      is cached; on a hit the cached URL is served and a click is counted for
      the record with the code, if there is one. Any thrown error redirects to
      the frontend's error page. */
  function GetUrl(st: State, env: Env, code: string): (r: (State, Redirect))
    ensures r.1.status == 302
    ensures r.0.users == st.users
    ensures |r.0.urls| == |st.urls|
    ensures forall i :: 0 <= i < |st.urls| ==>
      r.0.urls[i] == st.urls[i] || r.0.urls[i] == Clicked(st.urls[i])
    ensures forall i :: 0 <= i < |st.urls| && r.0.urls[i] != st.urls[i] ==>
      var f := IndexOf(st.urls, Code(code)); f.Some? && st.urls[f.value].id == st.urls[i].id
    ensures r.0.cache == st.cache ||
      (var f := CodeRow(st, code);
       f.Some? && f.value.isActive &&
       r.0.cache == st.cache[CacheKey(code) := CacheEntry(f.value.longUrl, TtlSeconds)])
  {
    var key := CacheKey(code);
    var base := FrontendUrl(env);
    var failed := (st, Redirect(302, ErrorLocation(base)));
    if CacheGet in env.down then failed
    else
      var cached := Get(st.cache, key);
      if StoreFind in env.down then failed
      else
        var found := CodeRow(st, code);
        if !Truthy(cached) then
          if found.None? || !found.value.isActive then
            (st, Redirect(302, NotFoundLocation(base, code)))
          else if StoreIncrement in env.down then failed
          else
            var counted := CountClick(st, found.value);
            if CacheSet in env.down then (counted, Redirect(302, ErrorLocation(base)))
            else
              (counted.(cache := st.cache[key := CacheEntry(found.value.longUrl, TtlSeconds)]),
               Redirect(302, found.value.longUrl))
        else if found.None? then (st, Redirect(302, cached.value))
        else if StoreIncrement in env.down then failed
        else (CountClick(st, found.value), Redirect(302, cached.value))
  }

  /** PATCH /api/urls/:id: resolves the caller, then runs the scoped update of
      the caller's record `id` followed by invalidation of its cache entry. */
  function PatchUrl(st: State, env: Env, clerkId: Option<string>, newUserId: string, id: string, body: Patch)
    : (r: (State, Response))
    ensures r.1.status in {200, 404, 500}
    ensures r.0.users == Upsert(st, env, clerkId, newUserId).0
    ensures SameKeys(st.urls, r.0.urls)
    ensures forall i :: 0 <= i < |st.urls| && r.0.urls[i] != st.urls[i] ==>
      var caller := Upsert(st, env, clerkId, newUserId).1;
      && caller.Ok?
      && Matches(st.urls[i], id, caller.value.id)
      && r.0.urls[i] == Apply(st.urls[i], body)
    ensures r.1.status == 404 ==> r.0.urls == st.urls && r.0.cache == st.cache
    ensures Upsert(st, env, clerkId, newUserId).1.Err? ==>
      r.1.status == 500 && r.0.urls == st.urls && r.0.cache == st.cache
    ensures r.1.status == 200 ==>
      var caller := Upsert(st, env, clerkId, newUserId).1;
      caller.Ok? && exists i :: 0 <= i < |st.urls| && Matches(st.urls[i], id, caller.value.id)
  {
    var upsert := Upsert(st, env, clerkId, newUserId);
    var st1 := st.(users := upsert.0);
    if upsert.1.Err? then (st1, Response(500, ErrorBody(PatchFailed)))
    else ScopedUpdate(st1, env, upsert.1.value.id, id, body)
  }

  const PatchFailed := "Failed to update URL"

  /** The part of PATCH /api/urls/:id after the caller is resolved to `userId`:
      `updateMany` on id and owner, a 404 when nothing matched, then a re-read
      of the record by id and the deletion of its cache key. */
  function ScopedUpdate(st: State, env: Env, userId: string, id: string, body: Patch): (r: (State, Response))
    ensures r.1.status in {200, 404, 500}
    ensures r.0.users == st.users
    ensures SameKeys(st.urls, r.0.urls)
    ensures forall i :: 0 <= i < |st.urls| && r.0.urls[i] != st.urls[i] ==>
      Matches(st.urls[i], id, userId) && r.0.urls[i] == Apply(st.urls[i], body)
    ensures r.1.status == 404 <==>
      StoreUpdateMany !in env.down && forall i :: 0 <= i < |st.urls| ==> !Matches(st.urls[i], id, userId)
    ensures r.1.status == 404 ==> r.0 == st
    ensures StoreUpdateMany !in env.down && (exists i :: 0 <= i < |st.urls| && Matches(st.urls[i], id, userId)) ==>
      r.0.urls == UpdateMany(st.urls, id, userId, body).0
    ensures (env.down !! {StoreUpdateMany, StoreFind, CacheDel} &&
             exists i :: 0 <= i < |st.urls| && Matches(st.urls[i], id, userId)) ==>
      r.1.status == 200
    ensures r.0.cache == st.cache ||
      (r.1.status == 200 &&
       exists i :: 0 <= i < |st.urls| && st.urls[i].id == id &&
         r.0.cache == st.cache - {CacheKey(st.urls[i].shortCode)})
  {
    var failed := Response(500, ErrorBody(PatchFailed));
    if StoreUpdateMany in env.down then (st, failed)
    else
      var updated := UpdateMany(st.urls, id, userId, body);
      if updated.1 == 0 then (st, Response(404, ErrorBody("URL not found or access denied")))
      else
        var st2 := st.(urls := updated.0);
        var ok := Response(200, AckBody("URL updated"));
        if StoreFind in env.down then (st2, failed)
        else
          var idx := IndexOf(updated.0, Id(id));
          if idx.None? then (st2, ok)
          else if CacheDel in env.down then (st2, failed)
          else
            assert st.urls[idx.value].shortCode == updated.0[idx.value].shortCode;
            (st2.(cache := st.cache - {CacheKey(updated.0[idx.value].shortCode)}), ok)
  }

  /** POST /api/urls: creates a record with a fresh 7-character code for the
      caller and answers with the record and its public short link. */
  function CreateUrl(st: State, env: Env, clerkId: Option<string>, longUrl: Option<string>, supply: Fresh)
    : (r: (State, Response))
    ensures r.1.status in {201, 400, 500}
    ensures !Truthy(longUrl) ==> r == (st, Response(400, ErrorBody("longUrl is required")))
    ensures r.1.status == 400 <==> !Truthy(longUrl)
    ensures r.1.status == 201 ==> StoreCreate !in env.down
    ensures Truthy(longUrl) ==> r.0.users == Upsert(st, env, clerkId, supply.userId).0
    ensures r.0.cache == st.cache
    ensures r.1.status != 201 ==> r.0.urls == st.urls
    ensures r.1.status == 201 ==>
      && r.1.body.CreatedBody?
      && var row := r.1.body.url;
      && r.0.urls == st.urls + [row]
      && Insertable(st.urls, row)
      && |row.shortCode| == CodeLength
      && (forall i :: 0 <= i < |row.shortCode| ==> NanoId.UrlSafe(row.shortCode[i]))
      && Truthy(longUrl) && row.longUrl == longUrl.value
      && Upsert(st, env, clerkId, supply.userId).1.Ok?
      && row.userId == Upsert(st, env, clerkId, supply.userId).1.value.id
      && row.id == supply.urlId && row.shortCode == NanoId.Generate(CodeLength, supply.random)
      && row.isActive && row.totalClicks == 0 && row.createdAt == supply.now
      && r.1.body.shortUrl == FrontendUrl(env) + "/" + row.shortCode
    ensures (&& Truthy(longUrl) && Upsert(st, env, clerkId, supply.userId).1.Ok? && StoreCreate !in env.down
             && forall i :: 0 <= i < |st.urls| ==>
                  st.urls[i].id != supply.urlId && st.urls[i].shortCode != NanoId.Generate(CodeLength, supply.random)) ==>
      r.1.status == 201
  {
    if !Truthy(longUrl) then (st, Response(400, ErrorBody("longUrl is required")))
    else
      var failed := Response(500, ErrorBody("Failed to create short URL"));
      var upsert := Upsert(st, env, clerkId, supply.userId);
      var st1 := st.(users := upsert.0);
      if upsert.1.Err? then (st1, failed)
      else
        var code := NanoId.Generate(CodeLength, supply.random);
        var row := ShortUrl(supply.urlId, code, longUrl.value, upsert.1.value.id, true, 0, supply.now);
        if StoreCreate in env.down || !Insertable(st.urls, row) then (st1, failed)
        else
          (st1.(urls := st.urls + [row]),
           Response(201, CreatedBody(row, FrontendUrl(env) + "/" + code)))
  }

  /** GET /api/urls: the caller's records, newest first. */
  function GetAllUrls(st: State, env: Env, clerkId: Option<string>, newUserId: string)
    : (r: (State, Response))
    ensures r.1.status in {200, 500}
    ensures r.0.urls == st.urls && r.0.cache == st.cache
    ensures r.0.users == Upsert(st, env, clerkId, newUserId).0
    ensures r.1.status == 200 <==> Upsert(st, env, clerkId, newUserId).1.Ok? && StoreFindMany !in env.down
    ensures r.1.status == 200 ==>
      && r.1.body.ListBody?
      && var owner := Upsert(st, env, clerkId, newUserId).1.value.id;
      && Listing.NewestFirst(r.1.body.urls)
      && forall u :: multiset(r.1.body.urls)[u] ==
           if u.userId == owner then multiset(st.urls)[u] else 0
  {
    var upsert := Upsert(st, env, clerkId, newUserId);
    var st1 := st.(users := upsert.0);
    if upsert.1.Err? || StoreFindMany in env.down then
      (st1, Response(500, ErrorBody("Failed to fetch URLs")))
    else
      var owned := Listing.OwnedBy(st.urls, upsert.1.value.id);
      (st1, Response(200, ListBody(Listing.SortNewestFirst(owned))))
  }
}

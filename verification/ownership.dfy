/** Properties of the owner's operations: who can change which record, when the
    cache entry is invalidated, and what creation and listing produce. */
module Ownership {
  import opened Types
  import opened Store
  import opened Cache
  import opened Links
  import opened Resolution
  import Users
  import Listing

  /** A successful scoped update touched the one record with the id, which
      belongs to `userId`, and deleted exactly that record's cache entry. */
  lemma ScopedUpdateSuccess(st: State, env: Env, userId: string, id: string, body: Patch)
    requires UniqueRows(st.urls)
    requires ScopedUpdate(st, env, userId, id, body).1.status == 200
    ensures var r := ScopedUpdate(st, env, userId, id, body);
      exists i :: 0 <= i < |st.urls| && Matches(st.urls[i], id, userId) &&
        r.0.urls == st.urls[i := Apply(st.urls[i], body)] &&
        r.0.cache == st.cache - {CacheKey(st.urls[i].shortCode)}
  {
    var r := ScopedUpdate(st, env, userId, id, body);
    assert StoreUpdateMany !in env.down;
    var updated := UpdateMany(st.urls, id, userId, body);
    assert updated.1 != 0 && StoreFind !in env.down;
    var i :| 0 <= i < |st.urls| && Matches(st.urls[i], id, userId);
    SameKeysUnique(st.urls, updated.0);
    IndexOfUnique(updated.0, Id(id), i);
    UpdateManyOne(st.urls, id, userId, body, i);
    assert CacheDel !in env.down;
    assert r.0.cache == st.cache - {CacheKey(st.urls[i].shortCode)};
  }

  /** Under the unique constraints, the scoped update changes exactly the one
      row it matches. */
  lemma UpdateManyOne(urls: seq<ShortUrl>, id: string, userId: string, body: Patch, i: nat)
    requires UniqueRows(urls) && i < |urls| && Matches(urls[i], id, userId)
    ensures UpdateMany(urls, id, userId, body).0 == urls[i := Apply(urls[i], body)]
  {
    var updated := UpdateMany(urls, id, userId, body).0;
    forall j | 0 <= j < |urls| ensures updated[j] == urls[i := Apply(urls[i], body)][j] {
      if j != i {
        assert urls[j].id != id;
      }
    }
  }

  /** A successful patch touched a record matching both the id and the caller,
      changed only that record, and deleted exactly its cache entry. */
  lemma PatchSuccessInvalidates(st: State, env: Env, clerkId: Option<string>, newUserId: string, id: string, body: Patch)
    requires UniqueRows(st.urls)
    requires PatchUrl(st, env, clerkId, newUserId, id, body).1.status == 200
    ensures var r := PatchUrl(st, env, clerkId, newUserId, id, body);
      && Upsert(st, env, clerkId, newUserId).1.Ok?
      && exists i :: 0 <= i < |st.urls| &&
           Matches(st.urls[i], id, Upsert(st, env, clerkId, newUserId).1.value.id) &&
           r.0.urls == st.urls[i := Apply(st.urls[i], body)] &&
           r.0.cache == st.cache - {CacheKey(st.urls[i].shortCode)}
  {
    var upsert := Upsert(st, env, clerkId, newUserId);
    ScopedUpdateSuccess(st.(users := upsert.0), env, upsert.1.value.id, id, body);
  }

  /** The owner's patch takes effect: once the caller is resolved, with the
      update, the re-read and the cache delete up, a record of the caller with
      that id is updated and the answer is 200. */
  lemma PatchOwnerApplies(st: State, env: Env, clerkId: Option<string>, newUserId: string, id: string, body: Patch, k: nat)
    requires Upsert(st, env, clerkId, newUserId).1.Ok?
    requires env.down !! {StoreUpdateMany, StoreFind, CacheDel}
    requires k < |st.urls| && Matches(st.urls[k], id, Upsert(st, env, clerkId, newUserId).1.value.id)
    ensures var r := PatchUrl(st, env, clerkId, newUserId, id, body);
      && r.1.status == 200
      && r.0.urls == UpdateMany(st.urls, id, Upsert(st, env, clerkId, newUserId).1.value.id, body).0
  {
  }

  /** A patch that matches no record of the caller answers 404 and leaves the
      table and the cache as they were: a record of another owner is
      indistinguishable from a missing one. */
  lemma PatchForeignRecord(st: State, env: Env, clerkId: Option<string>, newUserId: string, id: string, body: Patch)
    requires WellKeyed(st.users)
    requires Truthy(clerkId) && clerkId.value in st.users
    requires env.down !! {UserUpsert, StoreUpdateMany}
    requires forall i :: 0 <= i < |st.urls| && st.urls[i].id == id ==>
      st.urls[i].userId != st.users[clerkId.value].id
    ensures PatchUrl(st, env, clerkId, newUserId, id, body) ==
      (st, Response(404, ErrorBody("URL not found or access denied")))
  {
  }

  /** A patch changes only the supplied fields of the caller's record: ids,
      codes, owners and click counters stay as they were. */
  lemma PatchOnlyOwnFields(st: State, env: Env, clerkId: Option<string>, newUserId: string, id: string, body: Patch)
    ensures var r := PatchUrl(st, env, clerkId, newUserId, id, body);
      forall i :: 0 <= i < |st.urls| ==>
        && r.0.urls[i].id == st.urls[i].id
        && r.0.urls[i].shortCode == st.urls[i].shortCode
        && r.0.urls[i].userId == st.urls[i].userId
        && r.0.urls[i].totalClicks == st.urls[i].totalClicks
        && r.0.urls[i].createdAt == st.urls[i].createdAt
        && (body.longUrl.None? ==> r.0.urls[i].longUrl == st.urls[i].longUrl)
        && (body.isActive.None? ==> r.0.urls[i].isActive == st.urls[i].isActive)
  {
  }

  lemma PatchPreservesValid(st: State, env: Env, clerkId: Option<string>, newUserId: string, id: string, body: Patch)
    requires Valid(st)
    ensures Valid(PatchUrl(st, env, clerkId, newUserId, id, body).0)
  {
    var r := PatchUrl(st, env, clerkId, newUserId, id, body);
    Users.GetOrCreatePreservesWellKeyed(st.users, clerkId, newUserId, env.down);
    SameKeysUnique(st.urls, r.0.urls);
  }

  /** A patch that does not fail keeps the cache coherent with the store. */
  lemma PatchPreservesCoherence(st: State, env: Env, clerkId: Option<string>, newUserId: string, id: string, body: Patch)
    requires UniqueRows(st.urls) && CacheCoherent(st)
    requires PatchUrl(st, env, clerkId, newUserId, id, body).1.status != 500
    ensures CacheCoherent(PatchUrl(st, env, clerkId, newUserId, id, body).0)
  {
    var r := PatchUrl(st, env, clerkId, newUserId, id, body);
    if r.1.status == 200 {
      PatchSuccessInvalidates(st, env, clerkId, newUserId, id, body);
      var caller := Upsert(st, env, clerkId, newUserId).1.value.id;
      var i :| 0 <= i < |st.urls| && Matches(st.urls[i], id, caller) &&
        r.0.cache == st.cache - {CacheKey(st.urls[i].shortCode)};
      forall c | CacheKey(c) in r.0.cache
        ensures var f := CodeRow(r.0, c);
          f.Some? && f.value.isActive && f.value.longUrl == r.0.cache[CacheKey(c)].value
      {
        SameKeysIndexOf(st.urls, r.0.urls, Code(c));
        var j := IndexOf(st.urls, Code(c)).value;
        assert c != st.urls[i].shortCode;
        assert j != i;
        assert st.urls[j].id != id;
      }
    }
  }

  /** After a successful patch that deactivates a record, the next redirect for
      its code (even one served while the cache is reachable) goes to the
      not-found page: invalidation, not expiry, stops the link. */
  lemma DeactivateThenRedirect(st: State, env: Env, clerkId: Option<string>, newUserId: string,
                               id: string, longUrl: Option<string>, env2: Env, k: nat)
    requires UniqueRows(st.urls)
    requires k < |st.urls| && st.urls[k].id == id
    requires PatchUrl(st, env, clerkId, newUserId, id, Patch(longUrl, Some(false))).1.status == 200
    requires CacheGet !in env2.down && StoreFind !in env2.down
    ensures var after := PatchUrl(st, env, clerkId, newUserId, id, Patch(longUrl, Some(false))).0;
      var code := st.urls[k].shortCode;
      GetUrl(after, env2, code).1 == Redirect(302, NotFoundLocation(FrontendUrl(env2), code))
  {
    var body := Patch(longUrl, Some(false));
    var r := PatchUrl(st, env, clerkId, newUserId, id, body);
    PatchSuccessInvalidates(st, env, clerkId, newUserId, id, body);
    var caller := Upsert(st, env, clerkId, newUserId).1.value.id;
    var i :| 0 <= i < |st.urls| && Matches(st.urls[i], id, caller) &&
      r.0.urls == st.urls[i := Apply(st.urls[i], body)] &&
      r.0.cache == st.cache - {CacheKey(st.urls[i].shortCode)};
    assert i == k;
    SameKeysUnique(st.urls, r.0.urls);
    MissOnInactive(r.0, env2, k);
  }

  /** A record that is inactive and has no cache entry resolves to the
      not-found page. */
  lemma MissOnInactive(st: State, env: Env, k: nat)
    requires UniqueRows(st.urls) && k < |st.urls| && !st.urls[k].isActive
    requires CacheKey(st.urls[k].shortCode) !in st.cache
    requires CacheGet !in env.down && StoreFind !in env.down
    ensures var code := st.urls[k].shortCode;
      GetUrl(st, env, code).1 == Redirect(302, NotFoundLocation(FrontendUrl(env), code))
  {
    IndexOfUnique(st.urls, Code(st.urls[k].shortCode), k);
  }

  /** When the cache cannot be reached after the update has committed, the
      handler answers 500 yet the record stays deactivated, and the stale cache
      entry keeps redirecting to the old target until it expires. */
  lemma PatchStaleWhenCacheDown()
    ensures
      var row := ShortUrl("u1", "abcdefg", "https://example.com/a", "owner", true, 0, 0);
      var st := State([row], map["clerk" := User("owner", "clerk")],
                       map[CacheKey("abcdefg") := CacheEntry("https://example.com/a", 3600)]);
      var env := Env(None, {CacheDel});
      var r := PatchUrl(st, env, Some("clerk"), "unused", "u1", Patch(None, Some(false)));
      && CacheCoherent(st)
      && r.1.status == 500
      && !r.0.urls[0].isActive
      && !CacheCoherent(r.0)
      && GetUrl(r.0, Env(None, {}), "abcdefg").1.location == "https://example.com/a"
  {
    var row := ShortUrl("u1", "abcdefg", "https://example.com/a", "owner", true, 0, 0);
    var st := State([row], map["clerk" := User("owner", "clerk")],
                     map[CacheKey("abcdefg") := CacheEntry("https://example.com/a", 3600)]);
    forall c | CacheKey(c) in st.cache
      ensures var f := CodeRow(st, c);
        f.Some? && f.value.isActive && f.value.longUrl == st.cache[CacheKey(c)].value
    {
      CacheKeyInjective(c, "abcdefg");
    }
    var r := PatchUrl(st, Env(None, {CacheDel}), Some("clerk"), "unused", "u1", Patch(None, Some(false)));
    assert r.0.urls == [row.(isActive := false)];
    assert CodeRow(r.0, "abcdefg") == Some(row.(isActive := false));
  }

  /** A generated code that is already taken fails the request with 500; the
      handler does not retry with another code. */
  lemma CreateDuplicateCodeFails(st: State, env: Env, clerkId: Option<string>, longUrl: Option<string>, supply: Fresh, i: nat)
    requires i < |st.urls| && st.urls[i].shortCode == NanoId.Generate(CodeLength, supply.random)
    requires Truthy(longUrl)
    ensures var r := CreateUrl(st, env, clerkId, longUrl, supply);
      r.1 == Response(500, ErrorBody("Failed to create short URL")) && r.0.urls == st.urls
  {
  }

  lemma CreatePreservesValid(st: State, env: Env, clerkId: Option<string>, longUrl: Option<string>, supply: Fresh)
    requires Valid(st)
    ensures Valid(CreateUrl(st, env, clerkId, longUrl, supply).0)
  {
    Users.GetOrCreatePreservesWellKeyed(st.users, clerkId, supply.userId, env.down);
  }

  /** A new record has a code no cache entry refers to, so coherence survives. */
  lemma CreatePreservesCoherence(st: State, env: Env, clerkId: Option<string>, longUrl: Option<string>, supply: Fresh)
    requires CacheCoherent(st)
    ensures CacheCoherent(CreateUrl(st, env, clerkId, longUrl, supply).0)
  {
    var r := CreateUrl(st, env, clerkId, longUrl, supply);
    if r.1.status == 201 {
      forall c | CacheKey(c) in r.0.cache
        ensures var f := CodeRow(r.0, c);
          f.Some? && f.value.isActive && f.value.longUrl == r.0.cache[CacheKey(c)].value
      {
        var j := IndexOf(st.urls, Code(c)).value;
        PrefixIndexOf(st.urls, r.1.body.url, Code(c), j);
      }
    }
  }

  /** Appending a row does not move the first match of a key already present. */
  lemma {:induction false} PrefixIndexOf(urls: seq<ShortUrl>, row: ShortUrl, k: Key, j: nat)
    requires IndexOf(urls, k) == Some(j)
    ensures IndexOf(urls + [row], k) == Some(j)
    decreases |urls|
  {
    if j > 0 {
      assert (urls + [row])[1..] == urls[1..] + [row];
      PrefixIndexOf(urls[1..], row, k, j - 1);
    }
  }

  /** A link just created resolves, through GET /:shortCode, to its long URL. */
  lemma CreateThenRedirect(st: State, env: Env, clerkId: Option<string>, longUrl: Option<string>, supply: Fresh, env2: Env)
    requires UniqueRows(st.urls) && CacheCoherent(st)
    requires CreateUrl(st, env, clerkId, longUrl, supply).1.status == 201
    requires env2.down !! {CacheGet, StoreFind, StoreIncrement, CacheSet}
    ensures var r := CreateUrl(st, env, clerkId, longUrl, supply);
      GetUrl(r.0, env2, r.1.body.url.shortCode).1 == Redirect(302, longUrl.value)
  {
    var r := CreateUrl(st, env, clerkId, longUrl, supply);
    var row := r.1.body.url;
    CreatePreservesCoherence(st, env, clerkId, longUrl, supply);
    assert r.0.urls[|st.urls|] == row;
    assert forall j :: 0 <= j < |st.urls| ==> r.0.urls[j] == st.urls[j];
    assert UniqueRows(r.0.urls);
    IndexOfUnique(r.0.urls, Code(row.shortCode), |st.urls|);
    GetUrlAgreesWithStore(r.0, env2, row.shortCode);
  }

  /** The listing holds exactly the caller's records (each once per row),
      newest first, and leaves table and cache alone. */
  lemma ListExactlyOwn(st: State, env: Env, clerkId: Option<string>, newUserId: string)
    requires GetAllUrls(st, env, clerkId, newUserId).1.status == 200
    ensures var r := GetAllUrls(st, env, clerkId, newUserId);
      var owner := Upsert(st, env, clerkId, newUserId).1.value.id;
      && Listing.NewestFirst(r.1.body.urls)
      && (forall u :: u in r.1.body.urls <==> u in st.urls && u.userId == owner)
      && r.0.urls == st.urls && r.0.cache == st.cache
  {
    var r := GetAllUrls(st, env, clerkId, newUserId);
    var owner := Upsert(st, env, clerkId, newUserId).1.value.id;
    forall u ensures u in r.1.body.urls <==> u in st.urls && u.userId == owner {
      assert u in r.1.body.urls <==> multiset(r.1.body.urls)[u] > 0;
      assert u in st.urls <==> multiset(st.urls)[u] > 0;
    }
  }
}

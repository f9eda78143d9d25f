/** Properties of GET /:shortCode: what the redirect target is, when the cache
    is written, and which records' click counters move. */
module Resolution {
  import opened Types
  import opened Store
  import opened Cache
  import opened Links

  /** The outcome a store-only resolver would give: the long URL of the active
      record with the code, or nothing. */
  function Resolve(st: State, code: string): Option<string> {
    match CodeRow(st, code)
    case Some(u) => if u.isActive then Some(u.longUrl) else None
    case None => None
  }

  /** Every cache entry `short:<code>` holds the long URL of an active record
      with that code. */
  ghost predicate CacheCoherent(st: State) {
    forall code :: CacheKey(code) in st.cache ==>
      var f := CodeRow(st, code);
      f.Some? && f.value.isActive && f.value.longUrl == st.cache[CacheKey(code)].value
  }

  /** Under the unique constraints, counting a click changes exactly one row. */
  lemma IncrementOne(urls: seq<ShortUrl>, i: nat)
    requires UniqueRows(urls) && i < |urls|
    ensures IncrementClicks(urls, urls[i].id) == urls[i := Clicked(urls[i])]
  {
    var r := IncrementClicks(urls, urls[i].id);
    forall j | 0 <= j < |urls| ensures r[j] == urls[i := Clicked(urls[i])][j] {
      if j != i {
        assert urls[j].id != urls[i].id;
      }
    }
  }

  /** Cache miss on a missing or inactive record: redirect to the frontend's
      not-found page with the code, and change nothing. */
  lemma GetUrlMissNotFound(st: State, env: Env, code: string)
    requires CacheGet !in env.down && StoreFind !in env.down
    requires !Truthy(Get(st.cache, CacheKey(code)))
    requires Resolve(st, code).None?
    ensures GetUrl(st, env, code) == (st, Redirect(302, NotFoundLocation(FrontendUrl(env), code)))
  {
  }

  /** Cache miss on the active record `i`: its click counter goes up by exactly
      one and nothing else in the table changes, its long URL is cached for an
      hour under `short:<code>`, and the redirect goes to that long URL. */
  lemma GetUrlMissActive(st: State, env: Env, i: nat)
    requires UniqueRows(st.urls) && i < |st.urls| && st.urls[i].isActive
    requires env.down !! {CacheGet, StoreFind, StoreIncrement, CacheSet}
    requires !Truthy(Get(st.cache, CacheKey(st.urls[i].shortCode)))
    ensures var r := GetUrl(st, env, st.urls[i].shortCode);
      && r.0.urls == st.urls[i := Clicked(st.urls[i])]
      && r.0.cache == st.cache[CacheKey(st.urls[i].shortCode) := CacheEntry(st.urls[i].longUrl, 3600)]
      && r.1 == Redirect(302, st.urls[i].longUrl)
  {
    IndexOfUnique(st.urls, Code(st.urls[i].shortCode), i);
    IncrementOne(st.urls, i);
  }

  /** Cache hit: the redirect goes to the cached string whatever the store
      holds, the cache is not written, and a click is counted for the record
      with the code exactly when there is one, active or not. */
  lemma GetUrlHit(st: State, env: Env, code: string)
    requires UniqueRows(st.urls)
    requires env.down !! {CacheGet, StoreFind, StoreIncrement}
    requires Truthy(Get(st.cache, CacheKey(code)))
    ensures var r := GetUrl(st, env, code);
      && r.1 == Redirect(302, st.cache[CacheKey(code)].value)
      && r.0.cache == st.cache
      && (forall i :: 0 <= i < |st.urls| && st.urls[i].shortCode == code ==>
            r.0.urls == st.urls[i := Clicked(st.urls[i])])
      && ((forall i :: 0 <= i < |st.urls| ==> st.urls[i].shortCode != code) ==> r.0.urls == st.urls)
  {
    forall i | 0 <= i < |st.urls| && st.urls[i].shortCode == code
      ensures GetUrl(st, env, code).0.urls == st.urls[i := Clicked(st.urls[i])]
    {
      IndexOfUnique(st.urls, Code(code), i);
      IncrementOne(st.urls, i);
    }
  }

  /** Every redirect goes to the cached target, the stored target of the
      code's active record, or one of the two frontend fallbacks. */
  lemma GetUrlTargets(st: State, env: Env, code: string)
    ensures var loc := GetUrl(st, env, code).1.location;
      || loc == NotFoundLocation(FrontendUrl(env), code)
      || loc == ErrorLocation(FrontendUrl(env))
      || Get(st.cache, CacheKey(code)) == Some(loc)
      || Resolve(st, code) == Some(loc)
  {
  }

  /** A thrown error anywhere in the handler, including a failed click
      increment, redirects to the frontend's error page. */
  lemma GetUrlErrors(st: State, env: Env, code: string)
    ensures var r := GetUrl(st, env, code);
      var errorPage := Redirect(302, ErrorLocation(FrontendUrl(env)));
      && (CacheGet in env.down ==> r == (st, errorPage))
      && (StoreFind in env.down ==> r == (st, errorPage))
      && (StoreIncrement in env.down && CodeRow(st, code).Some? &&
          (CodeRow(st, code).value.isActive || Truthy(Get(st.cache, CacheKey(code)))) ==>
            r == (st, errorPage))
      && (CacheSet in env.down && Resolve(st, code).Some? && !Truthy(Get(st.cache, CacheKey(code))) ==>
            r.1 == errorPage && r.0.cache == st.cache)
  {
  }

  /** The table's unique constraints and owner references survive a redirect. */
  lemma GetUrlPreservesValid(st: State, env: Env, code: string)
    requires Valid(st)
    ensures Valid(GetUrl(st, env, code).0)
  {
    var r := GetUrl(st, env, code);
    SameKeysUnique(st.urls, r.0.urls);
  }

  /** A redirect keeps every cache entry in agreement with the store. */
  lemma GetUrlPreservesCoherence(st: State, env: Env, code: string)
    requires CacheCoherent(st)
    ensures CacheCoherent(GetUrl(st, env, code).0)
  {
    var r := GetUrl(st, env, code);
    forall c | CacheKey(c) in r.0.cache
      ensures var f := CodeRow(r.0, c);
        f.Some? && f.value.isActive && f.value.longUrl == r.0.cache[CacheKey(c)].value
    {
      SameKeysIndexOf(st.urls, r.0.urls, Code(c));
      if r.0.cache != st.cache && CacheKey(c) == CacheKey(code) {
        CacheKeyInjective(c, code);
      }
    }
  }

  /** With a coherent cache, resolution through the cache gives the same target
      as reading the store: the active record's long URL, or the not-found page
      (cache-aside is transparent). */
  lemma GetUrlAgreesWithStore(st: State, env: Env, code: string)
    requires CacheCoherent(st)
    requires env.down !! {CacheGet, StoreFind, StoreIncrement, CacheSet}
    ensures GetUrl(st, env, code).1.location ==
      match Resolve(st, code)
      case Some(target) => target
      case None => NotFoundLocation(FrontendUrl(env), code)
  {
    if CacheKey(code) in st.cache {
      assert CodeRow(st, code).Some?;
    }
  }

  /** Two redirects in a row for an active code both reach its long URL, the
      second from the cache, and count two clicks. */
  lemma RepeatedRedirect(st: State, env: Env, i: nat)
    requires UniqueRows(st.urls) && CacheCoherent(st)
    requires i < |st.urls| && st.urls[i].isActive && st.urls[i].longUrl != ""
    requires env.down !! {CacheGet, StoreFind, StoreIncrement, CacheSet}
    ensures var code := st.urls[i].shortCode;
      var first := GetUrl(st, env, code);
      var second := GetUrl(first.0, env, code);
      && first.1.location == st.urls[i].longUrl
      && Truthy(Get(first.0.cache, CacheKey(code)))
      && second.1.location == st.urls[i].longUrl
      && second.0.urls[i].totalClicks == st.urls[i].totalClicks + 2
  {
    var code := st.urls[i].shortCode;
    IndexOfUnique(st.urls, Code(code), i);
    var first := GetUrl(st, env, code);
    GetUrlPreservesCoherence(st, env, code);
    GetUrlAgreesWithStore(st, env, code);
    IncrementOne(st.urls, i);
    assert first.0.urls == st.urls[i := Clicked(st.urls[i])];
    SameKeysUnique(st.urls, first.0.urls);
    assert Truthy(Get(first.0.cache, CacheKey(code)));
    GetUrlHit(first.0, env, code);
  }

  /** Once the entry of a deactivated record expires, its code resolves to the
      not-found page. */
  lemma ExpiredDeactivatedNotFound(st: State, env: Env, i: nat)
    requires UniqueRows(st.urls) && i < |st.urls| && !st.urls[i].isActive
    requires CacheGet !in env.down && StoreFind !in env.down
    ensures var code := st.urls[i].shortCode;
      GetUrl(Expire(st, CacheKey(code)), env, code).1 == Redirect(302, NotFoundLocation(FrontendUrl(env), code))
  {
    IndexOfUnique(st.urls, Code(st.urls[i].shortCode), i);
  }

  /** Expiry only removes entries, so coherence survives it. */
  lemma ExpirePreservesCoherence(st: State, key: string)
    requires CacheCoherent(st)
    ensures CacheCoherent(Expire(st, key))
  {
  }
}

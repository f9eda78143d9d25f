/** The service as a state machine: any sequence of requests, each with its own
    environment, applied one after another. */
module Service {
  import opened Types
  import opened Store
  import opened Cache
  import opened Links
  import opened Resolution
  import opened Ownership
  import Users

  datatype Request =
    | FollowLink(code: string)
    | EditLink(clerkId: Option<string>, newUserId: string, id: string, body: Patch)
    | CreateLink(clerkId: Option<string>, longUrl: Option<string>, supply: Fresh)
    | ListLinks(clerkId: Option<string>, newUserId: string)
    | ExpireKey(key: string)

  /** One request: the table keeps its existing records' keys and gains at
      most one record, and every existing user stays as it was. */
  function Handle(st: State, env: Env, req: Request): (r: State)
    ensures |st.urls| <= |r.urls| <= |st.urls| + 1
    ensures SameKeys(st.urls, r.urls[..|st.urls|])
    ensures forall c :: c in st.users ==> c in r.users && r.users[c] == st.users[c]
  {
    match req
    case FollowLink(code) => GetUrl(st, env, code).0
    case EditLink(clerkId, newUserId, id, body) => PatchUrl(st, env, clerkId, newUserId, id, body).0
    case CreateLink(clerkId, longUrl, supply) => CreateUrl(st, env, clerkId, longUrl, supply).0
    case ListLinks(clerkId, newUserId) => GetAllUrls(st, env, clerkId, newUserId).0
    case ExpireKey(key) => Expire(st, key)
  }

  /** The requests applied in order, each in its own environment. */
  function Run(st: State, envs: seq<Env>, reqs: seq<Request>): (r: State)
    requires |envs| == |reqs|
    ensures |st.urls| <= |r.urls| <= |st.urls| + |reqs|
    ensures SameKeys(st.urls, r.urls[..|st.urls|])
    ensures forall c :: c in st.users ==> c in r.users && r.users[c] == st.users[c]
    decreases |reqs|
  {
    if |reqs| == 0 then st
    else Run(Handle(st, envs[0], reqs[0]), envs[1..], reqs[1..])
  }

  /** No record disappears, no key column or creation time changes, and no
      click counter goes down. */
  ghost predicate ClicksGrow(a: seq<ShortUrl>, b: seq<ShortUrl>) {
    |a| <= |b| &&
    forall i :: 0 <= i < |a| ==>
      && b[i].id == a[i].id && b[i].shortCode == a[i].shortCode && b[i].userId == a[i].userId
      && b[i].createdAt == a[i].createdAt && b[i].totalClicks >= a[i].totalClicks
  }

  lemma ClicksGrowTransitive(a: seq<ShortUrl>, b: seq<ShortUrl>, c: seq<ShortUrl>)
    requires ClicksGrow(a, b) && ClicksGrow(b, c)
    ensures ClicksGrow(a, c)
  {
  }

  lemma HandleClicksGrow(st: State, env: Env, req: Request)
    ensures ClicksGrow(st.urls, Handle(st, env, req).urls)
  {
    match req {
      case EditLink(clerkId, newUserId, id, body) =>
        PatchOnlyOwnFields(st, env, clerkId, newUserId, id, body);
      case _ =>
    }
  }

  lemma HandlePreservesValid(st: State, env: Env, req: Request)
    requires Valid(st)
    ensures Valid(Handle(st, env, req))
  {
    match req {
      case FollowLink(code) => GetUrlPreservesValid(st, env, code);
      case EditLink(clerkId, newUserId, id, body) => PatchPreservesValid(st, env, clerkId, newUserId, id, body);
      case CreateLink(clerkId, longUrl, supply) => CreatePreservesValid(st, env, clerkId, longUrl, supply);
      case ListLinks(clerkId, newUserId) =>
        Users.GetOrCreatePreservesWellKeyed(st.users, clerkId, newUserId, env.down);
      case ExpireKey(key) =>
    }
  }

  /** The request reaches the cache for every invalidation it needs. */
  predicate InvalidationReachable(env: Env, req: Request) {
    req.EditLink? ==> env.down !! {StoreFind, CacheDel}
  }

  /** A patch whose invalidation can run keeps the cache coherent, whether it
      succeeds or fails before touching the table. */
  lemma PatchReachableCoherence(st: State, env: Env, clerkId: Option<string>, newUserId: string, id: string, body: Patch)
    requires UniqueRows(st.urls) && CacheCoherent(st)
    requires env.down !! {StoreFind, CacheDel}
    ensures CacheCoherent(PatchUrl(st, env, clerkId, newUserId, id, body).0)
  {
    var r := PatchUrl(st, env, clerkId, newUserId, id, body);
    if r.1.status == 500 {
      assert r.0.urls == st.urls && r.0.cache == st.cache;
    } else {
      PatchPreservesCoherence(st, env, clerkId, newUserId, id, body);
    }
  }

  lemma HandlePreservesCoherence(st: State, env: Env, req: Request)
    requires Valid(st) && CacheCoherent(st) && InvalidationReachable(env, req)
    ensures CacheCoherent(Handle(st, env, req))
  {
    match req {
      case FollowLink(code) => GetUrlPreservesCoherence(st, env, code);
      case EditLink(clerkId, newUserId, id, body) => PatchReachableCoherence(st, env, clerkId, newUserId, id, body);
      case CreateLink(clerkId, longUrl, supply) => CreatePreservesCoherence(st, env, clerkId, longUrl, supply);
      case ListLinks(clerkId, newUserId) =>
      case ExpireKey(key) => ExpirePreservesCoherence(st, key);
    }
  }

  /** Over any sequence of requests the database invariants hold, records are
      never removed and click counters never go down. */
  lemma {:induction false} RunInvariants(st: State, envs: seq<Env>, reqs: seq<Request>)
    requires |envs| == |reqs| && Valid(st)
    ensures Valid(Run(st, envs, reqs))
    ensures ClicksGrow(st.urls, Run(st, envs, reqs).urls)
    decreases |reqs|
  {
    if |reqs| > 0 {
      var next := Handle(st, envs[0], reqs[0]);
      HandlePreservesValid(st, envs[0], reqs[0]);
      HandleClicksGrow(st, envs[0], reqs[0]);
      RunInvariants(next, envs[1..], reqs[1..]);
      ClicksGrowTransitive(st.urls, next.urls, Run(next, envs[1..], reqs[1..]).urls);
    }
  }

  /** As long as every patch can reach its invalidation, the cache stays
      coherent, so every redirect agrees with the store. */
  lemma {:induction false} RunKeepsCacheCoherent(st: State, envs: seq<Env>, reqs: seq<Request>)
    requires |envs| == |reqs| && Valid(st) && CacheCoherent(st)
    requires forall i :: 0 <= i < |reqs| ==> InvalidationReachable(envs[i], reqs[i])
    ensures CacheCoherent(Run(st, envs, reqs))
    decreases |reqs|
  {
    if |reqs| > 0 {
      HandlePreservesValid(st, envs[0], reqs[0]);
      HandlePreservesCoherence(st, envs[0], reqs[0]);
      assert forall i :: 0 <= i < |reqs| - 1 ==> envs[1..][i] == envs[i + 1] && reqs[1..][i] == reqs[i + 1];
      RunKeepsCacheCoherent(Handle(st, envs[0], reqs[0]), envs[1..], reqs[1..]);
    }
  }
}

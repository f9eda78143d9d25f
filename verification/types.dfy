/** Entities of the link shortener's backend and the state its request handlers act on.

    The durable store (a relational database reached through Prisma) is the table
    `urls` together with the user table `users`; the Redis cache is the map `cache`.
    Every awaited call into either of them may throw; which calls throw is an input
    of every handler (`Env.down`), so that the error paths are modelled explicitly. */
module Types {

  datatype Option<T> = None | Some(value: T)

  /** A JavaScript value that is either `undefined`/`null` or a string, judged by
      truthiness as `if (!x)` and `x || y` judge it: only a non-empty string is truthy. */
  predicate Truthy(v: Option<string>) {
    v.Some? && v.value != ""
  }

  /** A row of the ShortUrl table. */
  datatype ShortUrl = ShortUrl(
    id: string,
    shortCode: string,
    longUrl: string,
    userId: string,
    isActive: bool,
    totalClicks: nat,
    createdAt: int)

  /** A row of the User table: the database id and the identity provider's id. */
  datatype User = User(id: string, clerkId: string)

  /** A Redis string value with the expiry (in seconds) it was written with. */
  datatype CacheEntry = CacheEntry(value: string, ttl: nat)

  /** The awaited calls into the database and the cache; each may throw. */
  datatype Step =
    | CacheGet | CacheSet | CacheDel
    | UserUpsert
    | StoreFind | StoreIncrement | StoreUpdateMany | StoreCreate | StoreFindMany

  /** Why an operation threw. */
  datatype Failure =
    | MissingClerkId
    | Down(step: Step)
    | UniqueViolation

  datatype Result<T> = Ok(value: T) | Err(failure: Failure)

  datatype State = State(
    urls: seq<ShortUrl>,
    users: map<string, User>,
    cache: map<string, CacheEntry>)

  /** The request's environment: the FRONTEND_URL setting and the calls that fail. */
  datatype Env = Env(frontendUrl: Option<string>, down: set<Step>)

  /** The database's unique constraints on ShortUrl.id and ShortUrl.shortCode. */
  ghost predicate UniqueRows(urls: seq<ShortUrl>) {
    forall i, j :: 0 <= i < j < |urls| ==>
      urls[i].id != urls[j].id && urls[i].shortCode != urls[j].shortCode
  }

  function UserIds(users: map<string, User>): set<string> {
    set c | c in users :: users[c].id
  }

  /** Users are keyed by their clerkId, and User.id is unique. */
  ghost predicate WellKeyed(users: map<string, User>) {
    && (forall c :: c in users ==> users[c].clerkId == c)
    && (forall c, d :: c in users && d in users && c != d ==> users[c].id != users[d].id)
  }

  /** Every ShortUrl.userId refers to an existing user. */
  ghost predicate OwnersExist(urls: seq<ShortUrl>, users: map<string, User>) {
    forall i :: 0 <= i < |urls| ==> urls[i].userId in UserIds(users)
  }

  /** The invariants the database maintains. */
  ghost predicate Valid(st: State) {
    UniqueRows(st.urls) && WellKeyed(st.users) && OwnersExist(st.urls, st.users)
  }
}

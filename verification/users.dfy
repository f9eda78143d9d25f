/** Resolving the caller's identity-provider id to a row of the User table. */
module Users {
  import opened Types

  /** `getOrCreateUser(clerkId)`: a falsy id throws before the database is
      touched; otherwise `upsert({ where: { clerkId }, update: {}, create: { clerkId } })`.
      `newId` is the id the database would generate for a created row. */
  function GetOrCreateUser(users: map<string, User>, clerkId: Option<string>, newId: string, down: set<Step>)
    : (r: (map<string, User>, Result<User>))
    ensures !Truthy(clerkId) ==> r == (users, Err(MissingClerkId))
    ensures r.1.Err? ==> r.0 == users
    ensures r.1.Ok? ==> Truthy(clerkId) && r.0 == users[clerkId.value := r.1.value]
    ensures Truthy(clerkId) && clerkId.value in users && UserUpsert !in down ==>
      r == (users, Ok(users[clerkId.value]))
    ensures Truthy(clerkId) && clerkId.value !in users && r.1.Ok? ==>
      r.1.value.id !in UserIds(users) && r.0.Keys == users.Keys + {clerkId.value}
    ensures Truthy(clerkId) && clerkId.value !in users && UserUpsert !in down && newId !in UserIds(users) ==>
      r == (users[clerkId.value := User(newId, clerkId.value)], Ok(User(newId, clerkId.value)))
    ensures r.1.Err? <==>
      !Truthy(clerkId) || UserUpsert in down || (clerkId.value !in users && newId in UserIds(users))
  {
    if !Truthy(clerkId) then (users, Err(MissingClerkId))
    else if UserUpsert in down then (users, Err(Down(UserUpsert)))
    else
      var c := clerkId.value;
      if c in users then (users, Ok(users[c]))
      else if newId in UserIds(users) then (users, Err(UniqueViolation))
      else
        var u := User(newId, c);
        (users[c := u], Ok(u))
  }

  /** A second call with the same clerkId returns the same user and changes nothing. */
  lemma GetOrCreateIdempotent(users: map<string, User>, clerkId: Option<string>, id1: string, id2: string, down: set<Step>)
    requires UserUpsert !in down
    requires GetOrCreateUser(users, clerkId, id1, down).1.Ok?
    ensures var first := GetOrCreateUser(users, clerkId, id1, down);
            GetOrCreateUser(first.0, clerkId, id2, down) == first
  {
  }

  /** Users with other clerkIds are never modified or removed. */
  lemma GetOrCreateOthersUntouched(users: map<string, User>, clerkId: Option<string>, newId: string, down: set<Step>, other: string)
    requires other in users && (clerkId.Some? ==> other != clerkId.value)
    ensures var r := GetOrCreateUser(users, clerkId, newId, down);
            other in r.0 && r.0[other] == users[other]
  {
  }

  /** The upsert keeps users keyed by clerkId with unique ids, and never removes one. */
  lemma GetOrCreatePreservesWellKeyed(users: map<string, User>, clerkId: Option<string>, newId: string, down: set<Step>)
    requires WellKeyed(users)
    ensures var r := GetOrCreateUser(users, clerkId, newId, down);
            WellKeyed(r.0) && UserIds(users) <= UserIds(r.0) &&
            (r.1.Ok? ==> r.1.value.id in UserIds(r.0) && clerkId.value in r.0 && r.0[clerkId.value] == r.1.value)
  {
    var r := GetOrCreateUser(users, clerkId, newId, down);
    if r.1.Ok? {
      var c := clerkId.value;
      assert r.0[c] == r.1.value;
      forall x | x in UserIds(users) ensures x in UserIds(r.0) {
        var d :| d in users && users[d].id == x;
        assert d in r.0 && r.0[d].id == x;
      }
    }
  }
}

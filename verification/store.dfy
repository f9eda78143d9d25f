/** The Prisma calls the link service makes on the ShortUrl table, as pure
    functions on the table's rows (kept in insertion order). */
module Store {
  import opened Types

  /** A `where` clause on a unique column. */
  datatype Key = Code(code: string) | Id(id: string)

  predicate HasKey(u: ShortUrl, k: Key) {
    match k
    case Code(c) => u.shortCode == c
    case Id(i) => u.id == i
  }

  /** The position of the first row matching `k`, if any. */
  function IndexOf(urls: seq<ShortUrl>, k: Key): (r: Option<nat>)
    ensures r.Some? ==> r.value < |urls| && HasKey(urls[r.value], k)
    ensures r.Some? ==> forall i :: 0 <= i < r.value ==> !HasKey(urls[i], k)
    ensures r.None? ==> forall i :: 0 <= i < |urls| ==> !HasKey(urls[i], k)
  {
    if |urls| == 0 then None
    else if HasKey(urls[0], k) then Some(0)
    else match IndexOf(urls[1..], k)
      case None => None
      case Some(j) => Some(j + 1)
  }

  /** `findUnique({ where: k })`. */
  function FindUnique(urls: seq<ShortUrl>, k: Key): (r: Option<ShortUrl>)
    ensures r.Some? ==> r.value in urls && HasKey(r.value, k)
    ensures r.None? <==> forall i :: 0 <= i < |urls| ==> !HasKey(urls[i], k)
  {
    match IndexOf(urls, k)
    case None => None
    case Some(i) => Some(urls[i])
  }

  /** Under the unique constraints, a row with the key is the one found. */
  lemma IndexOfUnique(urls: seq<ShortUrl>, k: Key, i: nat)
    requires UniqueRows(urls)
    requires i < |urls| && HasKey(urls[i], k)
    ensures IndexOf(urls, k) == Some(i)
  {
    assert IndexOf(urls, k).Some?;
  }

  /** Two tables with the same ids, codes and owners position by position. */
  ghost predicate SameKeys(a: seq<ShortUrl>, b: seq<ShortUrl>) {
    |a| == |b| &&
    forall i :: 0 <= i < |a| ==>
      a[i].id == b[i].id && a[i].shortCode == b[i].shortCode && a[i].userId == b[i].userId
  }

  /** Lookups by a unique key only look at the key columns. */
  lemma {:induction false} SameKeysIndexOf(a: seq<ShortUrl>, b: seq<ShortUrl>, k: Key)
    requires SameKeys(a, b)
    ensures IndexOf(a, k) == IndexOf(b, k)
    decreases |a|
  {
    if |a| > 0 {
      assert HasKey(a[0], k) == HasKey(b[0], k);
      SameKeysIndexOf(a[1..], b[1..], k);
    }
  }

  lemma SameKeysUnique(a: seq<ShortUrl>, b: seq<ShortUrl>)
    requires SameKeys(a, b) && UniqueRows(a)
    ensures UniqueRows(b)
  {
  }

  function Clicked(u: ShortUrl): ShortUrl {
    u.(totalClicks := u.totalClicks + 1)
  }

  /** `update({ where: { id }, data: { totalClicks: { increment: 1 } } })`. */
  function IncrementClicks(urls: seq<ShortUrl>, id: string): (r: seq<ShortUrl>)
    ensures |r| == |urls|
    ensures forall i :: 0 <= i < |urls| ==>
      r[i].totalClicks == urls[i].totalClicks + (if urls[i].id == id then 1 else 0)
    ensures forall i :: 0 <= i < |urls| ==> r[i].(totalClicks := urls[i].totalClicks) == urls[i]
    ensures SameKeys(urls, r)
  {
    seq(|urls|, i requires 0 <= i < |urls| =>
      if urls[i].id == id then Clicked(urls[i]) else urls[i])
  }

  /** A PATCH body: a field is `None` when it is `undefined` in the request. */
  datatype Patch = Patch(longUrl: Option<string>, isActive: Option<bool>)

  /** The row with exactly the supplied fields of the patch written. */
  function Apply(u: ShortUrl, p: Patch): ShortUrl {
    u.(longUrl := if p.longUrl.Some? then p.longUrl.value else u.longUrl,
       isActive := if p.isActive.Some? then p.isActive.value else u.isActive)
  }

  /** The `where: { id, userId }` filter of the scoped update. */
  predicate Matches(u: ShortUrl, id: string, userId: string) {
    u.id == id && u.userId == userId
  }

  /** Number of rows matching the scoped filter. */
  function CountMatches(urls: seq<ShortUrl>, id: string, userId: string): (n: nat)
    ensures n <= |urls|
    ensures n == 0 <==> forall i :: 0 <= i < |urls| ==> !Matches(urls[i], id, userId)
  {
    if |urls| == 0 then 0
    else
      var rest := CountMatches(urls[1..], id, userId);
      assert forall i :: 1 <= i < |urls| ==> urls[i] == urls[1..][i - 1];
      (if Matches(urls[0], id, userId) then 1 else 0) + rest
  }

  /** `updateMany({ where: { id, userId }, data })`: the new table and the count. */
  function UpdateMany(urls: seq<ShortUrl>, id: string, userId: string, p: Patch): (r: (seq<ShortUrl>, nat))
    ensures |r.0| == |urls|
    ensures forall i :: 0 <= i < |urls| ==>
      r.0[i] == if Matches(urls[i], id, userId) then Apply(urls[i], p) else urls[i]
    ensures r.1 == 0 <==> forall i :: 0 <= i < |urls| ==> !Matches(urls[i], id, userId)
    ensures r.1 == 0 ==> r.0 == urls
    ensures SameKeys(urls, r.0)
  {
    var updated := seq(|urls|, i requires 0 <= i < |urls| =>
      if Matches(urls[i], id, userId) then Apply(urls[i], p) else urls[i]);
    (updated, CountMatches(urls, id, userId))
  }

  /** The row violates no unique constraint of the table. */
  predicate Insertable(urls: seq<ShortUrl>, row: ShortUrl) {
    forall i :: 0 <= i < |urls| ==> urls[i].id != row.id && urls[i].shortCode != row.shortCode
  }
}

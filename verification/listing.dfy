/** `findMany({ where: { userId }, orderBy: { createdAt: 'desc' } })`: the
    caller's rows, newest first. Rows with equal `createdAt` come in an order
    the database leaves unspecified; this model fixes one. */
module Listing {
  import opened Types

  /** The rows owned by `userId`, in table order. */
  function OwnedBy(urls: seq<ShortUrl>, userId: string): (r: seq<ShortUrl>)
    ensures forall u :: multiset(r)[u] == if u.userId == userId then multiset(urls)[u] else 0
  {
    if |urls| == 0 then []
    else
      assert urls == [urls[0]] + urls[1..];
      (if urls[0].userId == userId then [urls[0]] else []) + OwnedBy(urls[1..], userId)
  }

  ghost predicate NewestFirst(s: seq<ShortUrl>) {
    forall i, j :: 0 <= i < j < |s| ==> s[i].createdAt >= s[j].createdAt
  }

  /** Prepending a row no older than any other keeps the order. */
  lemma ConsNewestFirst(x: ShortUrl, t: seq<ShortUrl>)
    requires NewestFirst(t)
    requires forall j :: 0 <= j < |t| ==> t[j].createdAt <= x.createdAt
    ensures NewestFirst([x] + t)
  {
    var r := [x] + t;
    forall i, j | 0 <= i < j < |r| ensures r[i].createdAt >= r[j].createdAt {
      if i > 0 {
        assert r[i] == t[i - 1] && r[j] == t[j - 1];
      }
    }
  }

  function Insert(u: ShortUrl, s: seq<ShortUrl>): (r: seq<ShortUrl>)
    requires NewestFirst(s)
    ensures NewestFirst(r)
    ensures multiset(r) == multiset(s) + multiset{u}
    ensures forall x :: x in r ==> x == u || x in s
  {
    if |s| == 0 then [u]
    else if u.createdAt >= s[0].createdAt then
      ConsNewestFirst(u, s);
      [u] + s
    else
      var rest := Insert(u, s[1..]);
      assert forall j :: 0 <= j < |rest| ==> rest[j] in rest;
      assert forall x :: x in s[1..] ==> x.createdAt <= s[0].createdAt;
      ConsNewestFirst(s[0], rest);
      assert s == [s[0]] + s[1..];
      [s[0]] + rest
  }

  function SortNewestFirst(s: seq<ShortUrl>): (r: seq<ShortUrl>)
    ensures NewestFirst(r)
    ensures multiset(r) == multiset(s)
  {
    if |s| == 0 then []
    else
      assert s == [s[0]] + s[1..];
      Insert(s[0], SortNewestFirst(s[1..]))
  }
}

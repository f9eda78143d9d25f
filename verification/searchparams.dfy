/** The part of the browser's URL handling the not-found page relies on:
    `location.search` and `URLSearchParams.get`. Percent-decoding and `+` as a
    space are not modelled; on text of the URL-safe alphabet they are the identity. */
module SearchParams {
  import opened Types

  /** The prefix of `s` before the first `c` (all of `s` if there is none). */
  function TakeUntil(s: string, c: char): (r: string)
    ensures |r| <= |s| && r == s[..|r|] && c !in r
    ensures |r| < |s| ==> s[|r|] == c
  {
    if |s| == 0 || s[0] == c then [] else [s[0]] + TakeUntil(s[1..], c)
  }

  /** The query of a URL: the text after its first '?' up to the first '#',
      or `None` when the URL has no query before its fragment. */
  function Query(url: string): Option<string> {
    if |url| == 0 || url[0] == '#' then None
    else if url[0] == '?' then Some(TakeUntil(url[1..], '#'))
    else Query(url[1..])
  }

  /** `URLSearchParams.get(name)` on a query: the value of the first
      `name=value` pair of the `&`-separated list. */
  function GetParam(q: string, name: string): Option<string>
    decreases |q|
  {
    var pair := TakeUntil(q, '&');
    var key := TakeUntil(pair, '=');
    if key == name then Some(if |key| < |pair| then pair[|key| + 1..] else "")
    else if |pair| < |q| then GetParam(q[|pair| + 1..], name)
    else None
  }

  /** `new URLSearchParams(location.search).get(name)` for the URL `url`. */
  function Param(url: string, name: string): Option<string> {
    match Query(url)
    case None => None
    case Some(q) => GetParam(q, name)
  }

  lemma {:induction false} TakeUntilAbsent(s: string, c: char)
    requires c !in s
    ensures TakeUntil(s, c) == s
    decreases |s|
  {
    if |s| > 0 {
      TakeUntilAbsent(s[1..], c);
    }
  }

  lemma {:induction false} TakeUntilFirst(p: string, c: char, rest: string)
    requires c !in p
    ensures TakeUntil(p + [c] + rest, c) == p
    decreases |p|
  {
    if |p| > 0 {
      assert (p + [c] + rest)[1..] == p[1..] + [c] + rest;
      TakeUntilFirst(p[1..], c, rest);
    }
  }

  /** A prefix without '?' or '#' does not change the query. */
  lemma {:induction false} QuerySkipsPrefix(a: string, b: string)
    requires '?' !in a && '#' !in a
    ensures Query(a + b) == Query(b)
    decreases |a|
  {
    if |a| > 0 {
      assert a[0] in a && (a + b)[0] == a[0];
      assert (a + b)[1..] == a[1..] + b;
      QuerySkipsPrefix(a[1..], b);
    } else {
      assert a + b == b;
    }
  }

  /** A single `name=value` pair gives back `value` for `name`, and nothing for
      any other name. */
  lemma SinglePair(name: string, value: string, other: string)
    requires '=' !in name && '&' !in name && '&' !in value
    ensures GetParam(name + "=" + value, name) == Some(value)
    ensures other != name ==> GetParam(name + "=" + value, other).None?
  {
    var q := name + "=" + value;
    TakeUntilAbsent(q, '&');
    assert q == name + ['='] + value;
    TakeUntilFirst(name, '=', value);
    assert q[|name| + 1..] == value;
  }
}

/** The not-found page's message rule applied to the query of the two fallback
    redirects of GET /:shortCode. */
module RedirectPages {
  import opened Types
  import opened Links
  import opened Resolution
  import NanoId
  import SearchParams
  import NotFoundPage

  /** A frontend base address that ends before any query or fragment. */
  predicate PlainBase(base: string) {
    '?' !in base && '#' !in base
  }

  /** The not-found page's message rule applied to the query of `location`. */
  function PageMessage(location: string): string {
    NotFoundPage.Message(SearchParams.Param(location, "notfound"), SearchParams.Param(location, "error"))
  }

  lemma DefaultBaseIsPlain()
    ensures PlainBase(DefaultFrontendUrl)
  {
  }

  /** On the redirect `base/?name=value`, the page reads `value` for `name`
      and nothing for any other parameter. */
  lemma ParamOfRedirect(base: string, name: string, value: string, other: string)
    requires PlainBase(base)
    requires '=' !in name && '&' !in name && '#' !in name && '&' !in value && '#' !in value
    ensures SearchParams.Param(base + "/?" + name + "=" + value, name) == Some(value)
    ensures other != name ==> SearchParams.Param(base + "/?" + name + "=" + value, other).None?
  {
    var q := name + "=" + value;
    var tail := "/?" + q;
    assert base + "/?" + name + "=" + value == base + tail;
    SearchParams.QuerySkipsPrefix(base, tail);
    assert tail[0] == '/' && tail[1..][0] == '?';
    assert tail[1..][1..] == q;
    assert '#' !in q by {
      assert forall i :: 0 <= i < |q| ==> q[i] in name || q[i] == '=' || q[i] in value;
    }
    SearchParams.TakeUntilAbsent(q, '#');
    assert SearchParams.Query(base + tail) == Some(q);
    SearchParams.SinglePair(name, value, other);
  }

  /** The message rule, applied to the query of the not-found redirect,
      gives the message naming the code that was asked for. */
  lemma NotFoundRedirectNamesCode(base: string, code: string)
    requires PlainBase(base)
    requires code != "" && forall i :: 0 <= i < |code| ==> NanoId.UrlSafe(code[i])
    ensures PageMessage(NotFoundLocation(base, code)) == NotFoundPage.NotFoundMessage(code)
  {
    assert '&' !in code && '#' !in code;
    ParamOfRedirect(base, NotFoundParam, code, ErrorParam);
  }

  /** The message rule, applied to the query of the error redirect, gives
      the processing-error message. */
  lemma ErrorRedirectShowsError(base: string)
    requires PlainBase(base)
    ensures PageMessage(ErrorLocation(base)) == NotFoundPage.ErrorMessage
  {
    ParamOfRedirect(base, ErrorParam, "server", NotFoundParam);
  }

  /** The message rule applied to the query of the location GET /:shortCode
      redirects to, for a generated code: after a failed cache or store read it
      gives the processing-error message; with a coherent cache and no failing
      call, a code with no active record gives the message naming the code. */
  lemma FallbackRedirectsExplained(st: State, env: Env, code: string)
    requires Truthy(env.frontendUrl) ==> PlainBase(env.frontendUrl.value)
    requires code != "" && forall i :: 0 <= i < |code| ==> NanoId.UrlSafe(code[i])
    ensures var loc := GetUrl(st, env, code).1.location;
      && (CacheGet in env.down || StoreFind in env.down ==> PageMessage(loc) == NotFoundPage.ErrorMessage)
      && (CacheCoherent(st) && env.down !! {CacheGet, StoreFind, StoreIncrement, CacheSet} && Resolve(st, code).None? ==>
            PageMessage(loc) == NotFoundPage.NotFoundMessage(code))
  {
    DefaultBaseIsPlain();
    NotFoundRedirectNamesCode(FrontendUrl(env), code);
    ErrorRedirectShowsError(FrontendUrl(env));
    if CacheCoherent(st) && env.down !! {CacheGet, StoreFind, StoreIncrement, CacheSet} {
      GetUrlAgreesWithStore(st, env, code);
    }
  }
}

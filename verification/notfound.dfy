/** The frontend's not-found page: the message it shows for the query
    parameters `notfound` and `error` that GET /:shortCode redirects with. */
module NotFoundPage {
  import opened Types

  const DefaultMessage := "The page you are looking for does not exist."
  const ErrorMessage := "An error occurred while processing your request."
  const NotFoundPrefix := "The short link \""
  const NotFoundSuffix := "\" was not found or has been deactivated."

  function NotFoundMessage(code: string): string {
    NotFoundPrefix + code + NotFoundSuffix
  }

  /** The message for the values of `searchParams.get('notfound')` and
      `searchParams.get('error')` (`None` when the parameter is absent). */
  function Message(notfound: Option<string>, error: Option<string>): (m: string)
    ensures Truthy(notfound) ==>
      |m| == |NotFoundPrefix| + |notfound.value| + |NotFoundSuffix| &&
      m[..|NotFoundPrefix|] == NotFoundPrefix &&
      m[|NotFoundPrefix|..|m| - |NotFoundSuffix|] == notfound.value &&
      m[|m| - |NotFoundSuffix|..] == NotFoundSuffix
    ensures !Truthy(notfound) ==> (m == ErrorMessage <==> Truthy(error))
    ensures !Truthy(notfound) ==> (m == DefaultMessage <==> !Truthy(error))
  {
    if Truthy(notfound) then NotFoundMessage(notfound.value)
    else if Truthy(error) then ErrorMessage
    else DefaultMessage
  }

  /** Which of the three messages is shown, and the code a not-found message
      names: `notfound` wins over `error`, and an empty value counts as absent. */
  lemma MessageSelection(notfound: Option<string>, error: Option<string>)
    ensures var m := Message(notfound, error);
      && (Truthy(notfound) <==> m != ErrorMessage && m != DefaultMessage)
      && (Truthy(notfound) ==>
            && m[..|NotFoundPrefix|] == NotFoundPrefix
            && m[|NotFoundPrefix|..|m| - |NotFoundSuffix|] == notfound.value
            && m[|m| - |NotFoundSuffix|..] == NotFoundSuffix)
      && (!Truthy(notfound) && Truthy(error) <==> m == ErrorMessage)
      && (!Truthy(notfound) && !Truthy(error) <==> m == DefaultMessage)
  {
    var m := Message(notfound, error);
    // the three messages differ already in length
    assert |ErrorMessage| == 48 && |DefaultMessage| == 44;
    assert |NotFoundPrefix| + |NotFoundSuffix| == 56;
  }

  /** Different codes give different messages. */
  lemma NotFoundMessageInjective(a: string, b: string)
    requires NotFoundMessage(a) == NotFoundMessage(b)
    ensures a == b
  {
    var m := NotFoundMessage(a);
    assert a == m[|NotFoundPrefix|..|m| - |NotFoundSuffix|];
  }
}

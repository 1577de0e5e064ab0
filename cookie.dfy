/** Reading the session token out of the `Cookie` header of a WebSocket
    upgrade request (index.js, lines 245 to 260): split the header on `;`,
    trim each piece, take the first piece that starts with `token=`, and keep
    what follows its first `=`; an empty value is no token. */
module Cookie {
  import opened Optional
  import opened JsStrings

  const TokenPrefix: string := "token="

  /** A header piece that, once trimmed, is the token cookie. */
  predicate IsTokenCookie(segment: string) {
    StartsWith(Trim(segment), TokenPrefix)
  }

  /** The trimmed form of the first token cookie among the pieces, if any. */
  function FirstTokenCookie(cookieArray: seq<string>): (r: Option<string>)
    ensures r.Some? ==> StartsWith(r.value, TokenPrefix)
  {
    if cookieArray == [] then None
    else if IsTokenCookie(cookieArray[0]) then Some(Trim(cookieArray[0]))
    else FirstTokenCookie(cookieArray[1..])
  }

  /** The token the server hands to the verifier for a request whose `Cookie`
      header is `header` (`None` when the request has none): the value of the
      first trimmed piece that starts with `token=`, provided it is not empty. */
  function ExtractToken(header: Option<string>): Option<string> {
    if header.None? || !Truthy(header.value) then None
    else
      match FirstTokenCookie(Split(header.value, ';'))
      case None => None
      case Some(cookie) =>
        var token := cookie[|TokenPrefix|..];
        if Truthy(token) then Some(token) else None
  }

  /** The first token cookie is found when it is the first matching piece. */
  lemma {:induction false} FirstTokenCookieIsFirst(cookieArray: seq<string>, k: nat)
    requires k < |cookieArray| && IsTokenCookie(cookieArray[k])
    requires forall j :: 0 <= j < k ==> !IsTokenCookie(cookieArray[j])
    ensures FirstTokenCookie(cookieArray) == Some(Trim(cookieArray[k]))
  {
    if k > 0 {
      FirstTokenCookieIsFirst(cookieArray[1..], k - 1);
    }
  }

  /** Whatever is found is the trimmed form of the first matching piece. */
  lemma {:induction false} FirstTokenCookieWitness(cookieArray: seq<string>) returns (k: nat)
    requires FirstTokenCookie(cookieArray).Some?
    ensures k < |cookieArray| && IsTokenCookie(cookieArray[k])
    ensures forall j :: 0 <= j < k ==> !IsTokenCookie(cookieArray[j])
    ensures FirstTokenCookie(cookieArray) == Some(Trim(cookieArray[k]))
  {
    if IsTokenCookie(cookieArray[0]) {
      k := 0;
    } else {
      var k' := FirstTokenCookieWitness(cookieArray[1..]);
      k := k' + 1;
    }
  }

  /** Nothing is found exactly when no piece matches. */
  lemma {:induction false} FirstTokenCookieNone(cookieArray: seq<string>)
    ensures FirstTokenCookie(cookieArray).None? <==>
            forall j :: 0 <= j < |cookieArray| ==> !IsTokenCookie(cookieArray[j])
  {
    if cookieArray != [] {
      FirstTokenCookieNone(cookieArray[1..]);
      assert forall j :: 1 <= j < |cookieArray| ==> cookieArray[j] == cookieArray[1..][j - 1];
    }
  }

  /** The scan of lines 247 to 256: the loop stops at the first trimmed piece
      that starts with `token=` and yields it. */
  method FindTokenCookie(cookieArray: seq<string>) returns (cookieStrToken: Option<string>)
    ensures cookieStrToken == FirstTokenCookie(cookieArray)
  {
    cookieStrToken := None;
    var i := 0;
    while i < |cookieArray| && cookieStrToken.None?
      invariant 0 <= i <= |cookieArray|
      invariant cookieStrToken.None? ==> FirstTokenCookie(cookieArray) == FirstTokenCookie(cookieArray[i..])
      invariant cookieStrToken.Some? ==> cookieStrToken == FirstTokenCookie(cookieArray)
    {
      assert cookieArray[i..][1..] == cookieArray[i + 1..];
      var cookie := Trim(cookieArray[i]);
      if StartsWith(cookie, TokenPrefix) {
        cookieStrToken := Some(cookie);
      }
      i := i + 1;
    }
  }

  /** Cutting at the first `=` of a token cookie is cutting the `token=` prefix:
      later `=` characters stay in the value. */
  lemma AfterFirstEquals(cookie: string)
    requires StartsWith(cookie, TokenPrefix)
    ensures SubstringFrom(cookie, IndexOf(cookie, '=') + 1) == cookie[|TokenPrefix|..]
  {
    assert cookie[..6] == TokenPrefix;
    assert '=' !in cookie[..5] by {
      forall i | 0 <= i < 5 ensures cookie[..5][i] != '=' { assert cookie[..5][i] == TokenPrefix[i]; }
    }
    assert cookie[5] == '=';
    assert cookie[..5] == cookie[..IndexOf(cookie, '=')] || IndexOf(cookie, '=') < 5;
  }

  /** Lines 245 to 260: the token taken from the request's `Cookie` header,
      or `None` when the verifier is not called. */
  method ReadToken(cookies: Option<string>) returns (token: Option<string>)
    ensures token == ExtractToken(cookies)
  {
    token := None;
    if cookies.Some? && Truthy(cookies.value) {
      var cookieArray := Split(cookies.value, ';');
      var cookieStrToken := FindTokenCookie(cookieArray);
      if cookieStrToken.Some? {
        AfterFirstEquals(cookieStrToken.value);
        var t := SubstringFrom(cookieStrToken.value, IndexOf(cookieStrToken.value, '=') + 1);
        if Truthy(t) {
          token := Some(t);
        }
      }
    }
  }

  /** The token is the value of the first matching piece, `=` characters and
      all, and later matching pieces are ignored; an empty value there means
      no verification even when a later piece has a value. */
  lemma ExtractTokenFirstMatch(header: string, k: nat)
    requires Truthy(header)
    requires k < |Split(header, ';')| && IsTokenCookie(Split(header, ';')[k])
    requires forall j :: 0 <= j < k ==> !IsTokenCookie(Split(header, ';')[j])
    ensures var value := Trim(Split(header, ';')[k])[|TokenPrefix|..];
            ExtractToken(Some(header)) == if Truthy(value) then Some(value) else None
  {
    FirstTokenCookieIsFirst(Split(header, ';'), k);
  }

  /** A token is returned only for a header with a matching piece whose value
      is not empty, and it is the value of the first such piece. */
  lemma ExtractTokenSound(header: Option<string>) returns (k: nat)
    requires ExtractToken(header).Some?
    ensures header.Some? && Truthy(header.value)
    ensures k < |Split(header.value, ';')| && IsTokenCookie(Split(header.value, ';')[k])
    ensures forall j :: 0 <= j < k ==> !IsTokenCookie(Split(header.value, ';')[j])
    ensures ExtractToken(header) == Some(Trim(Split(header.value, ';')[k])[|TokenPrefix|..])
    ensures Truthy(ExtractToken(header).value)
  {
    k := FirstTokenCookieWitness(Split(header.value, ';'));
  }

  /** The three ways the connection stays unverified: no header, no matching
      piece, or an empty value after `token=` in the first matching piece. */
  lemma ExtractTokenUnset(header: Option<string>)
    ensures header.None? ==> ExtractToken(header).None?
    ensures header.Some? && (forall j :: 0 <= j < |Split(header.value, ';')| ==> !IsTokenCookie(Split(header.value, ';')[j]))
            ==> ExtractToken(header).None?
    ensures header.Some? && FirstTokenCookie(Split(header.value, ';')) == Some(TokenPrefix)
            ==> ExtractToken(header).None?
  {
    if header.Some? {
      FirstTokenCookieNone(Split(header.value, ';'));
    }
  }
}

/** `authMiddleware`: reads the bearer token from the `Authorization` header,
    verifies it and attaches the decoded identity to the request. Token
    verification (`jwt.verify` with the access secret) is a parameter: a
    function from the token text to the decoded payload, `None` when the
    signature or the expiry check fails. */
module AuthMiddleware {
  import opened Http
  import opened Text

  const NoToken: ApiError := ApiError(401, "No token")
  const InvalidToken: ApiError := ApiError(401, "Invalid token")

  /** The request as the middleware sees it: the `Authorization` header, if
      any, and the `user` field it fills in on success. */
  class Request {
    const authorization: Option<string>
    var user: Option<Identity>

    constructor (authorization: Option<string>)
      ensures this.authorization == authorization && user == None
    {
      this.authorization := authorization;
      user := None;
    }
  }

  /** `header.split(" ")[1]`, kept only when it is truthy: the second
      space-separated piece of the header, never empty and never holding a
      space. */
  function BearerToken(header: string): (token: Option<string>)
    ensures token.Some? ==> token.value != "" && ' ' !in token.value
  {
    var pieces := Split(header, ' ');
    SplitPieces(header, ' ');
    if |pieces| >= 2 && pieces[1] != "" then Some(pieces[1]) else None
  }

  /** The middleware's decision: the identity to attach, or the error it
      hands to `next`. */
  function Authorize(header: Option<string>, verify: string -> Option<Identity>): (r: Result<Identity>)
    ensures !Given(header) ==> r == Err(NoToken)
    ensures Given(header) && BearerToken(header.value).None? ==> r == Err(NoToken)
    ensures Given(header) && BearerToken(header.value).Some? && verify(BearerToken(header.value).value).None? ==>
              r == Err(InvalidToken)
    ensures r.Ok? <==> Given(header) && BearerToken(header.value).Some? && verify(BearerToken(header.value).value).Some?
    ensures r.Ok? ==> r.value == verify(BearerToken(header.value).value).value
  {
    if !Given(header) then Err(NoToken)
    else
      match BearerToken(header.value)
      case None => Err(NoToken)
      case Some(token) =>
        match verify(token)
        case None => Err(InvalidToken)
        case Some(identity) => Ok(identity)
  }

  /** `authMiddleware(req, res, next)`. The result is the argument of the one
      call it makes to `next`: `None` is `next()`, which lets the request
      through to the handler; an error sends it to the error reporter
      instead. Only a successful verification touches the request. */
  method Authenticate(req: Request, verify: string -> Option<Identity>) returns (forwarded: Option<ApiError>)
    modifies req
    ensures forwarded.None? <==> Authorize(req.authorization, verify).Ok?
    ensures forwarded.Some? ==> forwarded.value == Authorize(req.authorization, verify).error
    ensures forwarded.None? ==> req.user == Some(Authorize(req.authorization, verify).value)
    ensures forwarded.Some? ==> req.user == old(req.user)
  {
    var header := req.authorization;
    if header.None? || header.value == "" {
      return Some(NoToken);
    }
    var pieces := Split(header.value, ' ');
    if |pieces| < 2 || pieces[1] == "" {
      return Some(NoToken);
    }
    var token := pieces[1];
    var decoded := verify(token);
    if decoded.None? {
      return Some(InvalidToken);
    }
    req.user := decoded;
    forwarded := None;
  }

  /** The token is the word after the first space, whatever the word before
      it: `"Bearer abc"`, `"Token abc"` and `"x abc def"` all yield `abc`. */
  lemma TokenIsSecondWord(scheme: string, token: string, rest: string)
    requires ' ' !in scheme && ' ' !in token && token != ""
    requires rest == [] || rest[0] == ' '
    ensures BearerToken(scheme + " " + token + rest) == Some(token)
  {
    if rest == [] {
      SplitCons(scheme, token, ' ');
      assert scheme + " " + token + rest == scheme + [' '] + token;
      assert Split(token, ' ') == [token];
    } else {
      var h := scheme + " " + token + rest;
      assert h == scheme + [' '] + (token + [' '] + rest[1..]);
      SplitCons(scheme, token + [' '] + rest[1..], ' ');
      SplitCons(token, rest[1..], ' ');
    }
  }

  /** The scheme word is never inspected: two headers that differ only in
      it get the same decision. */
  lemma SchemeIgnored(scheme1: string, scheme2: string, tail: string, verify: string -> Option<Identity>)
    requires ' ' !in scheme1 && ' ' !in scheme2
    ensures Authorize(Some(scheme1 + " " + tail), verify) == Authorize(Some(scheme2 + " " + tail), verify)
  {
    SplitCons(scheme1, tail, ' ');
    SplitCons(scheme2, tail, ' ');
    assert scheme1 + " " + tail == scheme1 + [' '] + tail;
    assert scheme2 + " " + tail == scheme2 + [' '] + tail;
  }

  /** A header with no space (`"Bearer"`, or a bare token) and a header whose
      first space is followed by another (`"Bearer  abc"`) carry no token. */
  lemma MissingTokenRejected(scheme: string, rest: string, verify: string -> Option<Identity>)
    requires ' ' !in scheme
    ensures Authorize(Some(scheme), verify) == Err(NoToken)
    ensures Authorize(Some(scheme + "  " + rest), verify) == Err(NoToken)
  {
    assert Split(scheme, ' ') == [scheme];
    assert scheme + "  " + rest == scheme + [' '] + ([] + [' '] + rest);
    SplitCons(scheme, [] + [' '] + rest, ' ');
    SplitCons([], rest, ' ');
  }
}

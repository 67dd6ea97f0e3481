/** The bearer-header gate in front of the authenticated routes. The header
    is split on single spaces; the first piece must be exactly `Bearer`, the
    second is the token; JWT verification is a foreign call, given here as
    `verifyJwt`, which answers `None` both when the library throws and when
    it returns nothing. */
module AuthMiddleware {
  import opened Wrappers
  import opened Text
  import opened Store

  const Scheme := "Bearer"

  datatype Gate =
    | Crashed                      // no header: `split` throws outside the handler's try
    | BadScheme                    // 400 "Type of token must be a Bearer"
    | NoToken                      // 404 "No token found"
    | Unauthorized                 // 401 "Unauthorized User"
    | Authenticated(user: Claims)  // `req.user` is set and `next()` runs once

  /** The response the gate itself writes, if any. */
  function Status(g: Gate): (code: Option<nat>)
    ensures code.Some? <==> g.BadScheme? || g.NoToken? || g.Unauthorized?
    ensures g.BadScheme? ==> code == Some(400)
    ensures g.NoToken? ==> code == Some(404)
    ensures g.Unauthorized? ==> code == Some(401)
  {
    match g
    case Crashed => None
    case BadScheme => Some(400)
    case NoToken => Some(404)
    case Unauthorized => Some(401)
    case Authenticated(_) => None
  }

  /** The three refusals answer with three different codes, so the code
      alone tells which check refused the request. */
  lemma StatusNamesRefusal(g1: Gate, g2: Gate)
    requires Status(g1).Some? && Status(g1) == Status(g2)
    ensures g1 == g2
  {
  }

  /** `split(" ")[0]`. */
  function TokenType(header: string): (piece: string) {
    Split(header, ' ')[0]
  }

  /** `split(" ")[1]`, which is `undefined` when there is no space. */
  function TokenPart(header: string): (piece: Option<string>) {
    var parts := Split(header, ' ');
    if |parts| > 1 then Some(parts[1]) else None
  }

  function Auth(header: Option<string>, verifyJwt: string -> Option<SessionPayload>): (g: Gate)
    ensures g.Crashed? <==> header.None?
    ensures g.Authenticated? ==>
      && TokenPart(header.value).Some?
      && verifyJwt(TokenPart(header.value).value) == Some(SessionPayload(g.user))
  {
    match header
    case None => Crashed
    case Some(h) =>
      if TokenType(h) != Scheme then BadScheme
      else
        match TokenPart(h)
        case None => NoToken
        case Some(token) =>
          if token == "" then NoToken
          else
            match verifyJwt(token)
            case None => Unauthorized
            case Some(payload) => Authenticated(payload.user)
  }

  /** The first piece of `split` is everything before the first separator. */
  lemma FirstPiece(h: string)
    ensures ' ' !in h ==> TokenType(h) == h
    ensures ' ' in h ==> TokenType(h) == h[..IndexOf(h, ' ')]
  {
  }

  /** The scheme test, without `split`: the header is `Bearer` alone or
      begins with `Bearer ` (case-sensitive). */
  lemma SchemeIsBearer(h: string)
    ensures TokenType(h) == Scheme <==> (h == Scheme || Scheme + " " <= h)
  {
    var prefix := Scheme + " ";
    assert ' ' !in Scheme;
    if h == Scheme {
      FirstPiece(h);
    } else if prefix <= h {
      PiecesAfterScheme(Scheme, h[7..]);
      assert h == Scheme + " " + h[7..];
    } else {
      FirstPiece(h);
    }
  }

  /** A header that is not `Bearer` or `Bearer ...` is refused with 400,
      whatever the verifier would have said. */
  lemma BadSchemeRefused(h: string, verifyJwt: string -> Option<SessionPayload>)
    requires !(h == Scheme || Scheme + " " <= h)
    ensures Auth(Some(h), verifyJwt) == BadScheme
    ensures Status(Auth(Some(h), verifyJwt)) == Some(400)
  {
    SchemeIsBearer(h);
  }

  /** The scheme is checked before the token, and neither check consults the
      verifier. */
  lemma VerifierConsultedLast(h: string, v1: string -> Option<SessionPayload>, v2: string -> Option<SessionPayload>)
    requires Auth(Some(h), v1).BadScheme? || Auth(Some(h), v1).NoToken?
    ensures Auth(Some(h), v2) == Auth(Some(h), v1)
  {
  }

  /** After a separator-free first piece and a space, the token is the
      first piece of the rest. */
  lemma PiecesAfterScheme(a: string, b: string)
    requires ' ' !in a
    ensures TokenType(a + " " + b) == a
    ensures TokenPart(a + " " + b) == Some(Split(b, ' ')[0])
  {
    SplitPeel(a, ' ', b);
    assert a + [' '] + b == a + " " + b;
  }

  /** `Bearer` alone, `Bearer ` with nothing after it, and `Bearer` followed
      by two spaces all leave the token empty or absent: 404. */
  lemma MissingTokenRefused(rest: string, verifyJwt: string -> Option<SessionPayload>)
    ensures Auth(Some(Scheme), verifyJwt) == NoToken
    ensures Auth(Some(Scheme + " "), verifyJwt) == NoToken
    ensures Auth(Some(Scheme + " " + " " + rest), verifyJwt) == NoToken
  {
    assert ' ' !in Scheme;
    PiecesAfterScheme(Scheme, "");
    assert Scheme + " " + "" == Scheme + " ";
    PiecesAfterScheme(Scheme, " " + rest);
    assert Scheme + " " + (" " + rest) == Scheme + " " + " " + rest;
    SplitPeel("", ' ', rest);
    assert "" + [' '] + rest == " " + rest;
  }

  /** The token is the second piece; anything after a further space is
      ignored, so `Bearer a b` is judged by the token `a`. */
  lemma ExtraPiecesIgnored(t: string, rest: string, verifyJwt: string -> Option<SessionPayload>)
    requires ' ' !in t
    ensures Auth(Some(Scheme + " " + t + " " + rest), verifyJwt) == Auth(Some(Scheme + " " + t), verifyJwt)
  {
    assert ' ' !in Scheme;
    PiecesAfterScheme(Scheme, t + " " + rest);
    assert Scheme + " " + (t + " " + rest) == Scheme + " " + t + " " + rest;
    PiecesAfterScheme(t, rest);
    PiecesAfterScheme(Scheme, t);
  }

  /** With a well-formed `Bearer <token>` header the verdict is the
      verifier's: 401 when it rejects, otherwise the payload's user is
      passed on. */
  lemma WellFormedHeaderVerdict(t: string, verifyJwt: string -> Option<SessionPayload>)
    requires t != [] && ' ' !in t
    ensures verifyJwt(t).None? ==> Auth(Some(Scheme + " " + t), verifyJwt) == Unauthorized
    ensures verifyJwt(t).Some? ==> Auth(Some(Scheme + " " + t), verifyJwt) == Authenticated(verifyJwt(t).value.user)
  {
    assert ' ' !in Scheme;
    PiecesAfterScheme(Scheme, t);
  }
}

/** The identity middleware in front of the post routes: it reads a bearer
    token from the `Authorization` header and either lets the request on
    anonymously, rejects it, or lets it on as the token's user. */
module AuthMiddleware {
  import opened Wrappers
  import opened JsText
  import opened AuthView

  datatype Identity =
    | Anonymous          // `next()` with `req.userId` unset
    | Rejected           // 403, the handler never runs
    | SignedIn(userId: int)

  const RejectedMessage := "Token is invalid or expired."
  const RejectedStatus := 403

  /** `authHeader && authHeader.split(' ')[1]`: no header gives nothing, an
      empty header is itself the (empty) token, and otherwise the second
      space-separated field, when there is one. */
  function BearerToken(header: Option<string>): (r: Option<string>)
    ensures header.None? ==> r.None?
    ensures header == Some("") ==> r == Some("")
    ensures header.Some? && header.value != "" ==>
      (r.Some? <==> ' ' in header.value)
    ensures r.Some? ==> ' ' !in r.value
  {
    if header.None? then None
    else if header.value == "" then Some("")
    else
      var fields := Split(header.value, ' ');
      if |fields| < 2 then
        assert ' ' !in header.value by { NoSeparatorOneField(header.value, ' '); }
        None
      else
        assert ' ' in header.value by { JoinSplit(header.value, ' '); JoinHasSeparator(fields, ' '); }
        Some(fields[1])
  }

  /** A string split into two or more fields contained the separator. */
  lemma JoinHasSeparator(parts: seq<string>, sep: char)
    requires |parts| >= 2
    ensures sep in Join(parts, sep)
  {
    assert Join(parts, sep) == parts[0] + [sep] + Join(parts[1..], sep);
    assert Join(parts, sep)[|parts[0]|] == sep;
  }

  /** A string without the separator is one field. */
  lemma NoSeparatorOneField(s: string, sep: char)
    requires |Split(s, sep)| < 2
    ensures sep !in s
  {
    JoinSplit(s, sep);
    assert Split(s, sep) == [Split(s, sep)[0]];
    assert Join([Split(s, sep)[0]], sep) == Split(s, sep)[0];
  }

  /** `Bearer <token>` yields the token when the token has no space. */
  lemma BearerTokenOfHeader(token: string)
    requires ' ' !in token
    ensures BearerToken(Some("Bearer " + token)) == Some(token)
  {
    var parts := ["Bearer", token];
    assert ' ' !in parts[0];
    SplitJoin(parts, ' ');
    assert Join(parts, ' ') == "Bearer" + [' '] + Join([token], ' ');
    assert Join([token], ' ') == token;
    assert "Bearer" + [' '] + token == "Bearer " + token;
  }

  /** `authenticateToken`: no token lets the request on anonymously; a
      token that is empty, does not decode or has expired (at or after
      `exp`, in whole seconds) is rejected; otherwise the request goes on
      as `user_id`. `decode` is the signature check of the token library. */
  function Authenticate(header: Option<string>, decode: string -> Option<Claims>, nowMs: int): (r: Identity)
    ensures BearerToken(header).None? <==> r == Anonymous
    ensures BearerToken(header) == Some("") ==> r == Rejected
    ensures r.SignedIn? ==> BearerToken(header).Some? && decode(BearerToken(header).value).Some?
    ensures r.SignedIn? ==> var c := decode(BearerToken(header).value).value;
      c.userId == r.userId && nowMs / 1000 < c.expiresAt
    ensures BearerToken(header).Some? && BearerToken(header).value != "" ==>
      (r == Rejected <==> match decode(BearerToken(header).value)
                          case None => true
                          case Some(c) => nowMs / 1000 >= c.expiresAt)
  {
    match BearerToken(header)
    case None => Anonymous
    case Some(token) =>
      if token == "" then Rejected
      else
        match decode(token)
        case None => Rejected
        case Some(c) => if nowMs / 1000 >= c.expiresAt then Rejected else SignedIn(c.userId)
  }

  /** A header with no space in it is anonymous, and so is no header. */
  lemma NoSpaceIsAnonymous(header: Option<string>, decode: string -> Option<Claims>, nowMs: int)
    requires header.None? || (header.value != "" && ' ' !in header.value)
    ensures Authenticate(header, decode, nowMs) == Anonymous
  {
  }

  /** The empty header and `"Bearer "` carry an empty token and are refused
      whatever the decoder says. */
  lemma EmptyTokenRejected(decode: string -> Option<Claims>, nowMs: int)
    ensures Authenticate(Some(""), decode, nowMs) == Rejected
    ensures Authenticate(Some("Bearer "), decode, nowMs) == Rejected
  {
    BearerTokenOfHeader("");
    assert "Bearer " + "" == "Bearer ";
  }

  /** A token minted for a user at `issuedMs` and sent back as
      `Bearer <token>` identifies that user until 24 hours have passed,
      and is refused from then on. */
  lemma IssuedTokenIdentifies(id: int, name: string, issuedMs: int, nowMs: int,
                              sign: Claims -> string, decode: string -> Option<Claims>)
    requires var c := TokenClaims(id, name, issuedMs); decode(sign(c)) == Some(c) && sign(c) != "" && ' ' !in sign(c)
    ensures var h := Some("Bearer " + sign(TokenClaims(id, name, issuedMs)));
      && (nowMs / 1000 < issuedMs / 1000 + TokenLifetimeSeconds ==> Authenticate(h, decode, nowMs) == SignedIn(id))
      && (nowMs / 1000 >= issuedMs / 1000 + TokenLifetimeSeconds ==> Authenticate(h, decode, nowMs) == Rejected)
  {
    BearerTokenOfHeader(sign(TokenClaims(id, name, issuedMs)));
  }
}

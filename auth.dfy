/** The request guards of backend/middlewares/authMiddleware.js. Verifying a
    JSON Web Token is the `verify` parameter: the user id the token carries, or
    None when jsonwebtoken rejects it (or the lookup throws). */
module Auth {
  import opened Common
  import opened Seqs
  import opened JsString
  import opened Schema

  /** What a middleware does with the request: answer it, or call `next()`
      once, with `req.user` set to the principal. */
  datatype Decision = Reject(status: nat, message: string) | Next(user: Principal)

  const TokenMissing: string := "Token mancante"
  const BadFormat: string := "Formato del token non valido"
  const UserNotFound: string := "Utente non trovato"
  const BadToken: string := "Token non valido"
  const AdminOnly: string := "Accesso negato. Richiesti permessi di amministratore."

  /** The token of an `Authorization: Bearer <token>` header: the header split
      on ' ' must give exactly two pieces, the first exactly "Bearer". */
  function BearerToken(header: string): (token: Option<string>)
    ensures token.Some? ==> ' ' !in token.value && header == "Bearer " + token.value
  {
    var parts := Split(header, ' ');
    if |parts| != 2 || parts[0] != "Bearer" then None
    else
      JoinSplit(header, ' ');
      assert Join(parts, ' ') == parts[0] + [' '] + parts[1];
      Some(parts[1])
  }

  /** authMiddleware: 401 for a missing or empty header, a malformed header,
      a token that fails verification and an unknown user; otherwise `next()`
      with the user the token names. */
  function Authenticate(header: Option<string>, verify: string -> Option<UserId>, users: map<UserId, User>): (d: Decision)
    ensures d.Reject? ==> d.status == 401
    ensures d == Reject(401, TokenMissing) <==> header.None? || header == Some("")
    ensures d.Next? <==> && header.Some?
                         && BearerToken(header.value).Some?
                         && verify(BearerToken(header.value).value).Some?
                         && verify(BearerToken(header.value).value).value in users
    ensures d.Next? ==> var id := verify(BearerToken(header.value).value).value;
                        d.user == Principal(id, users[id].ruolo)
  {
    if header.None? || header.value == "" then Reject(401, TokenMissing)
    else
      match BearerToken(header.value)
      case None => Reject(401, BadFormat)
      case Some(token) =>
        match verify(token)
        case None => Reject(401, BadToken)
        case Some(id) =>
          if id !in users then Reject(401, UserNotFound)
          else Next(Principal(id, users[id].ruolo))
  }

  /** The header format accepted is exactly "Bearer", one space, and a token
      holding no space; the token verified is that text. */
  lemma BearerFormat(token: string)
    ensures BearerToken("Bearer " + token) == if ' ' in token then None else Some(token)
  {
    var header := "Bearer " + token;
    if ' ' !in token {
      SplitJoin(["Bearer", token], ' ');
      assert Join(["Bearer", token], ' ') == header;
    }
  }

  /** A header with two or more spaces splits into three pieces or more, and is
      rejected: a double space after "Bearer" among others. */
  lemma TwoSpacesRejected(header: string)
    requires Count(header, ' ') >= 2
    ensures BearerToken(header).None?
  {
    SplitCount(header, ' ');
  }

  /** "bearer" in lower case is not the scheme. */
  lemma SchemeIsCaseSensitive(token: string, verify: string -> Option<UserId>, users: map<UserId, User>)
    requires ' ' !in token
    ensures Authenticate(Some("bearer " + token), verify, users) == Reject(401, BadFormat)
  {
    var header := "bearer " + token;
    SplitJoin(["bearer", token], ' ');
    assert Join(["bearer", token], ' ') == header;
    assert "bearer" != "Bearer" by {
      assert "bearer"[0] != "Bearer"[0];
    }
  }

  /** checkAdminPermission: `next()` exactly when there is a user and that
      user is an admin; 403 otherwise. */
  function CheckAdminPermission(user: Option<Principal>): (d: Decision)
    ensures d.Next? <==> user.Some? && user.value.ruolo == Admin
    ensures d.Next? ==> d.user == user.value
    ensures d.Reject? ==> d == Reject(403, AdminOnly)
  {
    if user.Some? && user.value.ruolo == Admin then Next(user.value) else Reject(403, AdminOnly)
  }
}

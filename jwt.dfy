/** The token service and the authentication middleware of jwt.js.
    Signing and signature checking are the token library's business: the
    middleware sees the library's verification only as a function from the
    token string to `Verified(claims)`, `Expired` or `Invalid`. */
module Jwt {
  import opened Common

  type UserId = nat

  const AdminRole := "admin"

  /** The payload every issued token carries: `{ id, role }`. */
  datatype Claims = Claims(id: UserId, role: string)

  /** A token as its payload reads once the signature is checked: the claims
      plus the `iat` and `exp` seconds the library adds when signing. */
  datatype Token = Token(payload: Claims, issuedAt: int, expiresAt: int)

  /** `expiresIn: '24h'`, in seconds. */
  const TokenLifetime := 24 * 60 * 60

  /** generateToken: signs the payload unchanged, issued at `now`, expiring a day later. */
  function GenerateToken(payload: Claims, now: int): Token {
    Token(payload, now, now + TokenLifetime)
  }

  /** What the token library's verification says of a token string. */
  datatype Verification = Verified(claims: Claims) | Expired | Invalid

  /** The library's expiry rule for a token whose signature is good: it is
      expired from its `exp` second on. */
  function CheckExpiry(t: Token, now: int): Verification {
    if now < t.expiresAt then Verified(t.payload) else Expired
  }

  /** An issued token verifies to exactly its payload for the 24 hours after
      issue and is expired from then on. */
  lemma IssuedTokenLifetime(payload: Claims, issuedAt: int, now: int)
    ensures GenerateToken(payload, issuedAt).payload == payload
    ensures CheckExpiry(GenerateToken(payload, issuedAt), now).Verified?
        <==> now < issuedAt + TokenLifetime
    ensures CheckExpiry(GenerateToken(payload, issuedAt), now).Verified? ==>
        CheckExpiry(GenerateToken(payload, issuedAt), now).claims == payload
  {
  }

  // ----- The Authorization header -----

  /** `s.split(' ')`: the pieces between single spaces, always at least one,
      none of them containing a space. */
  function Split(s: string): (pieces: seq<string>)
    ensures |pieces| >= 1
    ensures forall i :: 0 <= i < |pieces| ==> ' ' !in pieces[i]
  {
    if s == [] then [""]
    else
      var rest := Split(s[1..]);
      if s[0] == ' ' then [""] + rest
      else [[s[0]] + rest[0]] + rest[1..]
  }

  /** `pieces.join(' ')`. */
  function Join(pieces: seq<string>): string
    requires |pieces| >= 1
  {
    if |pieces| == 1 then pieces[0] else pieces[0] + " " + Join(pieces[1..])
  }

  /** Splitting loses nothing: the pieces joined again give the header back. */
  lemma {:induction false} SplitJoin(s: string)
    ensures Join(Split(s)) == s
  {
    if s != [] {
      var rest := Split(s[1..]);
      SplitJoin(s[1..]);
      if s[0] == ' ' {
        assert ([""] + rest)[1..] == rest;
      } else if |rest| > 1 {
        var pieces := [[s[0]] + rest[0]] + rest[1..];
        assert pieces[1..] == rest[1..];
        assert Join(rest) == rest[0] + " " + Join(rest[1..]);
        assert s == [s[0]] + s[1..];
      } else {
        assert s == [s[0]] + s[1..];
      }
    }
  }

  /** A first word without spaces becomes the first piece on its own. */
  lemma {:induction false} SplitAfterWord(word: string, rest: string)
    requires ' ' !in word
    ensures Split(word + " " + rest) == [word] + Split(rest)
  {
    if word == [] {
      assert word + " " + rest == " " + rest;
      assert (" " + rest)[1..] == rest;
    } else {
      var s := word + " " + rest;
      assert s[0] == word[0];
      assert s[1..] == word[1..] + " " + rest;
      SplitAfterWord(word[1..], rest);
      assert [word[0]] + word[1..] == word;
    }
  }

  /** A string without spaces splits into itself alone. */
  lemma {:induction false} SplitWord(word: string)
    requires ' ' !in word
    ensures Split(word) == [word]
  {
    if word != [] {
      SplitWord(word[1..]);
      assert [word[0]] + word[1..] == word;
    }
  }

  /** `req.headers.authorization?.split(' ')[1]`, where an absent header, an
      absent second piece and an empty second piece all mean "no token". */
  function ExtractToken(header: Option<string>): (token: Option<string>)
    ensures token.Some? ==> header.Some? && token.value != "" && ' ' !in token.value
  {
    match header
    case None => None
    case Some(h) =>
      var pieces := Split(h);
      if |pieces| >= 2 && pieces[1] != "" then Some(pieces[1]) else None
  }

  /** The first word is never looked at: any scheme word (even an empty one)
      followed by one space and the token yields that token. */
  lemma TokenAfterAnyScheme(scheme: string, token: string)
    requires ' ' !in scheme && ' ' !in token && token != ""
    ensures ExtractToken(Some(scheme + " " + token)) == Some(token)
  {
    SplitAfterWord(scheme, token);
    SplitWord(token);
  }

  /** Pieces after the second are ignored: the token is the second piece
      however much text follows it. */
  lemma TokenIgnoresLaterPieces(scheme: string, token: string, rest: string)
    requires ' ' !in scheme && ' ' !in token && token != ""
    ensures ExtractToken(Some(scheme + " " + token + " " + rest)) == Some(token)
  {
    assert scheme + " " + token + " " + rest == scheme + " " + (token + " " + rest);
    SplitAfterWord(scheme, token + " " + rest);
    SplitAfterWord(token, rest);
  }

  /** A scheme followed by a single trailing space leaves an empty second
      piece: no token. */
  lemma TrailingSpaceNoToken(scheme: string)
    requires ' ' !in scheme
    ensures ExtractToken(Some(scheme + " ")) == None
  {
    assert scheme + " " == scheme + " " + "";
    SplitAfterWord(scheme, "");
  }

  /** A header without a space carries no token, whatever it says. */
  lemma NoSpaceNoToken(header: string)
    requires ' ' !in header
    ensures ExtractToken(Some(header)) == None
  {
    SplitWord(header);
  }

  /** Two spaces after the scheme leave an empty second piece: no token. */
  lemma DoubleSpaceNoToken(scheme: string, rest: string)
    requires ' ' !in scheme
    ensures ExtractToken(Some(scheme + "  " + rest)) == None
  {
    assert scheme + "  " + rest == scheme + " " + (" " + rest);
    SplitAfterWord(scheme, " " + rest);
    SplitAfterWord("", rest);
    assert "" + " " + rest == " " + rest;
  }

  // ----- The middleware -----

  const NoTokenMessage := "Access denied. No token provided."
  const ExpiredMessage := "Token expired"
  const InvalidMessage := "Invalid token"

  /** The middleware's decision: call `next` with `req.user` set to the
      decoded claims, or answer with a failure and never call `next`. */
  datatype AuthResult = Proceed(user: Claims) | Deny(failure: Failure)

  /** jwtAuthMiddleware, given the Authorization header (if any) and the
      token library's verification. */
  function Authenticate(header: Option<string>, verify: string -> Verification): (r: AuthResult)
    ensures r.Deny? ==> r.failure.status == StatusUnauthorized
    ensures r == Deny(Failure(StatusUnauthorized, NoTokenMessage)) <==> ExtractToken(header).None?
    ensures r == Deny(Failure(StatusUnauthorized, ExpiredMessage))
        <==> ExtractToken(header).Some? && verify(ExtractToken(header).value) == Expired
    ensures r == Deny(Failure(StatusUnauthorized, InvalidMessage))
        <==> ExtractToken(header).Some? && verify(ExtractToken(header).value) == Invalid
    ensures r.Proceed? <==> ExtractToken(header).Some? && verify(ExtractToken(header).value).Verified?
    ensures r.Proceed? ==> verify(ExtractToken(header).value) == Verified(r.user)
  {
    match ExtractToken(header)
    case None => Deny(Failure(StatusUnauthorized, NoTokenMessage))
    case Some(token) =>
      match verify(token)
      case Verified(claims) => Proceed(claims)
      case Expired => Deny(Failure(StatusUnauthorized, ExpiredMessage))
      case Invalid => Deny(Failure(StatusUnauthorized, InvalidMessage))
  }

  /** A token just issued for `payload` at `issuedAt`, presented as
      `<scheme> <token>`, passes the middleware with exactly that payload for
      the 24 hours after `issuedAt` and is refused as expired from then on,
      provided the library checks it as it checks any token it signed. */
  lemma IssuedTokenAuthenticates(scheme: string, token: string, verify: string -> Verification,
                                 payload: Claims, issuedAt: int, now: int)
    requires ' ' !in scheme && ' ' !in token && token != ""
    requires verify(token) == CheckExpiry(GenerateToken(payload, issuedAt), now)
    ensures Authenticate(Some(scheme + " " + token), verify)
        == if now < issuedAt + TokenLifetime then Proceed(payload)
           else Deny(Failure(StatusUnauthorized, ExpiredMessage))
  {
    TokenAfterAnyScheme(scheme, token);
    IssuedTokenLifetime(payload, issuedAt, now);
  }
}

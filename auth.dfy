/** The authentication middleware of middleware/auth.js: it reads the
    Authorization header, strips the bearer marker, hands the token to the
    token verifier, and either answers 401 or attaches the verified identity
    for the handler that follows. The verifier (JWT signature and expiry
    checks under the process-wide secret) is a parameter: it maps a token to
    the claims it carries, or to None when it rejects the token. */
module Auth {
  import opened Results
  import opened Blog

  /** The payload fields a verified token carries. */
  datatype Claims = Claims(userId: UserId, username: string)

  /** What the gate attaches to the request: `req.userId`, `req.username`. */
  datatype Identity = Identity(userId: UserId, username: string)

  const BearerMarker: string := "Bearer "

  /** `pat` occurs in `s` starting at position `i`. */
  predicate OccursAt(s: string, pat: string, i: nat)
  {
    i + |pat| <= |s| && s[i..i + |pat|] == pat
  }

  /** The first position at or after `from` where `pat` occurs in `s`, or -1
      when there is none (the search String.prototype.replace does for a
      string pattern). */
  function IndexOfFrom(s: string, pat: string, from: nat): (i: int)
    ensures i == -1 || (from <= i && OccursAt(s, pat, i))
    ensures forall j: nat :: from <= j && (i == -1 || j < i) ==> !OccursAt(s, pat, j)
    decreases |s| + 1 - from
  {
    if |s| < from + |pat| then -1
    else if OccursAt(s, pat, from) then from
    else IndexOfFrom(s, pat, from + 1)
  }

  /** `s.replace(pat, rep)` for a string pattern: only the first occurrence
      is replaced, and a string without one is returned as it is. */
  function ReplaceFirst(s: string, pat: string, rep: string): (r: string)
    ensures (forall j: nat :: !OccursAt(s, pat, j)) ==> r == s
    ensures forall i: nat :: OccursAt(s, pat, i) && (forall j: nat :: j < i ==> !OccursAt(s, pat, j))
              ==> r == s[..i] + rep + s[i + |pat|..]
  {
    var i := IndexOfFrom(s, pat, 0);
    if i == -1 then s else s[..i] + rep + s[i + |pat|..]
  }

  /** `req.header('Authorization')?.replace('Bearer ', '')`: None when the
      header is absent. */
  function ExtractToken(header: Option<string>): (token: Option<string>)
    ensures token.None? <==> header.None?
    ensures header.Some? ==>
              || token.value == header.value
              || |token.value| + |BearerMarker| == |header.value|
  {
    match header
    case None => None
    case Some(h) => Some(ReplaceFirst(h, BearerMarker, ""))
  }

  /** The gate: 401 with "No authentication token" when there is no header
      or the token left after stripping is empty (a falsy token), 401 with
      "Token is not valid" when the verifier rejects it, otherwise the
      identity made of exactly the verified claims. Ok is the only outcome
      in which `next()` runs, and it runs once. */
  function Authenticate(header: Option<string>, verify: string -> Option<Claims>): (r: Result<Identity>)
    ensures header.None? ==> r == Err(NoToken)
    ensures r == Err(NoToken) <==> ExtractToken(header) in {None, Some("")}
    ensures r == Err(InvalidToken) <==>
              ExtractToken(header).Some? && ExtractToken(header).value != ""
              && verify(ExtractToken(header).value).None?
    ensures r.Ok? ==>
              && ExtractToken(header).Some? && ExtractToken(header).value != ""
              && verify(ExtractToken(header).value) == Some(Claims(r.value.userId, r.value.username))
    ensures (&& ExtractToken(header).Some? && ExtractToken(header).value != ""
             && verify(ExtractToken(header).value).Some?) ==> r.Ok?
  {
    match ExtractToken(header)
    case None => Err(NoToken)
    case Some(token) =>
      if token == "" then Err(NoToken)
      else
        match verify(token)
        case None => Err(InvalidToken)
        case Some(claims) => Ok(Identity(claims.userId, claims.username))
  }

  /** A header `Bearer <t>` hands exactly `t` to the verifier: an empty `t`
      (the header "Bearer ") is refused with "No authentication token"
      without consulting the verifier, and otherwise the outcome is the
      verifier's verdict on `t`. */
  lemma {:induction false} BearerHeader(t: string, verify: string -> Option<Claims>)
    ensures ExtractToken(Some(BearerMarker + t)) == Some(t)
    ensures t == "" ==> Authenticate(Some(BearerMarker + t), verify) == Err(NoToken)
    ensures t != "" && verify(t).None? ==> Authenticate(Some(BearerMarker + t), verify) == Err(InvalidToken)
    ensures t != "" && verify(t).Some? ==>
              Authenticate(Some(BearerMarker + t), verify)
                == Ok(Identity(verify(t).value.userId, verify(t).value.username))
  {
    var h := BearerMarker + t;
    assert OccursAt(h, BearerMarker, 0) by {
      assert h[0..|BearerMarker|] == BearerMarker;
    }
    assert IndexOfFrom(h, BearerMarker, 0) == 0;
    assert ReplaceFirst(h, BearerMarker, "") == h[|BearerMarker|..];
    assert h[|BearerMarker|..] == t;
  }

  /** The marker is not required to be there: a header that does not
      contain "Bearer " is taken as the token itself. */
  lemma {:induction false} HeaderWithoutMarker(h: string)
    requires forall j: nat :: !OccursAt(h, BearerMarker, j)
    ensures ExtractToken(Some(h)) == Some(h)
  {
  }
}

/** The token gate in front of every protected route: the token is the
    second word of the Authorization header (`split(" ")[1]`), verified with
    the server's secret; on success the decoded user id is attached to the
    request and the next handler runs. */
module AuthMiddleware {
  import opened Common
  import opened Crypto

  /** JavaScript's `s.split(sep)` for a one-character separator. */
  function Split(s: string, sep: char): (r: seq<string>)
    ensures |r| >= 1
    ensures forall k :: 0 <= k < |r| ==> sep !in r[k]
    decreases |s|
  {
    if s == [] then [""]
    else
      var rest := Split(s[1..], sep);
      if s[0] == sep then [""] + rest
      else [[s[0]] + rest[0]] + rest[1..]
  }

  /** `parts.join(sep)`. */
  function Join(parts: seq<string>, sep: char): string
    requires |parts| >= 1
  {
    if |parts| == 1 then parts[0] else parts[0] + [sep] + Join(parts[1..], sep)
  }

  /** Splitting loses nothing: joining the pieces gives back the header. */
  lemma {:induction false} JoinSplit(s: string, sep: char)
    ensures Join(Split(s, sep), sep) == s
    decreases |s|
  {
    if s != [] {
      var rest := Split(s[1..], sep);
      JoinSplit(s[1..], sep);
      if s[0] == sep {
        assert Split(s, sep)[1..] == rest;
      } else if |rest| == 1 {
        assert Join(Split(s, sep), sep) == [s[0]] + rest[0];
      } else {
        var r := Split(s, sep);
        assert r[1..] == rest[1..];
        assert Join(rest, sep) == rest[0] + [sep] + Join(rest[1..], sep);
        assert Join(r, sep) == ([s[0]] + rest[0]) + [sep] + Join(rest[1..], sep);
        assert s == [s[0]] + s[1..];
      }
    }
  }

  /** A string without the separator is a single piece. */
  lemma {:induction false} SplitWord(w: string, sep: char)
    requires sep !in w
    ensures Split(w, sep) == [w]
    decreases |w|
  {
    if w != [] {
      assert sep !in w[1..];
      SplitWord(w[1..], sep);
      assert w == [w[0]] + w[1..];
    }
  }

  /** The first piece ends at the first separator. */
  lemma {:induction false} SplitAtFirst(w: string, sep: char, rest: string)
    requires sep !in w
    ensures Split(w + [sep] + rest, sep) == [w] + Split(rest, sep)
    decreases |w|
  {
    var s := w + [sep] + rest;
    if w == [] {
      assert s[1..] == rest;
    } else {
      assert s[1..] == w[1..] + [sep] + rest;
      assert sep !in w[1..];
      SplitAtFirst(w[1..], sep, rest);
      assert w == [w[0]] + w[1..];
    }
  }

  /** `authHeader && authHeader.split(" ")[1]`: None stands for `undefined`. */
  function ExtractToken(authorization: Option<string>): (token: Option<string>)
    ensures token.Some? ==> ' ' !in token.value
  {
    if authorization.None? then None
    else if authorization.value == "" then Some("")
    else
      var words := Split(authorization.value, ' ');
      if |words| >= 2 then Some(words[1]) else None
  }

  datatype GateOutcome = Rejected(status: Status) | Admitted(userId: string)

  /** What authenticateToken decides for a header, given the verifier. */
  function Gate(authorization: Option<string>, verify: string -> Option<Claims>): (r: GateOutcome)
    ensures r == Rejected(UNAUTHORIZED) <==> !Truthy(ExtractToken(authorization))
    ensures r.Rejected? ==> r.status in {UNAUTHORIZED, FORBIDDEN}
    ensures r.Admitted? ==> verify(ExtractToken(authorization).value) == Some(Claims(r.userId))
    // A token that verifies is always admitted with its decoded id; one that
    // does not is refused with 403.
    ensures Truthy(ExtractToken(authorization)) ==>
      var token := ExtractToken(authorization).value;
      r == (if verify(token).Some? then Admitted(verify(token).value.userId) else Rejected(FORBIDDEN))
  {
    var token := ExtractToken(authorization);
    if !Truthy(token) then Rejected(UNAUTHORIZED)
    else
      match verify(token.value)
      case None => Rejected(FORBIDDEN)
      case Some(claims) => Admitted(claims.userId)
  }

  /** A missing header, or one without a space, carries no token: 401. */
  lemma HeaderWithoutSpaceIsRejected(authorization: Option<string>, verify: string -> Option<Claims>)
    requires authorization.None? || ' ' !in authorization.value
    ensures ExtractToken(authorization).None? || ExtractToken(authorization) == Some("")
    ensures Gate(authorization, verify) == Rejected(UNAUTHORIZED)
  {
    if authorization.Some? && authorization.value != "" {
      SplitWord(authorization.value, ' ');
    }
  }

  /** The token is whatever follows the first space, up to the next one; the
      first word is never compared with "Bearer". */
  lemma TokenIsSecondWord(scheme: string, token: string, tail: string)
    requires ' ' !in scheme && ' ' !in token
    ensures ExtractToken(Some(scheme + " " + token)) == Some(token)
    ensures ExtractToken(Some(scheme + " " + token + " " + tail)) == Some(token)
  {
    assert scheme + " " + token == scheme + [' '] + token;
    SplitAtFirst(scheme, ' ', token);
    SplitWord(token, ' ');
    assert scheme + " " + token + " " + tail == scheme + [' '] + (token + [' '] + tail);
    SplitAtFirst(scheme, ' ', token + [' '] + tail);
    SplitAtFirst(token, ' ', tail);
  }

  /** Two spaces after the scheme leave an empty token: 401. */
  lemma DoubleSpaceIsRejected(scheme: string, tail: string, verify: string -> Option<Claims>)
    requires ' ' !in scheme
    ensures ExtractToken(Some(scheme + "  " + tail)) == Some("")
    ensures Gate(Some(scheme + "  " + tail), verify) == Rejected(UNAUTHORIZED)
  {
    assert scheme + "  " + tail == scheme + [' '] + ([] + [' '] + tail);
    SplitAtFirst(scheme, ' ', [] + [' '] + tail);
    SplitAtFirst([], ' ', tail);
  }

  /** A token signed by the server, sent as "Bearer <token>", is admitted
      with the user id it was signed for. */
  lemma SignedTokenIsAdmitted(jwt: Jwt, userId: string)
    requires jwt.Sound()
    ensures Gate(Some("Bearer " + jwt.sign(userId)), jwt.verify) == Admitted(userId)
  {
    var token := jwt.sign(userId);
    assert token != "" && ' ' !in token && jwt.verify(token) == Some(Claims(userId));
    assert "Bearer" == ['B', 'e', 'a', 'r', 'e', 'r'];
    assert "Bearer " + token == "Bearer" + " " + token;
    TokenIsSecondWord("Bearer", token, "");
    assert ExtractToken(Some("Bearer " + token)) == Some(token);
  }

  /** The request object as the gate sees it: the Authorization header, the
      `userId` field it may set, and how often it has called `next`. */
  class AuthRequest {
    const authorization: Option<string>
    var userId: Option<string>
    var nextCalls: nat

    constructor (authorization: Option<string>)
      ensures this.authorization == authorization && userId == None && nextCalls == 0
    {
      this.authorization := authorization;
      userId := None;
      nextCalls := 0;
    }
  }

  /** authenticateToken: writes 401 (no token) or 403 (verification failed)
      and stops, or sets `req.userId` to the decoded id and calls `next`
      exactly once without writing a response. */
  method AuthenticateToken(req: AuthRequest, verify: string -> Option<Claims>) returns (written: seq<Status>)
    modifies req
    ensures match Gate(req.authorization, verify)
      case Rejected(status) =>
        written == [status] && req.userId == old(req.userId) && req.nextCalls == old(req.nextCalls)
      case Admitted(userId) =>
        written == [] && req.userId == Some(userId) && req.nextCalls == old(req.nextCalls) + 1
  {
    var token := ExtractToken(req.authorization);
    if !Truthy(token) {
      return [UNAUTHORIZED];
    }
    match verify(token.value) {
      case None =>
        written := [FORBIDDEN];
      case Some(claims) =>
        req.userId := Some(claims.userId);
        req.nextCalls := req.nextCalls + 1;
        written := [];
    }
  }
}

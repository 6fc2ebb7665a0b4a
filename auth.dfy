/**
 * The authentication gate of middleware/auth.js: `verifyToken`, which takes the
 * token out of the Authorization header, has it verified and either attaches the
 * decoded payload to the request or answers 401/403, and `verifyRole`, which
 * admits a request only when the payload's role is one of the allowed roles.
 *
 * Signature and expiry checking belong to the JSON Web Token library; here they
 * are a parameter `verify` that reports the library's outcome.
 */
module Auth {
  import opened Wrappers

  /** The decoded token payload, as far as the handlers read it. */
  datatype Claims = Claims(customerId: Option<nat>, username: Option<string>, role: Option<string>)

  /** What the library's verify reports: the decoded payload, or an error carrying its `name`. */
  datatype VerifyResult = Decoded(payload: Claims) | Failed(errorName: string)

  /** The parts of the request the gate reads and writes: the Authorization header and `req.user`. */
  datatype Request = Request(authorization: Option<string>, user: Option<Claims>)

  /** What a middleware does with a request: call `next()` once, or answer with a status and an error text. */
  datatype Reply = Next | Respond(status: nat, error: string)

  const ExpiredErrorName := "TokenExpiredError"
  const MalformedErrorName := "JsonWebTokenError"

  // ---------------------------------------------------------------------------
  // Splitting the header on single spaces, as String.prototype.split(' ') does

  /** Index of the first space in `s`, or `|s|` when there is none. */
  function FieldEnd(s: string): (i: nat)
    ensures i <= |s|
    ensures i < |s| ==> s[i] == ' '
  {
    if s == [] || s[0] == ' ' then 0 else 1 + FieldEnd(s[1..])
  }

  /** No space comes before FieldEnd: the first field is space-free. */
  lemma {:induction false} FieldEndSpaceFree(s: string)
    ensures ' ' !in s[..FieldEnd(s)]
  {
    if s != [] && s[0] != ' ' {
      FieldEndSpaceFree(s[1..]);
      assert s[..FieldEnd(s)] == [s[0]] + s[1..][..FieldEnd(s[1..])];
    }
  }

  /**
   * The fields of `s` between single spaces, read one character at a time. Like
   * JavaScript's split(' '), an empty string gives one empty field, and two
   * adjacent spaces give an empty field between them.
   */
  function Split(s: string): (fields: seq<string>)
    ensures |fields| >= 1
  {
    if s == [] then [[]]
    else
      var rest := Split(s[1..]);
      if s[0] == ' ' then [[]] + rest
      else [[s[0]] + rest[0]] + rest[1..]
  }

  /** The inverse of Split: the fields joined with single spaces. */
  function Join(fields: seq<string>): string
  {
    if |fields| == 0 then []
    else if |fields| == 1 then fields[0]
    else fields[0] + " " + Join(fields[1..])
  }

  /** Joining a first field in front of at least one more puts one space between them. */
  lemma JoinCons(first: string, rest: seq<string>)
    requires |rest| >= 1
    ensures Join([first] + rest) == first + " " + Join(rest)
  {
    assert ([first] + rest)[1..] == rest;
  }

  /** A character put in front of the first field ends up in front of the joined text. */
  lemma JoinPrepend(c: char, first: string, tail: seq<string>)
    ensures Join([[c] + first] + tail) == [c] + Join([first] + tail)
  {
    if tail == [] {
      assert [[c] + first] + tail == [[c] + first];
      assert [first] + tail == [first];
    } else {
      JoinCons(first, tail);
      JoinCons([c] + first, tail);
      var joined := Join(tail);
      assert ([c] + first) + " " + joined == [c] + (first + " " + joined);
    }
  }

  /** Splitting loses nothing: joining the fields gives back the header. */
  lemma {:induction false} JoinSplit(s: string)
    ensures Join(Split(s)) == s
  {
    if s != [] {
      var rest := Split(s[1..]);
      JoinSplit(s[1..]);
      if s[0] == ' ' {
        JoinCons([], rest);
      } else {
        JoinPrepend(s[0], rest[0], rest[1..]);
        assert rest == [rest[0]] + rest[1..];
      }
      assert s == [s[0]] + s[1..];
    }
  }

  /** No field of a split contains a space. */
  lemma {:induction false} SplitFieldsSpaceFree(s: string)
    ensures forall f :: f in Split(s) ==> ' ' !in f
  {
    if s != [] {
      SplitFieldsSpaceFree(s[1..]);
      var rest := Split(s[1..]);
      if s[0] != ' ' {
        assert rest[0] in rest;
        forall f | f in rest[1..] ensures f in rest {
          var k :| 0 <= k < |rest[1..]| && rest[1..][k] == f;
          assert rest[k + 1] == f;
        }
      }
    }
  }

  /** A text without spaces is a single field. */
  lemma {:induction false} SplitSpaceFree(word: string)
    requires ' ' !in word
    ensures Split(word) == [word]
  {
    if word != [] {
      assert word[0] in word;
      assert ' ' !in word[1..] by {
        forall k | 0 <= k < |word[1..]| ensures word[1..][k] != ' ' {
          assert word[1..][k] == word[k + 1];
        }
      }
      SplitSpaceFree(word[1..]);
      assert word == [word[0]] + word[1..];
    }
  }

  /** Splitting a first space-free word off the front of a header. */
  lemma {:induction false} SplitAfterWord(word: string, rest: string)
    requires ' ' !in word
    ensures Split(word + " " + rest) == [word] + Split(rest)
  {
    var s := word + " " + rest;
    if word == [] {
      assert s == [' '] + rest;
      assert s[1..] == rest;
    } else {
      assert word[0] in word;
      assert ' ' !in word[1..] by {
        forall k | 0 <= k < |word[1..]| ensures word[1..][k] != ' ' {
          assert word[1..][k] == word[k + 1];
        }
      }
      SplitAfterWord(word[1..], rest);
      assert s[1..] == word[1..] + " " + rest;
      assert word == [word[0]] + word[1..];
    }
  }

  /** Joining space-free fields and splitting again gives back the same fields. */
  lemma {:induction false} SplitJoin(fields: seq<string>)
    requires |fields| >= 1
    requires forall f :: f in fields ==> ' ' !in f
    ensures Split(Join(fields)) == fields
  {
    assert fields[0] in fields;
    if |fields| == 1 {
      SplitSpaceFree(fields[0]);
    } else {
      forall f | f in fields[1..] ensures ' ' !in f {
        var k :| 0 <= k < |fields[1..]| && fields[1..][k] == f;
        assert fields[k + 1] == f;
      }
      SplitJoin(fields[1..]);
      SplitAfterWord(fields[0], Join(fields[1..]));
      assert fields == [fields[0]] + fields[1..];
    }
  }

  /** The first field of a split runs up to the first space. */
  lemma {:induction false} FirstFieldEndsAtSpace(s: string)
    ensures Split(s)[0] == s[..FieldEnd(s)]
  {
    if s != [] && s[0] != ' ' {
      FirstFieldEndsAtSpace(s[1..]);
      assert s[..FieldEnd(s)] == [s[0]] + s[1..][..FieldEnd(s[1..])];
    }
  }

  // ---------------------------------------------------------------------------
  // Token extraction

  /**
   * `authHeader && authHeader.split(' ')[1]` followed by the `!token` test: the
   * second space-separated field of the header, when there is one and it is not
   * empty. The first field (the scheme word) is not looked at.
   */
  function ExtractToken(header: Option<string>): (token: Option<string>)
    ensures token.Some? ==> token.value != [] && ' ' !in token.value
    ensures token.Some? ==> header.Some? && ' ' in header.value
  {
    if header.None? || header.value == [] then None
    else
      var fields := Split(header.value);
      if |fields| < 2 || fields[1] == [] then None
      else
        SplitFieldsSpaceFree(header.value);
        assert fields[1] in fields;
        assert ' ' in header.value by {
          if ' ' !in header.value {
            SplitSpaceFree(header.value);
          }
        }
        Some(fields[1])
  }

  /**
   * Reference reading of the same header by positions: the token is the text
   * after the first space up to the next space or the end.
   */
  function TokenAfterFirstSpace(header: string): Option<string>
  {
    var i := FieldEnd(header);
    if i == |header| then None
    else
      var rest := header[i + 1..];
      var token := rest[..FieldEnd(rest)];
      if token == [] then None else Some(token)
  }

  /** The split-based extraction and the position-based reading agree on every header. */
  lemma ExtractTokenByPosition(header: string)
    ensures ExtractToken(Some(header)) == TokenAfterFirstSpace(header)
  {
    var i := FieldEnd(header);
    FieldEndSpaceFree(header);
    if i < |header| {
      var word := header[..i];
      var rest := header[i + 1..];
      assert header == word + " " + rest by {
        assert header == header[..i] + [header[i]] + header[i + 1..];
      }
      SplitAfterWord(word, rest);
      FirstFieldEndsAtSpace(rest);
    } else {
      assert header[..i] == header;
      SplitSpaceFree(header);
    }
  }

  /** A header without a space (a bare token, say) carries no token at all. */
  lemma NoSpaceNoToken(header: string)
    requires ' ' !in header
    ensures ExtractToken(Some(header)) == None
  {
    SplitSpaceFree(header);
  }

  /**
   * The scheme word is never checked: any space-free first word, the empty one
   * included, followed by a space and a token yields that token. Section 2.1 of
   * RFC 6750 sends "Bearer" there; "Basic", "bearer" or nothing are accepted alike.
   */
  lemma AnySchemeYieldsToken(scheme: string, token: string)
    requires ' ' !in scheme
    requires token != [] && ' ' !in token
    ensures ExtractToken(Some(scheme + " " + token)) == Some(token)
  {
    SplitAfterWord(scheme, token);
    SplitSpaceFree(token);
  }

  /** The RFC 6750 form `Bearer <token>` yields the token. */
  lemma BearerFormYieldsToken(token: string)
    requires token != [] && ' ' !in token
    ensures ExtractToken(Some("Bearer " + token)) == Some(token)
  {
    assert "Bearer " + token == "Bearer" + " " + token;
    AnySchemeYieldsToken("Bearer", token);
  }

  /** Two spaces after the scheme leave an empty second field, so no token. */
  lemma DoubleSpaceNoToken(scheme: string, token: string)
    requires ' ' !in scheme
    ensures ExtractToken(Some(scheme + "  " + token)) == None
  {
    assert scheme + "  " + token == scheme + " " + (" " + token);
    SplitAfterWord(scheme, " " + token);
    SplitAfterWord("", token);
  }

  // ---------------------------------------------------------------------------
  // Decisions

  /** The answer to a failed verification, chosen by the error's name. */
  function FailureReply(errorName: string): (r: Reply)
    ensures r.Respond?
    ensures r.status == 401 <==> errorName == ExpiredErrorName
    ensures errorName == ExpiredErrorName ==> r == Respond(401, "Token has expired")
    ensures r.status == 403 <==> errorName != ExpiredErrorName
    ensures r.error == "Invalid token" <==> errorName == MalformedErrorName
    ensures r.error == "Token verification failed" <==> errorName != ExpiredErrorName && errorName != MalformedErrorName
  {
    if errorName == ExpiredErrorName then Respond(401, "Token has expired")
    else if errorName == MalformedErrorName then Respond(403, "Invalid token")
    else Respond(403, "Token verification failed")
  }

  /** `allowedRoles.includes(req.user.role)`: a missing role is never included. */
  predicate RoleAllowed(user: Claims, allowedRoles: seq<string>)
  {
    user.role.Some? && user.role.value in allowedRoles
  }

  // ---------------------------------------------------------------------------
  // The two middlewares

  /**
   * `verifyToken`: no token gives 401; a failed verification gives the reply
   * FailureReply chooses; a verified token sets `req.user` to the payload and
   * calls `next()`. Only the success path touches the request.
   */
  method VerifyToken(req: Request, verify: string -> VerifyResult) returns (reply: Reply, after: Request)
    ensures ExtractToken(req.authorization).None? ==> reply == Respond(401, "No token provided")
    ensures reply.Next? <==>
              ExtractToken(req.authorization).Some? && verify(ExtractToken(req.authorization).value).Decoded?
    ensures reply.Next? ==>
              after == req.(user := Some(verify(ExtractToken(req.authorization).value).payload))
    ensures ExtractToken(req.authorization).Some? && verify(ExtractToken(req.authorization).value).Failed? ==>
              reply == FailureReply(verify(ExtractToken(req.authorization).value).errorName)
    ensures reply.Respond? ==> after == req
  {
    var token := ExtractToken(req.authorization);
    if token.None? {
      return Respond(401, "No token provided"), req;
    }
    var outcome := verify(token.value);
    match outcome
    case Failed(name) =>
      reply, after := FailureReply(name), req;
    case Decoded(payload) =>
      reply, after := Next, req.(user := Some(payload));
  }

  /**
   * `verifyRole(allowedRoles)`: 401 when no user is attached, `next()` when the
   * user's role is allowed, 403 otherwise. It returns no new request: the
   * request, and `req.user` with it, are left as they were.
   */
  method VerifyRole(allowedRoles: seq<string>, req: Request) returns (reply: Reply)
    ensures req.user.None? <==> reply == Respond(401, "Unauthorized")
    ensures reply.Next? <==> req.user.Some? && RoleAllowed(req.user.value, allowedRoles)
    ensures req.user.Some? && !RoleAllowed(req.user.value, allowedRoles) ==>
              reply == Respond(403, "Access denied: Insufficient permissions")
  {
    if req.user.None? {
      return Respond(401, "Unauthorized");
    }
    if RoleAllowed(req.user.value, allowedRoles) {
      reply := Next;
    } else {
      reply := Respond(403, "Access denied: Insufficient permissions");
    }
  }
}

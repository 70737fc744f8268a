/**
 * The bearer-token middleware that guards every protected route: the
 * Authorization header must be the word "Bearer", one space and a token the
 * signature check accepts.
 */
module Jwt {
  import opened Common

  /** `s.split(' ')`: the pieces between the spaces, empty pieces included. */
  function Split(s: string): (parts: seq<string>)
    ensures |parts| >= 1
  {
    if s == [] then [""]
    else
      var rest := Split(s[1..]);
      if s[0] == ' ' then [""] + rest
      else [[s[0]] + rest[0]] + rest[1..]
  }

  /** The pieces joined back with one space between neighbours. */
  function Join(parts: seq<string>): string
    requires |parts| >= 1
  {
    if |parts| == 1 then parts[0] else parts[0] + " " + Join(parts[1..])
  }

  /** The number of spaces in `s`. */
  function Spaces(s: string): nat {
    if s == [] then 0 else (if s[0] == ' ' then 1 else 0) + Spaces(s[1..])
  }

  /** Splitting loses nothing: joining the pieces with spaces gives back `s`. */
  lemma {:induction false} JoinSplit(s: string)
    ensures Join(Split(s)) == s
  {
    if s != [] {
      var rest := Split(s[1..]);
      JoinSplit(s[1..]);
      if s[0] == ' ' {
        assert Split(s) == [""] + rest;
        assert Split(s)[1..] == rest;
      } else {
        var parts := Split(s);
        assert parts == [[s[0]] + rest[0]] + rest[1..];
        if |rest| > 1 {
          assert parts[1..] == rest[1..];
          assert Join(rest) == rest[0] + " " + Join(rest[1..]);
        }
      }
    }
  }

  /** There is one more piece than there are spaces, and no piece holds a space. */
  lemma {:induction false} SplitShape(s: string)
    ensures |Split(s)| == Spaces(s) + 1
    ensures forall k :: 0 <= k < |Split(s)| ==> ' ' !in Split(s)[k]
  {
    if s != [] {
      SplitShape(s[1..]);
      var rest := Split(s[1..]);
      var parts := Split(s);
      if s[0] == ' ' {
        assert forall k :: 1 <= k < |parts| ==> parts[k] == rest[k - 1];
      } else {
        assert ' ' !in rest[0];
        assert forall k :: 1 <= k < |parts| ==> parts[k] == rest[k];
      }
    }
  }

  /** A string without spaces is a single piece. */
  lemma {:induction false} SplitWithoutSpace(s: string)
    requires ' ' !in s
    ensures Split(s) == [s]
  {
    if s != [] {
      SplitWithoutSpace(s[1..]);
      assert [s[0]] + s[1..] == s;
    }
  }

  /** A space-free prefix followed by a space is the first piece. */
  lemma {:induction false} SplitAtFirstSpace(a: string, b: string)
    requires ' ' !in a
    ensures Split(a + " " + b) == [a] + Split(b)
  {
    if a == [] {
      assert a + " " + b == [' '] + b;
      assert (a + " " + b)[1..] == b;
    } else {
      SplitAtFirstSpace(a[1..], b);
      assert (a + " " + b)[1..] == a[1..] + " " + b;
      assert [a[0]] + a[1..] == a;
    }
  }

  /**
   * The token of a well-formed header: exactly two pieces, the first being
   * "Bearer".
   */
  function BearerToken(header: string): Option<string> {
    var parts := Split(header);
    if |parts| == 2 && parts[0] == "Bearer" then Some(parts[1]) else None
  }

  /** A header is well formed exactly when it is "Bearer ", then a token holding no space. */
  lemma BearerTokenExactly(header: string, token: string)
    ensures BearerToken(header) == Some(token) <==> header == "Bearer " + token && ' ' !in token
  {
    if BearerToken(header) == Some(token) {
      var parts := Split(header);
      JoinSplit(header);
      SplitShape(header);
      assert Join(parts) == parts[0] + " " + Join(parts[1..]);
      assert parts[1..] == [token];
      assert ' ' !in parts[1];
    }
    if header == "Bearer " + token && ' ' !in token {
      assert header == "Bearer" + " " + token;
      SplitAtFirstSpace("Bearer", token);
      SplitWithoutSpace(token);
    }
  }

  /** What the middleware does with a request. */
  datatype Outcome =
    | Reject(status: nat, error: string)
    | Next(userId: nat)

  /**
   * verifyJWT. `header` is the Authorization header (None when absent) and
   * `verify` is the signature and expiry check, giving the payload's user
   * id or None when it throws. The request goes on to the route with that
   * id, or is answered 401 with the first failing check's message.
   */
  function VerifyJwt(header: Option<string>, verify: string -> Option<nat>): (r: Outcome)
    ensures header.None? || header == Some("") ==> r == Reject(401, "No authorization header provided")
    ensures r.Reject? ==> r.status == 401
    ensures r.Next? ==> exists token :: header == Some("Bearer " + token) && ' ' !in token && verify(token) == Some(r.userId)
  {
    if header.None? || header.value == "" then
      Reject(401, "No authorization header provided")
    else
      var token := BearerToken(header.value);
      if token.None? then
        Reject(401, "Malformed authorization header")
      else
        BearerTokenExactly(header.value, token.value);
        match verify(token.value)
        case None => Reject(401, "Invalid or expired token")
        case Some(id) => Next(id)
  }

  /**
   * A header "Bearer " followed by a space-free token is decided by the
   * signature check alone: the request proceeds with the payload's id, or is
   * answered 401 "Invalid or expired token".
   */
  lemma VerifyJwtOfWellFormed(token: string, verify: string -> Option<nat>)
    requires ' ' !in token
    ensures VerifyJwt(Some("Bearer " + token), verify)
            == if verify(token).Some? then Next(verify(token).value) else Reject(401, "Invalid or expired token")
  {
    BearerTokenExactly("Bearer " + token, token);
  }

  /** Any other non-empty header is answered 401 "Malformed authorization header". */
  lemma VerifyJwtOfMalformed(header: string, verify: string -> Option<nat>)
    requires header != ""
    requires forall token :: header == "Bearer " + token ==> ' ' in token
    ensures VerifyJwt(Some(header), verify) == Reject(401, "Malformed authorization header")
  {
    var token := BearerToken(header);
    if token.Some? {
      BearerTokenExactly(header, token.value);
    }
  }
}

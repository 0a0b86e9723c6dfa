/**
 * The REST API's request guard: the bearer token is the second field of
 * the `Authorization` header split on single spaces, and it must verify as
 * a signed token. The scheme word in front of it is never inspected. Token
 * verification is supplied as a function that yields the decoded claims
 * or nothing (a bad signature, an expired token).
 */
module ApiAuthGuard {
  import opened Wrappers
  import opened ApiAuthService
  import opened Text

  const NoTokenError: string := "No token provided"
  const BadFormatError: string := "Invalid token format"
  const BadTokenError: string := "Invalid or expired token"

  predicate NoBlank(s: string) {
    forall i :: 0 <= i < |s| ==> s[i] != ' '
  }

  /**
   * `s.split(' ')`: the maximal runs between single spaces, including the
   * empty ones; always at least one field, none holding a space, and
   * joining them with single spaces (`Text.Join`) gives the text back.
   */
  function Split(s: string): (fields: seq<string>)
    ensures fields != []
    ensures forall i :: 0 <= i < |fields| ==> NoBlank(fields[i])
    ensures Join(fields) == s
  {
    if s == [] then [""]
    else
      var rest := Split(s[1..]);
      if s[0] == ' ' then
        var r := [""] + rest;
        assert r[1..] == rest;
        assert forall i :: 1 <= i < |r| ==> r[i] == rest[i - 1];
        r
      else
        var r := [[s[0]] + rest[0]] + rest[1..];
        assert |rest| > 1 ==> r[1..] == rest[1..];
        assert forall i :: 1 <= i < |r| ==> r[i] == rest[i];
        JoinFront(s[0], rest);
        r
  }

  /** Putting a character in front of the first field puts it in front of the joined text. */
  lemma JoinFront(c: char, fields: seq<string>)
    requires fields != []
    ensures Join([[c] + fields[0]] + fields[1..]) == [c] + Join(fields)
  {
    var r := [[c] + fields[0]] + fields[1..];
    if |fields| > 1 {
      assert r[1..] == fields[1..];
      ConsRegroup(c, fields[0], Join(fields[1..]));
    }
  }

  lemma ConsRegroup(c: char, w: string, tail: string)
    ensures ([c] + w) + " " + tail == [c] + (w + " " + tail)
  {
  }

  /** Splitting joined space-free fields gives the fields back. */
  lemma {:induction false} SplitJoin(fields: seq<string>)
    requires fields != []
    requires forall i :: 0 <= i < |fields| ==> NoBlank(fields[i])
    ensures Split(Join(fields)) == fields
    decreases fields
  {
    var w := fields[0];
    assert w + "" == w;
    if |fields| == 1 {
      SplitWord(w, "");
      assert [w + ""] == fields;
    } else {
      var tail := Join(fields[1..]);
      var split := Split(" " + tail);
      assert Join(fields) == w + (" " + tail);
      SplitJoin(fields[1..]);
      SplitSpace(tail);
      assert split[0] == "" && split[1..] == fields[1..];
      SplitWord(w, " " + tail);
      assert [w] + fields[1..] == fields;
    }
  }

  /** A space ends the first field and starts the next. */
  lemma SplitSpace(s: string)
    ensures Split(" " + s) == [""] + Split(s)
  {
    assert (" " + s)[1..] == s;
  }

  /** A space-free word in front of text becomes the front of its first field. */
  lemma {:induction false} SplitWord(w: string, s: string)
    requires NoBlank(w)
    ensures Split(w + s) == [w + Split(s)[0]] + Split(s)[1..]
    decreases |w|
  {
    if w == [] {
      assert w + s == s;
      assert w + Split(s)[0] == Split(s)[0];
      assert Split(s) == [Split(s)[0]] + Split(s)[1..];
    } else {
      var t := w[1..];
      assert NoBlank(t) by {
        assert forall i :: 0 <= i < |t| ==> t[i] == w[i + 1];
      }
      var rest := Split(t + s);
      assert Split(w + s) == [[w[0]] + rest[0]] + rest[1..] by {
        assert (w + s)[1..] == t + s;
        assert (w + s)[0] == w[0] != ' ';
      }
      SplitWord(t, s);
      assert rest[0] == t + Split(s)[0];
      assert rest[1..] == Split(s)[1..];
      assert [w[0]] + (t + Split(s)[0]) == w + Split(s)[0];
    }
  }

  /** `authHeader.split(' ')[1]`, when that field exists and is not empty. */
  function TokenOf(header: string): (r: Option<string>)
    ensures r.Some? ==> r.value != [] && NoBlank(r.value)
    ensures r.Some? <==> |Split(header)| >= 2 && Split(header)[1] != []
    ensures r.Some? ==> r.value == Split(header)[1]
  {
    var fields := Split(header);
    if |fields| >= 2 && fields[1] != [] then Some(fields[1]) else None
  }

  /** What the guard does with a request: let it through with the decoded claims, or raise with a message. */
  datatype GuardOutcome = Allow(user: Claims) | Deny(message: string)

  /**
   * `canActivate`: "No token provided" for a missing or empty header,
   * "Invalid token format" when the second field is missing or empty,
   * "Invalid or expired token" when it does not verify, and otherwise the
   * decoded claims; it never refuses quietly.
   */
  function CanActivate(header: Option<string>, verify: string -> Option<Claims>): (r: GuardOutcome)
    ensures header.None? || header.value == [] ==> r == Deny(NoTokenError)
    ensures header.Some? && header.value != [] ==>
      && (TokenOf(header.value).None? <==> r == Deny(BadFormatError))
      && (TokenOf(header.value).Some? ==>
            var claims := verify(TokenOf(header.value).value);
            r == if claims.Some? then Allow(claims.value) else Deny(BadTokenError))
  {
    if header.None? || header.value == [] then Deny(NoTokenError)
    else
      match TokenOf(header.value)
      case None => Deny(BadFormatError)
      case Some(token) =>
        match verify(token)
        case None => Deny(BadTokenError)
        case Some(claims) => Allow(claims)
  }

  /** The token of `scheme token`, for any space-free scheme word and token, is that token. */
  lemma TokenOfBearer(scheme: string, token: string)
    requires NoBlank(scheme) && NoBlank(token) && token != []
    ensures TokenOf(scheme + " " + token) == Some(token)
  {
    SplitJoin([scheme, token]);
    assert Join([scheme, token]) == scheme + " " + token by {
      assert [scheme, token][1..] == [token];
    }
  }

  /** After a space-free scheme word and one space, the token is the next field, unless it is empty. */
  lemma TokenAfterScheme(scheme: string, rest: string)
    requires NoBlank(scheme)
    ensures TokenOf(scheme + " " + rest) == if Split(rest)[0] != [] then Some(Split(rest)[0]) else None
  {
    SplitWord(scheme, " " + rest);
    SplitSpace(rest);
    assert scheme + " " + rest == scheme + (" " + rest);
    var fields := Split(scheme + " " + rest);
    assert fields[1] == Split(rest)[0];
  }

  /** The scheme word is ignored: any two space-free words in front of the same text are treated alike. */
  lemma SchemeIgnored(scheme1: string, scheme2: string, rest: string, verify: string -> Option<Claims>)
    requires NoBlank(scheme1) && NoBlank(scheme2)
    ensures CanActivate(Some(scheme1 + " " + rest), verify) == CanActivate(Some(scheme2 + " " + rest), verify)
  {
    TokenAfterScheme(scheme1, rest);
    TokenAfterScheme(scheme2, rest);
    assert |scheme1 + " " + rest| > 0 && |scheme2 + " " + rest| > 0;
  }

  /** Two spaces after the scheme leave the token field empty, so the header is rejected as malformed. */
  lemma DoubleSpaceRejected(scheme: string, rest: string, verify: string -> Option<Claims>)
    requires NoBlank(scheme)
    ensures CanActivate(Some(scheme + "  " + rest), verify) == Deny(BadFormatError)
  {
    TokenAfterScheme(scheme, " " + rest);
    SplitSpace(rest);
    assert scheme + "  " + rest == scheme + " " + (" " + rest);
  }

  /**
   * A token issued at login, sent as `Bearer <token>`, lets the request
   * through with the logged-in user's id and email, provided the signer
   * produces non-empty space-free tokens that verify to what was signed.
   */
  lemma LoginThenGuard(s: UserStore, email: string, password: string,
                       compare: (string, string) -> bool, sign: Claims -> string,
                       verify: string -> Option<Claims>)
    requires Login(s, email, password, compare, sign).Success?
    requires forall c :: sign(c) != [] && NoBlank(sign(c)) && verify(sign(c)) == Some(c)
    ensures var res := Login(s, email, password, compare, sign).value;
      CanActivate(Some("Bearer " + res.accessToken), verify) == Allow(Claims(res.user.id, email))
  {
    var res := Login(s, email, password, compare, sign).value;
    TokenOfBearer("Bearer", res.accessToken);
    assert "Bearer " + res.accessToken == "Bearer" + " " + res.accessToken;
  }
}

/** The server's access tokens, and the tokens of a build whose JSON layer is picojson. */
module JwtLogin {
  import opened Bytes
  import opened Wrappers
  import opened JsonValue
  import opened JsonPrinter
  import opened JsonGrammar
  import JsonDocumentProofs
  import opened JsonRoundTrip
  import opened Jwt
  import opened JwtProofs

  const WEEK: int := 7 * 24 * 60 * 60 * TICKS

  function LoginClaims(userId: int, issued: int): Claims {
    var iat := Put([], "iat", Int(WholeSeconds(issued)));
    var exp := Put(iat, "exp", Int(WholeSeconds(issued + WEEK)));
    Put(exp, "sub", Str(IntText(userId)))
  }

  /** The token that a successful login answers with. */
  method CreateAccessToken(traits: JsonTraits, userId: int, now: int, alg: HmacSha)
    returns (token: Result<bytes, Error>)
    ensures token == SignedToken(traits, [], LoginClaims(userId, now), alg)
  {
    var builder := new Builder(traits);
    builder.SetIssuedAt(now);
    builder.SetExpiresAt(now + WEEK);
    builder.SetSubject(IntText(userId));
    token := builder.Sign(alg);
  }

  lemma LoginClaimsByName(userId: int, issued: int)
    ensures var claims := LoginClaims(userId, issued);
            && Lookup(claims, "iat") == Some(Int(WholeSeconds(issued)))
            && Lookup(claims, "exp") == Some(Int(WholeSeconds(issued + WEEK)))
            && Lookup(claims, "sub") == Some(Str(IntText(userId)))
            && Lookup(claims, "nbf") == None
  {
    hide Put;
    var iat := Put([], "iat", Int(WholeSeconds(issued)));
    var exp := Put(iat, "exp", Int(WholeSeconds(issued + WEEK)));
    assert "iat" != "exp" && "iat" != "sub" && "exp" != "sub" && "nbf" != "iat" && "nbf" != "exp" && "nbf" != "sub";
    forall name: bytes
      ensures Lookup(LoginClaims(userId, issued), name) ==
              if name == "sub" then Some(Str(IntText(userId)))
              else if name == "exp" then Some(Int(WholeSeconds(issued + WEEK)))
              else if name == "iat" then Some(Int(WholeSeconds(issued)))
              else None
    {
      LookupAfterPut([], "iat", Int(WholeSeconds(issued)), name);
      LookupAfterPut(iat, "exp", Int(WholeSeconds(issued + WEEK)), name);
      LookupAfterPut(exp, "sub", Str(IntText(userId)), name);
    }
  }

  /** The seconds in which the login and the end of the week fall; both ends are cut down to whole seconds. */
  predicate InLoginWindow(issued: int, now: int) {
    WholeSeconds(issued) * TICKS <= now <= WholeSeconds(issued + WEEK) * TICKS
  }

  /**
   * From 1970 on the window is the 604 800 seconds from the whole second of the login: every instant of the week but
   * a part of its last second, and nothing after the week. Before, the cut goes up, and the window may start and end up
   * to a second late.
   */
  lemma LoginWindowIsAWeek(issued: int, now: int)
    ensures issued >= 0 ==>
              var start := issued - issued % 1_000_000_000;
              InLoginWindow(issued, now) <==> start <= now <= start + 604_800_000_000_000
    ensures issued + 1_000_000_000 <= now <= issued + 604_799_000_000_000 ==> InLoginWindow(issued, now)
    ensures InLoginWindow(issued, now) ==> issued - 1_000_000_000 < now < issued + 604_801_000_000_000
  {
    Truncation(issued);
    Truncation(issued + WEEK);
    if issued >= 0 {
      CutDown(issued);
      CutDown(issued + WEEK);
      WholeWeek(issued);
    }
  }

  lemma CutDown(ticks: int)
    requires ticks >= 0
    ensures WholeSeconds(ticks) * TICKS == ticks - ticks % 1_000_000_000
  {
  }

  lemma WholeWeek(ticks: int)
    ensures (ticks + WEEK) % 1_000_000_000 == ticks % 1_000_000_000
  {
  }

  /** A token is good at the instant it is made, unless that is before 1970 and not on a whole second. */
  lemma GoodFromTheStart(issued: int)
    ensures InLoginWindow(issued, issued) <==> issued >= 0 || issued % 1_000_000_000 == 0
  {
    Truncation(issued);
    Truncation(issued + WEEK);
    WholeSecondStays(issued);
  }

  lemma WholeSecondStays(ticks: int)
    ensures WholeSeconds(ticks) * TICKS == ticks <==> ticks % TICKS == 0
  {
  }

  /** An access token is accepted in its window and at no other time. */
  lemma LoginTokenLastsAWeek(traits: JsonTraits, alg: HmacSha, userId: int, issued: int, now: int, token: bytes)
    requires Survives(traits, SentHeader([], alg)) && Survives(traits, LoginClaims(userId, issued))
    requires SignedToken(traits, [], LoginClaims(userId, issued), alg) == Success(token)
    ensures TokenAccepted(traits, alg, 0, token, now) <==> InLoginWindow(issued, now)
  {
    hide TokenAccepted, SignedToken, Put, LoginClaims, IntText;
    LoginClaimsByName(userId, issued);
    SignedTokenAccepted(traits, [], LoginClaims(userId, issued), alg, token, 0, now);
  }

  /** `get_subject` of a decoded token. */
  function Subject(jwt: DecodedJwt): Result<bytes, Error> {
    match Lookup(jwt.payloadClaims, "sub")
    case None => Failure(ClaimNotPresent)
    case Some(Str(s)) => Success(s)
    case Some(_) => Failure(BadCast)
  }

  /** Without a "sub" or with one that is no string there is an error, and which one. */
  lemma SubjectExactly(jwt: DecodedJwt, s: bytes)
    requires SortedKeys(jwt.payloadClaims)
    ensures Subject(jwt) == Success(s) <==> Member("sub", Str(s)) in jwt.payloadClaims
    ensures Subject(jwt) == Failure(ClaimNotPresent) <==> forall m | m in jwt.payloadClaims :: m.key != "sub"
    ensures Subject(jwt).Failure? ==> Subject(jwt).error == ClaimNotPresent || Subject(jwt).error == BadCast
  {
    var claims := jwt.payloadClaims;
    LookupIsMember(claims, "sub", Str(s));
    if Lookup(claims, "sub").Some? {
      LookupIsMember(claims, "sub", Lookup(claims, "sub").value);
    } else {
      forall m | m in claims ensures m.key != "sub" {
        LookupIsMember(claims, "sub", m.value);
      }
    }
  }

  /** The user number that the request handler reads out of a decoded token is the one that logged in. */
  lemma LoginTokenNamesTheUser(traits: JsonTraits, alg: HmacSha, userId: int, issued: int, token: bytes)
    requires Survives(traits, SentHeader([], alg)) && Survives(traits, LoginClaims(userId, issued))
    requires SignedToken(traits, [], LoginClaims(userId, issued), alg) == Success(token)
    ensures exists jwt :: DecodedToken(traits, token) == Success(jwt) && Subject(jwt) == Success(IntText(userId))
    ensures IsIntLiteral(IntText(userId)) && IntValue(IntText(userId)) == userId
  {
    hide DecodedToken, Put, LoginClaims, IntText;
    LoginClaimsByName(userId, issued);
    DecodeUndoesSign(traits, [], LoginClaims(userId, issued), alg, token);
    IntTextReadsBack(userId);
  }

  /** The cut to whole seconds goes toward zero. */
  lemma Truncation(ticks: int)
    ensures ticks >= 0 ==> ticks - TICKS < WholeSeconds(ticks) * TICKS <= ticks
    ensures ticks <= 0 ==> ticks <= WholeSeconds(ticks) * TICKS < ticks + TICKS
  {
  }

  lemma IntTextReadsBack(i: int)
    ensures IsIntLiteral(IntText(i)) && IntValue(IntText(i)) == i
  {
    var n: nat := if i < 0 then -i else i;
    DecimalRoundTrip(n);
    JsonDocumentProofs.IntegerRead(i < 0, Decimal(n));
  }

  // ---------- picojson as the JSON layer ----------

  /**
   * `jwt::traits::kazuho_picojson`: text after the value is ignored. `withReals` stands for what is printed for a tree
   * that holds a floating-point number.
   */
  function Picojson(round: bytes -> int, withReals: Value -> bytes): JsonTraits {
    JsonTraits(v => if RealFree(v) then Serialized(v, -1) else withReals(v), PicojsonParse, round)
  }

  function PicojsonParse(text: bytes): Option<Value> {
    match ParseValue(text, DEFAULT_MAX_DEPTHS)
    case Fail => None
    case Ok(v, _) => Some(v)
  }

  /** An object that picojson can hold survives exactly when no container in it is too deep for the parser. */
  lemma PicojsonSurvives(round: bytes -> int, withReals: Value -> bytes, claims: Claims)
    requires RealFree(Object(claims)) && WellFormed(Object(claims))
    ensures Survives(Picojson(round, withReals), claims) <==> FewArrayAncestors(Object(claims), 100)
  {
    hide RealFree, WellFormed, FewArrayAncestors, ParseValue, Serialized;
    ParseUndoesPrint(Object(claims), -1);
  }

  predicate FlatClaims(claims: Claims) {
    SortedKeys(claims)
    && forall i | 0 <= i < |claims| ::
         claims[i].value.Str? || (claims[i].value.Int? && INT64_MIN <= claims[i].value.i <= INT64_MAX)
  }

  lemma FlatClaimsSurvive(round: bytes -> int, withReals: Value -> bytes, claims: Claims)
    requires FlatClaims(claims)
    ensures Survives(Picojson(round, withReals), claims)
  {
    assert WellFormed(Object(claims)) && RealFree(Object(claims));
    assert Fits(Object(claims), DEFAULT_MAX_DEPTHS);
    FitsMeansFewArrayAncestors(Object(claims), DEFAULT_MAX_DEPTHS);
    PicojsonSurvives(round, withReals, claims);
  }

  lemma FlatPut(claims: Claims, key: bytes, value: Value)
    requires FlatClaims(claims) && (value.Str? || (value.Int? && INT64_MIN <= value.i <= INT64_MAX))
    ensures FlatClaims(Put(claims, key, value))
  {
    PutUpdatesMap(claims, key, value);
    forall m | m in Put(claims, key, value) ensures m == Member(key, value) || m in claims {
      assert Has(Put(claims, key, value), m.key, m.value);
      assert m.key != key ==> Has(claims, m.key, m.value);
    }
  }

  /** With picojson below it, the whole login path needs no assumption about JSON. */
  lemma PicojsonLogin(
    round: bytes -> int, withReals: Value -> bytes, alg: HmacSha, userId: int, issued: int, now: int, token: bytes)
    requires INT64_MIN <= WholeSeconds(issued) <= WholeSeconds(issued + WEEK) <= INT64_MAX
    ensures SignedToken(Picojson(round, withReals), [], LoginClaims(userId, issued), alg) == Success(token) ==>
              (TokenAccepted(Picojson(round, withReals), alg, 0, token, now) <==> InLoginWindow(issued, now))
  {
    hide Put, SignedToken, TokenAccepted, IntText, Picojson;
    var iat := Put([], "iat", Int(WholeSeconds(issued)));
    FlatPut([], "iat", Int(WholeSeconds(issued)));
    FlatPut(iat, "exp", Int(WholeSeconds(issued + WEEK)));
    FlatPut(Put(iat, "exp", Int(WholeSeconds(issued + WEEK))), "sub", Str(IntText(userId)));
    FlatPut([], "alg", Str(alg.name));
    FlatClaimsSurvive(round, withReals, LoginClaims(userId, issued));
    FlatClaimsSurvive(round, withReals, SentHeader([], alg));
    if SignedToken(Picojson(round, withReals), [], LoginClaims(userId, issued), alg) == Success(token) {
      LoginTokenLastsAWeek(Picojson(round, withReals), alg, userId, issued, now, token);
    }
  }
}

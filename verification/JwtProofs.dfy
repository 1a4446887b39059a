/** Which tokens exist, which are accepted, and that signing, decoding and verifying fit together. */
module JwtProofs {
  import opened Bytes
  import opened Wrappers
  import opened JsonValue
  import opened Base64
  import opened Base64Proofs
  import opened Jwt

  // ---------- segments and dots ----------

  lemma NoDot(core: bytes, a: Alphabet)
    requires InAlphabet(core, a)
    ensures '.' !in core && '.' !in Fill(a)
  {
    assert Index(a, '.') == -1;
  }

  lemma {:induction false} NoDotInFills(a: Alphabet, k: nat)
    ensures '.' !in Repeat(Fill(a), k)
  {
    if k > 0 {
      NoDotInFills(a, k - 1);
    }
  }

  /** A segment is decoded to the bytes it was made of, and is written in letters, digits, '-' and '_' only. */
  lemma SegmentRoundTrip(data: bytes)
    ensures SegmentBytes(Segment(data)) == Success(data)
    ensures forall i | 0 <= i < |Segment(data)| ::
              var c := Segment(data)[i];
              'A' <= c <= 'Z' || 'a' <= c <= 'z' || '0' <= c <= '9' || c == '-' || c == '_'
    ensures '.' !in Segment(data)
  {
    hide Encoded, Decoded, Padded, Trimmed, Fill;
    DecodeUndoesTrimmedEncode(data, UrlSafe);
    NoDot(Segment(data), UrlSafe);
  }

  /** base64url (section 5 of RFC 4648): six bits a character, the bits of the bytes and then zeros. */
  lemma SegmentBits(data: bytes)
    ensures InAlphabet(Segment(data), UrlSafe)
    ensures exists k :: k < 6 && SymbolBits(Segment(data), UrlSafe) == ByteBits(data) + Zeros(k)
  {
    hide Encoded, Trimmed, Core, InAlphabet, Fill, Repeat, SymbolBits, ByteBits;
    EncodedBits(data, UrlSafe);
    EncodedIsCoreAndFills(data, UrlSafe, Fill(UrlSafe));
    TrimmedIsCore(Core(data, UrlSafe), Fills(|data|), UrlSafe);
    assert 2 * Fills(|data|) < 6;
  }

  lemma DecodableHasNoDot(segment: bytes)
    requires SegmentBytes(segment).Success?
    ensures '.' !in segment
  {
    hide Decoded, Repeat;
    PaddedAccepted(segment, UrlSafe);
    var padded := Padded(segment, Fill(UrlSafe));
    var core, k :| k <= 2 && InAlphabet(core, UrlSafe) && padded == core + Repeat(Fill(UrlSafe), k);
    NoDot(core, UrlSafe);
    NoDotInFills(UrlSafe, k);
    forall i | 0 <= i < |segment| ensures segment[i] != '.' {
      assert segment[i] == padded[i];
    }
  }

  function Joined(h: bytes, p: bytes, s: bytes): bytes {
    h + "." + p + "." + s
  }

  lemma FirstDotAt(s: bytes, rest: bytes)
    requires '.' !in s
    ensures Find(s + "." + rest, ".") == Some(|s|)
    ensures (s + "." + rest)[..|s|] == s && (s + "." + rest)[|s| + 1..] == rest
  {
    hide Find;
    var text := s + "." + rest;
    DotPrefix(text, |s|);
    forall i | 0 <= i < |s| ensures !OccursAt(text, ".", i) {
      DotPrefix(text, i);
      assert text[i] == s[i];
    }
  }

  /** Cutting at the first two dots takes a joined token apart again. */
  lemma SplitJoined(h: bytes, p: bytes, s: bytes)
    requires '.' !in h && '.' !in p
    ensures Split(Joined(h, p, s)) == Some((h, p, s))
  {
    hide Find;
    Regroup3(h, p, s);
    FirstDotAt(h, p + "." + s);
    FirstDotAt(p, s);
  }

  // ---------- exactly which tokens decode ----------

  /** The fields agree with one another: the token is its three segments, which decode and parse to the rest. */
  predicate IsDecoding(traits: JsonTraits, jwt: DecodedJwt) {
    && jwt.token == Joined(jwt.headerBase64, jwt.payloadBase64, jwt.signatureBase64)
    && SegmentBytes(jwt.headerBase64) == Success(jwt.header)
    && SegmentBytes(jwt.payloadBase64) == Success(jwt.payload)
    && SegmentBytes(jwt.signatureBase64) == Success(jwt.signature)
    && traits.parse(jwt.header) == Some(Object(jwt.headerClaims))
    && traits.parse(jwt.payload) == Some(Object(jwt.payloadClaims))
  }

  /** The constructor finds the one consistent decoding of a token, and fails when there is none. */
  lemma DecodesExactly(traits: JsonTraits, token: bytes, jwt: DecodedJwt)
    ensures DecodedToken(traits, token) == Success(jwt) <==> IsDecoding(traits, jwt) && jwt.token == token
  {
    hide SegmentBytes, Split, Find;
    if IsDecoding(traits, jwt) && jwt.token == token {
      DecodableHasNoDot(jwt.headerBase64);
      DecodableHasNoDot(jwt.payloadBase64);
      SplitJoined(jwt.headerBase64, jwt.payloadBase64, jwt.signatureBase64);
    }
  }

  lemma DotsOf(h: bytes, p: bytes, s: bytes)
    requires '.' !in h && '.' !in p && '.' !in s
    ensures multiset(Joined(h, p, s))['.'] == 2
  {
    assert multiset(Joined(h, p, s)) == multiset(h) + multiset(".") + multiset(p) + multiset(".") + multiset(s);
    assert '.' !in multiset(h) && '.' !in multiset(p) && '.' !in multiset(s);
  }

  /** Every token that decodes has exactly two dots. */
  lemma DecodedTokensHaveTwoDots(traits: JsonTraits, token: bytes)
    ensures DecodedToken(traits, token).Success? ==> multiset(token)['.'] == 2
  {
    hide SegmentBytes, ParseClaims;
    if DecodedToken(traits, token).Success? {
      var jwt := DecodedToken(traits, token).value;
      DecodesExactly(traits, token, jwt);
      DecodableHasNoDot(jwt.headerBase64);
      DecodableHasNoDot(jwt.payloadBase64);
      DecodableHasNoDot(jwt.signatureBase64);
      DotsOf(jwt.headerBase64, jwt.payloadBase64, jwt.signatureBase64);
    }
  }

  lemma NoDotFound(s: bytes)
    requires Find(s, ".").None?
    ensures '.' !in s
  {
    hide Find;
    forall i | 0 <= i < |s| ensures s[i] != '.' {
      DotPrefix(s, i);
    }
  }

  lemma CountDots(a: bytes, b: bytes)
    requires '.' !in a
    ensures multiset(a + "." + b)['.'] == 1 + multiset(b)['.']
  {
    assert '.' !in multiset(a);
    assert multiset(a + "." + b) == multiset(a) + multiset(".") + multiset(b);
  }

  lemma DotsOfSplit(token: bytes)
    ensures Split(token).None? <==> multiset(token)['.'] < 2
  {
    hide Find;
    match Find(token, ".") {
      case None =>
        NoDotFound(token);
        assert '.' !in multiset(token);
      case Some(first) =>
        SplitsAt(token, first);
        CountDots(token[..first], token[first + 1..]);
        DotsOfRest(token[first + 1..]);
    }
  }

  lemma DotsOfRest(rest: bytes)
    ensures Find(rest, ".").None? <==> multiset(rest)['.'] < 1
  {
    hide Find;
    match Find(rest, ".") {
      case None =>
        NoDotFound(rest);
        assert '.' !in multiset(rest);
      case Some(second) =>
        SplitsAt(rest, second);
        CountDots(rest[..second], rest[second + 1..]);
    }
  }

  /** A token is refused for its shape exactly when it has fewer than two dots. */
  lemma TooFewDots(traits: JsonTraits, token: bytes)
    ensures DecodedToken(traits, token) == Failure(InvalidToken) <==> multiset(token)['.'] < 2
  {
    hide SegmentBytes, ParseClaims, Split;
    DotsOfSplit(token);
    ParseNeverInvalid(traits);
    if Split(token).Some? {
      var (h, p, s) := Split(token).value;
      NeverInvalid(h);
      NeverInvalid(p);
      NeverInvalid(s);
    }
  }

  lemma NeverInvalid(segment: bytes)
    ensures SegmentBytes(segment) != Failure(InvalidToken)
  {
    hide Decoded;
  }

  lemma ParseNeverInvalid(traits: JsonTraits)
    ensures forall text: bytes :: ParseClaims(traits, text) != Failure(InvalidToken)
  {
  }

  /** The first thing wrong is reported: a segment, from left to right, then the header's JSON, then the payload's. */
  lemma DecodeFailsInOrder(traits: JsonTraits, h: bytes, p: bytes, s: bytes)
    requires '.' !in h && '.' !in p
    ensures var r := DecodedToken(traits, Joined(h, p, s));
            var (header, payload, signature) := (SegmentBytes(h), SegmentBytes(p), SegmentBytes(s));
            if header.Failure? then r == Failure(header.error)
            else if payload.Failure? then r == Failure(payload.error)
            else if signature.Failure? then r == Failure(signature.error)
            else if traits.parse(header.value).None? then r == Failure(InvalidJson)
            else if !traits.parse(header.value).value.Object? then r == Failure(BadCast)
            else if traits.parse(payload.value).None? then r == Failure(InvalidJson)
            else if !traits.parse(payload.value).value.Object? then r == Failure(BadCast)
            else r.Success?
  {
    hide SegmentBytes, Split;
    SplitJoined(h, p, s);
  }

  // ---------- exactly which tokens are accepted ----------

  /** A date claim, if there is one, is a number whose date meets the condition. */
  predicate DateClaim(traits: JsonTraits, claims: Claims, name: bytes, holds: int -> bool) {
    match Lookup(claims, name)
    case None => true
    case Some(Int(seconds)) => holds(seconds * 1_000_000_000)
    case Some(Real(literal)) => holds(traits.round(literal) * 1_000_000_000)
    case Some(_) => false
  }

  /** Within `leeway` seconds, the token has been issued, is valid already and has not expired; `now` in nanoseconds. */
  predicate InTime(traits: JsonTraits, claims: Claims, now: int, leeway: nat) {
    && DateClaim(traits, claims, "exp", date => now <= date + leeway * 1_000_000_000)
    && DateClaim(traits, claims, "iat", date => date - leeway * 1_000_000_000 <= now)
    && DateClaim(traits, claims, "nbf", date => date - leeway * 1_000_000_000 <= now)
  }

  /** The claims of an object are looked up by their own name. */
  lemma {:induction false} LookupIsMember(claims: Claims, name: bytes, value: Value)
    requires SortedKeys(claims)
    ensures Lookup(claims, name) == Some(value) <==> Member(name, value) in claims
  {
    if claims != [] {
      LookupIsMember(claims[1..], name, value);
      forall i | 0 < i < |claims| ensures claims[i].key != claims[0].key {
        LessIsAsymmetric(claims[0].key, claims[i].key);
      }
      assert claims == [claims[0]] + claims[1..];
    }
  }

  /** The header that is sent has the algorithm's name if it had no "alg", and is otherwise as it was set. */
  lemma SentHeaderExactly(header: Claims, alg: HmacSha, name: bytes)
    ensures Lookup(SentHeader(header, alg), name) ==
            if name == "alg" && Lookup(header, "alg").None? then Some(Str(alg.name)) else Lookup(header, name)
  {
    LookupAfterPut(header, "alg", Str(alg.name), name);
  }

  lemma DefaultChecksPass(algs: map<bytes, HmacSha>, ctx: Context)
    ensures Accepts(DefaultChecks(), algs, ctx)
       <==> && SignatureOutcome(algs, ctx.jwt).None?
            && InTime(ctx.traits, ctx.jwt.payloadClaims, ctx.now, ctx.defaultLeeway)
  {
    hide SignatureOutcome, Lookup, DateClaim;
    CheckMeans(ctx);
    ThreeChecks(DefaultChecks(), algs, ctx);
  }

  lemma CheckMeans(ctx: Context)
    ensures var (claims, now, leeway) := (ctx.jwt.payloadClaims, ctx.now, ctx.defaultLeeway * 1_000_000_000);
            && (CheckOutcome(DefaultChecks(), ctx, "exp").None? <==>
                 DateClaim(ctx.traits, claims, "exp", date => now <= date + leeway))
            && (CheckOutcome(DefaultChecks(), ctx, "iat").None? <==>
                 DateClaim(ctx.traits, claims, "iat", date => date - leeway <= now))
            && (CheckOutcome(DefaultChecks(), ctx, "nbf").None? <==>
                 DateClaim(ctx.traits, claims, "nbf", date => date - leeway <= now))
  {
    hide Lookup;
    assert "exp" != "iat" && "iat" != "nbf" && "exp" != "nbf";
  }

  /** Which error a date claim gives: for a date that is off, for null, for any other type, and for being absent. */
  lemma DateErrors(ctx: Context, name: bytes, check: Check, leeway: nat)
    requires name == "exp" || name == "iat" || name == "nbf"
    requires check == DateBefore(leeway) || check == DateAfter(leeway)
    ensures var v := Lookup(ctx.jwt.payloadClaims, name);
            var r := CheckOutcome(DefaultChecks(), ctx, name);
            if v.None? then r == None
            else if v.value.Null? then r == Some(InvalidType)
            else if v.value.Int? || v.value.Real? then r == None || r == Some(TokenExpired)
            else r == Some(BadCast)
    ensures var v := Lookup(ctx.jwt.payloadClaims, ctx.claimKey);
            if v.None? then check(ctx) == Some(MissingClaim)
            else if v.value.Null? then check(ctx) == Some(InvalidType)
            else if v.value.Int? then check(ctx) == None || check(ctx) == Some(TokenExpired)
            else check(ctx) == Some(ClaimTypeMismatch)
  {
    hide Lookup;
    assert "exp" != "iat" && "iat" != "nbf" && "exp" != "nbf";
  }

  /** With its own leeway the "exp" check gets stricter: it turns away a token whose claim is missing or a decimal. */
  lemma ExpiresAtLeewayIsStrict(algs: map<bytes, HmacSha>, ctx: Context, leeway: nat)
    ensures var (claims, other) := (ctx.jwt.payloadClaims, ctx.defaultLeeway * 1_000_000_000);
            Accepts(DefaultChecks()["exp" := DateBefore(leeway)], algs, ctx)
            <==> && SignatureOutcome(algs, ctx.jwt).None?
                 && (exists exp :: Lookup(claims, "exp") == Some(Int(exp)) && ctx.now <= (exp + leeway) * 1_000_000_000)
                 && DateClaim(ctx.traits, claims, "iat", date => date - other <= ctx.now)
                 && DateClaim(ctx.traits, claims, "nbf", date => date - other <= ctx.now)
  {
    hide SignatureOutcome, Lookup, DateClaim;
    var checks := DefaultChecks()["exp" := DateBefore(leeway)];
    CheckMeans(ctx);
    DateBeforeExactly(ctx.(claimKey := "exp"), leeway);
    assert "exp" != "iat" && "exp" != "nbf";
    ThreeChecks(checks, algs, ctx);
  }

  /** Likewise for "iat" and "nbf". */
  lemma NotBeforeLeewayIsStrict(algs: map<bytes, HmacSha>, ctx: Context, name: bytes, leeway: nat)
    requires name == "iat" || name == "nbf"
    ensures var (claims, other) := (ctx.jwt.payloadClaims, ctx.defaultLeeway * 1_000_000_000);
            Accepts(DefaultChecks()[name := DateAfter(leeway)], algs, ctx)
            <==> && SignatureOutcome(algs, ctx.jwt).None?
                 && (exists from :: Lookup(claims, name) == Some(Int(from))
                                    && (from - leeway) * 1_000_000_000 <= ctx.now)
                 && DateClaim(ctx.traits, claims, "exp", date => ctx.now <= date + other)
                 && DateClaim(
                      ctx.traits, claims, if name == "iat" then "nbf" else "iat", date => date - other <= ctx.now)
  {
    hide SignatureOutcome, Lookup, DateClaim;
    var checks := DefaultChecks()[name := DateAfter(leeway)];
    CheckMeans(ctx);
    DateAfterExactly(ctx.(claimKey := name), leeway);
    assert "exp" != "iat" && "exp" != "nbf" && "iat" != "nbf";
    ThreeChecks(checks, algs, ctx);
  }

  lemma DateBeforeExactly(ctx: Context, leeway: nat)
    ensures DateBeforeClaim(leeway, ctx).None? <==>
            exists exp :: Lookup(ctx.jwt.payloadClaims, ctx.claimKey) == Some(Int(exp))
                          && ctx.now <= (exp + leeway) * 1_000_000_000
  {
    hide Lookup;
  }

  lemma DateAfterExactly(ctx: Context, leeway: nat)
    ensures DateAfterClaim(leeway, ctx).None? <==>
            exists from :: Lookup(ctx.jwt.payloadClaims, ctx.claimKey) == Some(Int(from))
                           && (from - leeway) * 1_000_000_000 <= ctx.now
  {
    hide Lookup;
  }

  lemma ThreeChecks(checks: map<bytes, Check>, algs: map<bytes, HmacSha>, ctx: Context)
    requires checks.Keys == {"exp", "iat", "nbf"}
    ensures "exp" in checks && "iat" in checks && "nbf" in checks
    ensures Accepts(checks, algs, ctx) <==>
            && SignatureOutcome(algs, ctx.jwt).None?
            && CheckOutcome(checks, ctx, "exp").None?
            && CheckOutcome(checks, ctx, "iat").None?
            && CheckOutcome(checks, ctx, "nbf").None?
  {
    hide SignatureOutcome, CheckOutcome;
    if SignatureOutcome(algs, ctx.jwt).None? && CheckOutcome(checks, ctx, "exp").None?
       && CheckOutcome(checks, ctx, "iat").None? && CheckOutcome(checks, ctx, "nbf").None?
    {
      forall name | name in checks ensures CheckOutcome(checks, ctx, name).None? {
        assert name == "exp" || name == "iat" || name == "nbf";
      }
    }
  }

  /** Which error is reported: for the signature, before any claim is looked at. */
  lemma SignatureErrors(algs: map<bytes, HmacSha>, jwt: DecodedJwt)
    ensures SignatureOutcome(algs, jwt) ==
            match Lookup(jwt.headerClaims, "alg")
            case None => Some(ClaimNotPresent)
            case Some(Str(name)) =>
              if name !in algs then Some(WrongAlgorithm)
              else
                var signed := algs[name].hmac(algs[name].secret, jwt.headerBase64 + "." + jwt.payloadBase64);
                if signed == None then Some(HmacFailed)
                else if signed == Some(jwt.signature) then None else Some(InvalidSignature)
            case Some(_) => Some(BadCast)
  {
  }

  /** What the server runs on a bearer token: decode it, then verify it with the default checks and one algorithm. */
  ghost predicate TokenAccepted(traits: JsonTraits, alg: HmacSha, leeway: nat, token: bytes, now: int) {
    match DecodedToken(traits, token)
    case Failure(_) => false
    case Success(jwt) => Accepts(DefaultChecks(), map[alg.name := alg], Context(traits, now, jwt, leeway, []))
  }

  /** The signature is the hash, under the secret, of the first two segments as they stand in the token. */
  predicate Signs(alg: HmacSha, jwt: DecodedJwt) {
    alg.hmac(alg.secret, jwt.headerBase64 + "." + jwt.payloadBase64) == Some(jwt.signature)
  }

  /** A token that carries the claims of its own algorithm, is in time and bears the right keyed hash. */
  predicate Genuine(traits: JsonTraits, alg: HmacSha, leeway: nat, jwt: DecodedJwt, now: int) {
    && IsDecoding(traits, jwt)
    && Lookup(jwt.headerClaims, "alg") == Some(Str(alg.name))
    && Signs(alg, jwt)
    && InTime(traits, jwt.payloadClaims, now, leeway)
  }

  /** A text is accepted exactly when it is the token of a genuine decoding. */
  lemma AcceptedExactly(traits: JsonTraits, alg: HmacSha, leeway: nat, token: bytes, now: int)
    ensures TokenAccepted(traits, alg, leeway, token, now)
       <==> exists jwt :: Genuine(traits, alg, leeway, jwt, now) && jwt.token == token
  {
    hide InTime, IsDecoding, DecodedToken, SignatureOutcome;
    forall jwt ensures DecodedToken(traits, token) == Success(jwt) <==> IsDecoding(traits, jwt) && jwt.token == token {
      DecodesExactly(traits, token, jwt);
    }
    if DecodedToken(traits, token).Success? {
      var jwt := DecodedToken(traits, token).value;
      DefaultChecksPass(map[alg.name := alg], Context(traits, now, jwt, leeway, []));
      SignatureErrors(map[alg.name := alg], jwt);
      assert TokenAccepted(traits, alg, leeway, token, now) <==> Genuine(traits, alg, leeway, jwt, now);
    }
  }

  // ---------- signed tokens ----------

  /** The JSON layer reads back what it wrote for this object. */
  predicate Survives(traits: JsonTraits, claims: Claims) {
    traits.parse(traits.serialize(Object(claims))) == Some(Object(claims))
  }

  function SignedJwt(traits: JsonTraits, header: Claims, payload: Claims, signature: bytes, token: bytes): DecodedJwt {
    var h := traits.serialize(Object(header));
    var p := traits.serialize(Object(payload));
    DecodedJwt(token, Segment(h), Segment(p), Segment(signature), h, p, signature, header, payload)
  }

  /**
   * Decoding a signed token gives back its three segments, its claims and its signature, which is the keyed hash, under
   * the secret, of the first two segments as they stand in the token.
   */
  lemma DecodeUndoesSign(traits: JsonTraits, header: Claims, payload: Claims, alg: HmacSha, token: bytes)
    requires Survives(traits, SentHeader(header, alg)) && Survives(traits, payload)
    requires SignedToken(traits, header, payload, alg) == Success(token)
    ensures exists signature ::
              var jwt := SignedJwt(traits, SentHeader(header, alg), payload, signature, token);
              && DecodedToken(traits, token) == Success(jwt)
              && alg.hmac(alg.secret, jwt.headerBase64 + "." + jwt.payloadBase64) == Some(signature)
  {
    hide Segment, SegmentBytes;
    var sent := SentHeader(header, alg);
    var data := SigningInput(traits, sent, payload);
    var jwt := SignedJwt(traits, sent, payload, alg.Sign(data).value, token);
    SegmentRoundTrip(jwt.header);
    SegmentRoundTrip(jwt.payload);
    SegmentRoundTrip(jwt.signature);
    assert IsDecoding(traits, jwt);
    DecodesExactly(traits, token, jwt);
    assert SignedJwt(traits, sent, payload, jwt.signature, token) == jwt;
  }

  /**
   * A token signed with one secret is accepted under another secret, or another hash, of the same name exactly when it
   * is in time, its header names the algorithm, and the other hash under the other secret gives the same signature on
   * the same two segments. (`DecodeUndoesSign` says that it decodes.)
   */
  lemma SignedElsewhere(
    traits: JsonTraits, header: Claims, payload: Claims, alg: HmacSha, other: HmacSha, token: bytes, jwt: DecodedJwt,
    leeway: nat, now: int)
    requires Survives(traits, SentHeader(header, alg)) && Survives(traits, payload) && other.name == alg.name
    requires SignedToken(traits, header, payload, alg) == Success(token) && DecodedToken(traits, token) == Success(jwt)
    ensures Signs(alg, jwt)
    ensures TokenAccepted(traits, other, leeway, token, now)
       <==> && Lookup(SentHeader(header, alg), "alg") == Some(Str(alg.name))
            && InTime(traits, payload, now, leeway)
            && Signs(other, jwt)
  {
    hide DecodedToken, InTime, SentHeader;
    DecodeUndoesSign(traits, header, payload, alg, token);
    DefaultChecksPass(map[other.name := other], Context(traits, now, jwt, leeway, []));
    SignatureErrors(map[other.name := other], jwt);
  }

  /** A signed token is accepted under its own key exactly while it is in time and its header names the algorithm. */
  lemma SignedTokenAccepted(
    traits: JsonTraits, header: Claims, payload: Claims, alg: HmacSha, token: bytes, leeway: nat, now: int)
    requires Survives(traits, SentHeader(header, alg)) && Survives(traits, payload)
    requires SignedToken(traits, header, payload, alg) == Success(token)
    ensures TokenAccepted(traits, alg, leeway, token, now)
       <==> Lookup(SentHeader(header, alg), "alg") == Some(Str(alg.name)) && InTime(traits, payload, now, leeway)
    ensures Lookup(header, "alg").None? ==>
              (TokenAccepted(traits, alg, leeway, token, now) <==> InTime(traits, payload, now, leeway))
  {
    hide TokenAccepted, DecodedToken, InTime, SignedToken;
    DecodeUndoesSign(traits, header, payload, alg, token);
    SignedElsewhere(traits, header, payload, alg, alg, token, DecodedToken(traits, token).value, leeway, now);
    SentHeaderExactly(header, alg, "alg");
  }
}

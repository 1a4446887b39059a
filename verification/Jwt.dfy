/** jwt-cpp's compact tokens: building and signing, splitting and decoding, verifying. */
module Jwt {
  import opened Bytes
  import opened Wrappers
  import opened JsonValue
  import opened Base64

  type Claims = seq<Member>

  // ---------- what the template parameters provide ----------

  /** The JSON layer; `round` is `std::llround` of the double that a floating-point literal stands for. */
  datatype JsonTraits = JsonTraits(
    serialize: Value -> bytes,
    parse: bytes -> Option<Value>,
    round: bytes -> int)

  /** A keyed hash under one secret; the hash function is OpenSSL's, and `None` is its failure. */
  datatype HmacSha = HmacSha(name: bytes, secret: bytes, hmac: (bytes, bytes) -> Option<bytes>) {
    function Sign(data: bytes): Option<bytes> {
      hmac(secret, data)
    }
  }

  /** Error codes and exceptions alike: the token is not signed, not decoded or not accepted. */
  datatype Error =
    | InvalidToken
    | NotBase64(reason: DecodeError)
    | InvalidJson
    | BadCast
    | InvalidType
    | ClaimNotPresent
    | HmacFailed
    | InvalidSignature
    | WrongAlgorithm
    | MissingClaim
    | ClaimTypeMismatch
    | TokenExpired

  // ---------- claims ----------

  function Lookup(claims: Claims, name: bytes): Option<Value> {
    if claims == [] then None
    else if claims[0].key == name then Some(claims[0].value)
    else Lookup(claims[1..], name)
  }

  /** Setting a claim changes that claim and no other. */
  lemma {:induction false} LookupAfterPut(claims: Claims, name: bytes, value: Value, other: bytes)
    ensures Lookup(Put(claims, name, value), other) == if other == name then Some(value) else Lookup(claims, other)
  {
    if claims != [] && !Less(name, claims[0].key) && claims[0].key != name {
      LookupAfterPut(claims[1..], name, value, other);
    }
  }

  /** Clock ticks of `std::chrono::system_clock` in a second. */
  const TICKS: int := 1_000_000_000

  /** `duration_cast<seconds>`: truncation toward zero. */
  function WholeSeconds(ticks: int): int {
    if ticks >= 0 then ticks / TICKS else -(-ticks / TICKS)
  }

  /** `basic_claim::as_date`, in ticks. */
  function AsDate(traits: JsonTraits, v: Value): Result<int, Error> {
    match v
    case Null => Failure(InvalidType)
    case Real(literal) => Success(traits.round(literal) * TICKS)
    case Int(i) => Success(i * TICKS)
    case _ => Failure(BadCast)
  }

  // ---------- segments ----------

  function Segment(data: bytes): bytes {
    Trimmed(Encoded(data, UrlSafe, Fill(UrlSafe)), Fill(UrlSafe))
  }

  function SegmentBytes(segment: bytes): Result<bytes, Error> {
    match Decoded(Padded(segment, Fill(UrlSafe)), UrlSafe, [Fill(UrlSafe)])
    case Success(data) => Success(data)
    case Failure(reason) => Failure(NotBase64(reason))
  }

  method EncodeSegment(data: bytes) returns (segment: bytes)
    ensures segment == Segment(data)
  {
    var base := Base64.Encode(data, UrlSafe, Fill(UrlSafe));
    segment := Trimmed(base, Fill(UrlSafe));
  }

  method DecodeSegment(segment: bytes) returns (data: Result<bytes, Error>)
    ensures data == SegmentBytes(segment)
  {
    var padded := Pad(segment, Fill(UrlSafe));
    var r := Base64.Decode(padded, UrlSafe, [Fill(UrlSafe)]);
    match r {
      case Success(b) => data := Success(b);
      case Failure(reason) => data := Failure(NotBase64(reason));
    }
  }

  // ---------- signing ----------

  /** The header that is sent: the algorithm's name is added unless the claim is already there. */
  function SentHeader(header: Claims, alg: HmacSha): Claims {
    if Lookup(header, "alg").None? then Put(header, "alg", Str(alg.name)) else header
  }

  function SigningInput(traits: JsonTraits, header: Claims, payload: Claims): bytes {
    Segment(traits.serialize(Object(header))) + "." + Segment(traits.serialize(Object(payload)))
  }

  function SignedToken(traits: JsonTraits, header: Claims, payload: Claims, alg: HmacSha): Result<bytes, Error> {
    var data := SigningInput(traits, SentHeader(header, alg), payload);
    match alg.Sign(data)
    case None => Failure(HmacFailed)
    case Some(signature) => Success(data + "." + Segment(signature))
  }

  class Builder {
    const traits: JsonTraits
    var headerClaims: Claims
    var payloadClaims: Claims

    constructor (traits: JsonTraits)
      ensures this.traits == traits && headerClaims == [] && payloadClaims == []
    {
      this.traits := traits;
      headerClaims := [];
      payloadClaims := [];
    }

    method SetHeaderClaim(id: bytes, c: Value)
      modifies `headerClaims
      ensures headerClaims == Put(old(headerClaims), id, c)
    {
      headerClaims := Put(headerClaims, id, c);
    }

    method SetPayloadClaim(id: bytes, c: Value)
      modifies `payloadClaims
      ensures payloadClaims == Put(old(payloadClaims), id, c)
    {
      payloadClaims := Put(payloadClaims, id, c);
    }

    method SetIssuedAt(date: int)
      modifies `payloadClaims
      ensures payloadClaims == Put(old(payloadClaims), "iat", Int(WholeSeconds(date)))
    {
      SetPayloadClaim("iat", Int(WholeSeconds(date)));
    }

    method SetExpiresAt(date: int)
      modifies `payloadClaims
      ensures payloadClaims == Put(old(payloadClaims), "exp", Int(WholeSeconds(date)))
    {
      SetPayloadClaim("exp", Int(WholeSeconds(date)));
    }

    method SetSubject(subject: bytes)
      modifies `payloadClaims
      ensures payloadClaims == Put(old(payloadClaims), "sub", Str(subject))
    {
      SetPayloadClaim("sub", Str(subject));
    }

    /** Works on a copy of the header, so a builder can sign again. */
    method Sign(alg: HmacSha) returns (token: Result<bytes, Error>)
      ensures token == SignedToken(traits, headerClaims, payloadClaims, alg)
    {
      hide Put, Segment;
      var header := headerClaims;
      if Lookup(header, "alg").None? {
        header := Put(header, "alg", Str(alg.name));
      }
      var h := EncodeSegment(traits.serialize(Object(header)));
      var p := EncodeSegment(traits.serialize(Object(payloadClaims)));
      var data := h + "." + p;
      var signature := alg.Sign(data);
      if signature.None? {
        return Failure(HmacFailed);
      }
      var s := EncodeSegment(signature.value);
      token := Success(data + "." + s);
    }
  }

  // ---------- decoding ----------

  datatype DecodedJwt = DecodedJwt(
    token: bytes,
    headerBase64: bytes,
    payloadBase64: bytes,
    signatureBase64: bytes,
    header: bytes,
    payload: bytes,
    signature: bytes,
    headerClaims: Claims,
    payloadClaims: Claims)

  /** `map_of_claims::parse_claims`. */
  function ParseClaims(traits: JsonTraits, text: bytes): Result<Claims, Error> {
    match traits.parse(text)
    case None => Failure(InvalidJson)
    case Some(Object(members)) => Success(members)
    case Some(_) => Failure(BadCast)
  }

  /** The token's parts before the first dot, between the first two, and after the second. */
  function Split(token: bytes): (r: Option<(bytes, bytes, bytes)>)
    ensures r.Some? ==> token == r.value.0 + "." + r.value.1 + "." + r.value.2
    ensures r.Some? ==> '.' !in r.value.0 && '.' !in r.value.1
  {
    match Find(token, ".")
    case None => None
    case Some(headerEnd) =>
      SplitsAt(token, headerEnd);
      var rest := token[headerEnd + 1..];
      match Find(rest, ".")
      case None => None
      case Some(payloadEnd) =>
        SplitsAt(rest, payloadEnd);
        Regroup3(token[..headerEnd], rest[..payloadEnd], rest[payloadEnd + 1..]);
        Some((token[..headerEnd], rest[..payloadEnd], rest[payloadEnd + 1..]))
  }

  lemma SplitsAt(s: bytes, pos: nat)
    requires Find(s, ".") == Some(pos)
    ensures pos < |s| && s == s[..pos] + "." + s[pos + 1..]
    ensures '.' !in s[..pos]
  {
    FirstDot(s, pos);
    CutAtDot(s, pos);
  }

  lemma CutAtDot(s: bytes, pos: nat)
    requires pos < |s| && s[pos] == '.'
    requires forall i | 0 <= i < pos :: s[i] != '.'
    ensures s == s[..pos] + "." + s[pos + 1..]
    ensures '.' !in s[..pos]
  {
  }

  lemma FirstDot(s: bytes, pos: nat)
    requires Find(s, ".") == Some(pos)
    ensures pos < |s| && s[pos] == '.'
    ensures forall i | 0 <= i < pos :: s[i] != '.'
  {
    hide Find;
    DotPrefix(s, pos);
    forall i | 0 <= i < pos ensures s[i] != '.' {
      DotPrefix(s, i);
    }
  }

  lemma DotPrefix(s: bytes, i: nat)
    ensures OccursAt(s, ".", i) <==> i < |s| && s[i] == '.'
  {
    if i < |s| {
      assert s[i..][0] == s[i];
    }
  }

  lemma Regroup3(a: bytes, b: bytes, c: bytes)
    ensures a + "." + (b + "." + c) == a + "." + b + "." + c
  {
  }

  function DecodedToken(traits: JsonTraits, token: bytes): Result<DecodedJwt, Error> {
    match Split(token)
    case None => Failure(InvalidToken)
    case Some((h, p, s)) =>
      var header :- SegmentBytes(h);
      var payload :- SegmentBytes(p);
      var signature :- SegmentBytes(s);
      var headerClaims :- ParseClaims(traits, header);
      var payloadClaims :- ParseClaims(traits, payload);
      Success(DecodedJwt(token, h, p, s, header, payload, signature, headerClaims, payloadClaims))
  }

  /** The `decoded_jwt` constructor. */
  method DecodeToken(traits: JsonTraits, token: bytes) returns (r: Result<DecodedJwt, Error>)
    ensures r == DecodedToken(traits, token)
  {
    hide SegmentBytes, ParseClaims, Find;
    var headerEnd := Find(token, ".");
    if headerEnd.None? {
      return Failure(InvalidToken);
    }
    SplitsAt(token, headerEnd.value);
    var rest := token[headerEnd.value + 1..];
    var payloadEnd := Find(rest, ".");
    if payloadEnd.None? {
      return Failure(InvalidToken);
    }
    SplitsAt(rest, payloadEnd.value);
    var headerBase64 := token[..headerEnd.value];
    var payloadBase64 := rest[..payloadEnd.value];
    var signatureBase64 := rest[payloadEnd.value + 1..];

    var header :- DecodeSegment(headerBase64);
    var payload :- DecodeSegment(payloadBase64);
    var signature :- DecodeSegment(signatureBase64);
    var headerClaims :- ParseClaims(traits, header);
    var payloadClaims :- ParseClaims(traits, payload);
    r := Success(DecodedJwt(token, headerBase64, payloadBase64, signatureBase64,
                            header, payload, signature, headerClaims, payloadClaims));
  }

  // ---------- verifying ----------

  /** `hmacsha::verify`: the signature must be the one that signing the data gives, byte for byte. */
  method VerifySignature(alg: HmacSha, data: bytes, signature: bytes) returns (ec: Option<Error>)
    ensures ec == SignatureError(alg, data, signature)
  {
    var signed := alg.Sign(data);
    if signed.None? {
      return Some(HmacFailed);
    }
    var res := signed.value;
    var matched := true;
    var size := if |res| < |signature| then |res| else |signature|;
    for i := 0 to size
      invariant matched <==> res[..i] == signature[..i]
    {
      assert res[..i + 1] == res[..i] + [res[i]];
      assert signature[..i + 1] == signature[..i] + [signature[i]];
      if res[i] != signature[i] {
        matched := false;
      }
    }
    assert |res| == |signature| ==> res[..size] == res && signature[..size] == signature;
    if |res| != |signature| {
      matched := false;
    }
    ec := if matched then None else Some(InvalidSignature);
  }

  function SignatureError(alg: HmacSha, data: bytes, signature: bytes): Option<Error> {
    match alg.Sign(data)
    case None => Some(HmacFailed)
    case Some(expected) => if expected == signature then None else Some(InvalidSignature)
  }

  datatype Context = Context(
    traits: JsonTraits,
    now: int,
    jwt: DecodedJwt,
    defaultLeeway: nat,
    claimKey: bytes)

  /** A claim check; `None` lets the token pass. */
  type Check = Context -> Option<Error>

  /** The instant from which, or up to which, a token is good: the date of a claim moved by a leeway in seconds. */
  predicate NotAfter(now: int, date: int, leeway: nat) {
    now <= date + leeway * TICKS
  }

  predicate NotBefore(now: int, date: int, leeway: nat) {
    date - leeway * TICKS <= now
  }

  /** The checks that the `verifier` constructor installs. */
  function ExpCheck(ctx: Context): Option<Error> {
    match Lookup(ctx.jwt.payloadClaims, "exp")
    case None => None
    case Some(v) =>
      match AsDate(ctx.traits, v)
      case Failure(e) => Some(e)
      case Success(exp) => if NotAfter(ctx.now, exp, ctx.defaultLeeway) then None else Some(TokenExpired)
  }

  function IatCheck(ctx: Context): Option<Error> {
    match Lookup(ctx.jwt.payloadClaims, "iat")
    case None => None
    case Some(v) =>
      match AsDate(ctx.traits, v)
      case Failure(e) => Some(e)
      case Success(iat) => if NotBefore(ctx.now, iat, ctx.defaultLeeway) then None else Some(TokenExpired)
  }

  function NbfCheck(ctx: Context): Option<Error> {
    match Lookup(ctx.jwt.payloadClaims, "nbf")
    case None => None
    case Some(v) =>
      match AsDate(ctx.traits, v)
      case Failure(e) => Some(e)
      case Success(nbf) => if NotBefore(ctx.now, nbf, ctx.defaultLeeway) then None else Some(TokenExpired)
  }

  /** `date_before_claim` and `date_after_claim`: the claim must be there and be an integer. */
  function DateBeforeClaim(leeway: nat, ctx: Context): Option<Error> {
    match Lookup(ctx.jwt.payloadClaims, ctx.claimKey)
    case None => Some(MissingClaim)
    case Some(Null) => Some(InvalidType)
    case Some(Int(i)) => if NotAfter(ctx.now, i * TICKS, leeway) then None else Some(TokenExpired)
    case Some(_) => Some(ClaimTypeMismatch)
  }

  function DateAfterClaim(leeway: nat, ctx: Context): Option<Error> {
    match Lookup(ctx.jwt.payloadClaims, ctx.claimKey)
    case None => Some(MissingClaim)
    case Some(Null) => Some(InvalidType)
    case Some(Int(i)) => if NotBefore(ctx.now, i * TICKS, leeway) then None else Some(TokenExpired)
    case Some(_) => Some(ClaimTypeMismatch)
  }

  function DateBefore(leeway: nat): Check {
    (ctx: Context) => DateBeforeClaim(leeway, ctx)
  }

  function DateAfter(leeway: nat): Check {
    (ctx: Context) => DateAfterClaim(leeway, ctx)
  }

  function DefaultChecks(): map<bytes, Check> {
    map["exp" := ExpCheck, "iat" := IatCheck, "nbf" := NbfCheck]
  }

  /** `get_algorithm`. */
  function AlgorithmName(jwt: DecodedJwt): Result<bytes, Error> {
    match Lookup(jwt.headerClaims, "alg")
    case None => Failure(ClaimNotPresent)
    case Some(Str(name)) => Success(name)
    case Some(_) => Failure(BadCast)
  }

  /** What the signature covers. */
  function SignedPart(jwt: DecodedJwt): bytes {
    jwt.headerBase64 + "." + jwt.payloadBase64
  }

  /** The errors found before any claim is looked at. */
  function SignatureOutcome(algs: map<bytes, HmacSha>, jwt: DecodedJwt): Option<Error> {
    match AlgorithmName(jwt)
    case Failure(e) => Some(e)
    case Success(name) =>
      if name !in algs then Some(WrongAlgorithm)
      else SignatureError(algs[name], SignedPart(jwt), jwt.signature)
  }

  function CheckOutcome(claims: map<bytes, Check>, ctx: Context, name: bytes): Option<Error>
    requires name in claims
  {
    claims[name](ctx.(claimKey := name))
  }

  /** A token is accepted when its algorithm is allowed, its signature is right and every check passes. */
  ghost predicate Accepts(claims: map<bytes, Check>, algs: map<bytes, HmacSha>, ctx: Context) {
    && SignatureOutcome(algs, ctx.jwt).None?
    && forall name | name in claims :: CheckOutcome(claims, ctx, name).None?
  }

  class Verifier {
    const traits: JsonTraits
    var claims: map<bytes, Check>
    var defaultLeeway: nat
    var algs: map<bytes, HmacSha>

    constructor (traits: JsonTraits)
      ensures this.traits == traits && claims == DefaultChecks() && defaultLeeway == 0 && algs == map[]
    {
      this.traits := traits;
      claims := DefaultChecks();
      defaultLeeway := 0;
      algs := map[];
    }

    method Leeway(leeway: nat)
      modifies `defaultLeeway
      ensures defaultLeeway == leeway
    {
      defaultLeeway := leeway;
    }

    method ExpiresAtLeeway(leeway: nat)
      modifies `claims
      ensures claims == old(claims)["exp" := DateBefore(leeway)]
    {
      claims := claims["exp" := DateBefore(leeway)];
    }

    method NotBeforeLeeway(leeway: nat)
      modifies `claims
      ensures claims == old(claims)["nbf" := DateAfter(leeway)]
    {
      claims := claims["nbf" := DateAfter(leeway)];
    }

    method IssuedAtLeeway(leeway: nat)
      modifies `claims
      ensures claims == old(claims)["iat" := DateAfter(leeway)]
    {
      claims := claims["iat" := DateAfter(leeway)];
    }

    method WithClaim(name: bytes, check: Check)
      modifies `claims
      ensures claims == old(claims)[name := check]
    {
      claims := claims[name := check];
    }

    method AllowAlgorithm(alg: HmacSha)
      modifies `algs
      ensures algs == old(algs)[alg.name := alg]
    {
      algs := algs[alg.name := alg];
    }

    /** The claim checks live in a hash map, so their order is arbitrary; acceptance does not depend on it. */
    method Verify(jwt: DecodedJwt, now: int) returns (ec: Option<Error>)
      ensures ec.None? <==> Accepts(claims, algs, Context(traits, now, jwt, defaultLeeway, []))
      ensures SignatureOutcome(algs, jwt).Some? ==> ec == SignatureOutcome(algs, jwt)
      ensures SignatureOutcome(algs, jwt).None? && ec.Some? ==>
                var ctx := Context(traits, now, jwt, defaultLeeway, []);
                exists name | name in claims :: CheckOutcome(claims, ctx, name) == ec
    {
      var algorithm := AlgorithmName(jwt);
      if algorithm.Failure? {
        return Some(algorithm.error);
      }
      if algorithm.value !in algs {
        return Some(WrongAlgorithm);
      }
      ec := VerifySignature(algs[algorithm.value], SignedPart(jwt), jwt.signature);
      if ec.Some? {
        return;
      }
      var ctx := Context(traits, now, jwt, defaultLeeway, []);
      var left := claims.Keys;
      while left != {}
        invariant left <= claims.Keys && ec.None?
        invariant forall name | name in claims && name !in left :: CheckOutcome(claims, ctx, name).None?
      {
        var name :| name in left;
        left := left - {name};
        ec := CheckOutcome(claims, ctx, name);
        if ec.Some? {
          return;
        }
      }
    }
  }
}

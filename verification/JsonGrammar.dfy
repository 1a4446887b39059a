/** What picojson's parser accepts and builds, as functions from the unread text. */
module JsonGrammar {
  import opened Bytes
  import opened JsonValue

  const DEFAULT_MAX_DEPTHS := 100

  /** Either a value and the text left unread, or a syntax error. */
  datatype Parsed<+T> = Ok(value: T, rest: bytes) | Fail

  predicate IsSpace(c: byte) {
    c == ' ' || c == '\t' || c == '\n' || c == '\r'
  }

  function SkipSpace(t: bytes): (r: bytes)
    ensures |r| <= |t|
    ensures r != [] ==> !IsSpace(r[0])
  {
    if t != [] && IsSpace(t[0]) then SkipSpace(t[1..]) else t
  }

  predicate StartsWith(t: bytes, c: byte) {
    t != [] && t[0] == c
  }

  // ---------- strings ----------

  predicate IsHex(c: byte) {
    '0' <= c <= '9' || 'A' <= c <= 'F' || 'a' <= c <= 'f'
  }

  function HexValue(c: byte): (n: nat)
    requires IsHex(c)
    ensures n < 16
  {
    if c <= '9' then c as int - '0' as int
    else if c <= 'F' then c as int - 'A' as int + 10
    else c as int - 'a' as int + 10
  }

  function QuadHex(t: bytes): (r: Parsed<nat>)
    ensures r.Ok? ==> r.value < 0x10000 && |r.rest| < |t|
  {
    if |t| >= 4 && IsHex(t[0]) && IsHex(t[1]) && IsHex(t[2]) && IsHex(t[3]) then
      Ok(((HexValue(t[0]) * 16 + HexValue(t[1])) * 16 + HexValue(t[2])) * 16 + HexValue(t[3]), t[4..])
    else
      Fail
  }

  function Continuation(n: nat): byte {
    (0x80 + n % 0x40) as char
  }

  /** The bytes pushed for a code point; `|` joins disjoint bits, so it is addition here. */
  function Utf8(cp: nat): bytes
    requires cp < 0x11_0000
  {
    if cp < 0x80 then [cp as char]
    else if cp < 0x800 then [(0xc0 + cp / 0x40) as char, Continuation(cp)]
    else if cp < 0x1_0000 then [(0xe0 + cp / 0x1000) as char, Continuation(cp / 0x40), Continuation(cp)]
    else [(0xf0 + cp / 0x4_0000) as char, Continuation(cp / 0x1000), Continuation(cp / 0x40), Continuation(cp)]
  }

  /** The code point written after `\u`, a surrogate pair being two escapes. */
  function CodePoint(t: bytes): (r: Parsed<nat>)
    ensures r.Ok? ==> r.value < 0x11_0000 && |r.rest| < |t|
  {
    match QuadHex(t)
    case Fail => Fail
    case Ok(first, u) =>
      if !(0xd800 <= first <= 0xdfff) then Ok(first, u)
      else if 0xdc00 <= first then Fail
      else LowHalf(first, u)
  }

  /** The second escape of a surrogate pair. */
  function LowHalf(high: nat, u: bytes): (r: Parsed<nat>)
    requires 0xd800 <= high < 0xdc00
    ensures r.Ok? ==> 0x1_0000 <= r.value < 0x11_0000 && |r.rest| < |u|
  {
    if |u| < 2 || u[0] != '\\' || u[1] != 'u' then Fail
    else
      match QuadHex(u[2..])
      case Fail => Fail
      case Ok(low, w) =>
        if 0xdc00 <= low <= 0xdfff then Ok((high - 0xd800) * 0x400 + (low - 0xdc00) + 0x10000, w) else Fail
  }

  predicate IsSimpleEscape(c: byte) {
    c == '"' || c == '\\' || c == '/' || c == 'b' || c == 'f' || c == 'n' || c == 'r' || c == 't'
  }

  function SimpleEscape(c: byte): byte
    requires IsSimpleEscape(c)
  {
    match c
    case 'b' => '\U{8}'
    case 'f' => '\U{C}'
    case 'n' => '\n'
    case 'r' => '\r'
    case 't' => '\t'
    case _ => c
  }

  /** The rest of a string literal, `out` being what was read of it. */
  function StringTail(t: bytes, out: bytes): (r: Parsed<bytes>)
    ensures r.Ok? ==> |r.rest| < |t|
    decreases |t|
  {
    if t == [] || t[0] < ' ' then Fail
    else if t[0] == '"' then Ok(out, t[1..])
    else if t[0] != '\\' then StringTail(t[1..], out + [t[0]])
    else if |t| < 2 then Fail
    else if IsSimpleEscape(t[1]) then StringTail(t[2..], out + [SimpleEscape(t[1])])
    else if t[1] != 'u' then Fail
    else
      match CodePoint(t[2..])
      case Fail => Fail
      case Ok(cp, u) => StringTail(u, out + Utf8(cp))
  }

  // ---------- numbers ----------

  predicate IsDigit(c: byte) {
    '0' <= c <= '9'
  }

  predicate IsNumberChar(c: byte) {
    IsDigit(c) || c == '+' || c == '-' || c == 'e' || c == 'E' || c == '.'
  }

  /** How many leading characters a number literal takes. */
  function NumberLength(t: bytes): (n: nat)
    ensures n <= |t|
  {
    if t == [] || !IsNumberChar(t[0]) then 0 else 1 + NumberLength(t[1..])
  }

  predicate AllDigits(t: bytes) {
    forall i | 0 <= i < |t| :: IsDigit(t[i])
  }

  function DigitRun(t: bytes): (n: nat)
    ensures n <= |t|
  {
    if t == [] || !IsDigit(t[0]) then 0 else 1 + DigitRun(t[1..])
  }

  function DropSign(t: bytes): bytes {
    if StartsWith(t, '-') || StartsWith(t, '+') then t[1..] else t
  }

  function NatValue(t: bytes): nat
    requires AllDigits(t)
  {
    if t == [] then 0 else NatValue(t[..|t| - 1]) * 10 + (t[|t| - 1] as int - '0' as int)
  }

  /** `strtoimax` in base 10 reads the whole text. */
  predicate IsIntLiteral(t: bytes) {
    DropSign(t) != [] && AllDigits(DropSign(t))
  }

  function IntValue(t: bytes): int
    requires IsIntLiteral(t)
  {
    var n: int := NatValue(DropSign(t));
    if StartsWith(t, '-') then -n else n
  }

  /** `strtod` reads the whole text (made of number characters, with '.' as decimal point). */
  predicate IsRealLiteral(t: bytes) {
    var u := DropSign(t);
    var whole := DigitRun(u);
    var v := u[whole..];
    var fraction := if StartsWith(v, '.') then DigitRun(v[1..]) else 0;
    var w := if StartsWith(v, '.') then v[1 + fraction..] else v;
    && whole + fraction > 0
    && (w == [] || ((w[0] == 'e' || w[0] == 'E') && DropSign(w[1..]) != [] && AllDigits(DropSign(w[1..]))))
  }

  function NumberValue(t: bytes): (r: Parsed<Value>)
    ensures r.Ok? ==> WellFormed(r.value) && r.rest == []
  {
    if IsIntLiteral(t) && INT64_MIN <= IntValue(t) <= INT64_MAX then Ok(Int(IntValue(t)), [])
    else if IsRealLiteral(t) then Ok(Real(t), [])
    else Fail
  }

  // ---------- values ----------

  predicate IsWordStart(c: byte) {
    c == 'n' || c == 'f' || c == 't'
  }

  /** What has to follow the first letter of a literal name, and the value the name stands for. */
  function WordRest(c: byte): (bytes, Value)
    requires IsWordStart(c)
  {
    if c == 'n' then ("ull", Null) else if c == 'f' then ("alse", Bool(false)) else ("rue", Bool(true))
  }

  function WordTail(c: byte, t: bytes): (r: Parsed<Value>)
    requires IsWordStart(c)
    ensures r.Ok? ==> |r.rest| < |t|
  {
    var (word, v) := WordRest(c);
    if word <= t then Ok(v, t[|word|..]) else Fail
  }

  function StringValueTail(t: bytes): (r: Parsed<Value>)
    ensures r.Ok? ==> |r.rest| < |t|
  {
    match StringTail(t, [])
    case Fail => Fail
    case Ok(s, u) => Ok(Str(s), u)
  }

  function NumberAt(t: bytes): (r: Parsed<Value>)
    requires t != [] && IsNumberChar(t[0])
    ensures r.Ok? ==> |r.rest| < |t|
  {
    var n := NumberLength(t);
    match NumberValue(t[..n])
    case Fail => Fail
    case Ok(v, _) => Ok(v, t[n..])
  }

  /** A whole value; every nested call reads strictly less text, so parsing always terminates. */
  function ParseValue(t: bytes, depths: nat): (r: Parsed<Value>)
    ensures r.Ok? ==> |r.rest| < |t|
    decreases |t|, 0
  {
    var u := SkipSpace(t);
    if u == [] then Fail
    else if IsWordStart(u[0]) then WordTail(u[0], u[1..])
    else if u[0] == '"' then StringValueTail(u[1..])
    else if u[0] == '[' then ArrayTail(u[1..], depths)
    else if u[0] == '{' then ObjectTail(u[1..], depths)
    else if IsDigit(u[0]) || u[0] == '-' then
      NumberAt(u)
    else Fail
  }

  function ArrayTail(t: bytes, depths: nat): (r: Parsed<Value>)
    ensures r.Ok? ==> |r.rest| < |t|
    decreases |t|, 2
  {
    var u := SkipSpace(t);
    if depths == 0 then Fail
    else if StartsWith(u, ']') then Ok(Array([]), u[1..])
    else ItemsTail(u, depths - 1, [])
  }

  /** The remaining items of an array whose context has `depths` left. */
  function ItemsTail(t: bytes, depths: nat, items: seq<Value>): (r: Parsed<Value>)
    ensures r.Ok? ==> |r.rest| < |t|
    decreases |t|, 1
  {
    match ParseValue(t, depths)
    case Fail => Fail
    case Ok(v, u) =>
      var w := SkipSpace(u);
      if StartsWith(w, ',') then ItemsTail(w[1..], depths, items + [v])
      else if StartsWith(w, ']') then Ok(Array(items + [v]), w[1..])
      else Fail
  }

  function ObjectTail(t: bytes, depths: nat): (r: Parsed<Value>)
    ensures r.Ok? ==> |r.rest| < |t|
    decreases |t|, 2
  {
    var u := SkipSpace(t);
    if depths == 0 then Fail
    else if StartsWith(u, '}') then Ok(Object([]), u[1..])
    else MembersTail(u, depths, [])
  }

  /** A key and its colon. */
  function KeyTail(t: bytes): (r: Parsed<bytes>)
    ensures r.Ok? ==> |r.rest| < |t|
  {
    var u := SkipSpace(t);
    if !StartsWith(u, '"') then Fail
    else
      match StringTail(u[1..], [])
      case Fail => Fail
      case Ok(key, v) =>
        var w := SkipSpace(v);
        if StartsWith(w, ':') then Ok(key, w[1..]) else Fail
  }

  function MembersTail(t: bytes, depths: nat, members: seq<Member>): (r: Parsed<Value>)
    ensures r.Ok? ==> |r.rest| < |t|
    decreases |t|, 1
  {
    match KeyTail(t)
    case Fail => Fail
    case Ok(key, s) =>
      match ParseValue(s, depths)
      case Fail => Fail
      case Ok(v, u) =>
        var w := SkipSpace(u);
        if StartsWith(w, ',') then MembersTail(w[1..], depths, Put(members, key, v))
        else if StartsWith(w, '}') then Ok(Object(Put(members, key, v)), w[1..])
        else Fail
  }
}

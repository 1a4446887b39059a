/** The `\u` escapes of JSON strings and the UTF-8 they are turned into. */
module JsonUnicode {
  import opened Bytes
  import opened Wrappers
  import opened JsonGrammar
  import JsonPrinter

  predicate IsScalar(cp: nat) {
    cp < 0xd800 || 0xe000 <= cp < 0x11_0000
  }

  /** Four lower-case hexadecimal digits. */
  function Hex4(n: nat): bytes
    requires n < 0x1_0000
  {
    [JsonPrinter.HexDigit(n / 0x1000), JsonPrinter.HexDigit(n / 0x100 % 16),
     JsonPrinter.HexDigit(n / 0x10 % 16), JsonPrinter.HexDigit(n % 16)]
  }

  /** What stands after `\u` for a scalar value (section 7 of RFC 8259): one code unit, or a surrogate pair. */
  function EscapeDigits(cp: nat): bytes
    requires IsScalar(cp)
  {
    if cp < 0x1_0000 then Hex4(cp)
    else Hex4(0xd800 + (cp - 0x1_0000) / 0x400) + "\\u" + Hex4(0xdc00 + (cp - 0x1_0000) % 0x400)
  }

  function LowerHex(t: bytes): (r: bytes)
    ensures |r| == |t|
  {
    seq(|t|, i requires 0 <= i < |t| => if 'A' <= t[i] <= 'F' then (t[i] as int + 32) as char else t[i])
  }

  /** The digit `c`, in either case, has the value `n`. */
  lemma LowerHexDigit(c: byte, n: nat)
    requires n < 16
    ensures IsHex(c) && HexValue(c) == n <==> LowerHex([c])[0] == JsonPrinter.HexDigit(n)
  {
  }

  /** `QuadHex` reads a number from exactly its four digits, in either case. */
  lemma QuadHexExact(t: bytes, n: nat, u: bytes)
    requires n < 0x1_0000
    ensures QuadHex(t) == Ok(n, u) <==> |t| >= 4 && u == t[4..] && LowerHex(t[..4]) == Hex4(n)
  {
    if |t| >= 4 {
      FourDigits(t, n);
      hide LowerHex, Hex4;
      if IsHex(t[0]) && IsHex(t[1]) && IsHex(t[2]) && IsHex(t[3]) {
        DigitsJoin(n);
        DigitsOf(HexValue(t[0]), HexValue(t[1]), HexValue(t[2]), HexValue(t[3]));
      }
    }
  }

  predicate IsDigitOf(c: byte, n: nat) {
    IsHex(c) && HexValue(c) == n
  }

  lemma FourDigits(t: bytes, n: nat)
    requires n < 0x1_0000 && |t| >= 4
    ensures LowerHex(t[..4]) == Hex4(n) <==>
            && IsDigitOf(t[0], n / 0x1000) && IsDigitOf(t[1], n / 0x100 % 16)
            && IsDigitOf(t[2], n / 0x10 % 16) && IsDigitOf(t[3], n % 16)
  {
    LowerHexDigit(t[0], n / 0x1000);
    LowerHexDigit(t[1], n / 0x100 % 16);
    LowerHexDigit(t[2], n / 0x10 % 16);
    LowerHexDigit(t[3], n % 16);
    var lower := LowerHex(t[..4]);
    assert lower == Hex4(n) <==>
           lower[0] == Hex4(n)[0] && lower[1] == Hex4(n)[1] && lower[2] == Hex4(n)[2] && lower[3] == Hex4(n)[3];
    assert lower[0] == LowerHex([t[0]])[0] && lower[1] == LowerHex([t[1]])[0];
    assert lower[2] == LowerHex([t[2]])[0] && lower[3] == LowerHex([t[3]])[0];
  }

  lemma DigitsOf(a: nat, b: nat, c: nat, d: nat)
    requires a < 16 && b < 16 && c < 16 && d < 16
    ensures var n := ((a * 16 + b) * 16 + c) * 16 + d;
            n / 0x1000 == a && n / 0x100 % 16 == b && n / 0x10 % 16 == c && n % 16 == d
  {
  }

  lemma DigitsJoin(n: nat)
    ensures ((n / 0x1000 * 16 + n / 0x100 % 16) * 16 + n / 0x10 % 16) * 16 + n % 16 == n
  {
    ShiftDigit(n);
    assert n / 0x10 == n / 0x100 * 16 + n / 0x10 % 16;
    assert n / 0x100 == n / 0x1000 * 16 + n / 0x100 % 16;
  }

  lemma ShiftDigit(n: nat)
    ensures n / 0x100 == n / 0x10 / 16
    ensures n / 0x1000 == n / 0x100 / 16
  {
  }

  /**
   * The escapes accepted are exactly those of scalar values, in either case of the digits; in particular
   * an unpaired surrogate is rejected.
   */
  lemma EscapesAreScalars(t: bytes, cp: nat, u: bytes)
    ensures CodePoint(t) == Ok(cp, u) <==>
            IsScalar(cp) && (var k := |EscapeDigits(cp)|;
                             |t| >= k && u == t[k..] && LowerHex(t[..k]) == EscapeDigits(cp))
  {
    if IsScalar(cp) {
      if cp < 0x1_0000 {
        QuadHexExact(t, cp, u);
      } else {
        PairExact(t, cp, u);
      }
    }
  }

  lemma PairExact(t: bytes, cp: nat, u: bytes)
    requires 0x1_0000 <= cp < 0x11_0000
    ensures CodePoint(t) == Ok(cp, u) <==>
            |t| >= 10 && u == t[10..] && LowerHex(t[..10]) == EscapeDigits(cp)
  {
    hide QuadHex, CodePoint, LowerHex, Hex4;
    var high := 0xd800 + (cp - 0x1_0000) / 0x400;
    var low := 0xdc00 + (cp - 0x1_0000) % 0x400;
    PairIsTwoQuads(t, high, low, u);
    if |t| >= 10 {
      QuadHexExact(t, high, t[4..]);
      QuadHexExact(t[6..], low, t[10..]);
      assert t[4..][2..] == t[6..] && t[6..][4..] == t[10..];
      LowerEscape(t, high, low);
      assert LowerHex(t[..10]) == EscapeDigits(cp) <==>
             LowerHex(t[..4]) == Hex4(high) && t[4] == '\\' && t[5] == 'u' && LowerHex(t[6..][..4]) == Hex4(low);
    }
  }

  lemma LowerEscape(t: bytes, high: nat, low: nat)
    requires |t| >= 10 && high < 0x1_0000 && low < 0x1_0000
    ensures LowerHex(t[..10]) == Hex4(high) + "\\u" + Hex4(low) <==>
            LowerHex(t[..4]) == Hex4(high) && t[4] == '\\' && t[5] == 'u' && LowerHex(t[6..][..4]) == Hex4(low)
  {
    LowerHexParts(t[..10]);
    assert t[..10][..4] == t[..4] && t[..10][6..] == t[6..][..4];
    SplitTen(LowerHex(t[..10]), Hex4(high), Hex4(low));
  }

  lemma LowerHexParts(t: bytes)
    requires |t| == 10
    ensures LowerHex(t)[..4] == LowerHex(t[..4]) && LowerHex(t)[6..] == LowerHex(t[6..])
    ensures LowerHex(t)[4] == '\\' && LowerHex(t)[5] == 'u' <==> t[4] == '\\' && t[5] == 'u'
  {
  }

  lemma SplitTen(t: bytes, a: bytes, b: bytes)
    requires |t| == 10 && |a| == 4 && |b| == 4
    ensures t == a + "\\u" + b <==> t[..4] == a && t[4] == '\\' && t[5] == 'u' && t[6..] == b
  {
    assert t == t[..4] + [t[4], t[5]] + t[6..];
    var joined := a + "\\u" + b;
    assert joined[..4] == a && joined[4] == '\\' && joined[5] == 'u' && joined[6..] == b;
  }

  lemma PairIsTwoQuads(t: bytes, high: nat, low: nat, u: bytes)
    requires 0xd800 <= high < 0xdc00 <= low < 0xe000
    ensures CodePoint(t) == Ok((high - 0xd800) * 0x400 + (low - 0xdc00) + 0x10000, u) <==>
            && |t| >= 10 && QuadHex(t) == Ok(high, t[4..]) && t[4] == '\\' && t[5] == 'u'
            && QuadHex(t[4..][2..]) == Ok(low, u) && u == t[10..]
  {
    var r := CodePoint(t);
    if r.Ok? {
      var first := QuadHex(t);
      assert first.rest == t[4..];
    }
  }

  // ---------- UTF-8 ----------

  predicate IsContinuation(c: byte) {
    0x80 <= c as int <= 0xbf
  }

  /** The first scalar value of a UTF-8 text and what follows it, by the syntax of section 4 of RFC 3629. */
  function DecodeUtf8(t: bytes): Option<(nat, bytes)> {
    if t == [] then None
    else
      var a := t[0] as int;
      if a <= 0x7f then Some((a, t[1..]))
      else if 0xc2 <= a <= 0xdf && |t| >= 2 && IsContinuation(t[1]) then
        Some(((a - 0xc0) * 0x40 + (t[1] as int - 0x80), t[2..]))
      else if 0xe0 <= a <= 0xef && |t| >= 3 && IsContinuation(t[1]) && IsContinuation(t[2])
              && (a == 0xe0 ==> 0xa0 <= t[1] as int) && (a == 0xed ==> t[1] as int <= 0x9f) then
        Some(((a - 0xe0) * 0x1000 + (t[1] as int - 0x80) * 0x40 + (t[2] as int - 0x80), t[3..]))
      else if 0xf0 <= a <= 0xf4 && |t| >= 4 && IsContinuation(t[1]) && IsContinuation(t[2]) && IsContinuation(t[3])
              && (a == 0xf0 ==> 0x90 <= t[1] as int) && (a == 0xf4 ==> t[1] as int <= 0x8f) then
        Some(((a - 0xf0) * 0x4_0000 + (t[1] as int - 0x80) * 0x1000
              + (t[2] as int - 0x80) * 0x40 + (t[3] as int - 0x80), t[4..]))
      else None
  }

  /** The bytes pushed for a scalar value are its UTF-8 encoding: decoding recovers it. */
  lemma Utf8Decodes(cp: nat, t: bytes)
    requires IsScalar(cp)
    ensures DecodeUtf8(Utf8(cp) + t) == Some((cp, t))
  {
    if cp < 0x80 {
      assert ([cp as char] + t)[1..] == t;
    } else if cp < 0x800 {
      TwoBytes(cp, t);
    } else if cp < 0x1_0000 {
      ThreeBytes(cp, t);
    } else {
      FourBytes(cp, t);
    }
  }

  lemma TwoBytes(cp: nat, t: bytes)
    requires 0x80 <= cp < 0x800
    ensures DecodeUtf8(Utf8(cp) + t) == Some((cp, t))
  {
    var e := Utf8(cp) + t;
    assert e[0] == (0xc0 + cp / 0x40) as char && e[1] == Continuation(cp) && e[2..] == t;
  }

  lemma ThreeBytes(cp: nat, t: bytes)
    requires 0x800 <= cp < 0x1_0000 && IsScalar(cp)
    ensures DecodeUtf8(Utf8(cp) + t) == Some((cp, t))
  {
    var (a, b, c) := (cp / 0x1000, cp / 0x40 % 0x40, cp % 0x40);
    assert cp / 0x1000 == cp / 0x40 / 0x40;
    assert cp == a * 0x1000 + b * 0x40 + c;
    ThreeBytesDecode(a, b, c, t);
    assert Utf8(cp) == [(0xe0 + a) as char, (0x80 + b) as char, (0x80 + c) as char];
  }

  lemma ThreeBytesDecode(a: nat, b: nat, c: nat, t: bytes)
    requires a < 0x10 && b < 0x40 && c < 0x40 && (a == 0 ==> b >= 0x20) && (a == 0xd ==> b < 0x20)
    ensures DecodeUtf8([(0xe0 + a) as char, (0x80 + b) as char, (0x80 + c) as char] + t)
         == Some((a * 0x1000 + b * 0x40 + c, t))
  {
    var e: bytes := [(0xe0 + a) as char, (0x80 + b) as char, (0x80 + c) as char] + t;
    assert e[3..] == t;
  }

  lemma FourBytes(cp: nat, t: bytes)
    requires 0x1_0000 <= cp < 0x11_0000
    ensures DecodeUtf8(Utf8(cp) + t) == Some((cp, t))
  {
    var (a, b, c, d) := (cp / 0x4_0000, cp / 0x1000 % 0x40, cp / 0x40 % 0x40, cp % 0x40);
    SextetsOf(cp);
    FourBytesDecode(a, b, c, d, t);
    assert Utf8(cp) == [(0xf0 + a) as char, (0x80 + b) as char, (0x80 + c) as char, (0x80 + d) as char];
  }

  lemma SextetsOf(cp: nat)
    requires 0x1_0000 <= cp < 0x11_0000
    ensures var (a, b, c, d) := (cp / 0x4_0000, cp / 0x1000 % 0x40, cp / 0x40 % 0x40, cp % 0x40);
            && cp == a * 0x4_0000 + b * 0x1000 + c * 0x40 + d
            && a <= 4 && (a == 0 ==> b >= 0x10) && (a == 4 ==> b < 0x10)
  {
    assert cp / 0x1000 == cp / 0x40 / 0x40;
    assert cp / 0x4_0000 == cp / 0x1000 / 0x40;
  }

  lemma FourBytesDecode(a: nat, b: nat, c: nat, d: nat, t: bytes)
    requires a <= 4 && b < 0x40 && c < 0x40 && d < 0x40 && (a == 0 ==> b >= 0x10) && (a == 4 ==> b < 0x10)
    ensures DecodeUtf8([(0xf0 + a) as char, (0x80 + b) as char, (0x80 + c) as char, (0x80 + d) as char] + t)
         == Some((a * 0x4_0000 + b * 0x1000 + c * 0x40 + d, t))
  {
    var e: bytes := [(0xf0 + a) as char, (0x80 + b) as char, (0x80 + c) as char, (0x80 + d) as char] + t;
    assert e[4..] == t;
  }

  /** An escape in a string literal contributes the UTF-8 bytes of its scalar value, from which it can be recovered. */
  lemma EscapeBecomesUtf8(cp: nat, t: bytes, out: bytes)
    requires IsScalar(cp)
    ensures StringTail("\\u" + EscapeDigits(cp) + t, out) == StringTail(t, out + Utf8(cp))
    ensures DecodeUtf8(Utf8(cp) + t) == Some((cp, t))
  {
    hide DecodeUtf8, CodePoint, Hex4, Utf8;
    var e := EscapeDigits(cp);
    DigitsAreLower(cp);
    EscapesAreScalars(e + t, cp, t) by {
      assert (e + t)[..|e|] == e && (e + t)[|e|..] == t;
    }
    OpensEscape(e + t);
    assert "\\u" + e + t == "\\u" + (e + t);
    Utf8Decodes(cp, t);
  }

  lemma DigitsAreLower(cp: nat)
    requires IsScalar(cp)
    ensures LowerHex(EscapeDigits(cp)) == EscapeDigits(cp)
  {
  }

  lemma OpensEscape(digits: bytes)
    ensures ("\\u" + digits)[0] == '\\' && ("\\u" + digits)[1] == 'u' && ("\\u" + digits)[2..] == digits
  {
  }
}

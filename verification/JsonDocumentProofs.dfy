/** The parser reads exactly the documents, and reads them as what they mean. */
module JsonDocumentProofs {
  import opened Bytes
  import opened JsonValue
  import opened JsonGrammar
  import opened JsonUnicode
  import opened JsonDocument
  import opened Sequences

  // ---------- white space ----------

  lemma {:induction false} SkipBlank(ws: bytes, t: bytes)
    requires Blank(ws)
    ensures SkipSpace(ws + t) == SkipSpace(t)
  {
    if ws == [] {
      assert ws + t == t;
    } else {
      assert (ws + t)[0] == ws[0] && (ws + t)[1..] == ws[1..] + t;
      SkipBlank(ws[1..], t);
    }
  }

  /** What is skipped is blank. */
  lemma {:induction false} BlankSkipped(t: bytes) returns (ws: bytes)
    ensures Blank(ws) && t == ws + SkipSpace(t)
  {
    if t != [] && IsSpace(t[0]) {
      var more := BlankSkipped(t[1..]);
      ws := [t[0]] + more;
    } else {
      ws := [];
    }
  }

  // ---------- strings ----------

  /** One character of a string, as it is written, adds what it means. */
  lemma PieceRead(p: Piece, t: bytes, out: bytes)
    requires LegalPiece(p)
    ensures StringTail(PieceText(p) + t, out) == StringTail(t, out + PieceMeaning(p))
  {
    hide CodePoint, LowerHex, EscapeDigits, Utf8;
    var text := PieceText(p) + t;
    match p {
      case Plain(c) => assert text[0] == c && text[1..] == t;
      case Short(letter) => assert text[0] == '\\' && text[1] == letter && text[2..] == t;
      case Unicode(cp, digits) => EscapeRead(cp, digits, t, out);
    }
  }

  lemma EscapeRead(cp: nat, digits: bytes, t: bytes, out: bytes)
    requires IsScalar(cp) && LowerHex(digits) == EscapeDigits(cp)
    ensures StringTail(("\\u" + digits) + t, out) == StringTail(t, out + Utf8(cp))
  {
    hide CodePoint, LowerHex, EscapeDigits, Utf8;
    var text := ("\\u" + digits) + t;
    assert text[0] == '\\' && text[1] == 'u' && text[2..] == digits + t;
    assert (digits + t)[..|digits|] == digits && (digits + t)[|digits|..] == t;
    EscapesAreScalars(digits + t, cp, t);
  }

  lemma {:induction false} PiecesRead(pieces: seq<Piece>, t: bytes, out: bytes)
    requires LegalPieces(pieces)
    ensures StringTail(PiecesWritten(pieces, t), out) == Ok(out + PiecesMeaning(pieces), t)
  {
    hide StringTail, PieceText, PieceMeaning, LegalPiece;
    if pieces == [] {
      QuoteRead(t, out);
    } else {
      var rest := PiecesWritten(pieces[1..], t);
      PieceRead(pieces[0], rest, out);
      PiecesRead(pieces[1..], t, out + PieceMeaning(pieces[0]));
      Regroup(out, PieceMeaning(pieces[0]), PiecesMeaning(pieces[1..]));
    }
  }

  lemma QuoteRead(t: bytes, out: bytes)
    ensures StringTail("\"" + t, out) == Ok(out + [], t)
  {
    assert ("\"" + t)[1..] == t && out + [] == out;
  }

  /** What was read of a string is made of pieces. */
  lemma {:induction false} PiecesFound(t: bytes, out: bytes) returns (pieces: seq<Piece>)
    requires StringTail(t, out).Ok?
    ensures LegalPieces(pieces) && t == PiecesWritten(pieces, StringTail(t, out).rest)
    ensures StringTail(t, out).value == out + PiecesMeaning(pieces)
    decreases |t|
  {
    if t[0] == '"' {
      pieces := [];
      assert t == "\"" + t[1..];
    } else {
      var p, u := PieceFound(t, out);
      PieceRead(p, u, out);
      var more := PiecesFound(u, out + PieceMeaning(p));
      pieces := [p] + more;
      assert pieces[1..] == more;
      Regroup(out, PieceMeaning(p), PiecesMeaning(more));
    }
  }

  lemma PieceFound(t: bytes, out: bytes) returns (p: Piece, u: bytes)
    requires StringTail(t, out).Ok? && t[0] != '"'
    ensures LegalPiece(p) && t == PieceText(p) + u && |u| < |t|
  {
    hide LowerHex, EscapeDigits;
    if t[0] != '\\' {
      p, u := Plain(t[0]), t[1..];
    } else if IsSimpleEscape(t[1]) {
      p, u := Short(t[1]), t[2..];
      assert t == "\\" + [t[1]] + t[2..];
    } else {
      var read := CodePoint(t[2..]);
      var cp := read.value;
      EscapesAreScalars(t[2..], cp, read.rest);
      var digits := t[2..][..|EscapeDigits(cp)|];
      p, u := Unicode(cp, digits), read.rest;
      assert t == ("\\u" + digits) + u;
    }
  }

  // ---------- numbers ----------

  lemma {:induction false} NumeralAppend(above: nat, digits: bytes, c: byte)
    requires Digits(digits) && '0' <= c <= '9'
    ensures Digits(digits + [c])
    ensures Numeral(above, digits + [c]) == 10 * Numeral(above, digits) + (c as int - '0' as int)
    decreases |digits|
  {
    if digits == [] {
      assert [c][1..] == [] && [] + [c] == [c];
    } else {
      var next: nat := 10 * above + (digits[0] as int - '0' as int);
      assert (digits + [c])[1..] == digits[1..] + [c];
      NumeralAppend(next, digits[1..], c);
    }
  }

  lemma {:induction false} NumeralIsNatValue(digits: bytes)
    requires Digits(digits)
    ensures AllDigits(digits) && Numeral(0, digits) == NatValue(digits)
  {
    if digits != [] {
      var n := |digits| - 1;
      NumeralIsNatValue(digits[..n]);
      assert digits == digits[..n] + [digits[n]];
      NumeralAppend(0, digits[..n], digits[n]);
    }
  }

  predicate NumberChars(t: bytes) {
    forall i | 0 <= i < |t| :: IsNumberChar(t[i])
  }

  lemma {:induction false} NumberTaken(text: bytes, t: bytes)
    requires NumberChars(text) && !GoesOn(t)
    ensures NumberLength(text + t) == |text|
  {
    if text == [] {
      assert text + t == t;
    } else {
      assert (text + t)[1..] == text[1..] + t;
      NumberTaken(text[1..], t);
    }
  }

  lemma {:induction false} LengthTakesNumber(t: bytes)
    ensures NumberChars(t[..NumberLength(t)]) && !GoesOn(t[NumberLength(t)..])
  {
    if t != [] && IsNumberChar(t[0]) {
      LengthTakesNumber(t[1..]);
      var n := NumberLength(t[1..]);
      assert t[..n + 1] == [t[0]] + t[1..][..n] && t[n + 1..] == t[1..][n..];
    }
  }

  /** A literal is read as an integer exactly when it is an optional minus and digits in the range of 64 bits. */
  lemma IntegerRead(minus: bool, digits: bytes)
    requires digits != [] && Digits(digits)
    ensures var text := NumberText(minus, digits);
            && NumberChars(text) && IsIntLiteral(text) && IntValue(text) == NumberMeaning(minus, digits)
            && (text[0] == '-' || IsDigit(text[0]))
  {
    NumeralIsNatValue(digits);
    assert DropSign(NumberText(minus, digits)) == digits;
  }

  lemma IntegerFound(text: bytes) returns (minus: bool, digits: bytes)
    requires text != [] && (text[0] == '-' || IsDigit(text[0]))
    ensures text == NumberText(minus, digits) && digits == DropSign(text)
    ensures IsIntLiteral(text) <==> digits != [] && Digits(digits)
    ensures IsIntLiteral(text) ==> IntValue(text) == NumberMeaning(minus, digits)
  {
    minus, digits := text[0] == '-', DropSign(text);
    if IsIntLiteral(text) {
      IntegerRead(minus, digits);
    }
  }

  lemma {:induction false} DigitRunOf(digits: bytes, t: bytes)
    requires Digits(digits) && (t != [] ==> !IsDigit(t[0]))
    ensures DigitRun(digits + t) == |digits|
  {
    if digits == [] {
      assert digits + t == t;
    } else {
      assert (digits + t)[1..] == digits[1..] + t;
      DigitRunOf(digits[1..], t);
    }
  }

  lemma {:induction false} DigitRunTakes(t: bytes)
    ensures Digits(t[..DigitRun(t)]) && (DigitRun(t) < |t| ==> !IsDigit(t[DigitRun(t)]))
  {
    if t != [] && IsDigit(t[0]) {
      DigitRunTakes(t[1..]);
      var n := DigitRun(t[1..]);
      assert t[..n + 1] == [t[0]] + t[1..][..n];
    }
  }

  lemma ExponentExactly(t: bytes)
    ensures LegalExponent(t) <==>
            t == [] || ((t[0] == 'e' || t[0] == 'E') && DropSign(t[1..]) != [] && AllDigits(DropSign(t[1..])))
  {
    if |t| > 1 {
      assert t[1..][0] == t[1] && t[1..][1..] == t[2..];
    }
  }

  lemma FractionRun(fraction: bytes, exponent: bytes)
    requires LegalFraction(fraction) && LegalExponent(exponent)
    ensures var v := fraction + exponent;
            && (v != [] ==> !IsDigit(v[0])) && (StartsWith(v, '.') <==> fraction != [])
            && (fraction != [] ==> DigitRun(v[1..]) == |fraction| - 1 && v[|fraction|..] == exponent)
            && (fraction == [] ==> v == exponent)
  {
    var v := fraction + exponent;
    if fraction != [] {
      assert v[1..] == fraction[1..] + exponent;
      DigitRunOf(fraction[1..], exponent);
    }
  }

  lemma RealRead(text: bytes, whole: bytes, fraction: bytes, exponent: bytes)
    requires DropSign(text) == whole + (fraction + exponent)
    requires Digits(whole) && LegalFraction(fraction) && LegalExponent(exponent) && (whole != [] || |fraction| > 1)
    ensures IsRealLiteral(text)
  {
    FractionRun(fraction, exponent);
    DigitRunOf(whole, fraction + exponent);
    ExponentExactly(exponent);
    assert DropSign(text)[|whole|..] == fraction + exponent;
  }

  lemma RealFound(text: bytes) returns (whole: bytes, fraction: bytes, exponent: bytes)
    requires IsRealLiteral(text)
    ensures DropSign(text) == whole + (fraction + exponent)
    ensures Digits(whole) && LegalFraction(fraction) && LegalExponent(exponent) && (whole != [] || |fraction| > 1)
  {
    hide *;
    var u := DropSign(text);
    var v := u[DigitRun(u)..];
    RealParts(text, u, v);
    DigitRunTakes(u);
    whole := u[..DigitRun(u)];
    fraction, exponent := PointTaken(v);
    SplitAt(u, DigitRun(u));
  }

  lemma SplitAt(t: bytes, n: nat)
    requires n <= |t|
    ensures t == t[..n] + t[n..]
  {
  }

  lemma RealParts(text: bytes, u: bytes, v: bytes)
    requires IsRealLiteral(text) && u == DropSign(text) && v == u[DigitRun(u)..]
    ensures LegalExponent(if StartsWith(v, '.') then v[1 + DigitRun(v[1..])..] else v)
    ensures DigitRun(u) > 0 || (StartsWith(v, '.') && DigitRun(v[1..]) > 0)
  {
    hide DigitRun, LegalExponent;
    ExponentExactly(if StartsWith(v, '.') then v[1 + DigitRun(v[1..])..] else v);
  }

  lemma PointTaken(v: bytes) returns (fraction: bytes, exponent: bytes)
    ensures v == fraction + exponent && LegalFraction(fraction)
    ensures |fraction| == if StartsWith(v, '.') then 1 + DigitRun(v[1..]) else 0
    ensures exponent == if StartsWith(v, '.') then v[1 + DigitRun(v[1..])..] else v
  {
    if StartsWith(v, '.') {
      var k := DigitRun(v[1..]);
      DigitRunTakes(v[1..]);
      fraction, exponent := v[..1 + k], v[1 + k..];
      assert fraction[1..] == v[1..][..k];
    } else {
      fraction, exponent := [], v;
    }
  }

  lemma DoubleChars(d: Document)
    requires d.Double? && Legal(d)
    ensures var text := DoubleText(d);
            && text != [] && NumberChars(text) && (text[0] == '-' || IsDigit(text[0]))
            && DropSign(text) == d.whole + (d.fraction + d.exponent)
  {
    FractionChars(d.fraction);
    ExponentChars(d.exponent);
    hide LegalFraction, LegalExponent, NumberMeaning, Numeral;
    RegroupNumber(d.minus, d.whole, d.fraction, d.exponent);
    NumberParts(d.minus, d.whole, d.fraction + d.exponent);
  }

  lemma NumberParts(minus: bool, whole: bytes, rest: bytes)
    requires Digits(whole) && NumberChars(rest) && (minus || whole != [])
    ensures var text := NumberText(minus, whole + rest);
            && text != [] && NumberChars(text) && (text[0] == '-' || IsDigit(text[0])) && DropSign(text) == whole + rest
  {
    assert NumberChars(whole + rest);
    if minus {
      assert ("-" + (whole + rest))[1..] == whole + rest;
    }
  }

  lemma FractionChars(t: bytes)
    requires LegalFraction(t)
    ensures NumberChars(t)
  {
    if t != [] {
      assert t == [t[0]] + t[1..];
    }
  }

  lemma ExponentChars(t: bytes)
    requires LegalExponent(t)
    ensures NumberChars(t)
  {
    if t != [] {
      var u := if t[1] == '+' || t[1] == '-' then t[2..] else t[1..];
      assert t == (if t[1] == '+' || t[1] == '-' then [t[0], t[1]] else [t[0]]) + u;
    }
  }

  /** A double is no integer literal, unless it is one that does not fit 64 bits. */
  lemma DoubleIsNoInteger(d: Document)
    requires d.Double? && Legal(d)
    ensures var text := DoubleText(d); IsIntLiteral(text) ==> !IsInt64(IntValue(text))
  {
    var text := DoubleText(d);
    DoubleChars(d);
    if d.fraction == [] && d.exponent == [] {
      assert d.whole + (d.fraction + d.exponent) == d.whole && text == NumberText(d.minus, d.whole);
      IntegerRead(d.minus, d.whole);
    } else {
      var c := (d.fraction + d.exponent)[0];
      assert DropSign(text)[|d.whole|] == c && !IsDigit(c);
    }
  }

  lemma DoubleRead(d: Document)
    requires d.Double? && Legal(d)
    ensures NumberValue(DoubleText(d)) == Ok(Real(DoubleText(d)), [])
  {
    DoubleChars(d);
    DoubleIsNoInteger(d);
    RealRead(DoubleText(d), d.whole, d.fraction, d.exponent);
  }

  lemma NumberFound(text: bytes) returns (d: Document)
    requires text != [] && (text[0] == '-' || IsDigit(text[0])) && NumberValue(text).Ok?
    ensures (d.Number? && text == NumberText(d.minus, d.digits)) || (d.Double? && text == DoubleText(d))
    ensures Legal(d) && Meaning(d) == NumberValue(text).value
  {
    var minus, digits := IntegerFound(text);
    if IsIntLiteral(text) && IsInt64(IntValue(text)) {
      d := Number(minus, digits);
    } else {
      d := DoubleFound(text, minus, digits);
    }
  }

  lemma DoubleFound(text: bytes, minus: bool, digits: bytes) returns (d: Document)
    requires IsRealLiteral(text) && (text[0] == '-' || IsDigit(text[0]))
    requires text == NumberText(minus, digits) && digits == DropSign(text)
    requires digits != [] && Digits(digits) ==> !IsInt64(NumberMeaning(minus, digits))
    ensures d.Double? && Legal(d) && text == DoubleText(d)
  {
    hide IsRealLiteral, LegalFraction, LegalExponent, NumberMeaning;
    var whole, fraction, exponent := RealFound(text);
    d := Double(minus, whole, fraction, exponent);
    RegroupNumber(minus, whole, fraction, exponent);
    if whole == [] {
      FractionStarts(fraction, exponent);
    }
    if fraction == [] && exponent == [] {
      assert digits == whole;
    }
  }

  lemma FractionStarts(fraction: bytes, exponent: bytes)
    requires LegalFraction(fraction) && |fraction| > 1
    ensures !IsDigit((fraction + exponent)[0])
  {
  }

  lemma RegroupNumber(minus: bool, whole: bytes, fraction: bytes, exponent: bytes)
    ensures NumberText(minus, whole + (fraction + exponent)) == NumberText(minus, whole) + fraction + exponent
  {
    assert whole + fraction + exponent == whole + (fraction + exponent);
    assert "-" + (whole + (fraction + exponent)) == "-" + whole + fraction + exponent;
  }

  // ---------- documents are read as what they mean ----------

  function Outcome(d: Document, depths: nat, t: bytes): Parsed<Value>
    requires Legal(d)
  {
    if DocumentFits(d, depths) then Ok(Meaning(d), t) else Fail
  }

  /** A document starts with neither white space nor a closing bracket. */
  lemma DocumentStarts(d: Document, t: bytes)
    requires Legal(d)
    ensures var text := Written(d, t); text != [] && text[0] != ']' && text[0] != '}' && SkipSpace(text) == text
  {
    if d.Number? {
      IntegerRead(d.minus, d.digits);
      TextStarts(NumberText(d.minus, d.digits), t);
    } else if d.Double? {
      DoubleChars(d);
      TextStarts(DoubleText(d), t);
    } else {
      hide Legal;
      OtherStarts(d, t);
    }
  }

  lemma OtherStarts(d: Document, t: bytes)
    requires !d.Number? && !d.Double?
    ensures Written(d, t) != [] && Written(d, t)[0] in "nft\"[{"
  {
    hide PiecesWritten, ItemsWritten, EntriesWritten;
  }

  lemma TextStarts(text: bytes, t: bytes)
    requires text != [] && (text[0] == '-' || IsDigit(text[0]))
    ensures text + t != [] && (text + t)[0] == text[0] && SkipSpace(text + t) == text + t
  {
  }

  lemma WordRead(word: bytes, t: bytes, depths: nat)
    requires word in {"null", "false", "true"}
    ensures ParseValue(word + t, depths)
         == Ok(if word == "null" then Value.Null else Bool(word == "true"), t)
  {
    var text := word + t;
    assert SkipSpace(text) == text;
    assert text[1..] == word[1..] + t && (word[1..] + t)[|word| - 1..] == t;
  }

  lemma NumberRead(text: bytes, t: bytes, depths: nat)
    requires text != [] && NumberChars(text) && (text[0] == '-' || IsDigit(text[0])) && !GoesOn(t)
    ensures ParseValue(text + t, depths)
         == if NumberValue(text).Ok? then Ok(NumberValue(text).value, t) else Fail
  {
    hide NumberValue;
    NumberTaken(text, t);
    var all := text + t;
    assert SkipSpace(all) == all;
    assert all[..|text|] == text && all[|text|..] == t;
  }

  lemma TextRead(pieces: seq<Piece>, t: bytes, depths: nat)
    requires LegalPieces(pieces)
    ensures ParseValue("\"" + PiecesWritten(pieces, t), depths) == Ok(Str(PiecesMeaning(pieces)), t)
  {
    var text := "\"" + PiecesWritten(pieces, t);
    assert SkipSpace(text) == text && text[1..] == PiecesWritten(pieces, t);
    PiecesRead(pieces, t, []);
    assert [] + PiecesMeaning(pieces) == PiecesMeaning(pieces);
  }

  /** What a value that starts with a bracket is read as. */
  lemma BracketRead(inside: bytes, depths: nat)
    ensures ParseValue("[" + inside, depths) == ArrayTail(inside, depths)
    ensures ParseValue("{" + inside, depths) == ObjectTail(inside, depths)
  {
    var square, curly := "[" + inside, "{" + inside;
    assert SkipSpace(square) == square && square[1..] == inside;
    assert SkipSpace(curly) == curly && curly[1..] == inside;
  }

  lemma EmptyRead(blank: bytes, t: bytes, depths: nat)
    requires Blank(blank)
    ensures ArrayTail(blank + ("]" + t), depths) == if depths > 0 then Ok(Array([]), t) else Fail
    ensures ObjectTail(blank + ("}" + t), depths) == if depths > 0 then Ok(Object([]), t) else Fail
  {
    SkipBlank(blank, "]" + t);
    SkipBlank(blank, "}" + t);
    assert ("]" + t)[1..] == t && ("}" + t)[1..] == t;
    assert SkipSpace("]" + t) == "]" + t && SkipSpace("}" + t) == "}" + t;
  }

  /** Leading white space does not matter to what reads a value, a key or a list. */
  lemma BlankIgnored(ws: bytes, t: bytes, depths: nat)
    requires Blank(ws)
    ensures ParseValue(ws + t, depths) == ParseValue(t, depths)
    ensures KeyTail(ws + t) == KeyTail(t)
  {
    SkipBlank(ws, t);
  }

  lemma AfterValue(d: Document, ws: bytes, t: bytes)
    requires t != [] && t[0] in ",]}" && Blank(ws)
    ensures MayPrecede(d, ws + t) && SkipSpace(ws + t) == t
  {
    SkipBlank(ws, t);
  }

  lemma {:induction false} DocumentRead(ws: bytes, d: Document, t: bytes, depths: nat)
    requires Blank(ws) && Legal(d) && MayPrecede(d, t)
    ensures ParseValue(ws + Written(d, t), depths) == Outcome(d, depths, t)
    decreases d, 1
  {
    hide ParseValue, ArrayTail, ObjectTail;
    BlankIgnored(ws, Written(d, t), depths);
    match d {
      case Null => WordRead("null", t, depths);
      case False => WordRead("false", t, depths);
      case True => WordRead("true", t, depths);
      case Number(minus, digits) =>
        IntegerRead(minus, digits);
        NumberRead(NumberText(minus, digits), t, depths);
      case Double(_, _, _, _) =>
        DoubleChars(d);
        DoubleRead(d);
        NumberRead(DoubleText(d), t, depths);
      case Text(pieces) => TextRead(pieces, t, depths);
      case List(_, _) => ListRead(d, t, depths);
      case Table(_, _) => TableRead(d, t, depths);
    }
  }

  lemma {:induction false} ListRead(d: Document, t: bytes, depths: nat)
    requires d.List? && Legal(d)
    ensures ParseValue(Written(d, t), depths) == Outcome(d, depths, t)
    decreases d, 0
  {
    hide ParseValue, ItemsTail, ItemsWritten, LegalItems;
    if d.items == [] {
      BracketRead(d.blank + ("]" + t), depths);
      EmptyRead(d.blank, t, depths);
      assert DocumentFits(d, depths) <==> depths > 0;
    } else {
      BracketRead(ItemsWritten(d.items, t), depths);
      ItemsStart(d.items, t, depths);
      if depths > 0 {
        ItemsRead(d.items, t, depths - 1, []);
        assert [] + ItemMeanings(d.items) == ItemMeanings(d.items);
      }
    }
  }

  lemma ItemsStart(items: seq<Item>, t: bytes, depths: nat)
    requires items != [] && LegalItems(items)
    ensures var text := ItemsWritten(items, t);
            ArrayTail(text, depths) == if depths > 0 then ItemsTail(text, depths - 1, []) else Fail
  {
    hide Written, ParseValue;
    var rest := if |items| == 1 then "]" + t else "," + ItemsWritten(items[1..], t);
    var first := Written(items[0].value, items[0].after + rest);
    SkipBlank(items[0].before, first);
    DocumentStarts(items[0].value, items[0].after + rest);
    if depths > 0 {
      BlankIgnored(items[0].before, first, depths - 1);
    }
  }

  lemma {:induction false} ItemsRead(items: seq<Item>, t: bytes, depths: nat, values: seq<Value>)
    requires items != [] && LegalItems(items)
    ensures ItemsTail(ItemsWritten(items, t), depths, values)
         == if ItemsFit(items, depths) then Ok(Array(values + ItemMeanings(items)), t) else Fail
    decreases items
  {
    hide ParseValue, Written, SkipSpace, MayPrecede, Meaning;
    var first := items[0];
    var rest := if |items| == 1 then "]" + t else "," + ItemsWritten(items[1..], t);
    AfterValue(first.value, first.after, rest);
    DocumentRead(first.before, first.value, first.after + rest, depths);
    if |items| == 1 {
      assert rest[1..] == t && ItemMeanings(items) == [Meaning(first.value)];
    } else {
      assert rest[1..] == ItemsWritten(items[1..], t);
      ItemsRead(items[1..], t, depths, values + [Meaning(first.value)]);
      Regroup(values, [Meaning(first.value)], ItemMeanings(items[1..]));
    }
  }

  lemma {:induction false} TableRead(d: Document, t: bytes, depths: nat)
    requires d.Table? && Legal(d)
    ensures ParseValue(Written(d, t), depths) == Outcome(d, depths, t)
    decreases d, 0
  {
    hide ParseValue, MembersTail, EntriesWritten, LegalEntries;
    if d.entries == [] {
      BracketRead(d.blank + ("}" + t), depths);
      EmptyRead(d.blank, t, depths);
      assert DocumentFits(d, depths) <==> depths > 0;
      assert Meaning(d) == Object([]);
    } else {
      BracketRead(EntriesWritten(d.entries, t), depths);
      EntriesStart(d.entries, t, depths);
      if depths > 0 {
        EntriesRead(d.entries, t, depths, []);
      }
    }
  }

  lemma EntriesStart(entries: seq<Entry>, t: bytes, depths: nat)
    requires entries != [] && LegalEntries(entries)
    ensures var text := EntriesWritten(entries, t);
            ObjectTail(text, depths) == if depths > 0 then MembersTail(text, depths, []) else Fail
  {
    hide Written, PiecesWritten, ParseValue;
    var e := entries[0];
    var text := EntriesWritten(entries, t);
    var first := text[|e.before|..];
    assert text == e.before + first && first[0] == '"';
    SkipBlank(e.before, first);
  }

  lemma KeyRead(e: Entry, value: bytes)
    requires Blank(e.before) && LegalPieces(e.key) && Blank(e.beforeColon)
    ensures KeyTail(e.before + ("\"" + PiecesWritten(e.key, e.beforeColon + (":" + value))))
         == Ok(PiecesMeaning(e.key), value)
  {
    hide StringTail, PiecesWritten, PiecesMeaning, LegalPieces;
    var colon := ":" + value;
    var rest := e.beforeColon + colon;
    var text := "\"" + PiecesWritten(e.key, rest);
    SkipBlank(e.before, text);
    assert SkipSpace(text) == text && text[1..] == PiecesWritten(e.key, rest);
    PiecesRead(e.key, rest, []);
    assert [] + PiecesMeaning(e.key) == PiecesMeaning(e.key);
    SkipBlank(e.beforeColon, colon);
    assert SkipSpace(colon) == colon && colon[1..] == value;
  }

  lemma {:induction false} EntriesRead(entries: seq<Entry>, t: bytes, depths: nat, members: seq<Member>)
    requires entries != [] && LegalEntries(entries)
    ensures MembersTail(EntriesWritten(entries, t), depths, members)
         == if EntriesFit(entries, depths) then Ok(Object(EntryMeanings(members, entries)), t) else Fail
    decreases entries
  {
    hide ParseValue, KeyTail, Written, SkipSpace, MayPrecede, Meaning, PiecesWritten, PiecesMeaning, Put;
    var e := entries[0];
    var rest := if |entries| == 1 then "}" + t else "," + EntriesWritten(entries[1..], t);
    AfterValue(e.value, e.after, rest);
    KeyRead(e, e.afterColon + Written(e.value, e.after + rest));
    DocumentRead(e.afterColon, e.value, e.after + rest, depths);
    if |entries| == 1 {
      assert rest[1..] == t;
    } else {
      assert rest[1..] == EntriesWritten(entries[1..], t);
      EntriesRead(entries[1..], t, depths, Put(members, PiecesMeaning(e.key), Meaning(e.value)));
    }
  }

  // ---------- nothing else is read ----------

  /** `t` is white space and the document, with `u` behind it. */
  predicate IsText(ws: bytes, d: Document, t: bytes, u: bytes) {
    Blank(ws) && Legal(d) && MayPrecede(d, u) && t == ws + Written(d, u)
  }

  lemma {:induction false} DocumentFound(t: bytes, depths: nat) returns (ws: bytes, d: Document)
    requires ParseValue(t, depths).Ok?
    ensures IsText(ws, d, t, ParseValue(t, depths).rest) && DocumentFits(d, depths)
    ensures Meaning(d) == ParseValue(t, depths).value
    decreases |t|, 0
  {
    hide Legal, Meaning, Written, WordTail, NumberAt, StringValueTail, ArrayTail, ObjectTail;
    ws := BlankSkipped(t);
    var u := SkipSpace(t);
    assert u == [u[0]] + u[1..];
    if IsWordStart(u[0]) {
      d := WordFound(u);
    } else if u[0] == '"' {
      d := TextFound(u[1..]);
    } else if u[0] == '[' {
      d := ListFound(u[1..], depths);
    } else if u[0] == '{' {
      d := TableFound(u[1..], depths);
    } else {
      d := NumberTextFound(u);
    }
  }

  lemma WordFound(u: bytes) returns (d: Document)
    requires u != [] && IsWordStart(u[0]) && WordTail(u[0], u[1..]).Ok?
    ensures d.Null? || d.False? || d.True?
    ensures u == Written(d, WordTail(u[0], u[1..]).rest)
    ensures Legal(d) && Meaning(d) == WordTail(u[0], u[1..]).value
  {
    d := if u[0] == 'n' then Document.Null else if u[0] == 'f' then False else True;
    var word := WordRest(u[0]).0;
    assert u == [u[0]] + (word + u[1..][|word|..]);
    Regroup([u[0]], word, u[1..][|word|..]);
    assert [u[0]] + word == if d.Null? then "null" else if d.False? then "false" else "true";
  }

  lemma TextFound(t: bytes) returns (d: Document)
    requires StringValueTail(t).Ok?
    ensures d.Text? && "\"" + t == Written(d, StringValueTail(t).rest)
    ensures Legal(d) && Meaning(d) == StringValueTail(t).value
  {
    hide StringTail, PiecesWritten, PiecesMeaning, LegalPieces;
    var pieces := PiecesFound(t, []);
    d := Text(pieces);
    assert [] + PiecesMeaning(pieces) == PiecesMeaning(pieces);
  }

  lemma NumberTextFound(u: bytes) returns (d: Document)
    requires u != [] && (IsDigit(u[0]) || u[0] == '-') && NumberAt(u).Ok?
    ensures (d.Number? || d.Double?) && u == Written(d, NumberAt(u).rest) && !GoesOn(NumberAt(u).rest)
    ensures Legal(d) && Meaning(d) == NumberAt(u).value
  {
    hide NumberValue, Legal, Meaning;
    var n := NumberLength(u);
    LengthTakesNumber(u);
    d := NumberFound(u[..n]);
    assert u == u[..n] + u[n..];
  }

  lemma EmptyDocuments(blank: bytes, depths: nat, t: bytes)
    requires Blank(blank) && depths > 0
    ensures var list := List(blank, []);
            && Legal(list) && DocumentFits(list, depths) && Meaning(list) == Array([])
            && Written(list, t) == "[" + (blank + ("]" + t))
    ensures var table := Table(blank, []);
            && Legal(table) && DocumentFits(table, depths) && Meaning(table) == Object([])
            && Written(table, t) == "{" + (blank + ("}" + t))
  {
    assert ItemsFit([], depths - 1) && EntriesFit([], depths);
  }

  lemma FullList(items: seq<Item>, depths: nat, t: bytes)
    requires items != [] && LegalItems(items) && depths > 0 && ItemsFit(items, depths - 1)
    ensures var list := List([], items);
            && Legal(list) && DocumentFits(list, depths) && Meaning(list) == Array([] + ItemMeanings(items))
            && Written(list, t) == "[" + ItemsWritten(items, t)
  {
    NothingBefore(ItemMeanings(items));
  }

  lemma FullTable(entries: seq<Entry>, depths: nat, t: bytes)
    requires entries != [] && LegalEntries(entries) && depths > 0 && EntriesFit(entries, depths)
    ensures var table := Table([], entries);
            && Legal(table) && DocumentFits(table, depths) && Meaning(table) == Object(EntryMeanings([], entries))
            && Written(table, t) == "{" + EntriesWritten(entries, t)
  {
  }

  lemma {:induction false} ListFound(t: bytes, depths: nat) returns (d: Document)
    requires ArrayTail(t, depths).Ok?
    ensures d.List? && "[" + t == Written(d, ArrayTail(t, depths).rest) && DocumentFits(d, depths)
    ensures Legal(d) && Meaning(d) == ArrayTail(t, depths).value
    decreases |t|, 3
  {
    hide SkipSpace, Blank, ItemsTail, ItemsWritten, Legal, Meaning, Written, DocumentFits;
    var blank := BlankSkipped(t);
    var u := SkipSpace(t);
    if StartsWith(u, ']') {
      d := List(blank, []);
      assert u == "]" + u[1..];
      EmptyDocuments(blank, depths, u[1..]);
    } else {
      d := FullListFound(t, blank, u, depths);
    }
  }

  lemma {:induction false} FullListFound(t: bytes, blank: bytes, u: bytes, depths: nat) returns (d: Document)
    requires Blank(blank) && t == blank + u && depths > 0 && ItemsTail(u, depths - 1, []).Ok?
    ensures d.List? && "[" + t == Written(d, ItemsTail(u, depths - 1, []).rest) && DocumentFits(d, depths)
    ensures Legal(d) && Meaning(d) == ItemsTail(u, depths - 1, []).value
    decreases |t|, 2
  {
    hide *;
    ListsIgnoreBlank(blank, u, depths - 1);
    var items := ItemsFound(t, depths - 1, []);
    d := List([], items);
    FullList(items, depths, ItemsTail(t, depths - 1, []).rest);
  }

  lemma ListsIgnoreBlank(ws: bytes, t: bytes, depths: nat)
    requires Blank(ws)
    ensures ItemsTail(ws + t, depths, []) == ItemsTail(t, depths, [])
    ensures MembersTail(ws + t, depths, []) == MembersTail(t, depths, [])
  {
    hide ParseValue, KeyTail;
    BlankIgnored(ws, t, depths);
  }

  lemma {:induction false} ItemsFound(t: bytes, depths: nat, values: seq<Value>) returns (items: seq<Item>)
    requires ItemsTail(t, depths, values).Ok?
    ensures items != [] && LegalItems(items) && ItemsFit(items, depths)
    ensures t == ItemsWritten(items, ItemsTail(t, depths, values).rest)
    ensures ItemsTail(t, depths, values).value == Array(values + ItemMeanings(items))
    decreases |t|, 1
  {
    hide ParseValue, Written, Meaning, SkipSpace;
    var read := ParseValue(t, depths);
    var ws, d := DocumentFound(t, depths);
    var after := BlankSkipped(read.rest);
    var w := SkipSpace(read.rest);
    var item := Item(ws, d, after);
    assert w == [w[0]] + w[1..];
    if StartsWith(w, ',') {
      var more := ItemsFound(w[1..], depths, values + [read.value]);
      items := [item] + more;
      assert items[1..] == more;
      Regroup(values, [read.value], ItemMeanings(more));
    } else {
      items := [item];
      assert ItemMeanings(items) == [read.value];
    }
  }

  lemma {:induction false} TableFound(t: bytes, depths: nat) returns (d: Document)
    requires ObjectTail(t, depths).Ok?
    ensures d.Table? && "{" + t == Written(d, ObjectTail(t, depths).rest) && DocumentFits(d, depths)
    ensures Legal(d) && Meaning(d) == ObjectTail(t, depths).value
    decreases |t|, 2
  {
    hide SkipSpace, Blank, MembersTail, EntriesWritten, Legal, Meaning, Written, DocumentFits;
    var blank := BlankSkipped(t);
    var u := SkipSpace(t);
    if StartsWith(u, '}') {
      d := Table(blank, []);
      assert u == "}" + u[1..];
      EmptyDocuments(blank, depths, u[1..]);
    } else {
      ListsIgnoreBlank(blank, u, depths);
      var entries := EntriesFound(t, depths, []);
      d := Table([], entries);
      FullTable(entries, depths, MembersTail(t, depths, []).rest);
    }
  }

  lemma KeyFound(t: bytes) returns (before: bytes, key: seq<Piece>, beforeColon: bytes)
    requires KeyTail(t).Ok?
    ensures Blank(before) && LegalPieces(key) && Blank(beforeColon) && KeyTail(t).value == PiecesMeaning(key)
    ensures t == before + ("\"" + PiecesWritten(key, beforeColon + (":" + KeyTail(t).rest)))
  {
    hide StringTail, PiecesWritten, PiecesMeaning, SkipSpace, LegalPieces;
    before := BlankSkipped(t);
    var u := SkipSpace(t);
    key := PiecesFound(u[1..], []);
    var v := StringTail(u[1..], []).rest;
    beforeColon := BlankSkipped(v);
    var w := SkipSpace(v);
    assert u == "\"" + u[1..] && w == ":" + w[1..];
    assert [] + PiecesMeaning(key) == PiecesMeaning(key);
  }

  lemma {:induction false} EntriesFound(t: bytes, depths: nat, members: seq<Member>) returns (entries: seq<Entry>)
    requires MembersTail(t, depths, members).Ok?
    ensures entries != [] && LegalEntries(entries) && EntriesFit(entries, depths)
    ensures t == EntriesWritten(entries, MembersTail(t, depths, members).rest)
    ensures MembersTail(t, depths, members).value == Object(EntryMeanings(members, entries))
    decreases |t|, 1
  {
    hide ParseValue, KeyTail, Written, Meaning, SkipSpace, Put, PiecesMeaning, PiecesWritten, LegalPieces;
    var before, key, beforeColon := KeyFound(t);
    var s := KeyTail(t).rest;
    var read := ParseValue(s, depths);
    var afterColon, d := DocumentFound(s, depths);
    var after := BlankSkipped(read.rest);
    var w := SkipSpace(read.rest);
    var e := Entry(before, key, beforeColon, afterColon, d, after);
    assert w == [w[0]] + w[1..];
    if StartsWith(w, ',') {
      var more := EntriesFound(w[1..], depths, Put(members, KeyTail(t).value, read.value));
      entries := [e] + more;
      assert entries[1..] == more;
    } else {
      entries := [e];
    }
  }

  // ---------- the budget ----------

  /** No object lists a key twice. */
  predicate KeysOnce(d: Document)
    requires Legal(d)
  {
    match d
    case List(_, items) =>
      assert LegalItems(items);
      forall i | 0 <= i < |items| :: KeysOnce(items[i].value)
    case Table(_, entries) =>
      DistinctKeys(entries) && forall i | 0 <= i < |entries| :: KeysOnce(entries[i].value)
    case _ => true
  }

  predicate DistinctKeys(entries: seq<Entry>)
    requires LegalEntries(entries)
  {
    forall i, j | 0 <= i < j < |entries| :: PiecesMeaning(entries[i].key) != PiecesMeaning(entries[j].key)
  }

  predicate MembersFit(members: seq<Member>, depths: nat) {
    forall m | m in members :: Fits(m.value, depths)
  }

  predicate IsKey(members: seq<Member>, key: bytes) {
    exists m :: m in members && m.key == key
  }

  /** A new key adds its member and keeps the others. */
  lemma PutNewMember(members: seq<Member>, key: bytes, value: Value)
    requires SortedKeys(members) && !IsKey(members, key)
    ensures SortedKeys(Put(members, key, value))
    ensures forall m :: m in Put(members, key, value) <==> m == Member(key, value) || m in members
  {
    PutUpdatesMap(members, key, value);
    hide SortedKeys, Put;
    forall m: Member ensures m in Put(members, key, value) <==> m == Member(key, value) || m in members {
      assert Has(Put(members, key, value), m.key, m.value) <==> m in Put(members, key, value);
      assert Has(members, m.key, m.value) <==> m in members;
    }
  }

  lemma PutNewKey(members: seq<Member>, key: bytes, value: Value, depths: nat)
    requires SortedKeys(members) && !IsKey(members, key)
    ensures var r := Put(members, key, value);
            && SortedKeys(r) && (MembersFit(r, depths) <==> MembersFit(members, depths) && Fits(value, depths))
            && forall k :: IsKey(r, k) ==> k == key || IsKey(members, k)
  {
    PutNewMember(members, key, value);
    hide SortedKeys, Put, Fits;
    assert Member(key, value) in Put(members, key, value);
  }

  lemma {:induction false} EntriesFitAsMeant(members: seq<Member>, entries: seq<Entry>, depths: nat)
    requires SortedKeys(members) && LegalEntries(entries) && DistinctKeys(entries)
    requires forall i | 0 <= i < |entries| :: !IsKey(members, PiecesMeaning(entries[i].key))
    requires forall i | 0 <= i < |entries| ::
               DocumentFits(entries[i].value, depths) == Fits(Meaning(entries[i].value), depths)
    ensures MembersFit(EntryMeanings(members, entries), depths)
       <==> MembersFit(members, depths) && EntriesFit(entries, depths)
    decreases |entries|
  {
    hide SortedKeys, Put, IsKey, MembersFit, PiecesMeaning, Meaning, DocumentFits, Fits;
    if entries != [] {
      var e := entries[0];
      var (key, value) := (PiecesMeaning(e.key), Meaning(e.value));
      PutNewKey(members, key, value, depths);
      EntriesFitAsMeant(Put(members, key, value), entries[1..], depths);
      assert EntriesFit(entries, depths) <==> DocumentFits(e.value, depths) && EntriesFit(entries[1..], depths);
    }
  }

  lemma {:induction false} ItemMeaning(items: seq<Item>, i: nat)
    requires LegalItems(items) && i < |items|
    ensures ItemMeanings(items)[i] == Meaning(items[i].value)
  {
    if i > 0 {
      ItemMeaning(items[1..], i - 1);
    }
  }

  /** Without repeated keys, the budget needed is that of the tree. */
  lemma {:induction false} FitsAsMeant(d: Document, depths: nat)
    requires Legal(d) && KeysOnce(d)
    ensures DocumentFits(d, depths) <==> Fits(Meaning(d), depths)
    decreases d, 1
  {
    match d {
      case List(_, items) => ListFitsAsMeant(d, depths);
      case Table(_, entries) =>
        forall i | 0 <= i < |entries|
          ensures DocumentFits(entries[i].value, depths) == Fits(Meaning(entries[i].value), depths)
        {
          FitsAsMeant(entries[i].value, depths);
        }
        EntriesFitAsMeant([], entries, depths);
        assert Fits(Meaning(d), depths) <==> depths > 0 && MembersFit(EntryMeanings([], entries), depths);
      case _ =>
    }
  }

  lemma {:induction false} ListFitsAsMeant(d: Document, depths: nat)
    requires d.List? && Legal(d) && KeysOnce(d)
    ensures DocumentFits(d, depths) <==> Fits(Meaning(d), depths)
    decreases d, 0
  {
    if depths > 0 {
      var items := d.items;
      forall i | 0 <= i < |items|
        ensures DocumentFits(items[i].value, depths - 1) == Fits(ItemMeanings(items)[i], depths - 1)
      {
        ItemMeaning(items, i);
        FitsAsMeant(items[i].value, depths - 1);
      }
    }
  }

  // ---------- main results ----------

  /**
   * The parser reads exactly the documents that fit its budget, each as what it means, and stops behind it. So any
   * character that is no white space and starts no value makes it fail, and so does every text without a document.
   */
  lemma ReadsExactlyDocuments(t: bytes, depths: nat, v: Value, u: bytes)
    ensures ParseValue(t, depths) == Ok(v, u) <==>
            exists ws, d :: IsText(ws, d, t, u) && DocumentFits(d, depths) && Meaning(d) == v
  {
    if ParseValue(t, depths) == Ok(v, u) {
      var ws, d := DocumentFound(t, depths);
      assert IsText(ws, d, t, u);
    }
    if ws, d :| IsText(ws, d, t, u) && DocumentFits(d, depths) && Meaning(d) == v {
      DocumentRead(ws, d, u, depths);
    }
  }

  /**
   * However a tree is written, with any white space around every token, any escapes, and the members of an object in
   * any order, the parser gives back the tree and the text behind it exactly when every array or object in it has
   * fewer than 100 arrays above it, and fails otherwise.
   */
  lemma EveryRenderingIsRead(ws: bytes, d: Document, t: bytes)
    requires Blank(ws) && Legal(d) && KeysOnce(d) && MayPrecede(d, t)
    ensures ParseValue(ws + Written(d, t), DEFAULT_MAX_DEPTHS)
         == if FewArrayAncestors(Meaning(d), 100) then Ok(Meaning(d), t) else Fail
  {
    hide Legal, Written, Meaning, DocumentFits, KeysOnce, ParseValue, Fits, FewArrayAncestors;
    DocumentRead(ws, d, t, 100);
    FitsAsMeant(d, 100);
    FitsMeansFewArrayAncestors(Meaning(d), 100);
  }

  /** Behind white space only the three names, a string, a bracket, a digit or a minus can start a value. */
  lemma ForeignStartFails(ws: bytes, t: bytes, depths: nat)
    requires Blank(ws)
    requires t == [] || !(t[0] in " \t\n\r" || t[0] in "nft\"[{-" || '0' <= t[0] <= '9')
    ensures ParseValue(ws + t, depths) == Fail
  {
    BlankIgnored(ws, t, depths);
    assert SkipSpace(t) == t;
  }
}

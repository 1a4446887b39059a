/** JSON texts as they are written, with every choice that a writer has, and what they mean. */
module JsonDocument {
  import opened Bytes
  import opened JsonValue
  import JsonGrammar
  import opened JsonUnicode

  /** One character of a string literal: itself, a short escape, or a `\u` escape with digits in either case. */
  datatype Piece = Plain(c: byte) | Short(letter: byte) | Unicode(cp: nat, digits: bytes)

  /**
   * A value, with the white space inside it. `Double` is a number that is not a 64-bit integer; its fraction includes
   * the point and its exponent the `e`.
   */
  datatype Document =
    | Null
    | False
    | True
    | Number(minus: bool, digits: bytes)
    | Double(minus: bool, whole: bytes, fraction: bytes, exponent: bytes)
    | Text(pieces: seq<Piece>)
    | List(blank: bytes, items: seq<Item>)
    | Table(blank: bytes, entries: seq<Entry>)

  datatype Item = Item(before: bytes, value: Document, after: bytes)

  datatype Entry = Entry(
    before: bytes, key: seq<Piece>, beforeColon: bytes, afterColon: bytes, value: Document, after: bytes)

  // ---------- which documents there are ----------

  /** White space: runs of the four characters of section 2 of RFC 8259. */
  predicate Blank(ws: bytes) {
    forall i | 0 <= i < |ws| :: ws[i] == ' ' || ws[i] == '\t' || ws[i] == '\n' || ws[i] == '\r'
  }

  /** A number goes on over these characters. */
  predicate GoesOn(t: bytes) {
    t != [] && ('0' <= t[0] <= '9' || t[0] == '+' || t[0] == '-' || t[0] == 'e' || t[0] == 'E' || t[0] == '.')
  }

  predicate Digits(t: bytes) {
    forall i | 0 <= i < |t| :: '0' <= t[i] <= '9'
  }

  /** The value of decimal digits behind the digits of `above`. */
  function Numeral(above: nat, digits: bytes): nat
    requires Digits(digits)
    decreases |digits|
  {
    if digits == [] then above else Numeral(10 * above + (digits[0] as int - '0' as int), digits[1..])
  }

  function NumberMeaning(minus: bool, digits: bytes): int
    requires Digits(digits)
  {
    var n: int := Numeral(0, digits);
    if minus then -n else n
  }

  predicate IsInt64(n: int) {
    -0x8000_0000_0000_0000 <= n <= 0x7fff_ffff_ffff_ffff
  }

  /** The point and any number of digits, or nothing. */
  predicate LegalFraction(t: bytes) {
    t == [] || (t[0] == '.' && Digits(t[1..]))
  }

  /** `e` in either case, perhaps a sign, and at least one digit, or nothing. */
  predicate LegalExponent(t: bytes) {
    t == [] || ((t[0] == 'e' || t[0] == 'E')
                && |t| > 1 && (if t[1] == '+' || t[1] == '-' then |t| > 2 && Digits(t[2..]) else Digits(t[1..])))
  }

  predicate LegalPiece(p: Piece) {
    match p
    case Plain(c) => c >= ' ' && c != '"' && c != '\\'
    case Short(letter) => letter in "\"\\/bfnrt"
    case Unicode(cp, digits) => IsScalar(cp) && LowerHex(digits) == EscapeDigits(cp)
  }

  predicate LegalPieces(pieces: seq<Piece>) {
    forall i | 0 <= i < |pieces| :: LegalPiece(pieces[i])
  }

  predicate Legal(d: Document) {
    match d
    case Number(minus, digits) =>
      digits != [] && Digits(digits) && IsInt64(NumberMeaning(minus, digits))
    case Double(minus, whole, fraction, exponent) =>
      && Digits(whole) && LegalFraction(fraction) && LegalExponent(exponent)
      && (whole != [] || (minus && |fraction| > 1))
      && (fraction == [] && exponent == [] ==> !IsInt64(NumberMeaning(minus, whole)))
    case Text(pieces) => LegalPieces(pieces)
    case List(blank, items) => Blank(blank) && LegalItems(items)
    case Table(blank, entries) => Blank(blank) && LegalEntries(entries)
    case _ => true
  }

  predicate LegalItems(items: seq<Item>) {
    forall i | 0 <= i < |items| :: Blank(items[i].before) && Legal(items[i].value) && Blank(items[i].after)
  }

  predicate LegalEntries(entries: seq<Entry>) {
    forall i | 0 <= i < |entries| ::
      BlankAround(entries[i]) && LegalPieces(entries[i].key) && Legal(entries[i].value)
  }

  predicate BlankAround(e: Entry) {
    Blank(e.before) && Blank(e.beforeColon) && Blank(e.afterColon) && Blank(e.after)
  }

  /** What may follow: behind a number nothing that would go on with it. */
  predicate MayPrecede(d: Document, t: bytes) {
    d.Number? || d.Double? ==> !GoesOn(t)
  }

  // ---------- how they are written ----------

  function PieceText(p: Piece): bytes {
    match p
    case Plain(c) => [c]
    case Short(letter) => "\\" + [letter]
    case Unicode(_, digits) => "\\u" + digits
  }

  /** The characters of a string, its closing quote, and `t`. */
  function PiecesWritten(pieces: seq<Piece>, t: bytes): bytes {
    if pieces == [] then "\"" + t else PieceText(pieces[0]) + PiecesWritten(pieces[1..], t)
  }

  function NumberText(minus: bool, digits: bytes): bytes {
    if minus then "-" + digits else digits
  }

  function DoubleText(d: Document): bytes
    requires d.Double?
  {
    NumberText(d.minus, d.whole) + d.fraction + d.exponent
  }

  /** The document followed by `t`. */
  function Written(d: Document, t: bytes): bytes
    decreases d
  {
    match d
    case Null => "null" + t
    case False => "false" + t
    case True => "true" + t
    case Number(minus, digits) => NumberText(minus, digits) + t
    case Double(_, _, _, _) => DoubleText(d) + t
    case Text(pieces) => "\"" + PiecesWritten(pieces, t)
    case List(blank, items) => "[" + if items == [] then blank + ("]" + t) else ItemsWritten(items, t)
    case Table(blank, entries) => "{" + if entries == [] then blank + ("}" + t) else EntriesWritten(entries, t)
  }

  function ItemsWritten(items: seq<Item>, t: bytes): bytes
    requires items != []
    decreases items
  {
    var rest := if |items| == 1 then "]" + t else "," + ItemsWritten(items[1..], t);
    items[0].before + Written(items[0].value, items[0].after + rest)
  }

  function EntriesWritten(entries: seq<Entry>, t: bytes): bytes
    requires entries != []
    decreases entries
  {
    var e := entries[0];
    var rest := if |entries| == 1 then "}" + t else "," + EntriesWritten(entries[1..], t);
    var value := e.afterColon + Written(e.value, e.after + rest);
    e.before + ("\"" + PiecesWritten(e.key, e.beforeColon + (":" + value)))
  }

  // ---------- what they mean ----------

  function PieceMeaning(p: Piece): bytes
    requires LegalPiece(p)
  {
    match p
    case Plain(c) => [c]
    case Short(letter) =>
      if letter == 'b' then ['\U{8}']
      else if letter == 'f' then ['\U{C}']
      else if letter == 'n' then ['\U{A}']
      else if letter == 'r' then ['\U{D}']
      else if letter == 't' then ['\U{9}']
      else [letter]
    case Unicode(cp, _) => JsonGrammar.Utf8(cp)
  }

  function PiecesMeaning(pieces: seq<Piece>): bytes
    requires LegalPieces(pieces)
  {
    if pieces == [] then [] else PieceMeaning(pieces[0]) + PiecesMeaning(pieces[1..])
  }

  function Meaning(d: Document): Value
    requires Legal(d)
    decreases d
  {
    match d
    case Null => Value.Null
    case False => Bool(false)
    case True => Bool(true)
    case Number(minus, digits) => Int(NumberMeaning(minus, digits))
    case Double(_, _, _, _) => Real(DoubleText(d))
    case Text(pieces) => Str(PiecesMeaning(pieces))
    case List(_, items) => Array(ItemMeanings(items))
    case Table(_, entries) => Object(EntryMeanings([], entries))
  }

  function ItemMeanings(items: seq<Item>): (values: seq<Value>)
    requires LegalItems(items)
    ensures |values| == |items|
    decreases items
  {
    if items == [] then [] else [Meaning(items[0].value)] + ItemMeanings(items[1..])
  }

  /** Entries are put in one after the other; the last one of a key stays. */
  function EntryMeanings(members: seq<Member>, entries: seq<Entry>): seq<Member>
    requires LegalEntries(entries)
    decreases entries
  {
    if entries == [] then members
    else
      var e := entries[0];
      EntryMeanings(Put(members, PiecesMeaning(e.key), Meaning(e.value)), entries[1..])
  }

  /** The budget of nested arrays, counted on what is written: also a value that a later entry replaces needs it. */
  predicate DocumentFits(d: Document, depths: nat) {
    match d
    case List(_, items) => depths > 0 && ItemsFit(items, depths - 1)
    case Table(_, entries) => depths > 0 && EntriesFit(entries, depths)
    case _ => true
  }

  predicate ItemsFit(items: seq<Item>, depths: nat) {
    forall i | 0 <= i < |items| :: DocumentFits(items[i].value, depths)
  }

  predicate EntriesFit(entries: seq<Entry>, depths: nat) {
    forall i | 0 <= i < |entries| :: DocumentFits(entries[i].value, depths)
  }
}

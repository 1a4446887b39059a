/** What picojson prints is a document, so parsing undoes printing. */
module JsonRoundTrip {
  import opened Bytes
  import opened JsonValue
  import opened JsonPrinter
  import opened JsonGrammar
  import opened JsonUnicode
  import JsonDocument
  import JsonDocumentProofs
  import opened Sequences

  type Document = JsonDocument.Document

  type Piece = JsonDocument.Piece

  // ---------- strings ----------

  function PieceOf(c: byte): Piece {
    var e := EscapeChar(c);
    if |e| == 1 then Piece.Plain(c) else if |e| == 2 then Piece.Short(e[1]) else Piece.Unicode(c as int, e[2..])
  }

  function PiecesOf(s: bytes): (r: seq<Piece>)
    ensures |r| == |s|
  {
    if s == [] then [] else [PieceOf(s[0])] + PiecesOf(s[1..])
  }

  /** The escape of a byte is a piece of a string that means this byte. */
  lemma EscapeIsPiece(c: byte)
    ensures JsonDocument.LegalPiece(PieceOf(c)) && JsonDocument.PieceText(PieceOf(c)) == EscapeChar(c)
    ensures JsonDocument.PieceMeaning(PieceOf(c)) == [c]
  {
    hide LowerHex, Hex4;
    var e := EscapeChar(c);
    if |e| > 2 {
      ControlDigits(c);
    } else if |e| == 2 {
      assert e == "\\" + [e[1]];
    }
  }

  lemma ControlDigits(c: byte)
    requires |EscapeChar(c)| > 2
    ensures c < '\U{80}' && var e := EscapeChar(c); e == "\\u" + e[2..] && e[2..] == Hex4(c as int) == LowerHex(e[2..])
  {
    var e := EscapeChar(c);
    assert e[2..] == ['0', '0', HexDigit(c as int / 16), HexDigit(c as int % 16)];
  }

  /**
   * Quote, backslash, slash and the control characters that have a short escape take it; the other control characters
   * and DEL are four lower-case hexadecimal digits; everything else is printed as it is.
   */
  lemma EscapeExactly(c: byte)
    ensures |EscapeChar(c)| == if c in "\"\\/\U{8}\U{C}\n\r\t" then 2 else if c < ' ' || c == '\U{7F}' then 6 else 1
    ensures |EscapeChar(c)| == 6 ==>
              EscapeChar(c) == "\\u00" + ["0123456789abcdef"[c as int / 16], "0123456789abcdef"[c as int % 16]]
  {
    if |EscapeChar(c)| == 6 {
      HexDigitExactly(c as int / 16);
      HexDigitExactly(c as int % 16);
    }
  }

  lemma HexDigitExactly(n: nat)
    requires n < 16
    ensures HexDigit(n) == "0123456789abcdef"[n]
  {
  }

  lemma {:induction false} StringIsPieces(s: bytes, t: bytes)
    ensures JsonDocument.LegalPieces(PiecesOf(s))
    ensures JsonDocument.PiecesWritten(PiecesOf(s), t) == EscapeAll(s) + ("\"" + t)
    ensures JsonDocument.PiecesMeaning(PiecesOf(s)) == s
  {
    hide PieceOf, EscapeChar, JsonDocument.PieceText, JsonDocument.PieceMeaning, JsonDocument.LegalPiece;
    if s == [] {
      assert [] + ("\"" + t) == "\"" + t;
    } else {
      EscapeIsPiece(s[0]);
      StringIsPieces(s[1..], t);
      assert PiecesOf(s)[1..] == PiecesOf(s[1..]);
      Regroup(EscapeChar(s[0]), EscapeAll(s[1..]), "\"" + t);
      assert s == [s[0]] + s[1..];
    }
  }

  /** Reading a printed string gives it back. */
  lemma StringRoundTrip(s: bytes, t: bytes, out: bytes)
    ensures StringTail(EscapeAll(s) + ("\"" + t), out) == Ok(out + s, t)
  {
    StringIsPieces(s, t);
    JsonDocumentProofs.PiecesRead(PiecesOf(s), t, out);
  }

  // ---------- numbers ----------

  lemma {:induction false} DecimalRoundTrip(n: nat)
    ensures var text := Decimal(n);
            text != [] && JsonDocument.Digits(text) && JsonDocument.Numeral(0, text) == n
  {
    if n < 10 {
      var text := Decimal(n);
      assert text[1..] == [];
      assert JsonDocument.Numeral(n, []) == n;
    } else {
      DecimalRoundTrip(n / 10);
      JsonDocumentProofs.NumeralAppend(0, Decimal(n / 10), ('0' as int + n % 10) as char);
    }
  }

  /** No digit is missing, none is superfluous, and the sign is a minus or nothing. */
  lemma IntTextExactly(i: int)
    ensures var digits := if i < 0 then IntText(i)[1..] else IntText(i);
            && (i < 0 ==> IntText(i)[0] == '-')
            && digits != [] && JsonDocument.Digits(digits) && JsonDocument.Numeral(0, digits) == Magnitude(i)
            && (digits[0] == '0' ==> digits == "0")
  {
    DecimalRoundTrip(Magnitude(i));
    FirstDigit(Magnitude(i));
    if i < 0 {
      assert IntText(i)[1..] == Decimal(-i);
    }
  }

  lemma {:induction false} FirstDigit(n: nat)
    ensures Decimal(n) != [] && (Decimal(n)[0] == '0' ==> Decimal(n) == "0" && n == 0)
  {
    if n >= 10 {
      FirstDigit(n / 10);
    }
  }

  // ---------- values ----------

  function Magnitude(i: int): nat {
    if i < 0 then -i else i
  }

  /** The document that is printed. */
  function Printed(v: Value, indent: int): Document
    requires RealFree(v) && indent >= -1
    decreases v, 0
  {
    match v
    case Null => Document.Null
    case Bool(b) => if b then Document.True else Document.False
    case Int(i) => Document.Number(i < 0, Decimal(Magnitude(i)))
    case Str(s) => Document.Text(PiecesOf(s))
    case Array(items) => Document.List([], PrintedItems(items, 0, Inner(indent), Tail(indent, false)))
    case Object(members) => Document.Table([], PrintedMembers(members, 0, Inner(indent), Tail(indent, false)))
  }

  function PrintedItems(items: seq<Value>, i: nat, indent: int, close: bytes): (r: seq<JsonDocument.Item>)
    requires forall k | 0 <= k < |items| :: RealFree(items[k])
    requires indent >= -1 && i <= |items|
    ensures |r| == |items| - i
    decreases items, |items| - i
  {
    if i == |items| then []
    else
      [JsonDocument.Item(Lead(indent), Printed(items[i], indent), if i + 1 == |items| then close else [])]
      + PrintedItems(items, i + 1, indent, close)
  }

  function PrintedMembers(members: seq<Member>, i: nat, indent: int, close: bytes): (r: seq<JsonDocument.Entry>)
    requires forall k | 0 <= k < |members| :: RealFree(members[k].value)
    requires indent >= -1 && i <= |members|
    ensures |r| == |members| - i
    decreases members, |members| - i
  {
    if i == |members| then []
    else
      var value := Printed(members[i].value, indent);
      [JsonDocument.Entry(
         Lead(indent), PiecesOf(members[i].key), [], if indent == -1 then [] else " ", value,
         if i + 1 == |members| then close else [])]
      + PrintedMembers(members, i + 1, indent, close)
  }

  // ---------- the text is that of the document ----------

  lemma {:induction false} BodyIsDocument(v: Value, indent: int, t: bytes)
    requires RealFree(v) && indent >= -1
    ensures Body(v, indent) + t == JsonDocument.Written(Printed(v, indent), t)
    decreases v, 1
  {
    hide Items, Members, PrintedItems, PrintedMembers, SerializedStr, PiecesOf, Decimal;
    match v {
      case Null =>
      case Bool(_) =>
      case Int(_) =>
      case Str(s) => TextIsDocument(s, t);
      case Array(_) => ArrayIsDocument(v, indent, t);
      case Object(_) => ObjectIsDocument(v, indent, t);
    }
  }

  lemma TextIsDocument(s: bytes, t: bytes)
    ensures SerializedStr(s) + t == "\"" + JsonDocument.PiecesWritten(PiecesOf(s), t)
  {
    StringIsPieces(s, t);
    assert SerializedStr(s) + t == "\"" + (EscapeAll(s) + ("\"" + t));
  }

  lemma {:induction false} ArrayIsDocument(v: Value, indent: int, t: bytes)
    requires v.Array? && RealFree(v) && indent >= -1
    ensures Body(v, indent) + t == JsonDocument.Written(Printed(v, indent), t)
    decreases v, 0
  {
    hide Items, PrintedItems, Lead, JsonDocument.ItemsWritten;
    Bracketed("[", Items(v.items, 0, Inner(indent)), Tail(indent, v.items == []), "]", t);
    if v.items == [] {
      ItemsEnd(v.items, Inner(indent), [] + ("]" + t));
    } else {
      ItemsAreWritten(v.items, 0, Inner(indent), Tail(indent, false), t);
    }
  }

  lemma {:induction false} ObjectIsDocument(v: Value, indent: int, t: bytes)
    requires v.Object? && RealFree(v) && indent >= -1
    ensures Body(v, indent) + t == JsonDocument.Written(Printed(v, indent), t)
    decreases v, 0
  {
    hide Members, PrintedMembers, Lead, JsonDocument.EntriesWritten;
    Bracketed("{", Members(v.members, 0, Inner(indent)), Tail(indent, v.members == []), "}", t);
    if v.members == [] {
      MembersEnd(v.members, Inner(indent), [] + ("}" + t));
    } else {
      MembersAreWritten(v.members, 0, Inner(indent), Tail(indent, false), t);
    }
  }

  lemma Bracketed(open: bytes, a: bytes, b: bytes, close: bytes, t: bytes)
    ensures (open + a + b + close) + t == open + (a + (b + (close + t)))
  {
    MemberSplit(open, a, b, close, t);
  }

  lemma ItemsSplit(items: seq<Value>, i: nat, indent: int, t: bytes)
    requires i < |items| && indent >= -1 && forall k | 0 <= k < |items| :: RealFree(items[k])
    ensures Items(items, i, indent) + t
         == Comma(i) + (Lead(indent) + (Serialized(items[i], indent) + (Items(items, i + 1, indent) + t)))
  {
    var value := Serialized(items[i], indent);
    var rest := Items(items, i + 1, indent);
    Regroup(ItemText(items[i], i, indent), rest, t);
    Regroup(Comma(i) + Lead(indent), value, rest + t);
    Regroup(Comma(i), Lead(indent), value + (rest + t));
  }

  lemma MembersSplit(members: seq<Member>, i: nat, indent: int, t: bytes)
    requires i < |members| && indent >= -1 && forall k | 0 <= k < |members| :: RealFree(members[k].value)
    ensures var (key, value) := (members[i].key, members[i].value);
            Members(members, i, indent) + t
            == Comma(i)
               + (Lead(indent)
                  + (KeyText(key, indent) + (Serialized(value, indent) + (Members(members, i + 1, indent) + t))))
  {
    var rest := Members(members, i + 1, indent);
    var key := KeyText(members[i].key, indent);
    var value := Serialized(members[i].value, indent);
    Regroup(MemberText(members[i], i, indent), rest, t);
    MemberSplit(Comma(i), Lead(indent), key, value, rest + t);
  }

  lemma MemberSplit(a: bytes, b: bytes, c: bytes, d: bytes, e: bytes)
    ensures (a + b + c + d) + e == a + (b + (c + (d + e)))
  {
    Regroup(a + b + c, d, e);
    Regroup(a + b, c, d + e);
    Regroup(a, b, c + (d + e));
  }

  lemma PrintedInside(v: Value, indent: int)
    requires RealFree(v) && indent >= -1 && indent != 0
    ensures Serialized(v, indent) == Body(v, indent)
  {
  }

  lemma ItemsEnd(items: seq<Value>, indent: int, t: bytes)
    requires indent >= -1 && forall k | 0 <= k < |items| :: RealFree(items[k])
    ensures Items(items, |items|, indent) + t == t
  {
  }

  lemma MembersEnd(members: seq<Member>, indent: int, t: bytes)
    requires indent >= -1 && forall k | 0 <= k < |members| :: RealFree(members[k].value)
    ensures Members(members, |members|, indent) + t == t
  {
  }

  lemma {:induction false} ItemsAreWritten(items: seq<Value>, i: nat, indent: int, close: bytes, t: bytes)
    requires i < |items| && indent >= -1 && indent != 0 && forall k | 0 <= k < |items| :: RealFree(items[k])
    ensures Items(items, i, indent) + (close + ("]" + t))
         == Comma(i) + JsonDocument.ItemsWritten(PrintedItems(items, i, indent, close), t)
    decreases items, |items| - i
  {
    hide Items, Body, Serialized, Printed, PrintedItems, Lead, JsonDocument.Written, JsonDocument.ItemsWritten;
    PrintedInside(items[i], indent);
    ItemsSplit(items, i, indent, close + ("]" + t));
    BodyIsDocument(items[i], indent, Items(items, i + 1, indent) + (close + ("]" + t)));
    FirstItemWritten(items, i, indent, close, t);
    if i + 1 < |items| {
      ItemsAreWritten(items, i + 1, indent, close, t);
    } else {
      ItemsEnd(items, indent, close + ("]" + t));
    }
  }

  lemma FirstItemWritten(items: seq<Value>, i: nat, indent: int, close: bytes, t: bytes)
    requires i < |items| && indent >= -1 && forall k | 0 <= k < |items| :: RealFree(items[k])
    ensures JsonDocument.ItemsWritten(PrintedItems(items, i, indent, close), t)
         == Lead(indent)
            + JsonDocument.Written(
                Printed(items[i], indent),
                if i + 1 == |items| then close + ("]" + t)
                else "," + JsonDocument.ItemsWritten(PrintedItems(items, i + 1, indent, close), t))
  {
    hide Printed, Lead, JsonDocument.Written;
    var printed := PrintedItems(items, i, indent, close);
    assert printed[1..] == PrintedItems(items, i + 1, indent, close);
    if i + 1 < |items| {
      var rest := "," + JsonDocument.ItemsWritten(printed[1..], t);
      assert [] + rest == rest;
    }
  }

  lemma {:induction false} MembersAreWritten(members: seq<Member>, i: nat, indent: int, close: bytes, t: bytes)
    requires i < |members| && indent >= -1 && indent != 0
    requires forall k | 0 <= k < |members| :: RealFree(members[k].value)
    ensures Members(members, i, indent) + (close + ("}" + t))
         == Comma(i) + JsonDocument.EntriesWritten(PrintedMembers(members, i, indent, close), t)
    decreases members, |members| - i
  {
    hide Members, Body, Serialized, Printed, PrintedMembers, Lead, KeyText, PiecesOf;
    hide JsonDocument.Written, JsonDocument.EntriesWritten, JsonDocument.PiecesWritten;
    PrintedInside(members[i].value, indent);
    MembersSplit(members, i, indent, close + ("}" + t));
    BodyIsDocument(members[i].value, indent, Members(members, i + 1, indent) + (close + ("}" + t)));
    FirstEntryWritten(members, i, indent, close, t);
    if i + 1 < |members| {
      MembersAreWritten(members, i + 1, indent, close, t);
    } else {
      MembersEnd(members, indent, close + ("}" + t));
    }
  }

  lemma FirstEntryWritten(members: seq<Member>, i: nat, indent: int, close: bytes, t: bytes)
    requires i < |members| && indent >= -1 && forall k | 0 <= k < |members| :: RealFree(members[k].value)
    ensures JsonDocument.EntriesWritten(PrintedMembers(members, i, indent, close), t)
         == Lead(indent)
            + (KeyText(members[i].key, indent)
               + JsonDocument.Written(
                   Printed(members[i].value, indent),
                   if i + 1 == |members| then close + ("}" + t)
                   else "," + JsonDocument.EntriesWritten(PrintedMembers(members, i + 1, indent, close), t)))
  {
    hide Printed, Lead, KeyText, PiecesOf, JsonDocument.Written, JsonDocument.PiecesWritten;
    var printed := PrintedMembers(members, i, indent, close);
    assert printed[1..] == PrintedMembers(members, i + 1, indent, close);
    var rest := if i + 1 == |members| then "}" + t else "," + JsonDocument.EntriesWritten(printed[1..], t);
    assert [] + rest == rest;
    KeyIsWritten(members[i].key, indent, JsonDocument.Written(printed[0].value, printed[0].after + rest));
  }

  lemma KeyIsWritten(key: bytes, indent: int, t: bytes)
    ensures var value := (if indent == -1 then [] else " ") + t;
            KeyText(key, indent) + t
            == "\"" + JsonDocument.PiecesWritten(PiecesOf(key), [] + (":" + value))
  {
    hide EscapeAll, PiecesOf, JsonDocument.PiecesWritten, JsonDocument.PiecesMeaning, JsonDocument.LegalPieces;
    var gap: bytes := if indent == -1 then [] else " ";
    StringIsPieces(key, [] + (":" + (gap + t)));
    RegroupKey(EscapeAll(key), gap, t);
  }

  lemma RegroupKey(key: bytes, gap: bytes, t: bytes)
    ensures "\"" + key + "\"" + (":" + gap) + t == "\"" + (key + ("\"" + ([] + (":" + (gap + t)))))
    ensures "\"" + key + "\"" + ":" + gap + t == "\"" + (key + ("\"" + ([] + (":" + (gap + t)))))
  {
  }

  // ---------- the document means the tree ----------

  lemma LeadIsBlank(indent: int)
    requires indent >= -1
    ensures JsonDocument.Blank(Lead(indent))
  {
  }

  lemma {:induction false} PrintedMeans(v: Value, indent: int)
    requires RealFree(v) && WellFormed(v) && indent >= -1
    ensures var d := Printed(v, indent);
            JsonDocument.Legal(d) && JsonDocument.Meaning(d) == v && JsonDocumentProofs.KeysOnce(d)
    decreases v, 1
  {
    match v {
      case Null =>
      case Bool(_) =>
      case Int(i) => DecimalRoundTrip(Magnitude(i));
      case Str(s) => StringIsPieces(s, []);
      case Array(items) =>
        LeadIsBlank(indent);
        ItemsMean(items, 0, Inner(indent), Tail(indent, false));
      case Object(members) =>
        LeadIsBlank(indent);
        PrintedEntries(members, 0, Inner(indent), Tail(indent, false));
        assert members[0..] == members && members[..0] == [];
        EntriesAreLegal(Printed(v, indent).entries, members);
        EntriesMean(Printed(v, indent).entries, members, 0);
    }
  }

  lemma {:induction false} ItemsMean(items: seq<Value>, i: nat, indent: int, close: bytes)
    requires i <= |items| && indent >= -1 && JsonDocument.Blank(close)
    requires forall k | 0 <= k < |items| :: RealFree(items[k]) && WellFormed(items[k])
    ensures var printed := PrintedItems(items, i, indent, close);
            && JsonDocument.LegalItems(printed) && JsonDocument.ItemMeanings(printed) == items[i..]
            && forall k | 0 <= k < |printed| :: JsonDocumentProofs.KeysOnce(printed[k].value)
    decreases items, |items| - i
  {
    hide Printed, JsonDocument.Legal, JsonDocument.Meaning, JsonDocumentProofs.KeysOnce, Lead;
    if i < |items| {
      LeadIsBlank(indent);
      PrintedMeans(items[i], indent);
      ItemsMean(items, i + 1, indent, close);
      var printed := PrintedItems(items, i, indent, close);
      assert printed[1..] == PrintedItems(items, i + 1, indent, close);
      assert items[i..] == [items[i]] + items[i + 1..];
    }
  }

  /** An entry that is written for a member. */
  ghost predicate EntryOf(e: JsonDocument.Entry, m: Member) {
    && JsonDocument.BlankAround(e)
    && JsonDocument.LegalPieces(e.key) && JsonDocument.PiecesMeaning(e.key) == m.key
    && JsonDocument.Legal(e.value) && JsonDocument.Meaning(e.value) == m.value && JsonDocumentProofs.KeysOnce(e.value)
  }

  ghost predicate EntriesOf(entries: seq<JsonDocument.Entry>, members: seq<Member>) {
    |entries| == |members| && forall k | 0 <= k < |entries| :: EntryOf(entries[k], members[k])
  }

  lemma {:induction false} PrintedEntries(members: seq<Member>, i: nat, indent: int, close: bytes)
    requires i <= |members| && indent >= -1 && JsonDocument.Blank(close)
    requires forall k | 0 <= k < |members| :: RealFree(members[k].value) && WellFormed(members[k].value)
    ensures EntriesOf(PrintedMembers(members, i, indent, close), members[i..])
    decreases members, 1 + |members| - i
  {
    hide Printed, PiecesOf, Lead, RealFree, WellFormed;
    hide JsonDocument.Legal, JsonDocument.Meaning, JsonDocument.LegalPieces, JsonDocument.PiecesMeaning;
    hide JsonDocumentProofs.KeysOnce;
    if i < |members| {
      hide EntryOf;
      PrintedEntry(members, i, indent, close);
      PrintedEntries(members, i + 1, indent, close);
      assert members[i..] == [members[i]] + members[i + 1..];
    }
  }

  lemma {:induction false} PrintedEntry(members: seq<Member>, i: nat, indent: int, close: bytes)
    requires i < |members| && indent >= -1 && JsonDocument.Blank(close)
    requires forall k | 0 <= k < |members| :: RealFree(members[k].value) && WellFormed(members[k].value)
    ensures EntryOf(PrintedMembers(members, i, indent, close)[0], members[i])
    decreases members, 0
  {
    hide Printed, PiecesOf, Lead, RealFree, WellFormed;
    hide JsonDocument.Legal, JsonDocument.Meaning, JsonDocument.LegalPieces, JsonDocument.PiecesMeaning;
    hide JsonDocumentProofs.KeysOnce;
    LeadIsBlank(indent);
    PrintedMeans(members[i].value, indent);
    StringIsPieces(members[i].key, []);
  }

  lemma EntriesAreLegal(entries: seq<JsonDocument.Entry>, members: seq<Member>)
    requires EntriesOf(entries, members) && SortedKeys(members)
    ensures JsonDocument.LegalEntries(entries) && JsonDocumentProofs.DistinctKeys(entries)
    ensures forall k | 0 <= k < |entries| :: JsonDocumentProofs.KeysOnce(entries[k].value)
  {
    hide JsonDocument.Legal, JsonDocument.Meaning, JsonDocument.LegalPieces, JsonDocument.PiecesMeaning;
    hide JsonDocumentProofs.KeysOnce;
    forall k | 0 <= k < |entries|
      ensures JsonDocument.BlankAround(entries[k]) && JsonDocument.Legal(entries[k].value)
      ensures JsonDocument.LegalPieces(entries[k].key)
      ensures JsonDocument.PiecesMeaning(entries[k].key) == members[k].key
    {
      assert EntryOf(entries[k], members[k]);
    }
    forall i, j | 0 <= i < j < |members| ensures members[i].key != members[j].key {
      LessIsAsymmetric(members[i].key, members[j].key);
    }
  }

  lemma {:induction false} EntriesMean(entries: seq<JsonDocument.Entry>, members: seq<Member>, i: nat)
    requires i <= |members| && SortedKeys(members) && EntriesOf(entries, members[i..])
    requires JsonDocument.LegalEntries(entries)
    ensures JsonDocument.EntryMeanings(members[..i], entries) == members
    decreases |entries|
  {
    hide JsonDocument.Legal, JsonDocument.Meaning, JsonDocument.LegalPieces, JsonDocument.PiecesMeaning;
    hide JsonDocumentProofs.KeysOnce, Put, SortedKeys;
    if i == |members| {
      assert members[..i] == members;
    } else {
      assert EntryOf(entries[0], members[i..][0]);
      NextKeyIsLast(members, i);
      assert members[i..][1..] == members[i + 1..];
      EntriesMean(entries[1..], members, i + 1);
    }
  }

  /** The members of a sorted object are put in one after the other. */
  lemma NextKeyIsLast(members: seq<Member>, i: nat)
    requires SortedKeys(members) && i < |members|
    ensures Put(members[..i], members[i].key, members[i].value) == members[..i + 1]
  {
    PutLast(members[..i], members[i].key, members[i].value);
    assert members[..i] + [members[i]] == members[..i + 1];
  }

  function Unread(v: Value, depths: nat, t: bytes): Parsed<Value> {
    if Fits(v, depths) then Ok(v, t) else Fail
  }

  /** Any budget and any text behind: the parser stops where the printed value ends. */
  lemma BodyRoundTrip(v: Value, indent: int, depths: nat, t: bytes)
    requires RealFree(v) && WellFormed(v) && indent >= -1
    requires v.Int? ==> !JsonDocument.GoesOn(t)
    ensures ParseValue(Body(v, indent) + t, depths) == Unread(v, depths, t)
  {
    var d := Printed(v, indent);
    BodyIsDocument(v, indent, t);
    PrintedMeans(v, indent);
    JsonDocumentProofs.DocumentRead([], d, t, depths);
    JsonDocumentProofs.FitsAsMeant(d, depths);
    assert [] + JsonDocument.Written(d, t) == JsonDocument.Written(d, t);
  }

  // ---------- main results ----------

  /**
   * Parsing what was printed, at any indentation, gives back the tree exactly when every array or object in it
   * has fewer than 100 arrays above it, and fails otherwise; only the line break that ends a pretty print is left
   * unread.
   */
  lemma ParseUndoesPrint(v: Value, indent: int)
    requires RealFree(v) && WellFormed(v) && indent >= -1
    ensures ParseValue(Serialized(v, indent), DEFAULT_MAX_DEPTHS)
         == if FewArrayAncestors(v, 100) then Ok(v, if indent == 0 then "\n" else []) else Fail
  {
    BodyRoundTrip(v, indent, DEFAULT_MAX_DEPTHS, if indent == 0 then "\n" else []);
    FitsMeansFewArrayAncestors(v, DEFAULT_MAX_DEPTHS);
  }

  /** Two trees with the same text, however indented, are the same tree. */
  lemma PrintIsInjective(v: Value, w: Value, indent: int)
    requires RealFree(v) && WellFormed(v) && RealFree(w) && WellFormed(w) && indent >= -1
    requires Serialized(v, indent) == Serialized(w, indent)
    ensures v == w
  {
    var depths: nat := EnoughDepths(v) + EnoughDepths(w);
    DepthsSuffice(v, depths);
    DepthsSuffice(w, depths);
    var t: bytes := if indent == 0 then "\n" else [];
    BodyRoundTrip(v, indent, depths, t);
    BodyRoundTrip(w, indent, depths, t);
  }

  function EnoughDepths(v: Value): nat {
    match v
    case Array(items) => 1 + MaxItems(items)
    case Object(members) => 1 + MaxMembers(members)
    case _ => 0
  }

  function MaxItems(items: seq<Value>): nat {
    if items == [] then 0 else EnoughDepths(items[0]) + MaxItems(items[1..])
  }

  function MaxMembers(members: seq<Member>): nat {
    if members == [] then 0 else EnoughDepths(members[0].value) + MaxMembers(members[1..])
  }

  lemma {:induction false} DepthsSuffice(v: Value, depths: nat)
    requires EnoughDepths(v) <= depths
    ensures Fits(v, depths)
  {
    match v {
      case Array(items) =>
        forall i | 0 <= i < |items| ensures Fits(items[i], depths - 1) {
          ItemBelowSum(items, i);
          DepthsSuffice(items[i], depths - 1);
        }
      case Object(members) =>
        forall i | 0 <= i < |members| ensures Fits(members[i].value, depths) {
          MemberBelowSum(members, i);
          DepthsSuffice(members[i].value, depths);
        }
      case _ =>
    }
  }

  lemma {:induction false} ItemBelowSum(items: seq<Value>, i: nat)
    requires i < |items|
    ensures EnoughDepths(items[i]) <= MaxItems(items)
  {
    if i > 0 { ItemBelowSum(items[1..], i - 1); }
  }

  lemma {:induction false} MemberBelowSum(members: seq<Member>, i: nat)
    requires i < |members|
    ensures EnoughDepths(members[i].value) <= MaxMembers(members)
  {
    if i > 0 { MemberBelowSum(members[1..], i - 1); }
  }

  /** Pretty and compact printing are read alike, whether that succeeds or fails. */
  lemma PrettyMeansCompact(v: Value, indent: nat)
    requires RealFree(v) && WellFormed(v)
    ensures var pretty := ParseValue(Serialized(v, indent), DEFAULT_MAX_DEPTHS);
            var compact := ParseValue(Serialized(v, -1), DEFAULT_MAX_DEPTHS);
            && pretty.Ok? == compact.Ok?
            && (compact.Ok? ==> pretty.value == compact.value && compact.rest == []
                                && pretty.rest == if indent == 0 then "\n" else [])
  {
    ParseUndoesPrint(v, indent);
    ParseUndoesPrint(v, -1);
  }

  /** A line break and two spaces for every level. */
  lemma IndentExactly(indent: nat)
    ensures |IndentText(indent)| == 1 + 2 * indent && IndentText(indent)[0] == '\n'
    ensures forall k | 0 < k < |IndentText(indent)| :: IndentText(indent)[k] == ' '
  {
  }

  /**
   * Pretty text has a line for each item and one for the closing bracket, but none inside empty brackets; compact text
   * has no white space.
   */
  lemma ArrayShape(v: Value, w: Value, indent: int, t: bytes)
    requires RealFree(v) && RealFree(w) && indent >= -1
    ensures var (inner, lead, last) := if indent == -1 then (-1, [], [])
                                       else (indent + 1, IndentText(indent + 1), IndentText(indent));
            Body(Array([v, w]), indent) + t
            == "[" + (lead + (Body(v, inner) + ("," + (lead + (Body(w, inner) + (last + ("]" + t)))))))
  {
    hide Items, Serialized, IndentText;
    var (items, inner, close) := ([v, w], Inner(indent), Tail(indent, false) + ("]" + t));
    Bracketed("[", Items(items, 0, inner), Tail(indent, false), "]", t);
    PrintedInside(v, inner);
    PrintedInside(w, inner);
    ItemsSplit(items, 0, inner, close);
    ItemsSplit(items, 1, inner, close);
    ItemsEnd(items, inner, close);
    var first := Lead(inner) + (Body(v, inner) + (Items(items, 1, inner) + close));
    assert [] + first == first;
  }

  lemma ObjectShape(a: bytes, v: Value, b: bytes, w: Value, indent: int, t: bytes)
    requires RealFree(v) && RealFree(w) && indent >= -1
    ensures var (inner, lead, last) := if indent == -1 then (-1, [], [])
                                       else (indent + 1, IndentText(indent + 1), IndentText(indent));
            var colon := if indent == -1 then ":" else ": ";
            var second := SerializedStr(b) + colon + (Body(w, inner) + (last + ("}" + t)));
            Body(Object([Member(a, v), Member(b, w)]), indent) + t
            == "{" + (lead + (SerializedStr(a) + colon + (Body(v, inner) + ("," + (lead + second)))))
  {
    hide Members, Serialized, IndentText;
    var members := [Member(a, v), Member(b, w)];
    var (inner, close) := (Inner(indent), Tail(indent, false) + ("}" + t));
    Bracketed("{", Members(members, 0, inner), Tail(indent, false), "}", t);
    PrintedInside(v, inner);
    PrintedInside(w, inner);
    MembersSplit(members, 0, inner, close);
    MembersSplit(members, 1, inner, close);
    MembersEnd(members, inner, close);
    KeyShape(a, indent);
    KeyShape(b, indent);
    var first := Lead(inner) + (KeyText(a, inner) + (Body(v, inner) + (Members(members, 1, inner) + close)));
    assert [] + first == first;
  }

  lemma EmptyShape(indent: int)
    requires indent >= -1
    ensures Body(Array([]), indent) == "[]" && Body(Object([]), indent) == "{}"
  {
    assert "[" + [] + [] + "]" == "[]" && "{" + [] + [] + "}" == "{}";
  }

  lemma KeyShape(key: bytes, indent: int)
    requires indent >= -1
    ensures KeyText(key, Inner(indent)) == SerializedStr(key) + if indent == -1 then ":" else ": "
  {
    assert SerializedStr(key) + ":" + " " == SerializedStr(key) + ": ";
    assert SerializedStr(key) + ":" + [] == SerializedStr(key) + ":";
  }

  // ---------- what the parser builds ----------

  /** A tree that a context with this budget can have built. */
  predicate Built(r: Parsed<Value>, depths: nat) {
    r.Ok? ==> WellFormed(r.value) && Fits(r.value, depths)
  }

  /** Whatever the text, a parsed tree has 64-bit integers and sorted distinct keys, and fits the budget. */
  lemma {:induction false} ParsedTreesAreWellFormed(t: bytes, depths: nat)
    ensures Built(ParseValue(t, depths), depths)
    decreases |t|, 0
  {
    var u := SkipSpace(t);
    if u != [] && u[0] == '[' && depths > 0 {
      ItemsAreWellFormed(SkipSpace(u[1..]), depths - 1, []);
    } else if u != [] && u[0] == '{' && depths > 0 {
      MembersAreWellFormed(SkipSpace(u[1..]), depths, []);
    }
  }

  lemma {:induction false} ItemsAreWellFormed(t: bytes, depths: nat, items: seq<Value>)
    requires forall i | 0 <= i < |items| :: WellFormed(items[i]) && Fits(items[i], depths)
    ensures Built(ItemsTail(t, depths, items), depths + 1)
    decreases |t|, 1
  {
    ParsedTreesAreWellFormed(t, depths);
    var first := ParseValue(t, depths);
    if first.Ok? {
      var w := SkipSpace(first.rest);
      if StartsWith(w, ',') {
        ItemsAreWellFormed(w[1..], depths, items + [first.value]);
      }
    }
  }

  lemma {:induction false} MembersAreWellFormed(t: bytes, depths: nat, members: seq<Member>)
    requires depths > 0 && SortedKeys(members)
    requires forall i | 0 <= i < |members| :: WellFormed(members[i].value) && Fits(members[i].value, depths)
    ensures Built(MembersTail(t, depths, members), depths)
    decreases |t|, 1
  {
    var key := KeyTail(t);
    if key.Ok? {
      ParsedTreesAreWellFormed(key.rest, depths);
      var first := ParseValue(key.rest, depths);
      if first.Ok? {
        var all := Put(members, key.value, first.value);
        PutUpdatesMap(members, key.value, first.value);
        forall i | 0 <= i < |all| ensures WellFormed(all[i].value) && Fits(all[i].value, depths) {
          assert Has(all, all[i].key, all[i].value);
          if all[i].key != key.value {
            assert Has(members, all[i].key, all[i].value);
          }
        }
        var w := SkipSpace(first.rest);
        if StartsWith(w, ',') {
          MembersAreWellFormed(w[1..], depths, all);
        }
      }
    }
  }

  /** Printing what was read and reading it again changes nothing, for every text without floating-point numbers. */
  lemma ReprintIsStable(t: bytes, indent: int)
    requires indent >= -1
    ensures var r := ParseValue(t, DEFAULT_MAX_DEPTHS);
            r.Ok? && RealFree(r.value) ==>
              ParseValue(Serialized(r.value, indent), DEFAULT_MAX_DEPTHS)
              == Ok(r.value, if indent == 0 then "\n" else [])
  {
    ParsedTreesAreWellFormed(t, DEFAULT_MAX_DEPTHS);
    var r := ParseValue(t, DEFAULT_MAX_DEPTHS);
    if r.Ok? && RealFree(r.value) {
      BodyRoundTrip(r.value, indent, DEFAULT_MAX_DEPTHS, if indent == 0 then "\n" else []);
    }
  }
}

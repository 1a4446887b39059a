/** picojson's parser: the pushback cursor, the parse context and the recursive descent over them. */
module JsonParser {
  import opened Bytes
  import opened JsonValue
  import opened JsonGrammar
  import opened JsonPrinter

  const EOF := -1

  /** The line breaks in a text. */
  function Newlines(t: bytes): nat {
    if t == [] then 0 else Newlines(t[..|t| - 1]) + if t[|t| - 1] == '\n' then 1 else 0
  }

  lemma {:induction false} NewlinesExactly(t: bytes)
    ensures Newlines(t) == multiset(t)['\n']
  {
    if t != [] {
      NewlinesExactly(t[..|t| - 1]);
      assert t == t[..|t| - 1] + [t[|t| - 1]];
    }
  }

  /** The state of `input` as a value. */
  datatype Cursor = Cursor(cur: nat, consumed: bool, line: nat)

  predicate IsCursor(text: bytes, c: Cursor) {
    c.cur <= |text| && (c.consumed ==> c.cur < |text|) && c.line == 1 + Newlines(text[..c.cur])
  }

  /** A step over the character that was handed out, if there is one. */
  function Stepped(text: bytes, c: Cursor): Cursor
    requires c.consumed ==> c.cur < |text|
  {
    if !c.consumed then c
    else Cursor(c.cur + 1, false, if text[c.cur] == '\n' then c.line + 1 else c.line)
  }

  function AfterGetC(text: bytes, c: Cursor): Cursor
    requires IsCursor(text, c)
  {
    var d := Stepped(text, c);
    d.(consumed := d.cur < |text|)
  }

  function AfterUngetC(c: Cursor): Cursor {
    c.(consumed := false)
  }

  function IndexOf(c: Cursor): nat {
    if c.consumed then c.cur + 1 else c.cur
  }

  /** A plain index with one step of undo. */
  datatype Index = Index(pos: nat, undo: bool)

  datatype CursorCall = GetC | UngetC

  /** What a sequence of calls reads through the lazy cursor, and where it ends. */
  function CursorReads(text: bytes, c: Cursor, calls: seq<CursorCall>): (r: (seq<int>, Cursor))
    requires IsCursor(text, c)
    decreases |calls|
  {
    CursorStaysValid(text, c);
    if calls == [] then ([], c)
    else if calls[0].UngetC? then CursorReads(text, AfterUngetC(c), calls[1..])
    else
      var d := AfterGetC(text, c);
      var (chars, end) := CursorReads(text, d, calls[1..]);
      ([if d.consumed then text[d.cur] as int else EOF] + chars, end)
  }

  function IndexReads(text: bytes, i: Index, calls: seq<CursorCall>): (r: (seq<int>, Index))
    requires i.pos <= |text| && (i.undo ==> i.pos > 0)
    decreases |calls|
  {
    if calls == [] then ([], i)
    else if calls[0].UngetC? then IndexReads(text, Index(if i.undo then i.pos - 1 else i.pos, false), calls[1..])
    else if i.pos == |text| then
      var (chars, end) := IndexReads(text, Index(i.pos, false), calls[1..]);
      ([EOF] + chars, end)
    else
      var (chars, end) := IndexReads(text, Index(i.pos + 1, true), calls[1..]);
      ([text[i.pos] as int] + chars, end)
  }

  lemma CursorStaysValid(text: bytes, c: Cursor)
    requires IsCursor(text, c)
    ensures IsCursor(text, AfterGetC(text, c)) && IsCursor(text, AfterUngetC(c))
  {
    if c.consumed {
      assert text[..c.cur + 1][..c.cur] == text[..c.cur];
    }
  }

  /** Under any calls the lazy cursor reads what the index reads, ends where it ends, and counts lines before `cur`. */
  lemma {:induction false} CursorRefinesIndex(text: bytes, c: Cursor, i: Index, calls: seq<CursorCall>)
    requires IsCursor(text, c) && i == Index(IndexOf(c), c.consumed)
    ensures CursorReads(text, c, calls).0 == IndexReads(text, i, calls).0
    ensures var (end, j) := (CursorReads(text, c, calls).1, IndexReads(text, i, calls).1);
            IsCursor(text, end) && j == Index(IndexOf(end), end.consumed)
    decreases |calls|
  {
    CursorStaysValid(text, c);
    if calls == [] {
    } else if calls[0].UngetC? {
      CursorRefinesIndex(text, AfterUngetC(c), Index(c.cur, false), calls[1..]);
    } else {
      var d := AfterGetC(text, c);
      CursorRefinesIndex(text, d, Index(IndexOf(d), d.consumed), calls[1..]);
    }
  }

  /**
   * `input`: the character at `cur` is handed out first and stepped over by the next read, so that it can be
   * given back.  `Pos` is the plain index this stands for.
   */
  class Input {
    const text: bytes
    var cur: nat
    var consumed: bool
    var line: nat

    ghost predicate Valid()
      reads this
    {
      && cur <= |text|
      && (consumed ==> cur < |text|)
      && line == 1 + Newlines(text[..cur])
    }

    ghost function State(): Cursor
      reads this
    {
      Cursor(cur, consumed, line)
    }

    function Pos(): nat
      reads this
    {
      if consumed then cur + 1 else cur
    }

    /** The text not read yet. */
    function Rest(): bytes
      requires cur <= |text| && (consumed ==> cur < |text|)
      reads this
    {
      text[Pos()..]
    }

    constructor (text: bytes)
      ensures Valid() && Rest() == text && this.text == text && Pos() == 0
    {
      this.text := text;
      cur, consumed, line := 0, false, 1;
    }

    /** Reads one character, or nothing at the end of the text. */
    method GetC() returns (ch: int)
      requires Valid()
      modifies this
      ensures Valid() && State() == AfterGetC(text, old(State()))
      ensures if old(Pos()) < |text| then ch == text[old(Pos())] as int && Pos() == old(Pos()) + 1 && consumed
              else ch == EOF && Pos() == old(Pos()) && !consumed
      ensures ch == EOF <==> old(Rest()) == []
      ensures ch != EOF ==> ch == old(Rest())[0] as int && Rest() == old(Rest())[1..]
    {
      if consumed {
        assert text[..cur + 1][..cur] == text[..cur];
        if text[cur] == '\n' {
          line := line + 1;
        }
        cur := cur + 1;
      }
      if cur == |text| {
        consumed := false;
        return EOF;
      }
      consumed := true;
      ch := text[cur] as int;
    }

    /** Gives back the character of the last read; a second call changes nothing. */
    method UngetC()
      requires Valid()
      modifies this
      ensures Valid() && State() == AfterUngetC(old(State()))
      ensures Pos() == if old(consumed) then old(Pos()) - 1 else old(Pos())
    {
      consumed := false;
    }

    /** Leaves the cursor on the next unread character; the line count is not brought up to date. */
    method Cur() returns (pos: nat)
      requires Valid()
      modifies this
      ensures pos == cur == old(Pos()) && !consumed
      ensures line == old(line) == 1 + Newlines(text[..old(cur)])
      ensures line == 1 + Newlines(text[..cur]) <==> !(old(consumed) && text[old(cur)] == '\n')
    {
      if consumed {
        assert text[..cur + 1][..cur] == text[..cur];
        consumed := false;
        cur := cur + 1;
      }
      pos := cur;
    }

    method SkipWs()
      requires Valid()
      modifies this
      ensures Valid()
      ensures Rest() == SkipSpace(old(Rest()))
    {
      hide AfterGetC, AfterUngetC, Newlines;
      while true
        invariant Valid()
        invariant SkipSpace(Rest()) == SkipSpace(old(Rest()))
        decreases |Rest()|
      {
        ghost var before := Rest();
        var ch := GetC();
        if !(ch == ' ' as int || ch == '\t' as int || ch == '\n' as int || ch == '\r' as int) {
          UngetC();
          assert Rest() == before;
          break;
        }
      }
    }

    method Expect(expected: byte) returns (found: bool)
      requires Valid()
      modifies this
      ensures Valid()
      ensures var u := SkipSpace(old(Rest()));
              found == StartsWith(u, expected) && Rest() == if found then u[1..] else u
    {
      hide AfterGetC, AfterUngetC, Newlines;
      SkipWs();
      ghost var u := Rest();
      var ch := GetC();
      if ch != expected as int {
        UngetC();
        assert Rest() == u;
        return false;
      }
      found := true;
    }

    method Match(pattern: bytes) returns (found: bool)
      requires Valid()
      modifies this
      ensures Valid()
      ensures found == (pattern <= old(Rest()))
      ensures found ==> Rest() == old(Rest())[|pattern|..]
    {
      hide AfterGetC, AfterUngetC, Newlines;
      for k := 0 to |pattern|
        invariant Valid()
        invariant k <= |old(Rest())| && pattern[..k] == old(Rest())[..k] && Rest() == old(Rest())[k..]
      {
        var ch := GetC();
        if ch != pattern[k] as int {
          UngetC();
          return false;
        }
      }
      found := true;
    }
  }

  method ParseQuadHex(input: Input) returns (code: int)
    requires input.Valid()
    modifies input
    ensures input.Valid()
    ensures var r := QuadHex(old(input.Rest()));
            if r.Ok? then code == r.value && input.Rest() == r.rest else code == -1
  {
    hide AfterGetC, AfterUngetC, Newlines;
    ghost var t := input.Rest();
    var uniCh := 0;
    for i := 0 to 4
      invariant input.Valid()
      invariant i <= |t| && input.Rest() == t[i..]
      invariant forall j | 0 <= j < i :: IsHex(t[j])
      invariant i == 0 ==> uniCh == 0
      invariant i == 1 ==> uniCh == HexValue(t[0])
      invariant i == 2 ==> uniCh == HexValue(t[0]) * 16 + HexValue(t[1])
      invariant i == 3 ==> uniCh == (HexValue(t[0]) * 16 + HexValue(t[1])) * 16 + HexValue(t[2])
      invariant i == 4 ==> QuadHex(t) == Ok(uniCh, t[4..])
    {
      var hex := input.GetC();
      if hex == EOF {
        return -1;
      }
      if '0' as int <= hex <= '9' as int {
        hex := hex - '0' as int;
      } else if 'A' as int <= hex <= 'F' as int {
        hex := hex - ('A' as int - 0xa);
      } else if 'a' as int <= hex <= 'f' as int {
        hex := hex - ('a' as int - 0xa);
      } else {
        input.UngetC();
        return -1;
      }
      uniCh := uniCh * 16 + hex;
    }
    code := uniCh;
  }

  /** The first half of `_parse_codepoint`: one escape, or two that form a surrogate pair. */
  method ParseScalar(input: Input) returns (ok: bool, uniCh: int)
    requires input.Valid()
    modifies input
    ensures input.Valid()
    ensures var r := CodePoint(old(input.Rest()));
            ok == r.Ok? && (ok ==> uniCh == r.value && input.Rest() == r.rest)
  {
    hide AfterGetC, AfterUngetC, Newlines, QuadHex, LowHalf;
    uniCh := ParseQuadHex(input);
    if uniCh == -1 {
      return false, uniCh;
    }
    if 0xd800 <= uniCh <= 0xdfff {
      if 0xdc00 <= uniCh {
        return false, uniCh;
      }
      ok, uniCh := ParseLowHalf(input, uniCh);
      return;
    }
    ok := true;
  }

  /** Reads `\u`, the second character only if the first one matches. */
  method ParseEscapeStart(input: Input) returns (ok: bool)
    requires input.Valid()
    modifies input
    ensures input.Valid()
    ensures var u := old(input.Rest());
            ok == (|u| >= 2 && u[0] == '\\' && u[1] == 'u') && (ok ==> input.Rest() == u[2..])
  {
    hide AfterGetC, AfterUngetC, Newlines;
    var ch := input.GetC();
    if ch == '\\' as int {
      ch := input.GetC();
    } else {
      ch := EOF;
    }
    ok := ch == 'u' as int;
    if !ok {
      input.UngetC();
    }
  }

  method ParseLowHalf(input: Input, high: int) returns (ok: bool, uniCh: int)
    requires input.Valid() && 0xd800 <= high < 0xdc00
    modifies input
    ensures input.Valid()
    ensures var r := LowHalf(high, old(input.Rest()));
            ok == r.Ok? && (ok ==> uniCh == r.value && input.Rest() == r.rest)
  {
    hide AfterGetC, AfterUngetC, Newlines, QuadHex;
    uniCh := high;
    var isEscape := ParseEscapeStart(input);
    if !isEscape {
      return false, uniCh;
    }
    var second := ParseQuadHex(input);
    if !(0xdc00 <= second <= 0xdfff) {
      return false, uniCh;
    }
    uniCh := (uniCh - 0xd800) * 0x400 + (second - 0xdc00) % 0x400;
    uniCh := uniCh + 0x10000;
    ok := true;
  }

  method ParseCodePoint(input: Input, out: bytes) returns (ok: bool, out': bytes)
    requires input.Valid()
    modifies input
    ensures input.Valid()
    ensures var r := CodePoint(old(input.Rest()));
            ok == r.Ok? && (ok ==> out' == out + Utf8(r.value) && input.Rest() == r.rest)
  {
    hide AfterGetC, AfterUngetC, Newlines, CodePoint, Utf8;
    out' := out;
    var uniCh;
    ok, uniCh := ParseScalar(input);
    if ok {
      out' := PushUtf8(out, uniCh);
    }
  }

  method PushUtf8(out: bytes, uniCh: nat) returns (out': bytes)
    requires uniCh < 0x110000
    ensures out' == out + Utf8(uniCh)
  {
    out' := out;
    if uniCh < 0x80 {
      out' := out' + [uniCh as char];
    } else {
      if uniCh < 0x800 {
        out' := out' + [(0xc0 + uniCh / 0x40) as char];
      } else {
        if uniCh < 0x10000 {
          out' := out' + [(0xe0 + uniCh / 0x1000) as char];
        } else {
          out' := out' + [(0xf0 + uniCh / 0x40000) as char];
          out' := out' + [Continuation(uniCh / 0x1000)];
        }
        out' := out' + [Continuation(uniCh / 0x40)];
      }
      out' := out' + [Continuation(uniCh)];
    }
  }

  /** Reads a string up to its closing quote, the opening one having been read. */
  method ParseString(input: Input) returns (ok: bool, out: bytes)
    requires input.Valid()
    modifies input
    ensures input.Valid()
    ensures var r := StringTail(old(input.Rest()), []);
            ok == r.Ok? && (ok ==> out == r.value && input.Rest() == r.rest)
  {
    hide AfterGetC, AfterUngetC, Newlines, CodePoint, Utf8;
    ghost var whole := StringTail(input.Rest(), []);
    out := [];
    while true
      invariant input.Valid()
      invariant StringTail(input.Rest(), out) == whole
      decreases |input.Rest()|
    {
      ghost var t := input.Rest();
      var ch := input.GetC();
      if ch < ' ' as int {
        input.UngetC();
        return false, out;
      } else if ch == '"' as int {
        return true, out;
      } else if ch == '\\' as int {
        ch := input.GetC();
        if ch == EOF {
          return false, out;
        }
        assert ch == t[1] as int && input.Rest() == t[2..];
        if IsSimpleEscape(ch as char) {
          out := out + [SimpleEscape(ch as char)];
        } else if ch == 'u' as int {
          ok, out := ParseCodePoint(input, out);
          if !ok {
            return false, out;
          }
        } else {
          return false, out;
        }
      } else {
        out := out + [ch as char];
      }
    }
  }

  /** `default_parse_context`: where the value goes, and how many nested arrays are still allowed. */
  class ParseContext {
    var out: Value
    var depths: nat

    constructor (depths: nat)
      ensures this.depths == depths && out == Null
    {
      this.depths := depths;
      out := Null;
    }

    method ParseArrayStart() returns (ok: bool)
      modifies this
      ensures ok == (old(depths) > 0)
      ensures if ok then depths == old(depths) - 1 && out == Array([]) else unchanged(this)
    {
      if depths == 0 {
        return false;
      }
      depths := depths - 1;
      out := Array([]);
      ok := true;
    }

    /** Unlike an array, an object does not spend the budget it needs. */
    method ParseObjectStart() returns (ok: bool)
      modifies this
      ensures ok == (old(depths) > 0)
      ensures depths == old(depths) && (ok ==> out == Object([]))
    {
      if depths == 0 {
        return false;
      }
      out := Object([]);
      ok := true;
    }

    method ParseStop() returns (ok: bool)
      modifies this
      ensures ok && depths == old(depths) + 1 && out == old(out)
    {
      depths := depths + 1;
      ok := true;
    }
  }

  method ParseArrayItem(ctx: ParseContext, input: Input) returns (ok: bool)
    requires input.Valid() && ctx.out.Array?
    modifies ctx, input
    ensures input.Valid() && ctx.depths == old(ctx.depths)
    ensures var r := ParseValue(old(input.Rest()), old(ctx.depths));
            ok == r.Ok? && (ok ==> ctx.out == Array(old(ctx.out.items) + [r.value]) && input.Rest() == r.rest)
    decreases |input.Rest()|, 1
  {
    hide AfterGetC, AfterUngetC, Newlines;
    var item := new ParseContext(ctx.depths);
    ok := ParseValueInto(item, input);
    if ok {
      ctx.out := Array(ctx.out.items + [item.out]);
    }
  }

  method ParseObjectItem(ctx: ParseContext, input: Input, key: bytes) returns (ok: bool)
    requires input.Valid() && ctx.out.Object?
    modifies ctx, input
    ensures input.Valid() && ctx.depths == old(ctx.depths)
    ensures var r := ParseValue(old(input.Rest()), old(ctx.depths));
            ok == r.Ok? && (ok ==> ctx.out == Object(Put(old(ctx.out.members), key, r.value)) && input.Rest() == r.rest)
    decreases |input.Rest()|, 1
  {
    hide AfterGetC, AfterUngetC, Newlines;
    var member := new ParseContext(ctx.depths);
    ok := ParseValueInto(member, input);
    if ok {
      ctx.out := Object(Put(ctx.out.members, key, member.out));
    }
  }

  method ParseArray(ctx: ParseContext, input: Input) returns (ok: bool)
    requires input.Valid()
    modifies ctx, input
    ensures input.Valid()
    ensures var r := ArrayTail(old(input.Rest()), old(ctx.depths));
            ok == r.Ok? && (ok ==> ctx.out == r.value && input.Rest() == r.rest && ctx.depths == old(ctx.depths))
    decreases |input.Rest()|, 2
  {
    hide AfterGetC, AfterUngetC, Newlines, ParseValue;
    ghost var whole := ArrayTail(input.Rest(), ctx.depths);
    ok := ctx.ParseArrayStart();
    if !ok {
      return false;
    }
    var more := input.Expect(']');
    if more {
      ok := ctx.ParseStop();
      return;
    }
    more := true;
    while more
      invariant input.Valid() && |input.Rest()| <= |old(input.Rest())|
      invariant ctx.depths == old(ctx.depths) - 1 && ctx.out.Array?
      invariant more ==> ItemsTail(input.Rest(), ctx.depths, ctx.out.items) == whole
      invariant !more ==> whole == if StartsWith(input.Rest(), ']') then Ok(ctx.out, input.Rest()[1..]) else Fail
      invariant !more ==> SkipSpace(input.Rest()) == input.Rest()
      decreases |input.Rest()|, more
    {
      ok := ParseArrayItem(ctx, input);
      if !ok {
        return false;
      }
      more := input.Expect(',');
    }
    ok := input.Expect(']');
    if ok {
      ok := ctx.ParseStop();
    }
  }

  method ParseObject(ctx: ParseContext, input: Input) returns (ok: bool)
    requires input.Valid()
    modifies ctx, input
    ensures input.Valid()
    ensures var r := ObjectTail(old(input.Rest()), old(ctx.depths));
            ok == r.Ok? && (ok ==> ctx.out == r.value && input.Rest() == r.rest && ctx.depths == old(ctx.depths) + 1)
    decreases |input.Rest()|, 2
  {
    hide AfterGetC, AfterUngetC, Newlines, ParseValue, KeyTail, Put;
    ghost var whole := ObjectTail(input.Rest(), ctx.depths);
    ok := ctx.ParseObjectStart();
    if !ok {
      return false;
    }
    var more := input.Expect('}');
    if more {
      ok := ctx.ParseStop();
      return;
    }
    more := true;
    while more
      invariant input.Valid() && |input.Rest()| <= |old(input.Rest())|
      invariant ctx.depths == old(ctx.depths) && ctx.out.Object?
      invariant more ==> MembersTail(input.Rest(), ctx.depths, ctx.out.members) == whole
      invariant !more ==> whole == if StartsWith(input.Rest(), '}') then Ok(ctx.out, input.Rest()[1..]) else Fail
      invariant !more ==> SkipSpace(input.Rest()) == input.Rest()
      decreases |input.Rest()|, more
    {
      var key;
      ok, key := ParseKey(input);
      if !ok {
        return false;
      }
      ok := ParseObjectItem(ctx, input, key);
      if !ok {
        return false;
      }
      more := input.Expect(',');
    }
    ok := input.Expect('}');
    if ok {
      ok := ctx.ParseStop();
    }
  }

  /** A member's key and colon. */
  method ParseKey(input: Input) returns (ok: bool, key: bytes)
    requires input.Valid()
    modifies input
    ensures input.Valid()
    ensures var r := KeyTail(old(input.Rest()));
            ok == r.Ok? && (ok ==> key == r.value && input.Rest() == r.rest)
  {
    hide AfterGetC, AfterUngetC, Newlines;
    key := [];
    ok := input.Expect('"');
    if ok {
      ok, key := ParseString(input);
      if ok {
        ok := input.Expect(':');
      }
    }
  }

  lemma NextRest(t: bytes, k: nat)
    requires k < |t|
    ensures t[k..][1..] == t[k + 1..] && t[..k + 1] == t[..k] + [t[k..][0]]
  {
  }

  lemma NumberStep(t: bytes)
    ensures NumberLength(t) == if t == [] || !IsNumberChar(t[0]) then 0 else 1 + NumberLength(t[1..])
  {
  }

  method ParseNumber(input: Input) returns (literal: bytes)
    requires input.Valid()
    modifies input
    ensures input.Valid()
    ensures var t := old(input.Rest());
            literal == t[..NumberLength(t)] && input.Rest() == t[NumberLength(t)..]
  {
    hide AfterGetC, AfterUngetC, Newlines, IsNumberChar, NumberLength;
    literal := [];
    ghost var t := input.Rest();
    assert t[0..] == t;
    while true
      invariant input.Valid()
      invariant |literal| <= |t| && literal == t[..|literal|] && input.Rest() == t[|literal|..]
      invariant |literal| + NumberLength(t[|literal|..]) == NumberLength(t)
      decreases |input.Rest()|
    {
      ghost var before := input.Rest();
      NumberStep(before);
      var ch := input.GetC();
      if ch != EOF && IsNumberChar(ch as char) {
        literal := literal + [ch as char];
        NextRest(t, |literal| - 1);
      } else {
        input.UngetC();
        assert input.Rest() == before;
        break;
      }
    }
  }

  method ParseWord(ctx: ParseContext, input: Input, c: byte) returns (ok: bool)
    requires input.Valid() && IsWordStart(c)
    modifies ctx, input
    ensures input.Valid()
    ensures var r := WordTail(c, old(input.Rest()));
            ok == r.Ok? && (ok ==> ctx.out == r.value && input.Rest() == r.rest)
  {
    hide AfterGetC, AfterUngetC, Newlines;
    var (word, value) := WordRest(c);
    ok := input.Match(word);
    if ok {
      ctx.out := value;
    }
  }

  method ParseStringInto(ctx: ParseContext, input: Input) returns (ok: bool)
    requires input.Valid()
    modifies ctx, input
    ensures input.Valid()
    ensures var r := StringValueTail(old(input.Rest()));
            ok == r.Ok? && (ok ==> ctx.out == r.value && input.Rest() == r.rest)
  {
    hide AfterGetC, AfterUngetC, Newlines;
    var s;
    ok, s := ParseString(input);
    ctx.out := Str(s);
  }

  method ParseNumberInto(ctx: ParseContext, input: Input) returns (ok: bool)
    requires input.Valid() && input.Rest() != [] && IsNumberChar(input.Rest()[0])
    modifies ctx, input
    ensures input.Valid()
    ensures var r := NumberAt(old(input.Rest()));
            ok == r.Ok? && (ok ==> ctx.out == r.value && input.Rest() == r.rest)
  {
    hide AfterGetC, AfterUngetC, Newlines;
    var literal := ParseNumber(input);
    var r := NumberValue(literal);
    ok := r.Ok?;
    if ok {
      ctx.out := r.value;
    }
  }

  /** `_parse`. */
  method ParseValueInto(ctx: ParseContext, input: Input) returns (ok: bool)
    requires input.Valid()
    modifies ctx, input
    ensures input.Valid()
    ensures var r := ParseValue(old(input.Rest()), old(ctx.depths));
            ok == r.Ok? && (ok ==> ctx.out == r.value && input.Rest() == r.rest)
    decreases |input.Rest()|, 0
  {
    hide AfterGetC, AfterUngetC, Newlines, ArrayTail, ObjectTail, WordTail, StringValueTail, NumberAt;
    input.SkipWs();
    ghost var u := input.Rest();
    var ch := input.GetC();
    if ch == 'n' as int || ch == 'f' as int || ch == 't' as int {
      ok := ParseWord(ctx, input, ch as char);
    } else if ch == '"' as int {
      ok := ParseStringInto(ctx, input);
    } else if ch == '[' as int {
      ok := ParseArray(ctx, input);
    } else if ch == '{' as int {
      ok := ParseObject(ctx, input);
    } else if '0' as int <= ch <= '9' as int || ch == '-' as int {
      input.UngetC();
      assert input.Rest() == u;
      ok := ParseNumberInto(ctx, input);
    } else {
      input.UngetC();
      ok := false;
    }
  }

  /** What an error text quotes of the line that starts here: its characters, but for control characters. */
  function Quoted(t: bytes): bytes {
    if t == [] || t[0] == '\n' then []
    else (if t[0] >= ' ' then [t[0]] else []) + Quoted(t[1..])
  }

  function ErrorStart(line: nat): (r: bytes)
    ensures r != []
  {
    "syntax error at line " + Decimal(line) + " near: "
  }

  function ErrorText(line: nat, t: bytes): bytes {
    ErrorStart(line) + Quoted(t)
  }

  /** Quoting ends with the line. */
  lemma {:induction false} QuotedLine(line: bytes, t: bytes)
    requires forall i | 0 <= i < |line| :: line[i] >= ' '
    requires t == [] || t[0] == '\n'
    ensures Quoted(line + t) == line
  {
    if line == [] {
      assert line + t == t;
    } else {
      assert (line + t)[1..] == line[1..] + t;
      QuotedLine(line[1..], t);
    }
  }

  lemma ErrorTextExactly(number: nat, line: bytes, t: bytes)
    requires forall i | 0 <= i < |line| :: line[i] >= ' '
    requires t == [] || t[0] == '\n'
    ensures ErrorText(number, line + t) == "syntax error at line " + IntText(number) + (" near: " + line)
  {
    QuotedLine(line, t);
  }

  /** Control characters are left out. */
  lemma {:induction false} QuotedLeavesOut(line: bytes, c: byte, t: bytes)
    requires (forall i | 0 <= i < |line| :: line[i] != '\n') && c < ' ' && c != '\n'
    ensures Quoted(line + ([c] + t)) == Quoted(line + t)
  {
    if line == [] {
      assert line + ([c] + t) == [c] + t && line + t == t;
      assert ([c] + t)[1..] == t;
    } else {
      assert (line + ([c] + t))[1..] == line[1..] + ([c] + t) && (line + t)[1..] == line[1..] + t;
      QuotedLeavesOut(line[1..], c, t);
    }
  }

  /** The loop that quotes the rest of the line. */
  method QuoteLine(input: Input, start: bytes) returns (err: bytes)
    requires input.Valid()
    modifies input
    ensures input.Valid() && err == start + Quoted(old(input.Rest()))
  {
    hide AfterGetC, Newlines;
    err := start;
    assert err + Quoted(input.Rest()) == start + Quoted(input.Rest());
    while true
      invariant input.Valid()
      invariant err + Quoted(input.Rest()) == start + Quoted(old(input.Rest()))
      decreases |input.Rest()|
    {
      ghost var t := input.Rest();
      ghost var before := err;
      var ch := input.GetC();
      if ch == EOF || ch == '\n' as int {
        assert Quoted(t) == [] && err + [] == err;
        break;
      } else if ch >= ' ' as int {
        err := err + [ch as char];
        assert before + ([t[0]] + Quoted(t[1..])) == err + Quoted(t[1..]);
      } else {
        assert [] + Quoted(t[1..]) == Quoted(t[1..]);
      }
    }
  }

  /** The error text names a line and quotes the rest of it from a place that the cursor can have stopped at. */
  ghost predicate IsErrorText(text: bytes, err: bytes) {
    exists c: Cursor :: IsCursor(text, c) && err == ErrorText(c.line, text[IndexOf(c)..])
  }

  method SyntaxError(input: Input) returns (err: bytes)
    requires input.Valid()
    modifies input
    ensures input.Valid() && err != [] && IsErrorText(input.text, err)
  {
    hide AfterGetC, AfterUngetC, Newlines, ErrorStart, Quoted;
    ghost var c := input.State();
    err := QuoteLine(input, ErrorStart(input.line));
    assert IsCursor(input.text, c) && err == ErrorText(c.line, input.text[IndexOf(c)..]);
  }

  /** `parse`: the error text is empty exactly on success; characters after the value are left unread. */
  method Parse(text: bytes) returns (ok: bool, out: Value, rest: bytes, err: bytes)
    ensures var r := ParseValue(text, DEFAULT_MAX_DEPTHS);
            ok == r.Ok? && (ok ==> out == r.value && rest == r.rest)
    ensures ok <==> err == []
    ensures !ok ==> IsErrorText(text, err)
  {
    hide AfterGetC, AfterUngetC, Newlines, ParseValue, IsErrorText;
    var input := new Input(text);
    var ctx := new ParseContext(DEFAULT_MAX_DEPTHS);
    ok := ParseValueInto(ctx, input);
    out := ctx.out;
    err := [];
    if !ok {
      err := SyntaxError(input);
    }
    var pos := input.Cur();
    rest := text[pos..];
  }
}

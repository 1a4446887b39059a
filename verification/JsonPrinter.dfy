/** picojson's serializer: what it writes, and the code that writes it through an output iterator. */
module JsonPrinter {
  import opened Bytes
  import opened JsonValue
  import opened Sequences

  const INDENT_WIDTH := 2

  function HexDigit(n: nat): byte
    requires n < 16
  {
    if n < 10 then ('0' as int + n) as char else ('a' as int + n - 10) as char
  }

  function EscapeChar(c: byte): bytes {
    if c == '"' then "\\\""
    else if c == '\\' then "\\\\"
    else if c == '/' then "\\/"
    else if c == '\U{8}' then "\\b"
    else if c == '\U{C}' then "\\f"
    else if c == '\n' then "\\n"
    else if c == '\r' then "\\r"
    else if c == '\t' then "\\t"
    else if c < ' ' || c == '\U{7F}' then "\\u00" + [HexDigit(c as int / 16), HexDigit(c as int % 16)]
    else [c]
  }

  function EscapeAll(s: bytes): bytes {
    if s == [] then [] else EscapeChar(s[0]) + EscapeAll(s[1..])
  }

  function SerializedStr(s: bytes): bytes {
    "\"" + EscapeAll(s) + "\""
  }

  function Decimal(n: nat): bytes {
    if n < 10 then [('0' as int + n) as char] else Decimal(n / 10) + [('0' as int + n % 10) as char]
  }

  function IntText(i: int): bytes {
    if i < 0 then "-" + Decimal(-i) else Decimal(i)
  }

  function Spaces(n: nat): bytes {
    seq(n, _ => ' ')
  }

  function IndentText(indent: int): bytes
    requires indent >= 0
  {
    "\n" + Spaces(indent * INDENT_WIDTH)
  }

  /** The break before an item; -1 stands for compact printing. */
  function Lead(indent: int): bytes
    requires indent >= -1
  {
    if indent == -1 then [] else IndentText(indent)
  }

  function Inner(indent: int): int {
    if indent == -1 then -1 else indent + 1
  }

  /** The break before a closing bracket. */
  function Tail(indent: int, empty: bool): bytes
    requires indent >= -1
  {
    if empty then [] else Lead(indent)
  }

  function Serialized(v: Value, indent: int): bytes
    requires RealFree(v) && indent >= -1
    decreases v, 1
  {
    Body(v, indent) + if indent == 0 then "\n" else []
  }

  function Body(v: Value, indent: int): bytes
    requires RealFree(v) && indent >= -1
    decreases v, 0
  {
    match v
    case Null => "null"
    case Bool(b) => if b then "true" else "false"
    case Int(i) => IntText(i)
    case Str(s) => SerializedStr(s)
    case Array(items) => "[" + Items(items, 0, Inner(indent)) + Tail(indent, items == []) + "]"
    case Object(members) => "{" + Members(members, 0, Inner(indent)) + Tail(indent, members == []) + "}"
  }

  function Comma(i: nat): bytes {
    if i == 0 then [] else ","
  }

  function Items(items: seq<Value>, i: nat, indent: int): bytes
    requires forall k | 0 <= k < |items| :: RealFree(items[k])
    requires indent >= -1 && i <= |items|
    decreases items, |items| - i
  {
    if i == |items| then [] else ItemText(items[i], i, indent) + Items(items, i + 1, indent)
  }

  function ItemText(item: Value, i: nat, indent: int): bytes
    requires RealFree(item) && indent >= -1
    decreases item, 2
  {
    Comma(i) + Lead(indent) + Serialized(item, indent)
  }

  function KeyText(key: bytes, indent: int): bytes {
    SerializedStr(key) + ":" + if indent == -1 then [] else " "
  }

  function Members(members: seq<Member>, i: nat, indent: int): bytes
    requires forall k | 0 <= k < |members| :: RealFree(members[k].value)
    requires indent >= -1 && i <= |members|
    decreases members, |members| - i
  {
    if i == |members| then []
    else MemberText(members[i], i, indent) + Members(members, i + 1, indent)
  }

  function MemberText(member: Member, i: nat, indent: int): bytes
    requires RealFree(member.value) && indent >= -1
    decreases member, 2
  {
    Comma(i) + Lead(indent) + KeyText(member.key, indent) + Serialized(member.value, indent)
  }

  // ---------- the code ----------

  /** An output iterator that appends, such as `std::back_inserter`. */
  class Output {
    var text: bytes

    constructor ()
      ensures text == []
    {
      text := [];
    }

    method Copy(s: bytes)
      modifies this
      ensures text == old(text) + s
    {
      text := text + s;
    }
  }

  method SerializeStr(s: bytes, oi: Output)
    modifies oi
    ensures oi.text == old(oi.text) + SerializedStr(s)
  {
    assert EscapeAll([]) == [];
    hide EscapeChar, EscapeAll;
    oi.Copy("\"");
    ghost var start := oi.text;
    assert s[..0] == [] && start + [] == start;
    for k := 0 to |s|
      invariant oi.text == start + EscapeAll(s[..k])
    {
      EscapeNext(s, k);
      Regroup(start, EscapeAll(s[..k]), EscapeChar(s[k]));
      oi.Copy(EscapeChar(s[k]));
    }
    assert s[..|s|] == s;
    oi.Copy("\"");
    Regroup3(old(oi.text), "\"", EscapeAll(s), "\"");
  }

  lemma EscapeNext(s: bytes, k: nat)
    requires k < |s|
    ensures EscapeAll(s[..k + 1]) == EscapeAll(s[..k]) + EscapeChar(s[k])
  {
    assert s[..k + 1] == s[..k] + [s[k]];
    EscapeAppend(s[..k], s[k]);
  }

  lemma {:induction false} EscapeAppend(s: bytes, c: byte)
    ensures EscapeAll(s + [c]) == EscapeAll(s) + EscapeChar(c)
  {
    if s == [] {
      assert s + [c] == [c] && EscapeAll([c][1..]) == [];
    } else {
      assert (s + [c])[0] == s[0] && (s + [c])[1..] == s[1..] + [c];
      EscapeAppend(s[1..], c);
      var e := EscapeChar(s[0]);
      assert e + (EscapeAll(s[1..]) + EscapeChar(c)) == (e + EscapeAll(s[1..])) + EscapeChar(c);
    }
  }

  method WriteIndent(oi: Output, indent: nat)
    modifies oi
    ensures oi.text == old(oi.text) + IndentText(indent)
  {
    oi.Copy("\n");
    ghost var start := oi.text;
    for k := 0 to indent * INDENT_WIDTH
      invariant oi.text == start + Spaces(k)
    {
      oi.Copy(" ");
    }
  }

  method Serialize(v: Value, oi: Output, indent: int)
    requires RealFree(v) && indent >= -1
    modifies oi
    ensures oi.text == old(oi.text) + Serialized(v, indent)
    decreases v, 1
  {
    match v {
      case Null => oi.Copy("null");
      case Bool(b) => oi.Copy(if b then "true" else "false");
      case Int(i) => oi.Copy(IntText(i));
      case Str(s) => SerializeStr(s, oi);
      case Array(items) => SerializeArray(v, oi, indent);
      case Object(members) => SerializeObject(v, oi, indent);
    }
    if indent == 0 {
      oi.Copy("\n");
    }
  }

  method SerializeArray(v: Value, oi: Output, indent: int)
    requires v.Array? && RealFree(v) && indent >= -1
    modifies oi
    ensures oi.text == old(oi.text) + Body(v, indent)
    decreases v, 0
  {
    var items := v.items;
    oi.Copy("[");
    var inner := indent;
    if inner != -1 {
      inner := inner + 1;
    }
    SerializeItems(items, oi, inner);
    if indent != -1 && items != [] {
      WriteIndent(oi, indent);
    }
    oi.Copy("]");
    Regroup4(old(oi.text), "[", Items(items, 0, inner), Tail(indent, items == []), "]");
  }

  method SerializeItems(items: seq<Value>, oi: Output, inner: int)
    requires inner >= -1 && forall j | 0 <= j < |items| :: RealFree(items[j])
    modifies oi
    ensures oi.text == old(oi.text) + Items(items, 0, inner)
    decreases items, 3
  {
    ghost var goal := oi.text + Items(items, 0, inner);
    for k := 0 to |items|
      invariant oi.text + Items(items, k, inner) == goal
    {
      Regroup(oi.text, ItemText(items[k], k, inner), Items(items, k + 1, inner));
      SerializeItem(items[k], k, oi, inner);
    }
  }

  method SerializeItem(item: Value, k: nat, oi: Output, inner: int)
    requires inner >= -1 && RealFree(item)
    modifies oi
    ensures oi.text == old(oi.text) + ItemText(item, k, inner)
    decreases item, 2
  {
    WriteLead(k, oi, inner);
    Serialize(item, oi, inner);
    Regroup(old(oi.text), Comma(k) + Lead(inner), Serialized(item, inner));
  }

  /** The comma and the line break before the item at `k`. */
  method WriteLead(k: nat, oi: Output, inner: int)
    requires inner >= -1
    modifies oi
    ensures oi.text == old(oi.text) + (Comma(k) + Lead(inner))
  {
    if k != 0 {
      oi.Copy(",");
    }
    if inner != -1 {
      WriteIndent(oi, inner);
    }
  }

  lemma Regroup4(a: bytes, b: bytes, c: bytes, d: bytes, e: bytes)
    ensures a + b + c + d + e == a + (b + c + d + e)
  {
  }

  lemma Regroup3(a: bytes, b: bytes, c: bytes, d: bytes)
    ensures a + b + c + d == a + (b + c + d)
  {
  }

  method SerializeObject(v: Value, oi: Output, indent: int)
    requires v.Object? && RealFree(v) && indent >= -1
    modifies oi
    ensures oi.text == old(oi.text) + Body(v, indent)
    decreases v, 0
  {
    var members := v.members;
    oi.Copy("{");
    var inner := indent;
    if inner != -1 {
      inner := inner + 1;
    }
    SerializeMembers(members, oi, inner);
    if indent != -1 && members != [] {
      WriteIndent(oi, indent);
    }
    oi.Copy("}");
    Regroup4(old(oi.text), "{", Members(members, 0, inner), Tail(indent, members == []), "}");
  }

  method SerializeMembers(members: seq<Member>, oi: Output, inner: int)
    requires inner >= -1 && forall j | 0 <= j < |members| :: RealFree(members[j].value)
    modifies oi
    ensures oi.text == old(oi.text) + Members(members, 0, inner)
    decreases members, 3
  {
    ghost var goal := oi.text + Members(members, 0, inner);
    for k := 0 to |members|
      invariant oi.text + Members(members, k, inner) == goal
    {
      Regroup(oi.text, MemberText(members[k], k, inner), Members(members, k + 1, inner));
      SerializeMember(members[k], k, oi, inner);
    }
  }

  method SerializeMember(member: Member, k: nat, oi: Output, inner: int)
    requires inner >= -1 && RealFree(member.value)
    modifies oi
    ensures oi.text == old(oi.text) + MemberText(member, k, inner)
    decreases member, 2
  {
    WriteLead(k, oi, inner);
    SerializeKey(member.key, oi, inner);
    Serialize(member.value, oi, inner);
    Regroup3(old(oi.text), Comma(k) + Lead(inner), KeyText(member.key, inner), Serialized(member.value, inner));
  }

  /** The key, the colon and, when indenting, one space. */
  method SerializeKey(key: bytes, oi: Output, indent: int)
    requires indent >= -1
    modifies oi
    ensures oi.text == old(oi.text) + KeyText(key, indent)
  {
    SerializeStr(key, oi);
    oi.Copy(":");
    if indent != -1 {
      oi.Copy(" ");
    }
  }
}

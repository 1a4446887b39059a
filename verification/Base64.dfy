/** jwt-cpp's base64 and base64url codec. */
module Base64 {
  import opened Bytes
  import opened Wrappers
  import opened Sequences

  datatype Alphabet = Standard | UrlSafe

  /** `T::data()`, written as its ranges. */
  function Symbol(a: Alphabet, n: nat): byte
    requires n < 64
  {
    if n < 26 then ('A' as int + n) as char
    else if n < 52 then ('a' as int + n - 26) as char
    else if n < 62 then ('0' as int + n - 52) as char
    else if n == 62 then (if a.Standard? then '+' else '-')
    else if a.Standard? then '/' else '_'
  }

  /** `T::rdata()`, written as its ranges; -1 marks a character outside the alphabet. */
  function Index(a: Alphabet, c: byte): (n: int)
    ensures -1 <= n < 64
  {
    if 'A' <= c <= 'Z' then c as int - 'A' as int
    else if 'a' <= c <= 'z' then c as int - 'a' as int + 26
    else if '0' <= c <= '9' then c as int - '0' as int + 52
    else if c == (if a.Standard? then '+' else '-') then 62
    else if c == (if a.Standard? then '/' else '_') then 63
    else -1
  }

  lemma SymbolsAndIndices(a: Alphabet)
    ensures forall n: nat | n < 64 :: Index(a, Symbol(a, n)) == n
    ensures forall c: byte | Index(a, c) >= 0 :: Symbol(a, Index(a, c)) == c
  {
  }

  function Fill(a: Alphabet): bytes {
    if a.Standard? then "=" else "%3d"
  }

  datatype DecodeError = TooMuchFill | IncorrectSize | NotInAlphabet

  // ---------- what the codec computes ----------

  function Sextet(triple: nat, shift: nat): (n: nat)
    requires shift > 0
    ensures n < 64
  {
    triple / shift % 0x40
  }

  function Octets(a: byte, b: byte, c: byte): nat {
    a as int * 0x1_0000 + b as int * 0x100 + c as int
  }

  /** The four symbols of three bytes. */
  function Symbols(triple: nat, a: Alphabet): (s: bytes)
    ensures |s| == 4
  {
    [Symbol(a, Sextet(triple, 0x4_0000)), Symbol(a, Sextet(triple, 0x1000)),
     Symbol(a, Sextet(triple, 0x40)), Symbol(a, Sextet(triple, 1))]
  }

  function Encoded(bin: bytes, a: Alphabet, fill: bytes): bytes {
    if |bin| >= 3 then Symbols(Octets(bin[0], bin[1], bin[2]), a) + Encoded(bin[3..], a, fill)
    else if |bin| == 2 then Symbols(Octets(bin[0], bin[1], '\0'), a)[..3] + fill
    else if |bin| == 1 then Symbols(Octets(bin[0], '\0', '\0'), a)[..2] + fill + fill
    else []
  }

  predicate EndsWith(s: bytes, suffix: bytes) {
    |suffix| <= |s| && s[|s| - |suffix|..] == suffix
  }

  datatype Padding = Padding(count: nat, length: nat)

  /** The first of the fills that the text ends with. */
  function FinalFill(base: bytes, fills: seq<bytes>): (r: Option<bytes>)
    ensures r.Some? ==> r.value in fills && EndsWith(base, r.value)
  {
    if fills == [] then None
    else if EndsWith(base, fills[0]) then Some(fills[0])
    else FinalFill(base, fills[1..])
  }

  /** It is the first indeed: an earlier one would have been taken. */
  lemma {:induction false} FinalFillIsFirst(base: bytes, fills: seq<bytes>)
    ensures FinalFill(base, fills).None? <==> forall k | 0 <= k < |fills| :: !EndsWith(base, fills[k])
    ensures FinalFill(base, fills).Some? ==>
              exists k | 0 <= k < |fills| ::
                fills[k] == FinalFill(base, fills).value && forall j | 0 <= j < k :: !EndsWith(base, fills[j])
  {
    hide EndsWith;
    if fills != [] {
      if EndsWith(base, fills[0]) {
        assert fills[0] == FinalFill(base, fills).value;
      } else {
        var rest := fills[1..];
        FinalFillIsFirst(base, rest);
        assert forall k | 0 < k < |fills| :: fills[k] == rest[k - 1];
        if FinalFill(base, rest).Some? {
          var k :| 0 <= k < |rest| && rest[k] == FinalFill(base, rest).value
                   && forall j | 0 <= j < k :: !EndsWith(base, rest[j]);
          assert fills[k + 1] == FinalFill(base, fills).value;
        } else {
          assert forall k | 0 <= k < |rest| :: rest[k] == fills[k + 1];
        }
      }
    }
  }

  /** `count_padding`: strips fills from the end as long as there is one. */
  function CountPadding(base: bytes, fills: seq<bytes>): (p: Padding)
    requires forall f | f in fills :: f != []
    ensures p.length <= |base|
    decreases |base|
  {
    match FinalFill(base, fills)
    case None => Padding(0, 0)
    case Some(fill) =>
      var inner := CountPadding(base[..|base| - |fill|], fills);
      Padding(1 + inner.count, |fill| + inner.length)
  }

  predicate InAlphabet(s: bytes, a: Alphabet) {
    forall i | 0 <= i < |s| :: Index(a, s[i]) >= 0
  }

  function Sextets(w: nat, x: nat, y: nat, z: nat): nat {
    w * 0x4_0000 + x * 0x1000 + y * 0x40 + z
  }

  function Octet(triple: nat, shift: nat): byte
    requires shift > 0
  {
    (triple / shift % 0x100) as char
  }

  function ThreeOctets(triple: nat): (s: bytes)
    ensures |s| == 3
  {
    [Octet(triple, 0x1_0000), Octet(triple, 0x100), Octet(triple, 1)]
  }

  /** The bytes of a text without its fills; the length of the last group says how many fills there were. */
  function Unpacked(core: bytes, a: Alphabet): bytes
    requires InAlphabet(core, a)
  {
    if |core| >= 4 then
      var triple := Sextets(Index(a, core[0]), Index(a, core[1]), Index(a, core[2]), Index(a, core[3]));
      ThreeOctets(triple) + Unpacked(core[4..], a)
    else if |core| == 3 then
      var triple := Sextets(Index(a, core[0]), Index(a, core[1]), Index(a, core[2]), 0);
      ThreeOctets(triple)[..2]
    else if |core| == 2 then
      var triple := Sextets(Index(a, core[0]), Index(a, core[1]), 0, 0);
      ThreeOctets(triple)[..1]
    else []
  }

  function Decoded(base: bytes, a: Alphabet, fills: seq<bytes>): Result<bytes, DecodeError>
    requires forall f | f in fills :: f != []
  {
    DecodedWithout(base, CountPadding(base, fills), a)
  }

  /** The text is decoded without the fills that were counted. */
  function DecodedWithout(base: bytes, pad: Padding, a: Alphabet): Result<bytes, DecodeError>
    requires pad.length <= |base|
  {
    var core := base[..|base| - pad.length];
    if pad.count > 2 then Failure(TooMuchFill)
    else if (|core| + pad.count) % 4 != 0 then Failure(IncorrectSize)
    else DecodedCore(core, a)
  }

  function DecodedCore(core: bytes, a: Alphabet): Result<bytes, DecodeError> {
    if InAlphabet(core, a) then Success(Unpacked(core, a)) else Failure(NotInAlphabet)
  }

  function Repeat(fill: bytes, k: nat): bytes {
    if k == 0 then [] else Repeat(fill, k - 1) + fill
  }

  lemma RepeatSmall(fill: bytes)
    ensures Repeat(fill, 0) == []
    ensures Repeat(fill, 1) == fill
    ensures Repeat(fill, 2) == fill + fill
    ensures Repeat(fill, 3) == fill + fill + fill
  {
    assert Repeat(fill, 1) == Repeat(fill, 0) + fill == fill;
    assert Repeat(fill, 2) == Repeat(fill, 1) + fill;
    assert Repeat(fill, 3) == Repeat(fill, 2) + fill;
  }

  function Padded(base: bytes, fill: bytes): bytes {
    base + Repeat(fill, if |base| % 4 == 0 then 0 else 4 - |base| % 4)
  }

  predicate OccursAt(s: bytes, pattern: bytes, i: nat) {
    i <= |s| && pattern <= s[i..]
  }

  /** `std::string::find`: the first occurrence. */
  function Find(s: bytes, pattern: bytes): (pos: Option<nat>)
    ensures pos.Some? ==> OccursAt(s, pattern, pos.value)
    ensures pos.Some? ==> forall i | 0 <= i < pos.value :: !OccursAt(s, pattern, i)
    ensures pos.None? ==> forall i: nat :: !OccursAt(s, pattern, i)
  {
    if OccursAt(s, pattern, 0) then Some(0)
    else if s == [] then None
    else
      assert forall i: nat | i > 0 :: OccursAt(s, pattern, i) <==> OccursAt(s[1..], pattern, i - 1) by {
        assert forall i | 0 < i <= |s| :: s[i..] == s[1..][i - 1..];
      }
      match Find(s[1..], pattern)
      case None => None
      case Some(pos) => Some(1 + pos)
  }

  function Trimmed(base: bytes, fill: bytes): bytes {
    match Find(base, fill)
    case None => base
    case Some(pos) => base[..pos]
  }

  // ---------- the code ----------

  method Encode(bin: bytes, a: Alphabet, fill: bytes) returns (res: bytes)
    ensures res == Encoded(bin, a, fill)
  {
    hide Symbol, Octets, Sextet, Encoded;
    var size := |bin|;
    res := [];
    assert bin[0..] == bin && [] + Encoded(bin, a, fill) == Encoded(bin, a, fill);
    var fastSize := size - size % 3;
    var i := 0;
    while i < fastSize
      invariant 0 <= i <= fastSize && i % 3 == 0
      invariant res + Encoded(bin[i..], a, fill) == Encoded(bin, a, fill)
    {
      ghost var before := res;
      var triple := Octets(bin[i], bin[i + 1], bin[i + 2]);
      EncodedStep(bin, i, a, fill, res);
      i := i + 3;
      res := res + [Symbol(a, Sextet(triple, 0x4_0000))];
      res := res + [Symbol(a, Sextet(triple, 0x1000))];
      res := res + [Symbol(a, Sextet(triple, 0x40))];
      res := res + [Symbol(a, Sextet(triple, 1))];
      FourAppended(before, Symbols(triple, a));
    }
    if fastSize == size {
      assert bin[fastSize..] == [];
      NothingEncoded(a, fill);
      assert res + [] == res;
      return;
    }
    res := EncodeLast(bin[fastSize..], a, fill, res);
  }

  lemma FourAppended(s: bytes, group: bytes)
    requires |group| == 4
    ensures s + [group[0]] + [group[1]] + [group[2]] + [group[3]] == s + group
  {
  }

  lemma NothingEncoded(a: Alphabet, fill: bytes)
    ensures Encoded([], a, fill) == []
  {
  }

  /** The incomplete group at the end. */
  method EncodeLast(last: bytes, a: Alphabet, fill: bytes, init: bytes) returns (res: bytes)
    requires 1 <= |last| <= 2
    ensures res == init + Encoded(last, a, fill)
  {
    hide Symbol, Octets;
    res := init;
    var mod := |last|;
    var triple := Octets(last[0], if mod > 1 then last[1] else '\0', '\0');
    res := res + [Symbol(a, Sextet(triple, 0x4_0000))];
    res := res + [Symbol(a, Sextet(triple, 0x1000))];
    if mod == 1 {
      res := res + fill;
      res := res + fill;
      assert res == init + (Symbols(triple, a)[..2] + fill + fill);
    } else {
      res := res + [Symbol(a, Sextet(triple, 0x40))];
      res := res + fill;
      assert res == init + (Symbols(triple, a)[..3] + fill);
    }
  }

  lemma EncodedStep(bin: bytes, i: nat, a: Alphabet, fill: bytes, res: bytes)
    requires i + 3 <= |bin|
    ensures res + Symbols(Octets(bin[i], bin[i + 1], bin[i + 2]), a) + Encoded(bin[i + 3..], a, fill)
         == res + Encoded(bin[i..], a, fill)
  {
    assert bin[i..][3..] == bin[i + 3..];
  }

  /** Every `base[offset]` read is inside the text, as the index checks of this method show. */
  method Decode(base: bytes, a: Alphabet, fills: seq<bytes>) returns (r: Result<bytes, DecodeError>)
    requires forall f | f in fills :: f != []
    ensures r == Decoded(base, a, fills)
  {
    hide CountPadding, DecodedCore;
    var pad := CountPadding(base, fills);
    if pad.count > 2 {
      return Failure(TooMuchFill);
    }
    var size := |base| - pad.length;
    if (size + pad.count) % 4 != 0 {
      return Failure(IncorrectSize);
    }
    r := DecodeGroups(base, a, size, pad.count);
  }

  /** `decode` once the size is known to be right. */
  method DecodeGroups(base: bytes, a: Alphabet, size: nat, count: nat) returns (r: Result<bytes, DecodeError>)
    requires size <= |base| && count <= 2 && (size + count) % 4 == 0
    ensures r == DecodedCore(base[..size], a)
  {
    hide InAlphabet, DecodedUpTo;
    ghost var core := base[..size];
    var fastSize := size - size % 4;
    var ok, res := DecodeFast(base, a, fastSize, core);
    if !ok {
      return Failure(NotInAlphabet);
    }
    if count == 0 {
      AllDecoded(core, res, a);
      return Success(res);
    }
    r := DecodeLast(base, a, fastSize, count, res, core);
  }

  /** If the rest from `i` on decodes, then `res` followed by it is what the whole decodes to. */
  ghost predicate DecodedUpTo(core: bytes, i: nat, res: bytes, a: Alphabet)
    requires i <= |core|
  {
    InAlphabet(core[i..], a) ==> InAlphabet(core, a) && res + Unpacked(core[i..], a) == Unpacked(core, a)
  }

  lemma NothingDecoded(core: bytes, a: Alphabet)
    ensures InAlphabet(core[..0], a) && DecodedUpTo(core, 0, [], a)
  {
    assert core[0..] == core;
    assert InAlphabet(core, a) ==> [] + Unpacked(core, a) == Unpacked(core, a);
  }

  lemma AllDecoded(core: bytes, res: bytes, a: Alphabet)
    ensures DecodedUpTo(core, |core|, res, a) ==> DecodedCore(core, a) == Success(res)
  {
    assert core[|core|..] == [] && res + [] == res;
  }

  lemma ForeignSymbol(core: bytes, i: nat, a: Alphabet)
    requires i < |core| && Index(a, core[i]) < 0
    ensures !InAlphabet(core, a)
  {
  }

  /** The complete groups. */
  method DecodeFast(base: bytes, a: Alphabet, fastSize: nat, ghost core: bytes) returns (ok: bool, res: bytes)
    requires core <= base && fastSize <= |core| && fastSize % 4 == 0
    ensures ok ==> InAlphabet(core[..fastSize], a) && DecodedUpTo(core, fastSize, res, a)
    ensures !ok ==> !InAlphabet(core, a)
  {
    hide Index, ThreeOctets, Sextets, InAlphabet, DecodedUpTo;
    res := [];
    NothingDecoded(core, a);
    var i := 0;
    while i < fastSize
      invariant 0 <= i <= fastSize && i % 4 == 0
      invariant InAlphabet(core[..i], a) && DecodedUpTo(core, i, res, a)
    {
      SameSymbols(base, core, i);
      var (w, x, y, z) := (Index(a, base[i]), Index(a, base[i + 1]), Index(a, base[i + 2]), Index(a, base[i + 3]));
      if w < 0 || x < 0 || y < 0 || z < 0 {
        ForeignSymbol(core, if w < 0 then i else if x < 0 then i + 1 else if y < 0 then i + 2 else i + 3, a);
        return false, res;
      }
      GroupUnpacked(core, i, a, res);
      res := res + ThreeOctets(Sextets(w, x, y, z));
      i := i + 4;
    }
    ok := true;
  }

  lemma SameSymbols(base: bytes, core: bytes, i: nat)
    requires core <= base && i + 4 <= |core|
    ensures core[i] == base[i] && core[i + 1] == base[i + 1] && core[i + 2] == base[i + 2] && core[i + 3] == base[i + 3]
  {
  }

  /** The last group of `decode`, of two or three symbols. */
  method DecodeLast(base: bytes, a: Alphabet, fastSize: nat, count: nat, res: bytes, ghost core: bytes)
    returns (r: Result<bytes, DecodeError>)
    requires 1 <= count <= 2 && core <= base && |core| == fastSize + 4 - count
    requires InAlphabet(core[..fastSize], a) && DecodedUpTo(core, fastSize, res, a)
    ensures r == DecodedCore(core, a)
  {
    hide Index, Octet, Sextets;
    ghost var last := core[fastSize..];
    assert forall k | 0 <= k < |last| :: last[k] == base[fastSize + k];
    var (w, x) := (Index(a, base[fastSize]), Index(a, base[fastSize + 1]));
    if w < 0 || x < 0 {
      assert core[fastSize] == base[fastSize] && core[fastSize + 1] == base[fastSize + 1];
      return Failure(NotInAlphabet);
    }
    if count == 1 {
      var y := Index(a, base[fastSize + 2]);
      if y < 0 {
        assert core[fastSize + 2] == base[fastSize + 2];
        return Failure(NotInAlphabet);
      }
      r := Success(res + ThreeOctets(Sextets(w, x, y, 0))[..2]);
    } else {
      r := Success(res + ThreeOctets(Sextets(w, x, 0, 0))[..1]);
    }
  }

  lemma GroupUnpacked(core: bytes, i: nat, a: Alphabet, res: bytes)
    requires i + 4 <= |core|
    requires Index(a, core[i]) >= 0 && Index(a, core[i + 1]) >= 0
    requires Index(a, core[i + 2]) >= 0 && Index(a, core[i + 3]) >= 0
    ensures InAlphabet(core[..i], a) ==> InAlphabet(core[..i + 4], a)
    ensures var (w, x) := (Index(a, core[i]), Index(a, core[i + 1]));
            var (y, z) := (Index(a, core[i + 2]), Index(a, core[i + 3]));
            DecodedUpTo(core, i, res, a) ==> DecodedUpTo(core, i + 4, res + ThreeOctets(Sextets(w, x, y, z)), a)
  {
    hide Index, ThreeOctets, Sextets, Unpacked, InAlphabet;
    GroupInAlphabet(core, i, a);
    if InAlphabet(core[i + 4..], a) {
      var (w, x, y, z) := (Index(a, core[i]), Index(a, core[i + 1]), Index(a, core[i + 2]), Index(a, core[i + 3]));
      UnpackedTail(core, i, a);
      Regroup(res, ThreeOctets(Sextets(w, x, y, z)), Unpacked(core[i + 4..], a));
    }
  }

  lemma GroupInAlphabet(core: bytes, i: nat, a: Alphabet)
    requires i + 4 <= |core|
    requires Index(a, core[i]) >= 0 && Index(a, core[i + 1]) >= 0
    requires Index(a, core[i + 2]) >= 0 && Index(a, core[i + 3]) >= 0
    ensures InAlphabet(core[..i], a) ==> InAlphabet(core[..i + 4], a)
    ensures InAlphabet(core[i + 4..], a) ==> InAlphabet(core[i..], a)
  {
    hide Index;
    if InAlphabet(core[i + 4..], a) {
      forall k | 0 <= k < |core| - i ensures Index(a, core[i..][k]) >= 0 {
        if k >= 4 {
          assert core[i..][k] == core[i + 4..][k - 4];
        }
      }
    }
  }

  lemma UnpackedTail(core: bytes, i: nat, a: Alphabet)
    requires i + 4 <= |core| && InAlphabet(core[i..], a) && InAlphabet(core[i + 4..], a)
    ensures Index(a, core[i]) >= 0 && Index(a, core[i + 1]) >= 0
    ensures Index(a, core[i + 2]) >= 0 && Index(a, core[i + 3]) >= 0
    ensures var (w, x) := (Index(a, core[i]), Index(a, core[i + 1]));
            var (y, z) := (Index(a, core[i + 2]), Index(a, core[i + 3]));
            var triple := Sextets(w, x, y, z);
            Unpacked(core[i..], a) == ThreeOctets(triple) + Unpacked(core[i + 4..], a)
  {
    hide Index, ThreeOctets, Sextets;
    var tail := core[i..];
    assert tail[0] == core[i] && tail[1] == core[i + 1] && tail[2] == core[i + 2] && tail[3] == core[i + 3];
    assert tail[4..] == core[i + 4..];
  }

  method Pad(base: bytes, fill: bytes) returns (padded: bytes)
    ensures padded == Padded(base, fill)
  {
    var padding: bytes := [];
    var mod := |base| % 4;
    if mod == 1 {
      padding := padding + fill;
    }
    if mod == 1 || mod == 2 {
      padding := padding + fill;
    }
    if mod == 1 || mod == 2 || mod == 3 {
      padding := padding + fill;
    }
    RepeatSmall(fill);
    padded := base + padding;
  }
}

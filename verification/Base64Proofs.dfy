/** The codec's round trips and the exact set of texts that `decode` accepts. */
module Base64Proofs {
  import opened Bytes
  import opened Wrappers
  import opened Base64
  import opened Sequences

  // ---------- the alphabets ----------

  const UPPER: bytes := "ABCDEFGHIJKLMNOPQRSTUVWXYZ"
  const LOWER: bytes := "abcdefghijklmnopqrstuvwxyz"
  const DIGITS: bytes := "0123456789"

  /** The tables of sections 4 and 5 of RFC 4648, and the two fills. */
  lemma AlphabetsAndFills()
    ensures Fill(Standard) == "=" && Fill(UrlSafe) == "%3d"
    ensures |UPPER| == |LOWER| == 26 && |DIGITS| == 10
    ensures forall a: Alphabet, n: nat | n < 26 ::
              Symbol(a, n) == UPPER[n] && Symbol(a, 26 + n) == LOWER[n] && (n < 10 ==> Symbol(a, 52 + n) == DIGITS[n])
    ensures Symbol(Standard, 62) == '+' && Symbol(Standard, 63) == '/'
    ensures Symbol(UrlSafe, 62) == '-' && Symbol(UrlSafe, 63) == '_'
  {
  }

  // ---------- bits ----------

  /** The `width` low bits of `n`, the highest first. */
  function Bits(n: nat, width: nat): (bits: seq<bool>)
    ensures |bits| == width
  {
    if width == 0 then [] else Bits(n / 2, width - 1) + [n % 2 == 1]
  }

  function ByteBits(bin: bytes): seq<bool> {
    if bin == [] then [] else Bits(bin[0] as int, 8) + ByteBits(bin[1..])
  }

  function SymbolBits(core: bytes, a: Alphabet): seq<bool>
    requires InAlphabet(core, a)
  {
    if core == [] then [] else Bits(Index(a, core[0]), 6) + SymbolBits(core[1..], a)
  }

  function Zeros(count: nat): seq<bool> {
    seq(count, _ => false)
  }

  function Pow2(k: nat): nat {
    if k == 0 then 1 else 2 * Pow2(k - 1)
  }

  /** Multiplying by a power of two and adding less than it puts bits behind bits. */
  lemma {:induction false} BitsJoin(q: nat, r: nat, width: nat, k: nat)
    requires r < Pow2(k)
    ensures Bits(q * Pow2(k) + r, width + k) == Bits(q, width) + Bits(r, k)
  {
    if k == 0 {
      assert Bits(q, width) + [] == Bits(q, width);
    } else {
      var half := q * Pow2(k - 1);
      var n := q * Pow2(k) + r;
      assert q * Pow2(k) == 2 * half;
      assert n / 2 == half + r / 2 && n % 2 == r % 2;
      BitsJoin(q, r / 2, width, k - 1);
      Regroup(Bits(q, width), Bits(r / 2, k - 1), [r % 2 == 1]);
    }
  }

  lemma Powers()
    ensures Pow2(6) == 0x40 && Pow2(8) == 0x100
  {
    assert Pow2(3) == 8;
    assert Pow2(6) == 8 * Pow2(3);
    assert Pow2(8) == 4 * Pow2(6);
  }

  lemma {:induction false} ZeroBits(k: nat)
    ensures Bits(0, k) == Zeros(k)
  {
    if k > 0 {
      ZeroBits(k - 1);
    }
  }

  /** The bits of a group of three bytes. */
  lemma OctetBits(a: byte, b: byte, c: byte)
    ensures Bits(Octets(a, b, c), 24) == Bits(a as int, 8) + Bits(b as int, 8) + Bits(c as int, 8)
  {
    hide Bits;
    Powers();
    BitsJoin(a as int, b as int, 8, 8);
    BitsJoin(a as int * 0x100 + b as int, c as int, 16, 8);
  }

  /** The bits of a group of four symbols. */
  lemma SextetBits(w: nat, x: nat, y: nat, z: nat)
    requires w < 64 && x < 64 && y < 64 && z < 64
    ensures Bits(Sextets(w, x, y, z), 24) == Bits(w, 6) + Bits(x, 6) + Bits(y, 6) + Bits(z, 6)
  {
    hide Bits;
    Powers();
    BitsJoin(w, x, 6, 6);
    BitsJoin(w * 64 + x, y, 12, 6);
    BitsJoin((w * 64 + x) * 64 + y, z, 18, 6);
  }

  // ---------- one group ----------

  lemma OctetsJoin(triple: nat)
    requires triple < 0x100_0000
    ensures triple == triple / 0x1_0000 % 0x100 * 0x1_0000 + triple / 0x100 % 0x100 * 0x100 + triple % 0x100
  {
  }

  lemma OctetsSplit(a: nat, b: nat, c: nat)
    requires a < 0x100 && b < 0x100 && c < 0x100
    ensures var triple := a * 0x1_0000 + b * 0x100 + c;
            triple < 0x100_0000
            && triple / 0x1_0000 % 0x100 == a && triple / 0x100 % 0x100 == b && triple / 1 % 0x100 == c
  {
    var triple := a * 0x1_0000 + b * 0x100 + c;
    LastOctet(a * 0x100 + b, c);
    LastOctet(a, b);
    ShiftTwice(triple);
  }

  lemma LastOctet(q: nat, r: nat)
    requires r < 0x100
    ensures (q * 0x100 + r) / 0x100 == q && (q * 0x100 + r) % 0x100 == r
  {
  }

  lemma ShiftTwice(n: nat)
    ensures n / 0x1_0000 == n / 0x100 / 0x100
  {
  }

  lemma SextetsJoin(triple: nat)
    requires triple < 0x100_0000
    ensures triple == Sextets(Sextet(triple, 0x4_0000), Sextet(triple, 0x1000), Sextet(triple, 0x40), Sextet(triple, 1))
  {
    SextetShifts(triple);
    LastSextet(triple);
    LastSextet(triple / 0x40);
    LastSextet(triple / 0x1000);
    SmallSextet(triple / 0x4_0000);
  }

  lemma SextetShifts(n: nat)
    requires n < 0x100_0000
    ensures n / 0x1000 == n / 0x40 / 0x40
    ensures n / 0x4_0000 == n / 0x1000 / 0x40
    ensures n / 0x4_0000 < 0x40
  {
  }

  lemma LastSextet(n: nat)
    ensures n == n / 0x40 * 0x40 + n % 0x40
  {
  }

  lemma SmallSextet(n: nat)
    requires n < 0x40
    ensures n % 0x40 == n
  {
  }

  lemma SextetsSplit(w: nat, x: nat, y: nat, z: nat)
    requires w < 64 && x < 64 && y < 64 && z < 64
    ensures var triple := Sextets(w, x, y, z);
            triple < 0x100_0000 && Sextet(triple, 0x4_0000) == w && Sextet(triple, 0x1000) == x
            && Sextet(triple, 0x40) == y && Sextet(triple, 1) == z
  {
    var triple := Sextets(w, x, y, z);
    assert triple / 0x40 == w * 0x1000 + x * 0x40 + y;
    assert triple / 0x1000 == triple / 0x40 / 0x40 == w * 0x40 + x;
    assert triple / 0x4_0000 == triple / 0x1000 / 0x40 == w;
  }

  // ---------- the same bits ----------

  /** Four symbols carry the bits of three bytes. */
  lemma GroupBits(b0: byte, b1: byte, b2: byte, a: Alphabet)
    ensures var s := Symbols(Octets(b0, b1, b2), a);
            && InAlphabet(s, a)
            && Bits(Index(a, s[0]), 6) + Bits(Index(a, s[1]), 6) + Bits(Index(a, s[2]), 6) + Bits(Index(a, s[3]), 6)
               == Bits(b0 as int, 8) + Bits(b1 as int, 8) + Bits(b2 as int, 8)
  {
    hide Symbols, Sextet, Index, Bits, Sextets;
    var triple := Octets(b0, b1, b2);
    SymbolsInAlphabet(triple, a);
    SextetsJoin(triple);
    OctetBits(b0, b1, b2);
    SextetBits(Sextet(triple, 0x4_0000), Sextet(triple, 0x1000), Sextet(triple, 0x40), Sextet(triple, 1));
  }

  lemma SymbolBitsOfGroup(group: bytes, rest: bytes, a: Alphabet)
    requires |group| == 4 && InAlphabet(group, a) && InAlphabet(rest, a)
    ensures InAlphabet(group + rest, a)
    ensures SymbolBits(group + rest, a)
         == Bits(Index(a, group[0]), 6) + Bits(Index(a, group[1]), 6) + Bits(Index(a, group[2]), 6)
            + Bits(Index(a, group[3]), 6) + SymbolBits(rest, a)
  {
    hide Bits, Index;
    SymbolBitsStep(group + rest, a);
    SymbolBitsStep((group + rest)[1..], a);
    SymbolBitsStep((group + rest)[2..], a);
    SymbolBitsStep((group + rest)[3..], a);
    assert (group + rest)[1..][1..] == (group + rest)[2..] && (group + rest)[2..][1..] == (group + rest)[3..];
    assert (group + rest)[3..][1..] == rest;
    FiveParts(Bits(Index(a, group[0]), 6), Bits(Index(a, group[1]), 6), Bits(Index(a, group[2]), 6),
              Bits(Index(a, group[3]), 6), SymbolBits(rest, a));
  }

  lemma SymbolBitsStep(core: bytes, a: Alphabet)
    requires core != [] && InAlphabet(core, a)
    ensures InAlphabet(core[1..], a)
    ensures SymbolBits(core, a) == Bits(Index(a, core[0]), 6) + SymbolBits(core[1..], a)
  {
  }

  lemma FiveParts<T>(a: seq<T>, b: seq<T>, c: seq<T>, d: seq<T>, e: seq<T>)
    ensures a + (b + (c + (d + e))) == a + b + c + d + e
  {
  }

  lemma ByteBitsOfGroup(group: bytes, rest: bytes)
    requires |group| == 3
    ensures ByteBits(group + rest)
         == Bits(group[0] as int, 8) + Bits(group[1] as int, 8) + Bits(group[2] as int, 8) + ByteBits(rest)
  {
    hide Bits, ByteBits;
    ByteBitsStep(group + rest);
    ByteBitsStep((group + rest)[1..]);
    ByteBitsStep((group + rest)[2..]);
    assert (group + rest)[1..][1..] == (group + rest)[2..] && (group + rest)[2..][1..] == rest;
    FourParts(Bits(group[0] as int, 8), Bits(group[1] as int, 8), Bits(group[2] as int, 8), ByteBits(rest));
  }

  lemma ByteBitsStep(bin: bytes)
    requires bin != []
    ensures ByteBits(bin) == Bits(bin[0] as int, 8) + ByteBits(bin[1..])
  {
  }

  lemma FourParts<T>(a: seq<T>, b: seq<T>, c: seq<T>, d: seq<T>)
    ensures a + (b + (c + d)) == a + b + c + d
  {
  }

  /** The law of section 4 of RFC 4648: six bits a symbol, the symbols carry the bits of the bytes and then zeros. */
  lemma {:induction false} EncodedBits(bin: bytes, a: Alphabet)
    ensures InAlphabet(Core(bin, a), a)
    ensures SymbolBits(Core(bin, a), a) == ByteBits(bin) + Zeros(2 * Fills(|bin|))
  {
    hide Symbols, Octets, Index, Bits, SymbolBits, ByteBits, Core, InAlphabet, Fills;
    if |bin| >= 3 {
      var group := Symbols(Octets(bin[0], bin[1], bin[2]), a);
      GroupBits(bin[0], bin[1], bin[2], a);
      EncodedBits(bin[3..], a);
      CoreOfGroup(bin[..3], bin[3..], a);
      assert bin == bin[..3] + bin[3..];
      SymbolBitsOfGroup(group, Core(bin[3..], a), a);
      ByteBitsOfGroup(bin[..3], bin[3..]);
      FillsPeriod(|bin| - 3);
      Regroup(Bits(bin[0] as int, 8) + Bits(bin[1] as int, 8) + Bits(bin[2] as int, 8),
              ByteBits(bin[3..]), Zeros(2 * Fills(|bin|)));
    } else {
      LastBits(bin, a);
    }
  }

  lemma LastBits(bin: bytes, a: Alphabet)
    requires |bin| < 3
    ensures InAlphabet(Core(bin, a), a)
    ensures SymbolBits(Core(bin, a), a) == ByteBits(bin) + Zeros(2 * Fills(|bin|))
  {
    hide Symbols, Octets, Index, Bits;
    if |bin| == 2 {
      GroupBits(bin[0], bin[1], '\0', a);
      var s := Symbols(Octets(bin[0], bin[1], '\0'), a);
      assert Core(bin, a) == s[..3];
      TwoBytesBits(bin, s, a);
    } else if |bin| == 1 {
      GroupBits(bin[0], '\0', '\0', a);
      var s := Symbols(Octets(bin[0], '\0', '\0'), a);
      assert Core(bin, a) == s[..2];
      OneByteBits(bin, s, a);
    } else {
      assert Core(bin, a) == [] && Zeros(2 * Fills(0)) == [];
    }
  }

  lemma TwoBytesBits(bin: bytes, s: bytes, a: Alphabet)
    requires |bin| == 2 && |s| == 4 && InAlphabet(s, a) && InAlphabet(s[..3], a)
    requires Bits(Index(a, s[0]), 6) + Bits(Index(a, s[1]), 6) + Bits(Index(a, s[2]), 6) + Bits(Index(a, s[3]), 6)
          == Bits(bin[0] as int, 8) + Bits(bin[1] as int, 8) + Bits(0, 8)
    ensures SymbolBits(s[..3], a) == ByteBits(bin) + Zeros(2)
  {
    hide Index, Bits, SymbolBits, ByteBits;
    var core := s[..3];
    SymbolBitsStep(core, a);
    SymbolBitsStep(core[1..], a);
    SymbolBitsStep(core[1..][1..], a);
    ByteBitsStep(bin);
    ByteBitsStep(bin[1..]);
    assert core[1..][0] == s[1] && core[1..][1..][0] == s[2] && core[1..][1..][1..] == [] && bin[1..][1..] == [];
    NoBits(a);
    ZeroBits(8);
    PrefixOfBits(Bits(Index(a, s[0]), 6), Bits(Index(a, s[1]), 6), Bits(Index(a, s[2]), 6), Bits(Index(a, s[3]), 6),
                 Bits(bin[0] as int, 8), Bits(bin[1] as int, 8), Bits(0, 8));
  }

  lemma OneByteBits(bin: bytes, s: bytes, a: Alphabet)
    requires |bin| == 1 && |s| == 4 && InAlphabet(s, a) && InAlphabet(s[..2], a)
    requires Bits(Index(a, s[0]), 6) + Bits(Index(a, s[1]), 6) + Bits(Index(a, s[2]), 6) + Bits(Index(a, s[3]), 6)
          == Bits(bin[0] as int, 8) + Bits(0, 8) + Bits(0, 8)
    ensures SymbolBits(s[..2], a) == ByteBits(bin) + Zeros(4)
  {
    hide Index, Bits, SymbolBits, ByteBits;
    var core := s[..2];
    SymbolBitsStep(core, a);
    SymbolBitsStep(core[1..], a);
    ByteBitsStep(bin);
    assert core[1..][0] == s[1] && core[1..][1..] == [] && bin[1..] == [];
    NoBits(a);
    ZeroBits(8);
    PrefixOfBits(Bits(Index(a, s[0]), 6), Bits(Index(a, s[1]), 6), Bits(Index(a, s[2]), 6), Bits(Index(a, s[3]), 6),
                 Bits(bin[0] as int, 8), Bits(0, 8), Bits(0, 8));
  }

  lemma NoBits(a: Alphabet)
    ensures InAlphabet([], a) && SymbolBits([], a) == [] && ByteBits([]) == []
  {
  }

  lemma PrefixOfBits(w: seq<bool>, x: seq<bool>, y: seq<bool>, z: seq<bool>, a: seq<bool>, b: seq<bool>, c: seq<bool>)
    requires |w| == |x| == |y| == |z| == 6 && |a| == |b| == |c| == 8 && w + x + y + z == a + b + c
    ensures c == Zeros(8) ==> w + (x + (y + [])) == a + (b + []) + Zeros(2)
    ensures b == c == Zeros(8) ==> w + (x + []) == a + [] + Zeros(4)
  {
    var all := w + x + y + z;
    assert w + x + y == all[..18] && w + x == all[..12];
    assert (a + b + c)[..18] == a + b + c[..2] && (a + b + c)[..12] == a + b[..4];
    assert w + (x + (y + [])) == w + x + y && w + (x + []) == w + x;
    assert a + (b + []) == a + b && a + [] == a;
    assert c == Zeros(8) ==> c[..2] == Zeros(2);
    assert b == Zeros(8) ==> b[..4] == Zeros(4);
  }

  // ---------- decoding undoes encoding ----------

  /** The symbols of an encoded text, without the fills. */
  function Core(bin: bytes, a: Alphabet): bytes {
    Encoded(bin, a, [])
  }

  /** How many fills complete the last group. */
  function Fills(size: nat): (k: nat)
    ensures k <= 2
  {
    if size % 3 == 0 then 0 else 3 - size % 3
  }

  lemma SymbolsInAlphabet(triple: nat, a: Alphabet)
    ensures InAlphabet(Symbols(triple, a), a)
    ensures var s := Symbols(triple, a);
            && Index(a, s[0]) == Sextet(triple, 0x4_0000) && Index(a, s[1]) == Sextet(triple, 0x1000)
            && Index(a, s[2]) == Sextet(triple, 0x40) && Index(a, s[3]) == Sextet(triple, 1)
  {
    SymbolsAndIndices(a);
  }

  lemma {:induction false} EncodedIsCoreAndFills(bin: bytes, a: Alphabet, fill: bytes)
    ensures Encoded(bin, a, fill) == Core(bin, a) + Repeat(fill, Fills(|bin|))
    ensures InAlphabet(Core(bin, a), a) && (|Core(bin, a)| + Fills(|bin|)) % 4 == 0
  {
    hide Symbols, Octets, Index, Repeat, InAlphabet, Encoded;
    if |bin| >= 3 {
      var group := Symbols(Octets(bin[0], bin[1], bin[2]), a);
      SymbolsInAlphabet(Octets(bin[0], bin[1], bin[2]), a);
      EncodedIsCoreAndFills(bin[3..], a, fill);
      EncodedGroup(bin, a, fill);
      EncodedGroup(bin, a, []);
      InAlphabetConcat(group, Core(bin[3..], a), a);
      Regroup(group, Core(bin[3..], a), Repeat(fill, Fills(|bin|)));
    } else {
      LastIsCoreAndFills(bin, a, fill);
    }
  }

  lemma EncodedGroup(bin: bytes, a: Alphabet, fill: bytes)
    requires |bin| >= 3
    ensures Encoded(bin, a, fill) == Symbols(Octets(bin[0], bin[1], bin[2]), a) + Encoded(bin[3..], a, fill)
  {
  }

  lemma LastIsCoreAndFills(bin: bytes, a: Alphabet, fill: bytes)
    requires |bin| < 3
    ensures Encoded(bin, a, fill) == Core(bin, a) + Repeat(fill, Fills(|bin|))
    ensures InAlphabet(Core(bin, a), a) && (|Core(bin, a)| + Fills(|bin|)) % 4 == 0
  {
    hide Symbols, Octets, Index, Repeat;
    RepeatSmall(fill);
    if |bin| == 2 {
      var s := Symbols(Octets(bin[0], bin[1], '\0'), a);
      SymbolsInAlphabet(Octets(bin[0], bin[1], '\0'), a);
      assert s[..3] + [] == s[..3];
    } else if |bin| == 1 {
      var s := Symbols(Octets(bin[0], '\0', '\0'), a);
      SymbolsInAlphabet(Octets(bin[0], '\0', '\0'), a);
      assert s[..2] + [] + [] == s[..2];
      Regroup(s[..2], fill, fill);
    }
  }

  lemma InAlphabetConcat(s: bytes, t: bytes, a: Alphabet)
    requires InAlphabet(s, a) && InAlphabet(t, a)
    ensures InAlphabet(s + t, a)
  {
  }

  lemma {:induction false} UnpackedCore(bin: bytes, a: Alphabet)
    requires InAlphabet(Core(bin, a), a)
    ensures Unpacked(Core(bin, a), a) == bin
  {
    hide Symbols, Octets, Index, ThreeOctets, Sextets;
    var core := Core(bin, a);
    if |bin| >= 3 {
      var triple := Octets(bin[0], bin[1], bin[2]);
      GroupRoundTrip(bin[0], bin[1], bin[2], a);
      assert core[..4] == Symbols(triple, a) && core[4..] == Core(bin[3..], a);
      UnpackedCore(bin[3..], a);
      assert bin == [bin[0], bin[1], bin[2]] + bin[3..];
    } else if |bin| == 2 {
      GroupRoundTrip(bin[0], bin[1], '\0', a);
      assert core == Symbols(Octets(bin[0], bin[1], '\0'), a)[..3];
    } else if |bin| == 1 {
      GroupRoundTrip(bin[0], '\0', '\0', a);
      assert core == Symbols(Octets(bin[0], '\0', '\0'), a)[..2];
    }
  }

  /** Three bytes survive the trip through four symbols, of which the last ones stand for 0 in a short group. */
  lemma GroupRoundTrip(b0: byte, b1: byte, b2: byte, a: Alphabet)
    ensures var s := Symbols(Octets(b0, b1, b2), a);
            && InAlphabet(s, a)
            && ThreeOctets(Sextets(Index(a, s[0]), Index(a, s[1]), Index(a, s[2]), Index(a, s[3]))) == [b0, b1, b2]
            && (b2 == '\0' ==> ThreeOctets(Sextets(Index(a, s[0]), Index(a, s[1]), Index(a, s[2]), 0)) == [b0, b1, b2])
            && (b1 == b2 == '\0' ==> ThreeOctets(Sextets(Index(a, s[0]), Index(a, s[1]), 0, 0)) == [b0, b1, b2])
  {
    var triple := Octets(b0, b1, b2);
    hide Symbols, Sextet, Index, Sextets, Symbol, InAlphabet;
    SymbolsInAlphabet(triple, a);
    OctetsSplit(b0 as int, b1 as int, b2 as int);
    SextetsJoin(triple);
    assert b2 == '\0' ==> Sextet(triple, 1) == 0 by {
      if b2 == '\0' { LowSextets(triple); }
    }
    assert b1 == b2 == '\0' ==> Sextet(triple, 0x40) == 0 by {
      if b1 == b2 == '\0' { LowSextets(triple); }
    }
  }

  lemma LowSextets(triple: nat)
    ensures triple % 0x100 == 0 ==> Sextet(triple, 1) == 0
    ensures triple % 0x1_0000 == 0 ==> Sextet(triple, 1) == 0 && Sextet(triple, 0x40) == 0
  {
    Sixteen(triple / 0x100);
    Sixteen(triple / 0x1_0000 * 0x100);
    Sixteen(triple / 0x1_0000 * 4);
  }

  lemma Sixteen(q: nat)
    ensures q * 0x100 % 0x40 == 0 && q * 0x100 / 0x40 == q * 4
  {
  }

  // ---------- fills ----------

  lemma FillStartsOutside(s: bytes, a: Alphabet)
    requires InAlphabet(s, a)
    ensures !EndsWith(s, Fill(a))
    ensures forall i: nat :: !OccursAt(s, Fill(a), i)
  {
    assert Index(a, Fill(a)[0]) == -1;
    forall i: nat | i < |s| ensures !OccursAt(s, Fill(a), i) {
      assert s[i..][0] == s[i];
    }
  }

  /** `count_padding` with a single fill. */
  function CountFills(base: bytes, fill: bytes): (p: Padding)
    requires fill != []
    ensures p.length <= |base|
  {
    CountPadding(base, [fill])
  }

  lemma CountOneFill(base: bytes, fill: bytes)
    requires fill != []
    ensures EndsWith(base, fill) ==>
              var inner := CountFills(base[..|base| - |fill|], fill);
              CountFills(base, fill) == Padding(1 + inner.count, |fill| + inner.length)
    ensures !EndsWith(base, fill) ==> CountFills(base, fill) == Padding(0, 0)
  {
    hide EndsWith;
    assert [fill][0] == fill && [fill][1..] == [];
    assert FinalFill(base, [fill]) == if EndsWith(base, fill) then Some(fill) else FinalFill(base, []);
  }

  lemma CountAppended(s: bytes, fill: bytes)
    requires fill != []
    ensures var inner := CountFills(s, fill);
            CountFills(s + fill, fill) == Padding(1 + inner.count, |fill| + inner.length)
  {
    hide CountFills;
    CountOneFill(s + fill, fill);
    assert (s + fill)[..|s + fill| - |fill|] == s && (s + fill)[|s + fill| - |fill|..] == fill;
  }

  lemma {:induction false} PaddingIsFills(base: bytes, fill: bytes)
    requires fill != []
    ensures var p := CountFills(base, fill);
            base == base[..|base| - p.length] + Repeat(fill, p.count)
    decreases |base|
  {
    hide CountFills;
    CountOneFill(base, fill);
    if EndsWith(base, fill) {
      var inner := base[..|base| - |fill|];
      var p := CountFills(inner, fill);
      PaddingIsFills(inner, fill);
      var core := inner[..|inner| - p.length];
      assert base == inner + fill;
      Regroup(core, Repeat(fill, p.count), fill);
      assert core == base[..|base| - (|fill| + p.length)];
    } else {
      assert base[..|base|] == base;
    }
  }

  // ---------- main results ----------

  /** `s` is `core`, all in the alphabet, completed by `k` fills to a whole number of groups of four. */
  predicate IsPadded(s: bytes, core: bytes, k: nat, a: Alphabet) {
    s == core + Repeat(Fill(a), k) && InAlphabet(core, a) && k <= 2 && (|core| + k) % 4 == 0
  }

  lemma DecodedPadded(s: bytes, core: bytes, k: nat, a: Alphabet)
    requires IsPadded(s, core, k, a)
    ensures Decoded(s, a, [Fill(a)]) == Success(Unpacked(core, a))
  {
    FillStartsOutside(core, a);
    DecodeOutcome(core, k, a);
  }

  /** Exactly the texts of whole groups are decoded, the last group being completed by at most two fills. */
  lemma AcceptedTexts(s: bytes, a: Alphabet)
    ensures Decoded(s, a, [Fill(a)]).Success? <==> exists core, k :: IsPadded(s, core, k, a)
  {
    if Decoded(s, a, [Fill(a)]).Success? {
      var p := CountPadding(s, [Fill(a)]);
      PaddingIsFills(s, Fill(a));
      assert IsPadded(s, s[..|s| - p.length], p.count, a);
    }
    if exists core, k :: IsPadded(s, core, k, a) {
      var core, k :| IsPadded(s, core, k, a);
      DecodedPadded(s, core, k, a);
    }
  }

  /** What is decoded or which error is reported, for every text: a `body` without a fill at its end, and `k` fills. */
  lemma DecodeOutcome(body: bytes, k: nat, a: Alphabet)
    requires !EndsWith(body, Fill(a))
    ensures Decoded(body + Repeat(Fill(a), k), a, [Fill(a)]) ==
            if k > 2 then Failure(TooMuchFill)
            else if (|body| + k) % 4 != 0 then Failure(IncorrectSize)
            else if !InAlphabet(body, a) then Failure(NotInAlphabet)
            else Success(Unpacked(body, a))
  {
    var fill := Fill(a);
    assert fill != [];
    hide Fill, EndsWith, CountPadding, Repeat, DecodedWithout, InAlphabet;
    CountBehind(body, k, fill);
    DecodedFront(body, Repeat(fill, k), k, a);
  }

  lemma DecodedFront(body: bytes, tail: bytes, k: nat, a: Alphabet)
    ensures DecodedWithout(body + tail, Padding(k, |tail|), a) ==
            if k > 2 then Failure(TooMuchFill)
            else if (|body| + k) % 4 != 0 then Failure(IncorrectSize)
            else if !InAlphabet(body, a) then Failure(NotInAlphabet)
            else Success(Unpacked(body, a))
  {
    hide InAlphabet, Unpacked;
    assert (body + tail)[..|body + tail| - |tail|] == body;
  }

  /** Every text is of that form. */
  lemma EveryTextHasBody(s: bytes, a: Alphabet)
    ensures exists body: bytes, k :: !EndsWith(body, Fill(a)) && s == body + Repeat(Fill(a), k)
  {
    var p := CountFills(s, Fill(a));
    PaddingIsFills(s, Fill(a));
    NoFillLeft(s, Fill(a));
    assert !EndsWith(s[..|s| - p.length], Fill(a));
  }

  lemma {:induction false} NoFillLeft(base: bytes, fill: bytes)
    requires fill != []
    ensures !EndsWith(base[..|base| - CountFills(base, fill).length], fill)
    decreases |base|
  {
    hide CountFills, EndsWith;
    CountOneFill(base, fill);
    if EndsWith(base, fill) {
      EndsWithin(base, fill);
      var inner := base[..|base| - |fill|];
      NoFillLeft(inner, fill);
      var rest := CountFills(inner, fill).length;
      assert inner[..|inner| - rest] == base[..|base| - (|fill| + rest)];
    } else {
      assert base[..|base|] == base;
    }
  }

  lemma EndsWithin(base: bytes, fill: bytes)
    requires EndsWith(base, fill)
    ensures |fill| <= |base|
  {
  }

  lemma {:induction false} CountBehind(body: bytes, k: nat, fill: bytes)
    requires fill != [] && !EndsWith(body, fill)
    ensures CountFills(body + Repeat(fill, k), fill) == Padding(k, |Repeat(fill, k)|)
  {
    hide CountFills, EndsWith;
    if k == 0 {
      CountOneFill(body, fill);
      assert body + Repeat(fill, 0) == body;
    } else {
      CountBehind(body, k - 1, fill);
      CountAppended(body + Repeat(fill, k - 1), fill);
      Regroup(body, Repeat(fill, k - 1), fill);
    }
  }

  /** `pad` appends the fills that are missing to a whole number of groups. */
  lemma PaddedExactly(base: bytes, fill: bytes)
    ensures exists k: nat :: k < 4 && (|base| + k) % 4 == 0 && Padded(base, fill) == base + Repeat(fill, k)
  {
    hide Repeat;
    var k: nat := if |base| % 4 == 0 then 0 else 4 - |base| % 4;
    assert k < 4 && (|base| + k) % 4 == 0 && Padded(base, fill) == base + Repeat(fill, k);
  }

  /** `trim` keeps what is before the first fill, wherever that is, and everything if there is none. */
  lemma TrimmedExactly(base: bytes, fill: bytes)
    ensures (forall i: nat :: !OccursAt(base, fill, i)) ==> Trimmed(base, fill) == base
    ensures forall i: nat | OccursAt(base, fill, i) && (forall j: nat | j < i :: !OccursAt(base, fill, j)) ::
              Trimmed(base, fill) == base[..i]
  {
    hide Find, OccursAt;
    var pos := Find(base, fill);
    forall i: nat | OccursAt(base, fill, i) && (forall j: nat | j < i :: !OccursAt(base, fill, j))
      ensures i <= |base| && Trimmed(base, fill) == base[..i]
    {
      OccursWithin(base, fill, i);
      assert pos.Some? && !(pos.value < i) && !(i < pos.value);
    }
  }

  lemma OccursWithin(base: bytes, fill: bytes, i: nat)
    requires OccursAt(base, fill, i)
    ensures i <= |base|
  {
  }

  /** Decoding undoes encoding, in both alphabets. */
  lemma DecodeUndoesEncode(bin: bytes, a: Alphabet)
    ensures Decoded(Encoded(bin, a, Fill(a)), a, [Fill(a)]) == Success(bin)
  {
    assert Fill(a) != [];
    hide Encoded, Decoded, Unpacked, Fill, InAlphabet, Repeat;
    EncodedIsCoreAndFills(bin, a, Fill(a));
    UnpackedCore(bin, a);
    DecodedPadded(Encoded(bin, a, Fill(a)), Core(bin, a), Fills(|bin|), a);
  }

  lemma TrimmedIsCore(core: bytes, k: nat, a: Alphabet)
    requires InAlphabet(core, a)
    ensures Trimmed(core + Repeat(Fill(a), k), Fill(a)) == core
  {
    hide Find, InAlphabet, Fill, OccursAt;
    var base := core + Repeat(Fill(a), k);
    if k == 0 {
      assert base == core;
      FillStartsOutside(core, a);
    } else {
      RepeatStarts(Fill(a), k);
      FirstFill(core, Repeat(Fill(a), k), a);
    }
  }

  lemma FirstFill(core: bytes, fills: bytes, a: Alphabet)
    requires InAlphabet(core, a) && Fill(a) <= fills
    ensures Find(core + fills, Fill(a)) == Some(|core|)
  {
    hide Find;
    var base := core + fills;
    assert OccursAt(base, Fill(a), |core|) by {
      assert base[|core|..] == fills;
    }
    forall i | 0 <= i < |core| ensures !OccursAt(base, Fill(a), i) {
      assert Index(a, Fill(a)[0]) == -1;
      assert base[i..][0] == core[i];
    }
  }

  lemma {:induction false} RepeatStarts(fill: bytes, k: nat)
    requires k > 0
    ensures fill <= Repeat(fill, k)
  {
    if k > 1 {
      RepeatStarts(fill, k - 1);
    }
  }

  /** The form used in tokens: trimming leaves only alphabet characters; padding and decoding gets the bytes back. */
  lemma DecodeUndoesTrimmedEncode(bin: bytes, a: Alphabet)
    ensures var trimmed := Trimmed(Encoded(bin, a, Fill(a)), Fill(a));
            && InAlphabet(trimmed, a)
            && Padded(trimmed, Fill(a)) == Encoded(bin, a, Fill(a))
            && Decoded(Padded(trimmed, Fill(a)), a, [Fill(a)]) == Success(bin)
  {
    hide Encoded, Decoded, Trimmed, Fill, InAlphabet;
    EncodedIsCoreAndFills(bin, a, Fill(a));
    TrimmedIsCore(Core(bin, a), Fills(|bin|), a);
    DecodeUndoesEncode(bin, a);
  }

  /** A text is accepted after padding only if it has no foreign character, up to fills that it already carries. */
  lemma PaddedAccepted(s: bytes, a: Alphabet)
    ensures Decoded(Padded(s, Fill(a)), a, [Fill(a)]).Success? ==>
              exists core, k :: k <= 2 && InAlphabet(core, a) && Padded(s, Fill(a)) == core + Repeat(Fill(a), k)
  {
    AcceptedTexts(Padded(s, Fill(a)), a);
    if Decoded(Padded(s, Fill(a)), a, [Fill(a)]).Success? {
      var core, k :| IsPadded(Padded(s, Fill(a)), core, k, a);
    }
  }

  // ---------- canonical texts ----------

  /** The bits of the last symbol that decoding drops. */
  function UnusedBits(core: bytes, a: Alphabet): nat
    requires InAlphabet(core, a)
  {
    if |core| % 4 == 3 then Index(a, core[|core| - 1]) % 4
    else if |core| % 4 == 2 then Index(a, core[|core| - 1]) % 16
    else 0
  }

  /** The text with the dropped bits cleared. */
  function Canonical(core: bytes, a: Alphabet): bytes
    requires InAlphabet(core, a)
  {
    if core == [] then []
    else core[..|core| - 1] + [Symbol(a, Index(a, core[|core| - 1]) - UnusedBits(core, a))]
  }

  lemma {:induction false} CoreOfUnpacked(core: bytes, a: Alphabet)
    requires InAlphabet(core, a) && |core| % 4 != 1
    ensures Core(Unpacked(core, a), a) == Canonical(core, a)
    ensures (|core| + Fills(|Unpacked(core, a)|)) % 4 == 0
  {
    hide Canonical, Core, Unpacked, InAlphabet, Fills;
    if |core| >= 4 {
      CoreOfMore(core, a);
      CoreOfUnpacked(core[4..], a);
      FillsPeriod(|Unpacked(core[4..], a)|);
    } else if |core| >= 2 {
      ShortCore(core, a);
      FillsOfShort();
    } else {
      assert core == [];
      EmptyIsCanonical(a);
      FillsOfShort();
    }
  }

  /** One more group in front of a text. */
  lemma CoreOfMore(core: bytes, a: Alphabet)
    requires InAlphabet(core, a) && |core| >= 4
    ensures InAlphabet(core[4..], a)
    ensures Core(Unpacked(core, a), a) == core[..4] + Core(Unpacked(core[4..], a), a)
    ensures Canonical(core, a) == core[..4] + Canonical(core[4..], a)
    ensures |Unpacked(core, a)| == 3 + |Unpacked(core[4..], a)|
  {
    hide Symbols, Octets, Index, ThreeOctets, Sextets, Symbol, Canonical, Core, Unpacked, InAlphabet;
    UnpackedGroup(core, a);
    var group := ThreeOctets(Sextets(Index(a, core[0]), Index(a, core[1]), Index(a, core[2]), Index(a, core[3])));
    GroupRepacked(core[0], core[1], core[2], core[3], a);
    CoreOfGroup(group, Unpacked(core[4..], a), a);
    FirstFour(core);
    CanonicalTail(core, a);
  }

  lemma FillsPeriod(n: nat)
    ensures Fills(3 + n) == Fills(n)
  {
  }

  lemma FillsOfShort()
    ensures Fills(0) == 0 && Fills(1) == 2 && Fills(2) == 1
  {
  }

  lemma UnpackedGroup(core: bytes, a: Alphabet)
    requires InAlphabet(core, a) && |core| >= 4
    ensures InAlphabet(core[4..], a)
    ensures Index(a, core[0]) >= 0 && Index(a, core[1]) >= 0 && Index(a, core[2]) >= 0 && Index(a, core[3]) >= 0
    ensures var triple := Sextets(Index(a, core[0]), Index(a, core[1]), Index(a, core[2]), Index(a, core[3]));
            Unpacked(core, a) == ThreeOctets(triple) + Unpacked(core[4..], a)
  {
    hide Index, ThreeOctets;
  }

  lemma FirstFour(core: bytes)
    requires |core| >= 4
    ensures core[..4] == [core[0], core[1], core[2], core[3]]
  {
  }

  lemma CoreOfGroup(group: bytes, rest: bytes, a: Alphabet)
    requires |group| == 3
    ensures Core(group + rest, a) == Symbols(Octets(group[0], group[1], group[2]), a) + Core(rest, a)
  {
    assert (group + rest)[3..] == rest;
  }

  lemma EmptyIsCanonical(a: Alphabet)
    ensures InAlphabet([], a)
    ensures Canonical([], a) == [] && Unpacked([], a) == [] && Core([], a) == []
  {
  }

  lemma ShortCore(core: bytes, a: Alphabet)
    requires InAlphabet(core, a) && 2 <= |core| <= 3
    ensures Core(Unpacked(core, a), a) == Canonical(core, a)
    ensures |Unpacked(core, a)| == |core| - 1
  {
    hide Symbols, Octets, Index, ThreeOctets, Sextets, Symbol;
    if |core| == 3 {
      GroupRepacked3(core[0], core[1], core[2], a);
      assert core[..2] == [core[0], core[1]];
    } else {
      GroupRepacked2(core[0], core[1], a);
      assert core[..1] == [core[0]];
    }
  }

  lemma CanonicalTail(core: bytes, a: Alphabet)
    requires InAlphabet(core, a) && |core| >= 4
    ensures Canonical(core, a) == core[..4] + Canonical(core[4..], a)
  {
    hide Index, Symbol;
    if |core| == 4 {
      SymbolOfIndex(core[3], a);
      assert core == core[..3] + [core[3]];
    } else {
      hide Canonical;
      CanonicalEnd(core[..4], core[4..], a);
      assert core == core[..4] + core[4..];
    }
  }

  lemma CanonicalEnd(group: bytes, tail: bytes, a: Alphabet)
    requires |group| == 4 && tail != [] && InAlphabet(group + tail, a) && InAlphabet(tail, a)
    ensures Canonical(group + tail, a) == group + Canonical(tail, a)
  {
    hide Index, Symbol;
    var core := group + tail;
    assert core[|core| - 1] == tail[|tail| - 1] && core[..|core| - 1] == group + tail[..|tail| - 1];
    assert |core| % 4 == |tail| % 4;
    assert UnusedBits(core, a) == UnusedBits(tail, a);
    Regroup(group, tail[..|tail| - 1], [Symbol(a, Index(a, tail[|tail| - 1]) - UnusedBits(tail, a))]);
  }

  lemma OctetsOf(triple: nat)
    requires triple < 0x100_0000
    ensures var o := ThreeOctets(triple);
            && Octets(o[0], o[1], o[2]) == triple
            && Octets(o[0], o[1], '\0') == triple - triple % 0x100
            && Octets(o[0], '\0', '\0') == triple - triple % 0x1_0000
  {
    OctetsJoin(triple);
    assert triple % 0x1_0000 == triple / 0x100 % 0x100 * 0x100 + triple % 0x100;
  }

  lemma SymbolsOf(w: nat, x: nat, y: nat, z: nat, a: Alphabet)
    requires w < 64 && x < 64 && y < 64 && z < 64
    ensures Sextets(w, x, y, z) < 0x100_0000
    ensures Symbols(Sextets(w, x, y, z), a) == [Symbol(a, w), Symbol(a, x), Symbol(a, y), Symbol(a, z)]
  {
    hide Symbol, Sextet, Sextets;
    SextetsSplit(w, x, y, z);
  }

  lemma SymbolOfIndex(c: byte, a: Alphabet)
    requires Index(a, c) >= 0
    ensures Symbol(a, Index(a, c)) == c
  {
    SymbolsAndIndices(a);
  }

  lemma GroupRepacked(c0: byte, c1: byte, c2: byte, c3: byte, a: Alphabet)
    requires Index(a, c0) >= 0 && Index(a, c1) >= 0 && Index(a, c2) >= 0 && Index(a, c3) >= 0
    ensures var o := ThreeOctets(Sextets(Index(a, c0), Index(a, c1), Index(a, c2), Index(a, c3)));
            Symbols(Octets(o[0], o[1], o[2]), a) == [c0, c1, c2, c3]
  {
    hide Symbol, Index, Symbols, Sextets, ThreeOctets, Octets;
    SymbolOfIndex(c0, a);
    SymbolOfIndex(c1, a);
    SymbolOfIndex(c2, a);
    SymbolOfIndex(c3, a);
    SymbolsOf(Index(a, c0), Index(a, c1), Index(a, c2), Index(a, c3), a);
    OctetsOf(Sextets(Index(a, c0), Index(a, c1), Index(a, c2), Index(a, c3)));
  }

  lemma LowBitsOf3(w: nat, x: nat, y: nat)
    ensures Sextets(w, x, y, 0) - Sextets(w, x, y, 0) % 0x100 == Sextets(w, x, y - y % 4, 0)
  {
    var (k, r) := (y / 4, y % 4);
    Remainders(w * 0x400 + x * 0x10 + k, r * 0x40);
  }

  lemma LowBitsOf2(w: nat, x: nat)
    ensures Sextets(w, x, 0, 0) - Sextets(w, x, 0, 0) % 0x1_0000 == Sextets(w, x - x % 16, 0, 0)
  {
    var (k, r) := (x / 16, x % 16);
    Remainders(w * 4 + k, r * 0x1000);
  }

  lemma Remainders(q: nat, r: nat)
    ensures r < 0x100 ==> (q * 0x100 + r) % 0x100 == r
    ensures r < 0x1_0000 ==> (q * 0x1_0000 + r) % 0x1_0000 == r
  {
  }

  lemma GroupRepacked3(c0: byte, c1: byte, c2: byte, a: Alphabet)
    requires Index(a, c0) >= 0 && Index(a, c1) >= 0 && Index(a, c2) >= 0
    ensures var o := ThreeOctets(Sextets(Index(a, c0), Index(a, c1), Index(a, c2), 0));
            Symbols(Octets(o[0], o[1], '\0'), a)[..3] == [c0, c1, Symbol(a, Index(a, c2) - Index(a, c2) % 4)]
  {
    hide Symbol, Index, Symbols, Sextets, ThreeOctets, Octets;
    var (w, x, y) := (Index(a, c0), Index(a, c1), Index(a, c2));
    SymbolOfIndex(c0, a);
    SymbolOfIndex(c1, a);
    SymbolsOf(w, x, y, 0, a);
    SymbolsOf(w, x, y - y % 4, 0, a);
    OctetsOf(Sextets(w, x, y, 0));
    LowBitsOf3(w, x, y);
  }

  lemma GroupRepacked2(c0: byte, c1: byte, a: Alphabet)
    requires Index(a, c0) >= 0 && Index(a, c1) >= 0
    ensures var o := ThreeOctets(Sextets(Index(a, c0), Index(a, c1), 0, 0));
            Symbols(Octets(o[0], '\0', '\0'), a)[..2] == [c0, Symbol(a, Index(a, c1) - Index(a, c1) % 16)]
  {
    hide Symbol, Index, Symbols, Sextets, ThreeOctets, Octets;
    var (w, x) := (Index(a, c0), Index(a, c1));
    SymbolOfIndex(c0, a);
    SymbolsOf(w, x, 0, 0, a);
    SymbolsOf(w, x - x % 16, 0, 0, a);
    OctetsOf(Sextets(w, x, 0, 0));
    LowBitsOf2(w, x);
  }

  /** Encoding what was decoded gives the text back exactly when the unused bits of its last symbol are zero. */
  lemma EncodeUndoesDecode(s: bytes, core: bytes, k: nat, a: Alphabet)
    requires IsPadded(s, core, k, a)
    ensures Decoded(s, a, [Fill(a)]).Success?
    ensures var bin := Decoded(s, a, [Fill(a)]).value;
            && Encoded(bin, a, Fill(a)) == Canonical(core, a) + Repeat(Fill(a), k)
            && (Encoded(bin, a, Fill(a)) == s <==> UnusedBits(core, a) == 0)
  {
    hide Encoded, Decoded, Unpacked, Canonical, InAlphabet, UnusedBits;
    DecodedPadded(s, core, k, a);
    var bin := Unpacked(core, a);
    CoreOfUnpacked(core, a);
    EncodedIsCoreAndFills(bin, a, Fill(a));
    assert Fills(|bin|) == k;
    CanonicalOnlyIfNoBits(core, a);
    SamePrefix(Canonical(core, a), core, Repeat(Fill(a), k));
  }

  lemma SamePrefix(a: bytes, b: bytes, t: bytes)
    requires |a| == |b|
    ensures a + t == b + t <==> a == b
  {
    assert (a + t)[..|a|] == a && (b + t)[..|b|] == b;
  }

  lemma CanonicalOnlyIfNoBits(core: bytes, a: Alphabet)
    requires InAlphabet(core, a)
    ensures |Canonical(core, a)| == |core|
    ensures Canonical(core, a) == core <==> UnusedBits(core, a) == 0
  {
    SymbolsAndIndices(a);
    if core != [] {
      var last := core[|core| - 1];
      assert core == core[..|core| - 1] + [last];
      assert Canonical(core, a)[|core| - 1] == Symbol(a, Index(a, last) - UnusedBits(core, a));
    }
  }
}

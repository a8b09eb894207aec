/** The fallback path of `uid`: sixteen random bytes, the version and variant
    bits of a version-4 UUID (sections 4.1.3 and 4.1.1 of RFC 4122), and the
    8-4-4-4-12 hexadecimal text of section 4.4 of RFC 4122. The random draws
    are an input here. */
module Uid {

  /** A byte, as the values `Math.floor(Math.random() * 256)` yields and a
      `Uint8Array` holds. */
  type Byte = x: int | 0 <= x < 256

  /** A lowercase hexadecimal digit, the alphabet of `toString(16)`. */
  predicate IsHexDigit(c: char) { '0' <= c <= '9' || 'a' <= c <= 'f' }

  /** The digit `toString(16)` writes for a value below 16. */
  function Digit(v: nat): (c: char)
    requires v < 16
    ensures IsHexDigit(c)
  {
    if v < 10 then ('0' as int + v) as char else ('a' as int + v - 10) as char
  }

  /** The value of a lowercase hexadecimal digit. */
  function DigitValue(c: char): (v: nat)
    requires IsHexDigit(c)
    ensures v < 16 && Digit(v) == c
  {
    if '0' <= c <= '9' then (c - '0') as nat else (c - 'a') as nat + 10
  }

  /** `n.toString(16)` for a byte: one digit below 16, two from 16 on. */
  function ByteToString16(n: Byte): (s: string)
    ensures 1 <= |s| <= 2
  {
    if n < 16 then [Digit(n)] else [Digit(n / 16), Digit(n % 16)]
  }

  /** `n` copies of `c`. */
  function Repeat(c: char, n: nat): (r: string)
    ensures |r| == n && forall i :: 0 <= i < n ==> r[i] == c
  {
    if n == 0 then [] else [c] + Repeat(c, n - 1)
  }

  /** The text padded on the left with the fill character up to the width. */
  function PadStart(s: string, width: nat, fill: char): (r: string)
    ensures |r| == if |s| < width then width else |s|
    ensures r[|r| - |s|..] == s
    ensures forall i :: 0 <= i < |r| - |s| ==> r[i] == fill
  {
    if |s| < width then
      var pad := Repeat(fill, width - |s|);
      assert (pad + s)[|pad|..] == s;
      pad + s
    else s
  }

  /** `toHex`: two lowercase digits, the high nibble first. */
  function ToHex(n: Byte): (h: string)
    ensures |h| == 2 && IsHexDigit(h[0]) && IsHexDigit(h[1])
  {
    ToHexDigits(n);
    PadStart(ByteToString16(n), 2, '0')
  }

  /** The two digits of `toHex` denote the high and the low nibble. */
  lemma ToHexValues(n: Byte)
    ensures ToHex(n) == [Digit(n / 16), Digit(n % 16)]
    ensures DigitValue(ToHex(n)[0]) == n / 16 && DigitValue(ToHex(n)[1]) == n % 16
  {
    ToHexDigits(n);
  }

  lemma DigitRoundTrip(v: nat)
    requires v < 16
    ensures DigitValue(Digit(v)) == v
  {
  }

  /** `toString(16)` padded to two: the digits of `n / 16` and `n % 16`. */
  lemma ToHexDigits(n: Byte)
    ensures PadStart(ByteToString16(n), 2, '0') == [Digit(n / 16), Digit(n % 16)]
    ensures DigitValue(Digit(n / 16)) == n / 16 && DigitValue(Digit(n % 16)) == n % 16
  {
    var hi, lo := n / 16, n % 16;
    assert n == hi * 16 + lo && hi < 16;
    if n < 16 {
      assert hi == 0 && lo == n;
      var p := PadStart([Digit(n)], 2, '0');
      assert p == [p[0]] + p[1..] && p[1..] == [Digit(n)];
    }
    DigitRoundTrip(hi);
    DigitRoundTrip(lo);
  }

  /** The byte two hexadecimal digits denote. */
  function FromHex(hi: char, lo: char): Byte
    requires IsHexDigit(hi) && IsHexDigit(lo)
  {
    DigitValue(hi) * 16 + DigitValue(lo)
  }

  /** Every byte survives `toHex` and back. */
  lemma ToHexRoundTrip(n: Byte)
    ensures FromHex(ToHex(n)[0], ToHex(n)[1]) == n
  {
    ToHexValues(n);
  }

  /** Distinct bytes give distinct digit pairs. */
  lemma ToHexInjective(m: Byte, n: Byte)
    ensures ToHex(m) == ToHex(n) <==> m == n
  {
    if ToHex(m) == ToHex(n) {
      ToHexRoundTrip(m);
      ToHexRoundTrip(n);
    }
  }

  /** The hexadecimal text of a run of bytes, two digits each, in order. */
  function Hex(bytes: seq<Byte>): (s: string)
    ensures |s| == 2 * |bytes|
  {
    if bytes == [] then [] else ToHex(bytes[0]) + Hex(bytes[1..])
  }

  predicate AllHex(s: string) { forall i :: 0 <= i < |s| ==> IsHexDigit(s[i]) }

  lemma {:induction false} HexAllHex(bytes: seq<Byte>)
    ensures AllHex(Hex(bytes))
  {
    if bytes == [] {
      assert Hex(bytes) == [];
    } else {
      var h, t := ToHex(bytes[0]), Hex(bytes[1..]);
      assert Hex(bytes) == h + t;
      HexAllHex(bytes[1..]);
      AllHexConcat(h, t);
    }
  }

  lemma AllHexConcat(h: string, t: string)
    requires AllHex(h) && AllHex(t)
    ensures AllHex(h + t)
  {
    assert forall i :: 0 <= i < |h + t| ==> (h + t)[i] == if i < |h| then h[i] else t[i - |h|];
  }

  lemma SplitAfterTwo(h: string, t: string)
    requires |h| == 2
    ensures (h + t)[0] == h[0] && (h + t)[1] == h[1] && (h + t)[2..] == t
  {
  }

  /** Reading pairs of digits back into bytes; a last odd digit is dropped. */
  function ParseHex(s: string): (b: seq<Byte>)
    requires AllHex(s)
    ensures 2 * |b| == |s| || 2 * |b| + 1 == |s|
  {
    if |s| < 2 then [] else [FromHex(s[0], s[1])] + ParseHex(s[2..])
  }

  lemma {:induction false} ParseHexRoundTrip(bytes: seq<Byte>)
    ensures AllHex(Hex(bytes)) && ParseHex(Hex(bytes)) == bytes
  {
    HexAllHex(bytes);
    if bytes != [] {
      var t := Hex(bytes[1..]);
      assert Hex(bytes) == ToHex(bytes[0]) + t;
      HexAllHex(bytes[1..]);
      ParseHexRoundTrip(bytes[1..]);
      ParseToHex(bytes[0], t);
    }
  }

  /** The first two digits of a text read back as the byte they were written
      from. */
  lemma ParseToHex(b: Byte, t: string)
    requires AllHex(t)
    ensures AllHex(ToHex(b) + t) && ParseHex(ToHex(b) + t) == [b] + ParseHex(t)
  {
    var h := ToHex(b);
    AllHexConcat(h, t);
    SplitAfterTwo(h, t);
    ToHexRoundTrip(b);
  }

  /** `(b & 0x0f) | 0x40`: the low nibble of `b` under the version nibble 4. */
  function SetVersion(b: Byte): Byte { b % 16 + 0x40 }

  /** `(b & 0x3f) | 0x80`: the low six bits of `b` under the variant bits 10. */
  function SetVariant(b: Byte): Byte { b % 64 + 0x80 }

  /** The two adjustments agree with the bitwise operators on 8-bit values. */
  lemma SetVersionIsBitwise(x: bv8)
    ensures SetVersion(x as int) == ((x & 0x0f) | 0x40) as int
  {
  }

  lemma SetVariantIsBitwise(x: bv8)
    ensures SetVariant(x as int) == ((x & 0x3f) | 0x80) as int
  {
  }

  /** The bytes after `bytes[6] = (bytes[6] & 0x0f) | 0x40` and
      `bytes[8] = (bytes[8] & 0x3f) | 0x80`. */
  function WithVersion(b: seq<Byte>): (r: seq<Byte>)
    requires |b| == 16
    ensures |r| == 16
  {
    b[6 := SetVersion(b[6])][8 := SetVariant(b[8])]
  }

  /** Five groups joined by '-'. */
  function DashJoin(g1: string, g2: string, g3: string, g4: string, g5: string): string {
    g1 + "-" + g2 + "-" + g3 + "-" + g4 + "-" + g5
  }

  /** The 8-4-4-4-12 text: bytes 0-3, 4-5, 6-7, 8-9 and 10-15 joined by '-'. */
  function Format(b: seq<Byte>): (s: string)
    requires |b| == 16
    ensures |s| == 36
  {
    DashJoin(Hex(b[..4]), Hex(b[4..6]), Hex(b[6..8]), Hex(b[8..10]), Hex(b[10..]))
  }

  predicate IsDashIndex(i: int) { i == 8 || i == 13 || i == 18 || i == 23 }

  /** Thirty-six characters, '-' at 8, 13, 18 and 23, lowercase hexadecimal
      digits everywhere else. */
  predicate UuidShaped(s: string) {
    |s| == 36 &&
    forall i :: 0 <= i < 36 ==> if IsDashIndex(i) then s[i] == '-' else IsHexDigit(s[i])
  }

  /** The sixteen bytes an 8-4-4-4-12 text denotes. */
  function Parse(s: string): (b: seq<Byte>)
    requires UuidShaped(s)
    ensures |b| == 16
  {
    GroupsHex(s);
    ParseHex(s[..8]) + ParseHex(s[9..13]) + ParseHex(s[14..18]) + ParseHex(s[19..23]) + ParseHex(s[24..])
  }

  /** The digit groups of a shaped text are all hexadecimal. */
  lemma GroupsHex(s: string)
    requires UuidShaped(s)
    ensures AllHex(s[..8]) && AllHex(s[9..13]) && AllHex(s[14..18]) && AllHex(s[19..23]) && AllHex(s[24..])
  {
    assert forall i :: 0 <= i < 8 ==> s[..8][i] == s[i];
    assert forall i :: 0 <= i < 4 ==> s[9..13][i] == s[9 + i] && s[14..18][i] == s[14 + i] && s[19..23][i] == s[19 + i];
    assert forall i :: 0 <= i < 12 ==> s[24..][i] == s[24 + i];
  }

  /** Where the five groups of an 8-4-4-4-12 text sit. */
  lemma DashJoinGroups(g1: string, g2: string, g3: string, g4: string, g5: string)
    requires |g1| == 8 && |g2| == 4 && |g3| == 4 && |g4| == 4 && |g5| == 12
    ensures var s := DashJoin(g1, g2, g3, g4, g5);
      s[..8] == g1 && s[9..13] == g2 && s[14..18] == g3 && s[19..23] == g4 && s[24..] == g5 &&
      s[8] == '-' && s[13] == '-' && s[18] == '-' && s[23] == '-'
  {
  }

  /** Joining five groups of hexadecimal digits of the right lengths gives a
      shaped text, and parsing it reads each group back. */
  lemma DashJoinShaped(g1: string, g2: string, g3: string, g4: string, g5: string)
    requires |g1| == 8 && |g2| == 4 && |g3| == 4 && |g4| == 4 && |g5| == 12
    requires AllHex(g1) && AllHex(g2) && AllHex(g3) && AllHex(g4) && AllHex(g5)
    ensures UuidShaped(DashJoin(g1, g2, g3, g4, g5))
    ensures Parse(DashJoin(g1, g2, g3, g4, g5)) ==
            ParseHex(g1) + ParseHex(g2) + ParseHex(g3) + ParseHex(g4) + ParseHex(g5)
  {
    var s := DashJoin(g1, g2, g3, g4, g5);
    DashJoinGroups(g1, g2, g3, g4, g5);
    forall i | 0 <= i < 36 && !IsDashIndex(i)
      ensures IsHexDigit(s[i])
    {
      if i < 8 {
        assert s[i] == g1[i];
      } else if i < 13 {
        assert s[i] == g2[i - 9];
      } else if i < 18 {
        assert s[i] == g3[i - 14];
      } else if i < 23 {
        assert s[i] == g4[i - 19];
      } else {
        assert s[i] == g5[i - 24];
      }
    }
  }

  /** Every formatted UUID has the 8-4-4-4-12 layout of section 4.4 of
      RFC 4122, and formatting loses nothing: the text decodes to the same
      sixteen bytes, in order. */
  lemma FormatRoundTrip(b: seq<Byte>)
    requires |b| == 16
    ensures UuidShaped(Format(b)) && Parse(Format(b)) == b
  {
    var b1, b2, b3, b4, b5 := b[..4], b[4..6], b[6..8], b[8..10], b[10..];
    var g1, g2, g3, g4, g5 := Hex(b1), Hex(b2), Hex(b3), Hex(b4), Hex(b5);
    ParseHexRoundTrip(b1);
    ParseHexRoundTrip(b2);
    ParseHexRoundTrip(b3);
    ParseHexRoundTrip(b4);
    ParseHexRoundTrip(b5);
    DashJoinShaped(g1, g2, g3, g4, g5);
    assert Format(b) == DashJoin(g1, g2, g3, g4, g5);
    Reassemble(b);
  }

  lemma Reassemble<T>(b: seq<T>)
    requires |b| == 16
    ensures b == b[..4] + b[4..6] + b[6..8] + b[8..10] + b[10..]
  {
  }

  /** Only bytes 6 and 8 change; byte 6 keeps its low nibble and takes the
      high nibble 4, byte 8 keeps its low six bits and takes the top bits 10. */
  lemma WithVersionPreserves(b: seq<Byte>)
    requires |b| == 16
    ensures forall i :: 0 <= i < 16 && i != 6 && i != 8 ==> WithVersion(b)[i] == b[i]
    ensures WithVersion(b)[6] % 16 == b[6] % 16 && WithVersion(b)[6] / 16 == 4
    ensures WithVersion(b)[8] % 64 == b[8] % 64 && WithVersion(b)[8] / 64 == 2
  {
  }

  /** The character at index 14 is '4', the version of section 4.1.3 of
      RFC 4122, and the one at index 19 is 8, 9, a or b, the variant of
      section 4.1.1. */
  lemma VersionAndVariant(b: seq<Byte>)
    requires |b| == 16
    ensures Format(WithVersion(b))[14] == '4'
    ensures Format(WithVersion(b))[19] in "89ab"
  {
    NibbleBounds(b[6], b[8]);
    MarkedDigits(WithVersion(b));
  }

  /** A byte 6 with high nibble 4 and a byte 8 with high nibble 8 to 11 show
      as '4' at index 14 and as 8, 9, a or b at index 19. */
  lemma MarkedDigits(w: seq<Byte>)
    requires |w| == 16 && w[6] / 16 == 4 && 8 <= w[8] / 16 <= 11
    ensures Format(w)[14] == '4' && Format(w)[19] in "89ab"
  {
    GroupHeads(w);
    VersionDigit(w[6]);
    VariantDigit(w[8]);
  }

  lemma VersionDigit(n: Byte)
    requires n / 16 == 4
    ensures ToHex(n)[0] == '4'
  {
    HighDigit(n);
  }

  lemma VariantDigit(n: Byte)
    requires 8 <= n / 16 <= 11
    ensures ToHex(n)[0] in "89ab"
  {
    HighDigit(n);
    var v := n / 16;
    assert v == 8 || v == 9 || v == 10 || v == 11;
  }

  /** Index 14 holds the first digit of byte 6, index 19 that of byte 8. */
  lemma GroupHeads(w: seq<Byte>)
    requires |w| == 16
    ensures Format(w)[14] == ToHex(w[6])[0] && Format(w)[19] == ToHex(w[8])[0]
  {
    var g1, g2, g3, g4, g5 := Hex(w[..4]), Hex(w[4..6]), Hex(w[6..8]), Hex(w[8..10]), Hex(w[10..]);
    DashJoinGroups(g1, g2, g3, g4, g5);
    assert Format(w) == DashJoin(g1, g2, g3, g4, g5);
    HexHead(w[6..8]);
    HexHead(w[8..10]);
  }

  /** The high nibble after the version and the variant adjustments. */
  lemma NibbleBounds(x: Byte, y: Byte)
    ensures SetVersion(x) / 16 == 4
    ensures 8 <= SetVariant(y) / 16 <= 11
  {
    var r, t := x % 16, y % 64;
    assert SetVersion(x) == 4 * 16 + r && 0 <= r < 16;
    assert SetVariant(y) == 8 * 16 + t && 0 <= t < 64;
  }

  /** The first digit of a byte is the digit of its high nibble. */
  lemma HighDigit(n: Byte)
    ensures ToHex(n)[0] == Digit(n / 16)
  {
    ToHexValues(n);
  }

  /** The text of a run of bytes starts with the text of its first byte. */
  lemma HexHead(bytes: seq<Byte>)
    requires bytes != []
    ensures Hex(bytes)[..2] == ToHex(bytes[0])
  {
  }

  /** `uid()` on its fallback path, with `draws` the sixteen values of
      `Math.floor(Math.random() * 256)` in the order they are drawn. */
  method Generate(draws: seq<Byte>) returns (id: string)
    requires |draws| == 16
    ensures id == Format(WithVersion(draws))
    ensures UuidShaped(id) && id[14] == '4' && id[19] in "89ab"
    ensures Parse(id) == WithVersion(draws)
  {
    var bytes := new Byte[16];
    var i := 0;
    while i < bytes.Length
      invariant 0 <= i <= 16
      invariant bytes[..i] == draws[..i]
    {
      bytes[i] := draws[i];
      i := i + 1;
    }
    assert bytes[..] == draws;
    bytes[6] := SetVersion(bytes[6]);
    bytes[8] := SetVariant(bytes[8]);
    assert bytes[..] == WithVersion(draws);
    id := Format(bytes[..]);
    FormatRoundTrip(bytes[..]);
    VersionAndVariant(draws);
  }
}

/** The format of section 6.8 of RFC 2045 in its own terms: alphabet, order of bits, padding, lines. */
module Base64Format {
  import opened Base64

  const UPPER := "ABCDEFGHIJKLMNOPQRSTUVWXYZ"
  const LOWER := "abcdefghijklmnopqrstuvwxyz"
  const ALPHABET := UPPER + LOWER + "0123456789+/"

  // ---- the alphabet ------------------------------------------------------------------------------

  lemma UpperLetter(v: Byte)
    requires v < 26
    ensures (v as int) < 26 && Letter(v) as char == UPPER[v as int]
  {
    assert v == 0 || v == 1 || v == 2 || v == 3 || v == 4 || v == 5 || v == 6 || v == 7 || v == 8 ||
      v == 9 || v == 10 || v == 11 || v == 12 || v == 13 || v == 14 || v == 15 || v == 16 || v == 17 ||
      v == 18 || v == 19 || v == 20 || v == 21 || v == 22 || v == 23 || v == 24 || v == 25;
  }

  lemma LowerLetter(v: Byte)
    requires 26 <= v < 52
    ensures 26 <= v as int < 52 && Letter(v) as char == LOWER[v as int - 26]
  {
    assert v == 26 || v == 27 || v == 28 || v == 29 || v == 30 || v == 31 || v == 32 || v == 33 || v == 34 ||
      v == 35 || v == 36 || v == 37 || v == 38 || v == 39 || v == 40 || v == 41 || v == 42 || v == 43 ||
      v == 44 || v == 45 || v == 46 || v == 47 || v == 48 || v == 49 || v == 50 || v == 51;
  }

  lemma OtherLetter(v: Byte)
    requires 52 <= v < 64
    ensures 52 <= v as int < 64 && Letter(v) as char == "0123456789+/"[v as int - 52]
  {
    assert v == 52 || v == 53 || v == 54 || v == 55 || v == 56 || v == 57 || v == 58 || v == 59 || v == 60 ||
      v == 61 || v == 62 || v == 63;
  }

  /** The letter of a value is the one at its place in the alphabet. */
  lemma LetterInAlphabet(v: Byte)
    requires v < 64
    ensures (v as int) < 64 == |ALPHABET| && Letter(v) as char == ALPHABET[v as int]
  {
    hide Letter;
    if v < 26 {
      UpperLetter(v);
    } else if v < 52 {
      LowerLetter(v);
    } else {
      OtherLetter(v);
    }
  }

  /** The letters of the alphabet by their codes. */
  lemma Ranges(c: Byte)
    ensures 'A' <= c as char <= 'Z' <==> 65 <= c <= 90
    ensures 'a' <= c as char <= 'z' <==> 97 <= c <= 122
    ensures '0' <= c as char <= '9' <==> 48 <= c <= 57
    ensures c as char == '+' <==> c == 43
    ensures c as char == '/' <==> c == 47
    ensures c as char == '=' <==> c == PAD
  {}

  lemma InUpper(k: int)
    requires 0 <= k < 26
    ensures 'A' <= UPPER[k] <= 'Z'
  {}

  lemma InLower(k: int)
    requires 0 <= k < 26
    ensures 'a' <= LOWER[k] <= 'z'
  {}

  lemma InOther(k: int)
    requires 0 <= k < 12
    ensures '0' <= "0123456789+/"[k] <= '9' || "0123456789+/"[k] == '+' || "0123456789+/"[k] == '/'
  {}

  lemma InAlphabet(k: int)
    requires 0 <= k < 64 == |ALPHABET|
    ensures 'A' <= ALPHABET[k] <= 'Z' || 'a' <= ALPHABET[k] <= 'z' || '0' <= ALPHABET[k] <= '9' || ALPHABET[k] == '+' || ALPHABET[k] == '/'
  {
    if k < 26 { InUpper(k); } else if k < 52 { InLower(k - 26); } else { InOther(k - 52); }
  }

  /** The value of a character is its place in the alphabet; 100 is that of every character that has none. */
  lemma ValueInAlphabet(c: Byte)
    ensures if c as char in ALPHABET then (ValueOf(c) as int) < 64 && ALPHABET[ValueOf(c) as int] == c as char else ValueOf(c) == 100
  {
    ValueHasLetter(c);
    if c as char in ALPHABET {
      var k :| 0 <= k < |ALPHABET| && ALPHABET[k] == c as char;
      InAlphabet(k);
      Ranges(c);
      assert ValueOf(c) != BAD;
    }
    hide Letter, ValueOf;
    if ValueOf(c) != BAD { LetterInAlphabet(ValueOf(c)); }
  }

  // ---- the order of the bits ---------------------------------------------------------------------

  /** The values of four letters are the digits in base 64 of the three bytes, read as a number in base 256. */
  lemma SextetsAreDigits(a: Byte, b: Byte, c: Byte)
    ensures var n := (a as bv32) * 65536 + (b as bv32) * 256 + (c as bv32);
      && Sextet0(a) as bv32 == n / 262144 && Sextet1(a, b) as bv32 == n / 4096 % 64
      && Sextet2(b, c) as bv32 == n / 64 % 64 && Sextet3(c) as bv32 == n % 64
  {}

  /** The byte at place i of the data; zero behind its end. */
  function ByteAt(data: seq<Byte>, i: nat): Byte {
    if i < |data| then data[i] else 0
  }

  /** Three bytes as one number. */
  function GroupNumber(data: seq<Byte>, i: nat): bv32 {
    (ByteAt(data, i) as bv32) * 65536 + (ByteAt(data, i + 1) as bv32) * 256 + (ByteAt(data, i + 2) as bv32)
  }

  /** Digit r of four in base 64. */
  function Digit64(n: bv32, r: nat): bv32 {
    if r == 0 then n / 262144 % 64 else if r == 1 then n / 4096 % 64 else if r == 2 then n / 64 % 64 else n % 64
  }

  lemma DigitLetter(v: Byte, d: bv32)
    requires v < 64 && v as bv32 == d
    ensures (d as int) < 64 == |ALPHABET| && Letter(v) as char == ALPHABET[d as int]
  {
    SameNumber(v, d);
    hide Letter;
    LetterInAlphabet(v);
  }

  lemma SameNumber(v: Byte, d: bv32)
    requires v < 64 && v as bv32 == d
    ensures d as int == v as int
  {}

  lemma DigitsOfGroup(group: seq<Byte>)
    ensures var a, b, c, n := ByteAt(group, 0), ByteAt(group, 1), ByteAt(group, 2), GroupNumber(group, 0);
      && Sextet0(a) < 64 && Sextet1(a, b) < 64 && Sextet2(b, c) < 64 && Sextet3(c) < 64
      && Sextet0(a) as bv32 == Digit64(n, 0) && Sextet1(a, b) as bv32 == Digit64(n, 1)
      && Sextet2(b, c) as bv32 == Digit64(n, 2) && Sextet3(c) as bv32 == Digit64(n, 3)
  {
    SextetsAreDigits(ByteAt(group, 0), ByteAt(group, 1), ByteAt(group, 2));
  }

  /** The character that stands for a digit. */
  predicate Spells(c: Byte, d: bv32) {
    (d as int) < |ALPHABET| && c as char == ALPHABET[d as int]
  }

  lemma DigitSpelled(v: Byte, d: bv32)
    requires v < 64 && v as bv32 == d
    ensures Spells(Letter(v), d)
  {
    hide Letter;
    DigitLetter(v, d);
  }

  lemma QuadShape(group: seq<Byte>)
    requires 1 <= |group| <= 3
    ensures var a, b, c, q := ByteAt(group, 0), ByteAt(group, 1), ByteAt(group, 2), Quad(group);
      && q[0] == Letter(Sextet0(a)) && q[1] == Letter(Sextet1(a, b))
      && q[2] == (if |group| >= 2 then Letter(Sextet2(b, c)) else PAD) && q[3] == if |group| == 3 then Letter(Sextet3(c)) else PAD
  {
    hide Letter, Sextet0, Sextet1, Sextet2, Sextet3;
  }

  lemma QuadIs(group: seq<Byte>, r: nat)
    requires 1 <= |group| <= 3 && r < 4
    ensures if r <= |group| then Spells(Quad(group)[r], Digit64(GroupNumber(group, 0), r)) else Quad(group)[r] as char == '='
  {
    hide Letter, Quad, Sextet0, Sextet1, Sextet2, Sextet3, ByteAt, Digit64, GroupNumber, Spells;
    var a, b, c, n := ByteAt(group, 0), ByteAt(group, 1), ByteAt(group, 2), GroupNumber(group, 0);
    QuadShape(group);
    DigitsOfGroup(group);
    Ranges(PAD);
    DigitSpelled(Sextet0(a), Digit64(n, 0));
    DigitSpelled(Sextet1(a, b), Digit64(n, 1));
    DigitSpelled(Sextet2(b, c), Digit64(n, 2));
    DigitSpelled(Sextet3(c), Digit64(n, 3));
  }

  lemma {:induction false} QuadsLength(data: seq<Byte>)
    ensures |Quads(data)| == (|data| + 2) / 3 * 4
    decreases |data|
  {
    hide Quad;
    if data != [] { QuadsLength(data[Min(3, |data|)..]); }
  }

  lemma SameGroup(s: seq<Byte>, i: nat, t: seq<Byte>, j: nat)
    requires ByteAt(s, i) == ByteAt(t, j) && ByteAt(s, i + 1) == ByteAt(t, j + 1) && ByteAt(s, i + 2) == ByteAt(t, j + 2)
    ensures GroupNumber(s, i) == GroupNumber(t, j)
  {}

  lemma FirstGroup(data: seq<Byte>)
    requires data != []
    ensures var m := Min(3, |data|);
      1 <= m <= 3 && Quads(data) == Quad(data[..m]) + Quads(data[m..]) && GroupNumber(data[..m], 0) == GroupNumber(data, 0)
  {
    FirstNumber(data);
    hide Quad, GroupNumber;
  }

  lemma FirstNumber(data: seq<Byte>)
    ensures GroupNumber(data[..Min(3, |data|)], 0) == GroupNumber(data, 0)
  {
    hide GroupNumber;
    SameGroup(data[..Min(3, |data|)], 0, data, 0);
  }

  lemma LaterGroup(data: seq<Byte>, g: nat)
    requires 3 * g < |data| && g > 0
    ensures |data| >= 3 && GroupNumber(data[3..], 3 * (g - 1)) == GroupNumber(data, 3 * g)
  {
    hide GroupNumber;
    SameGroup(data[3..], 3 * (g - 1), data, 3 * g);
  }

  /**
   * The four letters of three bytes are the digits of these bytes in base 64, most significant
   * first, spelled in the alphabet; '=' stands where a digit has no byte.
   */
  lemma {:induction false} LettersAre(data: seq<Byte>, g: nat, r: nat)
    requires 3 * g < |data| && r < 4
    ensures |Quads(data)| == (|data| + 2) / 3 * 4 && 4 * g + r < |Quads(data)|
    ensures if 3 * g + r <= |data| then Spells(Quads(data)[4 * g + r], Digit64(GroupNumber(data, 3 * g), r))
      else Quads(data)[4 * g + r] as char == '='
    decreases g
  {
    hide Quads, Quad, Digit64, GroupNumber, Spells;
    QuadsLength(data);
    FirstGroup(data);
    if g == 0 {
      QuadIs(data[..Min(3, |data|)], r);
    } else {
      LaterGroup(data, g);
      LettersAre(data[3..], g - 1, r);
      assert Quads(data)[4 * g + r] == Quads(data[3..])[4 * (g - 1) + r];
    }
  }

  // ---- padding when decoding ---------------------------------------------------------------------

  /** The number of four letters, of which those behind the first two may be '='. */
  function QuadNumber(v0: Byte, v1: Byte, v2: Byte, v3: Byte): bv32 {
    (v0 as bv32) * 262144 + (v1 as bv32) * 4096 + (v2 as bv32) * 64 + (v3 as bv32)
  }

  /** Three bytes are the digits in base 256 of four values, read as a number in base 64. */
  lemma OctetsAreDigits(v0: Byte, v1: Byte, v2: Byte, v3: Byte)
    requires v0 < 64 && v1 < 64 && v2 < 64 && v3 < 64
    ensures var n := QuadNumber(v0, v1, v2, v3);
      && Octet0(v0, v1) as bv32 == n / 65536 && Octet1(v1, v2) as bv32 == n / 256 % 256 && Octet2(v2, v3) as bv32 == n % 256
  {}

  /** What four characters stand for: the bytes of their number, one or two less if they end with '='. */
  lemma FullTriple(c0: Byte, c1: Byte, c2: Byte, c3: Byte)
    requires c3 != PAD
    ensures Triple([c0, c1, c2, c3])
      == [Octet0(ValueOf(c0), ValueOf(c1)), Octet1(ValueOf(c1), ValueOf(c2)), Octet2(ValueOf(c2), ValueOf(c3))]
  {
    hide ValueOf, Octet0, Octet1, Octet2;
  }

  lemma ShortTriples(c0: Byte, c1: Byte, c2: Byte)
    requires c2 != PAD
    ensures Triple([c0, c1, c2, PAD]) == [Octet0(ValueOf(c0), ValueOf(c1)), Octet1(ValueOf(c1), ValueOf(c2))]
    ensures Triple([c0, c1, PAD, PAD]) == [Octet0(ValueOf(c0), ValueOf(c1))]
  {
    hide ValueOf, Octet0, Octet1, Octet2;
  }

  lemma TripleIs(v0: Byte, v1: Byte, v2: Byte, v3: Byte)
    requires v0 < 64 && v1 < 64 && v2 < 64 && v3 < 64
    ensures var t, n := Triple([Letter(v0), Letter(v1), Letter(v2), Letter(v3)]), QuadNumber(v0, v1, v2, v3);
      |t| == 3 && t[0] as bv32 == n / 65536 && t[1] as bv32 == n / 256 % 256 && t[2] as bv32 == n % 256
    ensures var t, n := Triple([Letter(v0), Letter(v1), Letter(v2), PAD]), QuadNumber(v0, v1, v2, 0);
      |t| == 2 && t[0] as bv32 == n / 65536 && t[1] as bv32 == n / 256 % 256
    ensures var t, n := Triple([Letter(v0), Letter(v1), PAD, PAD]), QuadNumber(v0, v1, 0, 0);
      |t| == 1 && t[0] as bv32 == n / 65536
  {
    hide Letter, ValueOf, QuadNumber, Octet0, Octet1, Octet2, Triple;
    LetterHasValue(v0);
    LetterHasValue(v1);
    LetterHasValue(v2);
    LetterHasValue(v3);
    FullTriple(Letter(v0), Letter(v1), Letter(v2), Letter(v3));
    ShortTriples(Letter(v0), Letter(v1), Letter(v2));
    OctetsAreDigits(v0, v1, v2, v3);
    OctetsAreDigits(v0, v1, v2, 0);
    OctetsAreDigits(v0, v1, 0, 0);
  }

  /** A '=' anywhere else counts as the value 100, whose bits run into those of its neighbours. */
  lemma PadElsewhere(v: Byte)
    requires v < 64
    ensures ValueOf(PAD) == 100
    ensures Octet0(100, v) == 144 + v / 16 && Octet0(v, 100) == 4 * v + (if v % 2 == 0 then 6 else 2)
    ensures Octet1(100, v) == 64 + v / 4 && Octet1(v, 100) == 16 * v + (if v % 2 == 0 then 25 else 9)
    ensures Octet2(100, v) == v
  {}

  // ---- lines -------------------------------------------------------------------------------------

  /** Letters in lines of 76, with eol between them. */
  function Wrapped(letters: seq<Byte>, eol: seq<Byte>): seq<Byte> {
    if |letters| <= 76 then letters else letters[..76] + eol + Wrapped(letters[76..], eol)
  }

  lemma {:induction false} OneLine(letters: seq<Byte>, room: nat, style: LineEnding)
    requires |letters| % 4 == 0
    ensures |letters| <= 4 * room ==> InLines(letters, room, style) == letters
    ensures |letters| > 4 * room ==> InLines(letters, room, style) == letters[..4 * room] + InLines(letters[4 * room..], 0, style)
    decreases room
  {
    if room > 0 && letters != [] {
      OneQuad(letters, room, style);
      hide Eol, InLines;
      OneLine(letters[4..], room - 1, style);
      LinePieces(letters, 4 * room);
      if |letters| > 4 * room {
        Associate(letters[..4], letters[4..][..4 * room - 4], InLines(letters[4 * room..], 0, style));
      }
    } else {
      hide Eol;
      assert letters[0..] == letters && [] + InLines(letters, 0, style) == InLines(letters, 0, style);
    }
  }

  lemma OneQuad(letters: seq<Byte>, room: nat, style: LineEnding)
    requires |letters| % 4 == 0 && letters != [] && room > 0
    ensures InLines(letters, room, style) == letters[..4] + InLines(letters[4..], room - 1, style)
  {
    hide Eol;
  }

  lemma LinePieces(letters: seq<Byte>, n: nat)
    requires 4 <= n && 4 <= |letters|
    ensures letters[..4] + letters[4..] == letters
    ensures n < |letters| ==> letters[4..][n - 4..] == letters[n..] && letters[..4] + letters[4..][..n - 4] == letters[..n]
  {}

  /** A full line is followed by a break and a new line. */
  lemma NewLine(letters: seq<Byte>, style: LineEnding)
    requires |letters| % 4 == 0 && letters != []
    ensures InLines(letters, 0, style) == Eol(style) + InLines(letters, 19, style)
  {
    var q, rest := letters[..4], InLines(letters[4..], 18, style);
    FirstOfLine(letters, style);
    hide Eol, InLines;
    Associate(Eol(style), q, rest);
    assert [] + q == q;
  }

  lemma FirstOfLine(letters: seq<Byte>, style: LineEnding)
    requires |letters| % 4 == 0 && letters != []
    ensures InLines(letters, 0, style) == Eol(style) + letters[..4] + InLines(letters[4..], 18, style)
    ensures InLines(letters, 19, style) == [] + letters[..4] + InLines(letters[4..], 18, style)
  {
    hide Eol;
  }

  lemma {:induction false} LinesAreWrapped(letters: seq<Byte>, style: LineEnding)
    requires |letters| % 4 == 0
    ensures InLines(letters, 19, style) == Wrapped(letters, Eol(style))
    decreases |letters|
  {
    hide Eol, InLines;
    OneLine(letters, 19, style);
    if |letters| > 76 {
      NewLine(letters[76..], style);
      LinesAreWrapped(letters[76..], style);
      Associate(letters[..76], Eol(style), InLines(letters[76..], 19, style));
    }
  }

  /** Encoded text is the letters in lines of 76 with a carriage return, a line feed, or both between them. */
  lemma EncodedIs(data: seq<Byte>)
    ensures Encoded(data, CR) == Wrapped(Quads(data), [13])
    ensures Encoded(data, LF) == Wrapped(Quads(data), [10])
    ensures Encoded(data, CRLF) == Wrapped(Quads(data), [13, 10])
  {
    hide Quads, Wrapped;
    LinesAreWrapped(Quads(data), CR);
    LinesAreWrapped(Quads(data), LF);
    LinesAreWrapped(Quads(data), CRLF);
  }
}

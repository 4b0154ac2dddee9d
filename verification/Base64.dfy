/** The Base64 Content-Transfer-Encoding of section 6.8 of RFC 2045, as streams of bytes. */
module Base64 {
  type Byte = bv8

  const PAD: Byte := 61 // '='
  const BAD: Byte := 100

  // ---- the alphabet ------------------------------------------------------------------------------

  /** The letter of a six-bit value: A-Z, a-z, 0-9, + and /. */
  function Letter(v: Byte): Byte {
    if v < 26 then 65 + v
    else if v < 52 then 97 + (v - 26)
    else if v < 62 then 48 + (v - 52)
    else if v == 62 then 43
    else 47
  }

  /** The value of a letter; BAD for every other byte. */
  function ValueOf(c: Byte): Byte {
    if 65 <= c <= 90 then c - 65
    else if 97 <= c <= 122 then c - 97 + 26
    else if 48 <= c <= 57 then c - 48 + 52
    else if c == 43 then 62
    else if c == 47 then 63
    else BAD
  }

  lemma LetterHasValue(v: Byte)
    requires v < 64
    ensures ValueOf(Letter(v)) == v && Letter(v) != PAD && Letter(v) < 128
  {}

  lemma ValueHasLetter(c: Byte)
    ensures ValueOf(c) == BAD || (ValueOf(c) < 64 && Letter(ValueOf(c)) == c)
  {}

  // ---- what encoding and decoding are ------------------------------------------------------------

  /** The four six-bit values of three bytes. */
  function Sextet0(a: Byte): Byte { (a & 0xfc) >> 2 }
  function Sextet1(a: Byte, b: Byte): Byte { ((a & 0x03) << 4) | ((b & 0xf0) >> 4) }
  function Sextet2(b: Byte, c: Byte): Byte { ((b & 0x0f) << 2) | ((c & 0xc0) >> 6) }
  function Sextet3(c: Byte): Byte { c & 0x3f }

  /** The three bytes of four six-bit values. */
  function Octet0(v0: Byte, v1: Byte): Byte { (v0 << 2) | (v1 >> 4) }
  function Octet1(v1: Byte, v2: Byte): Byte { (v1 << 4) | (v2 >> 2) }
  function Octet2(v2: Byte, v3: Byte): Byte { (v2 << 6) | v3 }

  /** Three bytes as four letters. */
  function Quad3(a: Byte, b: Byte, c: Byte): seq<Byte> {
    [Letter(Sextet0(a)), Letter(Sextet1(a, b)), Letter(Sextet2(b, c)), Letter(Sextet3(c))]
  }

  /** The letters of up to three bytes, filled up with '='. */
  function Quad(group: seq<Byte>): (q: seq<Byte>)
    requires 1 <= |group| <= 3
    ensures |q| == 4
  {
    if |group| == 3 then Quad3(group[0], group[1], group[2])
    else if |group| == 2 then Quad3(group[0], group[1], 0)[..3] + [PAD]
    else Quad3(group[0], 0, 0)[..2] + [PAD, PAD]
  }

  function Min(a: nat, b: nat): nat { if a < b then a else b }

  /** The letters of all data. */
  function Quads(data: seq<Byte>): (letters: seq<Byte>)
    ensures |letters| % 4 == 0 && (|letters| == 0 <==> data == [])
  {
    if data == [] then [] else Quad(data[..Min(3, |data|)]) + Quads(data[Min(3, |data|)..])
  }

  /** What four significant characters stand for. */
  function Triple(q: seq<Byte>): (bytes: seq<Byte>)
    requires |q| == 4
    ensures 1 <= |bytes| <= 3
  {
    var v0, v1, v2, v3 := ValueOf(q[0]), ValueOf(q[1]), ValueOf(q[2]), ValueOf(q[3]);
    var size := if q[3] != PAD then 3 else if q[2] != PAD then 2 else 1;
    [Octet0(v0, v1), Octet1(v1, v2), Octet2(v2, v3)][..size]
  }

  function Triples(cs: seq<Byte>): seq<Byte> {
    if |cs| < 4 then [] else Triple(cs[..4]) + Triples(cs[4..])
  }

  predicate IsLetter(c: Byte) { ValueOf(c) != BAD }

  predicate Significant(c: Byte) { IsLetter(c) || c == PAD }

  function Filter(text: seq<Byte>): seq<Byte> {
    if text == [] then [] else (if Significant(text[0]) then [text[0]] else []) + Filter(text[1..])
  }

  function Kept(c: Byte): seq<Byte> {
    if IsLetter(c) then [c] else []
  }

  /** The characters that decoding counts: a '=' at the very beginning is not one of them. */
  function Counted(text: seq<Byte>): seq<Byte> {
    if text == [] then [] else Kept(text[0]) + Filter(text[1..])
  }

  datatype Decoded = Data(bytes: seq<Byte>) | Truncated

  function Decode(text: seq<Byte>): Decoded {
    if |Counted(text)| % 4 == 0 then Data(Triples(Counted(text))) else Truncated
  }

  // ---- lines -------------------------------------------------------------------------------------

  datatype LineEnding = CR | LF | CRLF

  function Eol(style: LineEnding): seq<Byte> {
    match style
    case CR => [13]
    case LF => [10]
    case CRLF => [13, 10]
  }

  predicate IsBreak(c: Byte) { c == 13 || c == 10 }

  /** Letters in lines: a break before the next four when no more quads fit on this line. */
  function InLines(letters: seq<Byte>, room: nat, style: LineEnding): seq<Byte>
    requires |letters| % 4 == 0
  {
    if letters == [] then [] else
    (if room == 0 then Eol(style) else []) + letters[..4]
      + InLines(letters[4..], if room == 0 then 18 else room - 1, style)
  }

  function Encoded(data: seq<Byte>, style: LineEnding): seq<Byte> {
    InLines(Quads(data), 19, style)
  }

  // ---- decoding undoes encoding ------------------------------------------------------------------

  /** The bits of three bytes are all in their four letters. */
  lemma QuadBits(a: Byte, b: Byte, c: Byte)
    ensures Sextet0(a) < 64 && Sextet1(a, b) < 64 && Sextet2(b, c) < 64 && Sextet3(c) < 64
    ensures Octet0(Sextet0(a), Sextet1(a, b)) == a
    ensures Octet1(Sextet1(a, b), Sextet2(b, c)) == b
    ensures Octet2(Sextet2(b, c), Sextet3(c)) == c
  {}

  /** A letter is significant and is not '='. */
  lemma LetterCounts(v: Byte)
    requires v < 64
    ensures ValueOf(Letter(v)) == v && Letter(v) != PAD && IsLetter(Letter(v)) && Significant(Letter(v)) && v != BAD
  {
    LetterHasValue(v);
  }

  lemma PadCounts()
    ensures Significant(PAD)
  {}

  lemma TripleOfQuad(group: seq<Byte>)
    requires 1 <= |group| <= 3
    ensures Triple(Quad(group)) == group
    ensures forall k :: 0 <= k < 4 ==> Significant(Quad(group)[k])
    ensures IsLetter(Quad(group)[0])
  {
    hide Letter, ValueOf, Significant, IsLetter, Sextet0, Sextet1, Sextet2, Sextet3, Octet0, Octet1, Octet2;
    var a := group[0];
    var b := if |group| > 1 then group[1] else 0;
    var c := if |group| > 2 then group[2] else 0;
    QuadBits(a, b, c);
    LetterCounts(Sextet0(a));
    LetterCounts(Sextet1(a, b));
    LetterCounts(Sextet2(b, c));
    LetterCounts(Sextet3(c));
    PadCounts();
  }

  lemma {:induction false} TriplesOfQuads(data: seq<Byte>, more: seq<Byte>)
    ensures Triples(Quads(data) + more) == data + Triples(more)
    decreases |data|
  {
    hide Quad, Triple, Significant, IsLetter, Triples;
    if data == [] {
      assert Quads(data) + more == more;
    } else {
      var n := Min(3, |data|);
      var group, rest := data[..n], data[n..];
      TripleOfQuad(group);
      TriplesOfQuads(rest, more);
      Associate(Quad(group), Quads(rest), more);
      FirstTriple(Quad(group), Quads(rest) + more);
      Associate(group, rest, Triples(more));
      assert data == group + rest;
    }
  }

  lemma FirstTriple(four: seq<Byte>, rest: seq<Byte>)
    requires |four| == 4
    ensures Triples(four + rest) == Triple(four) + Triples(rest)
  {
    hide Triple;
    assert (four + rest)[..4] == four && (four + rest)[4..] == rest;
  }

  lemma {:induction false} QuadsSignificant(data: seq<Byte>)
    ensures forall k :: 0 <= k < |Quads(data)| ==> Significant(Quads(data)[k])
    ensures data != [] ==> IsLetter(Quads(data)[0])
    decreases |data|
  {
    hide Quad, Triple, Significant, IsLetter;
    if data != [] {
      TripleOfQuad(data[..Min(3, |data|)]);
      QuadsSignificant(data[Min(3, |data|)..]);
    }
  }

  lemma FilterEmpty()
    ensures Filter([]) == []
  {}

  lemma Associate(a: seq<Byte>, b: seq<Byte>, c: seq<Byte>)
    ensures a + (b + c) == a + b + c
  {}

  lemma FilterFirst(s: seq<Byte>)
    requires s != []
    ensures Filter(s) == (if Significant(s[0]) then [s[0]] else []) + Filter(s[1..])
  {}

  lemma {:induction false} FilterAppend(s: seq<Byte>, t: seq<Byte>)
    ensures Filter(s + t) == Filter(s) + Filter(t)
  {
    hide Significant, Filter;
    if s == [] {
      FilterEmpty();
      assert s + t == t;
    } else {
      FilterAppend(s[1..], t);
      FilterFirst(s);
      FilterFirst(s + t);
      assert (s + t)[1..] == s[1..] + t;
      Associate(if Significant(s[0]) then [s[0]] else [], Filter(s[1..]), Filter(t));
    }
  }

  lemma {:induction false} FilterAll(s: seq<Byte>)
    requires forall k :: 0 <= k < |s| ==> Significant(s[k])
    ensures Filter(s) == s
  {
    hide Significant;
    if s != [] { FilterAll(s[1..]); }
  }

  lemma {:induction false} FilterNone(s: seq<Byte>)
    requires forall k :: 0 <= k < |s| ==> !Significant(s[k])
    ensures Filter(s) == []
  {
    hide Significant;
    if s != [] { FilterNone(s[1..]); }
  }

  lemma EolIsFiller(style: LineEnding)
    ensures forall k :: 0 <= k < |Eol(style)| ==> !Significant(Eol(style)[k])
  {}

  /** Breaking into lines only adds filler. */
  lemma {:induction false} FilterLines(letters: seq<Byte>, room: nat, style: LineEnding)
    requires |letters| % 4 == 0 && forall k :: 0 <= k < |letters| ==> Significant(letters[k])
    ensures Filter(InLines(letters, room, style)) == letters
    decreases |letters|
  {
    hide Significant, Eol;
    if letters != [] {
      var eol := if room == 0 then Eol(style) else [];
      var rest := InLines(letters[4..], if room == 0 then 18 else room - 1, style);
      assert InLines(letters, room, style) == eol + letters[..4] + rest;
      hide Filter, InLines;
      FilterLines(letters[4..], if room == 0 then 18 else room - 1, style);
      EolIsFiller(style);
      FilterNone(eol);
      FilterAll(letters[..4]);
      FilterAppend(eol + letters[..4], rest);
      FilterAppend(eol, letters[..4]);
      WithoutFiller(letters);
    } else {
      FilterEmpty();
    }
  }

  lemma WithoutFiller(letters: seq<Byte>)
    requires |letters| >= 4
    ensures [] + letters[..4] + letters[4..] == letters
  {}

  lemma FilterEncoded(data: seq<Byte>, style: LineEnding)
    ensures Filter(Encoded(data, style)) == Quads(data)
    ensures Counted(Encoded(data, style)) == Quads(data)
  {
    QuadsSignificant(data);
    FilterLines(Quads(data), 19, style);
    hide Significant, IsLetter;
    var text := Encoded(data, style);
    if data != [] { assert text[0] == Quads(data)[0]; }
    CountedIsFilter(text);
  }

  lemma CountedIsFilter(text: seq<Byte>)
    ensures text != [] && text[0] == PAD ==> Filter(text) == [PAD] + Counted(text)
    ensures text == [] || text[0] != PAD ==> Counted(text) == Filter(text)
  {
    hide Filter, Counted, Kept, Significant;
    if text == [] {
      FilterEmpty();
      CountedEmpty();
    } else {
      FilterFirst(text);
      CountedFirst(text);
      KeptFirst(text[0]);
    }
  }

  lemma CountedEmpty()
    ensures Counted([]) == []
  {}

  lemma CountedFirst(text: seq<Byte>)
    requires text != []
    ensures Counted(text) == Kept(text[0]) + Filter(text[1..])
  {}

  lemma KeptFirst(c: Byte)
    ensures c == PAD ==> Kept(c) == [] && Significant(c)
    ensures c != PAD ==> Kept(c) == if Significant(c) then [c] else []
  {
    PadIsNoLetter();
    hide IsLetter;
  }

  lemma PadIsNoLetter()
    ensures !IsLetter(PAD)
  {}

  /** Decoding undoes encoding, for all data and every line ending. */
  lemma DecodeOfEncoded(data: seq<Byte>, style: LineEnding)
    ensures Decode(Encoded(data, style)) == Data(data)
  {
    hide Encoded, Counted, Quads, Filter;
    NoTriples();
    hide Triples;
    FilterEncoded(data, style);
    TriplesOfQuads(data, []);
    assert Quads(data) + [] == Quads(data);
  }

  lemma CountedAppend(s: seq<Byte>, t: seq<Byte>)
    requires s != []
    ensures Counted(s + t) == Counted(s) + Filter(t)
  {
    hide Filter, Kept;
    FilterAppend(s[1..], t);
    assert (s + t)[1..] == s[1..] + t && (s + t)[0] == s[0];
    assert Kept(s[0]) + (Filter(s[1..]) + Filter(t)) == Kept(s[0]) + Filter(s[1..]) + Filter(t);
  }

  lemma {:induction false} TriplesAppend(cs: seq<Byte>, ds: seq<Byte>)
    requires |cs| % 4 == 0
    ensures Triples(cs + ds) == Triples(cs) + Triples(ds)
    decreases |cs|
  {
    hide Triple, Triples;
    if cs == [] {
      assert cs + ds == ds;
      NoTriples();
    } else {
      var four, rest := cs[..4], cs[4..];
      TriplesAppend(rest, ds);
      assert cs == four + rest;
      FirstTriple(four, rest);
      FirstTriple(four, rest + ds);
      Associate(four, rest, ds);
      Associate(Triple(four), Triples(rest), Triples(ds));
    }
  }

  /** What is encoded behind a text is decoded behind it, whatever padding the text ends with. */
  lemma DecodeAppended(text: seq<Byte>, data: seq<Byte>, style: LineEnding)
    requires Decode(text) != Truncated
    ensures Decode(text + Encoded(data, style)) == Data(Decode(text).bytes + data)
  {
    hide Triples, Quads;
    FilterEncoded(data, style);
    TriplesOfQuads(data, []);
    assert Quads(data) + [] == Quads(data);
    if text == [] {
      assert text + Encoded(data, style) == Encoded(data, style);
      assert Triples([]) == [] by { NoTriples(); }
    } else {
      CountedAppend(text, Encoded(data, style));
      TriplesAppend(Counted(text), Quads(data));
      assert Triples([]) == [] by { NoTriples(); }
    }
  }

  lemma NoTriples()
    ensures Triples([]) == []
  {}

  function Join(parts: seq<seq<Byte>>): seq<Byte> {
    if parts == [] then [] else Join(parts[..|parts| - 1]) + parts[|parts| - 1]
  }

  function EncodedParts(parts: seq<seq<Byte>>, style: LineEnding): seq<Byte> {
    if parts == [] then [] else EncodedParts(parts[..|parts| - 1], style) + Encoded(parts[|parts| - 1], style)
  }

  /** Encodings one behind another decode to their data one behind another. */
  lemma {:induction false} DecodeOfConcatenation(parts: seq<seq<Byte>>, style: LineEnding)
    ensures Decode(EncodedParts(parts, style)) == Data(Join(parts))
    decreases |parts|
  {
    hide Encoded;
    if parts == [] {
      NoTriples();
    } else {
      hide Decode;
      DecodeOfConcatenation(parts[..|parts| - 1], style);
      DecodeAppended(EncodedParts(parts[..|parts| - 1], style), parts[|parts| - 1], style);
    }
  }

  /**
   * Filler may stand anywhere: it changes nothing that is counted, except that in front of a text
   * that begins with '=' it makes that '=' count.
   */
  lemma FillerInserted(before: seq<Byte>, filler: seq<Byte>, after: seq<Byte>)
    requires forall k :: 0 <= k < |filler| ==> !Significant(filler[k])
    ensures Counted(before + filler + after) == Counted(before + after)
      <==> (filler == [] || before != [] || after == [] || after[0] != PAD)
  {
    FilterNone(filler);
    var text := before + filler + after;
    if filler == [] {
      assert text == before + after;
    } else if before != [] {
      assert text == before + (filler + after);
      CountedAppend(before, filler + after);
      CountedAppend(before, after);
      FilterAppend(filler, after);
    } else {
      assert text == filler + after && before + after == after;
      assert filler[0] != PAD;
      CountedIsFilter(text);
      FilterAppend(filler, after);
      CountedIsFilter(after);
      if after != [] && after[0] == PAD { assert |Filter(after)| == 1 + |Counted(after)|; }
    }
  }

  /**
   * So filler changes neither the bytes nor whether decoding fails; where it makes a '=' count, the
   * two texts cannot both decode.
   */
  lemma FillerDecoded(before: seq<Byte>, filler: seq<Byte>, after: seq<Byte>)
    requires forall k :: 0 <= k < |filler| ==> !Significant(filler[k])
    ensures filler == [] || before != [] || after == [] || after[0] != PAD ==>
      Decode(before + filler + after) == Decode(before + after)
    ensures !(filler == [] || before != [] || after == [] || after[0] != PAD) ==>
      Decode(before + filler + after) == Truncated || Decode(before + after) == Truncated
  {
    hide Counted, Filter, Significant, Triples;
    FillerInserted(before, filler, after);
    if !(filler == [] || before != [] || after == [] || after[0] != PAD) {
      var text := before + filler + after;
      assert text == filler + after && before + after == after;
      FilterNone(filler);
      FilterAppend(filler, after);
      PadIsSignificant();
      assert text[0] != PAD;
      CountedIsFilter(text);
      CountedIsFilter(after);
      assert |Counted(text)| == 1 + |Counted(after)|;
    }
  }

  lemma PadIsSignificant()
    ensures Significant(PAD)
  {}
}

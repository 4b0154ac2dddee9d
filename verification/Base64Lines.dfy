/** The lines of encoded text. */
module Base64Lines {
  import opened Base64

  /** Every break of text comes when a multiple of 76 letters has been written, and is not the end; n letters came before text. */
  ghost predicate BreaksOnly76(text: seq<Byte>, n: nat) {
    text == [] ||
    if IsBreak(text[0]) then n % 76 == 0 && n > 0 && |text| > 1 && BreaksOnly76(text[1..], n)
    else BreaksOnly76(text[1..], n + 1)
  }

  /** No line of text is longer than 76; the line it begins in has `used` characters already. */
  ghost predicate ShortLines(text: seq<Byte>, used: nat) {
    text == [] ||
    if IsBreak(text[0]) then ShortLines(text[1..], 0)
    else used < 76 && ShortLines(text[1..], used + 1)
  }

  lemma {:induction false} LettersThenBreaks(q: seq<Byte>, text: seq<Byte>, n: nat)
    requires forall k :: 0 <= k < |q| ==> !IsBreak(q[k])
    requires BreaksOnly76(text, n + |q|)
    ensures BreaksOnly76(q + text, n)
    decreases |q|
  {
    hide IsBreak;
    if q == [] {
      assert q + text == text;
    } else {
      LettersThenBreaks(q[1..], text, n + 1);
      assert (q + text)[1..] == q[1..] + text;
    }
  }

  lemma {:induction false} LettersThenLines(q: seq<Byte>, text: seq<Byte>, used: nat)
    requires forall k :: 0 <= k < |q| ==> !IsBreak(q[k])
    requires used + |q| <= 76 && ShortLines(text, used + |q|)
    ensures ShortLines(q + text, used)
    decreases |q|
  {
    hide IsBreak;
    if q == [] {
      assert q + text == text;
    } else {
      LettersThenLines(q[1..], text, used + 1);
      assert (q + text)[1..] == q[1..] + text;
    }
  }

  lemma EolThen(style: LineEnding, text: seq<Byte>, n: nat, used: nat)
    requires text != [] && n % 76 == 0 && n > 0 && BreaksOnly76(text, n) && ShortLines(text, 0)
    ensures BreaksOnly76(Eol(style) + text, n) && ShortLines(Eol(style) + text, used)
  {
    var eol := Eol(style);
    assert IsBreak(eol[0]) && (|eol| == 2 ==> IsBreak(eol[1]));
    assert (eol + text)[1..] == eol[1..] + text;
    if |eol| == 1 {
      assert eol[1..] + text == text;
    } else {
      assert (eol[1..] + text)[1..] == text;
    }
  }

  /** n letters are written and room quads still fit on the line. */
  lemma {:induction false} LinesOf(letters: seq<Byte>, room: nat, style: LineEnding, n: nat)
    requires |letters| % 4 == 0 && forall k :: 0 <= k < |letters| ==> !IsBreak(letters[k])
    requires room <= 19 && (n + 4 * room) % 76 == 0 && (n > 0 || room == 19)
    ensures BreaksOnly76(InLines(letters, room, style), n)
    ensures ShortLines(InLines(letters, room, style), if room == 0 then 76 else 76 - 4 * room)
    decreases |letters|
  {
    if letters != [] {
      var q, next := letters[..4], if room == 0 then 18 else room - 1;
      var rest := InLines(letters[4..], next, style);
      NextQuadInLines(letters, room, style);
      hide BreaksOnly76, ShortLines, InLines, Eol, IsBreak;
      LinesOf(letters[4..], next, style, n + 4);
      LettersThenBreaks(q, rest, n);
      LettersThenLines(q, rest, if room == 0 then 0 else 76 - 4 * room);
      if room == 0 { EolThen(style, q + rest, n, 76); }
    }
  }

  lemma NextQuadInLines(letters: seq<Byte>, room: nat, style: LineEnding)
    requires |letters| % 4 == 0 && letters != []
    ensures var q, rest := letters[..4], InLines(letters[4..], if room == 0 then 18 else room - 1, style);
      InLines(letters, room, style) == if room == 0 then Eol(style) + (q + rest) else q + rest
  {
    hide Eol;
  }

  lemma SignificantIsNoBreak(c: Byte)
    requires Significant(c)
    ensures !IsBreak(c)
  {}

  lemma EncodedLines(data: seq<Byte>, style: LineEnding)
    ensures BreaksOnly76(Encoded(data, style), 0) && ShortLines(Encoded(data, style), 0)
  {
    QuadsSignificant(data);
    forall k | 0 <= k < |Quads(data)| ensures !IsBreak(Quads(data)[k]) { SignificantIsNoBreak(Quads(data)[k]); }
    LinesOf(Quads(data), 19, style, 0);
  }

  /** The characters of text that are not line breaks. */
  function WithoutBreaks(text: seq<Byte>): seq<Byte> {
    if text == [] then [] else (if IsBreak(text[0]) then [] else [text[0]]) + WithoutBreaks(text[1..])
  }

  lemma {:induction false} ShortLinesMeans(text: seq<Byte>, used: nat, i: nat, j: nat)
    requires ShortLines(text, used) && i <= j <= |text| && forall k :: i <= k < j ==> !IsBreak(text[k])
    ensures j - i <= 76 && (i == 0 && used + j > 76 ==> j == 0)
    decreases |text|
  {
    hide IsBreak;
    if i > 0 {
      ShortLinesMeans(text[1..], if IsBreak(text[0]) then 0 else used + 1, i - 1, j - 1);
    } else if j > 0 {
      assert !IsBreak(text[0]);
      ShortLinesMeans(text[1..], used + 1, 0, j - 1);
    }
  }

  lemma {:induction false} BreaksOnly76Means(text: seq<Byte>, n: nat, i: nat)
    requires BreaksOnly76(text, n) && i < |text| && IsBreak(text[i])
    ensures (n + |WithoutBreaks(text[..i])|) % 76 == 0 && n + |WithoutBreaks(text[..i])| > 0 && i + 1 < |text|
    decreases |text|
  {
    hide IsBreak;
    if i > 0 {
      assert text[..i][1..] == text[1..][..i - 1];
      BreaksOnly76Means(text[1..], if IsBreak(text[0]) then n else n + 1, i - 1);
    }
  }

  /** Lines are at most 76 characters long (RFC 2045, section 6.8). */
  lemma LineLength(data: seq<Byte>, style: LineEnding, i: nat, j: nat)
    requires i <= j <= |Encoded(data, style)|
    requires forall k :: i <= k < j ==> !IsBreak(Encoded(data, style)[k])
    ensures j - i <= 76
  {
    hide Encoded, BreaksOnly76, ShortLines, IsBreak;
    EncodedLines(data, style);
    ShortLinesMeans(Encoded(data, style), 0, i, j);
  }

  /** A line break comes only behind full lines of 76 characters, so between quads, and never at the end. */
  lemma BreaksBetweenLines(data: seq<Byte>, style: LineEnding, i: nat)
    requires i < |Encoded(data, style)| && IsBreak(Encoded(data, style)[i])
    ensures var written := |WithoutBreaks(Encoded(data, style)[..i])|; written % 76 == 0 && written % 4 == 0 && written > 0
    ensures i + 1 < |Encoded(data, style)|
  {
    hide Encoded, BreaksOnly76, ShortLines, WithoutBreaks, IsBreak;
    EncodedLines(data, style);
    BreaksOnly76Means(Encoded(data, style), 0, i);
    DividesFour(|WithoutBreaks(Encoded(data, style)[..i])|);
  }

  lemma DividesFour(n: nat)
    requires n % 76 == 0
    ensures n % 4 == 0
  {
    var q := n / 76;
    assert n == 76 * q;
    FourDivides(19 * q);
  }

  lemma FourDivides(m: nat)
    ensures (4 * m) % 4 == 0
  {}
}

/** The coder object: its tables, and the two stream loops. */
module Base64Codec {
  import opened Base64

  class Coder {
    const encodeTable: array<Byte>
    const decodeTable: array<Byte>
    const badValue: Byte
    var eolStyle: LineEnding

    /** The tables hold the alphabet; byte 255 has no entry. */
    ghost predicate Valid()
      reads encodeTable, decodeTable
    {
      badValue == BAD && EncodeFilled(encodeTable[..], 64) && DecodeFilled(decodeTable[..], 64)
    }

    constructor ()
      ensures Valid() && eolStyle == LF && fresh(encodeTable) && fresh(decodeTable)
    {
      badValue := BAD;
      eolStyle := LF;
      var enc := FillEncodeTable();
      var dec := FillDecodeTable(enc);
      encodeTable := enc;
      decodeTable := dec;
    }

    /** A look into the encode table. */
    method LetterAt(v: Byte) returns (c: Byte)
      requires Valid() && v < 64
      ensures c == Letter(v)
    {
      IndexOf(v);
      c := encodeTable[v as int];
    }

    /** A look into the decode table. */
    method ValueAt(c: Byte) returns (v: Byte)
      requires Valid() && c < 255
      ensures v == ValueOf(c) && badValue == BAD
    {
      IndexOf(c);
      ValueHasLetter(c);
      assert Entry(decodeTable[..], c, 64);
      v := decodeTable[c as int];
    }

    /** encode: the letters of the input, three bytes at a time, with a break after every 19 quads. */
    method Encode(input: seq<Byte>) returns (out: seq<Byte>)
      requires Valid()
      ensures out == Encoded(input, eolStyle)
    {
      hide Eol, Quad, Quads, InLines, Valid;
      out := [];
      var i := 0;
      var counter := 19;
      assert input[0..] == input;
      var status := Min(3, |input| - i);
      while status != 0
        invariant 0 <= i <= |input| && status == Min(3, |input| - i)
        invariant 0 <= counter <= 19
        invariant Encoded(input, eolStyle) == out + InLines(Quads(input[i..]), counter, eolStyle)
        decreases |input| - i
      {
        ghost var before, room := out, counter;
        if counter == 0 {
          counter := 19;
          out := out + Eol(eolStyle);
        }
        counter := counter - 1;
        var group := input[i..i + status];
        OneMoreQuad(before, input[i..], room, eolStyle, group);
        var outbuf := EncodeGroup(group);
        out := out + outbuf;
        assert input[i..][status..] == input[i + status..];
        i := i + status;
        status := Min(3, |input| - i);
      }
      assert input[i..] == [];
      NothingLeft(counter, eolStyle);
    }

    /** One round of the loop: the bytes of inbuf in base64, with padding at the end of the input. */
    method EncodeGroup(inbuf: seq<Byte>) returns (outbuf: seq<Byte>)
      requires Valid() && 1 <= |inbuf| <= 3
      ensures outbuf == Quad(inbuf)
    {
      hide Letter, Valid, Sextet0, Sextet1, Sextet2, Sextet3;
      QuadBits(inbuf[0], if |inbuf| > 1 then inbuf[1] else 0, if |inbuf| > 2 then inbuf[2] else 0);
      var o0 := LetterAt(Sextet0(inbuf[0]));
      if |inbuf| == 3 {
        var o1 := LetterAt(Sextet1(inbuf[0], inbuf[1]));
        var o2 := LetterAt(Sextet2(inbuf[1], inbuf[2]));
        var o3 := LetterAt(Sextet3(inbuf[2]));
        outbuf := [o0, o1, o2, o3];
      } else if |inbuf| == 2 {
        var o1 := LetterAt(Sextet1(inbuf[0], inbuf[1]));
        var o2 := LetterAt(Sextet2(inbuf[1], 0));
        outbuf := [o0, o1, o2, PAD];
      } else {
        var o1 := LetterAt(Sextet1(inbuf[0], 0));
        outbuf := [o0, o1, PAD, PAD];
      }
    }

    /** The values of four characters in their places. */
    method LookUp(inbuf: array<Byte>)
      requires Valid() && inbuf.Length == 4 && inbuf != decodeTable && inbuf != encodeTable
      requires forall k :: 0 <= k < 4 ==> inbuf[k] < 255
      modifies inbuf
      ensures forall k :: 0 <= k < 4 ==> inbuf[k] == ValueOf(old(inbuf[k]))
    {
      hide ValueOf, Valid;
      inbuf[0] := ValueAt(inbuf[0]);
      inbuf[1] := ValueAt(inbuf[1]);
      inbuf[2] := ValueAt(inbuf[2]);
      inbuf[3] := ValueAt(inbuf[3]);
    }

    /** Four characters: how many bytes they stand for, and which. */
    method DecodeFour(inbuf: array<Byte>) returns (bytes: seq<Byte>)
      requires Valid() && inbuf.Length == 4 && inbuf != decodeTable && inbuf != encodeTable
      requires forall k :: 0 <= k < 4 ==> inbuf[k] < 255
      modifies inbuf
      ensures bytes == Triple(old(inbuf[..]))
    {
      hide ValueOf, Valid, Octet0, Octet1, Octet2, Triple;
      ghost var q := inbuf[..];
      var outsize := 3;
      if inbuf[3] == PAD {
        if inbuf[2] == PAD {
          outsize := 1;
        } else {
          outsize := 2;
        }
      }
      LookUp(inbuf);
      var outbuf := [Octet0(inbuf[0], inbuf[1]), Octet1(inbuf[1], inbuf[2]), Octet2(inbuf[2], inbuf[3])];
      bytes := outbuf[..outsize];
      TripleParts(q, inbuf[0], inbuf[1], inbuf[2], inbuf[3], outsize);
    }

    /** One character more: it stays in the buffer if it counts. */
    method TakeCharacter(inbuf: array<Byte>, inbufPos: nat, c: Byte) returns (next: nat)
      requires Valid() && inbuf != encodeTable && inbuf != decodeTable
      requires inbufPos < inbuf.Length && c < 255 && forall k :: 0 <= k < inbufPos ==> inbuf[k] < 255
      modifies inbuf
      ensures inbufPos <= next <= inbufPos + 1 && forall k :: 0 <= k < next ==> inbuf[k] < 255
      ensures inbuf[..next] == old(inbuf[..inbufPos]) + if Significant(c) then [c] else []
    {
      hide ValueOf, Valid, Significant;
      CountedByValue(c);
      ghost var held := inbuf[..inbufPos];
      inbuf[inbufPos] := c;
      assert inbuf[..inbufPos] == held && inbuf[..inbufPos + 1] == held + [c];
      var value := ValueAt(inbuf[inbufPos]);
      next := inbufPos;
      if value != badValue || inbuf[inbufPos] == PAD {
        next := inbufPos + 1;
      } else {
        assert held + [] == held;
      }
    }

    /**
     * decode: Short is the exception for input that ends within four characters, OutsideTable the
     * look behind the table for a byte 255. What was complete before has been written.
     */
    method DecodeStream(input: seq<Byte>) returns (ending: Ending, out: seq<Byte>)
      requires Valid()
      ensures ending == OutsideTable <==> 255 in input
      ensures ending == Whole <==> 255 !in input && Decode(input) != Truncated
      ensures out == Triples(Counted(UpTo255(input)))
    {
      hide ValueOf, Triple, Triples, Counted, Valid, DecodedSoFar, Decode, UpTo255, Kept, Significant;
      out := [];
      var inbuf := new Byte[4];
      var inbufPos := 0;
      var i := 0;
      var status := 0;
      DecodedNothing(input);
      if |input| > 0 {
        inbuf[0], status := input[0], 1;
        if inbuf[0] == 255 {
          DecodedUpTo255(input, 0, [], [], out);
          return OutsideTable, out;
        }
        i := 1;
        CountedByValue(inbuf[0]);
        var value := ValueAt(inbuf[0]);
        if value != badValue {
          inbufPos := inbufPos + 1;
        }
      }
      ghost var done: seq<Byte> := [];
      DecodedStart(input, i, inbuf[..inbufPos]);
      while status != 0
        invariant 0 <= i <= |input| && 0 <= inbufPos <= 4 && (status == 0 ==> i == |input| && inbufPos < 4)
        invariant status != 0 ==> i > 0
        invariant forall k :: 0 <= k < inbufPos ==> inbuf[k] < 255
        invariant forall k :: 0 <= k < i ==> input[k] < 255
        invariant DecodedSoFar(input, i, done, inbuf[..inbufPos], out)
        decreases |input| - i, status
      {
        if inbufPos == 4 {
          inbufPos := 0;
          ghost var four := inbuf[..4];
          assert inbuf[..] == four;
          var bytes := DecodeFour(inbuf);
          DecodedFour(input, i, done, four, out);
          done := done + four;
          out := out + bytes;
          assert inbuf[..inbufPos] == [];
        }
        status := 0;
        if i < |input| {
          if input[i] == 255 {
            DecodedUpTo255(input, i, done, inbuf[..inbufPos], out);
            return OutsideTable, out;
          }
          DecodedNext(input, i, done, inbuf[..inbufPos], out);
          inbufPos := TakeCharacter(inbuf, inbufPos, input[i]);
          i, status := i + 1, 1;
        }
      }
      ending := if inbufPos == 0 then Whole else Short;
      assert 255 !in input;
      DecodedEnd(input, done, inbuf[..inbufPos], out);
    }
  }

  datatype Ending = Whole | Short | OutsideTable

  lemma TripleParts(q: seq<Byte>, v0: Byte, v1: Byte, v2: Byte, v3: Byte, size: nat)
    requires |q| == 4 && v0 == ValueOf(q[0]) && v1 == ValueOf(q[1]) && v2 == ValueOf(q[2]) && v3 == ValueOf(q[3])
    requires size == if q[3] != PAD then 3 else if q[2] != PAD then 2 else 1
    ensures Triple(q) == [Octet0(v0, v1), Octet1(v1, v2), Octet2(v2, v3)][..size]
  {
    hide ValueOf, Octet0, Octet1, Octet2;
  }

  /** The input in front of the first byte 255. */
  function UpTo255(input: seq<Byte>): (front: seq<Byte>)
    ensures 255 !in front && (255 !in input ==> front == input)
  {
    if input == [] || input[0] == 255 then [] else [input[0]] + UpTo255(input[1..])
  }

  lemma {:induction false} UpTo255Is(input: seq<Byte>, i: nat)
    requires i < |input| && input[i] == 255 && forall k :: 0 <= k < i ==> input[k] < 255
    ensures UpTo255(input) == input[..i] && 255 in input
  {
    if i > 0 {
      UpTo255Is(input[1..], i - 1);
      assert input[..i] == [input[0]] + input[1..][..i - 1];
    }
  }

  /** Whether a character counts is told by its entry in the table. */
  lemma CountedByValue(c: Byte)
    ensures Kept(c) == if ValueOf(c) != BAD then [c] else []
    ensures Significant(c) <==> ValueOf(c) != BAD || c == PAD
  {
    hide ValueOf;
  }

  lemma DecodedNothing(input: seq<Byte>)
    ensures DecodedSoFar(input, 0, [], [], [])
  {}

  lemma DecodedUpTo255(input: seq<Byte>, i: nat, done: seq<Byte>, held: seq<Byte>, out: seq<Byte>)
    requires i < |input| && input[i] == 255 && forall k :: 0 <= k < i ==> input[k] < 255
    requires DecodedSoFar(input, i, done, held, out) && |held| < 4
    ensures out == Triples(Counted(UpTo255(input))) && 255 in input
  {
    hide Triples, Counted, UpTo255;
    UpTo255Is(input, i);
    TriplesRest(done, held);
  }

  /** What is counted up to i has been decoded but for the characters held. */
  ghost predicate DecodedSoFar(input: seq<Byte>, i: nat, done: seq<Byte>, held: seq<Byte>, out: seq<Byte>) {
    i <= |input| && Counted(input[..i]) == done + held && |done| % 4 == 0 && out == Triples(done)
  }

  lemma DecodedStart(input: seq<Byte>, i: nat, held: seq<Byte>)
    requires i == Min(1, |input|)
    requires held == if input == [] then [] else Kept(input[0])
    ensures DecodedSoFar(input, i, [], held, [])
  {
    FirstCounted(input);
    NoTriples();
    assert input == [] ==> input[..i] == input;
  }

  lemma DecodedFour(input: seq<Byte>, i: nat, done: seq<Byte>, four: seq<Byte>, out: seq<Byte>)
    requires DecodedSoFar(input, i, done, four, out) && |four| == 4
    ensures DecodedSoFar(input, i, done + four, [], out + Triple(four))
  {
    OneMoreTriple(done, four);
  }

  lemma DecodedNext(input: seq<Byte>, i: nat, done: seq<Byte>, held: seq<Byte>, out: seq<Byte>)
    requires DecodedSoFar(input, i, done, held, out) && 0 < i < |input|
    ensures DecodedSoFar(input, i + 1, done, held + (if Significant(input[i]) then [input[i]] else []), out)
  {
    hide Significant, Triples, Counted;
    NextCounted(input, i);
  }

  lemma DecodedEnd(input: seq<Byte>, done: seq<Byte>, held: seq<Byte>, out: seq<Byte>)
    requires DecodedSoFar(input, |input|, done, held, out) && |held| < 4
    ensures held == [] <==> Decode(input) != Truncated
    ensures out == Triples(Counted(input))
  {
    hide Triples, Counted;
    TriplesRest(done, held);
    assert input[..|input|] == input;
  }

  // ---- the tables --------------------------------------------------------------------------------

  /** A byte is an index of its own. */
  lemma IndexOf(v: Byte)
    ensures (v as int) as Byte == v && 0 <= v as int < 256
    ensures v < 64 ==> v as int < 64
    ensures v < 255 ==> v as int < 255
  {}

  ghost predicate EncodeFilled(enc: seq<Byte>, n: int) {
    |enc| == 64 && forall v: Byte :: v < 64 && v as int < n ==> (v as int) < 64 && enc[v as int] == Letter(v)
  }

  ghost predicate DecodeFilled(dec: seq<Byte>, n: Byte) {
    |dec| == 255 && forall c: Byte :: c < 255 ==> Entry(dec, c, n)
  }

  /** The entry of c, once the letters of the values below n are in the table. */
  ghost predicate Entry(dec: seq<Byte>, c: Byte, n: Byte) {
    c as int < |dec| && dec[c as int] == if ValueOf(c) < n then ValueOf(c) else BAD
  }

  lemma EncodeFilledNext(enc: seq<Byte>, k: nat)
    requires EncodeFilled(enc, k) && k < 64
    ensures EncodeFilled(enc[k := Letter(k as Byte)], k + 1)
  {
    hide Letter;
    forall v: Byte | v < 64 && v as int < k + 1 ensures (v as int) < 64 && enc[k := Letter(k as Byte)][v as int] == Letter(v) {
      IndexOf(v);
    }
  }

  method FillEncodeTable() returns (enc: array<Byte>)
    ensures EncodeFilled(enc[..], 64) && fresh(enc)
  {
    hide Letter, EncodeFilled;
    enc := new Byte[64];
    var k := 0;
    NothingFilled(enc[..]);
    while k < 64
      invariant 0 <= k <= 64 && EncodeFilled(enc[..], k)
    {
      ghost var before := enc[..];
      EncodeFilledNext(before, k);
      enc[k] := Letter(k as Byte);
      assert enc[..] == before[k := Letter(k as Byte)];
      k := k + 1;
    }
  }

  lemma NothingFilled(enc: seq<Byte>)
    requires |enc| == 64
    ensures EncodeFilled(enc, 0)
  {}

  lemma AllBad(dec: seq<Byte>)
    requires |dec| == 255 && forall k :: 0 <= k < 255 ==> dec[k] == BAD
    ensures DecodeFilled(dec, 0)
  {
    hide ValueOf;
    forall c: Byte | c < 255 ensures Entry(dec, c, 0) { IndexOf(c); }
  }

  lemma DecodeFilledNext(dec: seq<Byte>, i: Byte)
    requires DecodeFilled(dec, i) && i < 64
    ensures (Letter(i) as int) < 255 && DecodeFilled(dec[Letter(i) as int := i], i + 1)
  {
    LetterHasValue(i);
    IndexOf(Letter(i));
    var after, next := dec[Letter(i) as int := i], i + 1;
    forall c: Byte | c < 255 ensures Entry(after, c, next) {
      EntryNext(dec, c, i);
    }
  }

  lemma EntryNext(dec: seq<Byte>, c: Byte, i: Byte)
    requires |dec| == 255 && c < 255 && i < 64 && Entry(dec, c, i) && (Letter(i) as int) < 255
    ensures Entry(dec[Letter(i) as int := i], c, i + 1)
  {
    hide Letter, ValueOf;
    IndexOf(c);
    IndexOf(Letter(i));
    OneLetter(c, i);
  }

  /** Letters and values below 64 belong to each other one to one. */
  lemma OneLetter(c: Byte, i: Byte)
    requires i < 64
    ensures ValueOf(c) == i <==> c == Letter(i)
    ensures ValueOf(c) < i + 1 <==> ValueOf(c) < i || ValueOf(c) == i
  {
    ValueHasLetter(c);
    LetterHasValue(i);
    hide Letter, ValueOf;
  }

  method FillDecodeTable(enc: array<Byte>) returns (dec: array<Byte>)
    requires EncodeFilled(enc[..], 64)
    ensures DecodeFilled(dec[..], 64) && fresh(dec)
  {
    hide Letter, ValueOf, DecodeFilled;
    dec := new Byte[255];
    var k := 0;
    while k < 255
      invariant 0 <= k <= 255 && forall j :: 0 <= j < k ==> dec[j] == BAD
    {
      dec[k] := BAD;
      k := k + 1;
    }
    AllBad(dec[..]);
    var i: Byte := 0;
    while i < 64
      invariant i <= 64 && DecodeFilled(dec[..], i) && enc[..] == old(enc[..])
      decreases 64 - i
    {
      IndexOf(i);
      ghost var before := dec[..];
      DecodeFilledNext(before, i);
      assert enc[i as int] == enc[..][i as int] == Letter(i);
      dec[enc[i as int] as int] := i;
      assert dec[..] == before[Letter(i) as int := i];
      i := i + 1;
    }
  }

  lemma NothingLeft(room: nat, style: LineEnding)
    ensures InLines(Quads([]), room, style) == []
  {}

  /** One group of bytes more, with the break before it if the line is full. */
  lemma OneMoreQuad(before: seq<Byte>, rest: seq<Byte>, room: nat, style: LineEnding, group: seq<Byte>)
    requires rest != [] && group == rest[..Min(3, |rest|)]
    ensures before + InLines(Quads(rest), room, style)
      == before + (if room == 0 then Eol(style) else []) + Quad(group)
       + InLines(Quads(rest[|group|..]), if room == 0 then 18 else room - 1, style)
  {
    hide Quad, Eol;
    var letters := Quads(rest);
    assert letters == Quad(group) + Quads(rest[|group|..]);
    assert letters[..4] == Quad(group) && letters[4..] == Quads(rest[|group|..]);
  }

  lemma FirstCounted(input: seq<Byte>)
    ensures input == [] ==> Counted(input) == []
    ensures input != [] ==> Counted(input[..1]) == Kept(input[0])
  {}

  /** One character more. */
  lemma NextCounted(input: seq<Byte>, i: nat)
    requires 0 < i < |input|
    ensures Counted(input[..i + 1]) == Counted(input[..i]) + if Significant(input[i]) then [input[i]] else []
  {
    assert input[..i + 1] == input[..i] + [input[i]];
    CountedAppend(input[..i], [input[i]]);
    assert [input[i]][1..] == [];
  }

  lemma OneMoreTriple(done: seq<Byte>, four: seq<Byte>)
    requires |done| % 4 == 0 && |four| == 4
    ensures Triples(done + four) == Triples(done) + Triple(four) && |done + four| % 4 == 0
  {
    hide Triple;
    TriplesAppend(done, four);
    assert four[..4] == four && four[4..] == [];
  }

  lemma TriplesRest(done: seq<Byte>, rest: seq<Byte>)
    requires |done| % 4 == 0 && |rest| < 4
    ensures Triples(done + rest) == Triples(done)
    ensures |done + rest| % 4 == 0 <==> rest == []
  {
    hide Triple;
    TriplesAppend(done, rest);
  }
}

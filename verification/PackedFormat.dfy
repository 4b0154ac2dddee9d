/** The integer code byte by byte, and what a reader makes of any bytes at all. */
module PackedFormat {
  import opened Basics
  import opened PackedIntegers

  // ---- the layout --------------------------------------------------------------------------------

  /** Byte k of a number is its digit in base 256, least significant first. */
  lemma {:induction false} ByteOfNumber(n: nat, k: nat)
    requires k < |LittleEndian(n)|
    ensures LittleEndian(n)[k] == n / Pow256(k) % 256
    decreases k
  {
    if k > 0 {
      ByteOfNumber(n / 256, k - 1);
      DivideTwice(n, 256, Pow256(k - 1));
    }
  }

  /** The code of x: the number of bytes in the low half of the control byte, bit 7 for the sign, then the bytes of its magnitude. */
  lemma CodeOf(x: int, k: nat)
    requires |LittleEndian(Abs(x))| <= 8 && k + 1 < |Encoding(x)|
    ensures Encoding(x)[0] == (|Encoding(x)| - 1) + (if x < 0 then 128 else 0)
    ensures Encoding(x)[k + 1] == (if x < 0 then -x else x) / Pow256(k) % 256
    ensures 2 <= |Encoding(x)| <= 9 && (|Encoding(x)| > 2 ==> Encoding(x)[|Encoding(x)| - 1] != 0)
  {
    ByteOfNumber(Abs(x), k);
  }

  /** The ranges of the types of one, two, four and eight bytes. */
  lemma Ranges(x: int)
    ensures Fits(x, 1, true) <==> -0x80 <= x < 0x80
    ensures Fits(x, 2, true) <==> -0x8000 <= x < 0x8000
    ensures Fits(x, 4, true) <==> -0x8000_0000 <= x < 0x8000_0000
    ensures Fits(x, 8, true) <==> -0x8000_0000_0000_0000 <= x < 0x8000_0000_0000_0000
    ensures Fits(x, 1, false) <==> 0 <= x < 0x100
    ensures Fits(x, 2, false) <==> 0 <= x < 0x1_0000
    ensures Fits(x, 4, false) <==> 0 <= x < 0x1_0000_0000
    ensures Fits(x, 8, false) <==> 0 <= x < 0x1_0000_0000_0000_0000
  {
    Powers();
    hide Pow256;
  }

  lemma Powers()
    ensures Pow256(0) == 1 && Pow256(1) == 0x100 && Pow256(2) == 0x1_0000 && Pow256(3) == 0x100_0000
    ensures Pow256(4) == 0x1_0000_0000 && Pow256(7) == 0x100_0000_0000_0000 && Pow256(8) == 0x1_0000_0000_0000_0000
  {
    assert Pow256(2) == 256 * Pow256(1);
    assert Pow256(3) == 256 * Pow256(2);
    assert Pow256(4) == 256 * Pow256(3);
    assert Pow256(6) == 256 * 256 * Pow256(4);
    assert Pow256(8) == 256 * Pow256(7) == 256 * 256 * Pow256(6);
  }

  // ---- any bytes ---------------------------------------------------------------------------------

  /**
   * What is read from any bytes: the control byte says how many follow; too many for the type, or a
   * sign for an unsigned one, is an error, and so are fewer than that many.
   */
  lemma OutcomeOf(s: Bytes, at: nat, w: nat, signed: bool)
    requires 1 <= w <= 8 && at <= |s|
    ensures at == |s| ==> Decoding(s, at, w, signed) == EndOfStream
    ensures at < |s| ==>
      var size, tooBig := s[at] % 16, s[at] % 16 > w || (!signed && s[at] >= 128);
      && (Decoding(s, at, w, signed) == TooBig <==> tooBig)
      && (Decoding(s, at, w, signed) == EndOfStream <==> !tooBig && at + 1 + size > |s|)
      && (Decoding(s, at, w, signed) == Undefined <==> !tooBig && size == 0)
      && (Decoding(s, at, w, signed).Got? <==> !tooBig && 0 < size && at + 1 + size <= |s|)
      && (Decoding(s, at, w, signed).Got? ==> Decoding(s, at, w, signed).next == at + 1 + size)
  {
    hide FromBytes, Pow256, ValueOf;
    if at < |s| { ControlByteOf(s[at], w); }
  }

  lemma ControlByteOf(control: Byte, w: nat)
    requires 1 <= w <= 8
    ensures SizeOf(control, true) == control % 16
    ensures SizeOf(control, false) > w <==> control % 16 > w || control >= 128
    ensures SizeOf(control, false) <= w ==> SizeOf(control, false) == control % 16
  {}

  /** x and y wrap to the same w bytes, at most once round. */
  predicate SameInBytes(x: int, y: int, w: nat) {
    x == y || x == y + Pow256(w) || x == y - Pow256(w)
  }

  /**
   * And which number: an unsigned type takes that of the bytes; a signed one takes it or, with the
   * sign, its negative, as its own bytes hold it.
   */
  lemma NumberOf(s: Bytes, at: nat, w: nat, signed: bool)
    requires 1 <= w <= 8 && at <= |s| && Decoding(s, at, w, signed).Got?
    ensures at < |s| && at + 1 + s[at] % 16 <= |s|
    ensures var n: int, x := FromBytes(s[at + 1..at + 1 + s[at] % 16]), Decoding(s, at, w, signed).value;
      && Fits(x, w, signed) && (!signed ==> x == n)
      && (signed ==> SameInBytes(x, if s[at] >= 128 then -n else n, w))
  {
    hide FromBytes, Pow256;
    OutcomeOf(s, at, w, signed);
    ControlByteOf(s[at], w);
    var size := s[at] % 16;
    var bytes := s[at + 1..at + 1 + size];
    FromBytesBound(bytes);
    Pow256Monotone(size, w);
    SmallMod(FromBytes(bytes), Pow256(w));
    HalfOfPow(w);
    hide Half;
    InItsBytes(FromBytes(bytes), w, s[at] >= 128);
  }

  lemma InItsBytes(n: int, w: nat, negative: bool)
    requires w >= 1 && 0 <= n < Pow256(w) == 2 * Half(w)
    ensures var x := if negative then Negated(ToSigned(n, w), w) else ToSigned(n, w);
      Fits(x, w, true) && SameInBytes(x, if negative then -n else n, w)
  {
    hide Pow256, Half;
  }

  // ---- codes cut short ---------------------------------------------------------------------------

  /**
   * A code cut short is refused, wherever it is cut: for lack of bytes, unless its control byte
   * already is too much for the type. No reader makes a number of it.
   */
  lemma CutShort(x: int, k: nat, before: Bytes, w: nat, signed: bool)
    requires 1 <= w <= 8 && |LittleEndian(Abs(x))| <= 8 && k < |Encoding(x)|
    ensures Decoding(before + Encoding(x)[..k], |before|, w, signed)
      == if k > 0 && (Abs(x) >= Pow256(w) || (!signed && x < 0)) then TooBig else EndOfStream
  {
    var s := before + Encoding(x)[..k];
    OutcomeOf(s, |before|, w, signed);
    LengthOfBytes(Abs(x), w);
    hide LittleEndian, Pow256, Decoding;
    var code := Encoding(x);
    assert k > 0 ==> s[|before|] == code[0];
    hide Encoding, Abs;
  }
}

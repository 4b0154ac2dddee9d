/** Integers of any width as a control byte and as many bytes as the magnitude needs. */
module PackedIntegers {
  import opened Basics

  type Byte = x: int | 0 <= x < 256

  type Bytes = seq<Byte>

  function Pow256(n: nat): (r: nat)
    ensures r >= 1
  {
    if n == 0 then 1 else 256 * Pow256(n - 1)
  }

  /** The least value of a signed type of w bytes is -Half(w), the greatest Half(w) - 1. */
  function Half(w: nat): nat
    requires w >= 1
  {
    128 * Pow256(w - 1)
  }

  predicate Fits(x: int, w: nat, signed: bool)
    requires w >= 1
  {
    if signed then 0 <= x + Half(w) && x < Half(w) else 0 <= x < Pow256(w)
  }

  // ---- the bytes of a number ---------------------------------------------------------------------

  /** Least significant first, no zero byte at the end but for zero itself. */
  function LittleEndian(n: nat): (s: Bytes)
    ensures |s| >= 1 && (|s| > 1 ==> s[|s| - 1] != 0)
  {
    if n < 256 then [n] else [n % 256] + LittleEndian(n / 256)
  }

  function FromBytes(s: Bytes): nat {
    if s == [] then 0 else s[0] + 256 * FromBytes(s[1..])
  }

  lemma {:induction false} FromLittleEndian(n: nat)
    ensures FromBytes(LittleEndian(n)) == n
  {
    if n < 256 {
      assert [n as Byte][1..] == [];
    } else {
      FromLittleEndian(n / 256);
      assert LittleEndian(n)[1..] == LittleEndian(n / 256);
    }
  }

  lemma {:induction false} FromBytesBound(s: Bytes)
    ensures FromBytes(s) < Pow256(|s|)
  {
    if s != [] { FromBytesBound(s[1..]); }
  }

  /** k bytes hold exactly the numbers below 256 to the power of k; LittleEndian takes no more than needed. */
  lemma {:induction false} LengthOfBytes(n: nat, k: nat)
    requires k >= 1
    ensures |LittleEndian(n)| <= k <==> n < Pow256(k)
    decreases k
  {
    if n >= 256 {
      if k == 1 {
        assert Pow256(1) == 256 * Pow256(0) == 256;
      } else {
        LengthOfBytes(n / 256, k - 1);
        assert n < 256 * Pow256(k - 1) <==> n / 256 < Pow256(k - 1);
      }
    } else {
      assert Pow256(k) >= 256;
    }
  }

  // ---- the code ----------------------------------------------------------------------------------

  function Abs(x: int): nat { if x < 0 then -x else x }

  /** The code of x: how many bytes its magnitude has, with bit 7 for a sign, and those bytes. */
  function Encoding(x: int): (code: Bytes)
    requires |LittleEndian(Abs(x))| <= 8
    ensures |code| == 1 + |LittleEndian(Abs(x))|
  {
    [|LittleEndian(Abs(x))| + if x < 0 then 128 else 0] + LittleEndian(Abs(x))
  }

  /** What reading an integer gives; Undefined where the code would look outside its buffer. */
  datatype Read = Got(value: int, next: nat) | TooBig | EndOfStream | Undefined

  /** n as the signed number with the same w bytes. */
  function ToSigned(n: nat, w: nat): int
    requires w >= 1
  {
    if n < Half(w) then n else n - Pow256(w)
  }

  /** Minus x, in w bytes: the least value is its own negative. */
  function Negated(x: int, w: nat): int
    requires w >= 1
  {
    if x + Half(w) == 0 then x else -x
  }

  function Decoding(s: Bytes, at: nat, w: nat, signed: bool): Read
    requires w >= 1 && at <= |s|
  {
    if at == |s| then EndOfStream else
    var size := SizeOf(s[at], signed);
    if size > w then TooBig
    else if |s| - at - 1 < size then EndOfStream
    else if size == 0 then Undefined
    else Got(ValueOf(s[at], FromBytes(s[at + 1..at + 1 + size]), w, signed), at + 1 + size)
  }

  /** The length in a control byte; an unsigned reader takes the sign bit for part of it. */
  function SizeOf(control: Byte, signed: bool): nat {
    if signed then control % 16 else control % 16 + control / 128 * 128
  }

  /** The number of n and the sign in a control byte, as w bytes hold it. */
  function ValueOf(control: Byte, n: nat, w: nat, signed: bool): int
    requires w >= 1
  {
    if !signed then n
    else if control >= 128 then Negated(ToSigned(n % Pow256(w), w), w)
    else ToSigned(n % Pow256(w), w)
  }

  lemma ControlByte(size: nat, negative: bool)
    requires 1 <= size <= 8
    ensures var control := size + if negative then 128 else 0;
      && SizeOf(control, true) == size && (control >= 128 <==> negative)
      && SizeOf(control, false) == control
  {}

  lemma {:induction false} Pow256Monotone(m: nat, n: nat)
    requires m <= n
    ensures Pow256(m) <= Pow256(n)
  {
    if m < n { Pow256Monotone(m, n - 1); }
  }

  lemma HalfOfPow(w: nat)
    requires w >= 1
    ensures 2 * Half(w) == Pow256(w)
  {}

  lemma FitsInBytes(x: int, w: nat, signed: bool)
    requires 1 <= w <= 8 && Fits(x, w, signed)
    ensures Abs(x) < Pow256(w) && |LittleEndian(Abs(x))| <= w
  {
    HalfOfPow(w);
    LengthOfBytes(Abs(x), w);
  }

  /** What was written is read back, by a reader of any width that holds the value, and no byte more is taken. */
  lemma ReadsBack(x: int, before: Bytes, after: Bytes, w: nat, signed: bool)
    requires 1 <= w <= 8 && Fits(x, w, signed) && |LittleEndian(Abs(x))| <= 8
    ensures Decoding(before + Encoding(x) + after, |before|, w, signed) == Got(x, |before| + |Encoding(x)|)
  {
    FitsInBytes(x, w, signed);
    FromLittleEndian(Abs(x));
    var bytes := LittleEndian(Abs(x));
    var control := |bytes| + if x < 0 then 128 else 0;
    ControlByte(|bytes|, x < 0);
    ValueFits(x, control, w, signed);
    assert SizeOf(control, signed) == |bytes|;
    var s := before + Encoding(x) + after;
    hide LittleEndian, FromBytes, Pow256, Half, SizeOf, ValueOf, Fits, Abs;
    assert s[|before| + 1..|before| + 1 + |bytes|] == bytes;
    assert s[|before|] == control;
  }

  lemma ValueFits(x: int, control: Byte, w: nat, signed: bool)
    requires 1 <= w <= 8 && Fits(x, w, signed) && (control >= 128 <==> x < 0)
    ensures ValueOf(control, Abs(x), w, signed) == x
  {
    HalfOfPow(w);
    FitsInBytes(x, w, signed);
    SmallMod(Abs(x), Pow256(w));
  }

  lemma SmallMod(n: nat, m: nat)
    requires n < m
    ensures n % m == n
  {}

  /** An unsigned reader rejects every negative number. */
  lemma UnsignedRejectsNegatives(x: int, before: Bytes, after: Bytes, w: nat)
    requires 1 <= w <= 8 && x < 0 && |LittleEndian(Abs(x))| <= 8
    ensures Decoding(before + Encoding(x) + after, |before|, w, false) == TooBig
  {
    var s := before + Encoding(x) + after;
    ControlByte(|LittleEndian(Abs(x))|, true);
    hide LittleEndian, FromBytes, Pow256, SizeOf;
    assert s[|before|] == |LittleEndian(Abs(x))| + 128;
  }

  /** A reader too narrow for the bytes says so. */
  lemma NarrowReaderRejects(x: int, before: Bytes, after: Bytes, w: nat, signed: bool)
    requires 1 <= w <= 8 && |LittleEndian(Abs(x))| <= 8 && Abs(x) >= Pow256(w)
    ensures Decoding(before + Encoding(x) + after, |before|, w, signed) == TooBig
  {
    LengthOfBytes(Abs(x), w);
    var s := before + Encoding(x) + after;
    ControlByte(|LittleEndian(Abs(x))|, x < 0);
    hide LittleEndian, FromBytes, Pow256, SizeOf;
    assert s[|before|] == |LittleEndian(Abs(x))| + if x < 0 then 128 else 0;
  }

  /** No code is the beginning of another: codes can follow each other without separators. */
  lemma PrefixFree(x: int, y: int, rest: Bytes)
    requires |LittleEndian(Abs(x))| <= 8 && |LittleEndian(Abs(y))| <= 8
    requires Encoding(x) + rest == Encoding(y)
    ensures x == y && rest == []
  {
    var bx, bs := LittleEndian(Abs(x)), LittleEndian(Abs(y));
    FromLittleEndian(Abs(x));
    FromLittleEndian(Abs(y));
    hide LittleEndian, FromBytes;
    assert (Encoding(x) + rest)[0] == Encoding(y)[0];
    assert |Encoding(x) + rest| == 1 + |bx| + |rest|;
    assert (Encoding(x) + rest)[1..1 + |bx|] == bx && Encoding(y)[1..1 + |bs|] == bs;
  }

  /** Whatever is read as x took at least as many bytes as the code of x has. */
  lemma MinimalLength(s: Bytes, at: nat, w: nat, signed: bool)
    requires 1 <= w <= 8 && at <= |s| && Decoding(s, at, w, signed).Got?
    ensures var r := Decoding(s, at, w, signed);
      |LittleEndian(Abs(r.value))| <= 8 && r.next - at >= |Encoding(r.value)|
  {
    hide LittleEndian, FromBytes, Pow256;
    var size := SizeOf(s[at], signed);
    var bytes := s[at + 1..at + 1 + size];
    var n, x := FromBytes(bytes), Decoding(s, at, w, signed).value;
    FromBytesBound(bytes);
    Pow256Monotone(size, w);
    if size < w {
      Pow256Monotone(size, w - 1);
      assert Pow256(size) <= Half(w);
    }
    SmallMod(n, Pow256(w));
    AbsBound(n, w, size);
    assert Abs(x) < Pow256(size);
    hide Half, ValueOf, SizeOf;
    LengthOfBytes(Abs(x), size);
  }

  /** The magnitude of what w bytes stand for is no longer than the bytes. */
  lemma AbsBound(n: nat, w: nat, size: nat)
    requires w >= 1 && 1 <= size <= w && n < Pow256(size) && (size < w ==> Pow256(size) <= Half(w))
    ensures Abs(ToSigned(n, w)) < Pow256(size) && Abs(Negated(ToSigned(n, w), w)) < Pow256(size)
  {
    HalfOfPow(w);
  }

  // ---- pack_int and unpack_int -------------------------------------------------------------------

  /** The loop of pack_int: the bytes of item, which is not negative, or the least value of the type. */
  ghost predicate PackedSoFar(item: int, left: int, buf: Bytes, w: nat) {
    && item == left * Pow256(|buf|) + FromBytes(buf) && |buf| <= w
  }

  lemma {:induction false} FromBytesSnoc(s: Bytes, b: Byte)
    ensures FromBytes(s + [b]) == FromBytes(s) + Pow256(|s|) * b
  {
    if s == [] {
      assert s + [b] == [b];
      assert FromBytes([b][1..]) == 0;
    } else {
      FromBytesSnoc(s[1..], b);
      assert (s + [b])[1..] == s[1..] + [b];
      MulAssoc(256, Pow256(|s| - 1), b);
    }
  }

  lemma PackStep(item: int, left: int, buf: Bytes, w: nat)
    requires PackedSoFar(item, left, buf, w) && |buf| < w
    ensures PackedSoFar(item, left / 256, buf + [left % 256], w)
  {
    FromBytesSnoc(buf, left % 256);
    assert left == 256 * (left / 256) + left % 256;
    SplitByte(left / 256, left % 256, Pow256(|buf|));
  }

  lemma SplitByte(q: int, r: int, p: int)
    ensures (256 * q + r) * p == q * (256 * p) + p * r
  {}

  /** Bytes without a zero at the end are the bytes of their number. */
  lemma {:induction false} LittleEndianUnique(s: Bytes)
    requires |s| >= 1 && (|s| > 1 ==> s[|s| - 1] != 0)
    ensures LittleEndian(FromBytes(s)) == s
  {
    if |s| == 1 {
      assert s[1..] == [];
    } else {
      LittleEndianUnique(s[1..]);
      FromBytesPositive(s[1..]);
      var n := FromBytes(s);
      assert n / 256 == FromBytes(s[1..]) && n % 256 == s[0];
      assert s == [s[0]] + s[1..];
    }
  }

  lemma {:induction false} FromBytesPositive(s: Bytes)
    requires |s| >= 1 && s[|s| - 1] != 0
    ensures FromBytes(s) > 0
  {
    if |s| > 1 { FromBytesPositive(s[1..]); }
  }

  /** pack_int, for a type of w bytes. */
  method PackInt(x: int, w: nat, signed: bool) returns (code: Bytes)
    requires 1 <= w <= 8 && Fits(x, w, signed)
    ensures |LittleEndian(Abs(x))| <= 8 && code == Encoding(x)
  {
    hide LittleEndian, FromBytes, Pow256, Half, PackedSoFar;
    FitsInBytes(x, w, signed);
    HalfOfPow(w);
    var item := x;
    var neg := 0;
    if signed && item < 0 {
      neg := 128;
      item := Negated(item, w);
    }
    ghost var start := item;
    var buf: Bytes := [];
    var size := w;
    var i := 1;
    PackStart(start, w);
    while i <= w
      invariant 1 <= i <= w + 1 && size == w && |buf| == i - 1
      invariant PackedSoFar(start, item, buf, w) && (i > 1 ==> item != 0)
      decreases w - i
    {
      PackStep(start, item, buf, w);
      ghost var before := item;
      buf := buf + [item % 256];
      item := item / 256;
      if item == 0 {
        size := i;
        LastByte(before);
        break;
      }
      i := i + 1;
    }
    PackEnd(start, item, buf, w, size, x, signed);
    code := [size + neg] + buf;
  }

  lemma PackStart(item: int, w: nat)
    ensures PackedSoFar(item, item, [], w)
  {}

  lemma LastByte(before: int)
    ensures before / 256 == 0 && before != 0 ==> before % 256 != 0
  {}

  /** The loop ends with the bytes of the magnitude, also for the least value, which stays negative. */
  lemma PackEnd(start: int, item: int, buf: Bytes, w: nat, size: nat, x: int, signed: bool)
    requires 1 <= w <= 8 && Fits(x, w, signed) && PackedSoFar(start, item, buf, w)
    requires start == if x < 0 then Negated(x, w) else x
    requires |buf| == size >= 1
    requires (item == 0 && (size == 1 || buf[size - 1] != 0)) || (item != 0 && size == w)
    ensures buf == LittleEndian(Abs(x))
  {
    FromBytesBound(buf);
    HalfOfPow(w);
    Multiples(item, Pow256(|buf|));
    hide FromBytes, Pow256, Half, LittleEndian;
    TimesNothing(Pow256(|buf|));
    if item == 0 {
      LittleEndianUnique(buf);
    } else {
      Overflowed(item, Pow256(w), FromBytes(buf), start);
      TopByte(buf);
      LittleEndianUnique(buf);
    }
  }

  /** left * p + low = start with low below p pins left down. */
  lemma Overflowed(left: int, p: nat, low: nat, start: int)
    requires start == left * p + low && low < p && 0 <= start + p && start < p
    ensures start >= 0 ==> left == 0
    ensures start < 0 ==> left == -1
  {
    Multiples(left, p);
  }

  lemma Multiples(left: int, p: nat)
    ensures left >= 1 ==> left * p >= p
    ensures left <= -2 ==> left * p + 2 * p <= 0
    ensures left == -1 ==> left * p + p == 0
  {
    if left >= 1 {
      assert (left - 1) * p >= 0;
    } else if left <= -2 {
      assert (-2 - left) * p >= 0;
    }
  }

  lemma TimesNothing(p: int)
    ensures p * 0 == 0
  {}

  lemma TopByte(buf: Bytes)
    requires |buf| >= 1 && FromBytes(buf) >= Half(|buf|)
    ensures buf[|buf| - 1] != 0
  {
    var init, b := buf[..|buf| - 1], buf[|buf| - 1];
    assert buf == init + [b];
    FromBytesSnoc(init, b);
    FromBytesBound(init);
    TimesNothing(Pow256(|init|));
  }

  /** unpack_int, for a type of w bytes. */
  method UnpackInt(s: Bytes, at: nat, w: nat, signed: bool) returns (r: Read)
    requires 1 <= w <= 8 && at <= |s|
    ensures r == Decoding(s, at, w, signed)
  {
    hide FromBytes, Pow256, Half, SizeOf;
    if at == |s| {
      return EndOfStream;
    }
    var size: nat := s[at];
    var isNegative := size >= 128;
    size := SizeOf(s[at], signed);
    if size > w {
      return TooBig;
    }
    if |s| - at - 1 < size {
      return EndOfStream;
    }
    if size == 0 {
      return Undefined; // the loop below would begin at buf[255]
    }
    var buf := s[at + 1..at + 1 + size];
    var item: nat := 0;
    var i := size;
    assert buf[size..] == [];
    NoBytes();
    while i > 0
      invariant 0 <= i <= size && item == FromBytes(buf[i..])
    {
      i := i - 1;
      assert buf[i..][0] == buf[i] && buf[i..][1..] == buf[i + 1..];
      FromBytesCons(buf[i..]);
      item := item * 256;
      item := item + buf[i];
    }
    assert buf[0..] == buf;
    var value := item;
    if signed {
      var asSigned := ToSigned(item % Pow256(w), w);
      if isNegative {
        asSigned := Negated(asSigned, w);
      }
      return Got(asSigned, at + 1 + size);
    }
    return Got(value, at + 1 + size);
  }

  lemma NoBytes()
    ensures FromBytes([]) == 0
  {}

  lemma FromBytesCons(s: Bytes)
    requires s != []
    ensures FromBytes(s) == s[0] + 256 * FromBytes(s[1..])
  {}
}

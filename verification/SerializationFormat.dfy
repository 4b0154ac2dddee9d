/** What a reader makes of any bytes: cut short, followed by others, or not written by anybody. */
module SerializationFormat {
  import opened PackedIntegers
  import opened PackedFormat
  import opened Serialization

  // ---- more bytes change nothing that was decided ------------------------------------------------

  lemma DecodingOn(s: Bytes, more: Bytes, at: nat, w: nat, signed: bool)
    requires 1 <= w <= 8 && at <= |s|
    ensures var r := Decoding(s, at, w, signed);
      (r.Got? || r.Undefined?) ==> Decoding(s + more, at, w, signed) == r
  {
    hide SizeOf, ValueOf, FromBytes, Pow256;
    if at < |s| {
      var size := SizeOf(s[at], signed);
      if at + 1 + size <= |s| { assert (s + more)[at + 1..at + 1 + size] == s[at + 1..at + 1 + size]; }
    }
  }

  lemma CountOn(s: Bytes, more: Bytes, at: nat)
    requires at <= |s|
    ensures ReadCount(s, at) != NoNumber(Exception) ==> ReadCount(s + more, at) == ReadCount(s, at)
  {
    hide Decoding;
    DecodingOn(s, more, at, 8, false);
  }

  /** What was read, and every reason for stopping but an exception, stays when more bytes follow. */
  lemma {:induction false} ReadOn(t: Type, s: Bytes, more: Bytes, at: nat)
    requires at <= |s|
    ensures ReadValue(t, s, at) != Failed(Exception) ==> ReadValue(t, s + more, at) == ReadValue(t, s, at)
    decreases t, 1, 0
  {
    hide Decoding, ReadMany, ReadSet, ReadMap;
    CountOn(s, more, at);
    match t
    case IntType(w, signed) => if WidthOk(w) { DecodingOn(s, more, at, w, signed); }
    case StringType => StringOn(s, more, at);
    case FloatType => FloatOn(s, more, at);
    case PairType(a, b) =>
      hide ReadCount;
      ReadOn(a, s, more, at);
      if ReadValue(a, s, at).Have? { ReadOn(b, s, more, ReadValue(a, s, at).next); }
    case VectorType(a) =>
      hide ReadCount;
      if ReadCount(s, at).Number? { ManyOn(a, s, more, ReadCount(s, at).next, ReadCount(s, at).n, []); }
    case SetType(a) =>
      hide ReadCount;
      if ReadCount(s, at).Number? { SetOn(a, s, more, ReadCount(s, at).next, ReadCount(s, at).n, []); }
    case MapType(a, b) =>
      hide ReadCount;
      if ReadCount(s, at).Number? { MapOn(t, s, more, ReadCount(s, at).next, ReadCount(s, at).n, []); }
  }

  lemma StringOn(s: Bytes, more: Bytes, at: nat)
    requires at <= |s|
    ensures ReadValue(StringType, s, at) != Failed(Exception) ==> ReadValue(StringType, s + more, at) == ReadValue(StringType, s, at)
  {
    CountOn(s, more, at);
    hide ReadCount;
    if ReadCount(s, at).Number? {
      var n, next := ReadCount(s, at).n, ReadCount(s, at).next;
      if n <= |s| - next { assert (s + more)[next..next + n] == s[next..next + n]; }
    }
  }

  lemma FloatOn(s: Bytes, more: Bytes, at: nat)
    requires at <= |s|
    ensures ReadValue(FloatType, s, at) != Failed(Exception) ==> ReadValue(FloatType, s + more, at) == ReadValue(FloatType, s, at)
  {
    DecodingOn(s, more, at, 8, true);
    if at < |s| && Decoding(s, at, 8, true).Got? { DecodingOn(s, more, Decoding(s, at, 8, true).next, 2, true); }
    hide SizeOf, ValueOf, FromBytes;
  }

  lemma {:induction false} ManyOn(t: Type, s: Bytes, more: Bytes, at: nat, count: nat, front: seq<Value>)
    requires at <= |s|
    ensures ReadMany(t, s, at, count, front) != FailedAll(Exception) ==>
      ReadMany(t, s + more, at, count, front) == ReadMany(t, s, at, count, front)
    decreases t, 2, count
  {
    hide ReadValue;
    if count > 0 {
      ReadOn(t, s, more, at);
      var r := ReadValue(t, s, at);
      if r.Have? { ManyOn(t, s, more, r.next, count - 1, front + [r.value]); }
    }
  }

  lemma {:induction false} SetOn(t: Type, s: Bytes, more: Bytes, at: nat, count: nat, front: seq<Value>)
    requires at <= |s|
    ensures ReadSet(t, s, at, count, front) != FailedAll(Exception) ==>
      ReadSet(t, s + more, at, count, front) == ReadSet(t, s, at, count, front)
    decreases t, 2, count
  {
    hide ReadValue;
    if count > 0 {
      ReadOn(t, s, more, at);
      var r := ReadValue(t, s, at);
      if r.Have? { SetOn(t, s, more, r.next, count - 1, if r.value in front then front else front + [r.value]); }
    }
  }

  lemma {:induction false} MapOn(t: Type, s: Bytes, more: Bytes, at: nat, count: nat, front: seq<Value>)
    requires at <= |s| && t.MapType?
    ensures ReadMap(t, s, at, count, front) != FailedAll(Exception) ==>
      ReadMap(t, s + more, at, count, front) == ReadMap(t, s, at, count, front)
    decreases t, 0, count
  {
    hide ReadValue, Put;
    if count > 0 {
      ReadOn(t.domain, s, more, at);
      var d := ReadValue(t.domain, s, at);
      if d.Have? {
        ReadOn(t.range, s, more, d.next);
        var r := ReadValue(t.range, s, d.next);
        if r.Have? { MapOn(t, s, more, r.next, count - 1, Put(front, d.value, r.value)); }
      }
    }
  }

  /** What was written and then cut short, wherever, is refused with an exception, whatever its type. */
  lemma ValueCutShort(t: Type, v: Value, k: nat, before: Bytes)
    requires Has(t, v) && k < |Written(v)|
    ensures ReadValue(t, before + Written(v)[..k], |before|) == Failed(Exception)
  {
    hide Has, Written, ReadValue;
    var s, more := before + Written(v)[..k], Written(v)[k..];
    assert s + more == before + Written(v) + [];
    ReadOn(t, s, more, |before|);
    ValueReadBack(t, v, before, []);
  }

  /** So no value is written as the beginning of another of its type. */
  lemma NoPrefix(t: Type, v: Value, u: Value, rest: Bytes)
    requires Has(t, v) && Has(t, u) && Written(v) + rest == Written(u)
    ensures v == u && rest == []
  {
    hide Has, Written, ReadValue;
    ValueReadBack(t, v, [], rest);
    ValueReadBack(t, u, [], []);
    assert [] + Written(v) + rest == [] + Written(u) + [];
  }

  // ---- what is read is of the type ---------------------------------------------------------------

  lemma NumberHas(s: Bytes, at: nat, w: nat, signed: bool)
    requires 1 <= w <= 8 && at <= |s| && Decoding(s, at, w, signed).Got?
    ensures Fits(Decoding(s, at, w, signed).value, w, signed) && at + 2 <= Decoding(s, at, w, signed).next <= |s|
  {
    OutcomeOf(s, at, w, signed);
    NumberOf(s, at, w, signed);
    hide Decoding, Fits;
  }

  lemma CountHas(s: Bytes, at: nat)
    requires at <= |s| && ReadCount(s, at).Number?
    ensures Countable(ReadCount(s, at).n) && at + 2 <= ReadCount(s, at).next
  {
    NumberHas(s, at, 8, false);
    hide Decoding, Pow256;
  }

  /** Whatever bytes they are: what is read from them is a value of the type, and takes at least two bytes. */
  lemma {:induction false} ReadHas(t: Type, s: Bytes, at: nat)
    requires at <= |s| && ReadValue(t, s, at).Have?
    ensures Has(t, ReadValue(t, s, at).value) && at + 2 <= ReadValue(t, s, at).next
    decreases t, 1, 0
  {
    hide Decoding, Fits, Countable, ReadMany, ReadSet, ReadMap, AllHave, DistinctItems, DistinctKeys;
    match t
    case IntType(w, signed) => NumberHas(s, at, w, signed);
    case StringType => hide ReadCount; CountHas(s, at);
    case FloatType => NumberHas(s, at, 8, true); NumberHas(s, Decoding(s, at, 8, true).next, 2, true);
    case PairType(a, b) => ReadHas(a, s, at); ReadHas(b, s, ReadValue(a, s, at).next);
    case VectorType(a) => hide ReadCount; CountHas(s, at); NoItems(a); ManyHas(a, s, ReadCount(s, at).next, ReadCount(s, at).n, []);
      Fewer(ReadCount(s, at).n, |ReadValue(t, s, at).value.items|);
    case SetType(a) => hide ReadCount; CountHas(s, at); NoItems(a); SetHas(a, s, ReadCount(s, at).next, ReadCount(s, at).n, []);
      Fewer(ReadCount(s, at).n, |ReadValue(t, s, at).value.items|);
    case MapType(a, b) => hide ReadCount; CountHas(s, at); NoItems(a); MapHas(t, s, ReadCount(s, at).next, ReadCount(s, at).n, []);
      Fewer(ReadCount(s, at).n, |ReadValue(t, s, at).value.entries|);
  }

  lemma Fewer(n: nat, k: nat)
    requires Countable(n) && k <= n
    ensures Countable(k)
  {}

  lemma NoItems(a: Type)
    ensures AllHave(a, []) && DistinctItems([]) && DistinctKeys([])
  {}

  lemma {:induction false} ManyHas(t: Type, s: Bytes, at: nat, count: nat, front: seq<Value>)
    requires at <= |s| && AllHave(t, front) && ReadMany(t, s, at, count, front).HaveAll?
    ensures var r := ReadMany(t, s, at, count, front);
      AllHave(t, r.items) && |r.items| == |front| + count && at <= r.next
    decreases t, 2, count
  {
    hide ReadValue, Has;
    if count > 0 {
      ReadHas(t, s, at);
      var r := ReadValue(t, s, at);
      ManyHas(t, s, r.next, count - 1, front + [r.value]);
    }
  }

  lemma {:induction false} SetHas(t: Type, s: Bytes, at: nat, count: nat, front: seq<Value>)
    requires at <= |s| && AllHave(t, front) && DistinctItems(front) && ReadSet(t, s, at, count, front).HaveAll?
    ensures var r := ReadSet(t, s, at, count, front);
      AllHave(t, r.items) && DistinctItems(r.items) && |r.items| <= |front| + count && at <= r.next
    decreases t, 2, count
  {
    hide ReadValue, Has;
    if count > 0 {
      ReadHas(t, s, at);
      var r := ReadValue(t, s, at);
      SetHas(t, s, r.next, count - 1, if r.value in front then front else front + [r.value]);
    }
  }

  /** The entries of a map under construction. */
  predicate EntriesHave(t: Type, entries: seq<Value>)
    requires t.MapType?
  {
    && (forall i :: 0 <= i < |entries| ==>
         entries[i].PairValue? && Has(t.domain, entries[i].first) && Has(t.range, entries[i].second))
    && DistinctKeys(entries)
  }

  lemma {:induction false} MapHas(t: Type, s: Bytes, at: nat, count: nat, front: seq<Value>)
    requires at <= |s| && t.MapType? && EntriesHave(t, front) && ReadMap(t, s, at, count, front).HaveAll?
    ensures var r := ReadMap(t, s, at, count, front);
      EntriesHave(t, r.items) && |r.items| <= |front| + count && at <= r.next
    decreases t, 0, count
  {
    hide ReadValue, Has, Put, EntriesHave;
    if count > 0 {
      ReadHas(t.domain, s, at);
      var d := ReadValue(t.domain, s, at);
      ReadHas(t.range, s, d.next);
      var r := ReadValue(t.range, s, d.next);
      PutHas(t, front, d.value, r.value);
      MapHas(t, s, r.next, count - 1, Put(front, d.value, r.value));
    }
  }

  lemma {:induction false} PutHas(t: Type, entries: seq<Value>, d: Value, r: Value)
    requires t.MapType? && EntriesHave(t, entries) && Has(t.domain, d) && Has(t.range, r)
    ensures EntriesHave(t, Put(entries, d, r)) && |Put(entries, d, r)| <= |entries| + 1
  {
    hide Has;
    PutIs(entries, d, r);
    hide Put;
  }

  /** The values of a type are those that can be read as one. */
  lemma HasExactly(t: Type, v: Value)
    ensures Has(t, v) <==> exists s: Bytes, next: nat :: ReadValue(t, s, 0) == Have(v, next)
  {
    hide Has, Written, ReadValue;
    if Has(t, v) {
      ValueReadBack(t, v, [], []);
      assert ReadValue(t, [] + Written(v) + [], 0) == Have(v, |Written(v)|);
    }
    if s: Bytes, next: nat :| ReadValue(t, s, 0) == Have(v, next) { ReadHas(t, s, 0); }
  }

  /** Integers: one to eight bytes, in the ranges of their types; sizes are below 2^64. */
  lemma IntegersAre(w: nat, signed: bool, x: int)
    ensures Has(IntType(w, signed), IntValue(x)) <==> 1 <= w <= 8 && Fits(x, w, signed)
    ensures x >= 0 ==> (Countable(x) <==> x < 0x1_0000_0000_0000_0000)
  {
    Powers();
    hide Pow256;
  }

  /** An integer is read, or is an exception, or begins with a control byte whose length is zero. */
  lemma IntegerOutcome(w: nat, signed: bool, s: Bytes, at: nat)
    requires 1 <= w <= 8 && at <= |s|
    ensures var r := ReadValue(IntType(w, signed), s, at);
      && (r == Failed(Stop.Undefined) <==> at < |s| && s[at] % 16 == 0 && (signed || s[at] < 128))
      && (r.Have? <==> at < |s| && 0 < s[at] % 16 <= w && (signed || s[at] < 128) && at + 1 + s[at] % 16 <= |s|)
      && (r.Have? || r == Failed(Stop.Undefined) || r == Failed(Exception))
  {
    OutcomeOf(s, at, w, signed);
    hide Decoding;
  }

  // ---- maps and sets -----------------------------------------------------------------------------

  /** Put replaces the entry of a key that is there, at its place, and adds one for a key that is not. */
  lemma {:induction false} PutIs(entries: seq<Value>, d: Value, r: Value)
    requires AllPairs(entries) && DistinctKeys(entries)
    ensures (exists i :: 0 <= i < |entries| && entries[i].first == d && Put(entries, d, r) == entries[i := PairValue(d, r)])
      || ((forall i :: 0 <= i < |entries| ==> entries[i].first != d) && Put(entries, d, r) == entries + [PairValue(d, r)])
  {
    if i :| 0 <= i < |entries| && entries[i].first == d {
      PutOld(entries, i, d, r);
    } else {
      PutNew(entries, d, r);
    }
  }

  lemma {:induction false} PutOld(entries: seq<Value>, i: nat, d: Value, r: Value)
    requires AllPairs(entries) && DistinctKeys(entries) && i < |entries| && entries[i].first == d
    ensures Put(entries, d, r) == entries[i := PairValue(d, r)]
    decreases i
  {
    if i > 0 {
      PutOld(entries[1..], i - 1, d, r);
      assert entries == [entries[0]] + entries[1..];
    }
  }

  /** What the last entry for d says, if there is one. */
  datatype Looked = Nothing | Found(value: Value)

  function LastFor(entries: seq<Value>, d: Value): Looked {
    if entries == [] then Nothing
    else
      var e := entries[|entries| - 1];
      if e.PairValue? && e.first == d then Found(e.second) else LastFor(entries[..|entries| - 1], d)
  }

  lemma LastForSnoc(entries: seq<Value>, d: Value, r: Value, x: Value)
    ensures LastFor(entries + [PairValue(d, r)], x) == if x == d then Found(r) else LastFor(entries, x)
  {
    assert (entries + [PairValue(d, r)])[..|entries|] == entries;
  }

  lemma {:induction false} LastForAbsent(entries: seq<Value>, x: Value)
    requires AllPairs(entries) && forall i :: 0 <= i < |entries| ==> entries[i].first != x
    ensures LastFor(entries, x) == Nothing
  {
    if entries != [] { LastForAbsent(entries[..|entries| - 1], x); }
  }

  lemma {:induction false} LastForReplaced(entries: seq<Value>, i: nat, d: Value, r: Value, x: Value)
    requires AllPairs(entries) && DistinctKeys(entries) && i < |entries| && entries[i].first == d
    ensures LastFor(entries[i := PairValue(d, r)], x) == if x == d then Found(r) else LastFor(entries, x)
    decreases |entries|
  {
    var init, after := entries[..|entries| - 1], entries[i := PairValue(d, r)];
    if i == |entries| - 1 {
      assert after[..|entries| - 1] == init;
    } else {
      assert after[..|entries| - 1] == init[i := PairValue(d, r)];
      LastForReplaced(init, i, d, r, x);
    }
  }

  lemma PutLooked(entries: seq<Value>, d: Value, r: Value, x: Value)
    requires AllPairs(entries) && DistinctKeys(entries)
    ensures LastFor(Put(entries, d, r), x) == if x == d then Found(r) else LastFor(entries, x)
  {
    PutIs(entries, d, r);
    hide LastFor, Put;
    if i :| 0 <= i < |entries| && entries[i].first == d && Put(entries, d, r) == entries[i := PairValue(d, r)] {
      LastForReplaced(entries, i, d, r, x);
    } else {
      LastForSnoc(entries, d, r, x);
    }
  }

  lemma PutDistinct(entries: seq<Value>, d: Value, r: Value)
    requires AllPairs(entries) && DistinctKeys(entries)
    ensures AllPairs(Put(entries, d, r)) && DistinctKeys(Put(entries, d, r))
  {
    PutIs(entries, d, r);
    hide Put;
  }

  /**
   * A map is read like the vector of its pairs: both stop at the same place or for the same reason,
   * and a key is mapped to what its last pair says.
   */
  lemma MapIs(t: Type, s: Bytes, at: nat, count: nat)
    requires at <= |s| && t.MapType?
    ensures match (ReadMap(t, s, at, count, []), ReadMany(PairType(t.domain, t.range), s, at, count, [])) {
      case (HaveAll(entries, end), HaveAll(pairs, next)) => end == next && forall d :: LastFor(entries, d) == LastFor(pairs, d)
      case (FailedAll(why), FailedAll(reason)) => why == reason
      case _ => false
    }
  {
    MapIsFrom(t, s, at, count, [], []);
  }

  lemma {:induction false} MapIsFrom(t: Type, s: Bytes, at: nat, count: nat, front: seq<Value>, pairs: seq<Value>)
    requires at <= |s| && t.MapType? && AllPairs(front) && DistinctKeys(front)
    requires forall d :: LastFor(front, d) == LastFor(pairs, d)
    ensures match (ReadMap(t, s, at, count, front), ReadMany(PairType(t.domain, t.range), s, at, count, pairs)) {
      case (HaveAll(entries, end), HaveAll(all, next)) => end == next && forall d :: LastFor(entries, d) == LastFor(all, d)
      case (FailedAll(why), FailedAll(reason)) => why == reason
      case _ => false
    }
    decreases count
  {
    hide Put, LastFor, DistinctKeys, AllPairs;
    if count > 0 {
      var p := ReadValue(PairType(t.domain, t.range), s, at);
      hide ReadValue;
      if p.Have? {
        var d, r := p.value.first, p.value.second;
        forall x ensures LastFor(Put(front, d, r), x) == LastFor(pairs + [PairValue(d, r)], x) {
          PutLooked(front, d, r, x);
          LastForSnoc(pairs, d, r, x);
        }
        PutDistinct(front, d, r);
        MapIsFrom(t, s, p.next, count - 1, Put(front, d, r), pairs + [p.value]);
      }
    }
  }

  /** A set is read like the vector of its elements, and has each of them once. */
  lemma SetIs(t: Type, s: Bytes, at: nat, count: nat)
    requires at <= |s|
    ensures match (ReadSet(t, s, at, count, []), ReadMany(t, s, at, count, [])) {
      case (HaveAll(items, end), HaveAll(all, next)) => end == next && DistinctItems(items) && forall v :: v in items <==> v in all
      case (FailedAll(why), FailedAll(reason)) => why == reason
      case _ => false
    }
  {
    SetIsFrom(t, s, at, count, [], []);
  }

  lemma {:induction false} SetIsFrom(t: Type, s: Bytes, at: nat, count: nat, front: seq<Value>, all: seq<Value>)
    requires at <= |s| && DistinctItems(front) && forall v :: v in front <==> v in all
    ensures match (ReadSet(t, s, at, count, front), ReadMany(t, s, at, count, all)) {
      case (HaveAll(items, end), HaveAll(every, next)) => end == next && DistinctItems(items) && forall v :: v in items <==> v in every
      case (FailedAll(why), FailedAll(reason)) => why == reason
      case _ => false
    }
    decreases count
  {
    hide ReadValue;
    if count > 0 {
      var r := ReadValue(t, s, at);
      if r.Have? {
        SetIsFrom(t, s, r.next, count - 1, if r.value in front then front else front + [r.value], all + [r.value]);
      }
    }
  }

  // ---- the layout --------------------------------------------------------------------------------

  lemma SmallCodes()
    ensures IntCode(1) == [1, 1] && IntCode(2) == [1, 2] && IntCode(3) == [1, 3] && IntCode(5) == [1, 5] && IntCode(7) == [1, 7]
    ensures IntCode(-2) == [129, 2] && IntCode(-3) == [129, 3] && IntCode(256) == [2, 0, 1] && IntCode(258) == [2, 2, 1]
  {
    assert LittleEndian(256) == [0] + LittleEndian(1) && LittleEndian(258) == [2] + LittleEndian(1);
  }

  lemma WrittenOne(v: Value)
    ensures WrittenAll([v]) == Written(v)
  {
    hide Written;
    assert [v][1..] == [];
  }

  lemma WrittenTwo(v: Value, u: Value)
    ensures WrittenAll([v, u]) == Written(v) + Written(u)
  {
    hide Written;
    WrittenOne(u);
    assert [v, u][1..] == [u];
  }

  /** Byte by byte: sizes before elements, the first of a pair before the second, mantissa before exponent. */
  lemma Layout()
    ensures Written(StringValue([65, 66, 67])) == [1, 3, 65, 66, 67]
    ensures Written(PairValue(IntValue(1), IntValue(-2))) == [1, 1, 129, 2]
    ensures Written(FloatValue(-3, 258)) == [129, 3, 2, 2, 1]
    ensures Written(VectorValue([IntValue(256), IntValue(7)])) == [1, 2, 2, 0, 1, 1, 7]
    ensures Written(SetValue([IntValue(5)])) == [1, 1, 1, 5]
    ensures Written(MapValue([PairValue(IntValue(1), IntValue(2))])) == [1, 1, 1, 1, 1, 2]
  {
    hide IntCode, WrittenAll;
    SmallCodes();
    WrittenTwo(IntValue(256), IntValue(7));
    WrittenOne(IntValue(5));
    WrittenOne(PairValue(IntValue(1), IntValue(2)));
  }

  /** A float is stored and read like a pair of its mantissa and its exponent, but for the text format of old. */
  lemma FloatIsPair(m: int, e: int, s: Bytes, at: nat)
    requires at <= |s|
    ensures Written(FloatValue(m, e)) == Written(PairValue(IntValue(m), IntValue(e)))
    ensures ReadValue(FloatType, s, at) == Failed(OldText) <==> at < |s| && s[at] / 16 % 8 != 0
    ensures ReadValue(FloatType, s, at) != Failed(OldText) ==>
      match (ReadValue(FloatType, s, at), ReadValue(PairType(IntType(8, true), IntType(2, true)), s, at)) {
        case (Have(x, next), Have(y, end)) => next == end && x == FloatValue(y.first.x, y.second.x)
        case (Failed(why), Failed(reason)) => why == reason
        case _ => false
      }
  {
    hide SizeOf, ValueOf, FromBytes, Pow256, IntCode;
  }
}

/** Containers and floating point numbers, written with the integer code and read back. */
module Serialization {
  import opened PackedIntegers

  /** The types that can be written; a float is a mantissa of 64 bits and an exponent of 16. */
  datatype Type =
    | IntType(w: nat, signed: bool)
    | StringType
    | FloatType
    | PairType(first: Type, second: Type)
    | VectorType(element: Type)
    | SetType(element: Type)
    | MapType(domain: Type, range: Type)

  /** Sets and maps as their elements in the order of the container. */
  datatype Value =
    | IntValue(x: int)
    | StringValue(chars: Bytes)
    | FloatValue(mantissa: int, exponent: int)
    | PairValue(first: Value, second: Value)
    | VectorValue(items: seq<Value>)
    | SetValue(items: seq<Value>)
    | MapValue(entries: seq<Value>)

  /** Sizes are written as an unsigned long of eight bytes. */
  predicate Countable(n: nat) { n < Pow256(8) }

  predicate WidthOk(w: nat) { 1 <= w <= 8 }

  /** v is a value of type t. */
  predicate Has(t: Type, v: Value)
    decreases t, 0
  {
    match (t, v)
    case (IntType(w, signed), IntValue(x)) => WidthOk(w) && Fits(x, w, signed)
    case (StringType, StringValue(chars)) => Countable(|chars|)
    case (FloatType, FloatValue(m, e)) => Fits(m, 8, true) && Fits(e, 2, true)
    case (PairType(a, b), PairValue(x, y)) => Has(a, x) && Has(b, y)
    case (VectorType(a), VectorValue(items)) => Countable(|items|) && AllHave(a, items)
    case (SetType(a), SetValue(items)) => Countable(|items|) && AllHave(a, items) && DistinctItems(items)
    case (MapType(a, b), MapValue(entries)) =>
      Countable(|entries|) && (forall i :: 0 <= i < |entries| ==> entries[i].PairValue? && Has(a, entries[i].first) && Has(b, entries[i].second))
        && DistinctKeys(entries)
    case _ => false
  }

  predicate AllHave(t: Type, items: seq<Value>)
    decreases t, 1
  {
    forall i :: 0 <= i < |items| ==> Has(t, items[i])
  }

  predicate DistinctItems(items: seq<Value>) {
    forall i, j :: 0 <= i < j < |items| ==> items[i] != items[j]
  }

  predicate DistinctKeys(entries: seq<Value>) {
    forall i, j :: 0 <= i < j < |entries| && entries[i].PairValue? && entries[j].PairValue? ==> entries[i].first != entries[j].first
  }

  // ---- writing -----------------------------------------------------------------------------------

  function IntCode(x: int): Bytes {
    if |LittleEndian(PackedIntegers.Abs(x))| <= 8 then Encoding(x) else []
  }

  /** The bytes of v. */
  function Written(v: Value): Bytes
    decreases v, 0
  {
    match v
    case IntValue(x) => IntCode(x)
    case StringValue(chars) => IntCode(|chars|) + chars
    case FloatValue(m, e) => IntCode(m) + IntCode(e)
    case PairValue(x, y) => Written(x) + Written(y)
    case VectorValue(items) => IntCode(|items|) + WrittenAll(items)
    case SetValue(items) => IntCode(|items|) + WrittenAll(items)
    case MapValue(entries) => IntCode(|entries|) + WrittenAll(entries)
  }

  function WrittenAll(items: seq<Value>): Bytes
    decreases items, 1
  {
    if items == [] then [] else Written(items[0]) + WrittenAll(items[1..])
  }

  // ---- reading -----------------------------------------------------------------------------------

  /**
   * Why nothing is read: an exception; a control byte with length zero, for which the code reads
   * outside its buffer; or a float in the text format of old, which is not part of this model.
   */
  datatype Stop = Exception | Undefined | OldText

  datatype Outcome = Have(value: Value, next: nat) | Failed(why: Stop)

  datatype Many = HaveAll(items: seq<Value>, next: nat) | FailedAll(why: Stop)

  datatype Count = Number(n: nat, next: nat) | NoNumber(why: Stop)

  function WhyNot(r: Read): Stop {
    if r.Undefined? then Stop.Undefined else Exception
  }

  /** The size of a container. */
  function ReadCount(s: Bytes, at: nat): (r: Count)
    requires at <= |s|
    ensures r.Number? ==> r.next <= |s|
  {
    match Decoding(s, at, 8, false)
    case Got(n, next) => if n >= 0 then Number(n, next) else NoNumber(Exception)
    case other => NoNumber(WhyNot(other))
  }

  /** What `deserialize` finds at a place: the value and the place behind it, or why it stops. */
  function ReadValue(t: Type, s: Bytes, at: nat): (r: Outcome)
    requires at <= |s|
    ensures r.Have? ==> r.next <= |s|
    decreases t, 1, 0
  {
    match t
    case IntType(w, signed) => if WidthOk(w) then AsOutcome(Decoding(s, at, w, signed)) else Failed(Exception)
    case StringType =>
      (match ReadCount(s, at)
       case Number(n, next) => if n <= |s| - next then Have(StringValue(s[next..next + n]), next + n) else Failed(Exception)
       case NoNumber(why) => Failed(why))
    case FloatType =>
      if at == |s| then Failed(Exception)
      // the text format of old begins with a byte that has one of these bits
      else if s[at] / 16 % 8 != 0 then Failed(OldText) else
      (match Decoding(s, at, 8, true)
       case Got(m, next) =>
         (match Decoding(s, next, 2, true)
          case Got(e, end) => Have(FloatValue(m, e), end)
          case other => Failed(WhyNot(other)))
       case other => Failed(WhyNot(other)))
    case PairType(a, b) =>
      (match ReadValue(a, s, at)
       case Have(x, next) =>
         (match ReadValue(b, s, next)
          case Have(y, end) => Have(PairValue(x, y), end)
          case Failed(why) => Failed(why))
       case Failed(why) => Failed(why))
    case VectorType(a) =>
      (match ReadCount(s, at)
       case Number(n, next) =>
         (match ReadMany(a, s, next, n, [])
          case HaveAll(items, end) => Have(VectorValue(items), end)
          case FailedAll(why) => Failed(why))
       case NoNumber(why) => Failed(why))
    case SetType(a) =>
      (match ReadCount(s, at)
       case Number(n, next) =>
         (match ReadSet(a, s, next, n, [])
          case HaveAll(items, end) => Have(SetValue(items), end)
          case FailedAll(why) => Failed(why))
       case NoNumber(why) => Failed(why))
    case MapType(a, b) =>
      (match ReadCount(s, at)
       case Number(n, next) =>
         (match ReadMap(t, s, next, n, [])
          case HaveAll(entries, end) => Have(MapValue(entries), end)
          case FailedAll(why) => Failed(why))
       case NoNumber(why) => Failed(why))
  }

  function AsOutcome(r: Read): Outcome {
    match r
    case Got(x, next) => Have(IntValue(x), next)
    case other => Failed(WhyNot(other))
  }

  /** count elements behind those in front. */
  function ReadMany(t: Type, s: Bytes, at: nat, count: nat, front: seq<Value>): (r: Many)
    requires at <= |s|
    ensures r.HaveAll? ==> r.next <= |s|
    decreases t, 2, count
  {
    if count == 0 then HaveAll(front, at) else
    match ReadValue(t, s, at)
    case Have(v, next) => ReadMany(t, s, next, count - 1, front + [v])
    case Failed(why) => FailedAll(why)
  }

  /** An element that is in the set already changes nothing. */
  function ReadSet(t: Type, s: Bytes, at: nat, count: nat, front: seq<Value>): (r: Many)
    requires at <= |s|
    ensures r.HaveAll? ==> r.next <= |s|
    decreases t, 2, count
  {
    if count == 0 then HaveAll(front, at) else
    match ReadValue(t, s, at)
    case Have(v, next) => ReadSet(t, s, next, count - 1, if v in front then front else front + [v])
    case Failed(why) => FailedAll(why)
  }

  /** The entry for d is r, whether it was there before or not. */
  function Put(entries: seq<Value>, d: Value, r: Value): seq<Value> {
    if entries == [] then [PairValue(d, r)]
    else if entries[0].PairValue? && entries[0].first == d then [PairValue(d, r)] + entries[1..]
    else [entries[0]] + Put(entries[1..], d, r)
  }

  function ReadMap(t: Type, s: Bytes, at: nat, count: nat, front: seq<Value>): (r: Many)
    requires at <= |s| && t.MapType?
    ensures r.HaveAll? ==> r.next <= |s|
    decreases t, 0, count
  {
    if count == 0 then HaveAll(front, at) else
    match ReadValue(t.domain, s, at)
    case Failed(why) => FailedAll(why)
    case Have(d, next) =>
      match ReadValue(t.range, s, next)
      case Failed(why) => FailedAll(why)
      case Have(r, end) => ReadMap(t, s, end, count - 1, Put(front, d, r))
  }

  // ---- what is written is read back --------------------------------------------------------------

  lemma IntReadBack(x: int, before: Bytes, after: Bytes, w: nat, signed: bool)
    requires WidthOk(w) && Fits(x, w, signed)
    ensures Decoding(before + IntCode(x) + after, |before|, w, signed) == Got(x, |before| + |IntCode(x)|)
    ensures |IntCode(x)| >= 2 && IntCode(x)[0] / 16 % 8 == 0
  {
    FitsInBytes(x, w, signed);
    ReadsBack(x, before, after, w, signed);
    NoTextBits(|LittleEndian(PackedIntegers.Abs(x))|, x < 0);
  }

  /** A control byte never looks like the beginning of the old text format. */
  lemma NoTextBits(size: nat, negative: bool)
    requires size <= 8
    ensures (size + if negative then 128 else 0) / 16 % 8 == 0
  {}

  lemma CountFits(n: nat)
    requires Countable(n)
    ensures Fits(n, 8, false)
  {}

  lemma SizeReadBack(before: Bytes, n: nat, body: Bytes, after: Bytes)
    requires Countable(n)
    ensures Decoding(before + (IntCode(n) + body) + after, |before|, 8, false) == Got(n, |before| + |IntCode(n)|)
    ensures before + (IntCode(n) + body) + after == (before + IntCode(n)) + body + after
  {
    hide IntCode, Decoding, Fits;
    CountFits(n);
    IntReadBack(n, before, body + after, 8, false);
    assert before + (IntCode(n) + body) + after == before + IntCode(n) + (body + after);
  }

  lemma StringReadBack(chars: Bytes, before: Bytes, after: Bytes)
    requires Countable(|chars|)
    ensures var v := StringValue(chars);
      ReadValue(StringType, before + Written(v) + after, |before|) == Have(v, |before| + |Written(v)|)
  {
    SizeReadBack(before, |chars|, chars, after);
    hide IntCode, Decoding, Countable;
    var front := before + IntCode(|chars|);
    assert (front + chars + after)[|front|..|front| + |chars|] == chars;
  }

  lemma FloatReadBack(m: int, e: int, before: Bytes, after: Bytes)
    requires Fits(m, 8, true) && Fits(e, 2, true)
    ensures var v := FloatValue(m, e);
      ReadValue(FloatType, before + Written(v) + after, |before|) == Have(v, |before| + |Written(v)|)
  {
    hide IntCode, Decoding, Fits;
    var x, y := IntCode(m), IntCode(e);
    TwoParts(before, x, y, after);
    IntReadBack(m, before, y + after, 8, true);
    IntReadBack(e, before + x, after, 2, true);
    var s := before + (x + y) + after;
    assert s[|before|] == x[0] && |s| > |before|;
  }

  /** Two values one after the other. */
  lemma TwoParts(before: Bytes, x: Bytes, y: Bytes, after: Bytes)
    ensures before + (x + y) + after == before + x + (y + after)
    ensures before + (x + y) + after == (before + x) + y + after
  {}

  /**
   * Every value of every type is read back from what was written for it, whatever stands before
   * and behind, and reading ends where writing ended.
   */
  lemma {:induction false} ValueReadBack(t: Type, v: Value, before: Bytes, after: Bytes)
    requires Has(t, v)
    ensures ReadValue(t, before + Written(v) + after, |before|) == Have(v, |before| + |Written(v)|)
    decreases t, 1, 0
  {
    hide IntCode, Decoding, Fits, Countable, Written, ReadValue;
    match (t, v)
    case (IntType(w, signed), IntValue(x)) => IntValueReadBack(x, w, signed, before, after);
    case (StringType, StringValue(chars)) => StringReadBack(chars, before, after);
    case (FloatType, FloatValue(m, e)) => FloatReadBack(m, e, before, after);
    case (PairType(a, b), PairValue(x, y)) => PairReadBack(a, b, x, y, before, after);
    case (VectorType(a), VectorValue(items)) => VectorReadBack(a, items, before, after);
    case (SetType(a), SetValue(items)) => WholeSetReadBack(a, items, before, after);
    case (MapType(a, b), MapValue(entries)) => WholeMapReadBack(a, b, entries, before, after);
  }

  lemma IntValueReadBack(x: int, w: nat, signed: bool, before: Bytes, after: Bytes)
    requires WidthOk(w) && Fits(x, w, signed)
    ensures var v := IntValue(x);
      ReadValue(IntType(w, signed), before + Written(v) + after, |before|) == Have(v, |before| + |Written(v)|)
  {
    IntReadBack(x, before, after, w, signed);
    hide IntCode, Decoding, Fits;
  }

  lemma {:induction false} PairReadBack(a: Type, b: Type, x: Value, y: Value, before: Bytes, after: Bytes)
    requires Has(a, x) && Has(b, y)
    ensures var v := PairValue(x, y);
      ReadValue(PairType(a, b), before + Written(v) + after, |before|) == Have(v, |before| + |Written(v)|)
    decreases PairType(a, b), 0, 0
  {
    hide Has, ReadValue, Written;
    var w, z := Written(x), Written(y);
    PairWritten(x, y);
    TwoParts(before, w, z, after);
    ValueReadBack(a, x, before, z + after);
    ValueReadBack(b, y, before + w, after);
    PairRead(a, b, before + (w + z) + after, |before|, x, |before| + |w|, y, |before| + |w| + |z|);
  }

  lemma PairWritten(x: Value, y: Value)
    ensures Written(PairValue(x, y)) == Written(x) + Written(y)
  {}

  lemma PairRead(a: Type, b: Type, s: Bytes, at: nat, x: Value, next: nat, y: Value, end: nat)
    requires at <= |s| && next <= |s|
    requires ReadValue(a, s, at) == Have(x, next) && ReadValue(b, s, next) == Have(y, end)
    ensures ReadValue(PairType(a, b), s, at) == Have(PairValue(x, y), end)
  {}

  lemma {:induction false} VectorReadBack(a: Type, items: seq<Value>, before: Bytes, after: Bytes)
    requires Countable(|items|) && AllHave(a, items)
    ensures var v := VectorValue(items);
      ReadValue(VectorType(a), before + Written(v) + after, |before|) == Have(v, |before| + |Written(v)|)
    decreases VectorType(a), 0, 0
  {
    hide IntCode, Decoding, Countable, AllHave, ReadMany, WrittenAll;
    SizeReadBack(before, |items|, WrittenAll(items), after);
    ManyReadBack(a, items, before + IntCode(|items|), after, []);
    assert [] + items == items;
  }

  lemma {:induction false} WholeSetReadBack(a: Type, items: seq<Value>, before: Bytes, after: Bytes)
    requires Countable(|items|) && AllHave(a, items) && DistinctItems(items)
    ensures var v := SetValue(items);
      ReadValue(SetType(a), before + Written(v) + after, |before|) == Have(v, |before| + |Written(v)|)
    decreases SetType(a), 0, 0
  {
    hide IntCode, Decoding, Countable, AllHave, ReadSet, WrittenAll, DistinctItems;
    SizeReadBack(before, |items|, WrittenAll(items), after);
    assert [] + items == items;
    SetReadBack(a, items, before + IntCode(|items|), after, []);
  }

  lemma {:induction false} WholeMapReadBack(a: Type, b: Type, entries: seq<Value>, before: Bytes, after: Bytes)
    requires Countable(|entries|) && DistinctKeys(entries)
    requires forall i :: 0 <= i < |entries| ==> entries[i].PairValue? && Has(a, entries[i].first) && Has(b, entries[i].second)
    ensures var v := MapValue(entries);
      ReadValue(MapType(a, b), before + Written(v) + after, |before|) == Have(v, |before| + |Written(v)|)
    decreases MapType(a, b), 0, |entries| + 1
  {
    hide IntCode, Decoding, Countable, ReadMap, WrittenAll, DistinctKeys, Has;
    SizeReadBack(before, |entries|, WrittenAll(entries), after);
    assert [] + entries == entries;
    MapReadBack(MapType(a, b), entries, before + IntCode(|entries|), after, []);
  }

  lemma {:induction false} ManyReadBack(t: Type, items: seq<Value>, before: Bytes, after: Bytes, front: seq<Value>)
    requires AllHave(t, items)
    ensures ReadMany(t, before + WrittenAll(items) + after, |before|, |items|, front)
         == HaveAll(front + items, |before| + |WrittenAll(items)|)
    decreases t, 2, |items|
  {
    hide ReadValue, Has, Written;
    if items == [] {
      assert front + items == front;
    } else {
      var v, rest := items[0], items[1..];
      assert Has(t, v) && AllHave(t, rest);
      TwoParts(before, Written(v), WrittenAll(rest), after);
      ValueReadBack(t, v, before, WrittenAll(rest) + after);
      ManyReadBack(t, rest, before + Written(v), after, front + [v]);
      assert front + [v] + rest == front + items;
    }
  }

  lemma NotInFront(front: seq<Value>, items: seq<Value>)
    requires DistinctItems(front + items) && items != []
    ensures items[0] !in front && DistinctItems(front + [items[0]] + items[1..])
  {
    var all := front + items;
    assert all[|front|] == items[0];
    assert forall i :: 0 <= i < |front| ==> all[i] == front[i];
    assert front + [items[0]] + items[1..] == all;
  }

  lemma {:induction false} SetReadBack(t: Type, items: seq<Value>, before: Bytes, after: Bytes, front: seq<Value>)
    requires AllHave(t, items) && DistinctItems(front + items)
    ensures ReadSet(t, before + WrittenAll(items) + after, |before|, |items|, front)
         == HaveAll(front + items, |before| + |WrittenAll(items)|)
    decreases t, 2, |items|
  {
    hide ReadValue, Has, Written, DistinctItems;
    if items == [] {
      assert front + items == front;
    } else {
      var v, rest := items[0], items[1..];
      assert Has(t, v) && AllHave(t, rest);
      NotInFront(front, items);
      TwoParts(before, Written(v), WrittenAll(rest), after);
      ValueReadBack(t, v, before, WrittenAll(rest) + after);
      SetReadBack(t, rest, before + Written(v), after, front + [v]);
      assert front + [v] + rest == front + items;
    }
  }

  predicate AllPairs(entries: seq<Value>) {
    forall i :: 0 <= i < |entries| ==> entries[i].PairValue?
  }

  lemma {:induction false} PutNew(entries: seq<Value>, d: Value, r: Value)
    requires AllPairs(entries) && forall i :: 0 <= i < |entries| ==> entries[i].first != d
    ensures Put(entries, d, r) == entries + [PairValue(d, r)]
  {
    if entries != [] { PutNew(entries[1..], d, r); }
  }

  lemma NewKey(front: seq<Value>, entries: seq<Value>)
    requires AllPairs(front) && DistinctKeys(front + entries) && entries != [] && entries[0].PairValue?
    ensures Put(front, entries[0].first, entries[0].second) == front + [entries[0]]
    ensures AllPairs(front + [entries[0]]) && DistinctKeys(front + [entries[0]] + entries[1..])
  {
    var all := front + entries;
    assert all[|front|] == entries[0];
    assert forall i :: 0 <= i < |front| ==> all[i] == front[i];
    assert front + [entries[0]] + entries[1..] == all;
    PutNew(front, entries[0].first, entries[0].second);
  }

  lemma MapReadStep(t: Type, s: Bytes, at: nat, count: nat, front: seq<Value>, d: Value, next: nat, r: Value, end: nat)
    requires t.MapType? && at <= |s| && next <= |s| && end <= |s| && count > 0
    requires ReadValue(t.domain, s, at) == Have(d, next) && ReadValue(t.range, s, next) == Have(r, end)
    ensures ReadMap(t, s, at, count, front) == ReadMap(t, s, end, count - 1, Put(front, d, r))
  {}

  lemma NoEntries(t: Type, s: Bytes, at: nat, front: seq<Value>)
    requires t.MapType? && at <= |s|
    ensures ReadMap(t, s, at, 0, front) == HaveAll(front, at) && WrittenAll([]) == []
  {}

  lemma {:induction false} MapReadBack(t: Type, entries: seq<Value>, before: Bytes, after: Bytes, front: seq<Value>)
    requires t.MapType? && AllPairs(front) && DistinctKeys(front + entries)
    requires forall i :: 0 <= i < |entries| ==>
      entries[i].PairValue? && Has(t.domain, entries[i].first) && Has(t.range, entries[i].second)
    ensures ReadMap(t, before + WrittenAll(entries) + after, |before|, |entries|, front)
         == HaveAll(front + entries, |before| + |WrittenAll(entries)|)
    decreases t, 0, |entries|
  {
    hide ReadValue, Has, DistinctKeys, AllPairs, Written, WrittenAll, ReadMap;
    if entries == [] {
      NoEntries(t, before + WrittenAll(entries) + after, |before|, front);
      assert front + entries == front;
    } else {
      var v, rest := entries[0], entries[1..];
      var x, y, z := Written(v.first), Written(v.second), WrittenAll(rest);
      NewKey(front, entries);
      WrittenEntry(entries);
      TwoParts(before, x + y, z, after);
      TwoParts(before, x, y, z + after);
      ValueReadBack(t.domain, v.first, before, y + (z + after));
      ValueReadBack(t.range, v.second, before + x, z + after);
      MapReadStep(t, before + (x + y) + (z + after), |before|, |entries|, front, v.first, |before| + |x|, v.second, |before| + |x| + |y|);
      MapReadBack(t, rest, before + (x + y), after, front + [v]);
      assert front + [v] + rest == front + entries;
    }
  }

  lemma WrittenEntry(entries: seq<Value>)
    requires entries != [] && entries[0].PairValue?
    ensures entries[0] == PairValue(entries[0].first, entries[0].second)
    ensures WrittenAll(entries) == Written(entries[0].first) + Written(entries[0].second) + WrittenAll(entries[1..])
  {}

  // ---- serialize and deserialize -----------------------------------------------------------------

  method PutInt(x: int, w: nat, signed: bool) returns (out: Bytes)
    requires WidthOk(w) && Fits(x, w, signed)
    ensures out == IntCode(x)
  {
    out := PackInt(x, w, signed);
  }

  method PutCount(n: nat) returns (out: Bytes)
    requires Countable(n)
    ensures out == IntCode(n)
  {
    CountFits(n);
    out := PutInt(n, 8, false);
  }

  lemma {:induction false} WrittenAllSnoc(items: seq<Value>, k: nat)
    requires k < |items|
    ensures WrittenAll(items[..k + 1]) == WrittenAll(items[..k]) + Written(items[k])
    decreases k
  {
    hide Written;
    if k == 0 {
      assert items[..1][1..] == [] && items[..1][0] == items[0] && items[..0] == [];
    } else {
      assert items[..k + 1][1..] == items[1..][..k] && items[..k][1..] == items[1..][..k - 1];
      WrittenAllSnoc(items[1..], k - 1);
    }
  }

  /** serialize: a member for each type; containers write their size and loop over their elements. */
  method Serialize(t: Type, v: Value) returns (out: Bytes)
    requires Has(t, v)
    ensures out == Written(v)
    decreases t, 1
  {
    hide IntCode, Fits, Countable;
    match (t, v) {
      case (IntType(w, signed), IntValue(x)) =>
        out := PutInt(x, w, signed);
      case (StringType, StringValue(chars)) =>
        out := PutCount(|chars|);
        out := out + chars;
      case (FloatType, FloatValue(m, e)) =>
        var first := PutInt(m, 8, true);
        var second := PutInt(e, 2, true);
        out := first + second;
      case (PairType(a, b), PairValue(x, y)) =>
        var first := Serialize(a, x);
        var second := Serialize(b, y);
        out := first + second;
      case (VectorType(a), VectorValue(items)) =>
        out := SerializeItems(a, items);
      case (SetType(a), SetValue(items)) =>
        out := SerializeItems(a, items);
      case (MapType(a, b), MapValue(entries)) =>
        out := SerializeEntries(a, b, entries);
    }
  }

  method SerializeItems(a: Type, items: seq<Value>) returns (out: Bytes)
    requires Countable(|items|) && AllHave(a, items)
    ensures out == IntCode(|items|) + WrittenAll(items)
    decreases a, 2
  {
    hide IntCode, Countable, Written, Has;
    out := PutCount(|items|);
    assert items[..0] == [];
    for i := 0 to |items|
      invariant out == IntCode(|items|) + WrittenAll(items[..i])
    {
      var code := Serialize(a, items[i]);
      WrittenAllSnoc(items, i);
      out := out + code;
    }
    assert items[..|items|] == items;
  }

  method SerializeEntries(a: Type, b: Type, entries: seq<Value>) returns (out: Bytes)
    requires Countable(|entries|)
    requires forall i :: 0 <= i < |entries| ==> entries[i].PairValue? && Has(a, entries[i].first) && Has(b, entries[i].second)
    ensures out == IntCode(|entries|) + WrittenAll(entries)
    decreases MapType(a, b), 0
  {
    hide IntCode, Countable, Has;
    out := PutCount(|entries|);
    assert entries[..0] == [];
    for i := 0 to |entries|
      invariant out == IntCode(|entries|) + WrittenAll(entries[..i])
    {
      var key := Serialize(a, entries[i].first);
      var value := Serialize(b, entries[i].second);
      WrittenAllSnoc(entries, i);
      assert Written(entries[i]) == key + value;
      out := out + key;
      out := out + value;
    }
    assert entries[..|entries|] == entries;
  }

  method GetCount(s: Bytes, at: nat) returns (r: Count)
    requires at <= |s|
    ensures r == ReadCount(s, at)
  {
    hide SizeOf, ValueOf, FromBytes;
    var count := UnpackInt(s, at, 8, false);
    match count {
      case Got(n, next) => r := if n >= 0 then Number(n, next) else NoNumber(Exception);
      case other => r := NoNumber(WhyNot(other));
    }
  }

  /** deserialize: a member for each type; containers read their size and loop. */
  method Deserialize(t: Type, s: Bytes, at: nat) returns (r: Outcome)
    requires at <= |s|
    ensures r == ReadValue(t, s, at)
    decreases t, 1
  {
    hide Decoding;
    match t {
      case IntType(w, signed) =>
        if !(1 <= w <= 8) {
          return Failed(Exception);
        }
        var x := UnpackInt(s, at, w, signed);
        r := AsOutcome(x);
      case StringType =>
        var count := GetCount(s, at);
        if count.NoNumber? {
          return Failed(count.why);
        }
        if count.n > |s| - count.next {
          return Failed(Exception);
        }
        r := Have(StringValue(s[count.next..count.next + count.n]), count.next + count.n);
      case FloatType =>
        r := DeserializeFloat(s, at);
      case PairType(a, b) =>
        var x := Deserialize(a, s, at);
        if x.Failed? {
          return x;
        }
        var y := Deserialize(b, s, x.next);
        if y.Failed? {
          return y;
        }
        r := Have(PairValue(x.value, y.value), y.next);
      case VectorType(a) =>
        var count := GetCount(s, at);
        if count.NoNumber? {
          return Failed(count.why);
        }
        var items := DeserializeMany(a, s, count.next, count.n);
        r := if items.HaveAll? then Have(VectorValue(items.items), items.next) else Failed(items.why);
      case SetType(a) =>
        var count := GetCount(s, at);
        if count.NoNumber? {
          return Failed(count.why);
        }
        var items := DeserializeSet(a, s, count.next, count.n);
        r := if items.HaveAll? then Have(SetValue(items.items), items.next) else Failed(items.why);
      case MapType(a, b) =>
        var count := GetCount(s, at);
        if count.NoNumber? {
          return Failed(count.why);
        }
        var entries := DeserializeMap(t, s, count.next, count.n);
        r := if entries.HaveAll? then Have(MapValue(entries.items), entries.next) else Failed(entries.why);
    }
  }

  method DeserializeFloat(s: Bytes, at: nat) returns (r: Outcome)
    requires at <= |s|
    ensures r == ReadValue(FloatType, s, at)
  {
    if at == |s| {
      return Failed(Exception);
    }
    if s[at] / 16 % 8 != 0 {
      return Failed(OldText);
    }
    hide SizeOf, ValueOf, FromBytes;
    var m := UnpackInt(s, at, 8, true);
    if !m.Got? {
      return Failed(WhyNot(m));
    }
    var e := UnpackInt(s, m.next, 2, true);
    if !e.Got? {
      return Failed(WhyNot(e));
    }
    r := Have(FloatValue(m.value, e.value), e.next);
  }

  method DeserializeMany(t: Type, s: Bytes, at: nat, count: nat) returns (r: Many)
    requires at <= |s|
    ensures r == ReadMany(t, s, at, count, [])
    decreases t, 2
  {
    hide ReadValue;
    var items: seq<Value>, next: nat := [], at;
    for i := 0 to count
      invariant next <= |s| && ReadMany(t, s, at, count, []) == ReadMany(t, s, next, count - i, items)
    {
      var v := Deserialize(t, s, next);
      if v.Failed? {
        return FailedAll(v.why);
      }
      items, next := items + [v.value], v.next;
    }
    r := HaveAll(items, next);
  }

  method DeserializeSet(t: Type, s: Bytes, at: nat, count: nat) returns (r: Many)
    requires at <= |s|
    ensures r == ReadSet(t, s, at, count, [])
    decreases t, 2
  {
    hide ReadValue;
    var items: seq<Value>, next: nat := [], at;
    for i := 0 to count
      invariant next <= |s| && ReadSet(t, s, at, count, []) == ReadSet(t, s, next, count - i, items)
    {
      var v := Deserialize(t, s, next);
      if v.Failed? {
        return FailedAll(v.why);
      }
      items, next := if v.value in items then items else items + [v.value], v.next;
    }
    r := HaveAll(items, next);
  }

  method DeserializeMap(t: Type, s: Bytes, at: nat, count: nat) returns (r: Many)
    requires at <= |s| && t.MapType?
    ensures r == ReadMap(t, s, at, count, [])
    decreases t, 0
  {
    hide ReadValue;
    var entries: seq<Value>, next: nat := [], at;
    for i := 0 to count
      invariant next <= |s| && ReadMap(t, s, at, count, []) == ReadMap(t, s, next, count - i, entries)
    {
      var d := Deserialize(t.domain, s, next);
      if d.Failed? {
        return FailedAll(d.why);
      }
      var v := Deserialize(t.range, s, d.next);
      if v.Failed? {
        return FailedAll(v.why);
      }
      entries, next := Put(entries, d.value, v.value), v.next;
    }
    r := HaveAll(entries, next);
  }
}

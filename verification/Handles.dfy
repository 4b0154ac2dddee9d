/**
 * Handles that share digit records by copy-on-write. A bigint object holds one thing that
 * changes, the pointer to its record; the pool keeps that pointer for every live object.
 */
module Handles {
  import opened Basics
  import opened Digits
  import opened Records
  import opened LongHelpers
  import opened LongArithmetic

  type Name = nat

  /** The handles that point at the record r. */
  function Sharers(handles: map<Name, DataRecord>, r: DataRecord): set<Name> {
    set x | x in handles && handles[x] == r
  }

  /** counts gives every record that has a handle the number of its handles. */
  ghost predicate CountsExact(handles: map<Name, DataRecord>, counts: map<DataRecord, nat>) {
    counts.Keys == handles.Values && forall r :: r in counts ==> counts[r] == |Sharers(handles, r)|
  }

  lemma HoldCounts(handles: map<Name, DataRecord>, counts: map<DataRecord, nat>, x: Name, t: DataRecord)
    requires CountsExact(handles, counts) && x !in handles && t !in handles.Values
    ensures CountsExact(handles[x := t], counts[t := 1])
    ensures handles[x := t].Values == handles.Values + {t}
  {
    var next := handles[x := t];
    assert next.Values == handles.Values + {t} by {
      ValuesUpdate(handles, x, t);
    }
    forall r | r in next.Values ensures counts[t := 1][r] == |Sharers(next, r)| {
      assert Sharers(next, r) == if r == t then {x} else Sharers(handles, r);
    }
  }

  lemma ValuesUpdate(handles: map<Name, DataRecord>, x: Name, t: DataRecord)
    requires x !in handles
    ensures handles[x := t].Values == handles.Values + {t}
  {
    var next := handles[x := t];
    assert next[x] == t;
    forall r | r in handles.Values ensures r in next.Values {
      var y :| y in handles && handles[y] == r;
      assert next[y] == r;
    }
  }

  lemma SharersOfNew(handles: map<Name, DataRecord>, x: Name, t: DataRecord, r: DataRecord)
    requires x !in handles
    ensures |Sharers(handles[x := t], r)| == |Sharers(handles, r)| + if r == t then 1 else 0
  {
    assert Sharers(handles[x := t], r) == if r == t then Sharers(handles, t) + {x} else Sharers(handles, r);
  }

  lemma ShareCounts(handles: map<Name, DataRecord>, counts: map<DataRecord, nat>, x: Name, y: Name)
    requires CountsExact(handles, counts) && x !in handles && y in handles
    ensures CountsExact(handles[x := handles[y]], counts[handles[y] := counts[handles[y]] + 1])
    ensures handles[x := handles[y]].Values == handles.Values
  {
    hide Sharers;
    var t := handles[y];
    var next := handles[x := t];
    ValuesUpdate(handles, x, t);
    forall r | r in next.Values ensures counts[t := counts[t] + 1][r] == |Sharers(next, r)| {
      SharersOfNew(handles, x, t, r);
    }
  }

  lemma LetGoCounts(handles: map<Name, DataRecord>, counts: map<DataRecord, nat>, x: Name)
    requires CountsExact(handles, counts) && x in handles
    ensures handles[x] in counts && counts.Keys == handles.Values
    ensures (handles - {x}).Values == handles.Values - if counts[handles[x]] == 1 then {handles[x]} else {}
    ensures counts[handles[x]] == 1 ==> CountsExact(handles - {x}, counts - {handles[x]})
    ensures counts[handles[x]] != 1 ==>
      counts[handles[x]] > 1 && CountsExact(handles - {x}, counts[handles[x] := counts[handles[x]] - 1])
  {
    var t := handles[x];
    var next := handles - {x};
    var s := Sharers(handles, t);
    assert x in s;
    forall r ensures Sharers(next, r) == if r == t then s - {x} else Sharers(handles, r) {}
    forall r | r in handles.Values && r != t ensures r in next.Values {
      var y :| y in handles && handles[y] == r;
      assert next[y] == r;
    }
    if |s| == 1 {
      forall y | y in next ensures next[y] != t { OnlySharer(handles, x, y); }
    } else {
      assert s != {x};
      var y :| y in s && y != x;
      assert next[y] == t;
    }
  }

  lemma SharersUpdate(handles: map<Name, DataRecord>, x: Name, t: DataRecord, r: DataRecord)
    ensures Sharers(handles[x := t], r) == if r == t then Sharers(handles, r) + {x} else Sharers(handles, r) - {x}
  {}

  lemma OnlySharer(handles: map<Name, DataRecord>, x: Name, y: Name)
    requires x in handles && y in handles && x != y && |Sharers(handles, handles[x])| == 1
    ensures handles[y] != handles[x]
  {
    if handles[y] == handles[x] {
      SubsetSize({x, y}, Sharers(handles, handles[x]));
    }
  }

  function TimesNat(a: nat, b: nat): nat {
    a * b
  }

  /** r is a proper record for the number v. */
  ghost predicate Holds(r: DataRecord, v: nat)
    reads r`digitsUsed, r.number
  {
    r.Valid() && r.Val() == v
  }

  function DivNat(a: nat, b: nat): nat
    requires b != 0
  {
    a / b
  }

  function ModNat(a: nat, b: nat): nat
    requires b != 0
  {
    a % b
  }

  /** The invariant of a pool, on its fields; see Pool.Valid. */
  ghost predicate Sound(handles: map<Name, DataRecord>, numbers: map<Name, nat>,
                        counts: map<DataRecord, nat>, repr: set<object>)
    reads repr
  {
    && numbers.Keys == handles.Keys
    && (forall x :: x in handles ==> handles[x] in counts)
    && (forall r :: r in counts ==> r in repr && r.number in repr && r.references == counts[r])
    && (forall x :: x in handles ==> Holds(handles[x], numbers[x]))
    && (forall q, r :: q in counts && r in counts ==> Apart(q, r))
    && CountsExact(handles, counts)
  }

  /** The invariant but for what the record of x holds. */
  ghost predicate SoundBut(handles: map<Name, DataRecord>, numbers: map<Name, nat>,
                           counts: map<DataRecord, nat>, repr: set<object>, x: Name)
    requires x in handles
    reads repr - {handles[x], handles[x].number}
  {
    && numbers.Keys == handles.Keys
    && CountsExact(handles, counts) && handles[x] in counts && counts[handles[x]] == 1
    && handles[x] in repr && handles[x].number in repr
    && (forall q, r :: q in counts && r in counts ==> Apart(q, r))
    && (forall r :: r in counts && r != handles[x] ==>
         && r in repr - {handles[x].number} && r.number in repr - {handles[x]}
         && r.references == counts[r])
    && (forall y :: y in handles && y != x ==>
         && handles[y] != handles[x] && handles[y] in counts
         && Holds(handles[y], numbers[y]))
  }

  lemma HoldSoundBut(handles: map<Name, DataRecord>, numbers: map<Name, nat>, counts: map<DataRecord, nat>,
                     repr: set<object>, x: Name, temp: DataRecord, v: nat)
    requires Sound(handles, numbers, counts, repr) && x !in handles && temp !in repr && temp.number !in repr
    ensures SoundBut(handles[x := temp], numbers[x := v], counts[temp := 1], repr + {temp, temp.number}, x)
  {
    hide CountsExact, Sharers, Holds;
    assert temp !in counts;
    HoldCounts(handles, counts, x, temp);
  }

  lemma HoldSound(handles: map<Name, DataRecord>, numbers: map<Name, nat>, counts: map<DataRecord, nat>,
                  repr: set<object>, x: Name, temp: DataRecord, v: nat)
    requires Sound(handles, numbers, counts, repr) && x !in handles && temp !in repr && temp.number !in repr
    requires temp.references == 1 && Holds(temp, v)
    ensures Sound(handles[x := temp], numbers[x := v], counts[temp := 1], repr + {temp, temp.number})
  {
    hide CountsExact, Sharers, Holds;
    assert temp !in counts;
    HoldCounts(handles, counts, x, temp);
  }

  lemma LetGoLastSound(handles: map<Name, DataRecord>, numbers: map<Name, nat>, counts: map<DataRecord, nat>,
                       repr: set<object>, x: Name)
    requires Sound(handles, numbers, counts, repr) && x in handles && handles[x].references == 1
    ensures handles[x] in counts && Sound(handles - {x}, numbers - {x}, counts - {handles[x]}, repr)
  {
    hide CountsExact, Sharers, Holds;
    LetGoCounts(handles, counts, x);
    forall y | y in handles - {x} ensures handles[y] in counts - {handles[x]} {
      OnlySharer(handles, x, y) by { assert |Sharers(handles, handles[x])| == 1 by { hide *; Counted(handles, counts, x); } }
    }
  }

  lemma Counted(handles: map<Name, DataRecord>, counts: map<DataRecord, nat>, x: Name)
    requires CountsExact(handles, counts) && x in handles
    ensures handles[x] in counts && counts[handles[x]] == |Sharers(handles, handles[x])|
  {}

  class Pool {
    var handles: map<Name, DataRecord>

    /** The number each handle stands for. */
    ghost var numbers: map<Name, nat>

    /** The records allocated and not yet deleted, with the number of handles each of them has. */
    ghost var counts: map<DataRecord, nat>

    ghost var Repr: set<object>

    /**
     * Every handle points at a proper record that holds its number; records do not overlap;
     * `references` of every live record is the number of handles that point at it, which is
     * not zero: no handle dangles and no record is lost.
     */
    ghost predicate Valid()
      reads this, Repr
    {
      this !in Repr && Sound(handles, numbers, counts, Repr)
    }

    constructor ()
      ensures Valid() && handles == map[] && Repr == {}
    {
      handles := map[];
      numbers := map[];
      counts := map[];
      Repr := {};
    }

    /** What the invariant says of one handle, and of it and every other. */
    lemma Use(x: Name)
      requires Valid() && x in handles
      ensures x in numbers && Holds(handles[x], numbers[x])
      ensures handles[x] in Repr && handles[x].number in Repr
      ensures forall y :: y in handles ==> handles[y] in counts
      ensures forall r :: r in counts ==> Apart(handles[x], r)
    {}

    lemma Names()
      requires Valid()
      ensures handles.Keys == numbers.Keys
    {}

    /** A number below the base is its first word; any other has more words. */
    lemma FirstWord(x: Name)
      requires Valid() && x in handles
      ensures numbers[x] < BASE <==> handles[x].digitsUsed == 1
      ensures handles[x].number.Length > 0 && (numbers[x] < BASE ==> handles[x].number[0] == numbers[x])
    {
      var d := handles[x].Digits();
      assert Holds(handles[x], numbers[x]);
      assert Power(1) == BASE * Power(0) == BASE;
      if numbers[x] < BASE { LengthFromValue(d, 1); }
      if |d| == 1 {
        assert d == [d[0]];
        ValueSingle(d[0]);
      }
    }

    /** No other handle points at a record with one reference. */
    lemma Alone(x: Name)
      requires Valid() && x in handles && handles[x].references == 1
      ensures forall y :: y in handles && y != x ==> handles[y] != handles[x]
      ensures forall r :: r in counts ==> Apart(r, handles[x])
    {
      forall y | y in handles && y != x ensures handles[y] != handles[x] {
        OnlySharer(handles, x, y);
      }
    }

    /** The invariant but for what the record of x holds; it does not depend on that record. */
    ghost predicate ValidBut(x: Name)
      requires x in handles
      reads this, Repr - {handles[x], handles[x].number}
    {
      this !in Repr && SoundBut(handles, numbers, counts, Repr, x)
    }

    /** A record that is not shared is about to be changed in place, to hold v. */
    ghost method BeginChange(x: Name, v: nat)
      requires Valid() && x in handles && handles[x].references == 1
      modifies this`numbers
      ensures ValidBut(x) && numbers == old(numbers)[x := v]
    {
      hide CountsExact, Sharers, DataRecord.Valid, DataRecord.Val;
      Alone(x);
      numbers := numbers[x := v];
    }

    lemma EndChange(x: Name)
      requires x in handles && ValidBut(x) && handles[x].references == 1
      requires x in numbers && Holds(handles[x], numbers[x])
      ensures Valid()
    {
      hide CountsExact, Sharers, DataRecord.Valid, DataRecord.Val;
    }

    /** What is missing is a proper record. */
    lemma ProperExactly(x: Name)
      requires x in handles && ValidBut(x) && handles[x].references == 1
      requires x in numbers && handles[x].Shape() && handles[x].Val() == numbers[x]
      ensures Valid() <==> handles[x].Valid()
    {
      hide CountsExact, Sharers, DataRecord.Val, ValidBut, Valid, DataRecord.Valid;
      if handles[x].Valid() { EndChange(x); }
      if Valid() { Use(x); }
    }

    // ---- pointers ----------------------------------------------------------------------------

    /** `delete`: only a live record may be deleted. */
    ghost method Delete(r: DataRecord)
      requires r in counts
      modifies this`counts
      ensures counts == old(counts) - {r}
    {
      counts := counts - {r};
    }

    /** The end of a handle's hold on its record: count down, or delete a record no one else has. */
    method LetGo(x: Name)
      requires Valid() && x in handles
      modifies this, Repr
      ensures Valid() && Repr == old(Repr)
      ensures handles == old(handles) - {x} && numbers == old(numbers) - {x}
    {
      if handles[x].references == 1 {
        LetGoLast(x);
      } else {
        LetGoShared(x);
      }
    }

    method LetGoLast(x: Name)
      requires Valid() && x in handles && handles[x].references == 1
      modifies this
      ensures Valid() && Repr == old(Repr)
      ensures handles == old(handles) - {x} && numbers == old(numbers) - {x}
    {
      hide Sound;
      LetGoLastSound(handles, numbers, counts, Repr, x);
      Delete(handles[x]);
      handles := handles - {x};
      numbers := numbers - {x};
    }

    method LetGoShared(x: Name)
      requires Valid() && x in handles && handles[x].references != 1
      modifies this, Repr
      ensures Valid() && Repr == old(Repr)
      ensures handles == old(handles) - {x} && numbers == old(numbers) - {x}
    {
      hide CountsExact, Sharers, Holds, DataRecord.Valid, DataRecord.Val;
      LetGoCounts(handles, counts, x);
      var data := handles[x];
      data.references := data.references - 1;
      counts := counts[data := counts[data] - 1];
      handles := handles - {x};
      numbers := numbers - {x};
    }

    /** A record no handle has yet gets its first handle. */
    method Hold(x: Name, temp: DataRecord, ghost v: nat)
      requires Valid() && x !in handles
      requires temp !in Repr && temp.number !in Repr && temp.references == 1 && Holds(temp, v)
      modifies this
      ensures Valid() && Repr == old(Repr) + {temp, temp.number}
      ensures handles == old(handles)[x := temp] && numbers == old(numbers)[x := v]
    {
      hide Sound, Holds;
      HoldSound(handles, numbers, counts, Repr, x, temp, v);
      handles := handles[x := temp];
      numbers := numbers[x := v];
      counts := counts[temp := 1];
      Repr := Repr + {temp, temp.number};
    }

    /** A second handle for a record that has one. */
    method Share(x: Name, y: Name)
      requires Valid() && x !in handles && y in handles
      modifies this, Repr
      ensures Valid() && Repr == old(Repr)
      ensures handles == old(handles)[x := old(handles)[y]] && numbers == old(numbers)[x := old(numbers)[y]]
    {
      hide CountsExact, Sharers, Holds, DataRecord.Valid, DataRecord.Val;
      ShareCounts(handles, counts, x, y);
      var data := handles[y];
      data.references := data.references + 1;
      counts := counts[data := counts[data] + 1];
      handles := handles[x := data];
      numbers := numbers[x := numbers[y]];
    }

    /** A handle's record passes to a new handle, as a returned temporary takes it over. */
    method Rename(into: Name, x: Name)
      requires Valid() && x in handles && into !in handles
      modifies this
      ensures Valid() && Repr == old(Repr)
      ensures handles == (old(handles) - {x})[into := old(handles)[x]]
      ensures numbers == (old(numbers) - {x})[into := old(numbers)[x]]
    {
      hide CountsExact, Sharers, Holds, DataRecord.Valid, DataRecord.Val;
      RenameCounts(handles, counts, into, x);
      numbers := (numbers - {x})[into := numbers[x]];
      handles := (handles - {x})[into := handles[x]];
    }

    /** The handle lets go of its record and takes the new one. */
    method Install(x: Name, temp: DataRecord, ghost v: nat)
      requires Valid() && x in handles
      requires temp !in Repr && temp.number !in Repr && temp.references == 1 && Holds(temp, v)
      modifies this, Repr
      ensures Valid() && Repr == old(Repr) + {temp, temp.number}
      ensures handles == old(handles)[x := temp] && numbers == old(numbers)[x := v]
    {
      hide Valid, ValidBut, CountsExact, Sharers, DataRecord.Valid, DataRecord.Val;
      Use(x);
      RemoveAndAdd(numbers, x, v);
      LetGo(x);
      Hold(x, temp, v);
    }

    /** A record no handle has yet gets its first handle, whatever it holds. */
    method HoldBut(x: Name, temp: DataRecord, ghost v: nat)
      requires Valid() && x !in handles
      requires temp !in Repr && temp.number !in Repr && temp.references == 1
      modifies this
      ensures x in handles && ValidBut(x) && Repr == old(Repr) + {temp, temp.number}
      ensures handles == old(handles)[x := temp] && numbers == old(numbers)[x := v]
    {
      hide Sound, SoundBut;
      HoldSoundBut(handles, numbers, counts, Repr, x, temp, v);
      handles := handles[x := temp];
      numbers := numbers[x := v];
      counts := counts[temp := 1];
      Repr := Repr + {temp, temp.number};
    }

    /** The handle lets go of its record and takes the new one, whatever it holds. */
    method InstallBut(x: Name, temp: DataRecord, ghost v: nat)
      requires Valid() && x in handles
      requires temp !in Repr && temp.number !in Repr && temp.references == 1
      modifies this, Repr
      ensures x in handles && ValidBut(x) && Repr == old(Repr) + {temp, temp.number}
      ensures handles == old(handles)[x := temp] && numbers == old(numbers)[x := v]
    {
      hide Valid, ValidBut, CountsExact, Sharers, DataRecord.Valid, DataRecord.Val;
      Use(x);
      RemoveAndAdd(numbers, x, v);
      LetGo(x);
      HoldBut(x, temp, v);
    }

    /** swap: the two handles exchange their pointers. */
    method Swap(x: Name, y: Name)
      requires Valid() && x in handles && y in handles
      modifies this, Repr
      ensures Valid() && fresh(Repr - old(Repr))
      ensures numbers == old(numbers)[x := old(numbers)[y]][y := old(numbers)[x]]
    {
      hide CountsExact, Sharers, Holds, DataRecord.Valid, DataRecord.Val;
      SwapCounts(handles, counts, x, y);
      numbers := numbers[x := numbers[y]][y := numbers[x]];
      handles := handles[x := handles[y]][y := handles[x]];
    }

    // ---- the operators -----------------------------------------------------------------------

    /** operator+=: in place when the record is not shared and has room. */
    method AddAssign(x: Name, y: Name)
      requires Valid()
      requires x in handles && y in handles
      modifies this, Repr
      ensures Valid() && fresh(Repr - old(Repr))
      ensures numbers == old(numbers)[x := old(numbers)[x] + old(numbers)[y]]
    {
      hide Valid, ValidBut, CountsExact, Sharers, DataRecord.Valid, DataRecord.Val;
      Use(x);
      Use(y);
      var data, rhs := handles[x], handles[y];
      ghost var v: nat := numbers[x] + numbers[y];
      var max := Max(data.digitsUsed, rhs.digitsUsed);
      if data.references != 1 || data.size <= max {
        var temp := new DataRecord(max + SLACK);
        LongAdd(data, rhs, temp);
        Install(x, temp, v);
        return;
      }
      BeginChange(x, v);
      LongAdd(data, rhs, data);
      EndChange(x);
    }

    /** operator-=: in place when the record is not shared. */
    method SubAssign(x: Name, y: Name)
      requires Valid()
      requires x in handles && y in handles
      requires numbers[x] >= numbers[y]
      modifies this, Repr
      ensures Valid() && fresh(Repr - old(Repr))
      ensures numbers == old(numbers)[x := old(numbers)[x] - old(numbers)[y]]
    {
      hide Valid, ValidBut, CountsExact, Sharers, DataRecord.Valid, DataRecord.Val;
      Use(x);
      Use(y);
      var data, rhs := handles[x], handles[y];
      ghost var v: nat := numbers[x] - numbers[y];
      if data.references != 1 {
        var temp := new DataRecord(data.digitsUsed + SLACK);
        LongSub(data, rhs, temp);
        Install(x, temp, v);
        return;
      }
      BeginChange(x, v);
      LongSub(data, rhs, data);
      EndChange(x);
    }

    /** operator+= with one word. */
    method AddShort(x: Name, value: Word)
      requires Valid()
      requires x in handles
      modifies this, Repr
      ensures Valid() && fresh(Repr - old(Repr))
      ensures numbers == old(numbers)[x := old(numbers)[x] + value]
    {
      hide Valid, ValidBut, CountsExact, Sharers, DataRecord.Valid, DataRecord.Val;
      Use(x);
      var data := handles[x];
      ghost var v: nat := numbers[x] + value;
      if data.references != 1 || data.digitsUsed == data.size {
        var temp := new DataRecord(data.digitsUsed + SLACK);
        ShortAdd(data, value, temp);
        Install(x, temp, v);
        return;
      }
      BeginChange(x, v);
      ShortAdd(data, value, data);
      EndChange(x);
    }

    /** operator-= with one word. */
    method SubShort(x: Name, value: Word)
      requires Valid()
      requires x in handles
      requires numbers[x] >= value
      modifies this, Repr
      ensures Valid() && fresh(Repr - old(Repr))
      ensures numbers == old(numbers)[x := old(numbers)[x] - value]
    {
      hide Valid, ValidBut, CountsExact, Sharers, DataRecord.Valid, DataRecord.Val;
      Use(x);
      var data := handles[x];
      ghost var v: nat := numbers[x] - value;
      if data.references != 1 {
        var temp := new DataRecord(data.digitsUsed + SLACK);
        ShortSub(data, value, temp);
        Install(x, temp, v);
        return;
      }
      BeginChange(x, v);
      ShortSub(data, value, data);
      EndChange(x);
    }

    /**
     * operator*= with one word. Zero times a number of more than one word leaves the handle with a
     * zero that is not in normal form, and every other handle as it was.
     */
    method TimesShort(x: Name, value: Word)
      requires Valid()
      requires x in handles
      modifies this, Repr
      ensures x in handles && ValidBut(x) && fresh(Repr - old(Repr))
      ensures numbers == old(numbers)[x := TimesNat(old(numbers)[x], value)]
      ensures handles[x].references == 1 && handles[x].Shape() && handles[x].Val() == numbers[x]
      ensures Valid() <==> value != 0 || old(handles[x].digitsUsed) == 1
    {
      hide Valid, ValidBut, CountsExact, Sharers, DataRecord.Valid, DataRecord.Val;
      Use(x);
      var data := handles[x];
      ghost var v: nat := TimesNat(numbers[x], value);
      if data.references != 1 || data.digitsUsed == data.size {
        var temp := new DataRecord(data.digitsUsed + SLACK);
        ShortMul(data, value, temp);
        InstallBut(x, temp, v);
      } else {
        BeginChange(x, v);
        ShortMul(data, value, data);
      }
      ProperExactly(x);
    }

    /** operator/= with one word. */
    method DivShort(x: Name, value: Word)
      requires Valid()
      requires x in handles && value != 0
      modifies this, Repr
      ensures Valid() && fresh(Repr - old(Repr))
      ensures numbers == old(numbers)[x := DivNat(old(numbers)[x], value)]
    {
      hide Valid, ValidBut, CountsExact, Sharers, DataRecord.Valid, DataRecord.Val;
      Use(x);
      var data := handles[x];
      ghost var v: nat := DivNat(numbers[x], value);
      if data.references != 1 {
        var temp := new DataRecord(data.digitsUsed + SLACK);
        var remainder := ShortDiv(data, value, temp);
        Install(x, temp, v);
        return;
      }
      BeginChange(x, v);
      var remainder := ShortDiv(data, value, data);
      EndChange(x);
    }

    /** operator%= with one word: the quotient is overwritten by the remainder. */
    method ModShort(x: Name, value: Word)
      requires Valid()
      requires x in handles && value != 0
      modifies this, Repr
      ensures Valid() && fresh(Repr - old(Repr))
      ensures numbers == old(numbers)[x := ModNat(old(numbers)[x], value)]
    {
      hide Valid, ValidBut, CountsExact, Sharers, DataRecord.Valid, DataRecord.Val;
      Use(x);
      var data := handles[x];
      ghost var v: nat := ModNat(numbers[x], value);
      if data.references != 1 {
        var temp := new DataRecord(data.digitsUsed + SLACK);
        var remainder := ShortDiv(data, value, temp);
        SetWord(temp, remainder);
        Install(x, temp, v);
        return;
      }
      BeginChange(x, v);
      var remainder := ShortDiv(data, value, data);
      SetWord(data, remainder);
      EndChange(x);
    }

    /** operator*=: always into a new record. */
    method MulAssign(x: Name, y: Name)
      requires Valid()
      requires x in handles && y in handles
      modifies this, Repr
      ensures Valid() && fresh(Repr - old(Repr))
      ensures numbers == old(numbers)[x := TimesNat(old(numbers)[x], old(numbers)[y])]
    {
      hide Valid, ValidBut, CountsExact, Sharers, DataRecord.Valid, DataRecord.Val;
      Use(x);
      Use(y);
      var data, rhs := handles[x], handles[y];
      var temp := new DataRecord(rhs.digitsUsed + data.digitsUsed + SLACK);
      LongMul(data, rhs, temp);
      Install(x, temp, TimesNat(numbers[x], numbers[y]));
    }

    /** operator/=: always into new records, one of which is dropped. */
    method DivAssign(x: Name, y: Name)
      requires Valid()
      requires x in handles && y in handles && numbers[y] > 0
      modifies this, Repr
      ensures Valid() && fresh(Repr - old(Repr))
      ensures numbers == old(numbers)[x := DivNat(old(numbers)[x], old(numbers)[y])]
    {
      hide Valid, ValidBut, CountsExact, Sharers, DataRecord.Valid, DataRecord.Val;
      Use(x);
      Use(y);
      var data, rhs := handles[x], handles[y];
      var temp := new DataRecord(data.digitsUsed + SLACK);
      var remainder := new DataRecord(data.digitsUsed + SLACK);
      LongDiv(data, rhs, temp, remainder);
      Install(x, temp, DivNat(numbers[x], numbers[y]));
    }

    /** operator%=: always into new records, one of which is dropped. */
    method ModAssign(x: Name, y: Name)
      requires Valid()
      requires x in handles && y in handles && numbers[y] > 0
      modifies this, Repr
      ensures Valid() && fresh(Repr - old(Repr))
      ensures numbers == old(numbers)[x := ModNat(old(numbers)[x], old(numbers)[y])]
    {
      hide Valid, ValidBut, CountsExact, Sharers, DataRecord.Valid, DataRecord.Val;
      Use(x);
      Use(y);
      var data, rhs := handles[x], handles[y];
      var temp := new DataRecord(data.digitsUsed + SLACK);
      var remainder := new DataRecord(data.digitsUsed + SLACK);
      LongDiv(data, rhs, temp, remainder);
      Install(x, remainder, ModNat(numbers[x], numbers[y]));
    }

    /** operator++ (before). */
    method PreIncrement(x: Name)
      requires Valid()
      requires x in handles
      modifies this, Repr
      ensures Valid() && fresh(Repr - old(Repr))
      ensures numbers == old(numbers)[x := old(numbers)[x] + 1]
    {
      hide Valid, ValidBut, CountsExact, Sharers, DataRecord.Valid, DataRecord.Val;
      Use(x);
      var data := handles[x];
      ghost var v: nat := numbers[x] + 1;
      if data.references != 1 || data.digitsUsed == data.size {
        var temp := new DataRecord(data.digitsUsed + SLACK);
        Increment(data, temp);
        Install(x, temp, v);
        return;
      }
      BeginChange(x, v);
      Increment(data, data);
      EndChange(x);
    }

    /** operator-- (before). */
    method PreDecrement(x: Name)
      requires Valid()
      requires x in handles && numbers[x] > 0
      modifies this, Repr
      ensures Valid() && fresh(Repr - old(Repr))
      ensures numbers == old(numbers)[x := old(numbers)[x] - 1]
    {
      hide Valid, ValidBut, CountsExact, Sharers, DataRecord.Valid, DataRecord.Val;
      Use(x);
      var data := handles[x];
      ghost var v: nat := numbers[x] - 1;
      if data.references != 1 {
        var temp := new DataRecord(data.digitsUsed + SLACK);
        Decrement(data, temp);
        Install(x, temp, v);
        return;
      }
      BeginChange(x, v);
      Decrement(data, data);
      EndChange(x);
    }

    /** operator++ (after): the returned handle takes over the record as it was. */
    method PostIncrement(into: Name, x: Name)
      requires Valid()
      requires x in handles && into !in handles
      modifies this, Repr
      ensures Valid() && fresh(Repr - old(Repr))
      ensures numbers == old(numbers)[into := old(numbers)[x]][x := old(numbers)[x] + 1]
    {
      hide Valid, ValidBut, CountsExact, Sharers, DataRecord.Valid, DataRecord.Val;
      Use(x);
      var data := handles[x];
      var temp2 := new DataRecord(data.digitsUsed + SLACK);
      Increment(data, temp2);
      ghost var v: nat := numbers[x] + 1;
      MoveAndAdd(numbers, into, x, v);
      Rename(into, x);
      Hold(x, temp2, v);
    }

    /** operator-- (after): the returned handle takes over the record as it was. */
    method PostDecrement(into: Name, x: Name)
      requires Valid()
      requires x in handles && into !in handles && numbers[x] > 0
      modifies this, Repr
      ensures Valid() && fresh(Repr - old(Repr))
      ensures numbers == old(numbers)[into := old(numbers)[x]][x := old(numbers)[x] - 1]
    {
      hide Valid, ValidBut, CountsExact, Sharers, DataRecord.Valid, DataRecord.Val;
      Use(x);
      var data := handles[x];
      var temp2 := new DataRecord(data.digitsUsed + SLACK);
      Decrement(data, temp2);
      ghost var v: nat := numbers[x] - 1;
      MoveAndAdd(numbers, into, x, v);
      Rename(into, x);
      Hold(x, temp2, v);
    }

    /** operator+: a new handle on a new record. */
    method Sum(into: Name, x: Name, y: Name)
      requires Valid()
      requires into !in handles && x in handles && y in handles
      modifies this, Repr
      ensures Valid() && fresh(Repr - old(Repr))
      ensures numbers == old(numbers)[into := old(numbers)[x] + old(numbers)[y]]
    {
      hide Valid, ValidBut, CountsExact, Sharers, DataRecord.Valid, DataRecord.Val;
      Use(x);
      Use(y);
      var data, rhs := handles[x], handles[y];
      var temp := new DataRecord(Max(rhs.digitsUsed, data.digitsUsed) + SLACK);
      LongAdd(data, rhs, temp);
      Hold(into, temp, numbers[x] + numbers[y]);
    }

    /** operator-: a new handle on a new record. */
    method Difference(into: Name, x: Name, y: Name)
      requires Valid()
      requires into !in handles && x in handles && y in handles
      requires numbers[x] >= numbers[y]
      modifies this, Repr
      ensures Valid() && fresh(Repr - old(Repr))
      ensures numbers == old(numbers)[into := old(numbers)[x] - old(numbers)[y]]
    {
      hide Valid, ValidBut, CountsExact, Sharers, DataRecord.Valid, DataRecord.Val;
      Use(x);
      Use(y);
      var data, rhs := handles[x], handles[y];
      var temp := new DataRecord(data.digitsUsed + SLACK);
      LongSub(data, rhs, temp);
      Hold(into, temp, numbers[x] - numbers[y]);
    }

    /** operator*: a new handle on a new record. */
    method Product(into: Name, x: Name, y: Name)
      requires Valid()
      requires into !in handles && x in handles && y in handles
      modifies this, Repr
      ensures Valid() && fresh(Repr - old(Repr))
      ensures numbers == old(numbers)[into := TimesNat(old(numbers)[x], old(numbers)[y])]
    {
      hide Valid, ValidBut, CountsExact, Sharers, DataRecord.Valid, DataRecord.Val;
      Use(x);
      Use(y);
      var data, rhs := handles[x], handles[y];
      var temp := new DataRecord(data.digitsUsed + rhs.digitsUsed + SLACK);
      LongMul(data, rhs, temp);
      Hold(into, temp, TimesNat(numbers[x], numbers[y]));
    }

    /** operator/: a new handle on a new record. */
    method Quotient(into: Name, x: Name, y: Name)
      requires Valid()
      requires into !in handles && x in handles && y in handles && numbers[y] > 0
      modifies this, Repr
      ensures Valid() && fresh(Repr - old(Repr))
      ensures numbers == old(numbers)[into := DivNat(old(numbers)[x], old(numbers)[y])]
    {
      hide Valid, ValidBut, CountsExact, Sharers, DataRecord.Valid, DataRecord.Val;
      Use(x);
      Use(y);
      var data, rhs := handles[x], handles[y];
      var temp := new DataRecord(data.digitsUsed + SLACK);
      var remainder := new DataRecord(data.digitsUsed + SLACK);
      LongDiv(data, rhs, temp, remainder);
      Hold(into, temp, DivNat(numbers[x], numbers[y]));
    }

    /** operator%: a new handle on a new record. */
    method Remainder(into: Name, x: Name, y: Name)
      requires Valid()
      requires into !in handles && x in handles && y in handles && numbers[y] > 0
      modifies this, Repr
      ensures Valid() && fresh(Repr - old(Repr))
      ensures numbers == old(numbers)[into := ModNat(old(numbers)[x], old(numbers)[y])]
    {
      hide Valid, ValidBut, CountsExact, Sharers, DataRecord.Valid, DataRecord.Val;
      Use(x);
      Use(y);
      var data, rhs := handles[x], handles[y];
      var temp := new DataRecord(data.digitsUsed + SLACK);
      var remainder := new DataRecord(data.digitsUsed + SLACK);
      LongDiv(data, rhs, temp, remainder);
      Hold(into, remainder, ModNat(numbers[x], numbers[y]));
    }

    /** operator+ of a number and a word, in either order. */
    method SumWord(into: Name, x: Name, word: Word)
      requires Valid()
      requires into !in handles && x in handles
      modifies this, Repr
      ensures Valid() && fresh(Repr - old(Repr))
      ensures numbers == old(numbers)[into := old(numbers)[x] + word]
    {
      hide Valid, ValidBut, CountsExact, Sharers, DataRecord.Valid, DataRecord.Val;
      Use(x);
      var data := handles[x];
      var temp := new DataRecord(data.digitsUsed + SLACK);
      ShortAdd(data, word, temp);
      Hold(into, temp, numbers[x] + word);
    }

    /** operator- of a number and a word. */
    method DifferenceWord(into: Name, x: Name, word: Word)
      requires Valid()
      requires into !in handles && x in handles && numbers[x] >= word
      modifies this, Repr
      ensures Valid() && fresh(Repr - old(Repr))
      ensures numbers == old(numbers)[into := old(numbers)[x] - word]
    {
      hide Valid, ValidBut, CountsExact, Sharers, DataRecord.Valid, DataRecord.Val;
      Use(x);
      var data := handles[x];
      var temp := new DataRecord(data.digitsUsed + SLACK);
      ShortSub(data, word, temp);
      Hold(into, temp, numbers[x] - word);
    }

    /** operator* of a number and a word, in either order; zero as for operator*=. */
    method ProductWord(into: Name, x: Name, word: Word)
      requires Valid()
      requires into !in handles && x in handles
      modifies this, Repr
      ensures into in handles && ValidBut(into) && fresh(Repr - old(Repr))
      ensures numbers == old(numbers)[into := TimesNat(old(numbers)[x], word)]
      ensures handles[into].references == 1 && handles[into].Shape() && handles[into].Val() == numbers[into]
      ensures Valid() <==> word != 0 || old(handles[x].digitsUsed) == 1
    {
      hide Valid, ValidBut, CountsExact, Sharers, DataRecord.Valid, DataRecord.Val;
      Use(x);
      var data := handles[x];
      var temp := new DataRecord(data.digitsUsed + SLACK);
      ShortMul(data, word, temp);
      HoldBut(into, temp, TimesNat(numbers[x], word));
      ProperExactly(into);
    }

    /** operator/ of a number and a word. */
    method QuotientWord(into: Name, x: Name, word: Word)
      requires Valid()
      requires into !in handles && x in handles && word != 0
      modifies this, Repr
      ensures Valid() && fresh(Repr - old(Repr))
      ensures numbers == old(numbers)[into := DivNat(old(numbers)[x], word)]
    {
      hide Valid, ValidBut, CountsExact, Sharers, DataRecord.Valid, DataRecord.Val;
      Use(x);
      var data := handles[x];
      var temp := new DataRecord(data.digitsUsed + SLACK);
      var remainder := ShortDiv(data, word, temp);
      Hold(into, temp, DivNat(numbers[x], word));
    }

    /** operator% of a number and a word: the quotient is overwritten by the remainder. */
    method RemainderWord(into: Name, x: Name, word: Word)
      requires Valid()
      requires into !in handles && x in handles && word != 0
      modifies this, Repr
      ensures Valid() && fresh(Repr - old(Repr))
      ensures numbers == old(numbers)[into := ModNat(old(numbers)[x], word)]
    {
      hide Valid, ValidBut, CountsExact, Sharers, DataRecord.Valid, DataRecord.Val;
      Use(x);
      var data := handles[x];
      var temp := new DataRecord(data.digitsUsed + SLACK);
      var remainder := ShortDiv(data, word, temp);
      SetWord(temp, remainder);
      Hold(into, temp, ModNat(numbers[x], word));
    }

    /** operator- of a word and a number that is not larger: only first words are looked at. */
    method WordMinus(into: Name, word: Word, x: Name)
      requires Valid()
      requires into !in handles && x in handles && numbers[x] <= word
      modifies this, Repr
      ensures Valid() && fresh(Repr - old(Repr))
      ensures numbers == old(numbers)[into := word - old(numbers)[x]]
    {
      hide Valid, ValidBut, CountsExact, Sharers, DataRecord.Valid, DataRecord.Val;
      FirstWord(x);
      Use(x);
      var data := handles[x];
      var answer: Word := word - data.number[0];
      var temp := new DataRecord(SLACK);
      SetWord(temp, answer);
      Hold(into, temp, answer);
    }

    /** operator/ of a word and a number: zero unless the number has one word. */
    method WordOver(into: Name, word: Word, x: Name)
      requires Valid()
      requires into !in handles && x in handles && numbers[x] != 0
      modifies this, Repr
      ensures Valid() && fresh(Repr - old(Repr))
      ensures numbers == old(numbers)[into := DivNat(word, old(numbers)[x])]
    {
      hide Valid, ValidBut, CountsExact, Sharers, DataRecord.Valid, DataRecord.Val;
      FirstWord(x);
      Use(x);
      var data := handles[x];
      SmallOver(word, numbers[x]);
      var answer: Word := 0;
      if data.digitsUsed == 1 {
        answer := DivNat(word, data.number[0]);
      }
      var temp := new DataRecord(SLACK);
      SetWord(temp, answer);
      Hold(into, temp, answer);
    }

    /** operator% of a word and a number: the word itself unless the number has one word. */
    method WordModulo(into: Name, word: Word, x: Name)
      requires Valid()
      requires into !in handles && x in handles && numbers[x] != 0
      modifies this, Repr
      ensures Valid() && fresh(Repr - old(Repr))
      ensures numbers == old(numbers)[into := ModNat(word, old(numbers)[x])]
    {
      hide Valid, ValidBut, CountsExact, Sharers, DataRecord.Valid, DataRecord.Val;
      FirstWord(x);
      Use(x);
      var data := handles[x];
      SmallOver(word, numbers[x]);
      var answer: Word := word;
      if data.digitsUsed == 1 {
        answer := ModNat(word, data.number[0]);
      }
      var temp := new DataRecord(SLACK);
      SetWord(temp, answer);
      Hold(into, temp, answer);
    }

    /** The default constructor, and the one from a 32-bit value. */
    method Make(into: Name, value: nat)
      requires Valid()
      requires into !in handles && value < 0x1_0000_0000
      modifies this, Repr
      ensures Valid() && fresh(Repr - old(Repr))
      ensures numbers == old(numbers)[into := value]
    {
      hide Valid, ValidBut, CountsExact, Sharers, DataRecord.Valid, DataRecord.Val;
      var data := new DataRecord(SLACK);
      SetTwoWords(data, value);
      Hold(into, data, value);
    }

    /** The copy constructor: the new handle shares the record. */
    method CopyHandle(into: Name, x: Name)
      requires Valid()
      requires into !in handles && x in handles
      modifies this, Repr
      ensures Valid() && fresh(Repr - old(Repr))
      ensures numbers == old(numbers)[into := old(numbers)[x]]
    {
      Share(into, x);
    }

    /** The destructor. */
    method Destroy(x: Name)
      requires Valid()
      requires x in handles
      modifies this, Repr
      ensures Valid() && fresh(Repr - old(Repr))
      ensures numbers == old(numbers) - {x}
    {
      LetGo(x);
    }

    /** operator=: assignment to itself does nothing. */
    method Assign(x: Name, y: Name)
      requires Valid()
      requires x in handles && y in handles
      modifies this, Repr
      ensures Valid() && fresh(Repr - old(Repr))
      ensures numbers == old(numbers)[x := old(numbers)[y]]
    {
      hide Valid, ValidBut, CountsExact, Sharers, DataRecord.Valid, DataRecord.Val;
      if x == y {
        Use(x);
        return;
      }
      Use(x);
      Use(y);
      RemoveAndAdd(numbers, x, numbers[y]);
      LetGo(x);
      Share(x, y);
    }

    /** operator= from one word: in place when the record is not shared. */
    method AssignShort(x: Name, value: Word)
      requires Valid()
      requires x in handles
      modifies this, Repr
      ensures Valid() && fresh(Repr - old(Repr))
      ensures numbers == old(numbers)[x := value]
    {
      hide Valid, ValidBut, CountsExact, Sharers, DataRecord.Valid, DataRecord.Val;
      Use(x);
      var data := handles[x];
      if data.references != 1 {
        var temp := new DataRecord(SLACK);
        SetWord(temp, value);
        Install(x, temp, value);
        return;
      }
      BeginChange(x, value);
      SetWord(data, value);
      EndChange(x);
    }
  }

  function Max(a: nat, b: nat): nat { if a < b then b else a }

  lemma SmallOver(word: Word, b: nat)
    requires b != 0
    ensures b >= BASE ==> DivNat(word, b) == 0 && ModNat(word, b) == word
    ensures 0 <= DivNat(word, b) <= word && 0 <= ModNat(word, b) <= word
  {
    if b >= BASE { assert word == 0 * b + word; }
  }

  lemma MoveAndAdd(m: map<Name, nat>, into: Name, x: Name, v: nat)
    requires x in m
    ensures (m - {x})[into := m[x]][x := v] == m[into := m[x]][x := v]
  {}

  lemma RemoveAndAdd(m: map<Name, nat>, x: Name, v: nat)
    requires x in m
    ensures (m - {x})[x := v] == m[x := v]
  {}

  /** digits_used = 1 and the word itself: what operator= and operator%= with one word write. */
  method SetWord(data: DataRecord, value: Word)
    requires data.Shape()
    modifies data`digitsUsed, data.number
    ensures data.Valid() && data.Val() == value
  {
    data.digitsUsed := 1;
    data.number[0] := value;
    assert data.Digits() == [value];
    ValueSingle(value);
  }

  /** The words of a 32-bit value; the second counts only if it is not zero. */
  method SetTwoWords(data: DataRecord, value: nat)
    requires data.Shape() && data.size >= 2 && data.digitsUsed == 1 && value < 0x1_0000_0000
    modifies data`digitsUsed, data.number
    ensures data.Valid() && data.Val() == value
  {
    data.number[0] := value % BASE;
    data.number[1] := value / BASE;
    if data.number[1] != 0 {
      data.digitsUsed := 2;
      assert data.Digits() == [value % BASE] + [value / BASE];
      ValueSnoc([value % BASE], value / BASE);
      assert Power(1) == BASE * Power(0);
    } else {
      assert data.Digits() == [value % BASE];
    }
    ValueSingle(value % BASE);
  }

  lemma SwapCounts(handles: map<Name, DataRecord>, counts: map<DataRecord, nat>, x: Name, y: Name)
    requires CountsExact(handles, counts) && x in handles && y in handles
    ensures CountsExact(handles[x := handles[y]][y := handles[x]], counts)
    ensures handles[x := handles[y]][y := handles[x]].Values == handles.Values
  {
    hide Sharers;
    var next := handles[x := handles[y]][y := handles[x]];
    forall r | r in handles.Values ensures r in next.Values && |Sharers(next, r)| == |Sharers(handles, r)| {
      var z :| z in handles && handles[z] == r;
      assert next[if z == x then y else if z == y then x else z] == r;
      SwapSharers(handles, x, y, r);
    }
  }

  lemma SwapSharers(handles: map<Name, DataRecord>, x: Name, y: Name, r: DataRecord)
    requires x in handles && y in handles
    ensures |Sharers(handles[x := handles[y]][y := handles[x]], r)| == |Sharers(handles, r)|
  {
    hide Sharers;
    var s := Sharers(handles, r);
    SharersMember(handles, x, r);
    SharersMember(handles, y, r);
    SharersUpdate(handles, x, handles[y], r);
    SharersUpdate(handles[x := handles[y]], y, handles[x], r);
    if r == handles[x] && r == handles[y] {
      assert (s + {x}) + {y} == s;
    } else if r == handles[x] {
      Exchange(s, x, y);
    } else if r == handles[y] {
      assert s + {x} - {y} == s - {y} + {x};
      Exchange(s, y, x);
    } else {
      assert (s - {x}) - {y} == s;
    }
  }

  lemma Exchange(s: set<Name>, out: Name, into: Name)
    requires out in s && into !in s
    ensures |s - {out} + {into}| == |s|
  {
    assert |s - {out}| == |s| - 1;
    assert into !in s - {out};
  }

  lemma SharersMember(handles: map<Name, DataRecord>, x: Name, r: DataRecord)
    requires x in handles
    ensures x in Sharers(handles, r) <==> handles[x] == r
  {}

  lemma RenameCounts(handles: map<Name, DataRecord>, counts: map<DataRecord, nat>, into: Name, x: Name)
    requires CountsExact(handles, counts) && x in handles && into !in handles
    ensures CountsExact((handles - {x})[into := handles[x]], counts)
    ensures (handles - {x})[into := handles[x]].Values == handles.Values
  {
    hide Sharers;
    var next := (handles - {x})[into := handles[x]];
    forall r | r in handles.Values ensures r in next.Values && |Sharers(next, r)| == |Sharers(handles, r)| {
      var z :| z in handles && handles[z] == r;
      assert next[if z == x then into else z] == r;
      RenameSharers(handles, into, x, r);
    }
  }

  lemma RenameSharers(handles: map<Name, DataRecord>, into: Name, x: Name, r: DataRecord)
    requires x in handles && into !in handles
    ensures |Sharers((handles - {x})[into := handles[x]], r)| == |Sharers(handles, r)|
  {
    var s, t := Sharers(handles, r), Sharers((handles - {x})[into := handles[x]], r);
    if r == handles[x] {
      assert t == s - {x} + {into};
      Exchange(s, x, into);
    } else {
      assert t == s;
    }
  }
}

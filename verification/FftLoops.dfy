/** The butterfly loops of `fft` and `ifft`, which work in place on one array. */
module FftLoops {
  import opened Complex
  import opened FftSpec

  // ---- what is left to do, and what one pass over the array does ------------------------

  /** The forward transform of every block of s elements. */
  function ForwardBlocks(d: seq<Ct>, s: nat, w: Ct): (r: seq<Ct>)
    requires PowerOfTwo(s)
    ensures |r| == |d|
  {
    if |d| < s then d else Forward(d[..s], w) + ForwardBlocks(d[s..], s, w)
  }

  /** One pass of forward butterflies over blocks of 2 * s elements. */
  function ForwardPass(d: seq<Ct>, s: nat, w: Ct): (r: seq<Ct>)
    requires s > 0
    ensures |r| == |d|
  {
    if |d| < 2 * s then d
    else Sums(d[..2 * s]) + TwistedDifferences(d[..2 * s], w) + ForwardPass(d[2 * s..], s, w)
  }

  function InverseBlocks(d: seq<Ct>, s: nat, v: Ct): (r: seq<Ct>)
    requires PowerOfTwo(s)
    ensures |r| == |d|
  {
    if |d| < s then d else Inverse(d[..s], v) + InverseBlocks(d[s..], s, v)
  }

  function InversePass(d: seq<Ct>, s: nat, v: Ct): (r: seq<Ct>)
    requires s > 0
    ensures |r| == |d|
  {
    if |d| < 2 * s then d
    else Merge(d[..s], d[s..2 * s], v) + InversePass(d[2 * s..], s, v)
  }

  lemma MulMonotone(a: nat, b: nat, c: nat)
    requires a <= b
    ensures 0 <= a * c <= b * c
  {}

  lemma MulPred(a: nat, b: nat)
    requires a > 0
    ensures a * b == (a - 1) * b + b && (a - 1) * b >= 0
  {}

  lemma Doubling(s: nat)
    requires PowerOfTwo(s)
    ensures PowerOfTwo(2 * s)
  {
    assert 2 * s % 2 == 0 && 2 * s / 2 == s;
  }

  /** A pass leaves blocks half as long, to be transformed with the square of the root. */
  lemma {:induction false} ForwardPassRefines(d: seq<Ct>, s: nat, w: Ct, blocks: nat)
    requires PowerOfTwo(s) && |d| == blocks * (2 * s)
    ensures PowerOfTwo(2 * s)
    ensures ForwardBlocks(ForwardPass(d, s, w), s, Mul(w, w)) == ForwardBlocks(d, 2 * s, w)
  {
    hide Mul, Add, Sub, Pow, Forward, Sums, TwistedDifferences;
    Doubling(s);
    if blocks == 0 {
      assert |d| == 0;
    } else {
      MulPred(blocks, 2 * s);
      var block, rest := d[..2 * s], d[2 * s..];
      ForwardPassRefines(rest, s, w, blocks - 1);
      ForwardBlocksTwo(Sums(block), TwistedDifferences(block, w), ForwardPass(rest, s, w), s, Mul(w, w));
      ForwardUnfold(block, w);
    }
  }

  lemma ForwardBlocksTwo(low: seq<Ct>, high: seq<Ct>, next: seq<Ct>, s: nat, w: Ct)
    requires PowerOfTwo(s) && |low| == |high| == s
    ensures ForwardBlocks(low + high + next, s, w)
         == Forward(low, w) + Forward(high, w) + ForwardBlocks(next, s, w)
  {
    var all := low + high + next;
    assert all[..s] == low && all[s..] == high + next;
    assert (high + next)[..s] == high && (high + next)[s..] == next;
  }

  lemma {:induction false} InversePassRefines(d: seq<Ct>, s: nat, v: Ct, blocks: nat)
    requires PowerOfTwo(s) && |d| == blocks * (2 * s)
    ensures PowerOfTwo(2 * s)
    ensures InversePass(InverseBlocks(d, s, Mul(v, v)), s, v) == InverseBlocks(d, 2 * s, v)
  {
    hide Mul, Add, Sub, Pow, Merge, Inverse;
    Doubling(s);
    if blocks == 0 {
      assert |d| == 0;
    } else {
      MulPred(blocks, 2 * s);
      var block, rest := d[..2 * s], d[2 * s..];
      InversePassRefines(rest, s, v, blocks - 1);
      var v2 := Mul(v, v);
      InverseBlocksTwo(d, s, v2);
      InversePassTwo(Inverse(block[..s], v2), Inverse(block[s..], v2), InverseBlocks(rest, s, v2), s, v);
      InverseUnfold(block, v);
    }
  }

  lemma InversePassTwo(lo: seq<Ct>, hi: seq<Ct>, next: seq<Ct>, s: nat, v: Ct)
    requires s > 0 && |lo| == |hi| == s
    ensures InversePass(lo + hi + next, s, v) == Merge(lo, hi, v) + InversePass(next, s, v)
  {
    hide Merge;
    var all := lo + hi + next;
    assert all[..s] == lo && all[s..2 * s] == hi && all[2 * s..] == next;
  }

  lemma InverseBlocksTwo(d: seq<Ct>, s: nat, v: Ct)
    requires PowerOfTwo(s) && |d| >= 2 * s
    ensures InverseBlocks(d, s, v)
         == Inverse(d[..2 * s][..s], v) + Inverse(d[..2 * s][s..], v) + InverseBlocks(d[2 * s..], s, v)
  {
    assert d[..s] == d[..2 * s][..s] && d[s..][..s] == d[..2 * s][s..] && d[s..][s..] == d[2 * s..];
  }

  lemma {:induction false} SingletonBlocks(d: seq<Ct>, w: Ct)
    ensures ForwardBlocks(d, 1, w) == d == InverseBlocks(d, 1, w)
  {
    if d != [] {
      SingletonBlocks(d[1..], w);
    }
  }

  lemma OneBlock(d: seq<Ct>, w: Ct)
    requires PowerOfTwo(|d|)
    ensures ForwardBlocks(d, |d|, w) == Forward(d, w)
    ensures InverseBlocks(d, |d|, w) == Inverse(d, w)
  {
    assert d[..|d|] == d;
  }

  // ---- the loops -------------------------------------------------------------------------

  method TwiddleFactors(half: nat, w: Ct) returns (tw: array<Ct>)
    ensures fresh(tw) && tw.Length == half
    ensures forall j :: 0 <= j < half ==> tw[j] == Pow(w, j)
  {
    hide Mul;
    tw := new Ct[half];
    var wPow := ONE;
    var j := 0;
    while j < half
      invariant 0 <= j <= half && wPow == Pow(w, j)
      invariant forall i :: 0 <= i < j ==> tw[i] == Pow(w, i)
    {
      tw[j] := wPow;
      MulComm(wPow, w);
      wPow := Mul(wPow, w);
      j := j + 1;
    }
  }

  /** The table holds the powers of w, and enough of them for this pass. */
  ghost predicate TwiddleTable(tw: seq<Ct>, w: Ct, step: nat, skip: nat) {
    step > 0 && (step - 1) * skip < |tw| && forall i :: 0 <= i < |tw| ==> tw[i] == Pow(w, i)
  }

  lemma TwiddleAt(tw: seq<Ct>, w: Ct, step: nat, skip: nat, k: nat)
    requires TwiddleTable(tw, w, step, skip) && k < step
    ensures 0 <= k * skip < |tw| && tw[k * skip] == Pow(Pow(w, skip), k)
  {
    hide Mul, Pow;
    MulMonotone(k, step - 1, skip);
    PowPow(w, skip, k);
    assert skip * k == k * skip;
  }

  /** What stands at p after k butterflies of the block that starts at j. */
  function ForwardAt(was: seq<Ct>, j: nat, step: nat, ws: Ct, k: nat, p: nat): Ct
    requires p < |was| && j + 2 * step <= |was| && k <= step
  {
    if j <= p < j + k then Add(was[p], was[p + step])
    else if j + step <= p < j + step + k then Mul(Sub(was[p - step], was[p]), Pow(ws, p - step - j))
    else was[p]
  }

  /** The array after k butterflies of the block at j, when it held `was` before them. */
  ghost predicate ForwardSoFar(was: seq<Ct>, now: seq<Ct>, j: nat, step: nat, ws: Ct, k: nat) {
    && |was| == |now| && j + 2 * step <= |was| && k <= step
    && forall p :: 0 <= p < |now| ==> now[p] == ForwardAt(was, j, step, ws, k, p)
  }

  lemma ForwardSoFarStart(was: seq<Ct>, j: nat, step: nat, ws: Ct)
    requires j + 2 * step <= |was|
    ensures ForwardSoFar(was, was, j, step, ws, 0)
  {}

  lemma ForwardSoFarStep(was: seq<Ct>, now: seq<Ct>, j: nat, step: nat, ws: Ct, k: nat)
    requires k < step && ForwardSoFar(was, now, j, step, ws, k)
    ensures
      var a := Add(now[j + k], now[j + k + step]);
      var b := Mul(Sub(now[j + k], now[j + k + step]), Pow(ws, k));
      ForwardSoFar(was, now[j + k := a][j + k + step := b], j, step, ws, k + 1)
  {
    hide Mul, Add, Sub, Pow;
  }

  lemma ForwardSoFarDone(was: seq<Ct>, now: seq<Ct>, j: nat, step: nat, ws: Ct)
    requires ForwardSoFar(was, now, j, step, ws, step)
    ensures now[..j] == was[..j] && now[j + 2 * step..] == was[j + 2 * step..]
    ensures now[j..j + 2 * step]
         == Sums(was[j..j + 2 * step]) + TwistedDifferences(was[j..j + 2 * step], ws)
  {
    hide Mul, Add, Sub, Pow;
    var block := Sums(was[j..j + 2 * step]) + TwistedDifferences(was[j..j + 2 * step], ws);
    forall k | 0 <= k < 2 * step ensures now[j + k] == block[k] {
      assert now[j + k] == ForwardAt(was, j, step, ws, step, j + k);
    }
  }

  /** The step butterflies of the block that starts at j. */
  method ForwardButterflies(data: array<Ct>, j: nat, step: nat, skip: nat, tw: array<Ct>, ghost w: Ct)
    requires j + 2 * step <= data.Length && data != tw
    requires TwiddleTable(tw[..], w, step, skip)
    modifies data
    ensures data[..j] == old(data[..j]) && data[j + 2 * step..] == old(data[j + 2 * step..])
    ensures data[j..j + 2 * step]
         == Sums(old(data[j..j + 2 * step])) + TwistedDifferences(old(data[j..j + 2 * step]), Pow(w, skip))
  {
    hide Mul, Add, Sub, Pow, ForwardSoFar, TwiddleTable, Sums, TwistedDifferences;
    ghost var was := data[..];
    ghost var ws := Pow(w, skip);
    ForwardSoFarStart(was, j, step, ws);
    var k := 0;
    while k < step
      invariant 0 <= k <= step && tw[..] == old(tw[..])
      invariant ForwardSoFar(was, data[..], j, step, ws, k)
    {
      TwiddleAt(tw[..], w, step, skip, k);
      ForwardSoFarStep(was, data[..], j, step, ws, k);
      var aIdx := j + k;
      var bIdx := j + k + step;
      var a := Add(data[aIdx], data[bIdx]);
      var b := Mul(Sub(data[aIdx], data[bIdx]), tw[k * skip]);
      data[aIdx] := a;
      data[bIdx] := b;
      k := k + 1;
    }
    ForwardSoFarDone(was, data[..], j, step, ws);
    assert was[j..j + 2 * step] == old(data[j..j + 2 * step]);
  }

  /** One pass: the butterflies of every block, left to right. */
  method ForwardOnePass(data: array<Ct>, step: nat, skip: nat, tw: array<Ct>, ghost w: Ct, ghost blocks: nat)
    requires data.Length == blocks * (2 * step) && data != tw
    requires TwiddleTable(tw[..], w, step, skip)
    modifies data
    ensures data[..] == ForwardPass(old(data[..]), step, Pow(w, skip))
  {
    hide Mul, Add, Sub, Pow, Sums, TwistedDifferences, ForwardPass, BlockStart;
    ghost var was := data[..];
    ghost var ws := Pow(w, skip);
    ghost var size := 2 * step;
    var j := 0;
    FirstBlock(size, data.Length, blocks);
    while j < data.Length
      invariant BlockStart(j, size, data.Length) && j <= data.Length && tw[..] == old(tw[..])
      invariant data[j..] == was[j..]
      invariant ForwardPass(was, step, ws) == data[..j] + ForwardPass(was[j..], step, ws)
    {
      NextBlock(j, size, data.Length);
      ghost var before := data[..];
      ForwardButterflies(data, j, step, skip, tw, w);
      ForwardPassNext(was, before, data[..], j, step, ws);
      j := j + step * 2;
    }
    ForwardPassEmpty(was[j..], step, ws);
    assert data[..j] == data[..];
  }

  lemma ForwardPassEmpty(d: seq<Ct>, step: nat, ws: Ct)
    requires step > 0 && d == []
    ensures ForwardPass(d, step, ws) == []
  {}

  ghost predicate BlockStart(j: nat, size: nat, len: nat) {
    j <= len && exists left: nat :: len - j == left * size
  }

  lemma FirstBlock(size: nat, len: nat, blocks: nat)
    requires len == blocks * size
    ensures BlockStart(0, size, len)
  {
    assert len - 0 == blocks * size;
  }

  lemma NextBlock(j: nat, size: nat, len: nat)
    requires BlockStart(j, size, len) && j < len
    ensures j + size <= len && BlockStart(j + size, size, len)
  {
    var left: nat :| len - j == left * size;
    MulPred(left, size);
    assert len - (j + size) == (left - 1) * size;
  }

  lemma SameSlice(was: seq<Ct>, now: seq<Ct>, j: nat, size: nat)
    requires j + size <= |was| == |now| && was[j..] == now[j..]
    ensures was[j..j + size] == now[j..j + size] && was[j + size..] == now[j + size..]
  {
    assert was[j + size..] == was[j..][size..] && now[j + size..] == now[j..][size..];
    assert was[j..j + size] == was[j..][..size];
    assert now[j..j + size] == now[j..][..size];
  }

  lemma ForwardPassNext(was: seq<Ct>, before: seq<Ct>, now: seq<Ct>, j: nat, step: nat, ws: Ct)
    requires step > 0 && j + 2 * step <= |was| == |now| == |before| && before[..j] == now[..j]
    requires was[j..] == before[j..] && now[j + 2 * step..] == before[j + 2 * step..]
    requires now[j..j + 2 * step]
         == Sums(before[j..j + 2 * step]) + TwistedDifferences(before[j..j + 2 * step], ws)
    ensures now[j + 2 * step..] == was[j + 2 * step..]
    ensures before[..j] + ForwardPass(was[j..], step, ws)
         == now[..j + 2 * step] + ForwardPass(was[j + 2 * step..], step, ws)
  {
    hide Mul, Add, Sub, Pow, Sums, TwistedDifferences;
    SameSlice(was, before, j, 2 * step);
    var rest := was[j..];
    assert rest[..2 * step] == was[j..j + 2 * step] && rest[2 * step..] == was[j + 2 * step..];
    assert now[..j + 2 * step] == now[..j] + now[j..j + 2 * step];
  }

  /** `fft`: the in-place decimation in frequency. */
  method Fft(data: array<Ct>, w: Ct)
    requires PowerOfTwo(data.Length)
    modifies data
    ensures data[..] == Forward(old(data[..]), w)
  {
    hide Mul, Add, Sub, Pow, Forward, ForwardBlocks, ForwardPass, PowerOfTwo;
    var len := data.Length;
    var half := len / 2;
    var tw := TwiddleFactors(half, w);
    var skip := 1;
    var step := half;
    OneBlock(data[..], w);
    PowIsOne(w);
    ghost var size: nat := len;
    while step != 0
      invariant PowerOfTwo(size) && step == size / 2 && data.Length == skip * size && skip > 0
      invariant tw.Length == half && tw != data && forall j :: 0 <= j < half ==> tw[j] == Pow(w, j)
      invariant ForwardBlocks(data[..], size, Pow(w, skip)) == Forward(old(data[..]), w)
      decreases step
    {
      TableReaches(len, size, step, skip);
      ForwardStep(data[..], step, skip, w);
      ForwardOnePass(data, step, skip, tw, w, skip);
      skip := skip * 2;
      size := step;
      step := step / 2;
    }
    LastBlocks(size);
    SingletonBlocks(data[..], Pow(w, skip));
  }

  lemma ForwardStep(d: seq<Ct>, step: nat, skip: nat, w: Ct)
    requires PowerOfTwo(step) && |d| == skip * (2 * step)
    ensures PowerOfTwo(2 * step)
    ensures ForwardBlocks(ForwardPass(d, step, Pow(w, skip)), step, Pow(w, skip * 2))
         == ForwardBlocks(d, 2 * step, Pow(w, skip))
  {
    hide Mul, Pow, ForwardBlocks, ForwardPass, PowerOfTwo;
    ForwardPassRefines(d, step, Pow(w, skip), skip);
    PowAdd(w, skip, skip);
  }

  lemma LastBlocks(size: nat)
    requires PowerOfTwo(size) && size / 2 == 0
    ensures size == 1
  {}

  lemma PowIsOne(w: Ct)
    ensures Pow(w, 1) == w
  {
    assert Pow(w, 1) == Mul(w, Pow(w, 0));
    MulOne(w);
  }

  lemma TableReaches(len: nat, size: nat, step: nat, skip: nat)
    requires PowerOfTwo(size) && step == size / 2 && len == skip * size && step > 0 && skip > 0
    ensures size == 2 * step && PowerOfTwo(step)
    ensures (step - 1) * skip < len / 2 && len == (skip * 2) * step
  {
    RootProduct(2 * skip, skip, step);
    TableColumn(step, skip);
  }

  // ---- the inverse loops ------------------------------------------------------------------

  /** What stands at p after k inverse butterflies of the block that starts at j. */
  function InverseAt(was: seq<Ct>, j: nat, step: nat, vs: Ct, k: nat, p: nat): Ct
    requires p < |was| && j + 2 * step <= |was| && k <= step
  {
    if j <= p < j + k then Add(was[p], Mul(was[p + step], Pow(vs, p - j)))
    else if j + step <= p < j + step + k then Sub(was[p - step], Mul(was[p], Pow(vs, p - step - j)))
    else was[p]
  }

  /** The array after k inverse butterflies of the block at j, when it held `was` before them. */
  ghost predicate InverseSoFar(was: seq<Ct>, now: seq<Ct>, j: nat, step: nat, vs: Ct, k: nat) {
    && |was| == |now| && j + 2 * step <= |was| && k <= step
    && forall p :: 0 <= p < |now| ==> now[p] == InverseAt(was, j, step, vs, k, p)
  }

  lemma InverseSoFarStart(was: seq<Ct>, j: nat, step: nat, vs: Ct)
    requires j + 2 * step <= |was|
    ensures InverseSoFar(was, was, j, step, vs, 0)
  {}

  lemma InverseSoFarStep(was: seq<Ct>, now: seq<Ct>, j: nat, step: nat, vs: Ct, k: nat)
    requires k < step && InverseSoFar(was, now, j, step, vs, k)
    ensures
      var turned := Mul(now[j + k + step], Pow(vs, k));
      InverseSoFar(was, now[j + k := Add(now[j + k], turned)][j + k + step := Sub(now[j + k], turned)],
                   j, step, vs, k + 1)
  {
    hide Mul, Add, Sub, Pow;
  }

  lemma InverseSoFarDone(was: seq<Ct>, now: seq<Ct>, j: nat, step: nat, vs: Ct)
    requires InverseSoFar(was, now, j, step, vs, step)
    ensures now[..j] == was[..j] && now[j + 2 * step..] == was[j + 2 * step..]
    ensures now[j..j + 2 * step] == Merge(was[j..j + step], was[j + step..j + 2 * step], vs)
  {
    hide Mul, Add, Sub, Pow;
    var merged := Merge(was[j..j + step], was[j + step..j + 2 * step], vs);
    forall k | 0 <= k < 2 * step ensures now[j + k] == merged[k] {
      assert now[j + k] == InverseAt(was, j, step, vs, step, j + k);
    }
  }

  method InverseButterflies(data: array<Ct>, j: nat, step: nat, skip: nat, tw: array<Ct>, ghost v: Ct)
    requires j + 2 * step <= data.Length && data != tw
    requires TwiddleTable(tw[..], v, step, skip)
    modifies data
    ensures data[..j] == old(data[..j]) && data[j + 2 * step..] == old(data[j + 2 * step..])
    ensures data[j..j + 2 * step]
         == Merge(old(data[j..j + step]), old(data[j + step..j + 2 * step]), Pow(v, skip))
  {
    hide Mul, Add, Sub, Pow, InverseSoFar, TwiddleTable, Merge;
    ghost var was := data[..];
    ghost var vs := Pow(v, skip);
    InverseSoFarStart(was, j, step, vs);
    var k := 0;
    while k < step
      invariant 0 <= k <= step && tw[..] == old(tw[..])
      invariant InverseSoFar(was, data[..], j, step, vs, k)
    {
      TwiddleAt(tw[..], v, step, skip, k);
      InverseSoFarStep(was, data[..], j, step, vs, k);
      ghost var before := data[..];
      var aIdx := j + k;
      var bIdx := j + k + step;
      data[bIdx] := Mul(data[bIdx], tw[k * skip]);
      var a := Add(data[aIdx], data[bIdx]);
      var b := Sub(data[aIdx], data[bIdx]);
      data[aIdx] := a;
      data[bIdx] := b;
      assert data[..] == before[aIdx := a][bIdx := b];
      k := k + 1;
    }
    InverseSoFarDone(was, data[..], j, step, vs);
    assert was[j..j + step] == old(data[j..j + step]);
    assert was[j + step..j + 2 * step] == old(data[j + step..j + 2 * step]);
  }

  method InverseOnePass(data: array<Ct>, step: nat, skip: nat, tw: array<Ct>, ghost v: Ct, ghost blocks: nat)
    requires data.Length == blocks * (2 * step) && data != tw
    requires TwiddleTable(tw[..], v, step, skip)
    modifies data
    ensures data[..] == InversePass(old(data[..]), step, Pow(v, skip))
  {
    hide Mul, Add, Sub, Pow, Merge, InversePass, BlockStart;
    ghost var was := data[..];
    ghost var vs := Pow(v, skip);
    ghost var size := 2 * step;
    var j := 0;
    FirstBlock(size, data.Length, blocks);
    while j < data.Length
      invariant BlockStart(j, size, data.Length) && j <= data.Length && tw[..] == old(tw[..])
      invariant data[j..] == was[j..]
      invariant InversePass(was, step, vs) == data[..j] + InversePass(was[j..], step, vs)
    {
      NextBlock(j, size, data.Length);
      ghost var before := data[..];
      InverseButterflies(data, j, step, skip, tw, v);
      InversePassNext(was, before, data[..], j, step, vs);
      j := j + step * 2;
    }
    InversePassEmpty(was[j..], step, vs);
    assert data[..j] == data[..];
  }

  lemma InversePassEmpty(d: seq<Ct>, step: nat, vs: Ct)
    requires step > 0 && d == []
    ensures InversePass(d, step, vs) == []
  {}

  lemma InversePassNext(was: seq<Ct>, before: seq<Ct>, now: seq<Ct>, j: nat, step: nat, vs: Ct)
    requires step > 0 && j + 2 * step <= |was| == |now| == |before| && before[..j] == now[..j]
    requires was[j..] == before[j..] && now[j + 2 * step..] == before[j + 2 * step..]
    requires now[j..j + 2 * step] == Merge(before[j..j + step], before[j + step..j + 2 * step], vs)
    ensures now[j + 2 * step..] == was[j + 2 * step..]
    ensures before[..j] + InversePass(was[j..], step, vs)
         == now[..j + 2 * step] + InversePass(was[j + 2 * step..], step, vs)
  {
    hide Mul, Add, Sub, Pow, Merge, InversePass;
    InversePassBlock(was[j..], step, vs);
    SameSlice(was, before, j, 2 * step);
    SliceOfRest(before, j, 0, step);
    SliceOfRest(before, j, step, 2 * step);
    SliceOfRest(was, j, 2 * step, |was| - j);
    assert now[..j + 2 * step] == now[..j] + now[j..j + 2 * step];
  }

  lemma InversePassBlock(d: seq<Ct>, step: nat, vs: Ct)
    requires 0 < 2 * step <= |d|
    ensures InversePass(d, step, vs) == Merge(d[..step], d[step..2 * step], vs) + InversePass(d[2 * step..], step, vs)
  {}

  lemma SliceOfRest(d: seq<Ct>, j: nat, m: nat, n: nat)
    requires m <= n && j + n <= |d|
    ensures d[j..][m..n] == d[j + m..j + n]
    ensures j + n == |d| ==> d[j..][m..] == d[j + m..]
  {}

  /** `ifft`: the same butterflies undone, smallest blocks first, without the scale 1/len. */
  method Ifft(data: array<Ct>, v: Ct)
    requires PowerOfTwo(data.Length)
    modifies data
    ensures data[..] == Inverse(old(data[..]), v)
  {
    hide Mul, Add, Sub, Pow, Inverse, InverseBlocks, InversePass, PowerOfTwo;
    var len := data.Length;
    var half := len / 2;
    var tw := TwiddleFactors(half, v);
    ghost var was := data[..];
    SingletonBlocks(was, Pow(v, len));
    var skip := half;
    var step: nat := 1;
    ghost var root: nat := len;
    PowerOfTwoOne();
    while step <= half
      invariant PowerOfTwo(root) && PowerOfTwo(step) && skip == root / 2 && len == root * step
      invariant tw.Length == half && tw != data && forall j :: 0 <= j < half ==> tw[j] == Pow(v, j)
      invariant data[..] == InverseBlocks(was, step, Pow(v, root))
      decreases root
    {
      RootLeft(len, root, step, skip);
      InverseStep(was, step, skip, v);
      InverseOnePass(data, step, skip, tw, v, skip);
      root := skip;
      skip := skip / 2;
      step := step * 2;
    }
    RootSpent(len, root, step);
    OneBlock(was, Pow(v, 1));
    PowIsOne(v);
  }

  lemma PowerOfTwoOne()
    ensures PowerOfTwo(1)
  {}

  lemma InverseStep(d: seq<Ct>, step: nat, skip: nat, v: Ct)
    requires PowerOfTwo(step) && |d| == skip * (2 * step)
    ensures PowerOfTwo(2 * step)
    ensures InversePass(InverseBlocks(d, step, Pow(v, skip + skip)), step, Pow(v, skip))
         == InverseBlocks(d, 2 * step, Pow(v, skip))
  {
    hide Mul, Pow, InverseBlocks, InversePass, PowerOfTwo;
    InversePassRefines(d, step, Pow(v, skip), skip);
    PowAdd(v, skip, skip);
  }

  lemma RootLeft(len: nat, root: nat, step: nat, skip: nat)
    requires PowerOfTwo(root) && PowerOfTwo(step) && len == root * step && skip == root / 2
    requires step <= len / 2
    ensures root == skip + skip && PowerOfTwo(skip) && skip < root
    ensures len == skip * (2 * step) && (step - 1) * skip < len / 2
  {
    assert root != 1;
    RootProduct(root, skip, step);
    TableColumn(step, skip);
  }

  lemma RootProduct(root: nat, skip: nat, step: nat)
    requires root == 2 * skip
    ensures root * step == skip * (2 * step) == 2 * (skip * step)
  {}

  lemma TableColumn(step: nat, skip: nat)
    requires step > 0
    ensures skip * step == (step - 1) * skip + skip
  {}

  lemma RootSpent(len: nat, root: nat, step: nat)
    requires PowerOfTwo(root) && len == root * step && step > len / 2 && PowerOfTwo(step)
    ensures root == 1 && step == len
  {
    if root > 1 {
      MulMonotone(2, root, step);
    }
  }
}

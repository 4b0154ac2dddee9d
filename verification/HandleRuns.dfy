/** Whole runs of operators on a pool of handles, against an interpreter on plain numbers. */
module HandleRuns {
  import opened Basics
  import opened Digits
  import opened Records
  import opened Handles

  datatype Command =
    | Make(into: Name, value: nat)
    | Copy(into: Name, x: Name)
    | Destroy(x: Name)
    | Assign(x: Name, y: Name)
    | AssignWord(x: Name, word: Word)
    | Swap(x: Name, y: Name)
    | Compound(op: Operator, x: Name, y: Name)
    | CompoundWord(op: Operator, x: Name, word: Word)
    | Binary(op: Operator, into: Name, x: Name, y: Name)
    | BinaryWord(op: Operator, into: Name, x: Name, word: Word)
    | WordBinary(op: Operator, into: Name, word: Word, x: Name)
    | PreIncrement(x: Name)
    | PreDecrement(x: Name)
    | PostIncrement(into: Name, x: Name)
    | PostDecrement(into: Name, x: Name)

  datatype Operator = Plus | Minus | Times | Over | Modulo

  // ---- the interpreter on plain numbers ------------------------------------------------------

  /** What the operator's contract asks for: no negative difference, no division by zero. */
  predicate Defined(op: Operator, a: nat, b: nat) {
    match op
    case Minus => a >= b
    case Over => b != 0
    case Modulo => b != 0
    case _ => true
  }

  function Apply(op: Operator, a: nat, b: nat): nat
    requires Defined(op, a, b)
  {
    match op
    case Plus => a + b
    case Minus => a - b
    case Times => TimesNat(a, b)
    case Over => DivNat(a, b)
    case Modulo => ModNat(a, b)
  }

  /**
   * When a command may be given: the handles exist or are new, and the operator is defined.
   * A product with a one-word zero is left to numbers of one word, where its result is normal.
   */
  predicate Legal(c: Command, m: map<Name, nat>) {
    match c
    case Make(into, value) => into !in m && value < 0x1_0000_0000
    case Copy(into, x) => into !in m && x in m
    case Destroy(x) => x in m
    case Assign(x, y) => x in m && y in m
    case AssignWord(x, _) => x in m
    case Swap(x, y) => x in m && y in m
    case Compound(op, x, y) => x in m && y in m && Defined(op, m[x], m[y])
    case CompoundWord(op, x, word) =>
      x in m && Defined(op, m[x], word) && (op.Times? ==> word != 0 || m[x] < BASE)
    case Binary(op, into, x, y) => into !in m && x in m && y in m && Defined(op, m[x], m[y])
    case BinaryWord(op, into, x, word) =>
      into !in m && x in m && Defined(op, m[x], word) && (op.Times? ==> word != 0 || m[x] < BASE)
    case WordBinary(op, into, word, x) =>
      into !in m && x in m && Defined(op, word, m[x]) && (op.Times? ==> word != 0 || m[x] < BASE)
    case PreIncrement(x) => x in m
    case PreDecrement(x) => x in m && m[x] > 0
    case PostIncrement(into, x) => into !in m && x in m
    case PostDecrement(into, x) => into !in m && x in m && m[x] > 0
  }

  function Interpret(c: Command, m: map<Name, nat>): map<Name, nat>
    requires Legal(c, m)
  {
    match c
    case Make(into, value) => m[into := value]
    case Copy(into, x) => m[into := m[x]]
    case Destroy(x) => m - {x}
    case Assign(x, y) => m[x := m[y]]
    case AssignWord(x, word) => m[x := word]
    case Swap(x, y) => m[x := m[y]][y := m[x]]
    case Compound(op, x, y) => m[x := Apply(op, m[x], m[y])]
    case CompoundWord(op, x, word) => m[x := Apply(op, m[x], word)]
    case Binary(op, into, x, y) => m[into := Apply(op, m[x], m[y])]
    case BinaryWord(op, into, x, word) => m[into := Apply(op, m[x], word)]
    case WordBinary(op, into, word, x) => m[into := Apply(op, word, m[x])]
    case PreIncrement(x) => m[x := Apply(Plus, m[x], 1)]
    case PreDecrement(x) => m[x := Apply(Minus, m[x], 1)]
    case PostIncrement(into, x) => m[into := m[x]][x := Apply(Plus, m[x], 1)]
    case PostDecrement(into, x) => m[into := m[x]][x := Apply(Minus, m[x], 1)]
  }

  /** The operators are those of arithmetic, and asked for where arithmetic has them. */
  lemma OperatorsAre(a: nat, b: nat)
    ensures Defined(Plus, a, b) && Apply(Plus, a, b) == a + b
    ensures Defined(Times, a, b) && Apply(Times, a, b) == a * b
    ensures (Defined(Minus, a, b) <==> a >= b) && (a >= b ==> Apply(Minus, a, b) == a - b)
    ensures (Defined(Over, a, b) <==> b > 0) && (b > 0 ==> Apply(Over, a, b) == a / b)
    ensures (Defined(Modulo, a, b) <==> b > 0) && (b > 0 ==> Apply(Modulo, a, b) == a % b)
  {}

  /** The handle that a command writes to; a swap and the postfix operators write to another one too. */
  function Targets(c: Command): set<Name> {
    match c
    case Make(into, _) => {into}
    case Copy(into, _) => {into}
    case Destroy(x) => {x}
    case Assign(x, _) => {x}
    case AssignWord(x, _) => {x}
    case Swap(x, y) => {x, y}
    case Compound(_, x, _) => {x}
    case CompoundWord(_, x, _) => {x}
    case Binary(_, into, _, _) => {into}
    case BinaryWord(_, into, _, _) => {into}
    case WordBinary(_, into, _, _) => {into}
    case PreIncrement(x) => {x}
    case PreDecrement(x) => {x}
    case PostIncrement(into, x) => {into, x}
    case PostDecrement(into, x) => {into, x}
  }

  /** No handle changes its number but through a command that names it, however the records are shared. */
  lemma OthersStay(c: Command, m: map<Name, nat>, z: Name)
    requires Legal(c, m) && z !in Targets(c)
    ensures z in Interpret(c, m) <==> z in m
    ensures z in m ==> Interpret(c, m)[z] == m[z]
  {
    hide Apply;
  }

  /** What is undone: a handle added to and subtracted from, stepped up and down, or swapped twice, is what it was. */
  lemma Undone(m: map<Name, nat>, x: Name, y: Name)
    requires x in m && y in m && x != y
    ensures var c, d := Compound(Plus, x, y), Compound(Minus, x, y);
      Legal(c, m) && Legal(d, Interpret(c, m)) && Interpret(d, Interpret(c, m)) == m
    ensures var c, d := PreIncrement(x), PreDecrement(x);
      Legal(c, m) && Legal(d, Interpret(c, m)) && Interpret(d, Interpret(c, m)) == m
    ensures var c := Swap(x, y); Legal(c, m) && Legal(c, Interpret(c, m)) && Interpret(c, Interpret(c, m)) == m
    ensures m[y] > 0 ==>
      var c, d := Compound(Times, x, y), Compound(Over, x, y);
      Legal(c, m) && Legal(d, Interpret(c, m)) && Interpret(d, Interpret(c, m)) == m
  {
    if m[y] > 0 { ProductOver(m[x], m[y]); }
  }

  lemma ProductOver(a: nat, b: nat)
    requires b > 0
    ensures a * b >= 0 && a * b / b == a
  {
    QuotientIs(a * b, b, a, 0);
  }

  /** A command may be given whenever its handles are there and its result is a number, but for one product. */
  lemma WhenLegal(m: map<Name, nat>, op: Operator, into: Name, x: Name, y: Name, word: Word, value: nat)
    ensures Legal(Make(into, value), m) <==> into !in m && value < 0x1_0000_0000
    ensures Legal(Copy(into, x), m) <==> into !in m && x in m
    ensures Legal(Compound(op, x, y), m) <==> x in m && y in m && Defined(op, m[x], m[y])
    ensures Legal(Binary(op, into, x, y), m) <==> into !in m && x in m && y in m && Defined(op, m[x], m[y])
    ensures !op.Times? ==> (Legal(CompoundWord(op, x, word), m) <==> x in m && Defined(op, m[x], word))
    ensures !op.Times? ==> (Legal(BinaryWord(op, into, x, word), m) <==> into !in m && x in m && Defined(op, m[x], word))
    ensures !op.Times? ==> (Legal(WordBinary(op, into, word, x), m) <==> into !in m && x in m && Defined(op, word, m[x]))
    ensures Legal(CompoundWord(Times, x, word), m) <==> x in m && (word > 0 || m[x] < 65536)
    ensures Legal(BinaryWord(Times, into, x, word), m) <==> into !in m && x in m && (word > 0 || m[x] < 65536)
    ensures Legal(WordBinary(Times, into, word, x), m) <==> into !in m && x in m && (word > 0 || m[x] < 65536)
    ensures Legal(PreDecrement(x), m) <==> x in m && m[x] > 0
    ensures Legal(PostDecrement(into, x), m) <==> into !in m && x in m && m[x] > 0
    ensures Legal(Swap(x, y), m) <==> x in m && y in m
  {
    hide Apply;
  }

  /** The postfix operators give the number from before, the prefix operators that from after. */
  lemma StepsAre(m: map<Name, nat>, into: Name, x: Name)
    requires x in m && into !in m
    ensures Interpret(PostIncrement(into, x), m) == m[into := m[x]][x := m[x] + 1]
    ensures Interpret(PreIncrement(x), m) == m[x := m[x] + 1]
    ensures m[x] > 0 ==> Legal(PostDecrement(into, x), m) && Interpret(PostDecrement(into, x), m) == m[into := m[x]][x := m[x] - 1]
    ensures m[x] > 0 ==> Legal(PreDecrement(x), m) && Interpret(PreDecrement(x), m) == m[x := m[x] - 1]
  {}

  predicate LegalRun(cs: seq<Command>, m: map<Name, nat>) {
    cs == [] || (Legal(cs[0], m) && LegalRun(cs[1..], Interpret(cs[0], m)))
  }

  function InterpretRun(cs: seq<Command>, m: map<Name, nat>): map<Name, nat>
    requires LegalRun(cs, m)
  {
    if cs == [] then m else InterpretRun(cs[1..], Interpret(cs[0], m))
  }

  // ---- the pool does the same ----------------------------------------------------------------

  /** The pool has followed the interpreter through c, with new records only. */
  twostate predicate Done(pool: Pool, c: Command)
    requires Legal(c, old(pool.numbers))
    reads pool, pool.Repr
  {
    && pool.Valid() && fresh(pool.Repr - old(pool.Repr))
    && pool.numbers == Interpret(c, old(pool.numbers))
  }

  lemma CompoundIs(op: Operator, x: Name, y: Name, m: map<Name, nat>)
    requires Legal(Compound(op, x, y), m)
    ensures x in m && y in m && Defined(op, m[x], m[y])
    ensures Interpret(Compound(op, x, y), m) == m[x := Apply(op, m[x], m[y])]
  {}

  method DoCompound(pool: Pool, op: Operator, x: Name, y: Name)
    requires pool.Valid() && Legal(Compound(op, x, y), pool.numbers)
    modifies pool, pool.Repr
    ensures Done(pool, Compound(op, x, y))
  {
    hide Pool.Valid, Legal, Interpret, TimesNat, DivNat, ModNat;
    pool.Names();
    CompoundIs(op, x, y, pool.numbers);
    match op
    case Plus => pool.AddAssign(x, y);
    case Minus => pool.SubAssign(x, y);
    case Times => pool.MulAssign(x, y);
    case Over => pool.DivAssign(x, y);
    case Modulo => pool.ModAssign(x, y);
  }

  lemma CompoundWordIs(op: Operator, x: Name, word: Word, m: map<Name, nat>)
    requires Legal(CompoundWord(op, x, word), m)
    ensures x in m && Defined(op, m[x], word)
    ensures Interpret(CompoundWord(op, x, word), m) == m[x := Apply(op, m[x], word)]
    ensures op.Times? ==> word != 0 || m[x] < BASE
  {}

  method DoCompoundWord(pool: Pool, op: Operator, x: Name, word: Word)
    requires pool.Valid() && Legal(CompoundWord(op, x, word), pool.numbers)
    modifies pool, pool.Repr
    ensures Done(pool, CompoundWord(op, x, word))
  {
    hide Pool.Valid, Legal, Interpret, TimesNat, DivNat, ModNat;
    pool.Names();
    CompoundWordIs(op, x, word, pool.numbers);
    pool.FirstWord(x);
    match op
    case Plus => pool.AddShort(x, word);
    case Minus => pool.SubShort(x, word);
    case Times => pool.TimesShort(x, word);
    case Over => pool.DivShort(x, word);
    case Modulo => pool.ModShort(x, word);
  }

  lemma BinaryIs(op: Operator, into: Name, x: Name, y: Name, m: map<Name, nat>)
    requires Legal(Binary(op, into, x, y), m)
    ensures into !in m && x in m && y in m && Defined(op, m[x], m[y])
    ensures Interpret(Binary(op, into, x, y), m) == m[into := Apply(op, m[x], m[y])]
  {}

  method DoBinary(pool: Pool, op: Operator, into: Name, x: Name, y: Name)
    requires pool.Valid() && Legal(Binary(op, into, x, y), pool.numbers)
    modifies pool, pool.Repr
    ensures Done(pool, Binary(op, into, x, y))
  {
    hide Pool.Valid, Legal, Interpret, TimesNat, DivNat, ModNat;
    pool.Names();
    BinaryIs(op, into, x, y, pool.numbers);
    match op
    case Plus => pool.Sum(into, x, y);
    case Minus => pool.Difference(into, x, y);
    case Times => pool.Product(into, x, y);
    case Over => pool.Quotient(into, x, y);
    case Modulo => pool.Remainder(into, x, y);
  }

  lemma BinaryWordIs(op: Operator, into: Name, x: Name, word: Word, m: map<Name, nat>)
    requires Legal(BinaryWord(op, into, x, word), m)
    ensures into !in m && x in m && Defined(op, m[x], word)
    ensures Interpret(BinaryWord(op, into, x, word), m) == m[into := Apply(op, m[x], word)]
    ensures op.Times? ==> word != 0 || m[x] < BASE
  {}

  method DoBinaryWord(pool: Pool, op: Operator, into: Name, x: Name, word: Word)
    requires pool.Valid() && Legal(BinaryWord(op, into, x, word), pool.numbers)
    modifies pool, pool.Repr
    ensures Done(pool, BinaryWord(op, into, x, word))
  {
    hide Pool.Valid, Legal, Interpret, TimesNat, DivNat, ModNat;
    pool.Names();
    BinaryWordIs(op, into, x, word, pool.numbers);
    pool.FirstWord(x);
    match op
    case Plus => pool.SumWord(into, x, word);
    case Minus => pool.DifferenceWord(into, x, word);
    case Times => pool.ProductWord(into, x, word);
    case Over => pool.QuotientWord(into, x, word);
    case Modulo => pool.RemainderWord(into, x, word);
  }

  lemma Commutes(a: nat, b: nat)
    ensures TimesNat(a, b) == TimesNat(b, a)
  {}

  lemma WordBinaryIs(op: Operator, into: Name, word: Word, x: Name, m: map<Name, nat>)
    requires Legal(WordBinary(op, into, word, x), m)
    ensures into !in m && x in m && Defined(op, word, m[x])
    ensures Interpret(WordBinary(op, into, word, x), m) == m[into := Apply(op, word, m[x])]
    ensures op.Times? ==> word != 0 || m[x] < BASE
  {}

  method DoWordBinary(pool: Pool, op: Operator, into: Name, word: Word, x: Name)
    requires pool.Valid() && Legal(WordBinary(op, into, word, x), pool.numbers)
    modifies pool, pool.Repr
    ensures Done(pool, WordBinary(op, into, word, x))
  {
    hide Pool.Valid, Legal, Interpret, TimesNat, DivNat, ModNat;
    pool.Names();
    WordBinaryIs(op, into, word, x, pool.numbers);
    pool.FirstWord(x);
    Commutes(word, pool.numbers[x]);
    match op
    case Plus => pool.SumWord(into, x, word);
    case Minus => pool.WordMinus(into, word, x);
    case Times => pool.ProductWord(into, x, word);
    case Over => pool.WordOver(into, word, x);
    case Modulo => pool.WordModulo(into, word, x);
  }

  /** Constructors, destructor, assignments and swap. */
  method DoPointer(pool: Pool, c: Command)
    requires c.Make? || c.Copy? || c.Destroy? || c.Assign? || c.AssignWord? || c.Swap?
    requires pool.Valid() && Legal(c, pool.numbers)
    modifies pool, pool.Repr
    ensures Done(pool, c)
  {
    pool.Names();
    hide Pool.Valid, Apply, Defined, TimesNat, DivNat, ModNat;
    match c
    case Make(into, value) => pool.Make(into, value);
    case Copy(into, x) => pool.CopyHandle(into, x);
    case Destroy(x) => pool.Destroy(x);
    case Assign(x, y) => pool.Assign(x, y);
    case AssignWord(x, word) => pool.AssignShort(x, word);
    case Swap(x, y) => pool.Swap(x, y);
  }

  lemma PreIncrementIs(x: Name, m: map<Name, nat>)
    requires Legal(PreIncrement(x), m)
    ensures x in m && Interpret(PreIncrement(x), m) == m[x := m[x] + 1]
  {}

  method DoPreIncrement(pool: Pool, x: Name)
    requires pool.Valid() && Legal(PreIncrement(x), pool.numbers)
    modifies pool, pool.Repr
    ensures Done(pool, PreIncrement(x))
  {
    hide Pool.Valid, Legal, Interpret;
    pool.Names();
    PreIncrementIs(x, pool.numbers);
    pool.PreIncrement(x);
  }

  lemma PreDecrementIs(x: Name, m: map<Name, nat>)
    requires Legal(PreDecrement(x), m)
    ensures x in m && m[x] > 0 && Interpret(PreDecrement(x), m) == m[x := m[x] - 1]
  {}

  method DoPreDecrement(pool: Pool, x: Name)
    requires pool.Valid() && Legal(PreDecrement(x), pool.numbers)
    modifies pool, pool.Repr
    ensures Done(pool, PreDecrement(x))
  {
    hide Pool.Valid, Legal, Interpret;
    pool.Names();
    PreDecrementIs(x, pool.numbers);
    pool.PreDecrement(x);
  }

  lemma PostIncrementIs(into: Name, x: Name, m: map<Name, nat>)
    requires Legal(PostIncrement(into, x), m)
    ensures into !in m && x in m && Interpret(PostIncrement(into, x), m) == m[into := m[x]][x := m[x] + 1]
  {}

  method DoPostIncrement(pool: Pool, into: Name, x: Name)
    requires pool.Valid() && Legal(PostIncrement(into, x), pool.numbers)
    modifies pool, pool.Repr
    ensures Done(pool, PostIncrement(into, x))
  {
    hide Pool.Valid, Legal, Interpret;
    pool.Names();
    PostIncrementIs(into, x, pool.numbers);
    pool.PostIncrement(into, x);
  }

  lemma PostDecrementIs(into: Name, x: Name, m: map<Name, nat>)
    requires Legal(PostDecrement(into, x), m)
    ensures into !in m && x in m && m[x] > 0 && Interpret(PostDecrement(into, x), m) == m[into := m[x]][x := m[x] - 1]
  {}

  method DoPostDecrement(pool: Pool, into: Name, x: Name)
    requires pool.Valid() && Legal(PostDecrement(into, x), pool.numbers)
    modifies pool, pool.Repr
    ensures Done(pool, PostDecrement(into, x))
  {
    hide Pool.Valid, Legal, Interpret;
    pool.Names();
    PostDecrementIs(into, x, pool.numbers);
    pool.PostDecrement(into, x);
  }

  method Do(pool: Pool, c: Command)
    requires pool.Valid() && Legal(c, pool.numbers)
    modifies pool, pool.Repr
    ensures pool.Valid() && fresh(pool.Repr - old(pool.Repr))
    ensures pool.numbers == Interpret(c, old(pool.numbers))
  {
    hide Pool.Valid, Interpret, Legal;
    match c
    case Compound(op, x, y) => DoCompound(pool, op, x, y);
    case CompoundWord(op, x, word) => DoCompoundWord(pool, op, x, word);
    case Binary(op, into, x, y) => DoBinary(pool, op, into, x, y);
    case BinaryWord(op, into, x, word) => DoBinaryWord(pool, op, into, x, word);
    case WordBinary(op, into, word, x) => DoWordBinary(pool, op, into, word, x);
    case PreIncrement(x) => DoPreIncrement(pool, x);
    case PreDecrement(x) => DoPreDecrement(pool, x);
    case PostIncrement(into, x) => DoPostIncrement(pool, into, x);
    case PostDecrement(into, x) => DoPostDecrement(pool, into, x);
    case _ => DoPointer(pool, c);
  }

  /** Any legal run on an empty pool ends with the numbers the interpreter computes. */
  method Run(cs: seq<Command>) returns (pool: Pool)
    requires LegalRun(cs, map[])
    ensures pool.Valid() && pool.numbers == InterpretRun(cs, map[])
    ensures pool.handles.Keys == InterpretRun(cs, map[]).Keys
    ensures forall x :: x in pool.handles ==> pool.handles[x].Valid() && pool.handles[x].Val() == InterpretRun(cs, map[])[x]
  {
    pool := new Pool();
    var i := 0;
    assert cs[0..] == cs;
    while i < |cs|
      invariant 0 <= i <= |cs| && pool.Valid() && fresh(pool) && fresh(pool.Repr)
      invariant LegalRun(cs[i..], pool.numbers)
      invariant InterpretRun(cs[i..], pool.numbers) == InterpretRun(cs, map[])
    {
      assert cs[i..][1..] == cs[i + 1..];
      Do(pool, cs[i]);
      i := i + 1;
    }
    pool.Names();
    forall x | x in pool.handles ensures pool.handles[x].Valid() && pool.handles[x].Val() == pool.numbers[x] { pool.Use(x); }
  }

  /** At every point of a run the handles of a record are exactly counted. */
  lemma ReferencesCounted(pool: Pool, x: Name)
    requires pool.Valid() && x in pool.handles
    ensures pool.handles[x].references == |set y | y in pool.handles && pool.handles[y] == pool.handles[x]|
  {
    assert Sharers(pool.handles, pool.handles[x]) == set y | y in pool.handles && pool.handles[y] == pool.handles[x];
  }
}

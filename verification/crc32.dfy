/**
 * The checksum engine: the reflected CRC-32 of IEEE 802.3 (clause 3.2.9,
 * Frame Check Sequence) with polynomial 0xEDB88320, initial register
 * 0xFFFFFFFF and a final complement, computed one byte at a time through a
 * 256-entry table that is filled lazily on first use.
 *
 * Bit-vector facts are kept in many small lemmas on purpose: the solver
 * settles each of them at once, but not a proof that unfolds several of
 * the step functions together.
 */
module Crc32 {

  /** The reflected generator polynomial. */
  const POLY: bv32 := 0xEDB8_8320

  /** One bit of long division by the reflected generator `p`: shift right,
      and fold `p` back in when the bit shifted out was 1.  The mask is the
      two's-complement negation of the low bit, as the table builder
      computes it.  The generator is a parameter so that facts which hold
      for every generator are proved without its value in sight. */
  function Step(p: bv32, c: bv32): bv32
  {
    (c >> 1) ^ (p & (0 - (c & 1)))
  }

  /** One bit step of CRC-32. */
  function BitStep(c: bv32): bv32
  {
    Step(POLY, c)
  }

  /** `BitStep` applied `n` times. */
  function BitSteps(c: bv32, n: nat): bv32
    decreases n
  {
    if n == 0 then c else BitStep(BitSteps(c, n - 1))
  }

  /** The reference definition of a table entry: eight bit steps applied to
      the index. */
  function TableEntry(b: bv8): bv32
  {
    BitSteps(b as bv32, 8)
  }

  /** The lookup table as a value; `BuildTable` computes it with the nested
      loop of `CRC32`. */
  function Table(): (t: seq<bv32>)
    ensures |t| == 256
    ensures forall i :: 0 <= i < 256 ==> t[i] == TableEntry(i as bv8)
    ensures forall b: bv8 :: t[b as int] == TableEntry(b)
  {
    seq(256, i requires 0 <= i < 256 => TableEntry(i as bv8))
  }

  /** The low eight bits of a register: the table index. */
  function LowByte(x: bv32): bv8
  {
    (x & 0xFF) as bv8
  }

  /** The per-byte step of the table-driven engine. */
  function Update(r: bv32, b: bv8): bv32
  {
    (r >> 8) ^ Table()[LowByte(r ^ (b as bv32)) as int]
  }

  /** The per-byte step of a bitwise engine that uses no table: xor the byte
      into the register, then take eight bit steps. */
  function BitwiseUpdate(r: bv32, b: bv8): bv32
  {
    BitSteps(r ^ (b as bv32), 8)
  }

  /** The state reached by feeding `s` to `step` from the state `r`: a left
      fold. */
  function Fold(step: (bv32, bv8) -> bv32, r: bv32, s: seq<bv8>): bv32
    decreases |s|
  {
    if |s| == 0 then r else Fold(step, step(r, s[0]), s[1..])
  }

  /** The register of the table-driven engine after `s`. */
  function Register(r: bv32, s: seq<bv8>): bv32
  {
    Fold(Update, r, s)
  }

  /** The checksum of a byte sequence: the complement of the register after
      the whole buffer, starting from all ones. */
  function Crc(s: seq<bv8>): bv32
  {
    !Register(0xFFFF_FFFF, s)
  }

  /** The same checksum computed bitwise. */
  function CrcBitwise(s: seq<bv8>): bv32
  {
    !Fold(BitwiseUpdate, 0xFFFF_FFFF, s)
  }

  // ---------------------------------------------------------------------
  // Single bit steps
  // ---------------------------------------------------------------------

  lemma BitStepsUnfold(c: bv32, n: nat)
    requires n > 0
    ensures BitSteps(c, n) == BitStep(BitSteps(c, n - 1))
  {
  }

  lemma BitStepEven(c: bv32)
    requires c & 1 == 0
    ensures BitStep(c) == c >> 1
  {
    assert 0 - (c & 1) == 0;
  }

  lemma BitStepOdd(c: bv32)
    requires c & 1 == 1
    ensures BitStep(c) == (c >> 1) ^ POLY
  {
    assert 0 - (c & 1) == 0xFFFF_FFFF;
  }

  /** The mask of the table builder is the textbook conditional xor. */
  lemma BitStepIsConditionalXor(c: bv32)
    ensures BitStep(c) == if c & 1 == 1 then (c >> 1) ^ POLY else c >> 1
  {
    if c & 1 == 1 {
      BitStepOdd(c);
    } else {
      BitStepEven(c);
    }
  }

  /** Undoes one bit step: the top bit of a step's result tells whether the
      polynomial was folded in, and so which bit was shifted out. */
  function UnStep(c: bv32): bv32
  {
    if c & 0x8000_0000 == 0 then c << 1 else ((c ^ POLY) << 1) | 1
  }

  function UnSteps(c: bv32, n: nat): bv32
    decreases n
  {
    if n == 0 then c else UnSteps(UnStep(c), n - 1)
  }

  lemma UnStepEven(c: bv32)
    requires c & 1 == 0
    ensures UnStep(c >> 1) == c
  {
    assert (c >> 1) & 0x8000_0000 == 0;
  }

  lemma UnStepOdd(c: bv32)
    requires c & 1 == 1
    ensures UnStep((c >> 1) ^ POLY) == c
  {
    assert ((c >> 1) ^ POLY) & 0x8000_0000 != 0;
    assert ((c >> 1) ^ POLY) ^ POLY == c >> 1;
  }

  lemma UnStepInverts(c: bv32)
    ensures UnStep(BitStep(c)) == c
  {
    if c & 1 == 0 {
      BitStepEven(c);
      UnStepEven(c);
    } else {
      BitStepOdd(c);
      UnStepOdd(c);
    }
  }

  lemma UnStepsUnfold(c: bv32, n: nat)
    requires n > 0
    ensures UnSteps(c, n) == UnSteps(UnStep(c), n - 1)
  {
  }

  lemma {:induction false} UnStepsInvert(c: bv32, n: nat)
    ensures UnSteps(BitSteps(c, n), n) == c
    decreases n
  {
    if n > 0 {
      var x := BitSteps(c, n - 1);
      BitStepsUnfold(c, n);
      UnStepsUnfold(BitStep(x), n);
      UnStepInverts(x);
      UnStepsInvert(c, n - 1);
    }
  }

  /** Any number of bit steps is injective: division by the generator never
      merges two registers. */
  lemma BitStepsInjective(u: bv32, v: bv32, n: nat)
    requires BitSteps(u, n) == BitSteps(v, n)
    ensures u == v
  {
    UnStepsInvert(u, n);
    UnStepsInvert(v, n);
  }

  /** Eight bit steps written out, with no step count to unfold: the
      chain of registers over zero bytes in `Codec` is evaluated through
      this form, which the solver computes directly on constants. */
  function EightSteps(c: bv32): bv32
  {
    BitStep(BitStep(BitStep(BitStep(BitStep(BitStep(BitStep(BitStep(c))))))))
  }

  lemma BitStepsEight(x: bv32)
    ensures BitSteps(x, 8) == EightSteps(x)
  {
    BitStepsUnfold(x, 8);
    BitStepsUnfold(x, 7);
    BitStepsUnfold(x, 6);
    BitStepsUnfold(x, 5);
    BitStepsUnfold(x, 4);
    BitStepsUnfold(x, 3);
    BitStepsUnfold(x, 2);
    BitStepsUnfold(x, 1);
  }

  /** A register whose low bit is clear passes through a step as a plain
      shift, whatever is xored into it: the step is linear, and the
      generator is folded in according to the other operand's low bit
      only. */
  lemma StepEvenXor(p: bv32, h: bv32, l: bv32)
    requires h & 1 == 0
    ensures Step(p, h ^ l) == (h >> 1) ^ Step(p, l)
  {
  }

  /** `f` applied `n` times, for any state type. */
  function Iterate<T>(f: T -> T, c: T, n: nat): T
    decreases n
  {
    if n == 0 then c else f(Iterate(f, c, n - 1))
  }

  /** `f` commutes with mixing in an `even` part, which it only `half`s. */
  ghost predicate ShiftsThrough<T(!new)>(f: T -> T, mix: (T, T) -> T, half: T -> T, even: T -> bool)
  {
    forall h, c :: even(h) ==> f(mix(h, c)) == mix(half(h), f(c))
  }

  /** One more application keeps an iterate split into a mixed-in part and
      the iterate of the rest. */
  lemma IterateStep<T(!new)>(f: T -> T, mix: (T, T) -> T, half: T -> T, even: T -> bool, x: T, l: T, h: T, n: nat)
    requires ShiftsThrough(f, mix, half, even) && even(h)
    requires Iterate(f, x, n) == mix(h, Iterate(f, l, n))
    ensures Iterate(f, x, n + 1) == mix(half(h), Iterate(f, l, n + 1))
  {
  }

  /** Eight applications, as long as the mixed-in part stays `even` through
      seven halvings. */
  lemma IterateSplitEight<T(!new)>(f: T -> T, mix: (T, T) -> T, half: T -> T, even: T -> bool, x: T, l: T,
                                   h0: T, h1: T, h2: T, h3: T, h4: T, h5: T, h6: T, h7: T, h8: T)
    requires ShiftsThrough(f, mix, half, even)
    requires x == mix(h0, l)
    requires even(h0) && even(h1) && even(h2) && even(h3) && even(h4) && even(h5) && even(h6) && even(h7)
    requires h1 == half(h0) && h2 == half(h1) && h3 == half(h2) && h4 == half(h3)
    requires h5 == half(h4) && h6 == half(h5) && h7 == half(h6) && h8 == half(h7)
    ensures Iterate(f, x, 8) == mix(h8, Iterate(f, l, 8))
  {
    IterateStep(f, mix, half, even, x, l, h0, 0);
    IterateStep(f, mix, half, even, x, l, h1, 1);
    IterateStep(f, mix, half, even, x, l, h2, 2);
    IterateStep(f, mix, half, even, x, l, h3, 3);
    IterateStep(f, mix, half, even, x, l, h4, 4);
    IterateStep(f, mix, half, even, x, l, h5, 5);
    IterateStep(f, mix, half, even, x, l, h6, 6);
    IterateStep(f, mix, half, even, x, l, h7, 7);
  }

  function Xor(a: bv32, b: bv32): bv32 { a ^ b }

  function Half(a: bv32): bv32 { a >> 1 }

  predicate Even(a: bv32) { a & 1 == 0 }

  /** The bit step shifts an even register through. */
  lemma BitStepShiftsThrough()
    ensures ShiftsThrough(BitStep, Xor, Half, Even)
  {
    forall h, c | Even(h)
      ensures BitStep(Xor(h, c)) == Xor(Half(h), BitStep(c))
    {
      StepEvenXor(POLY, h, c);
    }
  }

  lemma {:induction false} BitStepsIterate(c: bv32, n: nat)
    ensures BitSteps(c, n) == Iterate(BitStep, c, n)
    decreases n
  {
    if n > 0 {
      BitStepsIterate(c, n - 1);
    }
  }

  /** The high part of a register keeps its low bit clear through seven
      single-bit shifts. */
  lemma HighPartEven(x: bv32, h0: bv32, h1: bv32, h2: bv32, h3: bv32, h4: bv32, h5: bv32, h6: bv32, h7: bv32)
    requires h0 == x & 0xFFFF_FF00
    requires h1 == h0 >> 1 && h2 == h1 >> 1 && h3 == h2 >> 1 && h4 == h3 >> 1
    requires h5 == h4 >> 1 && h6 == h5 >> 1 && h7 == h6 >> 1
    ensures h0 & 1 == 0 && h1 & 1 == 0 && h2 & 1 == 0 && h3 & 1 == 0
    ensures h4 & 1 == 0 && h5 & 1 == 0 && h6 & 1 == 0 && h7 & 1 == 0
  {
  }

  /** Eight single-bit shifts of the high part are one shift by a byte of
      the register. */
  lemma EightShifts(x: bv32, h0: bv32, h1: bv32, h2: bv32, h3: bv32, h4: bv32, h5: bv32, h6: bv32, h7: bv32, h8: bv32)
    requires h0 == x & 0xFFFF_FF00
    requires h1 == h0 >> 1 && h2 == h1 >> 1 && h3 == h2 >> 1 && h4 == h3 >> 1
    requires h5 == h4 >> 1 && h6 == h5 >> 1 && h7 == h6 >> 1 && h8 == h7 >> 1
    ensures h8 == x >> 8
  {
  }

  /** A register is its high part xored with its low byte. */
  lemma HighLowParts(x: bv32)
    ensures x == (x & 0xFFFF_FF00) ^ (x & 0xFF)
  {
  }

  lemma HalfIsShift(a: bv32, b: bv32)
    requires b == Half(a)
    ensures b == a >> 1
  {
  }

  lemma EvenIsLowClear(a: bv32)
    requires a & 1 == 0
    ensures Even(a)
  {
  }

  /** The high part of a register, halved eight times: it stays `Even` for
      seven halvings, and after eight it is the register shifted by a
      byte. */
  lemma HighPartHalves(x: bv32, h0: bv32, h1: bv32, h2: bv32, h3: bv32, h4: bv32, h5: bv32, h6: bv32, h7: bv32, h8: bv32)
    requires h0 == x & 0xFFFF_FF00
    requires h1 == Half(h0) && h2 == Half(h1) && h3 == Half(h2) && h4 == Half(h3)
    requires h5 == Half(h4) && h6 == Half(h5) && h7 == Half(h6) && h8 == Half(h7)
    ensures Even(h0) && Even(h1) && Even(h2) && Even(h3) && Even(h4) && Even(h5) && Even(h6) && Even(h7)
    ensures h8 == x >> 8
    ensures x == Xor(h0, x & 0xFF)
  {
    HalfIsShift(h0, h1);
    HalfIsShift(h1, h2);
    HalfIsShift(h2, h3);
    HalfIsShift(h3, h4);
    HalfIsShift(h4, h5);
    HalfIsShift(h5, h6);
    HalfIsShift(h6, h7);
    HalfIsShift(h7, h8);
    HighPartEven(x, h0, h1, h2, h3, h4, h5, h6, h7);
    EightShifts(x, h0, h1, h2, h3, h4, h5, h6, h7, h8);
    HighLowParts(x);
    EvenIsLowClear(h0);
    EvenIsLowClear(h1);
    EvenIsLowClear(h2);
    EvenIsLowClear(h3);
    EvenIsLowClear(h4);
    EvenIsLowClear(h5);
    EvenIsLowClear(h6);
    EvenIsLowClear(h7);
  }

  lemma IterateBitStepSplit(x: bv32)
    ensures Iterate(BitStep, x, 8) == Xor(x >> 8, Iterate(BitStep, x & 0xFF, 8))
  {
    var h0 := x & 0xFFFF_FF00;
    var h1 := Half(h0);
    var h2 := Half(h1);
    var h3 := Half(h2);
    var h4 := Half(h3);
    var h5 := Half(h4);
    var h6 := Half(h5);
    var h7 := Half(h6);
    var h8 := Half(h7);
    HighPartHalves(x, h0, h1, h2, h3, h4, h5, h6, h7, h8);
    BitStepShiftsThrough();
    IterateSplitEight(BitStep, Xor, Half, Even, x, x & 0xFF, h0, h1, h2, h3, h4, h5, h6, h7, h8);
  }

  lemma XorTransfer(a: bv32, b: bv32, ia: bv32, ib: bv32, h: bv32)
    requires a == ia && b == ib && ia == Xor(h, ib)
    ensures a == h ^ b
  {
  }

  /** Eight bit steps of a register are its high part shifted down, xored
      with eight bit steps of its low byte. */
  lemma BitStepsSplit(x: bv32)
    ensures BitSteps(x, 8) == (x >> 8) ^ BitSteps(x & 0xFF, 8)
  {
    IterateBitStepSplit(x);
    BitStepsIterate(x, 8);
    BitStepsIterate(x & 0xFF, 8);
    XorTransfer(BitSteps(x, 8), BitSteps(x & 0xFF, 8), Iterate(BitStep, x, 8), Iterate(BitStep, x & 0xFF, 8), x >> 8);
  }

  // ---------------------------------------------------------------------
  // The table and its lazy construction
  // ---------------------------------------------------------------------

  /** The nested loop that fills the table: entry `i` is eight bit steps
      applied to `i`. */
  method BuildTable() returns (table: seq<bv32>)
    ensures |table| == 256
    ensures forall i :: 0 <= i < 256 ==> table[i] == TableEntry(i as bv8)
  {
    table := [];
    var i := 0;
    while i < 256
      invariant 0 <= i <= 256
      invariant |table| == i
      invariant forall k :: 0 <= k < i ==> table[k] == TableEntry(k as bv8)
    {
      var crc := ComputeEntry(i as bv8);
      table := table + [crc];
      i := i + 1;
    }
  }

  /** The inner loop of the table builder: eight bit steps of the index. */
  method ComputeEntry(b: bv8) returns (crc: bv32)
    ensures crc == TableEntry(b)
  {
    crc := b as bv32;
    var j := 0;
    while j < 8
      invariant 0 <= j <= 8
      invariant crc == BitSteps(b as bv32, j)
    {
      var mask: bv32 := 0 - (crc & 1);
      BitStepsUnfold(b as bv32, j + 1);
      crc := (crc >> 1) ^ (POLY & mask);
      j := j + 1;
    }
  }

  /** Entry 0 is zero and entry 1 is not, so a zero-initialised table fails
      the "already built" test and a built one passes it.  Entries 1 and 255
      agree with the published IEEE 802.3 table. */
  lemma TableGuardDistinguishes()
    ensures Table()[0] == 0
    ensures Table()[1] == 0x7707_3096 && Table()[1] != 0
    ensures Table()[255] == 0x2D02_EF8D
  {
    assert Table()[0] == TableEntry(0);
    assert Table()[1] == TableEntry(1);
    assert Table()[255] == TableEntry(255);
  }

  lemma RegisterUnfold(r: bv32, s: seq<bv8>)
    requires |s| > 0
    ensures Register(r, s) == Register(Update(r, s[0]), s[1..])
  {
  }

  lemma RegisterStep(r: bv32, buf: seq<bv8>, i: nat)
    requires i < |buf|
    ensures Register(Update(r, buf[i]), buf[i + 1..]) == Register(r, buf[i..])
  {
    RegisterUnfold(r, buf[i..]);
    assert buf[i..][0] == buf[i];
    assert buf[i..][1..] == buf[i + 1..];
  }

  /** One pass of the loop body of `CachedCrc`, with the built table,
      advances the register by one byte. */
  lemma CachedStep(table: seq<bv32>, r: bv32, buf: seq<bv8>, i: nat)
    requires table == Table() && i < |buf|
    ensures Register((r >> 8) ^ table[LowByte(r ^ (buf[i] as bv32)) as int], buf[i + 1..])
         == Register(r, buf[i..])
  {
    RegisterStep(r, buf, i);
  }

  /** The engine with its lazily built table: `cache` is the static table,
      zero before the first call.  The table is built exactly when entry 1 is
      still zero, and afterwards it is the full table. */
  method CachedCrc(cache: seq<bv32>, buf: seq<bv8>) returns (cache': seq<bv32>, crc: bv32)
    requires cache == seq(256, _ => 0) || cache == Table()
    ensures cache' == Table()
    ensures crc == Crc(buf)
  {
    TableGuardDistinguishes();
    cache' := cache;
    if cache'[1] == 0 {
      cache' := BuildTable();
      assert cache' == Table();
    }
    var ret: bv32 := 0xFFFF_FFFF;
    var i := 0;
    assert buf[i..] == buf;
    while i < |buf|
      invariant 0 <= i <= |buf|
      invariant Register(ret, buf[i..]) == Register(0xFFFF_FFFF, buf)
    {
      CachedStep(cache', ret, buf, i);
      ret := (ret >> 8) ^ cache'[LowByte(ret ^ (buf[i] as bv32)) as int];
      i := i + 1;
    }
    crc := !ret;
  }

  // ---------------------------------------------------------------------
  // The fold
  // ---------------------------------------------------------------------

  /** The checksum of the empty buffer is zero. */
  lemma CrcEmpty()
    ensures Crc([]) == 0
  {
  }

  /** The fold over `xs + ys` resumes from the state reached after `xs`. */
  lemma {:induction false} FoldAppend(step: (bv32, bv8) -> bv32, r: bv32, xs: seq<bv8>, ys: seq<bv8>)
    ensures Fold(step, r, xs + ys) == Fold(step, Fold(step, r, xs), ys)
    decreases |xs|
  {
    if |xs| == 0 {
      assert xs + ys == ys;
    } else {
      assert (xs + ys)[0] == xs[0];
      assert (xs + ys)[1..] == xs[1..] + ys;
      FoldAppend(step, step(r, xs[0]), xs[1..], ys);
    }
  }

  /** The register after `xs + ys` is the register after `ys` started from
      the register after `xs`: a buffer can be checksummed in pieces. */
  lemma RegisterAppend(r: bv32, xs: seq<bv8>, ys: seq<bv8>)
    ensures Register(r, xs + ys) == Register(Register(r, xs), ys)
  {
    FoldAppend(Update, r, xs, ys);
  }

  /** Two steps that agree everywhere fold to the same state. */
  lemma {:induction false} FoldExtensional(f: (bv32, bv8) -> bv32, g: (bv32, bv8) -> bv32, r: bv32, s: seq<bv8>)
    requires forall x, b :: f(x, b) == g(x, b)
    ensures Fold(f, r, s) == Fold(g, r, s)
    decreases |s|
  {
    if |s| > 0 {
      FoldExtensional(f, g, f(r, s[0]), s[1..]);
    }
  }

  // ---------------------------------------------------------------------
  // The table-driven step agrees with the bitwise step
  // ---------------------------------------------------------------------

  lemma LowByteWidened(x: bv32)
    ensures LowByte(x) as bv32 == x & 0xFF
  {
  }

  lemma TableLookup(x: bv32)
    ensures Table()[LowByte(x) as int] == BitSteps(x & 0xFF, 8)
  {
    LowByteWidened(x);
    assert Table()[LowByte(x) as int] == TableEntry(LowByte(x));
  }

  lemma HighPartUnchanged(r: bv32, b: bv8)
    ensures (r ^ (b as bv32)) >> 8 == r >> 8
  {
    assert (b as bv32) >> 8 == 0;
  }

  /** The table-driven byte step is eight bit steps of the register with the
      byte xored in. */
  lemma UpdateIsEightBitSteps(r: bv32, b: bv8)
    ensures Update(r, b) == BitSteps(r ^ (b as bv32), 8)
  {
    var x := r ^ (b as bv32);
    TableLookup(x);
    BitStepsSplit(x);
    HighPartUnchanged(r, b);
  }

  /** The byte step on a zero byte is eight bit steps of the register. */
  lemma UpdateOfZero(r: bv32)
    ensures Update(r, 0) == BitSteps(r, 8)
  {
    UpdateIsEightBitSteps(r, 0);
    assert r ^ (0 as bv8 as bv32) == r;
  }

  lemma UpdateAgreesWithBitwise()
    ensures forall x, b :: Update(x, b) == BitwiseUpdate(x, b)
  {
    forall x, b
      ensures Update(x, b) == BitwiseUpdate(x, b)
    {
      UpdateIsEightBitSteps(x, b);
    }
  }

  /** The table-driven engine computes the bitwise CRC on every buffer. */
  lemma CrcMatchesBitwise(s: seq<bv8>)
    ensures Crc(s) == CrcBitwise(s)
  {
    UpdateAgreesWithBitwise();
    FoldExtensional(Update, BitwiseUpdate, 0xFFFF_FFFF, s);
  }

  // ---------------------------------------------------------------------
  // Error detection
  // ---------------------------------------------------------------------

  lemma XorCancel(u: bv32, v: bv32, w: bv32)
    requires u ^ w == v ^ w
    ensures u == v
  {
    assert u == (u ^ w) ^ w;
  }

  lemma XorStepsInjective(r1: bv32, r2: bv32, w: bv32, n: nat)
    requires BitSteps(r1 ^ w, n) == BitSteps(r2 ^ w, n)
    ensures r1 == r2
  {
    BitStepsInjective(r1 ^ w, r2 ^ w, n);
    XorCancel(r1, r2, w);
  }

  lemma XorStepsInjectiveInOperand(w: bv32, u1: bv32, u2: bv32, n: nat)
    requires BitSteps(w ^ u1, n) == BitSteps(w ^ u2, n)
    ensures u1 == u2
  {
    assert w ^ u1 == u1 ^ w;
    assert w ^ u2 == u2 ^ w;
    XorStepsInjective(u1, u2, w, n);
  }

  /** The byte form of `XorStepsInjectiveInOperand`; the widened bytes are
      passed in as `u1` and `u2`, which keeps the zero extension out of the
      bit-step terms. */
  lemma XorStepsInjectiveInByte(r: bv32, u1: bv32, u2: bv32, b1: bv8, b2: bv8, n: nat)
    requires u1 == b1 as bv32 && u2 == b2 as bv32
    requires BitSteps(r ^ u1, n) == BitSteps(r ^ u2, n)
    ensures b1 == b2
  {
    XorStepsInjectiveInOperand(r, u1, u2, n);
  }

  lemma UpdateIsStepsOfWidened(r: bv32, b: bv8, u: bv32)
    requires u == b as bv32
    ensures Update(r, b) == BitSteps(r ^ u, 8)
  {
    UpdateIsEightBitSteps(r, b);
  }

  /** Feeding the same byte to two different registers gives two different
      registers. */
  lemma UpdateInjectiveInState(r1: bv32, r2: bv32, b: bv8)
    requires Update(r1, b) == Update(r2, b)
    ensures r1 == r2
  {
    var u := b as bv32;
    UpdateIsStepsOfWidened(r1, b, u);
    UpdateIsStepsOfWidened(r2, b, u);
    XorStepsInjective(r1, r2, u, 8);
  }

  /** Feeding two different bytes to the same register gives two different
      registers. */
  lemma UpdateInjectiveInByte(r: bv32, b1: bv8, b2: bv8)
    requires Update(r, b1) == Update(r, b2)
    ensures b1 == b2
  {
    var u1, u2 := b1 as bv32, b2 as bv32;
    UpdateIsStepsOfWidened(r, b1, u1);
    UpdateIsStepsOfWidened(r, b2, u2);
    XorStepsInjectiveInByte(r, u1, u2, b1, b2, 8);
  }

  /** A step never merges two states fed the same byte. */
  ghost predicate InjectiveInState(step: (bv32, bv8) -> bv32)
  {
    forall x, y, c :: step(x, c) == step(y, c) ==> x == y
  }

  /** A step never merges two bytes fed to the same state. */
  ghost predicate InjectiveInByte(step: (bv32, bv8) -> bv32)
  {
    forall x, c, d :: step(x, c) == step(x, d) ==> c == d
  }

  /** The byte step is injective in each argument. */
  lemma UpdateInjective()
    ensures InjectiveInState(Update) && InjectiveInByte(Update)
  {
    forall x, y, c | Update(x, c) == Update(y, c)
      ensures x == y
    {
      UpdateInjectiveInState(x, y, c);
    }
    forall x, c, d | Update(x, c) == Update(x, d)
      ensures c == d
    {
      UpdateInjectiveInByte(x, c, d);
    }
  }

  lemma StaysApart(step: (bv32, bv8) -> bv32, r1: bv32, r2: bv32, b: bv8)
    requires InjectiveInState(step) && r1 != r2
    ensures step(r1, b) != step(r2, b)
  {
  }

  /** Folding the same bytes from two different states keeps them
      different. */
  lemma {:induction false} FoldKeepsApart(step: (bv32, bv8) -> bv32, r1: bv32, r2: bv32, s: seq<bv8>)
    requires InjectiveInState(step)
    requires r1 != r2
    ensures Fold(step, r1, s) != Fold(step, r2, s)
    decreases |s|
  {
    if |s| > 0 {
      StaysApart(step, r1, r2, s[0]);
      FoldKeepsApart(step, step(r1, s[0]), step(r2, s[0]), s[1..]);
    }
  }

  /** With a step injective in both arguments, two buffers that differ in
      exactly one byte fold to different states. */
  lemma FoldSeparatesOneByteChange(step: (bv32, bv8) -> bv32, r: bv32, a: seq<bv8>, b: seq<bv8>, k: nat)
    requires InjectiveInState(step) && InjectiveInByte(step)
    requires |a| == |b| && k < |a| && a[k] != b[k]
    requires forall i :: 0 <= i < |a| && i != k ==> a[i] == b[i]
    ensures Fold(step, r, a) != Fold(step, r, b)
  {
    var pre := a[..k];
    var post := a[k + 1..];
    assert b[..k] == pre;
    assert b[k + 1..] == post;
    assert a == pre + ([a[k]] + post);
    assert b == pre + ([b[k]] + post);
    FoldAppend(step, r, pre, [a[k]] + post);
    FoldAppend(step, r, pre, [b[k]] + post);
    var q := Fold(step, r, pre);
    assert ([a[k]] + post)[1..] == post;
    assert ([b[k]] + post)[1..] == post;
    FoldKeepsApart(step, step(q, a[k]), step(q, b[k]), post);
  }

  /** Two buffers of equal length that differ in exactly one byte (in
      particular, in exactly one bit) have different checksums. */
  lemma OneByteChangeDetected(a: seq<bv8>, b: seq<bv8>, k: nat)
    requires |a| == |b| && k < |a|
    requires a[k] != b[k]
    requires forall i :: 0 <= i < |a| && i != k ==> a[i] == b[i]
    ensures Crc(a) != Crc(b)
  {
    UpdateInjective();
    FoldSeparatesOneByteChange(Update, 0xFFFF_FFFF, a, b, k);
  }
}

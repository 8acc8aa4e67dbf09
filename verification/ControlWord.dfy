/** The processor's control word: fields, and their packing into the 32 bits saved in every frame. */
module ControlWord {
  import opened Arithmetic
  import opened TaggedMemory

  type Field8 = n: nat | n < 256
  type Field2 = n: nat | n < 4

  const EFFECT: Field2 := 0
  const VALUE: Field2 := 1
  const RETURN: Field2 := 2
  const MULTIPLE: Field2 := 3

  /** The control register, from its lowest bit up. `spare` holds the two bits without a name. */
  datatype Control = Control(
    argumentSize: Field8, extraArgument: bool, callerFrameSize: Field8, apply: bool, disposition: Field2, spare: Field2,
    callStarted: bool, cleanupInProgress: bool, trapOnExit: bool, cleanupBindings: bool, cleanupCatch: bool,
    tracePending: bool, callTrace: bool, instructionTrace: bool, trapMode: Field2)

  function B(b: bool): nat { if b then 1 else 0 }

  /** The fields as digits, lowest first, with the number of values each can take. */
  function Digits(c: Control): seq<nat> {
    [c.argumentSize, B(c.extraArgument), c.callerFrameSize, B(c.apply), c.disposition, c.spare, B(c.callStarted),
     B(c.cleanupInProgress), B(c.trapOnExit), B(c.cleanupBindings), B(c.cleanupCatch), B(c.tracePending),
     B(c.callTrace), B(c.instructionTrace), c.trapMode]
  }

  const SIZES: seq<nat> := [256, 2, 256, 2, 4, 4, 2, 2, 2, 2, 2, 2, 2, 2, 4]

  /** A number written in mixed radix. */
  function Compose(digits: seq<nat>, sizes: seq<nat>): nat
    requires |digits| == |sizes|
  {
    if digits == [] then 0 else digits[0] + sizes[0] * Compose(digits[1..], sizes[1..])
  }

  function Product(sizes: seq<nat>): nat {
    if sizes == [] then 1 else sizes[0] * Product(sizes[1..])
  }

  ghost predicate Fit(digits: seq<nat>, sizes: seq<nat>) {
    |digits| == |sizes| && forall i :: 0 <= i < |digits| ==> digits[i] < sizes[i]
  }

  lemma {:induction false} ComposeBound(digits: seq<nat>, sizes: seq<nat>)
    requires Fit(digits, sizes)
    ensures Compose(digits, sizes) < Product(sizes)
  {
    if digits != [] {
      ComposeBound(digits[1..], sizes[1..]);
      ComposeStep(digits[0], sizes[0], Compose(digits[1..], sizes[1..]), Product(sizes[1..]));
    }
  }

  /** Digit `k` is read back by shifting the lower ones out and masking: load byte undoes deposit byte, field by
      field. */
  lemma {:induction false} DigitReadBack(digits: seq<nat>, sizes: seq<nat>, k: nat)
    requires Fit(digits, sizes) && k < |digits|
    ensures Product(sizes[..k]) > 0
    ensures (Compose(digits, sizes) / Product(sizes[..k])) % sizes[k] == digits[k]
  {
    var r := Compose(digits[1..], sizes[1..]);
    QuotientAndRest(digits[0], sizes[0], r);
    if k == 0 {
      assert Product(sizes[..0]) == 1;
    } else {
      DigitReadBack(digits[1..], sizes[1..], k - 1);
      assert sizes[..k][1..] == sizes[1..][..k - 1];
      NestedQuotient(Compose(digits, sizes), sizes[0], Product(sizes[1..][..k - 1]));
    }
  }

  lemma DigitsBound(c: Control)
    ensures Compose(Digits(c), SIZES) < 0x1_0000_0000
  {
    hide Compose, Product;
    ComposeBound(Digits(c), SIZES);
    AppendProduct(SIZES[..14], 4);
    assert SIZES == SIZES[..14] + [4];
    Weight(14);
  }

  /** The saved form of the control register: one 32-bit datum. */
  function Pack(c: Control): Datum {
    DigitsBound(c);
    Compose(Digits(c), SIZES)
  }

  /** The load-byte of the header file: `size` possible values from the bit of weight `weight` on. */
  function Ldb(w: nat, weight: nat, size: nat): nat
    requires weight > 0 && size > 0
  {
    (w / weight) % size
  }

  function Unpack(w: nat): Control {
    Control(Ldb(w, 0x1, 256), Ldb(w, 0x100, 2) == 1, Ldb(w, 0x200, 256), Ldb(w, 0x2_0000, 2) == 1,
            Ldb(w, 0x4_0000, 4), Ldb(w, 0x10_0000, 4), Ldb(w, 0x40_0000, 2) == 1, Ldb(w, 0x80_0000, 2) == 1,
            Ldb(w, 0x100_0000, 2) == 1, Ldb(w, 0x200_0000, 2) == 1, Ldb(w, 0x400_0000, 2) == 1,
            Ldb(w, 0x800_0000, 2) == 1, Ldb(w, 0x1000_0000, 2) == 1, Ldb(w, 0x2000_0000, 2) == 1,
            Ldb(w, 0x4000_0000, 4))
  }

  lemma {:induction false} Weight(k: nat)
    requires k < 15
    ensures Product(SIZES[..k]) == WEIGHTS[k]
  {
    if k > 0 {
      Weight(k - 1);
      AppendProduct(SIZES[..k - 1], SIZES[k - 1]);
      assert SIZES[..k] == SIZES[..k - 1] + [SIZES[k - 1]];
    }
  }

  const WEIGHTS: seq<nat> := [
    0x1, 0x100, 0x200, 0x20000, 0x40000, 0x100000, 0x400000, 0x800000, 0x1000000, 0x2000000, 0x4000000, 0x8000000,
    0x10000000, 0x20000000, 0x40000000]

  lemma {:induction false} AppendProduct(sizes: seq<nat>, s: nat)
    ensures Product(sizes + [s]) == Product(sizes) * s
  {
    if sizes == [] {
      assert sizes + [s] == [s] && [s][1..] == [];
    } else {
      AppendProduct(sizes[1..], s);
      assert (sizes + [s])[1..] == sizes[1..] + [s];
      assert sizes[0] * (Product(sizes[1..]) * s) == sizes[0] * Product(sizes[1..]) * s;
    }
  }

  lemma {:induction false} FieldReadBack(c: Control, k: nat)
    requires k < 15
    ensures WEIGHTS[k] > 0 && Ldb(Pack(c), WEIGHTS[k], SIZES[k]) == Digits(c)[k]
  {
    DigitReadBack(Digits(c), SIZES, k);
    Weight(k);
  }

  /** Saving the control register in a frame and loading it back loses nothing. */
  lemma {:induction false} UnpackPack(c: Control)
    ensures Unpack(Pack(c)) == c
  {
    hide Pack, Ldb;
    FieldReadBack(c, 0);
    FieldReadBack(c, 1);
    FieldReadBack(c, 2);
    FieldReadBack(c, 3);
    FieldReadBack(c, 4);
    FieldReadBack(c, 5);
    FieldReadBack(c, 6);
    FieldReadBack(c, 7);
    FieldReadBack(c, 8);
    FieldReadBack(c, 9);
    FieldReadBack(c, 10);
    FieldReadBack(c, 11);
    FieldReadBack(c, 12);
    FieldReadBack(c, 13);
    FieldReadBack(c, 14);
  }

  // ---------- The control word of a new frame, as the sequencer builds it ----------

  /** Everything above the value disposition. */
  function Upper(c: Control): nat { Compose(Digits(c)[5..], SIZES[5..]) }

  lemma {:induction false} LowerFields(c: Control)
    ensures Pack(c) == c.argumentSize + 0x100 * B(c.extraArgument) + 0x200 * c.callerFrameSize + 0x2_0000 * B(c.apply) +
                       0x4_0000 * c.disposition + 0x10_0000 * Upper(c)
  {
    hide Compose;
    FiveDigits(Digits(c), SIZES);
  }

  lemma {:induction false} FiveDigits(d: seq<nat>, z: seq<nat>)
    requires |d| == |z| && |d| >= 5 && z[0] == 256 && z[1] == 2 && z[2] == 256 && z[3] == 2 && z[4] == 4
    ensures Compose(d, z) ==
      d[0] + 0x100 * d[1] + 0x200 * d[2] + 0x2_0000 * d[3] + 0x4_0000 * d[4] + 0x10_0000 * Compose(d[5..], z[5..])
  {
    hide Compose;
    var r3 := Unroll(d, z, 4, d[4], 4, Compose(d[5..], z[5..]));
    var r2 := Unroll(d, z, 3, d[3], 2, r3);
    var r1 := Unroll(d, z, 2, d[2], 256, r2);
    var r0 := Unroll(d, z, 1, d[1], 2, r1);
    var w := Unroll(d, z, 0, d[0], 256, r0);
    assert d[0..] == d && z[0..] == z;
  }

  lemma Unroll(digits: seq<nat>, sizes: seq<nat>, k: nat, digit: nat, size: nat, rest: nat) returns (w: nat)
    requires |digits| == |sizes| && k < |digits| && digits[k] == digit && sizes[k] == size
    requires rest == Compose(digits[k + 1..], sizes[k + 1..])
    ensures w == Compose(digits[k..], sizes[k..]) == digit + size * rest
  {
    w := Compose(digits[k..], sizes[k..]);
    assert digits[k..][1..] == digits[k + 1..] && sizes[k..][1..] == sizes[k + 1..];
  }

  lemma ComposeNone()
    ensures Compose([], []) == 0
  {
  }

  /** Where each field is in the packed control word. */
  lemma {:induction false} PackedLayout(c: Control)
    ensures Pack(c) ==
      c.argumentSize + 0x100 * B(c.extraArgument) + 0x200 * c.callerFrameSize + 0x2_0000 * B(c.apply) +
      0x4_0000 * c.disposition + 0x10_0000 * c.spare + 0x40_0000 * B(c.callStarted) +
      0x80_0000 * B(c.cleanupInProgress) + 0x100_0000 * B(c.trapOnExit) + 0x200_0000 * B(c.cleanupBindings) +
      0x400_0000 * B(c.cleanupCatch) + 0x800_0000 * B(c.tracePending) + 0x1000_0000 * B(c.callTrace) +
      0x2000_0000 * B(c.instructionTrace) + 0x4000_0000 * c.trapMode
  {
    hide Pack, Upper, B;
    LowerFields(c);
    UpperLayout(c);
  }

  lemma {:induction false} UpperLayout(c: Control)
    ensures Upper(c) ==
      c.spare + 0x4 * B(c.callStarted) + 0x8 * B(c.cleanupInProgress) + 0x10 * B(c.trapOnExit) +
      0x20 * B(c.cleanupBindings) + 0x40 * B(c.cleanupCatch) + 0x80 * B(c.tracePending) + 0x100 * B(c.callTrace) +
      0x200 * B(c.instructionTrace) + 0x400 * c.trapMode
  {
    hide Compose, Digits, B;
    DigitsAre(c);
    MiddleDigits(Digits(c), SIZES);
    UpperDigits(Digits(c), SIZES);
    assert Compose(Digits(c)[15..], SIZES[15..]) == 0 by {
      assert Digits(c)[15..] == [] && SIZES[15..] == [];
      ComposeNone();
    }
  }

  lemma DigitsAre(c: Control)
    ensures var d := Digits(c);
      && |d| == 15 && d[5] == c.spare && d[6] == B(c.callStarted) && d[7] == B(c.cleanupInProgress)
      && d[8] == B(c.trapOnExit) && d[9] == B(c.cleanupBindings) && d[10] == B(c.cleanupCatch)
      && d[11] == B(c.tracePending) && d[12] == B(c.callTrace) && d[13] == B(c.instructionTrace) && d[14] == c.trapMode
  {
  }

  lemma {:induction false} MiddleDigits(d: seq<nat>, z: seq<nat>)
    requires |d| == |z| == 15 && z[5] == 4 && z[6] == 2 && z[7] == 2 && z[8] == 2 && z[9] == 2
    ensures Compose(d[5..], z[5..]) ==
      d[5] + 0x4 * d[6] + 0x8 * d[7] + 0x10 * d[8] + 0x20 * d[9] + 0x40 * Compose(d[10..], z[10..])
  {
    hide Compose;
    var r9 := Unroll(d, z, 9, d[9], 2, Compose(d[10..], z[10..]));
    var r8 := Unroll(d, z, 8, d[8], 2, r9);
    var r7 := Unroll(d, z, 7, d[7], 2, r8);
    var r6 := Unroll(d, z, 6, d[6], 2, r7);
    var r5 := Unroll(d, z, 5, d[5], 4, r6);
  }

  lemma {:induction false} UpperDigits(d: seq<nat>, z: seq<nat>)
    requires |d| == |z| == 15 && z[10] == 2 && z[11] == 2 && z[12] == 2 && z[13] == 2 && z[14] == 4
    ensures Compose(d[10..], z[10..]) ==
      d[10] + 0x2 * d[11] + 0x4 * d[12] + 0x8 * d[13] + 0x10 * d[14] + 0x40 * Compose(d[15..], z[15..])
  {
    hide Compose;
    var r14 := Unroll(d, z, 14, d[14], 4, Compose(d[15..], z[15..]));
    var r13 := Unroll(d, z, 13, d[13], 2, r14);
    var r12 := Unroll(d, z, 12, d[12], 2, r13);
    var r11 := Unroll(d, z, 11, d[11], 2, r12);
    var r10 := Unroll(d, z, 10, d[10], 2, r11);
  }

  /** A control word with its size, extra argument and disposition fields cleared. */
  predicate Cleared(c: Control) {
    c.argumentSize == 0 && !c.extraArgument && c.callerFrameSize == 0 && c.disposition == 0
  }

  /** The sequencer ors the sizes and the value disposition into a cleared control word, as they are. */
  function Ored(c: Control, argumentSize: nat, callerFrameSize: nat, disposition: Field2): nat {
    Or(Or(Or(Pack(c), argumentSize), 0x4_0000 * disposition), 0x200 * callerFrameSize)
  }

  lemma {:induction false} ClearedFields(c: Control)
    requires Cleared(c)
    ensures Pack(c) == 0x200 * (0x100 * B(c.apply) + 0x800 * Upper(c))
  {
    hide Pack;
    LowerFields(c);
  }

  /** The lowest field gets the low bits of the argument size and nothing else; `high` is everything above it. */
  lemma {:induction false} OrLowField(high: nat, argumentSize: nat, callerFrameSize: nat, disposition: nat)
    ensures Or(Or(Or(0x200 * high, argumentSize), 0x4_0000 * disposition), 0x200 * callerFrameSize) % 256 ==
      argumentSize % 256
  {
    hide Or;
    OrLow(0x200 * high, argumentSize);
    OrZero(argumentSize % 256);
    OrAbove(Or(0x200 * high, argumentSize), 0x400 * disposition);
    OrAbove(Or(Or(0x200 * high, argumentSize), 0x4_0000 * disposition), 2 * callerFrameSize);
  }

  lemma OrAbove(a: nat, n: nat)
    ensures Or(a, 0x100 * n) % 256 == a % 256
  {
    hide Or;
    OrLow(a, 0x100 * n);
    OrZero(a % 256);
  }

  /** An argument size below the frame size field leaves what is above to the others. */
  lemma {:induction false} OrHighFields(high: nat, argumentSize: nat, callerFrameSize: nat, disposition: nat)
    requires argumentSize < 0x200
    ensures Or(Or(Or(0x200 * high, argumentSize), 0x4_0000 * disposition), 0x200 * callerFrameSize) ==
      argumentSize + 0x200 * Or(Or(high, 0x200 * disposition), callerFrameSize)
  {
    hide Or, Pow2;
    Pow2Values();
    OrZero(argumentSize);
    OrZero(high);
    OrCompose(9, 0x200, 0, high, argumentSize, 0);
    OrCompose(9, 0x200, argumentSize, high, 0, 0x200 * disposition);
    OrCompose(9, 0x200, argumentSize, Or(high, 0x200 * disposition), 0, callerFrameSize);
  }

  lemma OrLow(a: nat, b: nat)
    ensures Or(a, b) % 256 == Or(a % 256, b % 256)
  {
    hide Or, Pow2;
    Pow2Values();
    OrCompose(8, 0x100, a % 256, a / 256, b % 256, b / 256);
  }

  /** The disposition goes between the apply bit and `upper`. */
  lemma OrDisposition(apply: nat, upper: nat, disposition: nat)
    requires apply < 2 && disposition < 4
    ensures Or(0x100 * apply + 0x800 * upper, 0x200 * disposition) == 0x100 * (apply + 2 * disposition + 8 * upper)
  {
    hide Or, Pow2;
    Pow2Values();
    OrZero(0x100 * apply);
    OrZero(disposition);
    OrZero(upper);
    OrCompose(2, 4, 0, upper, disposition, 0);
    OrCompose(9, 0x200, 0x100 * apply, 4 * upper, 0, disposition);
  }

  /** A frame size goes below them, as far as it fits. */
  lemma OrFrameSize(above: nat, callerFrameSize: nat)
    ensures Or(0x100 * above, callerFrameSize) % 256 == callerFrameSize % 256
    ensures callerFrameSize < 256 ==> Or(0x100 * above, callerFrameSize) == callerFrameSize + 0x100 * above
  {
    hide Or, Pow2;
    OrZero(callerFrameSize % 256);
    OrLowByte(above, callerFrameSize);
    if callerFrameSize < 256 {
      Pow2Values();
      OrZero(callerFrameSize);
      OrZero(above);
      OrCompose(8, 0x100, 0, above, callerFrameSize, 0);
    }
  }

  lemma OrLowByte(above: nat, n: nat)
    ensures Or(0x100 * above, n) % 256 == Or(0, n % 256)
  {
    hide Or;
    OrLow(0x100 * above, n);
  }

  /** What the control word holds in its lowest fields, whatever the sizes. */
  lemma {:induction false} OredFields(c: Control, argumentSize: nat, callerFrameSize: nat, disposition: Field2)
    requires Cleared(c)
    ensures var w := Ored(c, argumentSize, callerFrameSize, disposition);
      && w % 256 == argumentSize % 256
      && (argumentSize < 256 ==> w / 0x200 % 256 == callerFrameSize % 256)
      && (argumentSize < 256 && callerFrameSize < 256 ==>
            w == argumentSize + 0x200 * callerFrameSize + 0x2_0000 * B(c.apply) + 0x4_0000 * disposition +
                 0x10_0000 * Upper(c))
  {
    hide Or, Pack, Upper, B;
    ClearedFields(c);
    var high := 0x100 * B(c.apply) + 0x800 * Upper(c);
    OrLowField(high, argumentSize, callerFrameSize, disposition);
    ApplyBit(c);
    OrDisposition(B(c.apply), Upper(c), disposition);
    var above := B(c.apply) + 2 * disposition + 8 * Upper(c);
    OrFrameSize(above, callerFrameSize);
    if argumentSize < 256 {
      OrHighFields(high, argumentSize, callerFrameSize, disposition);
      QuotientAndRest(argumentSize, 0x200, Or(0x100 * above, callerFrameSize));
    }
  }

  lemma ApplyBit(c: Control)
    ensures B(c.apply) < 2
  {
  }

  lemma {:induction false} OredFits(c: Control, argumentSize: Field8, callerFrameSize: Field8, disposition: Field2)
    requires Cleared(c)
    ensures Unpack(Ored(c, argumentSize, callerFrameSize, disposition)) ==
      c.(argumentSize := argumentSize, callerFrameSize := callerFrameSize, disposition := disposition)
  {
    hide Ored, Pack, Unpack, Upper;
    OredFields(c, argumentSize, callerFrameSize, disposition);
    var c' := c.(argumentSize := argumentSize, callerFrameSize := callerFrameSize, disposition := disposition);
    LowerFields(c');
    SameUpper(c, c');
    UnpackPack(c');
  }

  lemma SameUpper(c: Control, c': Control)
    requires c' == c.(argumentSize := c'.argumentSize, callerFrameSize := c'.callerFrameSize,
                      disposition := c'.disposition)
    ensures Upper(c') == Upper(c)
  {
    hide Compose;
    assert Digits(c')[5..] == Digits(c)[5..];
  }

  /** Both sizes are read back from the control word if and only if each fits its eight bits; and then no other field is
      touched. A larger argument size spills into the extra-argument bit and the frame size, a larger frame size into
      the apply and disposition fields. */
  lemma {:induction false} SizesFitExactly(c: Control, argumentSize: nat, callerFrameSize: nat, disposition: Field2)
    requires Cleared(c)
    ensures var c' := Unpack(Ored(c, argumentSize, callerFrameSize, disposition));
      && (c'.argumentSize == argumentSize <==> argumentSize < 256)
      && (argumentSize < 256 ==> c'.callerFrameSize == callerFrameSize % 256)
      && (argumentSize < 256 && callerFrameSize < 256 ==>
            c' == c.(argumentSize := argumentSize, callerFrameSize := callerFrameSize, disposition := disposition))
  {
    hide Ored;
    OredFields(c, argumentSize, callerFrameSize, disposition);
    if argumentSize < 256 && callerFrameSize < 256 {
      OredFits(c, argumentSize, callerFrameSize, disposition);
    }
  }
}

/** CRC-24Q: the table-driven crc24q of rtkcmn.c against polynomial division over
    GF(2) (RTCA DO-229C, section A.4.3.3). */
module Crc24q {
  import opened Bits
  import opened Crc24qTable
  import opened Gf2

  /** The powers x^23 down to x^0 in a 24-bit register. */
  const POWERS: seq<bv24> :=
    [0x800000, 0x400000, 0x200000, 0x100000, 0x080000, 0x040000, 0x020000, 0x010000,
     0x008000, 0x004000, 0x002000, 0x001000, 0x000800, 0x000400, 0x000200, 0x000100,
     0x000080, 0x000040, 0x000020, 0x000010, 0x000008, 0x000004, 0x000002, 0x000001]

  predicate Has(c: bv24, power: bv24)
  {
    c & power != 0
  }

  /** The polynomial held by a register. */
  function Coefficients(c: bv24): (b: seq<bool>)
    ensures |b| == 24 && forall i :: 0 <= i < 24 ==> b[i] == Has(c, POWERS[i])
  {
    seq(24, i requires 0 <= i < 24 => Has(c, POWERS[i]))
  }

  /** 0x1864CFB, of degree 24. */
  const GENERATOR: seq<bool> := [true] + Coefficients(0x864CFB)

  /** One message bit enters the register: x * c + b * x^24 modulo the generator. */
  function Feed(c: bv24, b: bool): bv24
  {
    if Has(c, 0x800000) != b then (c << 1) ^ 0x864CFB else c << 1
  }

  lemma HasXor(a: bv24, b: bv24, power: bv24)
    requires power & (power - 1) == 0
    ensures Has(a ^ b, power) == (Has(a, power) != Has(b, power))
  {
  }

  lemma HasShiftBy(c: bv24, power: bv24, next: bv24)
    requires next == power >> 1
    ensures Has(c << 1, power) == Has(c, next)
  {
  }

  lemma HasShiftLast(c: bv24)
    ensures !Has(c << 1, 1)
  {
  }

  lemma PowersStep(i: nat)
    requires 0 < i < 24
    ensures POWERS[i] == POWERS[i - 1] >> 1
  {
  }

  lemma PowersSingleHigh(i: nat)
    requires i < 12
    ensures POWERS[i] & (POWERS[i] - 1) == 0
  {
    if i == 0 {} else if i == 1 {} else if i == 2 {} else if i == 3 {}
    else if i == 4 {} else if i == 5 {} else if i == 6 {} else if i == 7 {}
    else if i == 8 {} else if i == 9 {} else if i == 10 {} else {}
  }

  lemma PowersSingleLow(i: nat)
    requires 12 <= i < 24
    ensures POWERS[i] & (POWERS[i] - 1) == 0
  {
    if i == 12 {} else if i == 13 {} else if i == 14 {} else if i == 15 {}
    else if i == 16 {} else if i == 17 {} else if i == 18 {} else if i == 19 {}
    else if i == 20 {} else if i == 21 {} else if i == 22 {} else {}
  }

  lemma PowersSingle(i: nat)
    requires i < 24
    ensures |POWERS| == 24 && POWERS[i] & (POWERS[i] - 1) == 0
  {
    if i < 12 {
      PowersSingleHigh(i);
    } else {
      PowersSingleLow(i);
    }
  }

  lemma CoefficientsXor(a: bv24, b: bv24)
    ensures Coefficients(a ^ b) == Xor(Coefficients(a), Coefficients(b))
  {
    forall i | 0 <= i < 24
      ensures Coefficients(a ^ b)[i] == Xor(Coefficients(a), Coefficients(b))[i]
    {
      PowersSingle(i);
      HasXor(a, b, POWERS[i]);
    }
  }

  lemma HasShiftAt(c: bv24, i: nat)
    requires i < 24
    ensures Has(c << 1, POWERS[i]) == (i < 23 && Has(c, POWERS[i + 1]))
  {
    PowersEnd();
    hide POWERS, Has;
    if i < 23 {
      PowersStep(i + 1);
      HasShiftBy(c, POWERS[i], POWERS[i + 1]);
    } else {
      HasShiftLast(c);
    }
  }

  lemma PowersEnd()
    ensures |POWERS| == 24 && POWERS[23] == 1
  {
  }

  lemma CoefficientsShift(c: bv24)
    ensures Coefficients(c << 1) == Coefficients(c)[1..] + [false]
  {
    var d := c << 1;
    forall i | 0 <= i < 24
      ensures Coefficients(d)[i] == (Coefficients(c)[1..] + [false])[i]
    {
      HasShiftAt(c, i);
    }
  }

  lemma CoefficientsZero()
    ensures Coefficients(0) == Zeros(24)
  {
  }

  /** One step of the register is one step of long division by the generator. */
  lemma FeedStep(c: bv24, b: bool)
    ensures Coefficients(Feed(c, b)) == Step(Coefficients(c), b, GENERATOR)
  {
    CoefficientsShift(c);
    CoefficientsXor(c << 1, 0x864CFB);
  }

  // ---------- the table step ----------

  function ByteBits(y: bv8): (b: seq<bool>)
    ensures |b| == 8 && forall k :: 0 <= k < 8 ==> b[k] == ByteBit(y, k)
  {
    seq(8, k requires 0 <= k < 8 => ByteBit(y, k))
  }

  /** `c` is `c0` after k steps with zero bits. */
  ghost predicate Stepped(c0: bv24, c: bv24, k: nat)
  {
    Coefficients(c) == StepAll(Coefficients(c0), Zeros(k), GENERATOR)
  }

  lemma SteppedNone(c: bv24)
    ensures Stepped(c, c, 0)
  {
    hide Coefficients;
  }

  /** Multiplying the register by x is a step with a zero bit. */
  lemma MulXStep(c0: bv24, c: bv24, k: nat)
    requires Stepped(c0, c, k)
    ensures Stepped(c0, MulX(c), k + 1)
  {
    assert MulX(c) == Feed(c, false);
    hide Coefficients, MulX, Feed, Step;
    FeedStep(c, false);
    assert Zeros(k + 1)[..k] == Zeros(k);
  }

  lemma MulX8Steps(c: bv24)
    ensures Coefficients(MulX8(c)) == StepAll(Coefficients(c), Zeros(8), GENERATOR)
  {
    hide Coefficients, MulX, StepAll;
    assert MulX8(c) == MulX(MulX(MulX(MulX(MulX(MulX(MulX(MulX(c))))))));
    var c1 := MulX(c);
    var c2 := MulX(c1);
    var c3 := MulX(c2);
    var c4 := MulX(c3);
    var c5 := MulX(c4);
    var c6 := MulX(c5);
    var c7 := MulX(c6);
    SteppedNone(c);
    MulXStep(c, c, 0);
    MulXStep(c, c1, 1);
    MulXStep(c, c2, 2);
    MulXStep(c, c3, 3);
    MulXStep(c, c4, 4);
    MulXStep(c, c5, 5);
    MulXStep(c, c6, 6);
    MulXStep(c, c7, 7);
  }

  lemma TopPower(k: nat)
    requires k < 8
    ensures POWERS[k] == (Mask(k) as bv24) << 16
  {
  }

  lemma LowPower(i: nat)
    requires 8 <= i < 24
    ensures POWERS[i] < 0x010000
  {
  }

  lemma HasOnTop(y: bv8, m: bv8)
    ensures Has((y as bv24) << 16, (m as bv24) << 16) == (y & m != 0)
  {
  }

  lemma LowHalfClear(y: bv8, power: bv24)
    requires power < 0x010000
    ensures !Has((y as bv24) << 16, power)
  {
  }

  /** The coefficients of a byte placed at the top of the register. */
  lemma TopCoefficients(y: bv8)
    ensures Coefficients((y as bv24) << 16) == ByteBits(y) + Zeros(16)
  {
    var c := (y as bv24) << 16;
    forall i | 0 <= i < 24
      ensures Coefficients(c)[i] == (ByteBits(y) + Zeros(16))[i]
    {
      if i < 8 {
        TopPower(i);
        HasOnTop(y, Mask(i));
      } else {
        LowPower(i);
        LowHalfClear(y, POWERS[i]);
      }
    }
  }

  lemma HasShift8(c: bv24, power: bv24, next: bv24)
    requires next == power >> 8
    ensures Has(c << 8, power) == Has(c, next)
  {
  }

  lemma HasShift8Out(c: bv24, power: bv24)
    requires power < 0x100
    ensures !Has(c << 8, power)
  {
  }

  lemma PowersStepHigh(i: nat)
    requires i < 8
    ensures POWERS[i + 8] == POWERS[i] >> 8
  {
  }

  lemma PowersStepMiddle(i: nat)
    requires 8 <= i < 16
    ensures POWERS[i + 8] == POWERS[i] >> 8
  {
  }

  lemma PowersStepLow(i: nat)
    requires 16 <= i < 24
    ensures POWERS[i] < 0x100
  {
  }

  lemma PowersStep8(i: nat)
    requires i < 24
    ensures |POWERS| == 24
    ensures i < 16 ==> POWERS[i + 8] == POWERS[i] >> 8
    ensures i >= 16 ==> POWERS[i] < 0x100
  {
    if i < 8 {
      PowersStepHigh(i);
    } else if i < 16 {
      PowersStepMiddle(i);
    } else {
      PowersStepLow(i);
    }
  }

  lemma ShiftByte(c: bv24)
    ensures Coefficients(c << 8) == Coefficients(c)[8..] + Zeros(8)
  {
    var d := c << 8;
    forall i | 0 <= i < 24
      ensures Coefficients(d)[i] == (Coefficients(c)[8..] + Zeros(8))[i]
    {
      PowersStep8(i);
      if i < 16 {
        HasShift8(c, POWERS[i], POWERS[i + 8]);
      } else {
        HasShift8Out(c, POWERS[i]);
      }
    }
  }

  lemma TopByteHas(c: bv24, m: bv8)
    ensures ((c >> 16) as bv8) & m != 0 <==> Has(c, (m as bv24) << 16)
  {
  }

  lemma ByteXor(a: bv8, b: bv8, m: bv8)
    requires m & (m - 1) == 0
    ensures (a ^ b) & m != 0 <==> (a & m != 0) != (b & m != 0)
  {
  }

  lemma MaskSingle(k: nat)
    requires k < 8
    ensures Mask(k) & (Mask(k) - 1) == 0
  {
  }

  lemma IndexBits(c: bv24, y: bv8, x: bv8)
    requires x == (c >> 16) as bv8
    ensures ByteBits(x ^ y) == Xor(Coefficients(c)[..8], ByteBits(y))
  {
    forall k | 0 <= k < 8
      ensures ByteBits(x ^ y)[k] == Xor(Coefficients(c)[..8], ByteBits(y))[k]
    {
      MaskSingle(k);
      TopPower(k);
      TopByteHas(c, Mask(k));
      ByteXor(x, y, Mask(k));
    }
  }

  lemma EntrySteps(x: bv8)
    ensures Coefficients(Entry(x)) == StepAll(ByteBits(x) + Zeros(16), Zeros(8), GENERATOR)
  {
    TableCorrect(x);
    MulX8Steps((x as bv24) << 16);
    TopCoefficients(x);
  }

  lemma SumCoefficients(d: bv24, e: bv24, s: bv24, low: seq<bool>, high: seq<bool>)
    requires s == d ^ e && Coefficients(d) == low && Coefficients(e) == high
    ensures Coefficients(s) == Xor(low, high)
  {
    CoefficientsXor(d, e);
  }

  lemma HighSteps(c: bv24, y: bv8, x: bv8, e: bv24, high: seq<bool>)
    requires x == (c >> 16) as bv8 && e == Entry(x ^ y)
    requires high == Xor(Coefficients(c)[..8], ByteBits(y)) + Zeros(16)
    ensures Coefficients(e) == StepAll(high, Zeros(8), GENERATOR)
  {
    IndexBits(c, y, x);
    EntrySteps(x ^ y);
  }

  lemma StepSum(r: seq<bool>, y: seq<bool>, d: bv24, e: bv24, high: seq<bool>)
    requires |r| == 24 && |y| == 8 && high == Xor(r[..8], y) + Zeros(16)
    requires Coefficients(d) == r[8..] + Zeros(8)
    requires Coefficients(e) == StepAll(high, Zeros(8), GENERATOR)
    ensures Coefficients(d ^ e) == StepAll(r, y, GENERATOR)
  {
    SumCoefficients(d, e, d ^ e, r[8..] + Zeros(8), StepAll(high, Zeros(8), GENERATOR));
    StepAllSplit(r, y, GENERATOR, high);
  }

  /** One table look-up does the work of eight register steps. */
  lemma TableStepCorrect(c: bv24, y: bv8, x: bv8, e: bv24, d: bv24)
    requires x == (c >> 16) as bv8 && e == Entry(x ^ y) && d == c << 8
    ensures Coefficients(d ^ e) == StepAll(Coefficients(c), ByteBits(y), GENERATOR)
  {
    var high := Xor(Coefficients(c)[..8], ByteBits(y)) + Zeros(16);
    HighSteps(c, y, x, e, high);
    ShiftByte(c);
    StepSum(Coefficients(c), ByteBits(y), d, e, high);
  }

  // ---------- crc24q ----------

  /** The remainder register after the first `len` bytes of a buffer. */
  function Parity(buff: seq<bv8>, len: nat): (r: seq<bool>)
    requires len <= |buff|
    ensures |r| == 24
  {
    Register(Field(buff, 0, 8 * len), GENERATOR)
  }

  method Crc24q(buff: seq<bv8>, len: nat) returns (crc: bv24)
    requires len <= |buff|
    ensures Coefficients(crc) == Parity(buff, len)
  {
    crc := 0;
    CoefficientsZero();
    for i := 0 to len
      invariant Coefficients(crc) == Parity(buff, i)
    {
      var entry := Entry(((crc >> 16) as bv8) ^ buff[i]);
      TableStepCorrect(crc, buff[i], (crc >> 16) as bv8, entry, crc << 8);
      ParityAppend(buff, i);
      crc := (crc << 8) ^ entry;
    }
  }

  lemma ParityAppend(buff: seq<bv8>, n: nat)
    requires n < |buff|
    ensures Parity(buff, n + 1) == StepAll(Parity(buff, n), ByteBits(buff[n]), GENERATOR)
  {
    FieldSplit(buff, 0, 8 * n, 8);
    assert Field(buff, 8 * n, 8) == ByteBits(buff[n]);
    StepAllConcat(Zeros(24), Field(buff, 0, 8 * n), ByteBits(buff[n]), GENERATOR);
  }

  // ---------- what the parity test means ----------

  lemma GeneratorEnds()
    ensures |GENERATOR| == 25 && GENERATOR[0] && GENERATOR[24]
  {
  }

  /** crc24q is the remainder of the message times x^24 by 0x1864CFB, and the only one. */
  lemma ParityIsRemainder(buff: seq<bv8>, len: nat, r: seq<bool>)
    requires len <= |buff|
    ensures IsRemainder(Field(buff, 0, 8 * len) + Zeros(24), GENERATOR, r) <==> r == Parity(buff, len)
  {
    GeneratorEnds();
    var m := Field(buff, 0, 8 * len);
    RegisterDivides(m, GENERATOR);
    var q := Quotient(m, GENERATOR);
    assert |q| + 24 == |m + Zeros(24)| && m + Zeros(24) == Xor(Times(q, GENERATOR), Zeros(|q|) + Parity(buff, len));
    if IsRemainder(m + Zeros(24), GENERATOR, r) {
      RemainderUnique(m + Zeros(24), GENERATOR, r, Parity(buff, len));
    }
  }

  /** The parity of a byte-wise sum is the sum of the parities. */
  lemma ParityLinear(a: seq<bv8>, b: seq<bv8>, c: seq<bv8>, len: nat)
    requires len <= |a| && len <= |b| && len <= |c|
    requires forall i :: 0 <= i < len ==> c[i] == a[i] ^ b[i]
    ensures Parity(c, len) == Xor(Parity(a, len), Parity(b, len))
  {
    GeneratorEnds();
    FieldXor(a, b, c, len);
    RegisterXor(Field(a, 0, 8 * len), Field(b, 0, 8 * len), GENERATOR);
  }

  lemma FieldXor(a: seq<bv8>, b: seq<bv8>, c: seq<bv8>, len: nat)
    requires len <= |a| && len <= |b| && len <= |c|
    requires forall i :: 0 <= i < len ==> c[i] == a[i] ^ b[i]
    ensures Field(c, 0, 8 * len) == Xor(Field(a, 0, 8 * len), Field(b, 0, 8 * len))
  {
    forall i | 0 <= i < 8 * len
      ensures BitAt(c, i) == (BitAt(a, i) != BitAt(b, i))
    {
      MaskSingle(i % 8);
      ByteXor(a[i / 8], b[i / 8], Mask(i % 8));
    }
  }

  /** The parity test of input_rtcm3 on the first `len` bytes and the three after them. */
  predicate ParityOk(buff: seq<bv8>, len: nat)
    requires len + 3 <= |buff|
  {
    Val(Parity(buff, len)) == Unsigned(buff, 8 * len, 24)
  }

  /** A frame passes exactly when its bits are a multiple of the generator. */
  lemma ParityOkMultiple(buff: seq<bv8>, len: nat)
    requires len + 3 <= |buff|
    ensures ParityOk(buff, len) <==> IsMultiple(Field(buff, 0, 8 * (len + 3)), GENERATOR)
  {
    GeneratorEnds();
    hide GENERATOR, Register, IsMultiple, Val;
    var m, r := Field(buff, 0, 8 * len), Field(buff, 8 * len, 24);
    FieldSplit(buff, 0, 8 * len, 24);
    hide Field;
    CodewordMultiple(m, r, GENERATOR);
    if ParityOk(buff, len) {
      ValInjective(Parity(buff, len), r);
    }
  }

  /** Two byte strings of one length that both pass cannot differ by one burst of at
      most 24 bits, wherever it lies. */
  lemma BurstDetected(a: seq<bv8>, b: seq<bv8>, len: nat, start: nat, span: nat)
    requires |a| == |b| == len + 3 && ParityOk(a, len) && ParityOk(b, len)
    requires span <= 24 && start + span <= 8 * |a|
    requires forall i :: 0 <= i < 8 * |a| && BitAt(a, i) != BitAt(b, i) ==> start <= i < start + span
    ensures a == b
  {
    GeneratorEnds();
    hide GENERATOR, IsMultiple, ParityOk, BitAt, Xor;
    var n := 8 * (len + 3);
    var f, g := Field(a, 0, n), Field(b, 0, n);
    ParityOkMultiple(a, len);
    ParityOkMultiple(b, len);
    MultipleXor(f, g, GENERATOR);
    forall i | 0 <= i < n && Xor(f, g)[i]
      ensures start <= i < start + span
    {
      assert f[i] == BitAt(a, i) && g[i] == BitAt(b, i);
    }
    MultipleSpan(Xor(f, g), GENERATOR, start, span);
    SameFields(a, b, n);
  }

  lemma SameFields(a: seq<bv8>, b: seq<bv8>, n: nat)
    requires |a| == |b| && n == 8 * |a| && Xor(Field(a, 0, n), Field(b, 0, n)) == Zeros(n)
    ensures a == b
  {
    hide BitAt, Xor, Zeros;
    var f, g := Field(a, 0, n), Field(b, 0, n);
    forall i | 0 <= i < n
      ensures BitAt(a, i) == BitAt(b, i)
    {
      assert f[i] == BitAt(a, i) && g[i] == BitAt(b, i) && !Xor(f, g)[i];
    }
    SameBuffer(a, b);
  }
}

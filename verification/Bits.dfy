/** Bit fields of a byte buffer: getbitu/getbits/setbitu/setbits of rtkcmn.c, the
    split-field readers of rcvraw.c and the 38-bit reader of rtcm3.c.

    Bit 0 of a buffer is the most significant bit of byte 0.  C `unsigned int`
    values are naturals below 2^32, with the wrap-around written out. */
module Bits {
  import opened Arith

  const TWO32: nat := 0x1_0000_0000

  function Pow2(n: nat): (p: nat)
    ensures p > 0
  {
    if n == 0 then 1 else 2 * Pow2(n - 1)
  }

  // ---------- numbers and bit strings ----------

  /** The number a bit string spells, most significant bit first. */
  function Val(bits: seq<bool>): (v: nat)
    ensures v < Pow2(|bits|)
  {
    if |bits| == 0 then 0
    else 2 * Val(bits[..|bits| - 1]) + (if bits[|bits| - 1] then 1 else 0)
  }

  /** The two's-complement reading of a bit string. */
  function SVal(bits: seq<bool>): int
  {
    if |bits| > 0 && bits[0] then Val(bits) - Pow2(|bits|) else Val(bits)
  }

  /** The low `len` bits of `v`, most significant first. */
  function BitsOf(v: nat, len: nat): (bits: seq<bool>)
    ensures |bits| == len
  {
    if len == 0 then [] else BitsOf(v / 2, len - 1) + [v % 2 == 1]
  }

  /** The low `len` bits of the two's-complement form of `v`. */
  function SBitsOf(v: int, len: nat): (bits: seq<bool>)
    ensures |bits| == len
  {
    BitsOf(v % Pow2(len), len)
  }

  lemma {:induction false} ValBitsOf(v: nat, len: nat)
    ensures Val(BitsOf(v, len)) == v % Pow2(len)
  {
    if len > 0 {
      ValBitsOf(v / 2, len - 1);
      HalfMod(v, Pow2(len - 1));
    }
  }

  lemma HalfMod(v: nat, p: nat)
    requires p > 0
    ensures v / (2 * p) == v / 2 / p
    ensures v % (2 * p) == 2 * (v / 2 % p) + v % 2
  {
    var q, r := v / 2 / p, v / 2 % p;
    assert v / 2 == q * p + r;
    MulAssoc(q, 2, p);
    DivModUnique(v, 2 * p, q, 2 * r + v % 2);
  }

  lemma {:induction false} BitsOfVal(bits: seq<bool>)
    ensures BitsOf(Val(bits), |bits|) == bits
  {
    if |bits| > 0 {
      BitsOfVal(bits[..|bits| - 1]);
    }
  }

  lemma ValInjective(a: seq<bool>, b: seq<bool>)
    requires |a| == |b| && Val(a) == Val(b)
    ensures a == b
  {
    BitsOfVal(a);
    BitsOfVal(b);
  }

  lemma {:induction false} ValConcat(a: seq<bool>, b: seq<bool>)
    ensures Val(a + b) == Val(a) * Pow2(|b|) + Val(b)
  {
    if |b| == 0 {
      assert a + b == a;
    } else {
      ValConcat(a, b[..|b| - 1]);
      assert (a + b)[..|a + b| - 1] == a + b[..|b| - 1];
      HornerStep(Val(a), Pow2(|b| - 1), Val(b[..|b| - 1]), if b[|b| - 1] then 1 else 0);
    }
  }

  lemma HornerStep(x: nat, p: nat, y: nat, c: nat)
    ensures 2 * (x * p + y) + c == x * (2 * p) + (2 * y + c)
  {
  }

  lemma {:induction false} Pow2Add(a: nat, b: nat)
    ensures Pow2(a + b) == Pow2(a) * Pow2(b)
  {
    if a > 0 {
      Pow2Add(a - 1, b);
    }
  }

  lemma Pow2Mono(a: nat, b: nat)
    requires a <= b
    ensures Pow2(a) <= Pow2(b)
  {
    if a < b {
      Pow2Mono(a, b - 1);
    }
  }

  lemma Pow2Thirty2()
    ensures Pow2(31) == 0x8000_0000 && Pow2(32) == TWO32
  {
    assert Pow2(8) == 256;
    Pow2Add(8, 8);
    Pow2Add(16, 8);
    assert Pow2(7) == 128;
    Pow2Add(24, 7);
  }

  lemma Pow2Int(len: nat)
    requires len <= 32
    ensures Pow2(len) <= TWO32 && (len <= 31 ==> Pow2(len) <= 0x8000_0000)
  {
    Pow2Thirty2();
    Pow2Mono(len, 32);
    if len <= 31 {
      Pow2Mono(len, 31);
    }
  }

  /** A two's-complement field holds every value of its signed range. */
  lemma SValSBitsOf(v: int, len: nat)
    requires len > 0 && 0 - Pow2(len - 1) <= v < Pow2(len - 1)
    ensures SVal(SBitsOf(v, len)) == v
  {
    var p := Pow2(len - 1);
    var u := if v < 0 then v + 2 * p else v;
    DivModUnique(u, 2 * p, 0, u);
    DivModUnique(v, 2 * p, if v < 0 then -1 else 0, u);
    ValBitsOf(u, len);
    TopBit(SBitsOf(v, len));
  }

  /** The first bit is set exactly when the value is in the upper half of the range. */
  lemma {:induction false} TopBit(bits: seq<bool>)
    requires |bits| > 0
    ensures bits[0] <==> Val(bits) >= Pow2(|bits| - 1)
  {
    if |bits| > 1 {
      TopBit(bits[..|bits| - 1]);
    } else {
      assert bits == [] + [bits[0]];
      assert Val(bits[..0]) == 0;
    }
  }

  // ---------- bits of a buffer ----------

  function Mask(k: nat): bv8
    requires k < 8
  {
    if k == 0 then 128 else if k == 1 then 64 else if k == 2 then 32 else if k == 3 then 16
    else if k == 4 then 8 else if k == 5 then 4 else if k == 6 then 2 else 1
  }

  predicate ByteBit(b: bv8, k: nat)
    requires k < 8
  {
    b & Mask(k) != 0
  }

  function SetByteBit(b: bv8, k: nat, v: bool): bv8
    requires k < 8
  {
    if v then b | Mask(k) else b & !Mask(k)
  }

  predicate BitAt(buff: seq<bv8>, i: nat)
    requires i < 8 * |buff|
  {
    ByteBit(buff[i / 8], i % 8)
  }

  /** The `len` bits of `buff` that start at bit `pos`. */
  function Field(buff: seq<bv8>, pos: nat, len: nat): (f: seq<bool>)
    requires pos + len <= 8 * |buff|
    ensures |f| == len && forall k :: 0 <= k < len ==> f[k] == BitAt(buff, pos + k)
  {
    seq(len, k requires 0 <= k < len => BitAt(buff, pos + k))
  }

  function Unsigned(buff: seq<bv8>, pos: nat, len: nat): nat
    requires pos + len <= 8 * |buff|
  {
    Val(Field(buff, pos, len))
  }

  function Signed(buff: seq<bv8>, pos: nat, len: nat): int
    requires pos + len <= 8 * |buff|
  {
    SVal(Field(buff, pos, len))
  }

  lemma FieldSplit(buff: seq<bv8>, pos: nat, a: nat, b: nat)
    requires pos + a + b <= 8 * |buff|
    ensures Field(buff, pos, a + b) == Field(buff, pos, a) + Field(buff, pos + a, b)
  {
  }

  /** The bit that getbitu shifts out: `(b >> (7 - k)) & 1`. */
  function ShiftedBit(b: bv8, k: nat): (bit: nat)
    requires k < 8
    ensures bit == if ByteBit(b, k) then 1 else 0
  {
    ShiftedBitMask(b, k);
    if (b >> (7 - k)) & 1 == 1 then 1 else 0
  }

  lemma ShiftedBitMask(b: bv8, k: nat)
    requires k < 8
    ensures ((b >> (7 - k)) & 1 == 1) == ByteBit(b, k)
  {
    if k == 0 {} else if k == 1 {} else if k == 2 {} else if k == 3 {}
    else if k == 4 {} else if k == 5 {} else if k == 6 {} else {}
  }

  /** The mask that setbitu shifts: `1 << (7 - k)`. */
  function ShiftedOne(k: nat): (m: bv8)
    requires k < 8
    ensures m == Mask(k)
  {
    assert (1 as bv8) << (7 - k) == Mask(k) by {
      if k == 0 {} else if k == 1 {} else if k == 2 {} else if k == 3 {}
      else if k == 4 {} else if k == 5 {} else if k == 6 {} else {}
    }
    (1 as bv8) << (7 - k)
  }

  lemma MaskRead(b: bv8, m: bv8, n: bv8)
    ensures m != 0 ==> (b | m) & m != 0
    ensures (b & !m) & m == 0
    ensures m & n == 0 ==> (b | m) & n == b & n && (b & !m) & n == b & n
  {
  }

  /** Writing bit k of a byte sets that bit and no other. */
  lemma SetByteBitRead(b: bv8, k: nat, v: bool, j: nat)
    requires k < 8 && j < 8
    ensures ByteBit(SetByteBit(b, k, v), j) == if j == k then v else ByteBit(b, j)
  {
    MaskRead(b, Mask(k), Mask(j));
    assert Mask(k) != 0 && (j != k ==> Mask(k) & Mask(j) == 0);
  }

  /** A byte is determined by its bits. */
  lemma SameByte(a: bv8, b: bv8)
    requires forall k :: 0 <= k < 8 ==> ByteBit(a, k) == ByteBit(b, k)
    ensures a == b
  {
    assert ByteBit(a, 0) == ByteBit(b, 0) && ByteBit(a, 1) == ByteBit(b, 1)
        && ByteBit(a, 2) == ByteBit(b, 2) && ByteBit(a, 3) == ByteBit(b, 3)
        && ByteBit(a, 4) == ByteBit(b, 4) && ByteBit(a, 5) == ByteBit(b, 5)
        && ByteBit(a, 6) == ByteBit(b, 6) && ByteBit(a, 7) == ByteBit(b, 7);
  }

  /** A buffer is determined by its bits. */
  lemma SameBuffer(a: seq<bv8>, b: seq<bv8>)
    requires |a| == |b|
    requires forall i :: 0 <= i < 8 * |a| ==> BitAt(a, i) == BitAt(b, i)
    ensures a == b
  {
    forall j | 0 <= j < |a|
      ensures a[j] == b[j]
    {
      forall k | 0 <= k < 8
        ensures ByteBit(a[j], k) == ByteBit(b[j], k)
      {
        assert BitAt(a, 8 * j + k) == BitAt(b, 8 * j + k);
      }
      SameByte(a[j], b[j]);
    }
  }
}

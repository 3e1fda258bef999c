/** getbitu, getbits, setbitu and setbits of rtkcmn.c, the split-field readers of
    rcvraw.c, and the 38-bit reader of rtcm3.c. */
module BitCodec {
  import opened Arith
  import opened Bits

  /** What a C `int` holds after a cast from `unsigned int`. */
  function ToInt32(u: nat): int
    requires u < TWO32
  {
    if u >= 0x8000_0000 then u - TWO32 else u
  }

  /** getbitu: for lengths above 32 the accumulator wraps. */
  function UBits(buff: seq<bv8>, pos: nat, len: int): (v: nat)
    requires pos + len <= 8 * |buff|
    ensures v < TWO32
  {
    if len <= 0 then 0 else Unsigned(buff, pos, len) % TWO32
  }

  lemma UBitsExact(buff: seq<bv8>, pos: nat, len: nat)
    requires len <= 32 && pos + len <= 8 * |buff|
    ensures UBits(buff, pos, len) == Unsigned(buff, pos, len) < Pow2(len)
  {
    Pow2Int(len);
    var f := Field(buff, pos, len);
    assert Val(f) < Pow2(len);
    SmallMod(Val(f), TWO32);
  }

  method Getbitu(buff: seq<bv8>, pos: nat, len: int) returns (bits: nat)
    requires pos + len <= 8 * |buff|
    ensures bits == UBits(buff, pos, len)
    ensures 0 <= len <= 32 ==> bits == Unsigned(buff, pos, len)
  {
    UBitsEmpty(buff, pos, len);
    hide UBits, Unsigned, Mask, ShiftedBit, ByteBit;
    bits := 0;
    var i := pos;
    while i < pos + len
      invariant len <= 0 ==> i == pos && bits == 0
      invariant len > 0 ==> pos <= i <= pos + len && bits == UBits(buff, pos, i - pos)
    {
      var bit := ShiftedBit(buff[i / 8], i % 8);
      UBitsStep(buff, pos, i - pos);
      bits := 2 * bits % TWO32 + bit;
      i := i + 1;
    }
    if 0 <= len <= 32 {
      UBitsExact(buff, pos, len);
    }
  }

  lemma UBitsEmpty(buff: seq<bv8>, pos: nat, len: int)
    requires pos + len <= 8 * |buff|
    ensures len <= 0 ==> UBits(buff, pos, len) == 0
    ensures len >= 0 ==> UBits(buff, pos, 0) == 0
  {
  }

  lemma UBitsStep(buff: seq<bv8>, pos: nat, n: nat)
    requires pos + n < 8 * |buff|
    ensures UBits(buff, pos, n + 1)
         == 2 * UBits(buff, pos, n) % TWO32 + (if BitAt(buff, pos + n) then 1 else 0)
  {
    hide Unsigned, BitAt;
    HornerField(buff, pos, n);
    WrapStep(Unsigned(buff, pos, n), if BitAt(buff, pos + n) then 1 else 0);
  }

  lemma WrapStep(u: nat, bit: nat)
    requires bit < 2
    ensures 2 * (u % TWO32) % TWO32 + bit == (2 * u + bit) % TWO32
  {
    var q, r := u / TWO32, u % TWO32;
    var e := if 2 * r >= TWO32 then 1 else 0;
    DivModUnique(2 * r, TWO32, e, 2 * r - e * TWO32);
    DivModUnique(2 * u + bit, TWO32, 2 * q + e, 2 * r - e * TWO32 + bit);
  }

  lemma HornerField(buff: seq<bv8>, pos: nat, n: nat)
    requires pos + n < 8 * |buff|
    ensures Unsigned(buff, pos, n + 1) == 2 * Unsigned(buff, pos, n) + (if BitAt(buff, pos + n) then 1 else 0)
    ensures Unsigned(buff, pos, 0) == 0
  {
    assert Field(buff, pos, n + 1)[..n] == Field(buff, pos, n);
  }

  function BitNumber(b: bv8, k: nat): (n: nat)
    requires k < 8
    ensures n <= 1
  {
    if ByteBit(b, k) then 1 else 0
  }

  /** Bit 0 of a byte is the most significant. */
  lemma ByteValue(b: bv8)
    ensures b as int == 128 * BitNumber(b, 0) + 64 * BitNumber(b, 1) + 32 * BitNumber(b, 2) + 16 * BitNumber(b, 3)
                        + 8 * BitNumber(b, 4) + 4 * BitNumber(b, 5) + 2 * BitNumber(b, 6) + BitNumber(b, 7)
  {
  }

  lemma BitStep(buff: seq<bv8>, pos: nat, n: nat, j: nat, k: nat)
    requires pos + n == 8 * j + k && k < 8 && j < |buff|
    ensures Unsigned(buff, pos, n + 1) == 2 * Unsigned(buff, pos, n) + BitNumber(buff[j], k)
  {
    hide Unsigned, ByteBit;
    HornerField(buff, pos, n);
  }

  /** A field of whole bytes is the number they spell, most significant byte first. */
  lemma WholeBytes(buff: seq<bv8>, a: nat, n: nat)
    requires a + n < |buff|
    ensures Unsigned(buff, 8 * a, 0) == 0
    ensures Unsigned(buff, 8 * a, 8 * n + 8) == 256 * Unsigned(buff, 8 * a, 8 * n) + buff[a + n] as int
  {
    hide *;
    var p, q, j := 8 * a, 8 * n, a + n;
    HornerField(buff, p, 0);
    ByteValue(buff[j]);
    BitStep(buff, p, q, j, 0);
    BitStep(buff, p, q + 1, j, 1);
    BitStep(buff, p, q + 2, j, 2);
    BitStep(buff, p, q + 3, j, 3);
    BitStep(buff, p, q + 4, j, 4);
    BitStep(buff, p, q + 5, j, 5);
    BitStep(buff, p, q + 6, j, 6);
    BitStep(buff, p, q + 7, j, 7);
  }

  /** getbits: two's complement for lengths 1 to 32, and the cast of getbitu elsewhere. */
  function SBits(buff: seq<bv8>, pos: nat, len: int): int
    requires pos + len <= 8 * |buff|
  {
    if len < 1 then 0
    else if len <= 32 then Signed(buff, pos, len)
    else ToInt32(UBits(buff, pos, len))
  }

  method Getbits(buff: seq<bv8>, pos: nat, len: int) returns (v: int)
    requires pos + len <= 8 * |buff|
    ensures v == SBits(buff, pos, len)
  {
    var bits := Getbitu(buff, pos, len);
    if len <= 0 || 32 <= len || bits / Pow2(len - 1) % 2 != 1 {
      if 1 <= len <= 32 {
        SignBit(buff, pos, len);
      }
      return ToInt32(bits);
    }
    SignBit(buff, pos, len);
    // the sign extension sets bits the field leaves clear, so the OR is a sum
    v := ToInt32(bits + (TWO32 - Pow2(len)));
  }

  /** The sign bit is the top bit of the unsigned value. */
  lemma SignBit(buff: seq<bv8>, pos: nat, len: nat)
    requires 1 <= len <= 32 && pos + len <= 8 * |buff|
    ensures var u := Unsigned(buff, pos, len);
            && u < Pow2(len) <= TWO32
            && (u / Pow2(len - 1) % 2 == 1 <==> u >= Pow2(len - 1))
            && Signed(buff, pos, len) == if u >= Pow2(len - 1) then u - Pow2(len) else u
    ensures Pow2(len - 1) <= 0x8000_0000 && (len == 32 ==> Pow2(31) == 0x8000_0000)
    ensures len < 32 ==> Pow2(len) <= 0x8000_0000
  {
    var f := Field(buff, pos, len);
    var p := Pow2(len - 1);
    TopBit(f);
    Pow2Thirty2();
    Pow2Mono(len, 32);
    Pow2Mono(len - 1, 31);
    if len < 32 {
      Pow2Mono(len, 31);
    }
    if Val(f) >= p {
      DivModUnique(Val(f), p, 1, Val(f) - p);
    } else {
      DivModUnique(Val(f), p, 0, Val(f));
    }
  }

  // ---------- writing ----------

  lemma {:induction false} BitsOfAt(v: nat, len: nat, k: nat)
    requires k < len
    ensures BitsOf(v, len)[k] == (v / Pow2(len - 1 - k) % 2 == 1)
  {
    if k < len - 1 {
      BitsOfAt(v / 2, len - 1, k);
      HalfMod(v, Pow2(len - 2 - k));
    }
  }

  /** Writing one bit of a buffer leaves every other bit alone. */
  lemma WriteBit(buff: seq<bv8>, i: nat, v: bool)
    requires i < 8 * |buff|
    ensures var b := buff[i / 8 := SetByteBit(buff[i / 8], i % 8, v)];
            forall j :: 0 <= j < 8 * |buff| ==> BitAt(b, j) == if j == i then v else BitAt(buff, j)
  {
    var b := buff[i / 8 := SetByteBit(buff[i / 8], i % 8, v)];
    forall j | 0 <= j < 8 * |buff|
      ensures BitAt(b, j) == if j == i then v else BitAt(buff, j)
    {
      if j / 8 == i / 8 {
        SetByteBitRead(buff[i / 8], i % 8, v, j % 8);
      }
    }
  }

  /** `after` is `before` with the bits from `pos` on replaced by `bits`. */
  ghost predicate Written(before: seq<bv8>, after: seq<bv8>, pos: nat, bits: seq<bool>)
    requires pos + |bits| <= 8 * |before|
  {
    && |after| == |before|
    && forall j :: 0 <= j < 8 * |before| ==>
         BitAt(after, j) == if pos <= j < pos + |bits| then bits[j - pos] else BitAt(before, j)
  }

  /** The body of the setbitu loop. */
  method SetOneBit(buff: array<bv8>, i: nat, on: bool)
    requires i < 8 * buff.Length
    modifies buff
    ensures buff[..] == old(buff[..])[i / 8 := SetByteBit(old(buff[i / 8]), i % 8, on)]
  {
    if on {
      buff[i / 8] := buff[i / 8] | ShiftedOne(i % 8);
    } else {
      buff[i / 8] := buff[i / 8] & !ShiftedOne(i % 8);
    }
  }

  method Setbitu(buff: array<bv8>, pos: nat, len: int, data: nat)
    requires data < TWO32
    requires 0 < len <= 32 ==> pos + len <= 8 * buff.Length
    modifies buff
    ensures len <= 0 || 32 < len ==> buff[..] == old(buff[..])
    ensures 0 < len <= 32 ==> Written(old(buff[..]), buff[..], pos, BitsOf(data, len))
  {
    if len <= 0 || 32 < len {
      return;
    }
    var mask := Pow2(len - 1);
    var i := pos;
    while i < pos + len
      invariant pos <= i <= pos + len
      invariant i < pos + len ==> mask == Pow2(pos + len - 1 - i)
      invariant Written(old(buff[..]), buff[..], pos, BitsOf(data, len)[..i - pos])
    {
      BitsOfAt(data, len, i - pos);
      ghost var was := buff[..];
      SetOneBit(buff, i, data / mask % 2 == 1);
      WrittenStep(old(buff[..]), was, buff[..], pos, BitsOf(data, len), i - pos);
      i, mask := i + 1, mask / 2;
    }
    assert BitsOf(data, len)[..len] == BitsOf(data, len);
  }

  lemma WrittenStep(a: seq<bv8>, b: seq<bv8>, c: seq<bv8>, pos: nat, bits: seq<bool>, k: nat)
    requires k < |bits| && pos + |bits| <= 8 * |a|
    requires Written(a, b, pos, bits[..k])
    requires c == b[(pos + k) / 8 := SetByteBit(b[(pos + k) / 8], (pos + k) % 8, bits[k])]
    ensures Written(a, c, pos, bits[..k + 1])
  {
    WriteBit(b, pos + k, bits[k]);
  }

  lemma BitsOfMod(v: nat, len: nat)
    ensures BitsOf(v % Pow2(len), len) == BitsOf(v, len)
  {
    ValBitsOf(v, len);
    BitsOfVal(BitsOf(v, len));
  }

  /** `data |= p` and `data &= ~p` for a power of two `p`, on the unsigned form. */
  function WithBit(u: nat, p: nat, v: bool): int
    requires p > 0
  {
    var isSet := u / p % 2 == 1;
    if v && !isSet then u + p else if !v && isSet then u - p else u
  }

  lemma WithBitIs(u: nat, p: nat, v: bool, q: nat)
    requires p > 0 && q == u / p
    ensures WithBit(u, p, v) == if v && q % 2 == 0 then u + p else if !v && q % 2 == 1 then u - p else u
  {
  }

  lemma WithBitParts(u: nat, p: nat, v: bool)
    requires p > 0
    ensures WithBit(u, p, v) >= 0
    ensures WithBit(u, p, v) % p == u % p
    ensures WithBit(u, p, v) / p == 2 * (u / p / 2) + (if v then 1 else 0)
  {
    var q, r, w := u / p, u % p, WithBit(u, p, v);
    WithBitIs(u, p, v, q);
    hide WithBit;
    assert u == q * p + r;
    QuotientMoved(u, p, q, r, w, v);
  }

  lemma QuotientMoved(u: nat, p: nat, q: nat, r: nat, w: int, v: bool)
    requires p > 0 && r < p && u == q * p + r
    requires w == if v && q % 2 == 0 then u + p else if !v && q % 2 == 1 then u - p else u
    ensures w >= 0 && w % p == r && w / p == 2 * (q / 2) + (if v then 1 else 0)
  {
    var q' := 2 * (q / 2) + (if v then 1 else 0);
    MulStep(q, p);
    ProductAtLeast(q', p, q' * p);
    DivModUnique(w, p, q', r);
  }

  lemma ProductAtLeast(q: nat, p: nat, s: int)
    requires s == q * p
    ensures s >= 0
  {
  }

  lemma WithBitFits(u: nat, p: nat, m: nat, v: bool)
    requires p > 0 && u < 2 * m * p
    ensures WithBit(u, p, v) < 2 * m * p
  {
    WithBitParts(u, p, v);
    var q, q' := u / p, WithBit(u, p, v) / p;
    if q >= 2 * m {
      MulMono(2 * m, q, p);
    } else {
      MulMono(q', 2 * m - 1, p);
      MulDist(2 * m, 1, p);
    }
  }

  /** The value that setbits writes and getbits reads back: the sign of `data`
      over the low len-1 bits of its two's-complement form. */
  function Clipped(data: int, len: nat): int
    requires len >= 1
  {
    data % Pow2(len - 1) - (if data < 0 then Pow2(len - 1) else 0)
  }

  /** setbits keeps a value exactly when it is in the signed range of the field. */
  lemma ClippedExact(data: int, len: nat)
    requires len >= 1
    ensures Clipped(data, len) == data <==> 0 - Pow2(len - 1) <= data < Pow2(len - 1)
  {
    var p := Pow2(len - 1);
    if 0 <= data < p {
      DivModUnique(data, p, 0, data);
    } else if 0 - p <= data < 0 {
      DivModUnique(data, p, -1, data + p);
    }
  }

  method Setbits(buff: array<bv8>, pos: nat, len: nat, data: int)
    requires -0x8000_0000 <= data < 0x8000_0000
    requires 1 <= len <= 32 && pos + len <= 8 * buff.Length
    modifies buff
    ensures Written(old(buff[..]), buff[..], pos, SBitsOf(Clipped(data, len), len))
    ensures Signed(buff[..], pos, len) == Clipped(data, len)
  {
    var u := if data < 0 then data + TWO32 else data;
    SetbitsBits(data, len);
    var w := WithBit(u, Pow2(len - 1), data < 0);
    Setbitu(buff, pos, len, w);
    assert Field(buff[..], pos, len) == SBitsOf(Clipped(data, len), len);
    SValSBitsOf(Clipped(data, len), len);
  }

  lemma SetbitsBits(data: int, len: nat)
    requires -0x8000_0000 <= data < 0x8000_0000 && 1 <= len <= 32
    ensures var u := if data < 0 then data + TWO32 else data;
            var w := WithBit(u, Pow2(len - 1), data < 0);
            0 <= w < TWO32 && BitsOf(w, len) == SBitsOf(Clipped(data, len), len)
    ensures 0 - Pow2(len - 1) <= Clipped(data, len) < Pow2(len - 1)
  {
    var p, m := Pow2(len - 1), Pow2(32 - len);
    Pow2Thirty2();
    Pow2Add(32 - len, len - 1);
    MulAssoc(2, m, p);
    SetbitsValue(data, p, m);
    var w := WithBit(if data < 0 then data + TWO32 else data, p, data < 0);
    BitsOfMod(w, len);
  }

  lemma SetbitsValue(data: int, p: nat, m: nat)
    requires p > 0 && 2 * m * p == TWO32 && -0x8000_0000 <= data < 0x8000_0000
    ensures var u := if data < 0 then data + TWO32 else data;
            var w := WithBit(u, p, data < 0);
            0 <= w < TWO32 && w % (2 * p) == (data % p - (if data < 0 then p else 0)) % (2 * p)
  {
    hide WithBit;
    var s := if data < 0 then 1 else 0;
    var u := if data < 0 then data + TWO32 else data;
    var w, r := WithBit(u, p, data < 0), data % p;
    WithBitParts(u, p, data < 0);
    WithBitFits(u, p, m, data < 0);
    SameRemainder(data, u, p, m);
    Recompose(w, u / p / 2, p, s, r);
    SignedLow(w, u / p / 2, p, s, r);
  }

  lemma SameRemainder(data: int, u: nat, p: nat, m: nat)
    requires p > 0 && 2 * m * p == TWO32 && (u == data || u == data + TWO32)
    ensures u % p == data % p
  {
    if u != data {
      ModAddMultiple(data, 2 * m, p);
    }
  }

  lemma Recompose(w: nat, h: nat, p: nat, s: nat, r: nat)
    requires p > 0 && w / p == 2 * h + s && w % p == r
    ensures w == h * (2 * p) + (s * p + r)
  {
    HighPart(h, p, s, r);
  }

  lemma SignedLow(w: int, h: int, p: int, s: int, r: int)
    requires 0 <= s < 2 && 0 <= r < p && w == h * (2 * p) + (s * p + r)
    ensures w % (2 * p) == (r - s * p) % (2 * p)
  {
    DivModUnique(w, 2 * p, h, s * p + r);
    DivModUnique(r - s * p, 2 * p, -s, s * p + r);
  }

  lemma HighPart(h: nat, p: nat, s: nat, r: nat)
    ensures (2 * h + s) * p + r == h * (2 * p) + (s * p + r)
  {
  }

  // ---------- split fields ----------

  /** getbitu2, in unsigned arithmetic modulo 2^32. */
  function Getbitu2(buff: seq<bv8>, p1: nat, l1: int, p2: nat, l2: nat): (v: nat)
    requires p1 + l1 <= 8 * |buff| && p2 + l2 <= 8 * |buff|
    ensures v < TWO32
  {
    (UBits(buff, p1, l1) * Pow2(l2) + UBits(buff, p2, l2)) % TWO32
  }

  /** getbits2: the first component is read signed, the sum is unsigned. */
  function Getbits2(buff: seq<bv8>, p1: nat, l1: int, p2: nat, l2: nat): int
    requires p1 + l1 <= 8 * |buff| && p2 + l2 <= 8 * |buff| && p1 + 1 <= 8 * |buff|
  {
    if UBits(buff, p1, 1) != 0 then
      ToInt32((SBits(buff, p1, l1) * Pow2(l2) + UBits(buff, p2, l2)) % TWO32)
    else
      ToInt32(Getbitu2(buff, p1, l1, p2, l2))
  }

  function Getbitu3(buff: seq<bv8>, p1: nat, l1: int, p2: nat, l2: nat, p3: nat, l3: nat): (v: nat)
    requires p1 + l1 <= 8 * |buff| && p2 + l2 <= 8 * |buff| && p3 + l3 <= 8 * |buff|
    ensures v < TWO32
  {
    (UBits(buff, p1, l1) * Pow2(l2 + l3) + UBits(buff, p2, l2) * Pow2(l3) + UBits(buff, p3, l3)) % TWO32
  }

  function Getbits3(buff: seq<bv8>, p1: nat, l1: int, p2: nat, l2: nat, p3: nat, l3: nat): int
    requires p1 + l1 <= 8 * |buff| && p2 + l2 <= 8 * |buff| && p3 + l3 <= 8 * |buff| && p1 + 1 <= 8 * |buff|
  {
    if UBits(buff, p1, 1) != 0 then
      ToInt32((SBits(buff, p1, l1) * Pow2(l2 + l3) + UBits(buff, p2, l2) * Pow2(l3) + UBits(buff, p3, l3)) % TWO32)
    else
      ToInt32(Getbitu3(buff, p1, l1, p2, l2, p3, l3))
  }

  /** merge_two_s: the low half is appended to an already sign-extended high half. */
  function MergeTwoS(a: int, b: nat, n: nat): int
  {
    ToInt32((a * Pow2(n) + b) % TWO32)
  }

  /** getbits_38, in exact arithmetic because the result is a double. */
  function Getbits38(buff: seq<bv8>, pos: nat): int
    requires pos + 38 <= 8 * |buff|
  {
    SBits(buff, pos, 32) * 64 + UBits(buff, pos + 32, 6)
  }

  lemma ToInt32Wrap(v: int)
    requires -0x8000_0000 <= v < 0x8000_0000
    ensures ToInt32(v % TWO32) == v
  {
  }

  /** Reading the parts of a field separately and shifting gives its signed value. */
  lemma {:induction false} SValConcat(a: seq<bool>, b: seq<bool>)
    requires |a| >= 1
    ensures SVal(a + b) == SVal(a) * Pow2(|b|) + Val(b)
  {
    if |b| == 0 {
      assert a + b == a;
    } else {
      var b' := b[..|b| - 1];
      SValConcat(a, b');
      assert (a + b)[..|a + b| - 1] == a + b';
      SignedHorner(SVal(a), Pow2(|b| - 1), Val(b'), if b[|b| - 1] then 1 else 0);
    }
  }

  lemma SignedHorner(x: int, p: nat, y: nat, c: nat)
    ensures 2 * (x * p + y) + c == x * (2 * p) + (2 * y + c)
  {
  }

  lemma SValRange(f: seq<bool>)
    requires 1 <= |f| <= 32
    ensures -0x8000_0000 <= SVal(f) < 0x8000_0000
    ensures !f[0] ==> SVal(f) == Val(f) < 0x8000_0000
  {
    TopBit(f);
    Pow2Int(|f|);
    Pow2Int(|f| - 1);
  }

  lemma FirstBit(buff: seq<bv8>, pos: nat)
    requires pos + 1 <= 8 * |buff|
    ensures UBits(buff, pos, 1) == if BitAt(buff, pos) then 1 else 0
  {
    UBitsExact(buff, pos, 1);
    HornerField(buff, pos, 0);
  }

  /** getbits2 is the two's-complement value of the two components put together. */
  lemma Getbits2Value(buff: seq<bv8>, p1: nat, l1: nat, p2: nat, l2: nat)
    requires 1 <= l1 && l1 + l2 <= 32 && p1 + l1 <= 8 * |buff| && p2 + l2 <= 8 * |buff|
    ensures Getbits2(buff, p1, l1, p2, l2) == SVal(Field(buff, p1, l1) + Field(buff, p2, l2))
  {
    var a, b := Field(buff, p1, l1), Field(buff, p2, l2);
    FirstPart(buff, p1, l1);
    LowPart(buff, p2, l2);
    SValConcat(a, b);
    SValRange(a + b);
    ValConcat(a, b);
    hide UBits, SBits, Pow2, Val, SVal, Field;
    if a[0] {
      WrapIs(SBits(buff, p1, l1), UBits(buff, p2, l2), Pow2(l2), SVal(a + b));
    } else {
      WrapIs(UBits(buff, p1, l1), UBits(buff, p2, l2), Pow2(l2), SVal(a + b));
    }
  }

  /** The part with the sign. */
  lemma FirstPart(buff: seq<bv8>, pos: nat, len: nat)
    requires 1 <= len <= 32 && pos + len <= 8 * |buff|
    ensures var a := Field(buff, pos, len);
            && (UBits(buff, pos, 1) != 0 <==> a[0]) && SBits(buff, pos, len) == SVal(a) && UBits(buff, pos, len) == Val(a)
            && (!a[0] ==> SVal(a) == Val(a))
  {
    UBitsExact(buff, pos, len);
    FirstBit(buff, pos);
    hide UBits, Val;
  }

  lemma LowPart(buff: seq<bv8>, pos: nat, len: nat)
    requires len <= 32 && pos + len <= 8 * |buff|
    ensures UBits(buff, pos, len) == Val(Field(buff, pos, len))
  {
    UBitsExact(buff, pos, len);
  }

  lemma WrapIs(x: int, y: int, p: int, v: int)
    requires v == x * p + y && -0x8000_0000 <= v < 0x8000_0000
    ensures ToInt32((x * p + y) % TWO32) == v
  {
    hide ToInt32;
    ToInt32Wrap(v);
  }

  /** getbits3 is the two's-complement value of the three components put together. */
  lemma Getbits3Value(buff: seq<bv8>, p1: nat, l1: nat, p2: nat, l2: nat, p3: nat, l3: nat)
    requires 1 <= l1 && l1 + l2 + l3 <= 32
    requires p1 + l1 <= 8 * |buff| && p2 + l2 <= 8 * |buff| && p3 + l3 <= 8 * |buff|
    ensures Getbits3(buff, p1, l1, p2, l2, p3, l3)
         == SVal(Field(buff, p1, l1) + Field(buff, p2, l2) + Field(buff, p3, l3))
  {
    hide Val, Pow2, Field, UBits;
    var a, b, c := Field(buff, p1, l1), Field(buff, p2, l2), Field(buff, p3, l3);
    UBitsExact(buff, p1, l1);
    UBitsExact(buff, p2, l2);
    UBitsExact(buff, p3, l3);
    FirstBit(buff, p1);
    assert a + b + c == a + (b + c);
    var x := SVal(a) * Pow2(l2 + l3) + Val(b) * Pow2(l3) + Val(c);
    assert x == SVal(a + (b + c)) by { SValThree(a, b, c); }
    assert ToInt32(x % TWO32) == x by { SValRange(a + (b + c)); ToInt32Wrap(x); }
  }

  lemma SValThree(a: seq<bool>, b: seq<bool>, c: seq<bool>)
    requires 1 <= |a|
    ensures SVal(a + (b + c)) == SVal(a) * Pow2(|b| + |c|) + Val(b) * Pow2(|c|) + Val(c)
  {
    hide Val, SVal, Pow2;
    ValConcat(b, c);
    SValConcat(a, b + c);
    ThreeSum(SVal(a), Pow2(|b + c|), Val(b), Pow2(|c|), Val(c), Val(b + c));
  }

  lemma ThreeSum(x: int, p: int, y: int, q: int, z: int, yz: int)
    requires yz == y * q + z
    ensures x * p + yz == x * p + y * q + z
  {
  }

  lemma MergeIs(x: int, y: nat, n: nat, v: int)
    requires v == x * Pow2(n) + y && -0x8000_0000 <= v < 0x8000_0000
    ensures MergeTwoS(x, y, n) == v
  {
    hide ToInt32, Pow2;
    ToInt32Wrap(v);
  }

  /** merge_two_s appends n bits to a value that came from a signed field. */
  lemma MergeTwoSValue(a: seq<bool>, b: seq<bool>)
    requires 1 <= |a| && |a| + |b| <= 32
    ensures MergeTwoS(SVal(a), Val(b), |b|) == SVal(a + b)
  {
    SValConcat(a, b);
    SValRange(a + b);
    MergeIs(SVal(a), Val(b), |b|, SVal(a + b));
  }

  /** getbits_38 is the two's-complement value of the 38-bit field. */
  lemma Getbits38Value(buff: seq<bv8>, pos: nat)
    requires pos + 38 <= 8 * |buff|
    ensures Getbits38(buff, pos) == Signed(buff, pos, 38)
  {
    UBitsExact(buff, pos + 32, 6);
    FieldSplit(buff, pos, 32, 6);
    SValConcat(Field(buff, pos, 32), Field(buff, pos + 32, 6));
    assert Pow2(6) == 64;
  }
}

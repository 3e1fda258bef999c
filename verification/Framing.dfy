/** The byte-fed RTCM 3 framing machine input_rtcm3 and the frame encoder gen_rtcm3
    of rtcm.c (RTCM 10403.2, section 4). */
module Framing {
  import opened Bits
  import opened BitCodec
  import opened Crc24q
  import opened Optional

  const PREAMBLE: bv8 := 0xD3

  /** The message length field of a header. */
  function LengthField(buff: seq<bv8>): (n: nat)
    requires |buff| >= 3
    ensures n < 1024
  {
    assert Pow2(10) == 1024;
    Unsigned(buff, 14, 10)
  }

  /** The bytes of a frame that carries `payload`.  The six reserved bits are free. */
  ghost predicate IsFrame(f: seq<bv8>, payload: seq<bv8>)
  {
    && |f| == |payload| + 6
    && f[0] == PREAMBLE
    && LengthField(f) == |payload|
    && f[3..|f| - 3] == payload
    && ParityOk(f, |f| - 3)
  }

  /** The length field in bytes: the low two bits of the second byte and the third byte. */
  lemma LengthBytes(f: seq<bv8>)
    requires |f| >= 3
    ensures LengthField(f) == 256 * (f[1] as int % 4) + f[2] as int
  {
    hide *;
    LengthBits(f);
    ByteValue(f[1]);
    ByteValue(f[2]);
    LowBits(f[1] as int, BitNumber(f[1], 0), BitNumber(f[1], 1), BitNumber(f[1], 2), BitNumber(f[1], 3), BitNumber(f[1], 4),
            BitNumber(f[1], 5), BitNumber(f[1], 6), BitNumber(f[1], 7));
  }

  lemma LengthBits(f: seq<bv8>)
    requires |f| >= 3
    ensures LengthField(f) == 512 * BitNumber(f[1], 6) + 256 * BitNumber(f[1], 7)
      + 128 * BitNumber(f[2], 0) + 64 * BitNumber(f[2], 1) + 32 * BitNumber(f[2], 2) + 16 * BitNumber(f[2], 3)
      + 8 * BitNumber(f[2], 4) + 4 * BitNumber(f[2], 5) + 2 * BitNumber(f[2], 6) + BitNumber(f[2], 7)
  {
    hide BitNumber, Unsigned;
    HornerField(f, 14, 0);
    BitStep(f, 14, 0, 1, 6);
    BitStep(f, 14, 1, 1, 7);
    BitStep(f, 14, 2, 2, 0);
    BitStep(f, 14, 3, 2, 1);
    BitStep(f, 14, 4, 2, 2);
    BitStep(f, 14, 5, 2, 3);
    BitStep(f, 14, 6, 2, 4);
    BitStep(f, 14, 7, 2, 5);
    BitStep(f, 14, 8, 2, 6);
    BitStep(f, 14, 9, 2, 7);
  }

  lemma LowBits(b: int, b0: nat, b1: nat, b2: nat, b3: nat, b4: nat, b5: nat, b6: nat, b7: nat)
    requires b == 128 * b0 + 64 * b1 + 32 * b2 + 16 * b3 + 8 * b4 + 4 * b5 + 2 * b6 + b7
    requires b6 <= 1 && b7 <= 1
    ensures b % 4 == 2 * b6 + b7
  {
  }

  /** What one byte does to the bytes collected so far, and the message it completes. */
  ghost function Next(s: seq<bv8>, data: bv8): (seq<bv8>, Option<seq<bv8>>)
  {
    if |s| == 0 then
      (if data == PREAMBLE then [data] else [], None)
    else
      var t := s + [data];
      if |t| < 3 || |t| < LengthField(t) + 6 then (t, None)
      else ([], if ParityOk(t, |t| - 3) then Some(t[3..|t| - 3]) else None)
  }

  /** The states that the machine reaches. */
  ghost predicate Reachable(s: seq<bv8>)
  {
    && (|s| > 0 ==> s[0] == PREAMBLE)
    && (|s| >= 3 ==> |s| < LengthField(s) + 6)
  }

  class Rtcm {
    var nbyte: nat
    var len: nat
    var buff: array<bv8>

    ghost predicate Valid()
      reads this, buff
    {
      && buff.Length == 1200
      && nbyte <= 1028
      && (nbyte >= 3 ==> len == LengthField(buff[..nbyte]) + 3)
      && Reachable(buff[..nbyte])
    }

    /** The bytes of the frame being received. */
    ghost function Pending(): seq<bv8>
      reads this, buff
      requires Valid()
    {
      buff[..nbyte]
    }

    constructor ()
      ensures Valid() && Pending() == [] && fresh(buff)
    {
      buff := new bv8[1200];
      nbyte, len := 0, 0;
    }

    /** input_rtcm3, up to the call of the message decoder: `message` is the payload
        that the decoder finds in `buff` when it is called. */
    method Input(data: bv8) returns (message: Option<seq<bv8>>)
      requires Valid()
      modifies this, buff
      ensures Valid() && buff == old(buff)
      ensures Pending() == Next(old(Pending()), data).0
      ensures message == Next(old(Pending()), data).1
      ensures message.Some? ==> 3 <= len <= buff.Length && buff[3..len] == message.value
    {
      hide LengthField, ParityOk;
      if nbyte == 0 {
        assert buff[..0] == [];
        if data != PREAMBLE {
          return None;
        }
        buff[nbyte] := data;
        nbyte := nbyte + 1;
        assert buff[..nbyte] == [data];
        return None;
      }
      ghost var was := buff[..nbyte];
      buff[nbyte] := data;
      nbyte := nbyte + 1;
      var frame := buff[..nbyte];
      assert frame == was + [data];
      if nbyte == 3 {
        var n := ReadLength(frame);
        len := n + 3;
      } else if nbyte > 3 {
        LengthAppend(was, data);
      }
      if nbyte < 3 || nbyte < len + 3 {
        return None;
      }
      nbyte := 0;
      assert buff[..nbyte] == [];
      var ok := CheckParity(frame, len);
      if !ok {
        return None;
      }
      SameSlice(buff[..], len + 3, frame, 3, len);
      return Some(buff[3..len]);
    }
  }

  lemma SameSlice(b: seq<bv8>, n: nat, f: seq<bv8>, lo: nat, hi: nat)
    requires n <= |b| && f == b[..n] && lo <= hi <= n
    ensures f[lo..hi] == b[lo..hi]
  {
  }

  method ReadLength(frame: seq<bv8>) returns (n: nat)
    requires |frame| >= 3
    ensures n == LengthField(frame)
  {
    n := Getbitu(frame, 14, 10);
  }

  /** The parity comparison of input_rtcm3. */
  method CheckParity(frame: seq<bv8>, len: nat) returns (ok: bool)
    requires len + 3 <= |frame|
    ensures ok == ParityOk(frame, len)
  {
    hide Val, Unsigned, UBits, Parity, Coefficients;
    var crc := Crc24q.Crc24q(frame, len);
    var sent := Getbitu(frame, len * 8, 24);
    ok := Val(Coefficients(crc)) == sent;
  }

  lemma LengthAppend(s: seq<bv8>, data: bv8)
    requires |s| >= 3
    ensures LengthField(s + [data]) == LengthField(s)
  {
    assert Field(s + [data], 14, 10) == Field(s, 14, 10);
  }

  // ---------- runs ----------

  /** The state after a run of bytes, and the messages handed to the decoder. */
  ghost function Run(s: seq<bv8>, bytes: seq<bv8>): (seq<bv8>, seq<seq<bv8>>)
  {
    if |bytes| == 0 then (s, [])
    else
      var (s1, ms) := Run(s, bytes[..|bytes| - 1]);
      var (s2, m) := Next(s1, bytes[|bytes| - 1]);
      (s2, if m.Some? then ms + [m.value] else ms)
  }

  lemma {:induction false} RunConcat(s: seq<bv8>, a: seq<bv8>, b: seq<bv8>)
    ensures var (s1, ms) := Run(s, a);
            var (s2, ns) := Run(s1, b);
            Run(s, a + b).0 == s2 && Run(s, a + b).1 == ms + ns
  {
    hide Next;
    if |b| == 0 {
      assert a + b == a;
    } else {
      var b' := b[..|b| - 1];
      RunConcat(s, a, b');
      assert (a + b)[..|a + b| - 1] == a + b';
    }
  }

  lemma NextReachable(s: seq<bv8>, data: bv8)
    requires Reachable(s)
    ensures Reachable(Next(s, data).0)
    ensures |s| <= 1028
  {
    if |s| >= 3 {
      LengthAppend(s, data);
    }
  }

  /** In every reachable state fewer than 1029 bytes are held, and they start a frame. */
  lemma {:induction false} RunReachable(s: seq<bv8>, bytes: seq<bv8>)
    requires Reachable(s)
    ensures Reachable(Run(s, bytes).0) && |Run(s, bytes).0| <= 1028
  {
    if |bytes| > 0 {
      RunReachable(s, bytes[..|bytes| - 1]);
      NextReachable(Run(s, bytes[..|bytes| - 1]).0, bytes[|bytes| - 1]);
    }
    NextReachable(Run(s, bytes).0, 0);
  }

  /** An unfinished frame is left behind before 1029 bytes have been collected. */
  lemma {:induction false} ReturnsToIdle(s: seq<bv8>, bytes: seq<bv8>)
    requires Reachable(s) && |s| > 0 && |s| + |bytes| >= 1029
    ensures exists k :: 0 < k <= |bytes| && |s| + k <= 1029 && Run(s, bytes[..k]).0 == []
    decreases |bytes|
  {
    hide Next, Reachable;
    NextReachable(s, 0);
    NextReachable(s, bytes[0]);
    var t := Next(s, bytes[0]).0;
    RunOne(s, bytes[0], bytes[..1]);
    if t != [] {
      NextGrows(s, bytes[0]);
      NextReachable(t, 0);
      ReturnsToIdle(t, bytes[1..]);
      var k :| 0 < k <= |bytes[1..]| && |t| + k <= 1029 && Run(t, bytes[1..][..k]).0 == [];
      RunConcat(s, bytes[..1], bytes[1..][..k]);
      assert bytes[..1] + bytes[1..][..k] == bytes[..k + 1];
    }
  }

  lemma NextGrows(s: seq<bv8>, data: bv8)
    requires |s| > 0 && Next(s, data).0 != []
    ensures Next(s, data).0 == s + [data]
  {
  }

  lemma RunStep(s: seq<bv8>, bytes: seq<bv8>)
    requires |bytes| > 0
    ensures var (s1, ms) := Run(s, bytes[..|bytes| - 1]);
            var (s2, m) := Next(s1, bytes[|bytes| - 1]);
            Run(s, bytes) == (s2, if m.Some? then ms + [m.value] else ms)
  {
    hide Next;
  }

  lemma RunOne(s: seq<bv8>, data: bv8, one: seq<bv8>)
    requires one == [data]
    ensures Run(s, one).0 == Next(s, data).0
  {
    assert one[..0] == [];
  }

  // ---------- round trip ----------

  /** A byte string with the header and length of a frame, whatever its parity. */
  ghost predicate HasFrameShape(f: seq<bv8>)
  {
    |f| >= 6 && f[0] == PREAMBLE && |f| == LengthField(f) + 6
  }

  lemma {:induction false} ShapePrefix(f: seq<bv8>, k: nat)
    requires HasFrameShape(f) && k < |f|
    ensures Run([], f[..k]).0 == f[..k] && Run([], f[..k]).1 == []
  {
    hide ParityOk, LengthField;
    if k > 0 {
      ShapePrefix(f, k - 1);
      assert f[..k][..k - 1] == f[..k - 1];
      assert f[..k - 1] + [f[k - 1]] == f[..k];
      if k >= 3 {
        LengthPrefix(f, k);
      }
    } else {
      assert f[..0] == [];
    }
  }

  lemma LengthPrefix(f: seq<bv8>, k: nat)
    requires 3 <= k <= |f|
    ensures LengthField(f[..k]) == LengthField(f)
  {
    assert Field(f[..k], 14, 10) == Field(f, 14, 10);
  }

  /** From idle, a string of the shape of a frame delivers its payload exactly when
      its parity is right, and the machine is idle again. */
  lemma ShapeRun(f: seq<bv8>)
    requires HasFrameShape(f)
    ensures Run([], f).0 == []
    ensures Run([], f).1 == if ParityOk(f, |f| - 3) then [f[3..|f| - 3]] else []
  {
    hide Next, ParityOk, LengthField;
    var n := |f| - 1;
    ShapePrefix(f, n);
    ShapeLast(f, f[..n]);
  }

  lemma ShapeLast(f: seq<bv8>, s: seq<bv8>)
    requires HasFrameShape(f) && s == f[..|f| - 1]
    ensures Next(s, f[|f| - 1]).0 == []
    ensures Next(s, f[|f| - 1]).1 == if ParityOk(f, |f| - 3) then Some(f[3..|f| - 3]) else None
  {
    hide ParityOk, LengthField;
    assert s + [f[|f| - 1]] == f;
  }

  lemma {:induction false} FillerRun(bytes: seq<bv8>)
    requires PREAMBLE !in bytes
    ensures Run([], bytes).0 == [] && Run([], bytes).1 == []
  {
    hide ParityOk, LengthField;
    if |bytes| > 0 {
      FillerRun(bytes[..|bytes| - 1]);
    }
  }

  datatype Item = Filler(bytes: seq<bv8>) | Framed(bytes: seq<bv8>, payload: seq<bv8>)

  ghost predicate ValidItem(x: Item)
  {
    match x
    case Filler(bytes) => PREAMBLE !in bytes
    case Framed(bytes, payload) => IsFrame(bytes, payload)
  }

  function Stream(items: seq<Item>): seq<bv8>
  {
    if |items| == 0 then [] else Stream(items[..|items| - 1]) + items[|items| - 1].bytes
  }

  function Payloads(items: seq<Item>): seq<seq<bv8>>
  {
    if |items| == 0 then []
    else
      var ps := Payloads(items[..|items| - 1]);
      match items[|items| - 1]
      case Filler(_) => ps
      case Framed(_, payload) => ps + [payload]
  }

  /** Framing round trip: exactly the payloads, in order, and idle at the end. */
  lemma {:induction false} StreamRoundTrip(items: seq<Item>)
    requires forall x :: x in items ==> ValidItem(x)
    ensures Run([], Stream(items)).0 == [] && Run([], Stream(items)).1 == Payloads(items)
  {
    hide Next, ParityOk, LengthField;
    if |items| > 0 {
      var init, x := items[..|items| - 1], items[|items| - 1];
      StreamRoundTrip(init);
      assert x in items;
      match x {
        case Filler(bytes) => FillerRun(bytes);
        case Framed(bytes, payload) => ShapeRun(bytes);
      }
      RunConcat([], Stream(init), x.bytes);
    }
  }

  /** Every delivered message is the payload of a frame in the stream; the frames
      do not overlap and come in order; the bytes held are the end of the stream. */
  lemma {:induction false} DeliveredAreFrames(bytes: seq<bv8>) returns (cuts: seq<(nat, nat)>)
    ensures var (s, ms) := Run([], bytes);
            && |s| <= |bytes| && s == bytes[|bytes| - |s|..]
            && Cuts(bytes, ms, cuts, |bytes| - |s|)
  {
    hide Next, Reachable, IsFrame, Cuts, Run;
    if |bytes| == 0 {
      cuts := CutsEmpty(bytes);
    } else {
      var n := |bytes| - 1;
      var (s, ms) := Run([], bytes[..n]);
      cuts := DeliveredAreFrames(bytes[..n]);
      RunFromIdle(bytes[..n]);
      RunStep([], bytes);
      cuts := CutsNext(bytes, s, ms, cuts);
    }
  }

  lemma CutsNext(bytes: seq<bv8>, s: seq<bv8>, ms: seq<seq<bv8>>, cuts: seq<(nat, nat)>) returns (cuts': seq<(nat, nat)>)
    requires |bytes| > |s| && Reachable(s)
    requires var n := |bytes| - 1; s == bytes[..n][n - |s|..] && Cuts(bytes[..n], ms, cuts, n - |s|)
    ensures var (t, m) := Next(s, bytes[|bytes| - 1]);
            && |t| <= |bytes| && t == bytes[|bytes| - |t|..]
            && Cuts(bytes, if m.Some? then ms + [m.value] else ms, cuts', |bytes| - |t|)
  {
    hide Next, Reachable, IsFrame, Cuts;
    var n := |bytes| - 1;
    CutsLonger(bytes, n, ms, cuts, n - |s|);
    DeliveredStep(s, bytes[n]);
    assert s + [bytes[n]] == bytes[n - |s|..] == bytes[n - |s|..|bytes|];
    var m := Next(s, bytes[n]).1;
    if m.Some? {
      CutsAppend(bytes, ms, cuts, n - |s|, m.value);
      cuts' := cuts + [(n - |s|, |bytes|)];
    } else {
      cuts' := cuts;
      CutsEnd(bytes, ms, cuts, n - |s|, |bytes| - |Next(s, bytes[n]).0|);
    }
  }

  lemma CutsEmpty(bytes: seq<bv8>) returns (cuts: seq<(nat, nat)>)
    requires |bytes| == 0
    ensures Run([], bytes).0 == [] && Cuts(bytes, Run([], bytes).1, cuts, 0)
  {
    cuts := [];
  }

  lemma CutsEnd(bytes: seq<bv8>, ms: seq<seq<bv8>>, cuts: seq<(nat, nat)>, end: int, later: int)
    requires Cuts(bytes, ms, cuts, end) && end <= later <= |bytes|
    ensures Cuts(bytes, ms, cuts, later)
  {
  }

  lemma RunFromIdle(bytes: seq<bv8>)
    ensures Reachable(Run([], bytes).0)
  {
    RunReachable([], bytes);
  }

  /** The frames that were delivered, by position in the stream. */
  ghost predicate Cuts(bytes: seq<bv8>, ms: seq<seq<bv8>>, cuts: seq<(nat, nat)>, end: int)
  {
    && |cuts| == |ms| && end <= |bytes|
    && (forall i :: 0 <= i < |cuts| ==>
          cuts[i].0 <= cuts[i].1 <= end && IsFrame(bytes[cuts[i].0..cuts[i].1], ms[i]))
    && (forall i, j :: 0 <= i < j < |cuts| ==> cuts[i].1 <= cuts[j].0)
  }

  lemma CutsLonger(bytes: seq<bv8>, n: nat, ms: seq<seq<bv8>>, cuts: seq<(nat, nat)>, end: int)
    requires n <= |bytes| && Cuts(bytes[..n], ms, cuts, end)
    ensures Cuts(bytes, ms, cuts, end)
  {
    forall i | 0 <= i < |cuts|
      ensures IsFrame(bytes[cuts[i].0..cuts[i].1], ms[i])
    {
      assert bytes[cuts[i].0..cuts[i].1] == bytes[..n][cuts[i].0..cuts[i].1];
    }
  }

  lemma CutsAppend(bytes: seq<bv8>, ms: seq<seq<bv8>>, cuts: seq<(nat, nat)>, start: nat, m: seq<bv8>)
    requires start <= |bytes| && Cuts(bytes, ms, cuts, start) && IsFrame(bytes[start..|bytes|], m)
    ensures Cuts(bytes, ms + [m], cuts + [(start, |bytes|)], |bytes|)
  {
  }

  lemma DeliveredStep(s: seq<bv8>, data: bv8)
    requires Reachable(s)
    ensures var (t, m) := Next(s, data);
            && (m.Some? ==> IsFrame(s + [data], m.value) && t == [])
            && (t == [] || t == s + [data])
  {
    if |s| >= 3 {
      LengthAppend(s, data);
    }
  }

  /** A frame hit by one burst of at most 24 bits outside its length field is dropped. */
  lemma BurstDropped(f: seq<bv8>, payload: seq<bv8>, g: seq<bv8>, start: nat, span: nat)
    requires IsFrame(f, payload) && |g| == |f| && g != f
    requires g[0] == PREAMBLE && LengthField(g) == LengthField(f)
    requires span <= 24 && start + span <= 8 * |f|
    requires forall i :: 0 <= i < 8 * |f| && BitAt(f, i) != BitAt(g, i) ==> start <= i < start + span
    ensures Run([], g).0 == [] && Run([], g).1 == []
  {
    hide ParityOk, LengthField, Run;
    ShapeRun(g);
    if ParityOk(g, |g| - 3) {
      BurstDetected(f, g, |f| - 3, start, span);
    }
  }

  // ---------- the encoder ----------

  lemma HeaderBits(f: seq<bv8>)
    requires |f| >= 3 && Field(f, 0, 8) == BitsOf(0xD3, 8)
    ensures f[0] == PREAMBLE
  {
    var b := BitsOf(0xD3, 8);
    assert b == [true, true, false, true, false, false, true, true];
    forall k | 0 <= k < 8
      ensures ByteBit(f[0], k) == ByteBit(PREAMBLE, k)
    {
      assert Field(f, 0, 8)[k] == BitAt(f, k);
    }
    SameByte(f[0], PREAMBLE);
  }

  /** A field that a write does not touch. */
  lemma WrittenApart(a: seq<bv8>, b: seq<bv8>, pos: nat, bits: seq<bool>, p: nat, n: nat)
    requires pos + |bits| <= 8 * |a| && Written(a, b, pos, bits)
    requires p + n <= 8 * |a| && (p + n <= pos || pos + |bits| <= p)
    ensures Field(b, p, n) == Field(a, p, n)
  {
  }

  lemma WrittenHere(a: seq<bv8>, b: seq<bv8>, pos: nat, bits: seq<bool>)
    requires pos + |bits| <= 8 * |a| && Written(a, b, pos, bits)
    ensures Field(b, pos, |bits|) == bits && |b| == |a|
  {
  }

  /** The bits of a message under construction, up to bit `end`: preamble, reserved
      bits, body and zero padding. */
  ghost predicate Layout(b: seq<bv8>, nbit: nat, end: nat, body: seq<bool>)
  {
    && 24 <= nbit <= end <= 8 * |b| && |body| == nbit - 24
    && Field(b, 0, 8) == BitsOf(0xD3, 8)
    && Field(b, 8, 6) == BitsOf(0, 6)
    && Field(b, 24, nbit - 24) == body
    && forall j :: nbit <= j < end ==> !BitAt(b, j)
  }

  lemma LayoutStart(a: seq<bv8>, b: seq<bv8>, c: seq<bv8>, d: seq<bv8>, nbit: nat)
    requires 24 <= nbit <= 8 * |a|
    requires Written(a, b, 0, BitsOf(0xD3, 8))
    requires |b| == |a| && Written(b, c, 8, BitsOf(0, 6))
    requires |c| == |a| && Written(c, d, 14, BitsOf(0, 10))
    ensures Layout(d, nbit, nbit, Field(a, 24, nbit - 24))
  {
    hide BitsOf;
  }

  lemma LayoutPad(b: seq<bv8>, c: seq<bv8>, nbit: nat, end: nat, body: seq<bool>)
    requires end < 8 * |b| && Layout(b, nbit, end, body) && Written(b, c, end, BitsOf(0, 1))
    ensures Layout(c, nbit, end + 1, body)
  {
    assert BitsOf(0, 1) == [false];
    WrittenApart(b, c, end, BitsOf(0, 1), 0, 8);
    WrittenApart(b, c, end, BitsOf(0, 1), 8, 6);
    WrittenApart(b, c, end, BitsOf(0, 1), 24, nbit - 24);
  }

  lemma LayoutKept(b: seq<bv8>, c: seq<bv8>, nbit: nat, end: nat, body: seq<bool>, pos: nat, bits: seq<bool>)
    requires pos + |bits| <= 8 * |b| && Layout(b, nbit, end, body) && Written(b, c, pos, bits)
    requires (14 <= pos && pos + |bits| <= 24) || end <= pos
    ensures Layout(c, nbit, end, body)
  {
    WrittenApart(b, c, pos, bits, 0, 8);
    WrittenApart(b, c, pos, bits, 8, 6);
    WrittenApart(b, c, pos, bits, 24, nbit - 24);
  }

  /** The padding loop of gen_rtcm3. */
  method PadToByte(buff: array<bv8>, nbit: nat, ghost body: seq<bool>) returns (i: nat)
    requires nbit + 7 <= 8 * buff.Length && Layout(buff[..], nbit, nbit, body)
    modifies buff
    ensures i == 8 * ((nbit + 7) / 8) && Layout(buff[..], nbit, i, body)
  {
    hide Layout, Written, BitsOf;
    i := nbit;
    while i % 8 != 0
      invariant nbit <= i <= 8 * ((nbit + 7) / 8)
      invariant Layout(buff[..], nbit, i, body)
      decreases 8 * ((nbit + 7) / 8) - i
    {
      ghost var b := buff[..];
      Setbitu(buff, i, 1, 0);
      LayoutPad(b, buff[..], nbit, i, body);
      i := i + 1;
    }
  }

  /** gen_rtcm3 after encode_rtcm3 has put the message body at bits 24 to nbit. */
  method GenRtcm3(buff: array<bv8>, nbit: nat) returns (ok: bool, nbyte: nat)
    requires 24 <= nbit && nbit + 31 <= 8 * buff.Length
    modifies buff
    ensures ok <==> (nbit + 7) / 8 < 3 + 1024
    ensures ok ==> nbyte == (nbit + 7) / 8 + 3 <= buff.Length
    ensures ok ==> Layout(buff[..], nbit, 8 * (nbyte - 3), old(Field(buff[..], 24, nbit - 24)))
    ensures ok ==> IsFrame(buff[..nbyte], buff[3..nbyte - 3])
  {
    hide Layout, Written, IsFrame, BitsOf, Val;
    ghost var a, body := buff[..], Field(buff[..], 24, nbit - 24);
    Setbitu(buff, 0, 8, 0xD3);
    ghost var b := buff[..];
    Setbitu(buff, 8, 6, 0);
    ghost var c := buff[..];
    Setbitu(buff, 14, 10, 0);
    LayoutStart(a, b, c, buff[..], nbit);
    var i := PadToByte(buff, nbit, body);
    var len := i / 8;
    nbyte := 0;
    if len >= 3 + 1024 {
      return false, nbyte;
    }
    b := buff[..];
    Setbitu(buff, 14, 10, len - 3);
    LayoutKept(b, buff[..], nbit, i, body, 14, BitsOf(len - 3, 10));
    c := buff[..];
    var crc := Crc24q.Crc24q(buff[..], len);
    Pow2Int(24);
    Setbitu(buff, i, 24, Val(Coefficients(crc)));
    LayoutKept(c, buff[..], nbit, i, body, i, BitsOf(Val(Coefficients(crc)), 24));
    FrameMade(b, c, buff[..], nbit, body, len);
    return true, len + 3;
  }

  lemma FrameMade(b: seq<bv8>, c: seq<bv8>, d: seq<bv8>, nbit: nat, body: seq<bool>, len: nat)
    requires 3 <= len < 1027 && len + 3 <= |b| == |c| == |d|
    requires Written(b, c, 14, BitsOf(len - 3, 10))
    requires Written(c, d, 8 * len, BitsOf(Val(Parity(c, len)), 24))
    requires Layout(d, nbit, 8 * len, body)
    ensures IsFrame(d[..len + 3], d[3..len])
  {
    hide BitsOf, Parity, Written;
    var f := d[..len + 3];
    WrittenHere(b, c, 14, BitsOf(len - 3, 10));
    WrittenApart(c, d, 8 * len, BitsOf(Val(Parity(c, len)), 24), 14, 10);
    WrittenApart(c, d, 8 * len, BitsOf(Val(Parity(c, len)), 24), 0, 8 * len);
    WrittenHere(c, d, 8 * len, BitsOf(Val(Parity(c, len)), 24));
    FrameLength(f, d, len);
    FrameParity(f, c, d, len);
    assert Field(f, 0, 8) == Field(d, 0, 8);
    HeaderBits(f);
  }

  lemma FrameLength(f: seq<bv8>, d: seq<bv8>, len: nat)
    requires 3 <= len < 1027 && len + 3 <= |d| && f == d[..len + 3]
    requires Field(d, 14, 10) == BitsOf(len - 3, 10)
    ensures LengthField(f) == len - 3
  {
    hide BitsOf;
    assert Field(f, 14, 10) == Field(d, 14, 10);
    ValBitsOf(len - 3, 10);
    assert Pow2(10) == 1024;
  }

  lemma FrameParity(f: seq<bv8>, c: seq<bv8>, d: seq<bv8>, len: nat)
    requires len + 3 <= |c| == |d| && f == d[..len + 3]
    requires Field(d, 0, 8 * len) == Field(c, 0, 8 * len)
    requires Field(d, 8 * len, 24) == BitsOf(Val(Parity(c, len)), 24)
    ensures ParityOk(f, len)
  {
    hide BitsOf, Val, Parity;
    BitsOfVal(Parity(c, len));
    assert Field(f, 0, 8 * len) == Field(d, 0, 8 * len);
    assert Field(f, 8 * len, 24) == Field(d, 8 * len, 24);
    SameParity(f, c, len);
  }

  lemma SameParity(f: seq<bv8>, c: seq<bv8>, len: nat)
    requires len <= |f| && len <= |c| && Field(f, 0, 8 * len) == Field(c, 0, 8 * len)
    ensures Parity(f, len) == Parity(c, len)
  {
  }
}

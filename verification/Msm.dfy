/** The multi-signal messages 4 to 7 of rtcm3.c: header and body as bits, and the values
    the decoders make of them. */
module Msm {
  import opened Bits
  import opened BitCodec
  import opened MsmBits
  import opened Optional

  datatype System = Gps | Glo | Gal | Qzs | Sbs | Cmp

  datatype Kind = Msm4 | Msm5 | Msm6 | Msm7

  /** The header.  `dow` is the GLONASS day of week, read and dropped by the source and
      absent from the other systems; `cells` is the cell mask, satellite by satellite. */
  datatype Head = Head(msgType: int, staid: int, dow: int, epoch: int, sync: int, iod: int, timeS: int, clkStr: int,
                       clkExt: int, smooth: int, tintS: int, sats: seq<nat>, sigs: seq<nat>, cells: seq<int>)

  /** Raw fields of the body, column by column. */
  datatype Body = Body(sats: seq<seq<int>>, cells: seq<seq<int>>)

  function U(width: nat): Column
  {
    Column(width, false)
  }

  function S(width: nat): Column
  {
    Column(width, true)
  }

  const BIT: Column := Column(1, false)

  function HeadCols(sys: System): seq<Column>
  {
    if sys == Glo then [U(12), U(12), U(3), U(27), U(1), U(3), U(7), U(2), U(2), U(1), U(3)]
    else [U(12), U(12), U(30), U(1), U(3), U(7), U(2), U(2), U(1), U(3)]
  }

  function HeadData(sys: System, h: Head): seq<seq<int>>
  {
    if sys == Glo then
      [[h.msgType], [h.staid], [h.dow], [h.epoch], [h.sync], [h.iod], [h.timeS], [h.clkStr], [h.clkExt], [h.smooth], [h.tintS]]
    else
      [[h.msgType], [h.staid], [h.epoch], [h.sync], [h.iod], [h.timeS], [h.clkStr], [h.clkExt], [h.smooth], [h.tintS]]
  }

  /** Fields of each satellite: range, extended information, range fraction, rate. */
  function SatCols(kind: Kind): seq<Column>
  {
    if kind == Msm4 || kind == Msm6 then [U(8), U(10)] else [U(8), U(4), U(10), S(14)]
  }

  /** Fields of each cell: pseudorange, phase range, lock time, half cycle, cnr, rate. */
  function CellCols(kind: Kind): seq<Column>
  {
    match kind
    case Msm4 => [S(15), S(22), U(4), U(1), U(6)]
    case Msm5 => [S(15), S(22), U(4), U(1), U(6), S(15)]
    case Msm6 => [S(20), S(24), U(10), U(1), U(10)]
    case Msm7 => [S(20), S(24), U(10), U(1), U(10), S(15)]
  }

  /** The sizes in the length checks of the decoders. */
  function SatSize(kind: Kind): nat
  {
    if kind == Msm4 || kind == Msm6 then 18 else 36
  }

  function CellSize(kind: Kind): nat
  {
    match kind
    case Msm4 => 48
    case Msm5 => 63
    case Msm6 => 65
    case Msm7 => 80
  }

  /** The totals of the widths before each field, and of all of them. */
  function SatEnds(kind: Kind): seq<nat>
  {
    if kind == Msm4 || kind == Msm6 then [0, 8, 18] else [0, 8, 12, 22, 36]
  }

  function CellEnds(kind: Kind): seq<nat>
  {
    match kind
    case Msm4 => [0, 15, 37, 41, 42, 48]
    case Msm5 => [0, 15, 37, 41, 42, 48, 63]
    case Msm6 => [0, 20, 44, 54, 55, 65]
    case Msm7 => [0, 20, 44, 54, 55, 65, 80]
  }

  function HeadEnds(sys: System): seq<nat>
  {
    if sys == Glo then [0, 12, 24, 27, 54, 55, 58, 65, 67, 69, 70, 73] else [0, 12, 24, 54, 55, 58, 65, 67, 69, 70, 73]
  }

  lemma TotalWidth(cols: seq<Column>, ends: seq<nat>)
    requires RunningTotals(cols, ends)
    ensures Width(cols) == ends[|cols|]
  {
    RunningWidth(cols, ends, |cols|);
    assert cols[..|cols|] == cols;
  }

  /** What each decoder checks for is what its columns take. */
  lemma SizesExact(kind: Kind)
    ensures Width(SatCols(kind)) == SatSize(kind) && Width(CellCols(kind)) == CellSize(kind)
    ensures forall k :: 0 <= k < |SatCols(kind)| ==> Usable(SatCols(kind)[k])
    ensures forall k :: 0 <= k < |CellCols(kind)| ==> Usable(CellCols(kind)[k])
  {
    SatTotals(kind);
    CellTotals(kind);
    hide SatCols, CellCols, SatEnds, CellEnds, SatSize, CellSize, RunningTotals;
    TotalWidth(SatCols(kind), SatEnds(kind));
    TotalWidth(CellCols(kind), CellEnds(kind));
  }

  lemma SatTotals(kind: Kind)
    ensures RunningTotals(SatCols(kind), SatEnds(kind)) && SatEnds(kind)[|SatCols(kind)|] == SatSize(kind)
    ensures forall k :: 0 <= k < |SatCols(kind)| ==> Usable(SatCols(kind)[k])
  {
  }

  lemma CellTotals(kind: Kind)
    ensures RunningTotals(CellCols(kind), CellEnds(kind)) && CellEnds(kind)[|CellCols(kind)|] == CellSize(kind)
    ensures forall k :: 0 <= k < |CellCols(kind)| ==> Usable(CellCols(kind)[k])
  {
  }

  /** The header up to the masks: with them 169 bits. */
  lemma HeadSize(sys: System)
    ensures Width(HeadCols(sys)) == 73
    ensures forall k :: 0 <= k < |HeadCols(sys)| ==> Usable(HeadCols(sys)[k])
  {
    HeadTotals(sys);
    hide HeadCols, HeadEnds, RunningTotals;
    TotalWidth(HeadCols(sys), HeadEnds(sys));
  }

  lemma HeadTotals(sys: System)
    ensures RunningTotals(HeadCols(sys), HeadEnds(sys)) && HeadEnds(sys)[|HeadCols(sys)|] == 73
    ensures forall k :: 0 <= k < |HeadCols(sys)| ==> Usable(HeadCols(sys)[k])
  {
  }

  // ---------- messages as bits ----------

  /** How many cells of the mask are set. */
  function CellCount(cells: seq<int>): (n: nat)
    ensures n <= |cells|
  {
    if |cells| == 0 then 0 else CellCount(cells[..|cells| - 1]) + if cells[|cells| - 1] != 0 then 1 else 0
  }

  /** The header's fields are those of the first 169 bits of the message. */
  ghost predicate CarriesHead(buff: seq<bv8>, sys: System, h: Head)
  {
    && 24 + 169 <= 8 * |buff|
    && TableFits(HeadCols(sys), 1, HeadData(sys, h)) && Field(buff, 24, 73) == TableBits(HeadCols(sys), HeadData(sys, h))
    && (sys != Glo ==> h.dow == 0)
    && Ids(h.sats, 64) && Field(buff, 97, 64) == MaskBits(h.sats, 64)
    && Ids(h.sigs, 32) && Field(buff, 161, 32) == MaskBits(h.sigs, 32)
  }

  ghost predicate CarriesCells(buff: seq<bv8>, h: Head)
  {
    && |h.cells| == |h.sats| * |h.sigs| <= 64 && 193 + |h.cells| <= 8 * |buff|
    && AllIn(BIT, h.cells) && Field(buff, 193, |h.cells|) == ColumnBits(BIT, h.cells)
  }

  ghost predicate CarriesBody(buff: seq<bv8>, kind: Kind, h: Head, b: Body)
  {
    var pos, n, m := 193 + |h.cells|, |h.sats| * SatSize(kind), CellCount(h.cells) * CellSize(kind);
    && pos + n + m <= 8 * |buff|
    && TableFits(SatCols(kind), |h.sats|, b.sats) && Field(buff, pos, n) == TableBits(SatCols(kind), b.sats)
    && TableFits(CellCols(kind), CellCount(h.cells), b.cells) && Field(buff, pos + n, m) == TableBits(CellCols(kind), b.cells)
  }

  ghost predicate Carries(buff: seq<bv8>, sys: System, kind: Kind, h: Head, b: Body)
  {
    CarriesHead(buff, sys, h) && CarriesCells(buff, h) && CarriesBody(buff, kind, h, b)
  }

  lemma HeadDataInjective(sys: System, h: Head, k: Head)
    requires HeadData(sys, h) == HeadData(sys, k) && (sys != Glo ==> h.dow == k.dow)
    ensures h == k.(sats := h.sats, sigs := h.sigs, cells := h.cells)
  {
    var a := HeadData(sys, h);
    if sys == Glo {
      assert a[0][0] == k.msgType && a[1][0] == k.staid && a[2][0] == k.dow && a[3][0] == k.epoch && a[4][0] == k.sync;
      assert a[5][0] == k.iod && a[6][0] == k.timeS && a[7][0] == k.clkStr && a[8][0] == k.clkExt && a[9][0] == k.smooth;
      assert a[10][0] == k.tintS;
    } else {
      assert a[0][0] == k.msgType && a[1][0] == k.staid && a[2][0] == k.epoch && a[3][0] == k.sync;
      assert a[4][0] == k.iod && a[5][0] == k.timeS && a[6][0] == k.clkStr && a[7][0] == k.clkExt && a[8][0] == k.smooth;
      assert a[9][0] == k.tintS;
    }
  }

  lemma HeadUnique(buff: seq<bv8>, sys: System, h: Head, k: Head)
    requires CarriesHead(buff, sys, h) && CarriesHead(buff, sys, k)
    ensures h == k.(cells := h.cells)
  {
    hide TableFits, TableBits, Ids, MaskBits, Field, HeadCols, HeadData;
    TableInjective(HeadCols(sys), 1, HeadData(sys, h), HeadData(sys, k));
    HeadDataInjective(sys, h, k);
    IdsUnique(h.sats, k.sats, 64);
    IdsUnique(h.sigs, k.sigs, 32);
  }

  /** A buffer carries at most one message of a kind: decoding inverts encoding. */
  lemma CarriesUnique(buff: seq<bv8>, sys: System, kind: Kind, h: Head, b: Body, k: Head, c: Body)
    requires Carries(buff, sys, kind, h, b) && Carries(buff, sys, kind, k, c)
    ensures h == k && b == c
  {
    hide TableFits, TableBits, Ids, MaskBits, Field, HeadCols, HeadData, SatCols, CellCols;
    HeadUnique(buff, sys, h, k);
    ColumnInjective(BIT, h.cells, k.cells);
    TableInjective(SatCols(kind), |h.sats|, b.sats, c.sats);
    TableInjective(CellCols(kind), CellCount(h.cells), b.cells, c.cells);
  }

  // ---------- where each field stands ----------

  lemma HeadTable(buff: seq<bv8>, sys: System, h: Head)
    requires CarriesHead(buff, sys, h)
    ensures TableAt(buff, 24, 1, HeadCols(sys), HeadData(sys, h), 73) && (sys != Glo ==> h.dow == 0)
  {
    HeadSize(sys);
    hide HeadCols, HeadData, TableFits, TableBits, Field, Ids, MaskBits, Width;
  }

  lemma HeadField(buff: seq<bv8>, sys: System, h: Head, k: nat, at: nat, width: nat, v: int)
    requires CarriesHead(buff, sys, h) && k < |HeadCols(sys)| && at == 24 + HeadEnds(sys)[k]
    requires k < |HeadData(sys, h)| && HeadCols(sys)[k] == U(width) && HeadData(sys, h)[k] == [v]
    ensures HoldsUnsigned(buff, at, width, v)
  {
    hide TableAt, CarriesHead, HeadCols, HeadData, HeadEnds, HoldsUnsigned, HoldsSigned;
    HeadTable(buff, sys, h);
    HeadTotals(sys);
    RunningWidth(HeadCols(sys), HeadEnds(sys), k);
    ValueInTable(buff, 24, 1, HeadCols(sys), HeadData(sys, h), 73, k, HeadEnds(sys)[k], 0, at);
  }

  lemma HeadStart(buff: seq<bv8>, sys: System, h: Head)
    requires CarriesHead(buff, sys, h)
    ensures HoldsUnsigned(buff, 24, 12, h.msgType) && HoldsUnsigned(buff, 36, 12, h.staid)
    ensures sys == Glo ==> HoldsUnsigned(buff, 48, 3, h.dow) && HoldsUnsigned(buff, 51, 27, h.epoch)
    ensures sys != Glo ==> HoldsUnsigned(buff, 48, 30, h.epoch)
  {
    hide CarriesHead, HoldsUnsigned;
    HeadField(buff, sys, h, 0, 24, 12, h.msgType);
    HeadField(buff, sys, h, 1, 36, 12, h.staid);
    if sys == Glo {
      HeadField(buff, sys, h, 2, 48, 3, h.dow);
      HeadField(buff, sys, h, 3, 51, 27, h.epoch);
    } else {
      HeadField(buff, sys, h, 2, 48, 30, h.epoch);
    }
  }

  lemma HeadMiddle(buff: seq<bv8>, sys: System, h: Head)
    requires CarriesHead(buff, sys, h)
    ensures HoldsUnsigned(buff, 78, 1, h.sync) && HoldsUnsigned(buff, 79, 3, h.iod) && HoldsUnsigned(buff, 82, 7, h.timeS)
  {
    hide CarriesHead, HoldsUnsigned;
    var first := if sys == Glo then 4 else 3;
    HeadField(buff, sys, h, first, 78, 1, h.sync);
    HeadField(buff, sys, h, first + 1, 79, 3, h.iod);
    HeadField(buff, sys, h, first + 2, 82, 7, h.timeS);
  }

  lemma HeadEnd(buff: seq<bv8>, sys: System, h: Head)
    requires CarriesHead(buff, sys, h)
    ensures HoldsUnsigned(buff, 89, 2, h.clkStr) && HoldsUnsigned(buff, 91, 2, h.clkExt)
    ensures HoldsUnsigned(buff, 93, 1, h.smooth) && HoldsUnsigned(buff, 94, 3, h.tintS)
  {
    hide CarriesHead, HoldsUnsigned;
    var first := if sys == Glo then 7 else 6;
    HeadField(buff, sys, h, first, 89, 2, h.clkStr);
    HeadField(buff, sys, h, first + 1, 91, 2, h.clkExt);
    HeadField(buff, sys, h, first + 2, 93, 1, h.smooth);
    HeadField(buff, sys, h, first + 3, 94, 3, h.tintS);
  }

  /** Each field of the header is the number at its place in the buffer. */
  lemma HeadPositions(buff: seq<bv8>, sys: System, h: Head)
    requires CarriesHead(buff, sys, h)
    ensures HoldsUnsigned(buff, 24, 12, h.msgType) && HoldsUnsigned(buff, 36, 12, h.staid)
    ensures sys == Glo ==> HoldsUnsigned(buff, 48, 3, h.dow) && HoldsUnsigned(buff, 51, 27, h.epoch)
    ensures sys != Glo ==> h.dow == 0 && HoldsUnsigned(buff, 48, 30, h.epoch)
    ensures HoldsUnsigned(buff, 78, 1, h.sync) && HoldsUnsigned(buff, 79, 3, h.iod) && HoldsUnsigned(buff, 82, 7, h.timeS)
    ensures HoldsUnsigned(buff, 89, 2, h.clkStr) && HoldsUnsigned(buff, 91, 2, h.clkExt)
    ensures HoldsUnsigned(buff, 93, 1, h.smooth) && HoldsUnsigned(buff, 94, 3, h.tintS)
  {
    HeadTable(buff, sys, h);
    hide CarriesHead, TableAt, HoldsUnsigned;
    HeadStart(buff, sys, h);
    HeadMiddle(buff, sys, h);
    HeadEnd(buff, sys, h);
  }

  /** The masks: satellite and signal `id`, counted from 1, are listed exactly if their bits
      are set, in rising order. */
  lemma MaskPositions(buff: seq<bv8>, sys: System, h: Head)
    requires CarriesHead(buff, sys, h)
    ensures 193 <= 8 * |buff|
    ensures forall id :: id in h.sats <==> 1 <= id <= 64 && BitAt(buff, 96 + id)
    ensures forall id :: id in h.sigs <==> 1 <= id <= 32 && BitAt(buff, 160 + id)
    ensures forall i, j :: 0 <= i < j < |h.sats| ==> h.sats[i] < h.sats[j]
    ensures forall i, j :: 0 <= i < j < |h.sigs| ==> h.sigs[i] < h.sigs[j]
  {
    MaskBit(buff, 97, 64, h.sats);
    MaskBit(buff, 161, 32, h.sigs);
  }

  lemma MaskBit(buff: seq<bv8>, pos: nat, n: nat, ids: seq<nat>)
    requires pos + n <= 8 * |buff| && 0 < pos && Ids(ids, n) && Field(buff, pos, n) == MaskBits(ids, n)
    ensures forall id :: id in ids <==> 1 <= id <= n && BitAt(buff, pos - 1 + id)
  {
    forall id | 1 <= id <= n
      ensures id in ids <==> BitAt(buff, pos - 1 + id)
    {
      assert Field(buff, pos, n)[id - 1] == MaskBits(ids, n)[id - 1];
    }
  }

  /** The cell mask. */
  lemma CellPositions(buff: seq<bv8>, h: Head, k: nat)
    requires CarriesCells(buff, h) && k < |h.cells|
    ensures HoldsUnsigned(buff, 193 + k, 1, h.cells[k])
  {
    hide AllIn, ColumnBits, Field;
    ValueInColumn(buff, 193, BIT, h.cells, |h.cells|, k, 193 + k);
  }

  lemma SatTable(buff: seq<bv8>, kind: Kind, h: Head, b: Body)
    requires CarriesBody(buff, kind, h, b)
    ensures |h.sats| * SatSize(kind) >= 0 && TableAt(buff, 193 + |h.cells|, |h.sats|, SatCols(kind), b.sats, |h.sats| * SatSize(kind))
  {
    SizesExact(kind);
    hide SatCols, CellCols, SatSize, CellSize, CellCount, TableFits, TableBits, Field, Width;
  }

  lemma SatField(buff: seq<bv8>, kind: Kind, h: Head, b: Body, k: nat, before: nat, i: nat, at: nat)
    requires CarriesBody(buff, kind, h, b) && k < |SatCols(kind)| && i < |h.sats| && before == SatEnds(kind)[k]
    requires at == 193 + |h.cells| + |h.sats| * before + i * SatCols(kind)[k].width
    ensures |b.sats| == |SatCols(kind)| && |b.sats[k]| == |h.sats| && HoldsField(buff, at, SatCols(kind)[k], b.sats[k][i])
  {
    hide TableAt, CarriesBody, SatCols, SatEnds, SatSize, HoldsField, Width, RunningTotals;
    SatTable(buff, kind, h, b);
    SatTotals(kind);
    RunningWidth(SatCols(kind), SatEnds(kind), k);
    ValueInTable(buff, 193 + |h.cells|, |h.sats|, SatCols(kind), b.sats, |h.sats| * SatSize(kind), k, before, i, at);
  }

  /** Each satellite's fields: the raw values of one field stand together. */
  lemma SatPositions(buff: seq<bv8>, kind: Kind, h: Head, b: Body, i: nat)
    requires CarriesBody(buff, kind, h, b) && i < |h.sats|
    ensures var pos, n := 193 + |h.cells|, |h.sats|;
            if kind == Msm4 || kind == Msm6 then
              && |b.sats| == 2 && |b.sats[0]| == |b.sats[1]| == n
              && HoldsUnsigned(buff, pos + 8 * i, 8, b.sats[0][i])
              && HoldsUnsigned(buff, pos + 8 * n + 10 * i, 10, b.sats[1][i])
            else
              && |b.sats| == 4 && |b.sats[0]| == |b.sats[1]| == |b.sats[2]| == |b.sats[3]| == n
              && HoldsUnsigned(buff, pos + 8 * i, 8, b.sats[0][i])
              && HoldsUnsigned(buff, pos + 8 * n + 4 * i, 4, b.sats[1][i])
              && HoldsUnsigned(buff, pos + 12 * n + 10 * i, 10, b.sats[2][i])
              && HoldsSigned(buff, pos + 22 * n + 14 * i, 14, b.sats[3][i])
  {
    hide CarriesBody, HoldsUnsigned, HoldsSigned;
    var pos, n := 193 + |h.cells|, |h.sats|;
    SatField(buff, kind, h, b, 0, 0, i, pos + 8 * i);
    if kind == Msm4 || kind == Msm6 {
      SatField(buff, kind, h, b, 1, 8, i, pos + 8 * n + 10 * i);
    } else {
      SatField(buff, kind, h, b, 1, 8, i, pos + 8 * n + 4 * i);
      SatField(buff, kind, h, b, 2, 12, i, pos + 12 * n + 10 * i);
      SatField(buff, kind, h, b, 3, 22, i, pos + 22 * n + 14 * i);
    }
  }

  lemma CellTable(buff: seq<bv8>, kind: Kind, h: Head, b: Body)
    requires CarriesBody(buff, kind, h, b)
    ensures |h.sats| * SatSize(kind) >= 0 && CellCount(h.cells) * CellSize(kind) >= 0
    ensures TableAt(buff, 193 + |h.cells| + |h.sats| * SatSize(kind), CellCount(h.cells), CellCols(kind), b.cells, CellCount(h.cells) * CellSize(kind))
  {
    SizesExact(kind);
    hide SatCols, CellCols, SatSize, CellSize, CellCount, TableFits, TableBits, Field, Width;
  }

  lemma CellField(buff: seq<bv8>, kind: Kind, h: Head, b: Body, pos: nat, k: nat, before: nat, j: nat, at: nat)
    requires CarriesBody(buff, kind, h, b) && k < |CellCols(kind)| && j < CellCount(h.cells) && before == CellEnds(kind)[k]
    requires pos == 193 + |h.cells| + |h.sats| * SatSize(kind) && at == pos + CellCount(h.cells) * before + j * CellCols(kind)[k].width
    ensures |b.cells| == |CellCols(kind)| && |b.cells[k]| == CellCount(h.cells) && HoldsField(buff, at, CellCols(kind)[k], b.cells[k][j])
  {
    hide TableAt, CarriesBody, CellCols, CellEnds, CellSize, SatSize, HoldsField, CellCount, Width;
    CellTable(buff, kind, h, b);
    CellTotals(kind);
    RunningWidth(CellCols(kind), CellEnds(kind), k);
    ValueInTable(buff, pos, CellCount(h.cells), CellCols(kind), b.cells, CellCount(h.cells) * CellSize(kind), k, before, j, at);
  }

  /** Each cell's fields in the kinds with normal resolution; `pos` is where they begin. */
  lemma CellPositionsNormal(buff: seq<bv8>, kind: Kind, h: Head, b: Body, j: nat, pos: nat)
    requires CarriesBody(buff, kind, h, b) && j < CellCount(h.cells) && (kind == Msm4 || kind == Msm5)
    requires pos == 193 + |h.cells| + |h.sats| * (if kind == Msm4 then 18 else 36)
    ensures |b.cells| == (if kind == Msm4 then 5 else 6) && forall k :: 0 <= k < |b.cells| ==> |b.cells[k]| == CellCount(h.cells)
    ensures var c := CellCount(h.cells);
            && HoldsSigned(buff, pos + 15 * j, 15, b.cells[0][j])
            && HoldsSigned(buff, pos + 15 * c + 22 * j, 22, b.cells[1][j])
            && HoldsUnsigned(buff, pos + 37 * c + 4 * j, 4, b.cells[2][j])
            && HoldsUnsigned(buff, pos + 41 * c + j, 1, b.cells[3][j])
            && HoldsUnsigned(buff, pos + 42 * c + 6 * j, 6, b.cells[4][j])
            && (kind == Msm5 ==> HoldsSigned(buff, pos + 48 * c + 15 * j, 15, b.cells[5][j]))
  {
    hide CarriesBody, HoldsUnsigned, HoldsSigned, CellCount;
    var c := CellCount(h.cells);
    CellField(buff, kind, h, b, pos, 0, 0, j, pos + 15 * j);
    CellField(buff, kind, h, b, pos, 1, 15, j, pos + 15 * c + 22 * j);
    CellField(buff, kind, h, b, pos, 2, 37, j, pos + 37 * c + 4 * j);
    CellField(buff, kind, h, b, pos, 3, 41, j, pos + 41 * c + j);
    CellField(buff, kind, h, b, pos, 4, 42, j, pos + 42 * c + 6 * j);
    if kind == Msm5 {
      CellField(buff, kind, h, b, pos, 5, 48, j, pos + 48 * c + 15 * j);
    }
  }

  /** And in the kinds with high resolution. */
  lemma CellPositionsHigh(buff: seq<bv8>, kind: Kind, h: Head, b: Body, j: nat, pos: nat)
    requires CarriesBody(buff, kind, h, b) && j < CellCount(h.cells) && (kind == Msm6 || kind == Msm7)
    requires pos == 193 + |h.cells| + |h.sats| * (if kind == Msm6 then 18 else 36)
    ensures |b.cells| == (if kind == Msm6 then 5 else 6) && forall k :: 0 <= k < |b.cells| ==> |b.cells[k]| == CellCount(h.cells)
    ensures var c := CellCount(h.cells);
            && HoldsSigned(buff, pos + 20 * j, 20, b.cells[0][j])
            && HoldsSigned(buff, pos + 20 * c + 24 * j, 24, b.cells[1][j])
            && HoldsUnsigned(buff, pos + 44 * c + 10 * j, 10, b.cells[2][j])
            && HoldsUnsigned(buff, pos + 54 * c + j, 1, b.cells[3][j])
            && HoldsUnsigned(buff, pos + 55 * c + 10 * j, 10, b.cells[4][j])
            && (kind == Msm7 ==> HoldsSigned(buff, pos + 65 * c + 15 * j, 15, b.cells[5][j]))
  {
    hide CarriesBody, HoldsUnsigned, HoldsSigned, CellCount;
    var c := CellCount(h.cells);
    CellField(buff, kind, h, b, pos, 0, 0, j, pos + 20 * j);
    CellField(buff, kind, h, b, pos, 1, 20, j, pos + 20 * c + 24 * j);
    CellField(buff, kind, h, b, pos, 2, 44, j, pos + 44 * c + 10 * j);
    CellField(buff, kind, h, b, pos, 3, 54, j, pos + 54 * c + j);
    CellField(buff, kind, h, b, pos, 4, 55, j, pos + 55 * c + 10 * j);
    if kind == Msm7 {
      CellField(buff, kind, h, b, pos, 5, 65, j, pos + 65 * c + 15 * j);
    }
  }

  function SetCells(cells: seq<int>): set<nat>
  {
    set k: nat | k < |cells| && cells[k] != 0
  }

  /** The number of cells that the header decoder returns. */
  lemma {:induction false} CellCountIs(cells: seq<int>)
    ensures CellCount(cells) == |SetCells(cells)|
  {
    if |cells| == 0 {
      assert SetCells(cells) == {};
    } else {
      var n := |cells| - 1;
      CellCountIs(cells[..n]);
      assert SetCells(cells) == if cells[n] != 0 then SetCells(cells[..n]) + {n} else SetCells(cells[..n]);
    }
  }

  // ---------- decoding ----------

  /** decode_msm_head up to the signal mask, without the time and station steps. */
  method ReadHead(buff: seq<bv8>, len: nat, sys: System) returns (r: Option<Head>)
    requires 36 <= 8 * |buff| && len <= |buff|
    ensures r.Some? <==> 24 + 169 <= len * 8
    ensures r.Some? ==> CarriesHead(buff, sys, r.value) && r.value.cells == []
  {
    hide TableBits, Ids, MaskBits, Field, HeadCols, HeadData, HeadOf, TableFits;
    var msgType := Getbitu(buff, 24, 12);
    if 36 + 157 > len * 8 {
      return None;
    }
    HeadSize(sys);
    var data, i := ReadTable(buff, 24, 1, HeadCols(sys));
    var sats := ReadMask(buff, i, 64);
    var sigs := ReadMask(buff, i + 64, 32);
    HeadOfData(sys, data, sats, sigs);
    r := Some(HeadOf(sys, data, sats, sigs));
    SameLists(sys, data, sats, sigs);
  }

  /** The header that a row of fields stands for. */
  function HeadOf(sys: System, data: seq<seq<int>>, sats: seq<nat>, sigs: seq<nat>): Head
    requires |data| == |HeadCols(sys)| && forall k :: 0 <= k < |data| ==> |data[k]| == 1
  {
    if sys == Glo then
      Head(data[0][0], data[1][0], data[2][0], data[3][0], data[4][0], data[5][0], data[6][0], data[7][0], data[8][0], data[9][0],
           data[10][0], sats, sigs, [])
    else
      Head(data[0][0], data[1][0], 0, data[2][0], data[3][0], data[4][0], data[5][0], data[6][0], data[7][0], data[8][0],
           data[9][0], sats, sigs, [])
  }

  lemma SameLists(sys: System, data: seq<seq<int>>, sats: seq<nat>, sigs: seq<nat>)
    requires |data| == |HeadCols(sys)| && forall k :: 0 <= k < |data| ==> |data[k]| == 1
    ensures var h := HeadOf(sys, data, sats, sigs);
            h.sats == sats && h.sigs == sigs && h.cells == [] && (sys != Glo ==> h.dow == 0)
  {
  }

  lemma HeadOfData(sys: System, data: seq<seq<int>>, sats: seq<nat>, sigs: seq<nat>)
    requires TableFits(HeadCols(sys), 1, data)
    ensures |data| == |HeadCols(sys)| && forall k :: 0 <= k < |data| ==> |data[k]| == 1
    ensures HeadData(sys, HeadOf(sys, data, sats, sigs)) == data
  {
    hide AllIn;
    var h := HeadOf(sys, data, sats, sigs);
    var a := HeadData(sys, h);
    assert |a| == |data|;
    forall k | 0 <= k < |data|
      ensures a[k] == data[k]
    {
      assert data[k] == [data[k][0]];
    }
  }

  /** The rest of decode_msm_head: the cell mask and the number of cells. */
  method ReadCells(buff: seq<bv8>, len: nat, h: Head) returns (r: Option<Head>, ncell: nat, next: nat)
    requires len <= |buff| && 24 + 169 <= len * 8
    ensures r.Some? <==> |h.sats| * |h.sigs| <= 64 && 193 + |h.sats| * |h.sigs| <= len * 8
    ensures r.Some? ==> r.value == h.(cells := r.value.cells) && CarriesCells(buff, r.value)
    ensures r.Some? ==> ncell == CellCount(r.value.cells) && next == 193 + |r.value.cells| <= len * 8
  {
    hide ColumnBits, Field;
    ncell, next := 0, 193;
    var n := |h.sats| * |h.sigs|;
    if n > 64 {
      return None, ncell, next;
    }
    if next + n > len * 8 {
      return None, ncell, next;
    }
    var cells;
    cells, next := ReadColumn(buff, next, n, BIT);
    ncell := CountCells(cells);
    r := Some(h.(cells := cells));
  }

  method CountCells(cells: seq<int>) returns (ncell: nat)
    ensures ncell == CellCount(cells)
  {
    ncell := 0;
    var j := 0;
    while j < |cells|
      invariant 0 <= j <= |cells| && ncell == CellCount(cells[..j])
    {
      assert cells[..j + 1][..j] == cells[..j];
      if cells[j] != 0 {
        ncell := ncell + 1;
      }
      j := j + 1;
    }
    assert cells[..j] == cells;
  }

  /** The length check and the column loops of decode_msm4 to decode_msm7. */
  method ReadBody(buff: seq<bv8>, len: nat, kind: Kind, h: Head, ncell: nat, pos: nat) returns (r: Option<Body>)
    requires len <= |buff| && ncell == CellCount(h.cells) && pos == 193 + |h.cells|
    ensures r.Some? <==> pos + |h.sats| * SatSize(kind) + ncell * CellSize(kind) <= len * 8
    ensures r.Some? ==> CarriesBody(buff, kind, h, r.value)
  {
    hide TableFits, TableBits, Field, SatCols, CellCols, Width, Usable, CarriesBody, CellCount;
    var n, m := |h.sats| * SatSize(kind), ncell * CellSize(kind);
    ProductNat(|h.sats|, SatSize(kind));
    ProductNat(ncell, CellSize(kind));
    if pos + n + m > len * 8 {
      return None;
    }
    SizesExact(kind);
    var sats, i := ReadTable(buff, pos, |h.sats|, SatCols(kind));
    var cells, end := ReadTable(buff, i, ncell, CellCols(kind));
    r := Some(Body(sats, cells));
    MakeCarriesBody(buff, kind, h, r.value, pos, n, m);
  }

  lemma ProductNat(a: nat, b: nat)
    ensures a * b >= 0
  {
  }

  lemma MakeCarriesBody(buff: seq<bv8>, kind: Kind, h: Head, b: Body, pos: nat, n: nat, m: nat)
    requires pos == 193 + |h.cells| && n == |h.sats| * SatSize(kind) && m == CellCount(h.cells) * CellSize(kind) && pos + n + m <= 8 * |buff|
    requires TableFits(SatCols(kind), |h.sats|, b.sats) && Field(buff, pos, n) == TableBits(SatCols(kind), b.sats)
    requires TableFits(CellCols(kind), CellCount(h.cells), b.cells) && Field(buff, pos + n, m) == TableBits(CellCols(kind), b.cells)
    ensures CarriesBody(buff, kind, h, b)
  {
    hide TableFits, TableBits, Field, SatCols, CellCols, CellCount;
  }

  // ---------- encoding ----------

  /** A message that fits the layout. */
  ghost predicate Encodable(sys: System, kind: Kind, h: Head, b: Body)
  {
    && TableFits(HeadCols(sys), 1, HeadData(sys, h)) && (sys != Glo ==> h.dow == 0) && Ids(h.sats, 64) && Ids(h.sigs, 32)
    && |h.cells| == |h.sats| * |h.sigs| <= 64 && AllIn(BIT, h.cells)
    && TableFits(SatCols(kind), |h.sats|, b.sats) && TableFits(CellCols(kind), CellCount(h.cells), b.cells)
  }

  function MessageSize(kind: Kind, h: Head): nat
  {
    169 + |h.cells| + |h.sats| * SatSize(kind) + CellCount(h.cells) * CellSize(kind)
  }

  function Flags(ids: seq<nat>, n: nat): (r: seq<int>)
    ensures |r| == n
  {
    seq(n, k requires 0 <= k < n => if k + 1 in ids then 1 else 0)
  }

  lemma {:induction false} FlagBits(ids: seq<nat>, n: nat, k: nat)
    requires k <= n
    ensures ColumnBits(BIT, Flags(ids, n)[..k]) == MaskBits(ids, n)[..k]
    decreases k
  {
    if k > 0 {
      FlagBits(ids, n, k - 1);
      var f := Flags(ids, n);
      assert f[..k][..k - 1] == f[..k - 1];
      OneBit(f[k - 1]);
      assert MaskBits(ids, n)[..k] == MaskBits(ids, n)[..k - 1] + [MaskBits(ids, n)[k - 1]];
    }
  }

  lemma OneBit(v: int)
    requires v == 0 || v == 1
    ensures SBitsOf(v, 1) == [v == 1]
  {
    assert BitsOf(v, 1) == BitsOf(v / 2, 0) + [v % 2 == 1];
  }

  method WriteMask(buff: array<bv8>, pos: nat, ids: seq<nat>, n: nat)
    requires pos + n <= 8 * buff.Length
    modifies buff
    ensures Written(old(buff[..]), buff[..], pos, MaskBits(ids, n))
  {
    FlagBits(ids, n, n);
    assert Flags(ids, n)[..n] == Flags(ids, n) && MaskBits(ids, n)[..n] == MaskBits(ids, n);
    var next := WriteColumn(buff, pos, BIT, Flags(ids, n));
  }

  lemma Kept(a: seq<bv8>, b: seq<bv8>, pos: nat, bits: seq<bool>, p: nat, n: nat)
    requires pos + |bits| <= 8 * |a| && Written(a, b, pos, bits) && p + n <= pos
    ensures Field(b, p, n) == Field(a, p, n)
  {
  }

  lemma Put(a: seq<bv8>, b: seq<bv8>, pos: nat, bits: seq<bool>)
    requires pos + |bits| <= 8 * |a| && Written(a, b, pos, bits)
    ensures Field(b, pos, |bits|) == bits && |b| == |a|
  {
  }

  lemma FitsLength(cols: seq<Column>, n: nat, data: seq<seq<int>>)
    requires TableFits(cols, n, data)
    ensures |data| == |cols|
  {
  }

  /** The encoder of the same layout, by setbitu and setbits. */
  method Encode(buff: array<bv8>, sys: System, kind: Kind, h: Head, b: Body)
    requires Encodable(sys, kind, h, b) && 24 + MessageSize(kind, h) <= 8 * buff.Length
    modifies buff
    ensures Carries(buff[..], sys, kind, h, b)
    ensures Field(buff[..], 0, 24) == Field(old(buff[..]), 0, 24)
  {
    hide TableFits, TableBits, ColumnBits, MaskBits, Ids, Written, Field, HeadCols, HeadData, SatCols, CellCols, CarriesHead, CarriesBody;
    var i := WriteHead(buff, sys, h);
    ghost var b1 := buff[..];
    i := WriteColumn(buff, i, BIT, h.cells);
    ghost var b2 := buff[..];
    HeadKept(b1, b2, sys, h, 193, ColumnBits(BIT, h.cells));
    Put(b1, b2, 193, ColumnBits(BIT, h.cells));
    WriteBody(buff, sys, kind, h, b, i);
  }

  /** The bits of the satellite fields are in place. */
  ghost predicate CarriesSats(buff: seq<bv8>, kind: Kind, h: Head, b: Body, pos: nat, n: nat)
  {
    && pos + n <= 8 * |buff| && TableFits(SatCols(kind), |h.sats|, b.sats)
    && Field(buff, pos, n) == TableBits(SatCols(kind), b.sats)
  }

  method WriteBody(buff: array<bv8>, sys: System, kind: Kind, h: Head, b: Body, pos: nat)
    requires Encodable(sys, kind, h, b) && 24 + MessageSize(kind, h) <= 8 * buff.Length && pos == 193 + |h.cells|
    requires CarriesHead(buff[..], sys, h) && CarriesCells(buff[..], h)
    modifies buff
    ensures Carries(buff[..], sys, kind, h, b)
    ensures Field(buff[..], 0, 24) == Field(old(buff[..]), 0, 24)
  {
    hide TableFits, TableBits, Field, SatCols, CellCols, CarriesHead, CarriesCells, CarriesSats, AllIn, Width, Usable, SatSize, CellSize,
         CellCount;
    ghost var n := |h.sats| * SatSize(kind);
    WriteSats(buff, sys, kind, h, b, pos);
    WriteCells(buff, sys, kind, h, b, pos, pos + |h.sats| * SatSize(kind));
    OpenSats(buff[..], kind, h, b, pos, n);
    MakeCarriesBody(buff[..], kind, h, b, pos, n, CellCount(h.cells) * CellSize(kind));
  }

  lemma OpenSats(buff: seq<bv8>, kind: Kind, h: Head, b: Body, pos: nat, n: nat)
    requires CarriesSats(buff, kind, h, b, pos, n)
    ensures pos + n <= 8 * |buff| && TableFits(SatCols(kind), |h.sats|, b.sats) && Field(buff, pos, n) == TableBits(SatCols(kind), b.sats)
  {
    hide TableFits, TableBits, Field, SatCols;
  }

  method WriteSats(buff: array<bv8>, sys: System, kind: Kind, h: Head, b: Body, pos: nat)
    requires Encodable(sys, kind, h, b) && 24 + MessageSize(kind, h) <= 8 * buff.Length && pos == 193 + |h.cells|
    requires CarriesHead(buff[..], sys, h) && CarriesCells(buff[..], h)
    modifies buff
    ensures CarriesHead(buff[..], sys, h) && CarriesCells(buff[..], h) && CarriesSats(buff[..], kind, h, b, pos, |h.sats| * SatSize(kind))
    ensures Field(buff[..], 0, 24) == Field(old(buff[..]), 0, 24)
  {
    hide TableFits, TableBits, Written, Field, SatCols, CellCols, CarriesHead, AllIn, Width, Usable, CarriesCells, CellCount, CellSize;
    SizesExact(kind);
    FitsLength(SatCols(kind), |h.sats|, b.sats);
    ghost var x, before := TableBits(SatCols(kind), b.sats), buff[..];
    CellsLength(before, h);
    var i := WriteTable(buff, pos, |h.sats|, SatCols(kind), b.sats);
    ghost var after := buff[..];
    HeadKept(before, after, sys, h, pos, x);
    CellsKept(before, after, h, pos, x);
    Put(before, after, pos, x);
  }

  method WriteCells(buff: array<bv8>, sys: System, kind: Kind, h: Head, b: Body, pos: nat, end: nat)
    requires Encodable(sys, kind, h, b) && pos == 193 + |h.cells| && end == pos + |h.sats| * SatSize(kind)
    requires end + CellCount(h.cells) * CellSize(kind) <= 8 * buff.Length
    requires CarriesHead(buff[..], sys, h) && CarriesCells(buff[..], h) && CarriesSats(buff[..], kind, h, b, pos, end - pos)
    modifies buff
    ensures CarriesHead(buff[..], sys, h) && CarriesCells(buff[..], h) && CarriesSats(buff[..], kind, h, b, pos, end - pos)
    ensures Field(buff[..], end, CellCount(h.cells) * CellSize(kind)) == TableBits(CellCols(kind), b.cells)
    ensures Field(buff[..], 0, 24) == Field(old(buff[..]), 0, 24)
  {
    hide TableFits, TableBits, Written, Field, SatCols, CellCols, CarriesHead, AllIn, Width, Usable, CarriesCells, CarriesSats, CellCount;
    SizesExact(kind);
    FitsLength(CellCols(kind), CellCount(h.cells), b.cells);
    ghost var y, before := TableBits(CellCols(kind), b.cells), buff[..];
    var i := WriteTable(buff, end, CellCount(h.cells), CellCols(kind), b.cells);
    ghost var after := buff[..];
    HeadKept(before, after, sys, h, end, y);
    CellsKept(before, after, h, end, y);
    SatsKept(before, after, kind, h, b, pos, end, y);
    Put(before, after, end, y);
  }

  lemma SatsKept(a: seq<bv8>, c: seq<bv8>, kind: Kind, h: Head, b: Body, pos: nat, end: nat, bits: seq<bool>)
    requires pos <= end && end + |bits| <= 8 * |a| && Written(a, c, end, bits) && CarriesSats(a, kind, h, b, pos, end - pos)
    ensures CarriesSats(c, kind, h, b, pos, end - pos)
  {
    hide TableFits, TableBits, Field, SatCols;
    Kept(a, c, end, bits, pos, end - pos);
    Put(a, c, end, bits);
  }

  lemma CellsLength(buff: seq<bv8>, h: Head)
    requires CarriesCells(buff, h)
    ensures |h.cells| == |h.sats| * |h.sigs| && 193 + |h.cells| <= 8 * |buff|
  {
  }

  lemma CellsKept(a: seq<bv8>, b: seq<bv8>, h: Head, pos: nat, bits: seq<bool>)
    requires 193 + |h.cells| <= pos && pos + |bits| <= 8 * |a| && Written(a, b, pos, bits) && CarriesCells(a, h)
    ensures CarriesCells(b, h)
  {
    hide ColumnBits, AllIn, Field;
    Kept(a, b, pos, bits, 193, |h.cells|);
    Put(a, b, pos, bits);
  }

  lemma HeadKept(a: seq<bv8>, b: seq<bv8>, sys: System, h: Head, pos: nat, bits: seq<bool>)
    requires 193 <= pos && pos + |bits| <= 8 * |a| && Written(a, b, pos, bits) && CarriesHead(a, sys, h)
    ensures CarriesHead(b, sys, h) && Field(b, 0, 24) == Field(a, 0, 24) && |b| == |a|
  {
    hide TableFits, TableBits, MaskBits, Ids, Field, HeadCols, HeadData;
    Kept(a, b, pos, bits, 24, 73);
    Kept(a, b, pos, bits, 97, 64);
    Kept(a, b, pos, bits, 161, 32);
    Kept(a, b, pos, bits, 0, 24);
    Put(a, b, pos, bits);
  }

  method WriteHead(buff: array<bv8>, sys: System, h: Head) returns (next: nat)
    requires TableFits(HeadCols(sys), 1, HeadData(sys, h)) && (sys != Glo ==> h.dow == 0) && Ids(h.sats, 64) && Ids(h.sigs, 32)
    requires 24 + 169 <= 8 * buff.Length
    modifies buff
    ensures next == 193 && CarriesHead(buff[..], sys, h)
    ensures Field(buff[..], 0, 24) == Field(old(buff[..]), 0, 24)
  {
    hide TableFits, TableBits, MaskBits, Ids, Written, Field, HeadCols, HeadData;
    HeadSize(sys);
    FitsLength(HeadCols(sys), 1, HeadData(sys, h));
    ghost var b0 := buff[..];
    next := WriteTable(buff, 24, 1, HeadCols(sys), HeadData(sys, h));
    ghost var b1 := buff[..];
    Put(b0, b1, 24, TableBits(HeadCols(sys), HeadData(sys, h)));
    Kept(b0, b1, 24, TableBits(HeadCols(sys), HeadData(sys, h)), 0, 24);
    WriteMask(buff, next, h.sats, 64);
    ghost var b2 := buff[..];
    Kept(b1, b2, 97, MaskBits(h.sats, 64), 0, 24);
    Kept(b1, b2, 97, MaskBits(h.sats, 64), 24, 73);
    Put(b1, b2, 97, MaskBits(h.sats, 64));
    WriteMask(buff, next + 64, h.sigs, 32);
    ghost var b3 := buff[..];
    Kept(b2, b3, 161, MaskBits(h.sigs, 32), 0, 24);
    Kept(b2, b3, 161, MaskBits(h.sigs, 32), 24, 73);
    Kept(b2, b3, 161, MaskBits(h.sigs, 32), 97, 64);
    Put(b2, b3, 161, MaskBits(h.sigs, 32));
    next := 193;
  }

  // ---------- the values of the fields ----------

  /** RANGE_MS: the metres light travels in a millisecond. */
  const RANGE_MS: real := 299792.458

  /** A satellite's rough range, rate and GLONASS channel information, as the decoders pass
      them on; kinds 4 and 6 pass no rate and no information. */
  datatype SatData = SatData(r: real, rr: Option<real>, ex: Option<int>)

  /** A cell's fine values; None is the source's -1E16. */
  datatype CellData = CellData(pr: Option<real>, cp: Option<real>, rrf: Option<real>, lock: int, half: bool, cnr: real)

  /** 0 when the range is marked invalid, and then the fraction is not added. */
  function Range(rng: int, rngM: int): real
  {
    var r := if rng != 255 then rng as real * RANGE_MS else 0.0;
    if r != 0.0 then r + rngM as real * (1.0 / 1024.0) * RANGE_MS else r
  }

  function Scaled(v: int, unit: real): real
  {
    v as real * unit
  }

  /** A field in units of `unit`, unless it holds the marker `invalid`. */
  function Fine(v: int, invalid: int, unit: real): Option<real>
  {
    if v != invalid then Some(Scaled(v, unit)) else None
  }

  function RangeInvalid(kind: Kind): int
  {
    if kind == Msm4 || kind == Msm5 then -16384 else -524288
  }

  function PhaseInvalid(kind: Kind): int
  {
    if kind == Msm4 || kind == Msm5 then -2097152 else -8388608
  }

  /** The resolutions: 2^-24 and 2^-29 ms, or 2^-29 and 2^-31 ms for the high-resolution kinds. */
  function RangeUnit(kind: Kind): real
  {
    RANGE_MS / (if kind == Msm4 || kind == Msm5 then 16777216.0 else 536870912.0)
  }

  function PhaseUnit(kind: Kind): real
  {
    RANGE_MS / (if kind == Msm4 || kind == Msm5 then 536870912.0 else 2147483648.0)
  }

  function SatAt(kind: Kind, b: Body, n: nat, i: nat): SatData
    requires TableFits(SatCols(kind), n, b.sats) && i < n
  {
    if kind == Msm4 || kind == Msm6 then SatData(Range(b.sats[0][i], b.sats[1][i]), None, None)
    else
      SatData(Range(b.sats[0][i], b.sats[2][i]),
              Some(if b.sats[3][i] != -8192 then b.sats[3][i] as real else 0.0), Some(b.sats[1][i]))
  }

  function CellAt(kind: Kind, b: Body, n: nat, j: nat): CellData
    requires TableFits(CellCols(kind), n, b.cells) && j < n
  {
    CellData(Fine(b.cells[0][j], RangeInvalid(kind), RangeUnit(kind)), Fine(b.cells[1][j], PhaseInvalid(kind), PhaseUnit(kind)),
             if kind == Msm5 || kind == Msm7 then Fine(b.cells[5][j], -16384, 0.0001) else None,
             b.cells[2][j], b.cells[3][j] != 0,
             b.cells[4][j] as real * if kind == Msm4 || kind == Msm5 then 1.0 else 0.0625)
  }

  /** The invalid markers are the least values of their fields, as the format has it. */
  lemma InvalidMarkers(kind: Kind)
    ensures RangeInvalid(kind) == 0 - Pow2(CellCols(kind)[0].width - 1) && CellCols(kind)[0].signed
    ensures PhaseInvalid(kind) == 0 - Pow2(CellCols(kind)[1].width - 1) && CellCols(kind)[1].signed
    ensures kind == Msm5 || kind == Msm7 ==> -16384 == 0 - Pow2(CellCols(kind)[5].width - 1) && CellCols(kind)[5].signed
    ensures kind == Msm5 || kind == Msm7 ==> -8192 == 0 - Pow2(SatCols(kind)[3].width - 1) && SatCols(kind)[3].signed
  {
    assert Pow2(7) == 128 && Pow2(5) == 32 && Pow2(4) == 16 && Pow2(6) == 64;
    Pow2Add(7, 6);
    Pow2Add(7, 7);
    Pow2Add(14, 7);
    Pow2Add(14, 5);
    Pow2Add(19, 4);
  }

  lemma Powers()
    ensures Pow2(24) == 16777216 && Pow2(29) == 536870912 && Pow2(31) == 2147483648
  {
    assert Pow2(6) == 64 && Pow2(5) == 32 && Pow2(2) == 4;
    Pow2Add(6, 6);
    Pow2Add(12, 12);
    Pow2Add(24, 5);
    Pow2Add(29, 2);
  }

  /** The fine fields are in units of 2^-24 and 2^-29 light milliseconds, or 2^-29 and
      2^-31 for the high-resolution kinds. */
  lemma UnitsExact(kind: Kind, v: int)
    ensures RANGE_MS == 299792458.0 * 0.001
    ensures Scaled(v, RangeUnit(kind)) * Pow2(if kind == Msm4 || kind == Msm5 then 24 else 29) as real == v as real * RANGE_MS
    ensures Scaled(v, PhaseUnit(kind)) * Pow2(if kind == Msm4 || kind == Msm5 then 29 else 31) as real == v as real * RANGE_MS
  {
    Powers();
    hide Pow2;
  }
}

/** The observation records of rtcm3.c: obsindex, the epoch test, the station test and
    save_msm_obs, and the message decoders that drive them. */
module Rtcm3Obs {
  import opened Arith
  import opened Bits
  import opened MsmBits
  import opened Optional
  import opened Msm
  import opened SignalSlots
  import opened Calendar
  import opened GpsTime

  const NFREQ: nat := 3
  const NEXOBS: nat := 0
  const MAXOBS: nat := 64

  /** One signal's entries in a record. */
  datatype Entry = Entry(P: real, L: real, D: real, SNR: int, LLI: int, code: nat)

  /** obsd_t */
  datatype Obsd = Obsd(time: GTime, sat: nat, entries: seq<Entry>)

  /** The entries of a new record. */
  function Blank(): (r: seq<Entry>)
    ensures |r| == NFREQ + NEXOBS
  {
    seq(NFREQ + NEXOBS, _ => Entry(0.0, 0.0, 0.0, 0, 0, 0))
  }

  function NoLocks(): (r: seq<int>)
    ensures |r| == NFREQ + NEXOBS
  {
    seq(NFREQ + NEXOBS, _ => 0)
  }

  /** The lock time that stays in rtcm_t, which keeps it in an unsigned char. */
  function KeptLock(lock: int): int
  {
    lock % 256
  }

  /** The indicator of lossoflock; `before` is the lock time kept from before. */
  function LossOfLock(lock: int, before: int): int
  {
    if (lock == 0 && before == 0) || lock < before then 1 else 0
  }

  /** What the indicator is meant to say: the lock time fell, or both are 0. */
  predicate LockLost(lock: int, before: int)
  {
    (lock == 0 && before == 0) || lock < before
  }

  /** Keeping 8 bits of the lock time loses slips, and only slips: after lock time `before`
      the indicator is right unless the new lock time is between the part kept and
      `before` (0 after a multiple of 256 still shows). */
  lemma LossOfLockExact(lock: nat, before: nat)
    ensures (LossOfLock(lock, KeptLock(before)) == 1) == LockLost(lock, before)
       <==> !(KeptLock(before) <= lock < before) || (lock == 0 && KeptLock(before) == 0)
    ensures LossOfLock(lock, KeptLock(before)) == 1 ==> LockLost(lock, before)
  {
    assert KeptLock(before) <= before;
  }

  /** Lock times of 4 bits, those of kinds 4 and 5, are never affected. */
  lemma ShortLockExact(lock: nat, before: nat)
    requires before < 256
    ensures (LossOfLock(lock, KeptLock(before)) == 1) == LockLost(lock, before)
  {
    LossOfLockExact(lock, before);
  }

  /** A fall from 300 to 100 goes unnoticed. */
  lemma MissedLoss()
    ensures LockLost(100, 300) && LossOfLock(100, KeptLock(300)) == 0
  {
    assert KeptLock(300) == 44;
  }

  /** A range in wave lengths. */
  function Cycles(range: real, wl: real): real
    requires wl > 0.0
  {
    range / wl
  }

  /** That many wave lengths make up the range. */
  lemma CyclesTimesLength(range: real, wl: real)
    requires wl > 0.0
    ensures Cycles(range, wl) * wl == range
  {
  }

  /** The innermost block of save_msm_obs. */
  function StoreCell(kept: Entry, sat: SatData, cell: CellData, wl: real, before: int, code: nat): Entry
  {
    Entry(if sat.r != 0.0 && cell.pr.Some? then sat.r + cell.pr.value else kept.P,
          if sat.r != 0.0 && cell.cp.Some? && wl > 0.0 then Cycles(sat.r + cell.cp.value, wl) else kept.L,
          if sat.rr.Some? && cell.rrf.Some? && wl > 0.0 then Cycles(-(sat.rr.value + cell.rrf.value), wl) else kept.D,
          Trunc(cell.cnr * 4.0),
          LossOfLock(cell.lock, before) + (if cell.half then 3 else 0),
          code)
  }

  /** A decoded message with what the tables say about it: `satOf[i]` is the satellite
      number of satellite i or 0, `ind[k]` the slot of signal k or -1, `wl(i, k)` the
      carrier wave length. */
  datatype Message = Message(h: Head, sats: seq<SatData>, cells: seq<CellData>, satOf: seq<nat>, code: seq<nat>, ind: seq<int>,
                             wl: (int, int) -> real)

  /** Distinct satellites have distinct numbers and distinct signals distinct slots. */
  ghost predicate WellFormed(m: Message)
  {
    && |m.h.cells| == |m.h.sats| * |m.h.sigs| && |m.cells| == CellCount(m.h.cells)
    && |m.sats| == |m.satOf| == |m.h.sats| && |m.ind| == |m.code| == |m.h.sigs|
    && (forall i, j :: 0 <= i < j < |m.satOf| && m.satOf[i] != 0 ==> m.satOf[i] != m.satOf[j])
    && (forall k :: 0 <= k < |m.ind| ==> m.ind[k] < NFREQ + NEXOBS)
    && (forall k, l :: 0 <= k < l < |m.ind| && m.ind[k] >= 0 ==> m.ind[k] != m.ind[l])
  }

  /** Where cell (i, k) stands in the mask. */
  function CellIndex(m: Message, i: nat, k: nat): nat
  {
    k + i * |m.h.sigs|
  }

  lemma CellIndexRange(m: Message, i: nat, k: nat)
    requires |m.h.cells| == |m.h.sats| * |m.h.sigs| && i < |m.h.sats| && k < |m.h.sigs|
    ensures CellIndex(m, i, k) < |m.h.cells| && CellIndex(m, i, |m.h.sigs|) == CellIndex(m, i + 1, 0) <= |m.h.cells|
  {
    MulStep(i, |m.h.sigs|);
    MulMono(i + 1, |m.h.sats|, |m.h.sigs|);
  }

  /** Cell (i, k) is in the message and has a slot. */
  ghost predicate Hit(m: Message, i: nat, k: int)
    requires WellFormed(m) && i < |m.h.sats|
  {
    0 <= k < |m.h.sigs| && CellIndex(m, i, k) < |m.h.cells| && m.h.cells[CellIndex(m, i, k)] != 0 && m.ind[k] >= 0
  }

  /** The rank of cell (i, k) among the set bits of the mask. */
  function Rank(m: Message, i: nat, k: nat): nat
    requires CellIndex(m, i, k) <= |m.h.cells|
  {
    CellCount(m.h.cells[..CellIndex(m, i, k)])
  }

  lemma {:induction false} CountPrefix(cells: seq<int>, n: nat)
    requires n <= |cells|
    ensures CellCount(cells[..n]) <= CellCount(cells)
    ensures n < |cells| ==> CellCount(cells[..n + 1]) == CellCount(cells[..n]) + if cells[n] != 0 then 1 else 0
    ensures n < |cells| && cells[n] != 0 ==> CellCount(cells[..n]) < CellCount(cells)
    decreases |cells| - n
  {
    if n < |cells| {
      assert cells[..n + 1][..n] == cells[..n];
      CountPrefix(cells, n + 1);
    } else {
      assert cells[..n] == cells;
    }
  }

  /** Cell (i, k), if stored, holds the data at its rank. */
  ghost predicate CellStored(m: Message, i: nat, k: nat, before: seq<Entry>, lockBefore: seq<int>, after: seq<Entry>, lockAfter: seq<int>)
    requires WellFormed(m) && i < |m.h.sats| && Hit(m, i, k)
    requires |before| == |lockBefore| == |after| == |lockAfter| == NFREQ + NEXOBS
  {
    var j, s := Rank(m, i, k), m.ind[k];
    && j < |m.cells|
    && after[s] == StoreCell(before[s], m.sats[i], m.cells[j], m.wl(i, k), lockBefore[s], m.code[k])
    && lockAfter[s] == KeptLock(m.cells[j].lock)
  }

  /** What the first n signals do to the record and lock times of satellite i. */
  ghost predicate CellsStored(m: Message, i: nat, n: nat, before: seq<Entry>, lockBefore: seq<int>, after: seq<Entry>, lockAfter: seq<int>)
    requires WellFormed(m) && i < |m.h.sats|
  {
    && |before| == |lockBefore| == |after| == |lockAfter| == NFREQ + NEXOBS
    && (forall k: nat :: k < n && Hit(m, i, k) ==> CellStored(m, i, k, before, lockBefore, after, lockAfter))
    && (forall s :: 0 <= s < NFREQ + NEXOBS && (forall k: nat :: k < n && Hit(m, i, k) ==> m.ind[k] != s) ==>
          after[s] == before[s] && lockAfter[s] == lockBefore[s])
  }

  lemma StoredNone(m: Message, i: nat, before: seq<Entry>, lockBefore: seq<int>)
    requires WellFormed(m) && i < |m.h.sats| && |before| == |lockBefore| == NFREQ + NEXOBS
    ensures CellsStored(m, i, 0, before, lockBefore, before, lockBefore)
  {
  }

  lemma StoredSkip(m: Message, i: nat, n: nat, before: seq<Entry>, lockBefore: seq<int>, after: seq<Entry>, lockAfter: seq<int>)
    requires WellFormed(m) && i < |m.h.sats| && CellsStored(m, i, n, before, lockBefore, after, lockAfter) && !Hit(m, i, n)
    ensures CellsStored(m, i, n + 1, before, lockBefore, after, lockAfter)
  {
    hide WellFormed, Hit, CellStored;
  }

  lemma StoredNext(m: Message, i: nat, n: nat, before: seq<Entry>, lockBefore: seq<int>, mid: seq<Entry>, lockMid: seq<int>,
                   j: nat, after: seq<Entry>, lockAfter: seq<int>)
    requires WellFormed(m) && i < |m.h.sats| && CellsStored(m, i, n, before, lockBefore, mid, lockMid) && Hit(m, i, n)
    requires j == Rank(m, i, n) < |m.cells|
    requires var s := m.ind[n];
             && after == mid[s := StoreCell(mid[s], m.sats[i], m.cells[j], m.wl(i, n), lockMid[s], m.code[n])]
             && lockAfter == lockMid[s := KeptLock(m.cells[j].lock)]
    ensures CellsStored(m, i, n + 1, before, lockBefore, after, lockAfter)
  {
    hide StoreCell, Rank, CellIndex, KeptLock;
    var s := m.ind[n];
    assert mid[s] == before[s] && lockMid[s] == lockBefore[s] by {
      assert forall k: nat :: k < n && Hit(m, i, k) ==> m.ind[k] != s;
    }
    forall k: nat | k < n + 1 && Hit(m, i, k)
      ensures CellStored(m, i, k, before, lockBefore, after, lockAfter)
    {
      if k < n {
        assert CellStored(m, i, k, before, lockBefore, mid, lockMid);
        assert m.ind[k] != s;
      }
    }
  }

  /** The loop over the signals of satellite i; `j` counts the cells so far, and `save`
      says whether the satellite has a record. */
  method StoreCells(m: Message, i: nat, j0: nat, save: bool, entries0: seq<Entry>, lock0: seq<int>)
    returns (j: nat, entries: seq<Entry>, lock: seq<int>)
    requires WellFormed(m) && i < |m.h.sats| && |entries0| == |lock0| == NFREQ + NEXOBS
    requires CellIndex(m, i, 0) <= |m.h.cells| && j0 == Rank(m, i, 0)
    ensures CellIndex(m, i + 1, 0) <= |m.h.cells| && j == Rank(m, i + 1, 0)
    ensures if save then CellsStored(m, i, |m.h.sigs|, entries0, lock0, entries, lock) else entries == entries0 && lock == lock0
  {
    hide WellFormed, Rank, CellsStored, CellIndex, StoreCell, CellCount, KeptLock;
    j, entries, lock := j0, entries0, lock0;
    StoredNone(m, i, entries0, lock0);
    Shape(m);
    var k := 0;
    while k < |m.h.sigs|
      invariant 0 <= k <= |m.h.sigs| && CellIndex(m, i, k) <= |m.h.cells| && j == Rank(m, i, k)
      invariant |entries| == |lock| == NFREQ + NEXOBS
      invariant if save then CellsStored(m, i, k, entries0, lock0, entries, lock) else entries == entries0 && lock == lock0
    {
      CellIndexRange(m, i, k);
      RankStep(m, i, k);
      if m.h.cells[CellIndex(m, i, k)] != 0 {
        if save && m.ind[k] >= 0 {
          var s := m.ind[k];
          StoredNext(m, i, k, entries0, lock0, entries, lock, j,
                     entries[s := StoreCell(entries[s], m.sats[i], m.cells[j], m.wl(i, k), lock[s], m.code[k])], lock[s := KeptLock(m.cells[j].lock)]);
          entries := entries[s := StoreCell(entries[s], m.sats[i], m.cells[j], m.wl(i, k), lock[s], m.code[k])];
          lock := lock[s := KeptLock(m.cells[j].lock)];
        } else if save {
          StoredSkip(m, i, k, entries0, lock0, entries, lock);
        }
        j := j + 1;
      } else if save {
        StoredSkip(m, i, k, entries0, lock0, entries, lock);
      }
      k := k + 1;
    }
    RowEnd(m, i);
  }

  lemma Shape(m: Message)
    requires WellFormed(m)
    ensures |m.h.cells| == |m.h.sats| * |m.h.sigs| && |m.sats| == |m.satOf| == |m.h.sats| && |m.ind| == |m.code| == |m.h.sigs|
    ensures |m.cells| == CellCount(m.h.cells) && forall k :: 0 <= k < |m.ind| ==> m.ind[k] < NFREQ + NEXOBS
  {
  }

  lemma RankStep(m: Message, i: nat, k: nat)
    requires WellFormed(m) && i < |m.h.sats| && k < |m.h.sigs|
    ensures CellIndex(m, i, k) < |m.h.cells| && CellIndex(m, i, k + 1) <= |m.h.cells|
    ensures Rank(m, i, k + 1) == Rank(m, i, k) + if m.h.cells[CellIndex(m, i, k)] != 0 then 1 else 0
    ensures m.h.cells[CellIndex(m, i, k)] != 0 ==> Rank(m, i, k) < |m.cells|
  {
    hide CellCount;
    CellIndexRange(m, i, k);
    CountPrefix(m.h.cells, CellIndex(m, i, k));
  }

  lemma RowEnd(m: Message, i: nat)
    requires WellFormed(m) && i < |m.h.sats|
    ensures CellIndex(m, i, |m.h.sigs|) == CellIndex(m, i + 1, 0) <= |m.h.cells|
    ensures Rank(m, i, |m.h.sigs|) == Rank(m, i + 1, 0)
  {
    CellIndexLast(i, |m.h.sats|, |m.h.sigs|);
  }

  lemma CellIndexLast(i: nat, n: nat, k: nat)
    requires i < n
    ensures k + i * k == (i + 1) * k <= n * k
  {
    MulStep(i, k);
    MulMono(i + 1, n, k);
  }

  // ---------- records ----------

  ghost predicate DistinctSats(obs: seq<Obsd>)
  {
    forall p, q :: 0 <= p < q < |obs| ==> obs[p].sat != obs[q].sat
  }

  ghost predicate Holds(obs: seq<Obsd>, sat: nat, p: int)
  {
    0 <= p < |obs| && obs[p].sat == sat
  }

  ghost predicate Recorded(obs: seq<Obsd>, sat: nat)
  {
    exists p :: Holds(obs, sat, p)
  }

  /** One of the first n satellites of the message. */
  ghost predicate Among(m: Message, n: nat, sat: nat)
    requires n <= |m.satOf|
  {
    exists i :: 0 <= i < n && m.satOf[i] == sat
  }

  type Locks = map<nat, seq<int>>

  /** The lock times of a satellite, all 0 at first. */
  function LockOf(locks: Locks, sat: nat): seq<int>
  {
    if sat in locks then locks[sat] else NoLocks()
  }

  ghost predicate ValidLocks(locks: Locks)
  {
    forall sat :: sat in locks ==> |locks[sat]| == NFREQ + NEXOBS
  }

  ghost predicate ValidObs(obs: seq<Obsd>)
  {
    && |obs| <= MAXOBS && DistinctSats(obs)
    && forall p :: 0 <= p < |obs| ==> |obs[p].entries| == NFREQ + NEXOBS
  }

  /** The entries of record p before the message; a new record starts blank. */
  ghost function EntriesBefore(obs: seq<Obsd>, p: nat): seq<Entry>
  {
    if p < |obs| then obs[p].entries else Blank()
  }

  /** Old records keep their place, satellite and time; new ones are of the message. */
  ghost predicate Kept(m: Message, n: nat, time: GTime, obs0: seq<Obsd>, obs: seq<Obsd>)
    requires n <= |m.satOf|
  {
    && |obs0| <= |obs|
    && (forall p :: 0 <= p < |obs0| ==> obs[p].sat == obs0[p].sat && obs[p].time == obs0[p].time)
    && (forall p :: |obs0| <= p < |obs| ==> obs[p].time == time)
    && (forall p :: 0 <= p < |obs| && !Among(m, n, obs[p].sat) ==> p < |obs0| && obs[p] == obs0[p])
  }

  /** A satellite goes without a record only if there are MAXOBS others. */
  ghost predicate AllRecorded(m: Message, n: nat, obs: seq<Obsd>)
    requires n <= |m.satOf|
  {
    forall i :: 0 <= i < n && m.satOf[i] != 0 ==> Recorded(obs, m.satOf[i]) || |obs| == MAXOBS
  }

  /** Record p, if it is of satellite i, has the cells of satellite i. */
  ghost predicate RecordStored(m: Message, i: nat, p: nat, obs0: seq<Obsd>, locks0: Locks, obs: seq<Obsd>, locks: Locks)
    requires WellFormed(m) && i < |m.h.sats| && p < |obs|
  {
    var sat := obs[p].sat;
    m.satOf[i] == sat && sat != 0 ==>
      CellsStored(m, i, |m.h.sigs|, EntriesBefore(obs0, p), LockOf(locks0, sat), obs[p].entries, LockOf(locks, sat))
  }

  ghost predicate AllStored(m: Message, n: nat, obs0: seq<Obsd>, locks0: Locks, obs: seq<Obsd>, locks: Locks)
    requires WellFormed(m) && n <= |m.h.sats|
  {
    forall i, p :: 0 <= i < n && 0 <= p < |obs| ==> RecordStored(m, i, p, obs0, locks0, obs, locks)
  }

  ghost predicate LocksKept(m: Message, n: nat, obs: seq<Obsd>, locks0: Locks, locks: Locks)
    requires n <= |m.satOf|
  {
    forall sat :: !(Among(m, n, sat) && sat != 0 && Recorded(obs, sat)) ==> LockOf(locks, sat) == LockOf(locks0, sat)
  }

  /** The effect of the first n satellites of a message. */
  ghost predicate Progress(m: Message, n: nat, time: GTime, obs0: seq<Obsd>, locks0: Locks, obs: seq<Obsd>, locks: Locks)
    requires WellFormed(m) && n <= |m.h.sats|
  {
    && ValidObs(obs0) && ValidLocks(locks0) && ValidObs(obs) && ValidLocks(locks)
    && Kept(m, n, time, obs0, obs) && AllRecorded(m, n, obs) && AllStored(m, n, obs0, locks0, obs, locks)
    && LocksKept(m, n, obs, locks0, locks)
  }

  lemma AmongNext(m: Message, n: nat, sat: nat)
    requires n < |m.satOf|
    ensures Among(m, n + 1, sat) <==> Among(m, n, sat) || m.satOf[n] == sat
  {
  }

  lemma FirstTime(m: Message, n: nat)
    requires WellFormed(m) && n < |m.satOf| && m.satOf[n] != 0
    ensures !Among(m, n, m.satOf[n])
  {
  }

  /** A satellite without a number or without room. */
  lemma ProgressSkip(m: Message, n: nat, time: GTime, obs0: seq<Obsd>, locks0: Locks, obs: seq<Obsd>, locks: Locks)
    requires WellFormed(m) && n < |m.h.sats| && Progress(m, n, time, obs0, locks0, obs, locks)
    requires m.satOf[n] == 0 || (!Recorded(obs, m.satOf[n]) && |obs| == MAXOBS)
    ensures Progress(m, n + 1, time, obs0, locks0, obs, locks)
  {
    hide WellFormed, CellsStored, ValidObs, ValidLocks;
    Shape(m);
    forall sat
      ensures Among(m, n + 1, sat) <==> Among(m, n, sat) || m.satOf[n] == sat
    {
      AmongNext(m, n, sat);
    }
    hide Among;
    forall p | 0 <= p < |obs|
      ensures RecordStored(m, n, p, obs0, locks0, obs, locks)
    {
      assert Holds(obs, obs[p].sat, p);
    }
    hide RecordStored;
    assert AllStored(m, n + 1, obs0, locks0, obs, locks);
  }

  /** obsindex: where the record of a satellite is, and the records with it. */
  ghost predicate Indexed(time: GTime, sat: nat, obs: seq<Obsd>, obs1: seq<Obsd>, p: int)
  {
    if Recorded(obs, sat) then Holds(obs, sat, p) && obs1 == obs
    else if |obs| >= MAXOBS then p == -1 && obs1 == obs
    else p == |obs| && obs1 == obs + [Obsd(time, sat, Blank())]
  }

  lemma IndexedValid(time: GTime, sat: nat, obs: seq<Obsd>, obs1: seq<Obsd>, p: int)
    requires Indexed(time, sat, obs, obs1, p) && ValidObs(obs)
    ensures ValidObs(obs1) && |obs| <= |obs1| && (p >= 0 ==> Holds(obs1, sat, p))
    ensures forall q :: 0 <= q < |obs| ==> obs1[q] == obs[q]
  {
    if !Recorded(obs, sat) {
      forall q | 0 <= q < |obs|
        ensures obs[q].sat != sat
      {
        assert !Holds(obs, sat, q);
      }
    }
  }

  /** Satellite n with its record, before its cells are stored. */
  lemma IndexedEntries(m: Message, n: nat, time: GTime, obs0: seq<Obsd>, locks0: Locks, obs: seq<Obsd>, locks: Locks, obs1: seq<Obsd>, p: nat)
    requires WellFormed(m) && n < |m.h.sats| && Progress(m, n, time, obs0, locks0, obs, locks) && m.satOf[n] != 0
    requires Indexed(time, m.satOf[n], obs, obs1, p)
    ensures p < |obs1| && obs1[p].sat == m.satOf[n] && obs1[p].entries == EntriesBefore(obs0, p)
    ensures |obs1[p].entries| == NFREQ + NEXOBS && LockOf(locks, m.satOf[n]) == LockOf(locks0, m.satOf[n])
    ensures |LockOf(locks, m.satOf[n])| == NFREQ + NEXOBS
  {
    FirstTime(m, n);
    hide WellFormed, AllStored, AllRecorded;
    IndexedValid(time, m.satOf[n], obs, obs1, p);
  }

  /** The records and lock times with satellite n's cells stored. */
  ghost predicate Stored(m: Message, n: nat, obs1: seq<Obsd>, locks: Locks, p: nat, obs2: seq<Obsd>, locks2: Locks)
    requires WellFormed(m) && n < |m.h.sats|
  {
    && p < |obs1| && obs1[p].sat == m.satOf[n] && m.satOf[n] in locks2 && p < |obs2|
    && obs2 == obs1[p := obs1[p].(entries := obs2[p].entries)] && locks2 == locks[m.satOf[n] := locks2[m.satOf[n]]]
    && CellsStored(m, n, |m.h.sigs|, obs1[p].entries, LockOf(locks, m.satOf[n]), obs2[p].entries, locks2[m.satOf[n]])
  }

  lemma StoredKept(m: Message, n: nat, time: GTime, obs0: seq<Obsd>, obs: seq<Obsd>, locks: Locks, obs1: seq<Obsd>, p: nat, obs2: seq<Obsd>, locks2: Locks)
    requires WellFormed(m) && n < |m.h.sats| && Kept(m, n, time, obs0, obs) && ValidObs(obs) && AllRecorded(m, n, obs)
    requires Indexed(time, m.satOf[n], obs, obs1, p) && Stored(m, n, obs1, locks, p, obs2, locks2)
    ensures Kept(m, n + 1, time, obs0, obs2) && ValidObs(obs2) && AllRecorded(m, n + 1, obs2)
  {
    IndexedValid(time, m.satOf[n], obs, obs1, p);
    LengthStored(m, n, obs1, locks, p, obs2, locks2);
    hide WellFormed, CellsStored;
    forall q | 0 <= q < |obs2| && !Among(m, n + 1, obs2[q].sat)
      ensures q < |obs0| && obs2[q] == obs0[q]
    {
      AmongNext(m, n, obs2[q].sat);
      assert q < |obs|;
    }
    forall i | 0 <= i < n + 1 && m.satOf[i] != 0
      ensures Recorded(obs2, m.satOf[i]) || |obs2| == MAXOBS
    {
      if i == n {
        assert Holds(obs2, m.satOf[i], p);
      } else if Recorded(obs, m.satOf[i]) {
        var q :| Holds(obs, m.satOf[i], q);
        assert Holds(obs2, m.satOf[i], q);
      }
    }
  }

  lemma LengthStored(m: Message, n: nat, obs1: seq<Obsd>, locks: Locks, p: nat, obs2: seq<Obsd>, locks2: Locks)
    requires WellFormed(m) && n < |m.h.sats| && Stored(m, n, obs1, locks, p, obs2, locks2)
    ensures |obs2[p].entries| == |locks2[m.satOf[n]]| == NFREQ + NEXOBS
  {
  }

  lemma StoredLocks(m: Message, n: nat, time: GTime, obs: seq<Obsd>, locks0: Locks, locks: Locks, obs1: seq<Obsd>, p: nat, obs2: seq<Obsd>, locks2: Locks)
    requires WellFormed(m) && n < |m.h.sats| && LocksKept(m, n, obs, locks0, locks) && ValidLocks(locks) && ValidObs(obs) && m.satOf[n] != 0
    requires Indexed(time, m.satOf[n], obs, obs1, p) && Stored(m, n, obs1, locks, p, obs2, locks2)
    ensures LocksKept(m, n + 1, obs2, locks0, locks2) && ValidLocks(locks2)
  {
    IndexedValid(time, m.satOf[n], obs, obs1, p);
    LengthStored(m, n, obs1, locks, p, obs2, locks2);
    hide WellFormed, CellsStored, ValidObs;
    assert Holds(obs2, m.satOf[n], p);
    forall sat | !(Among(m, n + 1, sat) && sat != 0 && Recorded(obs2, sat))
      ensures LockOf(locks2, sat) == LockOf(locks0, sat)
    {
      AmongNext(m, n, sat);
      if Recorded(obs, sat) {
        var q :| Holds(obs, sat, q);
        assert Holds(obs2, sat, q);
      }
    }
  }

  lemma StoredHere(m: Message, n: nat, obs0: seq<Obsd>, locks0: Locks, locks: Locks, obs1: seq<Obsd>, p: nat, obs2: seq<Obsd>, locks2: Locks, i: nat)
    requires WellFormed(m) && n < |m.h.sats| && Stored(m, n, obs1, locks, p, obs2, locks2) && i <= n && (i < n ==> m.satOf[i] != m.satOf[n])
    requires obs1[p].entries == EntriesBefore(obs0, p) && LockOf(locks, m.satOf[n]) == LockOf(locks0, m.satOf[n])
    ensures RecordStored(m, i, p, obs0, locks0, obs2, locks2)
  {
    hide WellFormed, CellsStored, EntriesBefore;
  }

  lemma StoredElsewhere(m: Message, n: nat, obs0: seq<Obsd>, locks0: Locks, obs: seq<Obsd>, locks: Locks, obs1: seq<Obsd>, p: nat,
                        obs2: seq<Obsd>, locks2: Locks, i: nat, q: nat)
    requires WellFormed(m) && n < |m.h.sats| && Stored(m, n, obs1, locks, p, obs2, locks2) && i <= n && q != p && q < |obs|
    requires |obs| <= |obs1| && obs1[q] == obs[q] && obs[q].sat != m.satOf[n]
    requires i < n ==> RecordStored(m, i, q, obs0, locks0, obs, locks)
    ensures q < |obs2| && RecordStored(m, i, q, obs0, locks0, obs2, locks2)
  {
    hide WellFormed, CellsStored, EntriesBefore;
  }

  lemma StoredRecord(m: Message, n: nat, time: GTime, obs0: seq<Obsd>, locks0: Locks, obs: seq<Obsd>, locks: Locks, obs1: seq<Obsd>, p: nat,
                     obs2: seq<Obsd>, locks2: Locks, i: nat, q: nat)
    requires WellFormed(m) && n < |m.h.sats| && Progress(m, n, time, obs0, locks0, obs, locks) && m.satOf[n] != 0
    requires Indexed(time, m.satOf[n], obs, obs1, p) && Stored(m, n, obs1, locks, p, obs2, locks2) && i <= n && q < |obs2|
    ensures RecordStored(m, i, q, obs0, locks0, obs2, locks2)
  {
    IndexedEntries(m, n, time, obs0, locks0, obs, locks, obs1, p);
    DistinctNumbers(m, i, n);
    hide WellFormed, CellsStored, Stored, RecordStored, Kept, AllRecorded, LocksKept, ValidLocks;
    StoredSize(m, n, obs1, locks, p, obs2, locks2);
    if q == p {
      StoredHere(m, n, obs0, locks0, locks, obs1, p, obs2, locks2, i);
    } else {
      OtherRecord(time, m.satOf[n], obs, obs1, p, q);
      StoredElsewhere(m, n, obs0, locks0, obs, locks, obs1, p, obs2, locks2, i, q);
    }
  }

  lemma StoredSize(m: Message, n: nat, obs1: seq<Obsd>, locks: Locks, p: nat, obs2: seq<Obsd>, locks2: Locks)
    requires WellFormed(m) && n < |m.h.sats| && Stored(m, n, obs1, locks, p, obs2, locks2)
    ensures |obs2| == |obs1|
  {
  }

  lemma OtherRecord(time: GTime, sat: nat, obs: seq<Obsd>, obs1: seq<Obsd>, p: nat, q: nat)
    requires ValidObs(obs) && Indexed(time, sat, obs, obs1, p) && q < |obs1| && q != p
    ensures q < |obs| <= |obs1| && obs1[q] == obs[q] && obs[q].sat != sat
  {
    IndexedValid(time, sat, obs, obs1, p);
    assert Holds(obs1, sat, p);
    assert obs1[p].sat != obs1[q].sat;
  }

  lemma DistinctNumbers(m: Message, i: nat, n: nat)
    requires WellFormed(m) && i <= n < |m.satOf| && m.satOf[n] != 0
    ensures i < n ==> m.satOf[i] != m.satOf[n]
  {
  }

  /** A satellite with a record. */
  lemma ProgressStored(m: Message, n: nat, time: GTime, obs0: seq<Obsd>, locks0: Locks, obs: seq<Obsd>, locks: Locks, obs1: seq<Obsd>, p: nat,
                       obs2: seq<Obsd>, locks2: Locks)
    requires WellFormed(m) && n < |m.h.sats| && Progress(m, n, time, obs0, locks0, obs, locks) && m.satOf[n] != 0
    requires Indexed(time, m.satOf[n], obs, obs1, p) && Stored(m, n, obs1, locks, p, obs2, locks2)
    ensures Progress(m, n + 1, time, obs0, locks0, obs2, locks2)
  {
    hide WellFormed, ValidObs, ValidLocks, Kept, AllRecorded, LocksKept, RecordStored, Indexed, Stored;
    Shape(m);
    StoredKept(m, n, time, obs0, obs, locks, obs1, p, obs2, locks2);
    StoredLocks(m, n, time, obs, locks0, locks, obs1, p, obs2, locks2);
    forall i, q | 0 <= i < n + 1 && 0 <= q < |obs2|
      ensures RecordStored(m, i, q, obs0, locks0, obs2, locks2)
    {
      StoredRecord(m, n, time, obs0, locks0, obs, locks, obs1, p, obs2, locks2, i, q);
    }
  }

  // ---------- the receiver state ----------

  predicate Within(a: GTime, b: GTime)
  {
    -0.000000001 <= TimeDiff(a, b) <= 0.000000001
  }

  /** All records are of the epoch of record 0. */
  ghost predicate OneEpoch(obs: seq<Obsd>, first: GTime)
  {
    && (|obs| > 0 ==> obs[0].time == first)
    && (forall p :: 0 <= p < |obs| ==> Within(obs[p].time, first))
  }

  lemma ProgressIdle(m: Message, n: nat, time: GTime, obs: seq<Obsd>, locks: Locks)
    requires WellFormed(m) && n <= |m.satOf| && ValidObs(obs) && ValidLocks(locks) && forall i :: 0 <= i < n ==> m.satOf[i] == 0
    ensures n <= |m.h.sats| && Progress(m, n, time, obs, locks, obs, locks)
  {
    Shape(m);
    hide WellFormed, CellsStored;
    assert forall sat :: Among(m, n, sat) ==> sat == 0;
  }

  /** Whether the first satellite of a message starts a new epoch. */
  predicate Stale(obsflag: bool, first: GTime, time: GTime)
  {
    obsflag || !Within(first, time)
  }

  ghost predicate AnyNumbered(m: Message, n: nat)
    requires n <= |m.satOf|
  {
    exists i :: 0 <= i < n && m.satOf[i] != 0
  }

  // ---------- messages ----------

  /** All satellites of a message are stored. */
  ghost predicate MessageStored(m: Message, time: GTime, obs0: seq<Obsd>, locks0: Locks, obs: seq<Obsd>, locks: Locks)
  {
    WellFormed(m) && Progress(m, |m.h.sats|, time, obs0, locks0, obs, locks)
  }

  /** What the decoders look up: leap seconds, the number of a satellite of a system (satno
      of its prn), the code, frequency number and priority of a signal (obs2code and
      getcodepri, with BeiDou's frequencies renumbered), and satwavelen. */
  datatype Tables = Tables(leaps: LeapTable, satno: (System, nat) -> nat, signal: (System, nat) -> Signal, wavelen: (nat, int) -> real)
  {
    /** Numbers are not shared, and obs2code gives a frequency exactly to known signals. */
    ghost predicate Sound() {
      && (forall sys, i, j :: i != j && satno(sys, i) != 0 ==> satno(sys, i) != satno(sys, j))
      && (forall sys, k :: signal(sys, k).code == 0 <==> signal(sys, k).freq == 0)
    }
  }

  /** The wave length that save_msm_obs uses: GLONASS has one for each channel. */
  function WaveLength(sys: System, tables: Tables, sat: nat, freq: int, ex: Option<int>): real
  {
    if sys == Glo && ex.Some? && ex.value <= 13 then
      var f := (if freq == 2 then 1246000000.0 else 1602000000.0) + (if freq == 2 then 437500.0 else 562500.0) * (ex.value - 7) as real;
      if f == 0.0 then 0.0 else 299792458.0 / f
    else tables.wavelen(sat, freq - 1)
  }

  /** With channel information the wave length is that of the GLONASS channel: times its
      frequency, on L1 or L2, it is the speed of light. */
  lemma ChannelWaveLength(tables: Tables, sat: nat, freq: int, ex: int)
    requires 0 <= ex <= 13
    ensures var channel := (ex - 7) as real;
            WaveLength(Glo, tables, sat, freq, Some(ex)) * (if freq == 2 then 1246000000.0 + 437500.0 * channel else 1602000000.0 + 562500.0 * channel)
            == 299792458.0
  {
    var channel := (ex - 7) as real;
    assert -7.0 <= channel <= 6.0;
    assert (if freq == 2 then 1246000000.0 + 437500.0 * channel else 1602000000.0 + 562500.0 * channel) > 0.0;
  }

  function Signals(sys: System, tables: Tables, sigs: seq<nat>): (r: seq<Signal>)
    ensures |r| == |sigs|
  {
    seq(|sigs|, k requires 0 <= k < |sigs| => tables.signal(sys, sigs[k]))
  }

  /** The message that the decoders hand to save_msm_obs. */
  ghost predicate FromMessage(sys: System, kind: Kind, h: Head, b: Body, tables: Tables, m: Message)
  {
    var n, c, sigs := |h.sats|, CellCount(h.cells), Signals(sys, tables, h.sigs);
    && TableFits(SatCols(kind), n, b.sats) && TableFits(CellCols(kind), c, b.cells)
    && m.h == h && |m.sats| == |m.satOf| == n && |m.cells| == c && |m.code| == |m.ind| == |h.sigs|
    && (forall i :: 0 <= i < n ==> m.sats[i] == SatAt(kind, b, n, i) && m.satOf[i] == tables.satno(sys, h.sats[i]))
    && (forall j :: 0 <= j < c ==> m.cells[j] == CellAt(kind, b, c, j))
    && (forall k :: 0 <= k < |h.sigs| ==> m.code[k] == sigs[k].code && m.ind[k] == Slot(sigs, k, NFREQ, NEXOBS))
    && (forall i, k :: 0 <= i < n && 0 <= k < |h.sigs| ==>
          m.wl(i, k) == WaveLength(sys, tables, m.satOf[i], sigs[k].freq, m.sats[i].ex))
  }

  method Assemble(sys: System, kind: Kind, h: Head, b: Body, tables: Tables) returns (m: Message)
    requires |h.cells| == |h.sats| * |h.sigs| && Ids(h.sats, 64) && Ids(h.sigs, 32) && tables.Sound()
    requires TableFits(SatCols(kind), |h.sats|, b.sats) && TableFits(CellCols(kind), CellCount(h.cells), b.cells)
    ensures FromMessage(sys, kind, h, b, tables, m) && WellFormed(m)
  {
    hide SatAt, CellAt, WaveLength, Slot, TableFits, CellCount, FromMessage, WellFormed;
    var n, c, sigs := |h.sats|, CellCount(h.cells), Signals(sys, tables, h.sigs);
    IdsFew(h.sigs, 32);
    var ind := SigIndex(sigs, NFREQ, NEXOBS);
    var sats := seq(n, i requires 0 <= i < n => SatAt(kind, b, n, i));
    var cells := seq(c, j requires 0 <= j < c => CellAt(kind, b, c, j));
    var satOf := seq(n, i requires 0 <= i < n => tables.satno(sys, h.sats[i]));
    var code := seq(|sigs|, k requires 0 <= k < |sigs| => sigs[k].code);
    var wl := (i: int, k: int) =>
      if 0 <= i < n && 0 <= k < |sigs| then WaveLength(sys, tables, satOf[i], sigs[k].freq, sats[i].ex) else 0.0;
    m := Message(h, sats, cells, satOf, code, ind, wl);
    MakeFrom(sys, kind, h, b, tables, m);
    AssembledWell(sys, kind, h, b, tables, m);
  }

  lemma MakeFrom(sys: System, kind: Kind, h: Head, b: Body, tables: Tables, m: Message)
    requires TableFits(SatCols(kind), |h.sats|, b.sats) && TableFits(CellCols(kind), CellCount(h.cells), b.cells)
    requires m.h == h && |m.sats| == |m.satOf| == |h.sats| && |m.cells| == CellCount(h.cells) && |m.code| == |m.ind| == |h.sigs|
    requires forall i :: 0 <= i < |h.sats| ==> m.sats[i] == SatAt(kind, b, |h.sats|, i) && m.satOf[i] == tables.satno(sys, h.sats[i])
    requires forall j :: 0 <= j < |m.cells| ==> m.cells[j] == CellAt(kind, b, CellCount(h.cells), j)
    requires var sigs := Signals(sys, tables, h.sigs);
             && (forall k :: 0 <= k < |h.sigs| ==> m.code[k] == sigs[k].code && m.ind[k] == Slot(sigs, k, NFREQ, NEXOBS))
             && (forall i, k :: 0 <= i < |h.sats| && 0 <= k < |h.sigs| ==>
                   m.wl(i, k) == WaveLength(sys, tables, m.satOf[i], sigs[k].freq, m.sats[i].ex))
    ensures FromMessage(sys, kind, h, b, tables, m)
  {
    hide SatAt, CellAt, WaveLength, Slot, TableFits, CellCount, Signals;
  }

  lemma {:induction false} IdsFew(ids: seq<nat>, n: nat)
    requires Ids(ids, n)
    ensures |ids| <= n
    decreases |ids|
  {
    if |ids| > 0 {
      var m := ids[|ids| - 1] - 1;
      assert Ids(ids[..|ids| - 1], m);
      IdsFew(ids[..|ids| - 1], m);
    }
  }

  lemma SlotsApart(sigs: seq<Signal>, k: nat, l: nat)
    requires k < l < |sigs| && forall i :: 0 <= i < |sigs| ==> (sigs[i].code == 0 <==> sigs[i].freq == 0)
    ensures Slot(sigs, k, NFREQ, NEXOBS) < NFREQ + NEXOBS && Slot(sigs, l, NFREQ, NEXOBS) < NFREQ + NEXOBS
    ensures Slot(sigs, k, NFREQ, NEXOBS) >= 0 ==> Slot(sigs, k, NFREQ, NEXOBS) != Slot(sigs, l, NFREQ, NEXOBS)
  {
    if Known(sigs, k) && Known(sigs, l) {
      SlotsDistinct(sigs, k, l, NFREQ, NEXOBS);
    } else {
      SlotBelow(sigs, k);
      SlotBelow(sigs, l);
    }
  }

  lemma SlotBelow(sigs: seq<Signal>, k: nat)
    requires k < |sigs| && (sigs[k].code == 0 <==> sigs[k].freq == 0)
    ensures Slot(sigs, k, NFREQ, NEXOBS) < NFREQ + NEXOBS
    ensures sigs[k].code == 0 ==> Slot(sigs, k, NFREQ, NEXOBS) == -1
  {
  }

  lemma AssembledWell(sys: System, kind: Kind, h: Head, b: Body, tables: Tables, m: Message)
    requires |h.cells| == |h.sats| * |h.sigs| && Ids(h.sats, 64) && Ids(h.sigs, 32) && tables.Sound()
    requires FromMessage(sys, kind, h, b, tables, m)
    ensures WellFormed(m)
  {
    hide SatAt, CellAt, WaveLength, Slot, TableFits, CellCount;
    var sigs := Signals(sys, tables, h.sigs);
    forall k | 0 <= k < |m.ind|
      ensures m.ind[k] < NFREQ + NEXOBS
    {
      SlotBelow(sigs, k);
    }
    forall k, l | 0 <= k < l < |m.ind| && m.ind[k] >= 0
      ensures m.ind[k] != m.ind[l]
    {
      SlotsApart(sigs, k, l);
    }
  }

  /** The time that a header sets. */
  function HeadTime(sys: System, h: Head, tables: Tables, time: GTime, now: GTime): GTime
  {
    var t := h.epoch as real * 0.001;
    match sys
    case Glo => AdjDayGlot(tables.leaps, time, now, t)
    case Cmp => AdjWeek(time, now, t + 14.0)
    case _ => AdjWeek(time, now, t)
  }

  /** The header's time is the true time: milliseconds of the week, BeiDou's week being 14 s
      behind. */
  ghost predicate Timed(sys: System, h: Head, trueTime: real)
  {
    sys != Glo && TimeOfWeek(h.epoch as real * 0.001 + (if sys == Cmp then 14.0 else 0.0), trueTime)
  }

  /** The time that a message sets is the true one, if the time before was less than half a
      week away. */
  lemma HeadTimeTracked(sys: System, h: Head, tables: Tables, time: GTime, now: GTime, trueTime: real)
    requires Timed(sys, h, trueTime) && Tracked(time) && -302400.0 < trueTime - GpsSeconds(time) < 302400.0
    ensures Tracked(HeadTime(sys, h, tables, time, now)) && GpsSeconds(HeadTime(sys, h, tables, time, now)) == trueTime
  {
    hide Tracked, GpsSeconds, AdjWeek, TimeOfWeek;
    WeekTracked(time, now, h.epoch as real * 0.001 + (if sys == Cmp then 14.0 else 0.0), trueTime);
  }

  /** The same for GLONASS, half a day. */
  lemma HeadDayTracked(h: Head, tables: Tables, time: GTime, now: GTime, before: real, trueTime: real)
    requires FallingOffsets(tables.leaps) && OnDay(tables.leaps, time, before)
    requires TimeOfDay(h.epoch as real * 0.001, trueTime) && trueTime >= 0.0 && -43200.0 < trueTime - before < 43200.0
    ensures OnDay(tables.leaps, HeadTime(Glo, h, tables, time, now), trueTime)
  {
    hide OnDay, AdjDayGlot, TimeOfDay, FallingOffsets;
    DayStep(tables.leaps, time, now, h.epoch as real * 0.001, before, trueTime);
  }

  /** The first message, when there is no time yet, is resolved by the reference time. */
  lemma FirstHeadTracked(sys: System, h: Head, tables: Tables, time: GTime, now: GTime, trueTime: real)
    requires time.time == 0 && Timed(sys, h, trueTime) && Tracked(now) && -302400.0 < trueTime - GpsSeconds(now) < 302400.0
    ensures Tracked(HeadTime(sys, h, tables, time, now)) && GpsSeconds(HeadTime(sys, h, tables, time, now)) == trueTime
  {
    hide Tracked, GpsSeconds, AdjWeek, TimeOfWeek;
    FirstTracked(time, now, h.epoch as real * 0.001 + (if sys == Cmp then 14.0 else 0.0), trueTime);
  }

  /** The same for GLONASS, half a day. */
  lemma FirstHeadDay(h: Head, tables: Tables, time: GTime, now: GTime, before: real, trueTime: real)
    requires time.time == 0 && FallingOffsets(tables.leaps) && OnDay(tables.leaps, now, before)
    requires TimeOfDay(h.epoch as real * 0.001, trueTime) && trueTime >= 0.0 && -43200.0 < trueTime - before < 43200.0
    ensures OnDay(tables.leaps, HeadTime(Glo, h, tables, time, now), trueTime)
  {
    hide OnDay, AdjDayGlot, TimeOfDay, FallingOffsets;
    FirstDay(tables.leaps, time, now, h.epoch as real * 0.001, before, trueTime);
  }

  ghost predicate Readable(buff: seq<bv8>, len: nat, sys: System, kind: Kind, h: Head, b: Body)
  {
    Carries(buff, sys, kind, h, b) && 24 + MessageSize(kind, h) <= len * 8
  }

  /** `h` and `b` are what the buffer carries, and `m` what the decoder makes of them. */
  ghost predicate Decoded(buff: seq<bv8>, len: nat, sys: System, kind: Kind, tables: Tables, h: Head, b: Body, m: Message)
  {
    Readable(buff, len, sys, kind, h, b) && FromMessage(sys, kind, h, b, tables, m)
  }

  ghost predicate Acceptable(buff: seq<bv8>, len: nat, sys: System, kind: Kind, only: Option<int>, staid: int, obsflag: bool)
  {
    exists h, b :: Readable(buff, len, sys, kind, h, b) && StationOk(only, staid, obsflag, h.staid)
  }

  ghost predicate HeadReadable(buff: seq<bv8>, len: nat, sys: System, h: Head)
  {
    CarriesHead(buff, sys, h) && CarriesCells(buff, h) && 193 + |h.cells| <= len * 8
  }

  ghost predicate AcceptableHead(buff: seq<bv8>, len: nat, sys: System, only: Option<int>, staid: int, obsflag: bool)
  {
    exists h :: HeadReadable(buff, len, sys, h) && StationOk(only, staid, obsflag, h.staid)
  }

  /** The station that test_staid accepts. */
  predicate StationOk(only: Option<int>, staid: int, obsflag: bool, id: int)
  {
    (only.Some? ==> id == only.value) && (staid == 0 || obsflag || id == staid)
  }

  /** The station that test_staid remembers. */
  function StationAfter(only: Option<int>, staid: int, obsflag: bool, id: int): int
  {
    if StationOk(only, staid, obsflag, id) then id else if only.Some? && id != only.value then staid else 0
  }

  lemma SameHeadTime(sys: System, h: Head, k: Head, tables: Tables, time: GTime, now: GTime)
    requires h.epoch == k.epoch
    ensures HeadTime(sys, h, tables, time, now) == HeadTime(sys, k, tables, time, now)
  {
  }

  lemma ProductsNonNegative(kind: Kind, h: Head)
    ensures |h.sats| * SatSize(kind) >= 0 && CellCount(h.cells) * CellSize(kind) >= 0
  {
  }

  lemma SizeOf(kind: Kind, h: Head, ncell: nat)
    requires ncell == CellCount(h.cells)
    ensures 24 + MessageSize(kind, h) == 193 + |h.cells| + |h.sats| * SatSize(kind) + ncell * CellSize(kind)
  {
  }

  lemma HeadTooShort(buff: seq<bv8>, len: nat, sys: System)
    requires len * 8 < 24 + 169
    ensures forall k :: !HeadReadable(buff, len, sys, k)
  {
    hide CarriesHead, CarriesCells;
  }

  /** All messages a buffer carries have the same header up to the cells. */
  lemma HeadRules(buff: seq<bv8>, len: nat, sys: System, h: Head)
    requires CarriesHead(buff, sys, h)
    ensures forall k :: HeadReadable(buff, len, sys, k) ==>
      h == k.(cells := h.cells) && |h.sats| * |h.sigs| <= 64 && 193 + |h.sats| * |h.sigs| <= len * 8
  {
    hide CarriesHead;
    forall k | HeadReadable(buff, len, sys, k)
      ensures h == k.(cells := h.cells) && |h.sats| * |h.sigs| <= 64 && 193 + |h.sats| * |h.sigs| <= len * 8
    {
      HeadUnique(buff, sys, h, k);
    }
  }

  lemma MakeHeadReadable(buff: seq<bv8>, len: nat, sys: System, head: Head, h: Head)
    requires CarriesHead(buff, sys, head) && h == head.(cells := h.cells) && CarriesCells(buff, h) && 193 + |h.cells| <= len * 8
    ensures HeadReadable(buff, len, sys, h) && CarriesHead(buff, sys, h)
  {
    hide TableFits, TableBits, Ids, MaskBits, Field, HeadCols;
    assert HeadData(sys, h) == HeadData(sys, head);
  }

  lemma ReadableHead(buff: seq<bv8>, len: nat, sys: System, kind: Kind, k: Head, c: Body)
    requires Readable(buff, len, sys, kind, k, c)
    ensures HeadReadable(buff, len, sys, k)
  {
    hide CarriesHead, CarriesCells, CarriesBody, CellCount;
    ProductsNonNegative(kind, k);
  }

  lemma NotAcceptable(buff: seq<bv8>, len: nat, sys: System, kind: Kind, only: Option<int>, staid: int, obsflag: bool)
    requires !AcceptableHead(buff, len, sys, only, staid, obsflag)
    ensures !Acceptable(buff, len, sys, kind, only, staid, obsflag)
  {
    hide Readable, HeadReadable, StationOk;
    forall k, c | Readable(buff, len, sys, kind, k, c)
      ensures HeadReadable(buff, len, sys, k)
    {
      ReadableHead(buff, len, sys, kind, k, c);
    }
  }

  lemma HeadReadableUnique(buff: seq<bv8>, len: nat, sys: System, h: Head, k: Head)
    requires HeadReadable(buff, len, sys, h) && HeadReadable(buff, len, sys, k)
    ensures h == k
  {
    hide CarriesHead, ColumnBits, AllIn, Field;
    HeadUnique(buff, sys, h, k);
    ColumnInjective(BIT, h.cells, k.cells);
  }

  /** With the header read, acceptance depends on the length only. */
  lemma AcceptRule(buff: seq<bv8>, len: nat, sys: System, kind: Kind, h: Head, only: Option<int>, staid: int, obsflag: bool)
    requires HeadReadable(buff, len, sys, h) && AcceptableHead(buff, len, sys, only, staid, obsflag)
    ensures Acceptable(buff, len, sys, kind, only, staid, obsflag) <==> exists b :: Readable(buff, len, sys, kind, h, b)
    ensures 24 + MessageSize(kind, h) > len * 8 ==> forall b :: !Readable(buff, len, sys, kind, h, b)
  {
    hide HeadReadable, Carries, MessageSize, StationOk;
    forall k | HeadReadable(buff, len, sys, k)
      ensures k == h
    {
      HeadReadableUnique(buff, len, sys, h, k);
    }
    forall k, c | Readable(buff, len, sys, kind, k, c)
      ensures k == h
    {
      ReadableHead(buff, len, sys, kind, k, c);
    }
  }

  lemma MakeReadable(buff: seq<bv8>, len: nat, sys: System, kind: Kind, h: Head, b: Body)
    requires HeadReadable(buff, len, sys, h) && CarriesBody(buff, kind, h, b) && 24 + MessageSize(kind, h) <= len * 8
    ensures Readable(buff, len, sys, kind, h, b)
    ensures Ids(h.sats, 64) && Ids(h.sigs, 32) && |h.cells| == |h.sats| * |h.sigs|
    ensures TableFits(SatCols(kind), |h.sats|, b.sats) && TableFits(CellCols(kind), CellCount(h.cells), b.cells)
  {
    hide TableFits, TableBits, Ids, MaskBits, Field, HeadCols, HeadData, CellCount, ColumnBits;
  }

  /** Satellite i and cell j have all their fields. */
  ghost predicate HasFields(kind: Kind, b: Body, i: nat, j: nat)
  {
    && |b.sats| == |SatCols(kind)| && |b.cells| == |CellCols(kind)|
    && (forall c :: 0 <= c < |b.sats| ==> i < |b.sats[c]|)
    && (forall c :: 0 <= c < |b.cells| ==> j < |b.cells[c]|)
  }

  /** The kinds with extended information and rates. */
  predicate WithRates(kind: Kind)
  {
    kind == Msm5 || kind == Msm7
  }

  /** The rough range: the 8-bit range with its 10-bit fraction, in milliseconds of light. */
  ghost function Rough(kind: Kind, b: Body, i: nat, j: nat): real
    requires HasFields(kind, b, i, j)
  {
    (b.sats[0][i] as real + b.sats[if WithRates(kind) then 2 else 1][i] as real / 1024.0) * RANGE_MS
  }

  /** The pseudorange is stored exactly when the range is neither 0 nor 255 and the fine
      field is not its marker, the carrier phase likewise if there is a wave length. */
  ghost predicate RangesFromFields(kind: Kind, b: Body, i: nat, j: nat, wl: real, kept: Entry, e: Entry)
    requires HasFields(kind, b, i, j)
  {
    var rng, pr, cp := b.sats[0][i], b.cells[0][j], b.cells[1][j];
    && e.P == (if rng != 0 && rng != 255 && pr != RangeInvalid(kind) then Rough(kind, b, i, j) + Scaled(pr, RangeUnit(kind)) else kept.P)
    && (if rng != 0 && rng != 255 && cp != PhaseInvalid(kind) && wl > 0.0
        then e.L * wl == Rough(kind, b, i, j) + Scaled(cp, PhaseUnit(kind)) else e.L == kept.L)
  }

  /** The Doppler shift, the signal strength, the slip indicator and the code. */
  ghost predicate RestFromFields(kind: Kind, b: Body, i: nat, j: nat, wl: real, code: nat, kept: Entry, lockBefore: int, e: Entry)
    requires HasFields(kind, b, i, j)
  {
    && (if WithRates(kind) && b.cells[5][j] != -16384 && wl > 0.0
        then e.D * wl == -((if b.sats[3][i] != -8192 then b.sats[3][i] as real else 0.0) + Scaled(b.cells[5][j], 0.0001))
        else e.D == kept.D)
    && e.SNR == (if kind == Msm4 || kind == Msm5 then b.cells[4][j] * 4 else b.cells[4][j] / 4)
    && e.LLI == LossOfLock(b.cells[2][j], lockBefore) + (if b.cells[3][j] != 0 then 3 else 0)
    && e.code == code
  }

  /** What the raw fields of satellite i and cell j make of an entry. */
  ghost predicate EntryFromFields(kind: Kind, b: Body, i: nat, j: nat, wl: real, code: nat, kept: Entry, lockBefore: int, e: Entry)
  {
    && HasFields(kind, b, i, j)
    && RangesFromFields(kind, b, i, j, wl, kept, e) && RestFromFields(kind, b, i, j, wl, code, kept, lockBefore, e)
  }

  lemma RoughRange(rng: int, fraction: int)
    requires 0 <= rng < 256 && 0 <= fraction < 1024
    ensures Range(rng, fraction) == 0.0 <==> rng == 0 || rng == 255
    ensures rng != 0 && rng != 255 ==> Range(rng, fraction) == (rng as real + fraction as real / 1024.0) * RANGE_MS
  {
    RangeParts(rng as real, fraction as real, RANGE_MS);
  }

  lemma RangeParts(x: real, y: real, u: real)
    requires x >= 0.0 && y >= 0.0 && u > 0.0
    ensures x * u + y * (1.0 / 1024.0) * u == (x + y / 1024.0) * u
    ensures (x * u == 0.0 <==> x == 0.0) && (x > 0.0 ==> (x + y / 1024.0) * u > 0.0)
  {
  }

  /** The raw fields are those of the format. */
  lemma FieldRanges(kind: Kind, b: Body, n: nat, c: nat, i: nat, j: nat)
    requires TableFits(SatCols(kind), n, b.sats) && TableFits(CellCols(kind), c, b.cells) && i < n && j < c
    ensures HasFields(kind, b, i, j)
    ensures 0 <= b.sats[0][i] < 256 && 0 <= b.sats[if WithRates(kind) then 2 else 1][i] < 1024 && b.cells[4][j] >= 0
  {
    assert Pow2(8) == 256 && Pow2(10) == 1024;
    hide Pow2;
    assert SatCols(kind)[0] == U(8) && SatCols(kind)[if WithRates(kind) then 2 else 1] == U(10);
    assert InColumn(SatCols(kind)[0], b.sats[0][i]) && InColumn(CellCols(kind)[4], b.cells[4][j]);
  }

  lemma SignalStrength(v: int)
    requires v >= 0
    ensures Trunc(v as real * 1.0 * 4.0) == v * 4 && Trunc(v as real * 0.0625 * 4.0) == v / 4
  {
    assert v as real * 1.0 * 4.0 == (v * 4) as real;
    var q, r := v / 4, v % 4;
    assert v as real * 0.0625 * 4.0 == q as real + r as real / 4.0;
  }

  lemma SatFields(kind: Kind, b: Body, n: nat, i: nat, j: nat)
    requires TableFits(SatCols(kind), n, b.sats) && i < n && HasFields(kind, b, i, j)
    requires 0 <= b.sats[0][i] < 256 && 0 <= b.sats[if WithRates(kind) then 2 else 1][i] < 1024
    ensures var sat, rng := SatAt(kind, b, n, i), b.sats[0][i];
            && (sat.r == 0.0 <==> rng == 0 || rng == 255)
            && (sat.r != 0.0 ==> sat.r == Rough(kind, b, i, j))
            && sat.rr == if WithRates(kind) then Some(if b.sats[3][i] != -8192 then b.sats[3][i] as real else 0.0) else None
  {
    hide AllIn;
    RoughRange(b.sats[0][i], b.sats[if WithRates(kind) then 2 else 1][i]);
    hide Range;
  }

  lemma CellFields(kind: Kind, b: Body, c: nat, j: nat)
    requires TableFits(CellCols(kind), c, b.cells) && j < c && b.cells[4][j] >= 0
    ensures var cell := CellAt(kind, b, c, j);
            && cell.pr == Fine(b.cells[0][j], RangeInvalid(kind), RangeUnit(kind))
            && cell.cp == Fine(b.cells[1][j], PhaseInvalid(kind), PhaseUnit(kind))
            && cell.rrf == (if WithRates(kind) then Fine(b.cells[5][j], -16384, 0.0001) else None)
            && cell.lock == b.cells[2][j] && cell.half == (b.cells[3][j] != 0)
            && Trunc(cell.cnr * 4.0) == if kind == Msm4 || kind == Msm5 then b.cells[4][j] * 4 else b.cells[4][j] / 4
  {
    hide AllIn, Fine, Scaled, RangeInvalid, PhaseInvalid, RangeUnit, PhaseUnit, Trunc;
    SignalStrength(b.cells[4][j]);
  }

  lemma FieldsRanges(kind: Kind, b: Body, i: nat, j: nat, sat: SatData, cell: CellData, wl: real, code: nat, kept: Entry, lockBefore: int)
    requires HasFields(kind, b, i, j)
    requires sat.r == 0.0 <==> b.sats[0][i] == 0 || b.sats[0][i] == 255
    requires sat.r != 0.0 ==> sat.r == Rough(kind, b, i, j)
    requires cell.pr == Fine(b.cells[0][j], RangeInvalid(kind), RangeUnit(kind)) && cell.cp == Fine(b.cells[1][j], PhaseInvalid(kind), PhaseUnit(kind))
    ensures RangesFromFields(kind, b, i, j, wl, kept, StoreCell(kept, sat, cell, wl, lockBefore, code))
  {
    hide HasFields, Rough, RangeUnit, PhaseUnit, RangeInvalid, PhaseInvalid, Scaled, Cycles, Trunc, LossOfLock, SatCols, CellCols;
    if cell.cp.Some? && wl > 0.0 {
      CyclesTimesLength(sat.r + cell.cp.value, wl);
    }
  }

  lemma FieldsRest(kind: Kind, b: Body, i: nat, j: nat, sat: SatData, cell: CellData, wl: real, code: nat, kept: Entry, lockBefore: int)
    requires HasFields(kind, b, i, j)
    requires sat.rr == if WithRates(kind) then Some(if b.sats[3][i] != -8192 then b.sats[3][i] as real else 0.0) else None
    requires cell.rrf == (if WithRates(kind) then Fine(b.cells[5][j], -16384, 0.0001) else None)
    requires cell.lock == b.cells[2][j] && cell.half == (b.cells[3][j] != 0)
    requires Trunc(cell.cnr * 4.0) == if kind == Msm4 || kind == Msm5 then b.cells[4][j] * 4 else b.cells[4][j] / 4
    ensures RestFromFields(kind, b, i, j, wl, code, kept, lockBefore, StoreCell(kept, sat, cell, wl, lockBefore, code))
  {
    hide Rough, RangeUnit, PhaseUnit, RangeInvalid, PhaseInvalid, Scaled, Cycles, Trunc, LossOfLock;
    if sat.rr.Some? && cell.rrf.Some? && wl > 0.0 {
      CyclesTimesLength(-(sat.rr.value + cell.rrf.value), wl);
    }
  }

  lemma FieldsEntry(kind: Kind, b: Body, n: nat, c: nat, i: nat, j: nat, wl: real, code: nat, kept: Entry, lockBefore: int)
    requires TableFits(SatCols(kind), n, b.sats) && TableFits(CellCols(kind), c, b.cells) && i < n && j < c
    ensures EntryFromFields(kind, b, i, j, wl, code, kept, lockBefore,
                            StoreCell(kept, SatAt(kind, b, n, i), CellAt(kind, b, c, j), wl, lockBefore, code))
    ensures CellAt(kind, b, c, j).lock == b.cells[2][j]
  {
    FieldRanges(kind, b, n, c, i, j);
    hide TableFits, SatAt, CellAt, HasFields, Rough, RangeUnit, PhaseUnit, RangeInvalid, PhaseInvalid, Trunc, StoreCell, Fine,
         RangesFromFields, RestFromFields;
    SatFields(kind, b, n, i, j);
    CellFields(kind, b, c, j);
    FieldsRanges(kind, b, i, j, SatAt(kind, b, n, i), CellAt(kind, b, c, j), wl, code, kept, lockBefore);
    FieldsRest(kind, b, i, j, SatAt(kind, b, n, i), CellAt(kind, b, c, j), wl, code, kept, lockBefore);
  }

  /** After a message, the record of a satellite holds for each of its cells with a slot
      what the raw fields at the cell's rank say.  In particular the pseudorange is stored
      exactly when the range is neither 0 nor 255 and the fine field is not its marker. */
  lemma StoredAtRank(sys: System, kind: Kind, h: Head, b: Body, tables: Tables, m: Message, time: GTime, obs0: seq<Obsd>, locks0: Locks,
                     obs: seq<Obsd>, locks: Locks, i: nat, k: nat, p: nat)
    requires FromMessage(sys, kind, h, b, tables, m) && MessageStored(m, time, obs0, locks0, obs, locks)
    requires i < |m.h.sats| && Hit(m, i, k) && p < |obs| && obs[p].sat == m.satOf[i] != 0
    ensures Rank(m, i, k) < CellCount(h.cells) && HasFields(kind, b, i, Rank(m, i, k))
    ensures |EntriesBefore(obs0, p)| == |LockOf(locks0, obs[p].sat)| == |obs[p].entries| == |LockOf(locks, obs[p].sat)| == NFREQ + NEXOBS
    ensures var j, s := Rank(m, i, k), m.ind[k];
            && EntryFromFields(kind, b, i, j, m.wl(i, k), m.code[k], EntriesBefore(obs0, p)[s], LockOf(locks0, obs[p].sat)[s], obs[p].entries[s])
            && LockOf(locks, obs[p].sat)[s] == KeptLock(b.cells[2][j])
  {
    hide Rank, StoreCell, SatAt, CellAt, KeptLock, TableFits, HasFields, RangesFromFields, RestFromFields;
    var sat := obs[p].sat;
    Shape(m);
    assert RecordStored(m, i, p, obs0, locks0, obs, locks);
    assert CellStored(m, i, k, EntriesBefore(obs0, p), LockOf(locks0, sat), obs[p].entries, LockOf(locks, sat));
    var s := m.ind[k];
    FieldsEntry(kind, b, |h.sats|, CellCount(h.cells), i, Rank(m, i, k), m.wl(i, k), m.code[k], EntriesBefore(obs0, p)[s], LockOf(locks0, sat)[s]);
  }

  /** What the tables add to the fields: numbers, codes, and the wave length, which for
      GLONASS is that of the channel in the extended information if that is one. */
  lemma LookedUp(sys: System, kind: Kind, h: Head, b: Body, tables: Tables, m: Message, i: nat, k: nat)
    requires FromMessage(sys, kind, h, b, tables, m) && i < |h.sats| && k < |h.sigs|
    ensures |m.satOf| == |h.sats| && |m.code| == |h.sigs|
    ensures m.satOf[i] == tables.satno(sys, h.sats[i]) && m.code[k] == tables.signal(sys, h.sigs[k]).code
    ensures |b.sats| == |SatCols(kind)| && |b.sats[1]| == |h.sats|
    ensures var freq, ex := tables.signal(sys, h.sigs[k]).freq, b.sats[1][i];
            if sys == Glo && WithRates(kind) && ex <= 13 then
              m.wl(i, k) * (if freq == 2 then 1246000000.0 + 437500.0 * (ex - 7) as real else 1602000000.0 + 562500.0 * (ex - 7) as real)
              == 299792458.0
            else m.wl(i, k) == tables.wavelen(m.satOf[i], freq - 1)
  {
    hide WaveLength, Slot, CellAt, Signals, CellCols, AllIn;
    SignalOf(sys, tables, h.sigs, k);
    ExtendedField(kind, b, |h.sats|, i);
    ChosenLength(sys, tables, m.satOf[i], tables.signal(sys, h.sigs[k]).freq, b.sats[1][i], SatAt(kind, b, |h.sats|, i).ex, WithRates(kind));
  }

  lemma SignalOf(sys: System, tables: Tables, sigs: seq<nat>, k: nat)
    requires k < |sigs|
    ensures Signals(sys, tables, sigs)[k] == tables.signal(sys, sigs[k])
  {
  }

  lemma ChosenLength(sys: System, tables: Tables, sat: nat, freq: int, raw: int, ex: Option<int>, given: bool)
    requires raw >= 0 && ex == if given then Some(raw) else None
    ensures var wl := WaveLength(sys, tables, sat, freq, ex);
            if sys == Glo && given && raw <= 13 then
              wl * (if freq == 2 then 1246000000.0 + 437500.0 * (raw - 7) as real else 1602000000.0 + 562500.0 * (raw - 7) as real)
              == 299792458.0
            else wl == tables.wavelen(sat, freq - 1)
  {
    if sys == Glo && given && raw <= 13 {
      ChannelWaveLength(tables, sat, freq, raw);
    }
  }

  lemma ExtendedField(kind: Kind, b: Body, n: nat, i: nat)
    requires TableFits(SatCols(kind), n, b.sats) && i < n
    ensures |b.sats| == |SatCols(kind)| && |b.sats[1]| == n && b.sats[1][i] >= 0
    ensures SatAt(kind, b, n, i).ex == if WithRates(kind) then Some(b.sats[1][i]) else None
  {
    hide Range;
    assert InColumn(SatCols(kind)[1], b.sats[1][i]);
  }

  /** A new record starts with zeros, and so do the lock times of a new satellite. */
  lemma NewRecord(obs: seq<Obsd>, locks: Locks, p: nat, sat: nat, s: nat)
    requires s < NFREQ + NEXOBS
    ensures p >= |obs| ==> EntriesBefore(obs, p)[s] == Entry(0.0, 0.0, 0.0, 0, 0, 0)
    ensures sat !in locks ==> LockOf(locks, sat)[s] == 0
  {
  }

  /** Decoding inverts encoding: a buffer that carries an encoded message in full is
      accepted from an expected station, and decodes to that message. */
  lemma DecodesEncoded(buff: seq<bv8>, len: nat, sys: System, kind: Kind, only: Option<int>, staid: int, obsflag: bool, tables: Tables,
                       h: Head, b: Body, k: Head, c: Body, m: Message)
    requires Carries(buff, sys, kind, h, b) && 24 + MessageSize(kind, h) <= len * 8
    ensures StationOk(only, staid, obsflag, h.staid) ==> Acceptable(buff, len, sys, kind, only, staid, obsflag)
    ensures Decoded(buff, len, sys, kind, tables, k, c, m) ==> k == h && c == b
  {
    hide Carries, FromMessage, MessageSize;
    assert Readable(buff, len, sys, kind, h, b);
    if Decoded(buff, len, sys, kind, tables, k, c, m) {
      CarriesUnique(buff, sys, kind, h, b, k, c);
    }
  }

  /** The part of rtcm_t that observation messages change.  `first` is the time in
      `obs.data[0]`, which stays there when the records are cleared. */
  class Rtcm3 {
    var time: GTime
    var staid: int
    var obsflag: bool
    var obs: seq<Obsd>
    var first: GTime
    var locks: Locks

    /** At most MAXOBS records, of distinct satellites and one epoch. */
    ghost predicate Valid()
      reads this
    {
      ValidObs(obs) && ValidLocks(locks) && OneEpoch(obs, first)
    }

    constructor ()
      ensures Valid() && obs == [] && locks == map[] && staid == 0 && !obsflag && time == GTime(0, 0.0)
    {
      time, first, staid, obsflag, obs, locks := GTime(0, 0.0), GTime(0, 0.0), 0, false, [], map[];
    }

    /** obsindex */
    method ObsIndex(t: GTime, sat: nat) returns (index: int)
      modifies this`obs, this`first
      ensures Indexed(t, sat, old(obs), obs, index)
      ensures first == if index == 0 && old(|obs|) == 0 then t else old(first)
    {
      var i := 0;
      while i < |obs|
        invariant 0 <= i <= |obs| && obs == old(obs) && first == old(first)
        invariant forall p :: 0 <= p < i ==> obs[p].sat != sat
      {
        if obs[i].sat == sat {
          assert Holds(obs, sat, i);
          return i;
        }
        i := i + 1;
      }
      assert !Recorded(obs, sat);
      if i >= MAXOBS {
        return -1;
      }
      if i == 0 {
        first := t;
      }
      obs := obs + [Obsd(t, sat, Blank())];
      return i;
    }

    /** The epoch test of save_msm_obs for one satellite, and obsindex. */
    method EpochRecord(sat: nat) returns (index: int)
      requires Valid()
      modifies this`obs, this`first, this`obsflag
      ensures !obsflag && Within(first, time) && Valid()
      ensures old(Stale(obsflag, first, time)) == old(obsflag || TimeDiff(first, time) < -0.000000001 || 0.000000001 < TimeDiff(first, time))
      ensures Indexed(time, sat, if old(Stale(obsflag, first, time)) then [] else old(obs), obs, index)
    {
      if Stale(obsflag, first, time) {
        obs, obsflag := [], false;
        NothingRecorded(sat);
      }
      ghost var was := obs;
      index := ObsIndex(time, sat);
      IndexedValid(time, sat, was, obs, index);
      IndexedEpoch(time, sat, was, obs, index);
    }

    /** test_staid; `only` is the -STA option. */
    method TestStaid(only: Option<int>, id: int) returns (ok: bool)
      modifies this`staid
      ensures ok <==> (only.Some? ==> id == only.value) && (old(staid) == 0 || obsflag || id == old(staid))
      ensures staid == if ok then id else if only.Some? && id != only.value then old(staid) else 0
    {
      if only.Some? && id != only.value {
        return false;
      }
      if staid == 0 || obsflag {
        staid := id;
      } else if id != staid {
        staid := 0;
        return false;
      }
      return true;
    }

    /** save_msm_obs.  The cell counter ends at the number of cells.  If any satellite has
        a number, the records are those of the current epoch with the message added. */
    method SaveMsmObs(m: Message) returns (j: nat)
      requires Valid() && WellFormed(m)
      modifies this`obs, this`first, this`obsflag, this`locks
      ensures Valid() && j == |m.cells|
      ensures |m.satOf| == |m.h.sats|
      ensures if AnyNumbered(m, |m.h.sats|)
              then !obsflag && Within(first, time)
                   && Progress(m, |m.h.sats|, time, if old(Stale(obsflag, first, time)) then [] else old(obs), old(locks), obs, locks)
              else obs == old(obs) && locks == old(locks) && obsflag == old(obsflag) && first == old(first)
    {
      hide WellFormed, Progress, Stale, ValidObs, ValidLocks, OneEpoch, Rank, Within, Indexed, CellsStored, CellIndex, Stored;
      Shape(m);
      ghost var obs0 := if Stale(obsflag, first, time) then [] else obs;
      ghost var locks0 := locks;
      NoneValid();
      RankStart(m);
      j := 0;
      var i := 0;
      while i < |m.h.sats|
        invariant 0 <= i <= |m.h.sats| && Valid() && CellIndex(m, i, 0) <= |m.h.cells| && j == Rank(m, i, 0)
        invariant !AnyNumbered(m, i) ==> obs == old(obs) && locks == locks0 && obsflag == old(obsflag) && first == old(first)
        invariant AnyNumbered(m, i) ==> !obsflag && Within(first, time) && Progress(m, i, time, obs0, locks0, obs, locks)
      {
        var sat := m.satOf[i];
        NumberedNext(m, i);
        if sat != 0 {
          ghost var was := if Stale(obsflag, first, time) then [] else obs;
          if !AnyNumbered(m, i) {
            NoneNumbered(m, i);
            ProgressIdle(m, i, time, obs0, locks0);
          }
          NotStale(obsflag, first, time);
          assert was == if AnyNumbered(m, i) then obs else obs0;
          var index := EpochRecord(sat);
          j := StoreSatellite(m, i, j, index, obs0, locks0, was);
        } else {
          var entries, lock;
          j, entries, lock := StoreCells(m, i, j, false, Blank(), NoLocks());
          if AnyNumbered(m, i) {
            ProgressSkip(m, i, time, obs0, locks0, obs, locks);
          }
        }
        i := i + 1;
      }
      RankEnd(m);
    }

    /** decode_msm_head.  The header's time is taken over whenever the header is complete,
        before the station and the number of cells are looked at. */
    method DecodeMsmHead(sys: System, buff: seq<bv8>, len: nat, now: GTime, tables: Tables, only: Option<int>)
      returns (r: Option<Head>, ncell: nat, next: nat, ghost h: Head)
      requires 36 <= 8 * |buff| && len <= |buff|
      modifies this`time, this`staid
      ensures 24 + 169 <= len * 8 ==> CarriesHead(buff, sys, h)
      ensures time == if 24 + 169 <= len * 8 then HeadTime(sys, h, tables, old(time), now) else old(time)
      ensures staid == if 24 + 169 <= len * 8 then StationAfter(only, old(staid), obsflag, h.staid) else old(staid)
      ensures r.Some? <==> AcceptableHead(buff, len, sys, only, old(staid), obsflag)
      ensures r.Some? ==> r.value == h && HeadReadable(buff, len, sys, h) && staid == h.staid
      ensures r.Some? ==> ncell == CellCount(h.cells) && next == 193 + |h.cells|
    {
      hide CarriesHead, CarriesCells, HeadTime, CellCount, HeadReadable;
      ncell, next := 0, 0;
      h := Head(0, 0, 0, 0, 0, 0, 0, 0, 0, 0, 0, [], [], []);
      var head := ReadHead(buff, len, sys);
      if head.None? {
        HeadTooShort(buff, len, sys);
        return None, ncell, next, h;
      }
      h := head.value;
      time := HeadTime(sys, head.value, tables, time, now);
      var ok := TestStaid(only, head.value.staid);
      HeadRules(buff, len, sys, h);
      if !ok {
        return None, ncell, next, h;
      }
      r, ncell, next := ReadCells(buff, len, head.value);
      if r.Some? {
        h := r.value;
        MakeHeadReadable(buff, len, sys, head.value, h);
        SameHeadTime(sys, head.value, h, tables, old(time), now);
      }
    }

    /** decode_msm4 to decode_msm7.  A message is accepted if and only if the buffer carries
        it within its length and its station is expected; `h` and `b` are then what the
        buffer carries, and its cells are stored. */
    method DecodeMsm(sys: System, kind: Kind, buff: seq<bv8>, len: nat, now: GTime, tables: Tables, only: Option<int>)
      returns (ret: int, ghost h: Head, ghost b: Body, ghost m: Message)
      requires Valid() && 36 <= 8 * |buff| && len <= |buff| && tables.Sound()
      modifies this
      ensures ret >= 0 && AnyNumbered(m, |m.satOf|) ==>
                MessageStored(m, time, if Stale(old(obsflag), old(first), time) then [] else old(obs), old(locks), obs, locks)
      ensures ret < 0 || !AnyNumbered(m, |m.satOf|) ==> obs == old(obs) && locks == old(locks) && first == old(first)
      ensures if ret >= 0 then obsflag == (h.sync == 0) && ret == (if h.sync != 0 then 0 else 1) else ret == -1 && obsflag == old(obsflag)
      ensures time == if 24 + 169 <= len * 8 then HeadTime(sys, h, tables, old(time), now) else old(time)
      ensures staid == if 24 + 169 <= len * 8 then StationAfter(only, old(staid), old(obsflag), h.staid) else old(staid)
      ensures 24 + 169 <= len * 8 ==> CarriesHead(buff, sys, h)
      ensures ret >= 0 <==> Acceptable(buff, len, sys, kind, only, old(staid), old(obsflag))
      ensures ret >= 0 ==> staid == h.staid && Decoded(buff, len, sys, kind, tables, h, b, m)
      ensures Valid()
    {
      hide CarriesHead, CarriesBody, WellFormed, Progress, ValidObs, ValidLocks, OneEpoch, FromMessage, HeadTime, Stale, HeadReadable,
           CellCount, Tables.Sound, AnyNumbered, Readable, MessageStored, MessageSize, Within, Acceptable;
      b, ret := Body([], []), -1;
      var head, ncell, next;
      head, ncell, next, h := DecodeMsmHead(sys, buff, len, now, tables, only);
      m := Message(h, [], [], [], [], [], (i, k) => 0.0);
      if head.None? {
        NotAcceptable(buff, len, sys, kind, only, old(staid), old(obsflag));
        return;
      }
      var body := ReadBody(buff, len, kind, head.value, ncell, next);
      AcceptRule(buff, len, sys, kind, h, only, old(staid), old(obsflag));
      SizeOf(kind, h, ncell);
      if body.None? {
        return;
      }
      b := body.value;
      MakeReadable(buff, len, sys, kind, h, b);
      var msg := Assemble(sys, kind, head.value, body.value, tables);
      m := msg;
      ret := SaveDecoded(msg, head.value.sync);
    }

    /** The end of the decoders. */
    method SaveDecoded(m: Message, sync: int) returns (ret: int)
      requires Valid() && WellFormed(m)
      modifies this`obs, this`first, this`obsflag, this`locks
      ensures Valid() && obsflag == (sync == 0) && ret == if sync != 0 then 0 else 1
      ensures AnyNumbered(m, |m.satOf|) ==>
                MessageStored(m, time, if Stale(old(obsflag), old(first), time) then [] else old(obs), old(locks), obs, locks)
      ensures !AnyNumbered(m, |m.satOf|) ==> obs == old(obs) && locks == old(locks) && first == old(first)
    {
      hide Progress, ValidObs, ValidLocks, OneEpoch, Stale, AnyNumbered;
      var j := SaveMsmObs(m);
      obsflag := sync == 0;
      ret := if sync != 0 then 0 else 1;
    }

    /** The cells of a numbered satellite. */
    method StoreSatellite(m: Message, i: nat, j0: nat, index: int, ghost obs0: seq<Obsd>, ghost locks0: Locks, ghost was: seq<Obsd>)
      returns (j: nat)
      requires Valid() && WellFormed(m) && i < |m.h.sats| && CellIndex(m, i, 0) <= |m.h.cells| && j0 == Rank(m, i, 0)
      requires |m.satOf| == |m.h.sats| && m.satOf[i] != 0 && Indexed(time, m.satOf[i], was, obs, index)
      requires Progress(m, i, time, obs0, locks0, was, locks)
      modifies this`obs, this`locks
      ensures Valid() && CellIndex(m, i + 1, 0) <= |m.h.cells| && j == Rank(m, i + 1, 0)
      ensures Progress(m, i + 1, time, obs0, locks0, obs, locks)
    {
      hide WellFormed, Progress, ValidObs, ValidLocks, OneEpoch, Rank, Within, CellsStored, CellIndex, Stored, Indexed;
      var sat := m.satOf[i];
      ProgressValid(m, i, time, obs0, locks0, was, locks);
      IndexOrFull(time, sat, was, obs, index);
      if index >= 0 {
        IndexedEntries(m, i, time, obs0, locks0, was, locks, obs, index);
        ghost var obs1, locks1 := obs, locks;
        var entries, lock;
        j, entries, lock := StoreCells(m, i, j0, true, obs[index].entries, LockOf(locks, sat));
        obs := obs[index := obs[index].(entries := entries)];
        locks := locks[sat := lock];
        MakeStored(m, i, obs1, locks1, index, entries, lock);
        ProgressStored(m, i, time, obs0, locks0, was, locks1, obs1, index, obs, locks);
        ProgressValid(m, i + 1, time, obs0, locks0, obs, locks);
        SameTimes(obs1, index, entries, first);
      } else {
        var entries, lock;
        j, entries, lock := StoreCells(m, i, j0, false, Blank(), NoLocks());
        ProgressSkip(m, i, time, obs0, locks0, was, locks);
      }
    }
  }

  lemma NothingRecorded(sat: nat)
    ensures !Recorded([], sat) && ValidObs([]) && ValidLocks(map[])
    ensures forall first: GTime :: OneEpoch([], first)
  {
  }

  lemma NoneValid()
    ensures ValidObs([])
  {
  }

  lemma IndexedEpoch(time: GTime, sat: nat, obs: seq<Obsd>, obs1: seq<Obsd>, p: int)
    requires Indexed(time, sat, obs, obs1, p)
    ensures forall first: GTime :: OneEpoch(obs, first) && Within(first, time) && |obs| > 0 ==> OneEpoch(obs1, first)
    ensures |obs| == 0 ==> p == 0 && OneEpoch(obs1, time)
  {
  }

  lemma NotStale(obsflag: bool, first: GTime, time: GTime)
    ensures !obsflag && Within(first, time) ==> !Stale(obsflag, first, time)
  {
  }

  lemma NumberedNext(m: Message, n: nat)
    requires n < |m.satOf|
    ensures AnyNumbered(m, n + 1) <==> AnyNumbered(m, n) || m.satOf[n] != 0
    ensures !AnyNumbered(m, 0)
  {
  }

  lemma NoneNumbered(m: Message, n: nat)
    requires n <= |m.satOf| && !AnyNumbered(m, n)
    ensures forall i :: 0 <= i < n ==> m.satOf[i] == 0
  {
  }

  lemma RankStart(m: Message)
    ensures CellIndex(m, 0, 0) == 0 && Rank(m, 0, 0) == 0
  {
  }

  lemma RankEnd(m: Message)
    requires WellFormed(m)
    ensures CellIndex(m, |m.h.sats|, 0) == |m.h.cells| && Rank(m, |m.h.sats|, 0) == |m.cells|
  {
    hide CellCount;
    assert m.h.cells[..|m.h.cells|] == m.h.cells;
  }

  lemma IndexOrFull(time: GTime, sat: nat, obs: seq<Obsd>, obs1: seq<Obsd>, p: int)
    requires Indexed(time, sat, obs, obs1, p) && ValidObs(obs)
    ensures p < 0 ==> !Recorded(obs, sat) && |obs| == MAXOBS && obs1 == obs
    ensures p >= 0 ==> p < |obs1| && obs1[p].sat == sat
  {
    IndexedValid(time, sat, obs, obs1, p);
  }

  lemma MakeStored(m: Message, n: nat, obs1: seq<Obsd>, locks: Locks, p: nat, entries: seq<Entry>, lock: seq<int>)
    requires WellFormed(m) && n < |m.h.sats| && p < |obs1| && obs1[p].sat == m.satOf[n]
    requires CellsStored(m, n, |m.h.sigs|, obs1[p].entries, LockOf(locks, m.satOf[n]), entries, lock)
    ensures Stored(m, n, obs1, locks, p, obs1[p := obs1[p].(entries := entries)], locks[m.satOf[n] := lock])
  {
    hide WellFormed, CellsStored;
  }

  lemma ProgressValid(m: Message, n: nat, time: GTime, obs0: seq<Obsd>, locks0: Locks, obs: seq<Obsd>, locks: Locks)
    requires WellFormed(m) && n <= |m.h.sats| && Progress(m, n, time, obs0, locks0, obs, locks)
    ensures ValidObs(obs) && ValidLocks(locks)
  {
  }

  lemma SameTimes(obs: seq<Obsd>, p: nat, entries: seq<Entry>, first: GTime)
    requires p < |obs| && OneEpoch(obs, first)
    ensures OneEpoch(obs[p := obs[p].(entries := entries)], first)
  {
  }
}

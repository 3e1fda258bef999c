/** sigindex of rtcm3.c: which slot of an observation record each signal of a message takes. */
module SignalSlots {

  /** A signal: its code (0 if unknown), its frequency number counted from 1, and the
      priority getcodepri gives the code. */
  datatype Signal = Signal(code: nat, freq: nat, pri: int)

  ghost predicate Known(sigs: seq<Signal>, i: int)
  {
    0 <= i < |sigs| && sigs[i].code != 0
  }

  /** Signal `i` is the earliest of greatest positive priority among the known signals of
      its frequency in `sigs[..n]`. */
  ghost predicate PrimaryAmong(sigs: seq<Signal>, i: int, n: nat, nfreq: nat)
    requires n <= |sigs|
  {
    && 0 <= i < n && Known(sigs, i) && 1 <= sigs[i].freq <= nfreq && sigs[i].pri > 0
    && (forall j :: 0 <= j < n && Known(sigs, j) && sigs[j].freq == sigs[i].freq ==>
          sigs[j].pri <= sigs[i].pri && (j < i ==> sigs[j].pri < sigs[i].pri))
  }

  ghost predicate Primary(sigs: seq<Signal>, i: int, nfreq: nat)
  {
    PrimaryAmong(sigs, i, |sigs|, nfreq)
  }

  ghost predicate Extended(sigs: seq<Signal>, i: int, nfreq: nat)
  {
    Known(sigs, i) && !Primary(sigs, i, nfreq)
  }

  /** How many of the first `n` signals go to the extension. */
  ghost function ExtendedBefore(sigs: seq<Signal>, n: nat, nfreq: nat): (e: nat)
    requires n <= |sigs|
    ensures e <= n
  {
    if n == 0 then 0 else ExtendedBefore(sigs, n - 1, nfreq) + if Extended(sigs, n - 1, nfreq) then 1 else 0
  }

  ghost function Slot(sigs: seq<Signal>, i: nat, nfreq: nat, nexobs: nat): int
    requires i < |sigs|
  {
    if !Extended(sigs, i, nfreq) then sigs[i].freq - 1
    else
      var e := ExtendedBefore(sigs, i, nfreq);
      if e < nexobs then nfreq + e else -1
  }

  /** What the first loop knows about frequency `f` after `n` signals. */
  ghost predicate Best(sigs: seq<Signal>, n: nat, nfreq: nat, f: nat, priH: int, index: nat)
    requires n <= |sigs| && f < nfreq
  {
    && index <= n && priH >= 0
    && (index == 0 ==> priH == 0)
    && (index > 0 ==> PrimaryAmong(sigs, index - 1, n, nfreq) && sigs[index - 1].freq == f + 1 && sigs[index - 1].pri == priH)
    && (forall j :: 0 <= j < n && Known(sigs, j) && sigs[j].freq == f + 1 ==> sigs[j].pri <= priH)
  }

  /** ex[i] after n signals. */
  ghost predicate Displaced(sigs: seq<Signal>, i: int, n: nat, nfreq: nat)
    requires n <= |sigs|
  {
    Known(sigs, i) && i < n && !PrimaryAmong(sigs, i, n, nfreq)
  }

  lemma BestKept(sigs: seq<Signal>, n: nat, nfreq: nat, f: nat, priH: int, index: nat)
    requires n < |sigs| && f < nfreq && Best(sigs, n, nfreq, f, priH, index)
    requires !Known(sigs, n) || sigs[n].freq != f + 1 || sigs[n].pri <= priH
    ensures Best(sigs, n + 1, nfreq, f, priH, index)
  {
  }

  lemma BestTaken(sigs: seq<Signal>, n: nat, nfreq: nat, f: nat, priH: int, index: nat)
    requires n < |sigs| && f < nfreq && Best(sigs, n, nfreq, f, priH, index)
    requires Known(sigs, n) && sigs[n].freq == f + 1 && sigs[n].pri > priH
    ensures Best(sigs, n + 1, nfreq, f, sigs[n].pri, n + 1)
    ensures !Displaced(sigs, n, n + 1, nfreq)
    ensures forall i :: 0 <= i < n && Known(sigs, i) && sigs[i].freq == f + 1 ==> Displaced(sigs, i, n + 1, nfreq)
  {
  }

  /** The primary signal among the first n is the one `index` names. */
  lemma BestIsPrimary(sigs: seq<Signal>, n: nat, nfreq: nat, f: nat, priH: int, index: nat, i: int)
    requires n <= |sigs| && f < nfreq && Best(sigs, n, nfreq, f, priH, index)
    requires Known(sigs, i) && i < n && sigs[i].freq == f + 1
    ensures PrimaryAmong(sigs, i, n, nfreq) <==> index == i + 1
  {
    if index > 0 && i < index - 1 {
      assert Known(sigs, index - 1);
    }
  }

  /** Which signals are displaced changes only for the frequency of the newest. */
  lemma DisplacedElsewhere(sigs: seq<Signal>, i: int, n: nat, nfreq: nat)
    requires n < |sigs| && 0 <= i < n && (!Known(sigs, n) || sigs[i].freq != sigs[n].freq)
    ensures Displaced(sigs, i, n + 1, nfreq) <==> Displaced(sigs, i, n, nfreq)
  {
  }

  /** What `pri_h`, `index` and `ex` hold after n signals. */
  ghost predicate Tested(sigs: seq<Signal>, n: nat, nfreq: nat, priH: seq<int>, index: seq<nat>, ex: seq<bool>)
    requires n <= |sigs| && nfreq <= |priH| == |index|
  {
    && (forall f :: 0 <= f < nfreq ==> Best(sigs, n, nfreq, f, priH[f], index[f]))
    && |ex| == |sigs| && (forall k :: 0 <= k < |sigs| ==> ex[k] == Displaced(sigs, k, n, nfreq))
  }

  lemma TestedStart(sigs: seq<Signal>, nfreq: nat, priH: seq<int>, index: seq<nat>, ex: seq<bool>)
    requires nfreq <= |priH| == |index| && |ex| == |sigs|
    requires (forall f :: 0 <= f < |index| ==> priH[f] == 0 && index[f] == 0) && forall k :: 0 <= k < |ex| ==> !ex[k]
    ensures Tested(sigs, 0, nfreq, priH, index, ex)
  {
  }

  /** A signal that takes no slot from another. */
  lemma StepLeave(sigs: seq<Signal>, n: nat, nfreq: nat, priH: seq<int>, index: seq<nat>, ex: seq<bool>)
    requires n < |sigs| && nfreq <= |priH| == |index| && Tested(sigs, n, nfreq, priH, index, ex)
    requires Known(sigs, n) ==> sigs[n].freq >= 1 && (sigs[n].freq > nfreq || sigs[n].pri <= priH[sigs[n].freq - 1])
    ensures Tested(sigs, n + 1, nfreq, priH, index, if Known(sigs, n) then ex[n := true] else ex)
  {
    hide PrimaryAmong, Best;
    forall f | 0 <= f < nfreq
      ensures Best(sigs, n + 1, nfreq, f, priH[f], index[f])
    {
      BestKept(sigs, n, nfreq, f, priH[f], index[f]);
    }
    var after := if Known(sigs, n) then ex[n := true] else ex;
    forall k | 0 <= k < |sigs|
      ensures after[k] == Displaced(sigs, k, n + 1, nfreq)
    {
      LeaveOne(sigs, n, nfreq, priH, index, ex, k);
    }
  }

  lemma LeaveOne(sigs: seq<Signal>, n: nat, nfreq: nat, priH: seq<int>, index: seq<nat>, ex: seq<bool>, k: nat)
    requires n < |sigs| && nfreq <= |priH| == |index| && Tested(sigs, n, nfreq, priH, index, ex) && k < |sigs|
    requires Known(sigs, n) ==> sigs[n].freq >= 1 && (sigs[n].freq > nfreq || sigs[n].pri <= priH[sigs[n].freq - 1])
    ensures (if Known(sigs, n) then ex[n := true] else ex)[k] == Displaced(sigs, k, n + 1, nfreq)
  {
    hide PrimaryAmong, Best;
    if Known(sigs, n) && k <= n && Known(sigs, k) && sigs[k].freq == sigs[n].freq {
      if sigs[n].freq > nfreq {
        HighFrequency(sigs, k, n + 1, nfreq);
        HighFrequency(sigs, k, n, nfreq);
      } else {
        var f := sigs[n].freq - 1;
        BestKept(sigs, n, nfreq, f, priH[f], index[f]);
        IndexKnown(sigs, n, nfreq, f, priH[f], index[f]);
        BestIsPrimary(sigs, n + 1, nfreq, f, priH[f], index[f], k);
        if k < n {
          BestIsPrimary(sigs, n, nfreq, f, priH[f], index[f], k);
        }
      }
    } else if k < n {
      if Known(sigs, k) {
        DisplacedElsewhere(sigs, k, n, nfreq);
      }
    }
  }

  lemma HighFrequency(sigs: seq<Signal>, k: nat, n: nat, nfreq: nat)
    requires n <= |sigs| && k < |sigs| && sigs[k].freq > nfreq
    ensures !PrimaryAmong(sigs, k, n, nfreq)
  {
  }

  /** A signal that takes the slot of its frequency. */
  lemma StepTake(sigs: seq<Signal>, n: nat, nfreq: nat, priH: seq<int>, index: seq<nat>, ex: seq<bool>, f: nat, after: seq<bool>)
    requires n < |sigs| && nfreq <= |priH| == |index| && Tested(sigs, n, nfreq, priH, index, ex)
    requires Known(sigs, n) && sigs[n].freq == f + 1 && f < nfreq && sigs[n].pri > priH[f] && index[f] <= n
    requires after == if index[f] != 0 then ex[index[f] - 1 := true] else ex
    ensures Tested(sigs, n + 1, nfreq, priH[f := sigs[n].pri], index[f := n + 1], after)
  {
    hide PrimaryAmong, Best;
    var priH2, index2 := priH[f := sigs[n].pri], index[f := n + 1];
    forall g | 0 <= g < nfreq
      ensures Best(sigs, n + 1, nfreq, g, priH2[g], index2[g])
    {
      if g == f {
        BestTaken(sigs, n, nfreq, f, priH[f], index[f]);
      } else {
        BestKept(sigs, n, nfreq, g, priH[g], index[g]);
      }
    }
    forall k | 0 <= k < |sigs|
      ensures after[k] == Displaced(sigs, k, n + 1, nfreq)
    {
      TakeOne(sigs, n, nfreq, priH, index, ex, f, k);
    }
  }

  lemma TakeOne(sigs: seq<Signal>, n: nat, nfreq: nat, priH: seq<int>, index: seq<nat>, ex: seq<bool>, f: nat, k: nat)
    requires n < |sigs| && nfreq <= |priH| == |index| && Tested(sigs, n, nfreq, priH, index, ex) && k < |sigs|
    requires Known(sigs, n) && sigs[n].freq == f + 1 && f < nfreq && sigs[n].pri > priH[f] && index[f] <= n
    ensures (if index[f] != 0 then ex[index[f] - 1 := true] else ex)[k] == Displaced(sigs, k, n + 1, nfreq)
  {
    hide PrimaryAmong, Best;
    IndexKnown(sigs, n, nfreq, f, priH[f], index[f]);
    BestTaken(sigs, n, nfreq, f, priH[f], index[f]);
    if k < n && Known(sigs, k) {
      if sigs[k].freq == f + 1 {
        BestIsPrimary(sigs, n, nfreq, f, priH[f], index[f], k);
      } else {
        DisplacedElsewhere(sigs, k, n, nfreq);
      }
    }
  }

  lemma IndexKnown(sigs: seq<Signal>, n: nat, nfreq: nat, f: nat, priH: int, index: nat)
    requires n <= |sigs| && f < nfreq && Best(sigs, n, nfreq, f, priH, index)
    ensures index <= n
    ensures index > 0 ==> Known(sigs, index - 1) && sigs[index - 1].freq == f + 1
  {
  }

  /** sigindex, with NFREQ and NEXOBS as parameters. */
  method SigIndex(sigs: seq<Signal>, nfreq: nat, nexobs: nat) returns (ind: seq<int>)
    requires |sigs| <= 32 && nfreq <= 8
    requires forall i :: 0 <= i < |sigs| && sigs[i].code != 0 ==> sigs[i].freq >= 1
    ensures |ind| == |sigs| && forall i :: 0 <= i < |ind| ==> ind[i] == Slot(sigs, i, nfreq, nexobs)
  {
    var ex := TestPriority(sigs, nfreq);
    ind := [];
    var i, nex := 0, 0;
    while i < |sigs|
      invariant 0 <= i == |ind| <= |sigs|
      invariant nex == if ExtendedBefore(sigs, i, nfreq) < nexobs then ExtendedBefore(sigs, i, nfreq) else nexobs
      invariant forall k :: 0 <= k < i ==> ind[k] == Slot(sigs, k, nfreq, nexobs)
    {
      if !ex[i] {
        ind := ind + [sigs[i].freq - 1];
      } else if nex < nexobs {
        ind := ind + [nfreq + nex];
        nex := nex + 1;
      } else {
        ind := ind + [-1];
      }
      i := i + 1;
    }
  }

  /** The first loop of sigindex. */
  method TestPriority(sigs: seq<Signal>, nfreq: nat) returns (ex: seq<bool>)
    requires nfreq <= 8
    requires forall i :: 0 <= i < |sigs| && sigs[i].code != 0 ==> sigs[i].freq >= 1
    ensures |ex| == |sigs| && forall i :: 0 <= i < |sigs| ==> ex[i] == Extended(sigs, i, nfreq)
  {
    hide PrimaryAmong, Best, Tested;
    ex := seq(|sigs|, _ => false);
    var priH: seq<int>, index: seq<nat> := seq(8, _ => 0), seq(8, _ => 0);
    TestedStart(sigs, nfreq, priH, index, ex);
    var i := 0;
    while i < |sigs|
      invariant 0 <= i <= |sigs| && |ex| == |sigs| && |priH| == |index| == 8
      invariant Tested(sigs, i, nfreq, priH, index, ex)
    {
      if sigs[i].code == 0 || sigs[i].freq > nfreq || sigs[i].pri <= priH[sigs[i].freq - 1] {
        StepLeave(sigs, i, nfreq, priH, index, ex);
      }
      if sigs[i].code != 0 {
        if sigs[i].freq > nfreq {
          ex := ex[i := true];
        } else {
          var f, pri := sigs[i].freq - 1, sigs[i].pri;
          if pri > priH[f] {
            IndexBefore(sigs, i, nfreq, priH, index, ex, f);
            ghost var ex0 := ex;
            if index[f] != 0 {
              ex := ex[index[f] - 1 := true];
            }
            StepTake(sigs, i, nfreq, priH, index, ex0, f, ex);
            priH, index := priH[f := pri], index[f := i + 1];
          } else {
            ex := ex[i := true];
          }
        }
      }
      i := i + 1;
    }
    TestedAll(sigs, nfreq, priH, index, ex);
  }

  lemma TestedAll(sigs: seq<Signal>, nfreq: nat, priH: seq<int>, index: seq<nat>, ex: seq<bool>)
    requires nfreq <= |priH| == |index| && Tested(sigs, |sigs|, nfreq, priH, index, ex)
    ensures |ex| == |sigs| && forall i :: 0 <= i < |sigs| ==> ex[i] == Extended(sigs, i, nfreq)
  {
  }

  lemma IndexBefore(sigs: seq<Signal>, n: nat, nfreq: nat, priH: seq<int>, index: seq<nat>, ex: seq<bool>, f: nat)
    requires n <= |sigs| && f < nfreq <= |priH| == |index| && Tested(sigs, n, nfreq, priH, index, ex)
    ensures index[f] <= n
  {
  }

  // ---------- what the slots mean ----------

  lemma {:induction false} ExtendedMono(sigs: seq<Signal>, i: nat, j: nat, nfreq: nat)
    requires i <= j <= |sigs|
    ensures ExtendedBefore(sigs, i, nfreq) <= ExtendedBefore(sigs, j, nfreq)
    ensures i < j && Extended(sigs, i, nfreq) ==> ExtendedBefore(sigs, i, nfreq) < ExtendedBefore(sigs, j, nfreq)
    decreases j
  {
    hide Extended;
    if i < j {
      ExtendedMono(sigs, i, j - 1, nfreq);
    }
  }

  /** No two known signals share a slot, and every slot exists. */
  lemma SlotsDistinct(sigs: seq<Signal>, i: nat, j: nat, nfreq: nat, nexobs: nat)
    requires i < j < |sigs| && Known(sigs, i) && Known(sigs, j) && sigs[i].freq >= 1 && sigs[j].freq >= 1
    ensures Slot(sigs, i, nfreq, nexobs) >= 0 ==> Slot(sigs, i, nfreq, nexobs) != Slot(sigs, j, nfreq, nexobs)
    ensures -1 <= Slot(sigs, i, nfreq, nexobs) < nfreq + nexobs && -1 <= Slot(sigs, j, nfreq, nexobs) < nfreq + nexobs
  {
    ExtendedMono(sigs, i, j, nfreq);
  }

  /** A known signal has the slot of its frequency if and only if it is the earliest of
      greatest positive priority there; otherwise it has an extension slot or none. */
  lemma PrimarySlot(sigs: seq<Signal>, i: nat, nfreq: nat, nexobs: nat)
    requires Known(sigs, i) && sigs[i].freq >= 1
    ensures Primary(sigs, i, nfreq) <==> 0 <= Slot(sigs, i, nfreq, nexobs) < nfreq
    ensures Primary(sigs, i, nfreq) ==> Slot(sigs, i, nfreq, nexobs) == sigs[i].freq - 1
  {
  }

  lemma {:induction false} ExtendedAt(sigs: seq<Signal>, n: nat, e: nat, nfreq: nat) returns (j: nat)
    requires n <= |sigs| && e < ExtendedBefore(sigs, n, nfreq)
    ensures j < n && Extended(sigs, j, nfreq) && ExtendedBefore(sigs, j, nfreq) == e
  {
    hide Extended;
    if e < ExtendedBefore(sigs, n - 1, nfreq) {
      j := ExtendedAt(sigs, n - 1, e, nfreq);
    } else {
      j := n - 1;
    }
  }

  /** A known signal goes without a slot only if earlier ones hold the whole extension. */
  lemma DroppedWhenFull(sigs: seq<Signal>, i: nat, nfreq: nat, nexobs: nat, e: nat) returns (j: nat)
    requires Known(sigs, i) && sigs[i].freq >= 1 && Slot(sigs, i, nfreq, nexobs) < 0 && e < nexobs
    ensures j < i && Slot(sigs, j, nfreq, nexobs) == nfreq + e
  {
    j := ExtendedAt(sigs, i, e, nfreq);
  }

  /** A frequency with a signal of positive priority has a primary signal. */
  lemma {:induction false} PrimaryExists(sigs: seq<Signal>, i: nat, n: nat, nfreq: nat) returns (p: nat)
    requires i < n <= |sigs| && Known(sigs, i) && 1 <= sigs[i].freq <= nfreq && sigs[i].pri > 0
    ensures p < n && PrimaryAmong(sigs, p, n, nfreq) && sigs[p].freq == sigs[i].freq
    decreases n
  {
    if i == n - 1 {
      if j :| 0 <= j < n - 1 && Known(sigs, j) && sigs[j].freq == sigs[i].freq && sigs[j].pri >= sigs[i].pri {
        p := PrimaryExists(sigs, j, n - 1, nfreq);
        assert sigs[j].pri <= sigs[p].pri;
      } else {
        p := i;
      }
    } else {
      p := PrimaryExists(sigs, i, n - 1, nfreq);
      if Known(sigs, n - 1) && sigs[n - 1].freq == sigs[i].freq && sigs[n - 1].pri > sigs[p].pri {
        p := n - 1;
      }
    }
  }
}

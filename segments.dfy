/** The per-pixel scan of group DQ flags that yields the lengths of a ramp's
    segments (the read loop of `calc_slope_vars` in ramp_fitting/utils.py).

    A pixel's groups are a sequence of DQ words, one per read. The scan keeps,
    for every pixel, a vector of segment lengths (one slot per read) and the
    index of the segment being filled. */
module Segments {
  import opened Common

  datatype ScanState = ScanState(segs: seq<nat>, index: nat)

  function Zeros(n: nat): (z: seq<nat>)
    ensures |z| == n && forall k :: 0 <= k < n ==> z[k] == 0
  {
    seq(n, _ => 0)
  }

  /** A read that opens a new segment: not saturated, flagged as a jump,
      and not the final read. */
  predicate StartsSegment(fl: seq<Dq>, i: nat, f: DqFlags)
    requires i < |fl|
  {
    !Has(fl[i], f.saturated) && Has(fl[i], f.jumpDet) && i < |fl| - 1
  }

  /** One read of the scan: a good group (flag 0) lengthens the current
      segment; a segment-opening jump moves to the next slot and counts the
      jump group there; anything else is skipped. */
  function ScanStep(st: ScanState, fl: seq<Dq>, i: nat, f: DqFlags): ScanState
    requires i < |fl| && |st.segs| == |fl| && st.index <= i
  {
    if fl[i] == Clean then
      st.(segs := st.segs[st.index := st.segs[st.index] + 1])
    else if StartsSegment(fl, i, f) then
      var k := st.index + 1;
      ScanState(st.segs[k := st.segs[k] + 1], k)
    else
      st
  }

  /** The scan state after the first `n` reads of one pixel. */
  function ScanPixel(fl: seq<Dq>, n: nat, f: DqFlags): (st: ScanState)
    requires n <= |fl|
    ensures |st.segs| == |fl|
    ensures st.index <= n
    ensures |fl| > 0 ==> st.index < |fl|
  {
    if n == 0 then ScanState(Zeros(|fl|), 0)
    else ScanStep(ScanPixel(fl, n - 1, f), fl, n - 1, f)
  }

  /** Reads among the first `n` that the scan counts into some segment. */
  function CountCounted(fl: seq<Dq>, n: nat, f: DqFlags): nat
    requires n <= |fl|
  {
    if n == 0 then 0
    else CountCounted(fl, n - 1, f) + (if fl[n - 1] == Clean || StartsSegment(fl, n - 1, f) then 1 else 0)
  }

  /** Reads among the first `n` that open a new segment. */
  function CountStarts(fl: seq<Dq>, n: nat, f: DqFlags): nat
    requires n <= |fl|
  {
    if n == 0 then 0
    else CountStarts(fl, n - 1, f) + (if StartsSegment(fl, n - 1, f) then 1 else 0)
  }

  lemma SumUpdate(s: seq<nat>, k: nat)
    requires k < |s|
    ensures Sum(s[k := s[k] + 1]) == Sum(s) + 1
  {
    var t := s[k := s[k] + 1];
    assert s == s[..k] + [s[k]] + s[k + 1..];
    assert t == s[..k] + [s[k] + 1] + s[k + 1..];
    SumAppend(s[..k] + [s[k]], s[k + 1..]);
    SumAppend(s[..k], [s[k]]);
    SumAppend(s[..k] + [s[k] + 1], s[k + 1..]);
    SumAppend(s[..k], [s[k] + 1]);
    SumSingleton(s[k]);
    SumSingleton(s[k] + 1);
  }

  lemma ScanStepSum(st: ScanState, fl: seq<Dq>, i: nat, f: DqFlags)
    requires i < |fl| && |st.segs| == |fl| && st.index <= i
    ensures Sum(ScanStep(st, fl, i, f).segs) == Sum(st.segs) + (if fl[i] == Clean || StartsSegment(fl, i, f) then 1 else 0)
  {
    if fl[i] == Clean {
      SumUpdate(st.segs, st.index);
    } else if StartsSegment(fl, i, f) {
      SumUpdate(st.segs, st.index + 1);
    }
  }

  /** What the scan computes: the lengths add up to the number of counted
      reads. */
  lemma {:induction false} ScanSum(fl: seq<Dq>, n: nat, f: DqFlags)
    requires n <= |fl|
    ensures Sum(ScanPixel(fl, n, f).segs) == CountCounted(fl, n, f)
  {
    if n == 0 {
      ZerosSum(|fl|);
    } else {
      ScanSum(fl, n - 1, f);
      ScanStepSum(ScanPixel(fl, n - 1, f), fl, n - 1, f);
    }
  }

  /** The current index is the number of segment-opening jumps so far, every
      segment opened by a jump has length at least 1, and the slots after
      the current index are still empty. */
  lemma {:induction false} ScanShape(fl: seq<Dq>, n: nat, f: DqFlags)
    requires n <= |fl|
    ensures var st := ScanPixel(fl, n, f);
      && st.index == CountStarts(fl, n, f)
      && (forall k :: 0 < k <= st.index ==> st.segs[k] >= 1)
      && (forall k :: st.index < k < |fl| ==> st.segs[k] == 0)
  {
    if n > 0 {
      ScanShape(fl, n - 1, f);
    }
  }

  lemma {:induction false} ZerosSum(n: nat)
    ensures Sum(Zeros(n)) == 0
  {
    if n > 0 {
      assert Zeros(n)[..n - 1] == Zeros(n - 1);
      ZerosSum(n - 1);
    }
  }

  /** The segment lengths never add up to more than the reads scanned. */
  lemma {:induction false} ScanSumBound(fl: seq<Dq>, n: nat, f: DqFlags)
    requires n <= |fl|
    ensures Sum(ScanPixel(fl, n, f).segs) <= n
  {
    ScanSum(fl, n, f);
    CountCountedBound(fl, n, f);
  }

  lemma {:induction false} CountCountedBound(fl: seq<Dq>, n: nat, f: DqFlags)
    requires n <= |fl|
    ensures CountCounted(fl, n, f) <= n
  {
    if n > 0 { CountCountedBound(fl, n - 1, f); }
  }

  /** The pixel has met a saturated group among its first `n` reads. */
  predicate Done(fl: seq<Dq>, n: nat, f: DqFlags)
    requires n <= |fl|
  {
    exists j :: 0 <= j < n && Has(fl[j], f.saturated)
  }

  /** Saturation is sticky: once a group is saturated, so are all later ones. */
  predicate Sticky(fl: seq<Dq>, f: DqFlags) {
    forall j, k :: 0 <= j <= k < |fl| && Has(fl[j], f.saturated) ==> Has(fl[k], f.saturated)
  }

  /** With sticky saturation, reads after the first saturated group change
      nothing in the scan. */
  lemma {:induction false} ScanIgnoresSaturatedTail(fl: seq<Dq>, n: nat, m: nat, f: DqFlags)
    requires n <= m <= |fl| && Sticky(fl, f) && Done(fl, n, f)
    ensures ScanPixel(fl, m, f) == ScanPixel(fl, n, f)
    decreases m - n
  {
    if m > n {
      ScanIgnoresSaturatedTail(fl, n, m - 1, f);
      var j :| 0 <= j < n && Has(fl[j], f.saturated);
      assert Has(fl[m - 1], f.saturated);
    }
  }

  predicate Rectangular(gdq: seq<seq<Dq>>, nreads: nat) {
    forall p :: 0 <= p < |gdq| ==> |gdq[p]| == nreads
  }

  predicate AllDone(gdq: seq<seq<Dq>>, nreads: nat, i: nat, f: DqFlags)
    requires Rectangular(gdq, nreads) && i <= nreads
  {
    forall p :: 0 <= p < |gdq| ==> Done(gdq[p], i, f)
  }

  /** The read at which the scan stops: the end of the ramp, or the first
      read by which every pixel has met a saturated group. */
  function StopRead(gdq: seq<seq<Dq>>, nreads: nat, i: nat, f: DqFlags): (stop: nat)
    requires Rectangular(gdq, nreads) && i <= nreads
    ensures i <= stop <= nreads
    decreases nreads - i
  {
    if i == nreads || AllDone(gdq, nreads, i, f) then i else StopRead(gdq, nreads, i + 1, f)
  }

  lemma {:induction false} StopReadAllDone(gdq: seq<seq<Dq>>, nreads: nat, i: nat, f: DqFlags)
    requires Rectangular(gdq, nreads) && i <= nreads
    ensures var stop := StopRead(gdq, nreads, i, f); stop < nreads ==> AllDone(gdq, nreads, stop, f)
    decreases nreads - i
  {
    if !(i == nreads || AllDone(gdq, nreads, i, f)) {
      StopReadAllDone(gdq, nreads, i + 1, f);
    }
  }

  lemma DoneStep(fl: seq<Dq>, i: nat, f: DqFlags)
    requires i < |fl|
    ensures Done(fl, i + 1, f) == (Done(fl, i, f) || Has(fl[i], f.saturated))
  {
    if Done(fl, i + 1, f) && !Has(fl[i], f.saturated) {
      var j :| 0 <= j < i + 1 && Has(fl[j], f.saturated);
      assert j < i;
    }
  }

  /** Read `i` of one pixel, as the vectorised statements of the read loop
      apply it to that pixel's segment vector, segment index and not-done mark. */
  method ScanRead(fl: seq<Dq>, i: nat, f: DqFlags, s: seq<nat>, k: nat, notDone: bool)
    returns (s': seq<nat>, k': nat, notDone': bool)
    requires i < |fl| && |s| == |fl| && k <= i
    ensures ScanState(s', k') == ScanStep(ScanState(s, k), fl, i, f)
    ensures notDone' == (notDone && !Has(fl[i], f.saturated))
  {
    s', k' := s, k;
    if fl[i] == Clean {
      s' := s'[k' := s'[k'] + 1];
    }
    if !Has(fl[i], f.saturated) && Has(fl[i], f.jumpDet) && i < |fl| - 1 {
      k' := k' + 1;
      s' := s'[k' := s'[k'] + 1];
    }
    notDone' := notDone && !Has(fl[i], f.saturated);
  }

  lemma ScanStopsEarly(gdq: seq<seq<Dq>>, nreads: nat, f: DqFlags, p: nat)
    requires Rectangular(gdq, nreads) && p < |gdq| && Sticky(gdq[p], f)
    ensures ScanPixel(gdq[p], StopRead(gdq, nreads, 0, f), f) == ScanPixel(gdq[p], nreads, f)
  {
    var stop := StopRead(gdq, nreads, 0, f);
    StopReadAllDone(gdq, nreads, 0, f);
    if stop < nreads {
      assert Done(gdq[p], stop, f);
      ScanIgnoresSaturatedTail(gdq[p], stop, nreads, f);
    }
  }

  /** When saturation is sticky in every pixel, stopping the read loop once
      every pixel has met a saturated group gives the same segments as
      scanning every read. */
  lemma ScanStopsEarlyAll(gdq: seq<seq<Dq>>, nreads: nat, f: DqFlags)
    requires Rectangular(gdq, nreads)
    ensures (forall p :: 0 <= p < |gdq| ==> Sticky(gdq[p], f)) ==>
              forall p :: 0 <= p < |gdq| ==> ScanPixel(gdq[p], StopRead(gdq, nreads, 0, f), f) == ScanPixel(gdq[p], nreads, f)
  {
    if forall p :: 0 <= p < |gdq| ==> Sticky(gdq[p], f) {
      forall p | 0 <= p < |gdq|
        ensures ScanPixel(gdq[p], StopRead(gdq, nreads, 0, f), f) == ScanPixel(gdq[p], nreads, f)
      {
        ScanStopsEarly(gdq, nreads, f, p);
      }
    }
  }

  /** One pass of the read loop: read `i` applied to every pixel. */
  method ScanReadAll(gdq: seq<seq<Dq>>, nreads: nat, i: nat, f: DqFlags,
                     segs: seq<seq<nat>>, srIndex: seq<nat>, notDone: seq<bool>)
    returns (segs': seq<seq<nat>>, srIndex': seq<nat>, notDone': seq<bool>)
    requires Rectangular(gdq, nreads) && i < nreads
    requires |segs| == |gdq| && |srIndex| == |gdq| && |notDone| == |gdq|
    requires forall p :: 0 <= p < |gdq| ==> ScanState(segs[p], srIndex[p]) == ScanPixel(gdq[p], i, f)
    requires forall p :: 0 <= p < |gdq| ==> notDone[p] == !Done(gdq[p], i, f)
    ensures |segs'| == |gdq| && |srIndex'| == |gdq| && |notDone'| == |gdq|
    ensures forall p :: 0 <= p < |gdq| ==> ScanState(segs'[p], srIndex'[p]) == ScanPixel(gdq[p], i + 1, f)
    ensures forall p :: 0 <= p < |gdq| ==> notDone'[p] == !Done(gdq[p], i + 1, f)
  {
    var npix := |gdq|;
    var q := 0;
    segs', srIndex', notDone' := segs, srIndex, notDone;
    while q < npix
      invariant q <= npix && |segs'| == npix && |srIndex'| == npix && |notDone'| == npix
      invariant forall p :: 0 <= p < q ==> ScanState(segs'[p], srIndex'[p]) == ScanPixel(gdq[p], i + 1, f)
      invariant forall p :: q <= p < npix ==> segs'[p] == segs[p] && srIndex'[p] == srIndex[p]
      invariant forall p :: 0 <= p < q ==> notDone'[p] == !Done(gdq[p], i + 1, f)
      invariant forall p :: q <= p < npix ==> notDone'[p] == notDone[p]
    {
      var s, k, d := ScanRead(gdq[q], i, f, segs'[q], srIndex'[q], notDone'[q]);
      DoneStep(gdq[q], i, f);
      segs', srIndex', notDone' := segs'[q := s], srIndex'[q := k], notDone'[q := d];
      q := q + 1;
    }
  }

  predicate AnyTrue(s: seq<bool>) {
    exists p :: 0 <= p < |s| && s[p]
  }

  lemma NotDoneMeansNotAllDone(gdq: seq<seq<Dq>>, nreads: nat, i: nat, f: DqFlags, notDone: seq<bool>)
    requires Rectangular(gdq, nreads) && i <= nreads && |notDone| == |gdq|
    requires forall p :: 0 <= p < |gdq| ==> notDone[p] == !Done(gdq[p], i, f)
    ensures AnyTrue(notDone) == !AllDone(gdq, nreads, i, f)
  {
    if AnyTrue(notDone) {
      var p :| 0 <= p < |notDone| && notDone[p];
      assert !Done(gdq[p], i, f);
    }
  }

  /** The state of the read loop after `i` reads. */
  predicate ScanInv(gdq: seq<seq<Dq>>, nreads: nat, i: nat, f: DqFlags,
                    segs: seq<seq<nat>>, srIndex: seq<nat>, notDone: seq<bool>)
    requires Rectangular(gdq, nreads) && i <= nreads
  {
    && |segs| == |gdq| && |srIndex| == |gdq| && |notDone| == |gdq|
    && StopRead(gdq, nreads, i, f) == StopRead(gdq, nreads, 0, f)
    && (forall p :: 0 <= p < |gdq| ==> ScanState(segs[p], srIndex[p]) == ScanPixel(gdq[p], i, f))
    && (forall p :: 0 <= p < |gdq| ==> notDone[p] == !Done(gdq[p], i, f))
  }

  lemma ScanStart(gdq: seq<seq<Dq>>, nreads: nat, f: DqFlags)
    requires Rectangular(gdq, nreads)
    ensures ScanInv(gdq, nreads, 0, f, seq(|gdq|, _ => Zeros(nreads)), seq(|gdq|, _ => 0), seq(|gdq|, _ => true))
  {
  }

  /** One round of the read loop, taken while some pixel is not yet done. */
  method ScanRound(gdq: seq<seq<Dq>>, nreads: nat, i: nat, f: DqFlags,
                   segs: seq<seq<nat>>, srIndex: seq<nat>, notDone: seq<bool>)
    returns (segs': seq<seq<nat>>, srIndex': seq<nat>, notDone': seq<bool>)
    requires Rectangular(gdq, nreads) && i < nreads
    requires ScanInv(gdq, nreads, i, f, segs, srIndex, notDone) && AnyTrue(notDone)
    ensures ScanInv(gdq, nreads, i + 1, f, segs', srIndex', notDone')
  {
    NotDoneMeansNotAllDone(gdq, nreads, i, f, notDone);
    segs', srIndex', notDone' := ScanReadAll(gdq, nreads, i, f, segs, srIndex, notDone);
  }

  /** The read loop of `calc_slope_vars`: every pixel is scanned read by read
      until the last read, or until every pixel has met a saturated group.
      `gdq[p]` holds pixel p's DQ words, one per read; the result holds pixel
      p's segment lengths, one slot per read. */
  method ScanSegments(gdq: seq<seq<Dq>>, nreads: nat, f: DqFlags) returns (segs: seq<seq<nat>>)
    requires Rectangular(gdq, nreads)
    ensures |segs| == |gdq|
    ensures forall p :: 0 <= p < |gdq| ==> segs[p] == ScanPixel(gdq[p], StopRead(gdq, nreads, 0, f), f).segs
  {
    var npix := |gdq|;
    segs := seq(npix, _ => Zeros(nreads));
    var srIndex: seq<nat> := seq(npix, _ => 0);
    var notDone: seq<bool> := seq(npix, _ => true);
    ScanStart(gdq, nreads, f);
    var i := 0;
    while i < nreads && AnyTrue(notDone)
      invariant i <= nreads && ScanInv(gdq, nreads, i, f, segs, srIndex, notDone)
    {
      segs, srIndex, notDone := ScanRound(gdq, nreads, i, f, segs, srIndex, notDone);
      i := i + 1;
    }
    ScanExit(gdq, nreads, i, f, segs, srIndex, notDone);
  }

  /** When the read loop stops, read `i` is where the scan stops. */
  lemma ScanExit(gdq: seq<seq<Dq>>, nreads: nat, i: nat, f: DqFlags,
                 segs: seq<seq<nat>>, srIndex: seq<nat>, notDone: seq<bool>)
    requires Rectangular(gdq, nreads) && i <= nreads
    requires ScanInv(gdq, nreads, i, f, segs, srIndex, notDone)
    requires !(i < nreads && AnyTrue(notDone))
    ensures forall p :: 0 <= p < |gdq| ==> segs[p] == ScanPixel(gdq[p], StopRead(gdq, nreads, 0, f), f).segs
  {
    NotDoneMeansNotAllDone(gdq, nreads, i, f, notDone);
    assert StopRead(gdq, nreads, i, f) == i;
    forall p | 0 <= p < |gdq|
      ensures segs[p] == ScanPixel(gdq[p], i, f).segs
    {
      assert ScanState(segs[p], srIndex[p]) == ScanPixel(gdq[p], i, f);
    }
  }
}

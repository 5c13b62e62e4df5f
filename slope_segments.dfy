/** The segment bookkeeping of `calc_slope_vars` (ramp_fitting/utils.py)
    after the read scan: the per-pixel vectors are cut to their first
    `max_seg` slots, the one-group segments are removed where a pixel has
    other groups, and a copy with each length less one (floored at 1) is
    made for the Poisson variance. */
module SlopeSegments {
  import opened Common
  import opened Segments
  import opened BadSingles

  /** The first `maxSeg` slots of a pixel's segment vector (`segs[:max_seg]`). */
  function Truncate(s: seq<nat>, maxSeg: nat): (r: seq<nat>)
    requires maxSeg <= |s|
    ensures |r| == maxSeg
    ensures forall k :: 0 <= k < maxSeg ==> r[k] == s[k]
  {
    s[..maxSeg]
  }

  /** When the pixel opened fewer jump segments than `maxSeg` slots, the cut
      loses nothing: the kept lengths still add up to every counted read. */
  lemma TruncateKeepsAll(fl: seq<Dq>, n: nat, maxSeg: nat, f: DqFlags)
    requires n <= |fl| && maxSeg <= |fl|
    requires ScanPixel(fl, n, f).index < maxSeg
    ensures Sum(Truncate(ScanPixel(fl, n, f).segs, maxSeg)) == CountCounted(fl, n, f)
  {
    var s := ScanPixel(fl, n, f).segs;
    ScanShape(fl, n, f);
    ScanSum(fl, n, f);
    assert s == s[..maxSeg] + s[maxSeg..];
    SumAppend(s[..maxSeg], s[maxSeg..]);
    SumZero(s[maxSeg..]);
  }

  /** The cut never adds groups: the kept lengths add up to at most the
      counted reads. */
  lemma TruncateBound(fl: seq<Dq>, n: nat, maxSeg: nat, f: DqFlags)
    requires n <= |fl| && maxSeg <= |fl|
    ensures Sum(Truncate(ScanPixel(fl, n, f).segs, maxSeg)) <= CountCounted(fl, n, f)
  {
    var s := ScanPixel(fl, n, f).segs;
    ScanSum(fl, n, f);
    assert s == s[..maxSeg] + s[maxSeg..];
    SumAppend(s[..maxSeg], s[maxSeg..]);
  }

  /** Each length less one, with a floor of 1, as used in the denominator of
      the Poisson variance. */
  function LessOne(s: seq<nat>): (r: seq<nat>)
    ensures |r| == |s|
    ensures forall k :: 0 <= k < |s| ==> r[k] >= 1
    ensures forall k :: 0 <= k < |s| ==> s[k] > 1 ==> r[k] + 1 == s[k]
    ensures forall k :: 0 <= k < |s| ==> s[k] <= 1 ==> r[k] == 1
  {
    seq(|s|, k requires 0 <= k < |s| => if s[k] > 1 then s[k] - 1 else 1)
  }

  /** The segment lengths of every pixel of one integration's data section:
      scan the reads, cut to `maxSeg` slots, remove one-group segments, and
      make the floored copy. `ok` is false when the cut cannot be reshaped
      to `maxSeg` slots (more slots than reads, with at least one pixel).
      Each pixel's result is `Cleaned` relative to its cut vector. */
  method CalcSegments(gdq: seq<seq<Dq>>, nreads: nat, maxSeg: nat, f: DqFlags)
    returns (ok: bool, segsBeg: seq<seq<nat>>, segsM1: seq<seq<nat>>)
    requires Rectangular(gdq, nreads)
    ensures ok <==> maxSeg <= nreads || |gdq| == 0
    ensures ok ==> |segsBeg| == |segsM1| == |gdq|
    ensures ok ==> forall p :: 0 <= p < |gdq| ==>
      var cut := Truncate(ScanPixel(gdq[p], StopRead(gdq, nreads, 0, f), f).segs, maxSeg);
      && |segsBeg[p]| == maxSeg
      && Cleaned(cut, segsBeg[p])
      && segsM1[p] == LessOne(segsBeg[p])
  {
    if !(maxSeg <= nreads || |gdq| == 0) {
      return false, [], [];
    }
    ok := true;
    if |gdq| == 0 {
      return ok, [], [];
    }
    var scanned := ScanSegments(gdq, nreads, f);
    var a := new seq<nat>[|gdq|](p requires 0 <= p < |gdq| => Truncate(scanned[p], maxSeg));
    ghost var cut := a[..];
    RemoveBadSingles(a, maxSeg);
    segsBeg := a[..];
    segsM1 := seq(|gdq|, p requires 0 <= p < |gdq| => LessOne(segsBeg[p]));
    assert forall p :: 0 <= p < |gdq| ==> cut[p] == Truncate(scanned[p], maxSeg) && segsBeg[p] == a[p];
  }
}

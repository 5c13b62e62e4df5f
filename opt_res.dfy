/** The optional-results object of ramp fitting (`OptRes` in
    ramp_fitting/utils.py), reduced to its cosmic-ray magnitude cube, and
    the in-place compression of that cube (`shrink_crmag`). */
module OptResults {
  import opened Common
  import opened CrMagnitudes

  lemma {:induction false} PositivesPrefix(col: seq<real>, k: nat)
    requires k < |col|
    ensures Positives(col[..k + 1]) == Positives(col[..k]) + (if col[k] > 0.0 then [col[k]] else [])
  {
    assert col[..k + 1][..k] == col[..k];
  }

  lemma {:induction false} PositivesMono(col: seq<real>, k: nat)
    requires k <= |col|
    ensures |Positives(col[..k])| <= |Positives(col)|
    decreases |col| - k
  {
    if k < |col| {
      PositivesPrefix(col, k);
      PositivesMono(col, k + 1);
    } else {
      assert col[..k] == col;
    }
  }

  lemma PadToPush(s: seq<real>, v: real, d: nat)
    requires |s| < d
    ensures PadTo(s + [v], d) == PadTo(s, d)[|s| := v]
  {
  }

  /** A pixel's plane and count hold the packing of its first `k` reads. */
  ghost predicate SlotPacked(col: seq<real>, slot: seq<real>, end: nat, maxCr: nat, k: nat) {
    && k <= |col|
    && |PackedUpTo(col, k)| <= maxCr
    && end == |PackedUpTo(col, k)|
    && slot == PadTo(PackedUpTo(col, k), maxCr)
  }

  /** Pixels `lo .. hi-1` hold the packing of their first `k` reads. */
  ghost predicate PackedRange(cols: seq<seq<real>>, plane: seq<seq<real>>, ends: seq<nat>,
                              maxCr: nat, k: nat, lo: nat, hi: nat)
  {
    && hi <= |cols| == |plane| == |ends|
    && forall p :: lo <= p < hi ==> SlotPacked(cols[p], plane[p], ends[p], maxCr, k)
  }

  lemma PackedStart(cols: seq<seq<real>>, plane: seq<seq<real>>, ends: seq<nat>, maxCr: nat)
    requires |cols| == |plane| == |ends|
    requires forall p :: 0 <= p < |cols| ==> plane[p] == ZerosR(maxCr) && ends[p] == 0
    ensures PackedRange(cols, plane, ends, maxCr, 0, 0, |cols|)
  {
    forall p | 0 <= p < |cols|
      ensures SlotPacked(cols[p], plane[p], ends[p], maxCr, 0)
    {
      assert cols[p][..0] == [];
      assert PadTo([], maxCr) == ZerosR(maxCr);
    }
  }

  /** Every pixel of one integration fits in `maxCr` planes. */
  predicate IntFits(cols: seq<seq<real>>, maxCr: nat) {
    forall p :: 0 <= p < |cols| ==> |Packed(cols[p])| <= maxCr
  }

  /** One read of one pixel: a positive magnitude of a pixel with a cosmic
      ray goes to the pixel's next free plane. `fits` is false when there
      is no free plane left (the source's IndexError). */
  method PackRead(col: seq<real>, hasCr: bool, k: nat, maxCr: nat, slot: seq<real>, end: nat)
    returns (fits: bool, slot': seq<real>, end': nat)
    requires k < |col| && hasCr == HasCr(col)
    requires SlotPacked(col, slot, end, maxCr, k)
    ensures !fits ==> |Packed(col)| > maxCr
    ensures fits ==> SlotPacked(col, slot', end', maxCr, k + 1)
  {
    if HasCr(col) { PositivesPrefix(col, k); }
    slot', end' := slot, end;
    fits := true;
    if hasCr && col[k] > 0.0 {
      if end >= maxCr {
        PositivesMono(col, k + 1);
        return false, slot, end;
      }
      PadToPush(PackedUpTo(col, k), col[k], maxCr);
      slot' := slot[end := col[k]];
      end' := end + 1;
    }
  }

  /** One read `k` of every pixel of one integration. */
  method PackReadAll(cols: seq<seq<real>>, hasCr: seq<bool>, k: nat, maxCr: nat,
                     plane: seq<seq<real>>, ends: seq<nat>)
    returns (fits: bool, plane': seq<seq<real>>, ends': seq<nat>)
    requires |cols| == |hasCr| == |plane| == |ends|
    requires forall p :: 0 <= p < |cols| ==> k < |cols[p]| && hasCr[p] == HasCr(cols[p])
    requires PackedRange(cols, plane, ends, maxCr, k, 0, |cols|)
    ensures !fits ==> !IntFits(cols, maxCr)
    ensures fits ==> |plane'| == |ends'| == |cols| && PackedRange(cols, plane', ends', maxCr, k + 1, 0, |cols|)
  {
    plane', ends' := plane, ends;
    var q := 0;
    while q < |cols|
      invariant q <= |cols| && |plane'| == |cols| && |ends'| == |cols|
      invariant PackedRange(cols, plane', ends', maxCr, k + 1, 0, q)
      invariant PackedRange(cols, plane', ends', maxCr, k, q, |cols|)
    {
      var ok, slot, end := PackRead(cols[q], hasCr[q], k, maxCr, plane'[q], ends'[q]);
      if !ok {
        return false, plane', ends';
      }
      plane' := plane'[q := slot];
      ends' := ends'[q := end];
      q := q + 1;
    }
    fits := true;
  }

  /** Every pixel's plane holds its packed magnitudes, padded to `maxCr`. */
  ghost predicate PlanePacked(cols: seq<seq<real>>, plane: seq<seq<real>>, maxCr: nat) {
    && |plane| == |cols|
    && forall p :: 0 <= p < |cols| ==> |Packed(cols[p])| <= maxCr && plane[p] == PadTo(Packed(cols[p]), maxCr)
  }

  /** After the last read the partial packing is the packing. */
  lemma PackedDone(cols: seq<seq<real>>, plane: seq<seq<real>>, ends: seq<nat>, maxCr: nat, nreads: nat)
    requires |cols| == |plane| == |ends| && forall p :: 0 <= p < |cols| ==> |cols[p]| == nreads
    requires PackedRange(cols, plane, ends, maxCr, nreads, 0, |cols|)
    ensures IntFits(cols, maxCr) && PlanePacked(cols, plane, maxCr) && ends == PackedCounts(cols)
  {
    forall p | 0 <= p < |cols|
      ensures PackedUpTo(cols[p], nreads) == Packed(cols[p])
    {
      assert cols[p][..nreads] == cols[p];
    }
  }

  /** `cr_mag_int.sum(axis=0) != 0` for every pixel. */
  function CrFlags(cols: seq<seq<real>>): (r: seq<bool>)
    ensures |r| == |cols| && forall p :: 0 <= p < |cols| ==> r[p] == HasCr(cols[p])
  {
    seq(|cols|, p requires 0 <= p < |cols| => RealSum(cols[p]) != 0.0)
  }

  /** The reads loop of one integration: read by read, every pixel's
      partial packing is extended. `fits` is false as soon as some pixel
      overflows the `maxCr` planes. */
  method PackReads(cols: seq<seq<real>>, nreads: nat, maxCr: nat)
    returns (fits: bool, plane: seq<seq<real>>, ends: seq<nat>)
    requires forall p :: 0 <= p < |cols| ==> |cols[p]| == nreads
    ensures !fits ==> !IntFits(cols, maxCr)
    ensures fits ==> |plane| == |ends| == |cols| && PackedRange(cols, plane, ends, maxCr, nreads, 0, |cols|)
  {
    var hasCr := CrFlags(cols);
    plane := seq(|cols|, _ => ZerosR(maxCr));
    ends := seq(|cols|, _ => 0);
    PackedStart(cols, plane, ends, maxCr);
    var k := 0;
    while k < nreads
      invariant k <= nreads && |plane| == |cols| && |ends| == |cols|
      invariant PackedRange(cols, plane, ends, maxCr, k, 0, |cols|)
    {
      var ok;
      ok, plane, ends := PackReadAll(cols, hasCr, k, maxCr, plane, ends);
      if !ok {
        return false, plane, ends;
      }
      k := k + 1;
    }
    fits := true;
  }

  /** The packing of one integration: for every read, and for every pixel
      whose magnitudes do not sum to zero, each positive magnitude is
      written to the pixel's next plane of a cube of depth `maxCr`. */
  method PackIntegration(cols: seq<seq<real>>, npix: nat, nreads: nat, maxCr: nat)
    returns (fits: bool, plane: seq<seq<real>>, ends: seq<nat>)
    requires |cols| == npix && forall p :: 0 <= p < npix ==> |cols[p]| == nreads
    ensures fits <==> IntFits(cols, maxCr)
    ensures fits ==> PlanePacked(cols, plane, maxCr) && ends == PackedCounts(cols)
  {
    fits, plane, ends := PackReads(cols, nreads, maxCr);
    if fits {
      PackedDone(cols, plane, ends, maxCr, nreads);
    }
  }

  /** The most jump-flagged groups of any pixel of any integration (the
      first loop of `shrink_crmag`). */
  method MaxFlagged(dqCube: seq<seq<seq<Dq>>>, jump: nat) returns (maxCr: nat)
    ensures maxCr == MaxJumps(dqCube, |dqCube|, jump)
  {
    maxCr := 0;
    var i := 0;
    while i < |dqCube|
      invariant i <= |dqCube| && maxCr == MaxJumps(dqCube, i, jump)
    {
      var counts := seq(|dqCube[i]|, p requires 0 <= p < |dqCube[i]| => JumpCount(dqCube[i][p], jump));
      assert counts == JumpCounts(dqCube[i], jump);
      maxCr := Max(maxCr, MaxOf(counts));
      i := i + 1;
    }
  }

  /** The first `n` integrations are packed in `com`. */
  ghost predicate CubePacked(mags: seq<seq<seq<real>>>, com: seq<seq<seq<real>>>, maxCr: nat, n: nat) {
    && n <= |mags| && n <= |com|
    && forall j :: 0 <= j < n ==> IntFits(mags[j], maxCr) && PlanePacked(mags[j], com[j], maxCr)
  }

  lemma CubeFits(mags: seq<seq<seq<real>>>, com: seq<seq<seq<real>>>, maxCr: nat)
    requires |com| == |mags| && CubePacked(mags, com, maxCr, |mags|)
    ensures Fits(mags, maxCr)
  {
  }

  lemma CubeOverflow(mags: seq<seq<seq<real>>>, i: nat, maxCr: nat)
    requires i < |mags| && !IntFits(mags[i], maxCr)
    ensures !Fits(mags, maxCr)
  {
  }

  /** The second loop of `shrink_crmag`: every integration packed into a
      cube of depth `maxCr`, with the counts of the last one. */
  method PackAll(mags: seq<seq<seq<real>>>, npix: nat, nreads: nat, maxCr: nat)
    returns (fits: bool, com: seq<seq<seq<real>>>, endCr: seq<nat>)
    requires MagShape(mags, npix, nreads)
    ensures fits <==> Fits(mags, maxCr)
    ensures fits ==> |com| == |mags| && CubePacked(mags, com, maxCr, |mags|)
    ensures fits && |mags| > 0 ==> endCr == PackedCounts(mags[|mags| - 1])
  {
    com := [];
    endCr := [];
    var i := 0;
    while i < |mags|
      invariant i <= |mags| && |com| == i
      invariant CubePacked(mags, com, maxCr, i)
      invariant i > 0 ==> endCr == PackedCounts(mags[i - 1])
    {
      var ok, plane, ends := PackIntegration(mags[i], npix, nreads, maxCr);
      if !ok {
        CubeOverflow(mags, i, maxCr);
        return false, com, endCr;
      }
      com := com + [plane];
      endCr := ends;
      i := i + 1;
    }
    CubeFits(mags, com, maxCr);
    fits := true;
  }

  /** The compressed cube cut to its first `d` planes
      (`cr_com[:, :max_num_crs, :, :]`). */
  function CutPlanes(com: seq<seq<seq<real>>>, npix: nat, d: nat): (r: seq<seq<seq<real>>>)
    requires forall j :: 0 <= j < |com| ==> |com[j]| == npix && forall p :: 0 <= p < npix ==> d <= |com[j][p]|
    ensures |r| == |com| && forall j :: 0 <= j < |com| ==> |r[j]| == npix
    ensures forall j, p :: 0 <= j < |com| && 0 <= p < npix ==> r[j][p] == com[j][p][..d]
  {
    seq(|com|, j requires 0 <= j < |com| => seq(npix, p requires 0 <= p < npix => com[j][p][..d]))
  }

  /** Every packed plane has depth `maxCr`. */
  lemma CubeDepth(mags: seq<seq<seq<real>>>, com: seq<seq<seq<real>>>, maxCr: nat, npix: nat)
    requires |com| == |mags| && CubePacked(mags, com, maxCr, |mags|)
    requires forall j :: 0 <= j < |mags| ==> |mags[j]| == npix
    ensures forall j :: 0 <= j < |com| ==> |com[j]| == npix && forall p :: 0 <= p < npix ==> |com[j][p]| == maxCr
  {
  }

  /** Cutting the packed cube to the last integration's depth is the
      value-level `shrink_crmag`. */
  lemma ShrinkMatches(mags: seq<seq<seq<real>>>, dq: seq<seq<seq<Dq>>>, npix: nat, jump: nat,
                      com: seq<seq<seq<real>>>, d: nat)
    requires |dq| == |mags| > 0 && npix > 0 && forall j :: 0 <= j < |mags| ==> |mags[j]| == npix
    requires |com| == |mags| && CubePacked(mags, com, MaxJumps(dq, |dq|, jump), |mags|)
    requires d == Depth(mags[|mags| - 1]) > 0 && d <= MaxJumps(dq, |dq|, jump)
    ensures forall j :: 0 <= j < |com| ==> |com[j]| == npix && forall p :: 0 <= p < npix ==> d <= |com[j][p]|
    ensures ShrinkAsWritten(mags, dq, npix, jump) == Some(CutPlanes(com, npix, d))
  {
    CubeFits(mags, com, MaxJumps(dq, |dq|, jump));
    CubeDepth(mags, com, MaxJumps(dq, |dq|, jump), npix);
    var r := CutPlanes(com, npix, d);
    var w := ShrinkAsWritten(mags, dq, npix, jump).value;
    assert |w| == |r|;
    forall j | 0 <= j < |mags|
      ensures w[j] == r[j]
    {
      assert |w[j]| == |r[j]|;
      forall p | 0 <= p < npix
        ensures w[j][p] == r[j][p]
      {
        assert w[j][p] == PadTo(Packed(mags[j][p]), MaxJumps(dq, |dq|, jump))[..d];
      }
    }
    assert w == r;
  }

  /** The failures of the value-level `shrink_crmag`. */
  lemma ShrinkFails(mags: seq<seq<seq<real>>>, dq: seq<seq<seq<Dq>>>, npix: nat, jump: nat)
    requires |dq| == |mags| && forall j :: 0 <= j < |mags| ==> |mags[j]| == npix
    requires |mags| == 0 || npix == 0 || !Fits(mags, MaxJumps(dq, |dq|, jump))
    ensures ShrinkAsWritten(mags, dq, npix, jump) == None
  {
  }

  /** With no magnitude packed in the last integration the result is one
      plane of zeros. */
  lemma ShrinkZero(mags: seq<seq<seq<real>>>, dq: seq<seq<seq<Dq>>>, npix: nat, jump: nat)
    requires |dq| == |mags| > 0 && npix > 0 && forall j :: 0 <= j < |mags| ==> |mags[j]| == npix
    requires Fits(mags, MaxJumps(dq, |dq|, jump)) && Depth(mags[|mags| - 1]) == 0
    ensures ShrinkAsWritten(mags, dq, npix, jump) == Some(ZeroCube(|mags|, npix))
  {
  }

  /** `shrink_crmag` on values, by its two loops. */
  method Compress(mags: seq<seq<seq<real>>>, dq: seq<seq<seq<Dq>>>, npix: nat, nreads: nat, jump: nat)
    returns (r: Option<seq<seq<seq<real>>>>)
    requires |dq| == |mags| && MagShape(mags, npix, nreads) && DqShape(dq, npix)
    ensures r == ShrinkAsWritten(mags, dq, npix, jump)
  {
    var maxCr := MaxFlagged(dq, jump);
    if |mags| > 0 && npix == 0 {
      ShrinkFails(mags, dq, npix, jump);
      return None;
    }
    var fits, com, endCr := PackAll(mags, npix, nreads, maxCr);
    if !fits || |mags| == 0 {
      ShrinkFails(mags, dq, npix, jump);
      return None;
    }
    var d := MaxOf(endCr);
    assert d == Depth(mags[|mags| - 1]);
    if d == 0 {
      ShrinkZero(mags, dq, npix, jump);
      return Some(ZeroCube(|mags|, npix));
    }
    var q :| 0 <= q < npix && endCr[q] == d;
    assert IntFits(mags[|mags| - 1], maxCr);
    ShrinkMatches(mags, dq, npix, jump, com, d);
    r := Some(CutPlanes(com, npix, d));
  }

  class OptRes {
    /** Cosmic-ray magnitudes, `[integration][pixel][plane]`; before the
        compression a plane is a read. */
    var crMagSeg: seq<seq<seq<real>>>

    /** The magnitude cube starts as zeros, one plane per read. */
    constructor (nInt: nat, npix: nat, nreads: nat)
      ensures crMagSeg == seq(nInt, _ => seq(npix, _ => ZerosR(nreads)))
    {
      crMagSeg := seq(nInt, _ => seq(npix, _ => ZerosR(nreads)));
    }

    /** `shrink_crmag(n_int, dq_cube, imshape, nreads, jump_det)`: the
        magnitude cube is replaced by its compression as written. When the
        source raises (`ok` false) the cube is left as it was. */
    method ShrinkCrmag(nInt: nat, dqCube: seq<seq<seq<Dq>>>, npix: nat, nreads: nat, jump: nat) returns (ok: bool)
      requires |crMagSeg| == nInt == |dqCube|
      requires MagShape(crMagSeg, npix, nreads) && DqShape(dqCube, npix)
      modifies this
      ensures ok == ShrinkAsWritten(old(crMagSeg), dqCube, npix, jump).Some?
      ensures ok ==> crMagSeg == ShrinkAsWritten(old(crMagSeg), dqCube, npix, jump).value
      ensures !ok ==> crMagSeg == old(crMagSeg)
    {
      var r := Compress(crMagSeg, dqCube, npix, nreads, jump);
      ok := r.Some?;
      if ok {
        crMagSeg := r.value;
      }
    }
  }
}

/** Combining and updating pixel DQ words (ramp_fitting/utils.py):
    `dq_compress_final`, `dq_compress_sect`, `reset_bad_gain` and
    `fix_sat_ramps`. Images are flattened to one sequence of pixels; every
    operation here works pixel by pixel. */
module DqCombine {
  import opened Common

  /** The slope variance given to ramps that must not contribute. */
  const LARGE_VARIANCE: real := 100000000.0

  /** A cube of per-integration DQ images, all with the same pixel count. */
  predicate Image(dq: seq<seq<Dq>>, npix: nat) {
    forall j :: 0 <= j < |dq| ==> |dq[j]| == npix
  }

  /** Bitwise OR of pixel `p` over integrations `0 .. k-1`. */
  function OrPrefix(dq: seq<seq<Dq>>, p: nat, k: nat): Dq
    requires k <= |dq| && forall j :: 0 <= j < |dq| ==> p < |dq[j]|
  {
    if k == 0 then Clean else OrPrefix(dq, p, k - 1) + dq[k - 1][p]
  }

  /** Number of integrations among `0 .. k-1` with DO_NOT_USE set at pixel `p`. */
  function DnuCount(dq: seq<seq<Dq>>, p: nat, k: nat, dnu: nat): nat
    requires k <= |dq| && forall j :: 0 <= j < |dq| ==> p < |dq[j]|
  {
    if k == 0 then 0 else DnuCount(dq, p, k - 1, dnu) + (if Has(dq[k - 1][p], dnu) then 1 else 0)
  }

  /** The final DQ of one pixel: the OR over the first `max(nInt, 1)`
      integrations, with DO_NOT_USE cleared unless every integration of the
      cube has it. */
  function FinalPixel(dq: seq<seq<Dq>>, p: nat, nInt: nat, dnu: nat): Dq
    requires 0 < |dq| && nInt <= |dq| && forall j :: 0 <= j < |dq| ==> p < |dq[j]|
  {
    var w := OrPrefix(dq, p, Max(nInt, 1));
    if DnuCount(dq, p, |dq|, dnu) < |dq| then w - {dnu} else w
  }

  /** `dq_compress_final` on the values of the cube. */
  function CompressFinal(dq: seq<seq<Dq>>, npix: nat, nInt: nat, dnu: nat): (r: seq<Dq>)
    requires 0 < |dq| && nInt <= |dq| && Image(dq, npix)
    ensures |r| == npix
  {
    seq(npix, p requires 0 <= p < npix => FinalPixel(dq, p, nInt, dnu))
  }

  lemma {:induction false} OrPrefixHas(dq: seq<seq<Dq>>, p: nat, k: nat, b: nat)
    requires k <= |dq| && forall j :: 0 <= j < |dq| ==> p < |dq[j]|
    ensures Has(OrPrefix(dq, p, k), b) <==> exists j :: 0 <= j < k && Has(dq[j][p], b)
  {
    if k > 0 {
      OrPrefixHas(dq, p, k - 1, b);
    }
  }

  lemma {:induction false} DnuCountAll(dq: seq<seq<Dq>>, p: nat, k: nat, dnu: nat)
    requires k <= |dq| && forall j :: 0 <= j < |dq| ==> p < |dq[j]|
    ensures DnuCount(dq, p, k, dnu) <= k
    ensures DnuCount(dq, p, k, dnu) == k <==> forall j :: 0 <= j < k ==> Has(dq[j][p], dnu)
  {
    if k > 0 {
      DnuCountAll(dq, p, k - 1, dnu);
    }
  }

  /** Every flag other than DO_NOT_USE is set in the final DQ of a pixel
      exactly when it is set in one of the combined integrations. */
  lemma FinalKeepsOtherBits(dq: seq<seq<Dq>>, p: nat, nInt: nat, dnu: nat, b: nat)
    requires 0 < |dq| && nInt <= |dq| && forall j :: 0 <= j < |dq| ==> p < |dq[j]|
    requires b != dnu
    ensures Has(FinalPixel(dq, p, nInt, dnu), b) <==> exists j :: 0 <= j < Max(nInt, 1) && Has(dq[j][p], b)
  {
    OrPrefixHas(dq, p, Max(nInt, 1), b);
  }

  /** DO_NOT_USE survives in the final DQ of a pixel exactly when every
      integration of the cube has it: one good integration is enough to
      clear it. */
  lemma FinalDoNotUse(dq: seq<seq<Dq>>, p: nat, dnu: nat)
    requires 0 < |dq| && forall j :: 0 <= j < |dq| ==> p < |dq[j]|
    ensures Has(FinalPixel(dq, p, |dq|, dnu), dnu) <==> forall j :: 0 <= j < |dq| ==> Has(dq[j][p], dnu)
  {
    DnuCountAll(dq, p, |dq|, dnu);
    OrPrefixHas(dq, p, |dq|, dnu);
  }

  /** `dq_compress_final(dq_int, n_int, dnu_flag)`. The result is `None` when
      the source raises IndexError: an empty cube, or `nInt` beyond the
      cube's integrations. With `nInt <= 1` the result is a view of the
      first integration's image, so that image is overwritten with it; with
      more integrations the cube is left alone. */
  method DqCompressFinal(dqInt: array<seq<Dq>>, npix: nat, nInt: nat, dnu: nat) returns (r: Option<seq<Dq>>)
    requires Image(dqInt[..], npix)
    modifies dqInt
    ensures r.None? <==> dqInt.Length == 0 || nInt > dqInt.Length
    ensures r.None? ==> dqInt[..] == old(dqInt[..])
    ensures r.Some? ==> r.value == CompressFinal(old(dqInt[..]), npix, nInt, dnu)
    ensures r.Some? && nInt <= 1 ==> dqInt[..] == old(dqInt[..])[0 := r.value]
    ensures r.Some? && nInt > 1 ==> dqInt[..] == old(dqInt[..])
  {
    if dqInt.Length == 0 || nInt > dqInt.Length {
      return None;
    }
    var dq := dqInt[..];
    var f := dqInt[0];
    var jj := 1;
    while jj < nInt
      invariant 1 <= jj <= Max(nInt, 1)
      invariant |f| == npix
      invariant forall p :: 0 <= p < npix ==> f[p] == OrPrefix(dq, p, jj)
    {
      var g := dqInt[jj];
      f := seq(npix, p requires 0 <= p < npix => f[p] + g[p]);
      jj := jj + 1;
    }
    var nints := dqInt.Length;
    var dnuSum := seq(npix, p requires 0 <= p < npix => DnuCount(dq, p, nints, dnu));
    f := seq(npix, p requires 0 <= p < npix => if dnuSum[p] < nints then f[p] - {dnu} else f[p]);
    if nInt <= 1 {
      dqInt[0] := f;
    }
    r := Some(f);
  }

  /** Some group of the ramp has the flag at bit `b`. */
  predicate AnyGroup(groups: seq<Dq>, b: nat) {
    exists g :: 0 <= g < |groups| && Has(groups[g], b)
  }

  /** `dq_compress_sect` for one pixel: SATURATED is added when any group
      is saturated, JUMP_DET when any group has a jump. */
  function SectPixel(pdq: Dq, groups: seq<Dq>, f: DqFlags): Dq {
    pdq + (if AnyGroup(groups, f.saturated) then {f.saturated} else {})
        + (if AnyGroup(groups, f.jumpDet) then {f.jumpDet} else {})
  }

  /** The section update never clears a bit, sets SATURATED exactly when
      the pixel already had it or some group has it, JUMP_DET likewise, and
      leaves every other bit as it was. */
  lemma SectPixelBits(pdq: Dq, groups: seq<Dq>, f: DqFlags, b: nat)
    ensures pdq <= SectPixel(pdq, groups, f)
    ensures Has(SectPixel(pdq, groups, f), f.saturated) <==> Has(pdq, f.saturated) || AnyGroup(groups, f.saturated)
    ensures Has(SectPixel(pdq, groups, f), f.jumpDet) <==> Has(pdq, f.jumpDet) || AnyGroup(groups, f.jumpDet)
    ensures b != f.saturated && b != f.jumpDet ==> (Has(SectPixel(pdq, groups, f), b) <==> Has(pdq, b))
  {
  }

  /** `dq_compress_sect`: the pixel DQ section is updated in place from the
      group DQ of each pixel. */
  method DqCompressSect(pixeldq: array<Dq>, gdq: seq<seq<Dq>>, f: DqFlags)
    requires |gdq| == pixeldq.Length
    modifies pixeldq
    ensures forall p :: 0 <= p < pixeldq.Length ==> pixeldq[p] == SectPixel(old(pixeldq[p]), gdq[p], f)
  {
    var p := 0;
    while p < pixeldq.Length
      invariant p <= pixeldq.Length
      invariant forall q :: 0 <= q < p ==> pixeldq[q] == SectPixel(old(pixeldq[q]), gdq[q], f)
      invariant forall q :: p <= q < pixeldq.Length ==> pixeldq[q] == old(pixeldq[q])
    {
      var sat, jump := false, false;
      var g := 0;
      while g < |gdq[p]|
        invariant g <= |gdq[p]|
        invariant sat <==> AnyGroup(gdq[p][..g], f.saturated)
        invariant jump <==> AnyGroup(gdq[p][..g], f.jumpDet)
      {
        sat := sat || Has(gdq[p][g], f.saturated);
        jump := jump || Has(gdq[p][g], f.jumpDet);
        g := g + 1;
      }
      assert gdq[p][..g] == gdq[p];
      var w := pixeldq[p];
      if sat { w := w + {f.saturated}; }
      if jump { w := w + {f.jumpDet}; }
      pixeldq[p] := w;
      p := p + 1;
    }
  }

  /** A gain that cannot be used: non-positive or NaN (`None`). */
  predicate BadGain(g: Option<real>) {
    g.None? || g.value <= 0.0
  }

  /** `reset_bad_gain` for one pixel. */
  function GainPixel(pdq: Dq, g: Option<real>, f: DqFlags): Dq {
    if BadGain(g) then pdq + {f.noGainValue, f.doNotUse} else pdq
  }

  /** A pixel ends up with NO_GAIN_VALUE and DO_NOT_USE exactly when its
      gain is bad or it had them already; a pixel with a good gain keeps its
      DQ word; no bit is ever cleared. */
  lemma GainPixelBits(pdq: Dq, g: Option<real>, f: DqFlags)
    ensures Has(GainPixel(pdq, g, f), f.noGainValue) <==> BadGain(g) || Has(pdq, f.noGainValue)
    ensures Has(GainPixel(pdq, g, f), f.doNotUse) <==> BadGain(g) || Has(pdq, f.doNotUse)
    ensures !BadGain(g) ==> GainPixel(pdq, g, f) == pdq
    ensures pdq <= GainPixel(pdq, g, f)
  {
  }

  /** `reset_bad_gain`: the pixel DQ image is updated in place from the gain
      image. */
  method ResetBadGain(pdq: array<Dq>, gain: seq<Option<real>>, f: DqFlags)
    requires |gain| == pdq.Length
    modifies pdq
    ensures forall p :: 0 <= p < pdq.Length ==> pdq[p] == GainPixel(old(pdq[p]), gain[p], f)
  {
    var p := 0;
    while p < pdq.Length
      invariant p <= pdq.Length
      invariant forall q :: 0 <= q < p ==> pdq[q] == GainPixel(old(pdq[q]), gain[q], f)
      invariant forall q :: p <= q < pdq.Length ==> pdq[q] == old(pdq[q])
    {
      if BadGain(gain[p]) {
        pdq[p] := pdq[p] + {f.noGainValue};
        pdq[p] := pdq[p] + {f.doNotUse};
      }
      p := p + 1;
    }
  }

  /** `fix_sat_ramps`: where the initial group of a ramp is saturated, both
      variances become LARGE_VARIANCE, the slope becomes 0 and the DQ word
      gains DO_NOT_USE; every other pixel is unchanged. */
  method FixSatRamps(sat0: seq<nat>, varP: array<real>, varBoth: array<real>, slope: array<real>,
                     dq: array<Dq>, f: DqFlags)
    requires |sat0| == varP.Length == varBoth.Length == slope.Length == dq.Length
    requires varP != varBoth && varP != slope && varBoth != slope
    modifies varP, varBoth, slope, dq
    ensures forall p :: 0 <= p < |sat0| ==>
      && varP[p] == (if sat0[p] > 0 then LARGE_VARIANCE else old(varP[p]))
      && varBoth[p] == (if sat0[p] > 0 then LARGE_VARIANCE else old(varBoth[p]))
      && slope[p] == (if sat0[p] > 0 then 0.0 else old(slope[p]))
      && dq[p] == (if sat0[p] > 0 then old(dq[p]) + {f.doNotUse} else old(dq[p]))
  {
    var p := 0;
    while p < |sat0|
      invariant p <= |sat0|
      invariant forall q :: 0 <= q < p ==>
        && varP[q] == (if sat0[q] > 0 then LARGE_VARIANCE else old(varP[q]))
        && varBoth[q] == (if sat0[q] > 0 then LARGE_VARIANCE else old(varBoth[q]))
        && slope[q] == (if sat0[q] > 0 then 0.0 else old(slope[q]))
        && dq[q] == (if sat0[q] > 0 then old(dq[q]) + {f.doNotUse} else old(dq[q]))
      invariant forall q :: p <= q < |sat0| ==>
        varP[q] == old(varP[q]) && varBoth[q] == old(varBoth[q]) && slope[q] == old(slope[q]) && dq[q] == old(dq[q])
    {
      if sat0[p] > 0 {
        varP[p] := LARGE_VARIANCE;
        varBoth[p] := LARGE_VARIANCE;
        slope[p] := 0.0;
        dq[p] := dq[p] + {f.doNotUse};
      }
      p := p + 1;
    }
  }
}

/** What `find_crs` (jump/twopoint_difference.py) computes for one
    integration, cell by cell: the group differences with SATURATED and
    DO_NOT_USE groups masked, the pixels whose largest ratio exceeds the
    threshold for their usable count, the jumps the clipping loop marks
    on them, and the four-neighbour flags around jumps of moderate size. */
module JumpSpec {
  import opened Common
  import opened JumpMedian
  import opened JumpClip

  /** `nframes`, the number of frames averaged into a group. */
  type Frames = n: nat | n >= 1 witness 1

  /** The shape of one integration: groups, rows, columns. */
  datatype Dims = Dims(groups: nat, rows: nat, cols: nat)

  /** One integration of `dataa` and `group_dq`, indexed [group][row][col]
      (None is a NaN sample), and the read noise of each pixel. */
  datatype Integration = Integration(data: seq<seq<seq<Option<real>>>>, dq: seq<seq<seq<Dq>>>, readNoise: seq<seq<real>>)

  /** The remaining arguments of `find_crs`. `sqrt` is the square root used
      for the noise `sigma`; floating-point square roots are not modelled. */
  datatype Config = Config(
    t: Thresholds, nframes: Frames, flag4: bool, maxJump: real, minJump: real,
    flags: DqFlags, sqrt: real -> real)

  predicate Cube<T>(s: seq<seq<seq<T>>>, z: Dims) {
    && |s| == z.groups
    && forall g :: 0 <= g < z.groups ==> |s[g]| == z.rows && forall r :: 0 <= r < z.rows ==> |s[g][r]| == z.cols
  }

  /** At least three groups (the documented assumption of `find_crs`) and
      every array of the given shape. */
  predicate Shaped(x: Integration, z: Dims) {
    && z.groups >= 3
    && Cube(x.data, z) && Cube(x.dq, z)
    && |x.readNoise| == z.rows && forall r :: 0 <= r < z.rows ==> |x.readNoise[r]| == z.cols
  }

  /** The sample the differences see: NaN where the group is flagged
      SATURATED or DO_NOT_USE. */
  function Sample(x: Integration, z: Dims, f: DqFlags, g: nat, r: nat, c: nat): (v: Option<real>)
    requires Shaped(x, z) && g < z.groups && r < z.rows && c < z.cols
    ensures Has(x.dq[g][r][c], f.saturated) || Has(x.dq[g][r][c], f.doNotUse) ==> v.None?
    ensures !Has(x.dq[g][r][c], f.saturated) && !Has(x.dq[g][r][c], f.doNotUse) ==> v == x.data[g][r][c]
  {
    if Has(x.dq[g][r][c], f.saturated) || Has(x.dq[g][r][c], f.doNotUse) then None else x.data[g][r][c]
  }

  /** `np.diff` along the group axis at one pixel: NaN when either sample
      is, otherwise the later sample less the earlier one. */
  function PixelDiffs(x: Integration, z: Dims, f: DqFlags, r: nat, c: nat): (d: seq<Option<real>>)
    requires Shaped(x, z) && r < z.rows && c < z.cols
    ensures |d| == z.groups - 1
  {
    seq(z.groups - 1, k requires 0 <= k < z.groups - 1 =>
      var a := Sample(x, z, f, k, r, c);
      var b := Sample(x, z, f, k + 1, r, c);
      if a.Some? && b.Some? then Some(b.value - a.value) else None)
  }

  /** A difference is usable exactly when both samples are, and then it
      takes the earlier sample to the later one. */
  lemma PixelDiffsSpec(x: Integration, z: Dims, f: DqFlags, r: nat, c: nat)
    requires Shaped(x, z) && r < z.rows && c < z.cols
    ensures var d := PixelDiffs(x, z, f, r, c);
      forall k :: 0 <= k < |d| ==>
        && (d[k].Some? <==> Sample(x, z, f, k, r, c).Some? && Sample(x, z, f, k + 1, r, c).Some?)
        && (d[k].Some? ==> Sample(x, z, f, k, r, c).value + d[k].value == Sample(x, z, f, k + 1, r, c).value)
  {
  }

  /** `sigma = sqrt(|median| + rn^2 / nframes)`. */
  function Sigma(cf: Config, rn: real, m: real): real {
    cf.sqrt(AbsR(m) + rn * rn / cf.nframes as real)
  }

  /** The first ratio `|d - median| / sigma`, where a zero `sigma` has
      been turned into NaN beforehand, so the ratio is NaN there. */
  function RatioOf(cf: Config, rn: real, v: real, m: real): (q: Option<real>)
    ensures q.None? <==> Sigma(cf, rn, m) == 0.0
    ensures q.Some? ==> q.value * Sigma(cf, rn, m) == AbsR(v - m)
  {
    var sigma := Sigma(cf, rn, m);
    if sigma == 0.0 then None else Some(AbsR(v - m) / sigma)
  }

  /** The first ratio of a pixel with read noise `rn`, as a function of a
      difference and the median. */
  function RatioFn(cf: Config, rn: real): (real, real) -> Option<real> {
    (v, m) => RatioOf(cf, rn, v, m)
  }

  /** The ratio recomputed inside the clipping loop, where `sigma` is not
      reset: over a zero `sigma` a difference off the median has ratio
      +inf, and one on the median has ratio NaN (0/0). */
  function LoopRatioOf(cf: Config, rn: real, v: real, m: real): (q: Option<LoopRatio>)
    ensures q.None? <==> Sigma(cf, rn, m) == 0.0 && v == m
    ensures q == Some(Infinite) <==> Sigma(cf, rn, m) == 0.0 && v != m
    ensures Sigma(cf, rn, m) != 0.0 ==> q.Some? && q.value.Finite? && q.value.value * Sigma(cf, rn, m) == AbsR(v - m)
  {
    var sigma := Sigma(cf, rn, m);
    if sigma != 0.0 then Some(Finite(AbsR(v - m) / sigma))
    else if v == m then None
    else Some(Infinite)
  }

  /** The loop ratio of a pixel with read noise `rn`. */
  function LoopRatioFn(cf: Config, rn: real): (real, real) -> Option<LoopRatio> {
    (v, m) => LoopRatioOf(cf, rn, v, m)
  }

  /** A pass of the clipping loop raises exactly when every remaining
      difference has a NaN ratio: the median is NaN, or `sigma` is 0 and
      the difference equals the median. */
  lemma LoopPassFails(cf: Config, rn: real, s: ClipState)
    requires s.Shaped()
    ensures var d := ClipMasked(s.diffs, s.mask);
      var m := MedFirstDiffs(d);
      Step(s, LoopRatioFn(cf, rn), cf.t).None? <==>
        forall k :: 0 <= k < |d| && d[k].Some? ==> m.None? || (Sigma(cf, rn, m.value) == 0.0 && d[k].value == m.value)
  {
    var d := ClipMasked(s.diffs, s.mask);
    var m := MedFirstDiffs(d);
    var rs := Ratios(d, m, LoopRatioFn(cf, rn));
    LoopArgMaxSpec(rs);
    assert forall k :: 0 <= k < |d| && d[k].Some? && m.Some? ==> rs[k] == LoopRatioOf(cf, rn, d[k].value, m.value);
  }

  /** A pass whose recomputed `sigma` is 0 marks the first remaining
      difference off the median (its ratio is +inf), and the loop goes
      on. */
  lemma ZeroSigmaPassMarks(cf: Config, rn: real, s: ClipState, k: nat)
    requires s.Shaped() && k < |s.diffs|
    requires var d := ClipMasked(s.diffs, s.mask);
      var m := MedFirstDiffs(d);
      m.Some? && Sigma(cf, rn, m.value) == 0.0 && d[k].Some? && d[k].value != m.value
    ensures var d := ClipMasked(s.diffs, s.mask);
      var m := MedFirstDiffs(d);
      var r := Step(s, LoopRatioFn(cf, rn), cf.t);
      && r.Some? && r.value.newCR
      && exists i :: 0 <= i <= k && d[i].Some? && d[i].value != m.value && r.value.mask == s.mask[i := false]
           && forall j :: 0 <= j < i && d[j].Some? ==> d[j].value == m.value
  {
    var d := ClipMasked(s.diffs, s.mask);
    var m := MedFirstDiffs(d);
    var rs := Ratios(d, m, LoopRatioFn(cf, rn));
    assert forall j :: 0 <= j < |d| && d[j].Some? ==> rs[j] == LoopRatioOf(cf, rn, d[j].value, m.value);
    assert rs[k] == Some(Infinite);
    FirstInfSpec(rs);
    var i := FirstInf(rs).value;
    assert LoopArgMax(rs) == Some(i);
    assert d[i].Some? && d[i].value != m.value;
  }

  /** The pixel's `ratio` along the difference axis. */
  function PixelRatios(x: Integration, z: Dims, cf: Config, r: nat, c: nat): (rs: seq<Option<real>>)
    requires Shaped(x, z) && r < z.rows && c < z.cols
    ensures |rs| == z.groups - 1
  {
    var d := PixelDiffs(x, z, cf.flags, r, c);
    Ratios(d, MedFirstDiffs(d), RatioFn(cf, x.readNoise[r][c]))
  }

  /** `max_ratio > thresh` with the threshold for the usable count (a pixel
      whose ratios are all NaN is never selected). */
  function Selected(d: seq<Option<real>>, rs: seq<Option<real>>, t: Thresholds): bool
    requires |rs| == |d|
  {
    var th := SelectThreshold(Usable(d), t);
    var i := NanArgMax(rs);
    th.Some? && i.Some? && rs[i.value].value > th.value
  }

  /** A pixel is selected exactly when it has at least two usable
      differences and some ratio exceeds the threshold for that count. */
  lemma SelectedIff(d: seq<Option<real>>, rs: seq<Option<real>>, t: Thresholds)
    requires |rs| == |d|
    ensures Selected(d, rs, t) <==>
      (Usable(d) >= 2 && exists k :: 0 <= k < |rs| && rs[k].Some? && rs[k].value > SelectThreshold(Usable(d), t).value)
  {
    NanArgMaxSpec(rs);
    if Usable(d) >= 2 && NanArgMax(rs).Some? {
      var i := NanArgMax(rs).value;
      if exists k :: 0 <= k < |rs| && rs[k].Some? && rs[k].value > SelectThreshold(Usable(d), t).value {
        var k :| 0 <= k < |rs| && rs[k].Some? && rs[k].value > SelectThreshold(Usable(d), t).value;
        assert rs[k].value <= rs[i].value;
      }
    }
  }

  /** The jump mask of one pixel: the clipping loop's for a selected pixel,
      no jump for any other. None when the loop raises. */
  function PixelMask(x: Integration, z: Dims, cf: Config, r: nat, c: nat): (m: Option<seq<bool>>)
    requires Shaped(x, z) && r < z.rows && c < z.cols
    ensures m.Some? ==> |m.value| == z.groups - 1
  {
    var d := PixelDiffs(x, z, cf.flags, r, c);
    var rs := PixelRatios(x, z, cf, r, c);
    if Selected(d, rs, cf.t) then ClipMask(d, rs, LoopRatioFn(cf, x.readNoise[r][c]), cf.t)
    else Some(AllTrue(|d|))
  }

  /** No pixel of the integration makes the clipping loop raise. */
  predicate MasksOk(x: Integration, z: Dims, cf: Config)
    requires Shaped(x, z)
  {
    forall r, c :: 0 <= r < z.rows && 0 <= c < z.cols ==> PixelMask(x, z, cf, r, c).Some?
  }

  function MaskOf(x: Integration, z: Dims, cf: Config, r: nat, c: nat): (m: seq<bool>)
    requires Shaped(x, z) && r < z.rows && c < z.cols
    ensures |m| == z.groups - 1
  {
    match PixelMask(x, z, cf, r, c)
    case Some(m) => m
    case None => AllTrue(z.groups - 1)
  }

  /** The write-back `gdq[1:] |= JUMP_DET * ~mask` at one group of a pixel:
      group `g` gets JUMP_DET when difference `g - 1` is marked. */
  function WriteBack(v: Dq, mask: seq<bool>, g: nat, jump: nat): (w: Dq)
    ensures w == v || w == v + {jump}
    ensures Has(w, jump) <==> Has(v, jump) || (1 <= g <= |mask| && !mask[g - 1])
  {
    if 1 <= g <= |mask| && !mask[g - 1] then v + {jump} else v
  }

  /** The group DQ after the jumps of every pixel are written back. */
  function WbCell(x: Integration, z: Dims, cf: Config, g: nat, r: nat, c: nat): Dq
    requires Shaped(x, z) && g < z.groups && r < z.rows && c < z.cols
  {
    WriteBack(x.dq[g][r][c], MaskOf(x, z, cf, r, c), g, cf.flags.jumpDet)
  }

  /** The ratio that decides whether a jump in group `g` flags its
      neighbours: that of difference `g - 1`, which for group 0 is the last
      difference (numpy's index -1). */
  function RatioAt(x: Integration, z: Dims, cf: Config, g: nat, r: nat, c: nat): Option<real>
    requires Shaped(x, z) && g < z.groups && r < z.rows && c < z.cols
  {
    PixelRatios(x, z, cf, r, c)[if g == 0 then z.groups - 2 else g - 1]
  }

  /** Strictly between the two limits; a NaN ratio is not. */
  predicate InRange(q: Option<real>, cf: Config) {
    q.Some? && q.value < cf.maxJump && q.value > cf.minJump
  }

  /** A jump, after write-back, whose ratio is in range: its neighbours get
      flagged. */
  predicate Cand(x: Integration, z: Dims, cf: Config, g: nat, r: nat, c: nat)
    requires Shaped(x, z) && g < z.groups && r < z.rows && c < z.cols
  {
    Has(WbCell(x, z, cf, g, r, c), cf.flags.jumpDet) && InRange(RatioAt(x, z, cf, g, r, c), cf)
  }

  /** Some in-grid neighbour (up, down, left, right) of the cell is a
      candidate. */
  predicate Hit(x: Integration, z: Dims, cf: Config, g: nat, r: nat, c: nat)
    requires Shaped(x, z) && g < z.groups && r < z.rows && c < z.cols
  {
    || (r > 0 && Cand(x, z, cf, g, r - 1, c))
    || (r + 1 < z.rows && Cand(x, z, cf, g, r + 1, c))
    || (c > 0 && Cand(x, z, cf, g, r, c - 1))
    || (c + 1 < z.cols && Cand(x, z, cf, g, r, c + 1))
  }

  function Mark(b: bool, jump: nat): (w: Dq)
    ensures Has(w, jump) == b && w <= {jump}
  {
    if b then {jump} else Clean
  }

  /** The returned group DQ of one cell. */
  function FinalCell(x: Integration, z: Dims, cf: Config, g: nat, r: nat, c: nat): Dq
    requires Shaped(x, z) && g < z.groups && r < z.rows && c < z.cols
  {
    WbCell(x, z, cf, g, r, c) + Mark(cf.flag4 && Hit(x, z, cf, g, r, c), cf.flags.jumpDet)
  }

  /** `row_below_gdq`: JUMP_DET under a candidate of the first row. */
  function BelowCell(x: Integration, z: Dims, cf: Config, g: nat, c: nat): Dq
    requires Shaped(x, z) && g < z.groups && c < z.cols
  {
    Mark(cf.flag4 && z.rows > 0 && Cand(x, z, cf, g, 0, c), cf.flags.jumpDet)
  }

  /** `row_above_gdq`: JUMP_DET above a candidate of the last row. */
  function AboveCell(x: Integration, z: Dims, cf: Config, g: nat, c: nat): Dq
    requires Shaped(x, z) && g < z.groups && c < z.cols
  {
    Mark(cf.flag4 && z.rows > 0 && Cand(x, z, cf, g, z.rows - 1, c), cf.flags.jumpDet)
  }

  // ----- what the detection promises -----

  /** Only JUMP_DET is ever added: every flag of the input stays set, and
      no other flag appears. */
  lemma FinalOnlyAddsJump(x: Integration, z: Dims, cf: Config, g: nat, r: nat, c: nat)
    requires Shaped(x, z) && g < z.groups && r < z.rows && c < z.cols
    ensures x.dq[g][r][c] <= FinalCell(x, z, cf, g, r, c) <= x.dq[g][r][c] + {cf.flags.jumpDet}
  {
  }

  /** The first group gets no jump from the write-back, and a pixel that is
      not selected gets none at all: only neighbours can flag them. */
  lemma WriteBackSkips(x: Integration, z: Dims, cf: Config, g: nat, r: nat, c: nat)
    requires Shaped(x, z) && g < z.groups && r < z.rows && c < z.cols
    ensures WbCell(x, z, cf, 0, r, c) == x.dq[0][r][c]
    ensures !Selected(PixelDiffs(x, z, cf.flags, r, c), PixelRatios(x, z, cf, r, c), cf.t) ==>
      WbCell(x, z, cf, g, r, c) == x.dq[g][r][c]
  {
  }

  /** On a selected pixel whose clipping completes, the difference with the
      largest initial ratio is written back as a jump into the group after
      it, jumps land only after usable differences, and at least one usable
      difference is left without one. */
  lemma SelectedPixelJumps(x: Integration, z: Dims, cf: Config, r: nat, c: nat)
    requires Shaped(x, z) && r < z.rows && c < z.cols
    requires Selected(PixelDiffs(x, z, cf.flags, r, c), PixelRatios(x, z, cf, r, c), cf.t)
    requires PixelMask(x, z, cf, r, c).Some?
    ensures var d := PixelDiffs(x, z, cf.flags, r, c);
      var i := NanArgMax(PixelRatios(x, z, cf, r, c)).value;
      && Has(WbCell(x, z, cf, i + 1, r, c), cf.flags.jumpDet)
      && (forall k :: 0 <= k < |d| && !MaskOf(x, z, cf, r, c)[k] ==> d[k].Some?)
      && (exists k :: 0 <= k < |d| && d[k].Some? && MaskOf(x, z, cf, r, c)[k])
  {
    var d := PixelDiffs(x, z, cf.flags, r, c);
    var rs := PixelRatios(x, z, cf, r, c);
    assert forall k :: 0 <= k < |rs| && rs[k].Some? ==> d[k].Some?;
    ClipMaskSpec(d, rs, LoopRatioFn(cf, x.readNoise[r][c]), cf.t);
  }

  /** A cell next to a candidate gets JUMP_DET when neighbour flagging is on. */
  lemma HitFlagged(x: Integration, z: Dims, cf: Config, g: nat, r: nat, c: nat)
    requires Shaped(x, z) && g < z.groups && r < z.rows && c < z.cols
    requires cf.flag4 && Hit(x, z, cf, g, r, c)
    ensures Has(FinalCell(x, z, cf, g, r, c), cf.flags.jumpDet)
  {
  }

  /** A candidate makes the cell in the row after it a hit. */
  lemma CandHitsRowAfter(x: Integration, z: Dims, cf: Config, g: nat, r: nat, c: nat)
    requires Shaped(x, z) && g < z.groups && r + 1 < z.rows && c < z.cols
    requires Cand(x, z, cf, g, r, c)
    ensures Hit(x, z, cf, g, r + 1, c)
  {
  }

  /** The cell in the row before a candidate's gets JUMP_DET when neighbour flagging is on. */
  lemma CandFlagsUp(x: Integration, z: Dims, cf: Config, g: nat, r: nat, c: nat)
    requires Shaped(x, z) && g < z.groups && r < z.rows && c < z.cols
    requires cf.flag4 && Cand(x, z, cf, g, r, c) && r > 0
    ensures Has(FinalCell(x, z, cf, g, r - 1, c), cf.flags.jumpDet)
  {
    var r' := r - 1;
    assert r' + 1 == r;
    HitFlagged(x, z, cf, g, r', c);
  }

  /** The cell in the row after a candidate's gets JUMP_DET when neighbour flagging is on. */
  lemma CandFlagsDown(x: Integration, z: Dims, cf: Config, g: nat, r: nat, c: nat)
    requires Shaped(x, z) && g < z.groups && r < z.rows && c < z.cols
    requires cf.flag4 && Cand(x, z, cf, g, r, c) && r + 1 < z.rows
    ensures Has(FinalCell(x, z, cf, g, r + 1, c), cf.flags.jumpDet)
  {
    CandHitsRowAfter(x, z, cf, g, r, c);
    HitFlagged(x, z, cf, g, r + 1, c);
  }

  /** The cell in the column before a candidate's gets JUMP_DET when neighbour flagging is on. */
  lemma CandFlagsLeft(x: Integration, z: Dims, cf: Config, g: nat, r: nat, c: nat)
    requires Shaped(x, z) && g < z.groups && r < z.rows && c < z.cols
    requires cf.flag4 && Cand(x, z, cf, g, r, c) && c > 0
    ensures Has(FinalCell(x, z, cf, g, r, c - 1), cf.flags.jumpDet)
  {
    var c' := c - 1;
    assert c' + 1 == c;
    HitFlagged(x, z, cf, g, r, c');
  }

  /** The cell in the column after a candidate's gets JUMP_DET when neighbour flagging is on. */
  lemma CandFlagsRight(x: Integration, z: Dims, cf: Config, g: nat, r: nat, c: nat)
    requires Shaped(x, z) && g < z.groups && r < z.rows && c < z.cols
    requires cf.flag4 && Cand(x, z, cf, g, r, c) && c + 1 < z.cols
    ensures Has(FinalCell(x, z, cf, g, r, c + 1), cf.flags.jumpDet)
  {
    var c' := c + 1;
    assert c' - 1 == c;
    HitFlagged(x, z, cf, g, r, c');
  }

  /** A candidate on the first or last row sets the column's entry of the
      row below or above, and these entries are set for nothing else. */
  lemma EdgeRows(x: Integration, z: Dims, cf: Config, g: nat, c: nat)
    requires Shaped(x, z) && g < z.groups && c < z.cols && z.rows > 0
    ensures BelowCell(x, z, cf, g, c) == (if cf.flag4 && Cand(x, z, cf, g, 0, c) then {cf.flags.jumpDet} else Clean)
    ensures AboveCell(x, z, cf, g, c) == (if cf.flag4 && Cand(x, z, cf, g, z.rows - 1, c) then {cf.flags.jumpDet} else Clean)
  {
  }

  /** Without neighbour flagging the result is the write-back alone and the
      extra rows stay zero. */
  lemma NoNeighbourFlags(x: Integration, z: Dims, cf: Config, g: nat, r: nat, c: nat)
    requires Shaped(x, z) && g < z.groups && r < z.rows && c < z.cols && !cf.flag4
    ensures FinalCell(x, z, cf, g, r, c) == WbCell(x, z, cf, g, r, c)
    ensures BelowCell(x, z, cf, g, c) == Clean && AboveCell(x, z, cf, g, c) == Clean
  {
  }

  /** A cell whose input and write-back lack JUMP_DET ends with it only
      when an in-grid neighbour is a candidate. */
  lemma NewJumpHasCause(x: Integration, z: Dims, cf: Config, g: nat, r: nat, c: nat)
    requires Shaped(x, z) && g < z.groups && r < z.rows && c < z.cols
    requires !Has(WbCell(x, z, cf, g, r, c), cf.flags.jumpDet)
    ensures Has(FinalCell(x, z, cf, g, r, c), cf.flags.jumpDet) <==> cf.flag4 && Hit(x, z, cf, g, r, c)
  {
  }
}

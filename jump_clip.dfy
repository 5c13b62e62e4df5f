/** The per-pixel cosmic-ray clipping loop of `find_crs`
    (jump/twopoint_difference.py): starting from the difference with the
    largest ratio, the worst remaining difference is marked as a jump and
    clipped until no ratio exceeds the threshold for the remaining number
    of usable differences, or at most two remain.

    The ratio of a difference to the pixel's noise (`|d - median| /
    sigma`, with `sigma` a square root of floating-point quantities) is a
    supplied function of the difference and the median. Inside the loop
    it can be +inf, which `nanargmax` prefers to every finite value. */
module JumpClip {
  import opened Common
  import opened JumpMedian

  /** `normal_rej_thresh`, `three_diff_rej_thresh`, `two_diff_rej_thresh`. */
  datatype Thresholds = Thresholds(normal: real, three: real, two: real)

  /** The threshold of the first detection by usable count: 4 or more use
      the normal one, 3 and 2 their own; a pixel with fewer is never
      selected. */
  function SelectThreshold(n: nat, t: Thresholds): (r: Option<real>)
    ensures r.None? <==> n < 2
  {
    if n >= 4 then Some(t.normal)
    else if n == 3 then Some(t.three)
    else if n == 2 then Some(t.two)
    else None
  }

  /** The threshold inside the clipping loop: the normal one unless exactly
      3 or 2 differences are usable. */
  function LoopThreshold(n: nat, t: Thresholds): real {
    if n == 3 then t.three else if n == 2 then t.two else t.normal
  }

  /** The two threshold choices agree whenever a pixel can be selected, and
      each is the one named for its usable count. */
  lemma ThresholdsAgree(n: nat, t: Thresholds)
    ensures n >= 2 ==> SelectThreshold(n, t) == Some(LoopThreshold(n, t))
    ensures n >= 4 ==> LoopThreshold(n, t) == t.normal
    ensures LoopThreshold(3, t) == t.three && LoopThreshold(2, t) == t.two
  {
  }

  /** The differences with every marked one made NaN
      (`pix_first_diffs[~pix_cr_mask] = np.nan`). */
  function ClipMasked(d: seq<Option<real>>, mask: seq<bool>): (r: seq<Option<real>>)
    requires |mask| == |d|
    ensures |r| == |d| && forall k :: 0 <= k < |d| ==> r[k] == (if mask[k] then d[k] else None)
  {
    seq(|d|, k requires 0 <= k < |d| => if mask[k] then d[k] else None)
  }

  /** The ratio of every difference, NaN where the difference or the
      median is NaN. */
  function Ratios<R>(d: seq<Option<real>>, med: Option<real>, ratio: (real, real) -> Option<R>): (r: seq<Option<R>>)
    ensures |r| == |d| && forall k :: 0 <= k < |d| && r[k].Some? ==> d[k].Some? && med.Some?
  {
    seq(|d|, k requires 0 <= k < |d| => if d[k].Some? && med.Some? then ratio(d[k].value, med.value) else None)
  }

  /** A ratio inside the clipping loop, where NaN is `None`: a finite
      value, or +inf (a difference off the median over a zero `sigma`). */
  datatype LoopRatio = Finite(value: real) | Infinite

  /** `ratio > rej_thresh`: +inf exceeds every threshold. */
  predicate Above(q: LoopRatio, th: real) {
    q.Infinite? || q.value > th
  }

  /** The first +inf entry, if any. */
  function FirstInf(rs: seq<Option<LoopRatio>>): (r: Option<nat>)
    ensures r.Some? ==> r.value < |rs| && rs[r.value] == Some(Infinite)
  {
    if rs == [] then None
    else
      var r0 := FirstInf(rs[..|rs| - 1]);
      if r0.Some? then r0 else if rs[|rs| - 1] == Some(Infinite) then Some(|rs| - 1) else None
  }

  lemma {:induction false} FirstInfSpec(rs: seq<Option<LoopRatio>>)
    ensures FirstInf(rs).None? <==> forall k :: 0 <= k < |rs| ==> rs[k] != Some(Infinite)
    ensures FirstInf(rs).Some? ==> forall k :: 0 <= k < FirstInf(rs).value ==> rs[k] != Some(Infinite)
  {
    if rs != [] {
      var init := rs[..|rs| - 1];
      FirstInfSpec(init);
      assert forall k :: 0 <= k < |init| ==> rs[k] == init[k];
    }
  }

  /** The finite entries, every other one NaN. */
  function FiniteParts(rs: seq<Option<LoopRatio>>): (r: seq<Option<real>>)
    ensures |r| == |rs|
    ensures forall k :: 0 <= k < |rs| ==> r[k] == (if rs[k].Some? && rs[k].value.Finite? then Some(rs[k].value.value) else None)
  {
    seq(|rs|, k requires 0 <= k < |rs| => if rs[k].Some? && rs[k].value.Finite? then Some(rs[k].value.value) else None)
  }

  /** `np.nanargmax` over the loop's ratios: the first +inf when there is
      one, otherwise the first largest finite ratio. None when every ratio
      is NaN (numpy's ValueError). */
  function LoopArgMax(rs: seq<Option<LoopRatio>>): (r: Option<nat>)
    ensures r.Some? ==> r.value < |rs| && rs[r.value].Some?
  {
    match FirstInf(rs)
    case Some(i) => Some(i)
    case None => NanArgMax(FiniteParts(rs))
  }

  /** `LoopArgMax` fails exactly when every ratio is NaN. Otherwise it
      finds a ratio no other ratio exceeds, and every earlier ratio is
      strictly below it. */
  lemma LoopArgMaxSpec(rs: seq<Option<LoopRatio>>)
    ensures LoopArgMax(rs).None? <==> forall k :: 0 <= k < |rs| ==> rs[k].None?
    ensures LoopArgMax(rs).Some? ==>
      var i := LoopArgMax(rs).value;
      && (forall k :: 0 <= k < |rs| && rs[k].Some? ==> rs[i].value.Infinite? || (rs[k].value.Finite? && rs[k].value.value <= rs[i].value.value))
      && (forall k :: 0 <= k < i && rs[k].Some? ==> rs[k].value.Finite? && (rs[i].value.Infinite? || rs[k].value.value < rs[i].value.value))
  {
    FirstInfSpec(rs);
    NanArgMaxSpec(FiniteParts(rs));
    if FirstInf(rs).None? {
      var fp := FiniteParts(rs);
      assert forall k :: 0 <= k < |rs| && rs[k].Some? ==> fp[k].Some?;
    }
  }

  /** Usable differences that are not marked. */
  function Live(d: seq<Option<real>>, mask: seq<bool>): (r: nat)
    requires |mask| == |d|
  {
    if d == [] then 0
    else Live(d[..|d| - 1], mask[..|d| - 1]) + (if d[|d| - 1].Some? && mask[|d| - 1] then 1 else 0)
  }

  /** The loop variables: `pix_first_diffs`, `pix_cr_mask` (false marks a
      jump) and `new_CR_found`. */
  datatype ClipState = ClipState(diffs: seq<Option<real>>, mask: seq<bool>, newCR: bool) {
    predicate Shaped() { |mask| == |diffs| }
  }

  /** One pass of the `while` body: clip the marks, recompute the median
      and the ratios, and mark the largest ratio when it exceeds the
      threshold for the usable count. None when every ratio is NaN
      (`nanargmax` raises). */
  function Step(s: ClipState, ratio: (real, real) -> Option<LoopRatio>, t: Thresholds): (r: Option<ClipState>)
    requires s.Shaped()
    ensures r.Some? ==> r.value.Shaped() && |r.value.diffs| == |s.diffs|
  {
    var d := ClipMasked(s.diffs, s.mask);
    var rs := Ratios(d, MedFirstDiffs(d), ratio);
    match LoopArgMax(rs)
    case None => None
    case Some(i) =>
      if Above(rs[i].value, LoopThreshold(Usable(d), t)) then Some(ClipState(d, s.mask[i := false], true))
      else Some(ClipState(d, s.mask, false))
  }

  /** The loop measure: unmarked usable differences, plus one while a new
      jump was just found. */
  function Measure(s: ClipState): nat
    requires s.Shaped()
  {
    Live(s.diffs, s.mask) + (if s.newCR then 1 else 0)
  }

  lemma {:induction false} LiveClip(d: seq<Option<real>>, mask: seq<bool>)
    requires |mask| == |d|
    ensures Live(ClipMasked(d, mask), mask) == Live(d, mask) == Usable(ClipMasked(d, mask))
  {
    if d != [] {
      var n := |d| - 1;
      LiveClip(d[..n], mask[..n]);
      assert ClipMasked(d, mask)[..n] == ClipMasked(d[..n], mask[..n]);
    }
  }

  lemma {:induction false} LiveMark(d: seq<Option<real>>, mask: seq<bool>, i: nat)
    requires |mask| == |d| && i < |d| && d[i].Some? && mask[i]
    ensures Live(d, mask[i := false]) + 1 == Live(d, mask)
  {
    var n := |d| - 1;
    if i < n {
      LiveMark(d[..n], mask[..n], i);
      assert mask[i := false][..n] == mask[..n][i := false];
    } else {
      assert mask[i := false][..n] == mask[..n];
    }
  }

  /** Each pass that finds a new jump marks exactly one usable difference
      that was not marked before; every other pass marks nothing. Either
      way the measure drops. */
  lemma StepMarksOne(s: ClipState, ratio: (real, real) -> Option<LoopRatio>, t: Thresholds)
    requires s.Shaped() && s.newCR && Step(s, ratio, t).Some?
    ensures var s' := Step(s, ratio, t).value;
      && s'.diffs == ClipMasked(s.diffs, s.mask)
      && (s'.newCR ==> exists i :: 0 <= i < |s.mask| && s.mask[i] && s.diffs[i].Some? && s'.mask == s.mask[i := false])
      && (!s'.newCR ==> s'.mask == s.mask)
      && Measure(s') < Measure(s)
  {
    var d := ClipMasked(s.diffs, s.mask);
    var rs := Ratios(d, MedFirstDiffs(d), ratio);
    var i := LoopArgMax(rs).value;
    LiveClip(s.diffs, s.mask);
    if Above(rs[i].value, LoopThreshold(Usable(d), t)) {
      LiveMark(d, s.mask, i);
    }
  }

  /** The `while` loop: repeat while a new jump was found and more than two
      differences are usable. None when a pass fails. */
  function ClipLoop(s: ClipState, ratio: (real, real) -> Option<LoopRatio>, t: Thresholds): (r: Option<ClipState>)
    requires s.Shaped()
    ensures r.Some? ==> r.value.Shaped() && |r.value.diffs| == |s.diffs|
    decreases Measure(s)
  {
    if s.newCR && Usable(s.diffs) > 2 then
      match Step(s, ratio, t)
      case None => None
      case Some(s') => StepMarksOne(s, ratio, t); ClipLoop(s', ratio, t)
    else Some(s)
  }

  function AllTrue(n: nat): (r: seq<bool>)
    ensures |r| == n && forall k :: 0 <= k < n ==> r[k]
  {
    seq(n, _ => true)
  }

  /** The state before the loop: the largest initial ratio marked
      (`pix_cr_mask[np.nanargmax(pix_ratio)] = 0`). None when every ratio
      is NaN. */
  function ClipStart(d: seq<Option<real>>, ratio0: seq<Option<real>>): (r: Option<ClipState>)
    requires |ratio0| == |d|
    ensures r.Some? ==> r.value.Shaped()
  {
    match NanArgMax(ratio0)
    case None => None
    case Some(i) => Some(ClipState(d, AllTrue(|d|)[i := false], true))
  }

  /** The jump mask one pixel ends with: false at each difference marked as
      a jump. None when the source raises. */
  function ClipMask(d: seq<Option<real>>, ratio0: seq<Option<real>>, ratio: (real, real) -> Option<LoopRatio>, t: Thresholds)
    : (r: Option<seq<bool>>)
    requires |ratio0| == |d|
    ensures r.Some? ==> |r.value| == |d|
  {
    match ClipStart(d, ratio0)
    case None => None
    case Some(s) =>
      match ClipLoop(s, ratio, t)
      case None => None
      case Some(e) => Some(e.mask)
  }

  // ----- what the loop promises -----

  /** Marks are never removed, and the differences are only ever clipped. */
  lemma {:induction false} ClipLoopGrows(s: ClipState, ratio: (real, real) -> Option<LoopRatio>, t: Thresholds)
    requires s.Shaped() && ClipLoop(s, ratio, t).Some?
    ensures var e := ClipLoop(s, ratio, t).value;
      && |e.mask| == |s.mask|
      && (forall k :: 0 <= k < |s.mask| && !s.mask[k] ==> !e.mask[k])
      && (forall k :: 0 <= k < |s.mask| && e.diffs[k].Some? ==> s.diffs[k].Some?)
      && (forall k :: 0 <= k < |s.mask| && !e.mask[k] && s.mask[k] ==> s.diffs[k].Some?)
    decreases Measure(s)
  {
    if s.newCR && Usable(s.diffs) > 2 {
      var s' := Step(s, ratio, t).value;
      StepMarksOne(s, ratio, t);
      ClipLoopGrows(s', ratio, t);
    }
  }

  /** The loop stops only when the last pass found no new jump or at most
      two differences are usable. */
  lemma {:induction false} ClipLoopStops(s: ClipState, ratio: (real, real) -> Option<LoopRatio>, t: Thresholds)
    requires s.Shaped() && ClipLoop(s, ratio, t).Some?
    ensures var e := ClipLoop(s, ratio, t).value; !e.newCR || Usable(e.diffs) <= 2
    decreases Measure(s)
  {
    if s.newCR && Usable(s.diffs) > 2 {
      StepMarksOne(s, ratio, t);
      ClipLoopStops(Step(s, ratio, t).value, ratio, t);
    }
  }

  /** The loop's counting invariant: at least one usable difference stays
      unmarked, and every usable difference not yet clipped is unmarked
      except the one just marked. */
  ghost predicate Counted(s: ClipState) {
    && s.Shaped()
    && Live(s.diffs, s.mask) >= 1
    && Live(s.diffs, s.mask) + (if s.newCR then 1 else 0) == Usable(s.diffs)
  }

  lemma StepCounted(s: ClipState, ratio: (real, real) -> Option<LoopRatio>, t: Thresholds)
    requires Counted(s) && s.newCR && Usable(s.diffs) > 2 && Step(s, ratio, t).Some?
    ensures Counted(Step(s, ratio, t).value)
  {
    var d := ClipMasked(s.diffs, s.mask);
    var rs := Ratios(d, MedFirstDiffs(d), ratio);
    var i := LoopArgMax(rs).value;
    LiveClip(s.diffs, s.mask);
    if Above(rs[i].value, LoopThreshold(Usable(d), t)) {
      LiveMark(d, s.mask, i);
    }
  }

  lemma {:induction false} ClipLoopCounted(s: ClipState, ratio: (real, real) -> Option<LoopRatio>, t: Thresholds)
    requires Counted(s) && ClipLoop(s, ratio, t).Some?
    ensures Counted(ClipLoop(s, ratio, t).value)
    decreases Measure(s)
  {
    if s.newCR && Usable(s.diffs) > 2 {
      StepMarksOne(s, ratio, t);
      StepCounted(s, ratio, t);
      ClipLoopCounted(Step(s, ratio, t).value, ratio, t);
    }
  }

  lemma {:induction false} LiveWitness(d: seq<Option<real>>, mask: seq<bool>)
    requires |mask| == |d| && Live(d, mask) >= 1
    ensures exists k :: 0 <= k < |d| && d[k].Some? && mask[k]
  {
    var n := |d| - 1;
    if !(d[n].Some? && mask[n]) {
      LiveWitness(d[..n], mask[..n]);
      var k :| 0 <= k < n && d[..n][k].Some? && mask[..n][k];
      assert d[k] == d[..n][k];
    }
  }

  lemma {:induction false} LiveStart(d: seq<Option<real>>, i: nat)
    requires i < |d| && d[i].Some?
    ensures Live(d, AllTrue(|d|)[i := false]) + 1 == Usable(d)
  {
    LiveMark(d, AllTrue(|d|), i);
    LiveAll(d);
  }

  lemma {:induction false} LiveAll(d: seq<Option<real>>)
    ensures Live(d, AllTrue(|d|)) == Usable(d)
  {
    if d != [] {
      var n := |d| - 1;
      LiveAll(d[..n]);
      assert AllTrue(|d|)[..n] == AllTrue(n);
    }
  }

  /** What the clipping of one selected pixel promises: the difference with
      the largest initial ratio is marked; every mark is on a usable
      difference; and at least one usable difference is never marked. */
  lemma ClipMaskSpec(d: seq<Option<real>>, ratio0: seq<Option<real>>, ratio: (real, real) -> Option<LoopRatio>, t: Thresholds)
    requires |ratio0| == |d| && Usable(d) >= 2
    requires forall k :: 0 <= k < |d| && ratio0[k].Some? ==> d[k].Some?
    requires ClipMask(d, ratio0, ratio, t).Some?
    ensures var m := ClipMask(d, ratio0, ratio, t).value;
      && NanArgMax(ratio0).Some? && !m[NanArgMax(ratio0).value]
      && (forall k :: 0 <= k < |d| && !m[k] ==> d[k].Some?)
      && (exists k :: 0 <= k < |d| && d[k].Some? && m[k])
  {
    var i0 := NanArgMax(ratio0).value;
    var s := ClipStart(d, ratio0).value;
    LiveStart(d, i0);
    ClipLoopGrows(s, ratio, t);
    ClipLoopCounted(s, ratio, t);
    var e := ClipLoop(s, ratio, t).value;
    LiveWitness(e.diffs, e.mask);
  }

  /** A pixel with at most two usable differences gets only its first mark:
      the loop body never runs. */
  lemma ClipFewDiffs(d: seq<Option<real>>, ratio0: seq<Option<real>>, ratio: (real, real) -> Option<LoopRatio>, t: Thresholds)
    requires |ratio0| == |d| && Usable(d) <= 2 && NanArgMax(ratio0).Some?
    ensures ClipMask(d, ratio0, ratio, t) == Some(AllTrue(|d|)[NanArgMax(ratio0).value := false])
  {
  }

  // ----- the loop as written -----

  /** The clipping of one selected pixel, as the `while` loop of
      `find_crs`. `ok` is false when `nanargmax` meets only NaN ratios. */
  method ClipPixel(d: seq<Option<real>>, ratio0: seq<Option<real>>, ratio: (real, real) -> Option<LoopRatio>, t: Thresholds)
    returns (ok: bool, mask: seq<bool>)
    requires |ratio0| == |d|
    ensures ok <==> ClipMask(d, ratio0, ratio, t).Some?
    ensures ok ==> mask == ClipMask(d, ratio0, ratio, t).value
  {
    var first := NanArgMax(ratio0);
    if first.None? {
      return false, [];
    }
    mask := AllTrue(|d|)[first.value := false];
    var diffs := d;
    var newCR := true;
    ghost var start := ClipState(diffs, mask, newCR);
    while newCR && Usable(diffs) > 2
      invariant |mask| == |diffs| == |d|
      invariant ClipLoop(ClipState(diffs, mask, newCR), ratio, t) == ClipLoop(start, ratio, t)
      decreases Measure(ClipState(diffs, mask, newCR))
    {
      ghost var cur := ClipState(diffs, mask, newCR);
      newCR := false;
      diffs := ClipMasked(diffs, mask);
      var med := MedFirstDiffs(diffs);
      var rs := Ratios(diffs, med, ratio);
      var idx := LoopArgMax(rs);
      if idx.None? {
        return false, mask;
      }
      StepMarksOne(cur, ratio, t);
      if Above(rs[idx.value].value, LoopThreshold(Usable(diffs), t)) {
        newCR := true;
        mask := mask[idx.value := false];
      }
    }
    ok := true;
  }
}

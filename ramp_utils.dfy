/** Two small helpers of ramp_fitting/utils.py: the number of slices for
    multiprocessing (`compute_slices`) and the shift of a cube along its
    group axis (`shift_z`). */
module RampUtils {
  import opened Common

  /** `compute_slices(max_cores)`, with the machine's core count (from
      `multiprocessing.cpu_count()`) passed in as `numCores`. */
  function ComputeSlices(maxCores: string, numCores: nat): (r: nat)
    requires numCores >= 1
    ensures 1 <= r <= numCores
  {
    if maxCores == "none" then 1
    else if maxCores == "quarter" then (if numCores / 4 == 0 then 1 else numCores / 4)
    else if maxCores == "half" then (if numCores / 2 == 0 then 1 else numCores / 2)
    else if maxCores == "all" then numCores
    else 1
  }

  /** The slice count for each setting: one slice unless multiprocessing is
      asked for, a quarter or half of the cores (at least one), or all of
      them; an unrecognised setting falls back to one slice. */
  lemma ComputeSlicesCases(numCores: nat)
    requires numCores >= 1
    ensures ComputeSlices("none", numCores) == 1
    ensures ComputeSlices("quarter", numCores) == Max(numCores / 4, 1)
    ensures ComputeSlices("half", numCores) == Max(numCores / 2, 1)
    ensures ComputeSlices("all", numCores) == numCores
    ensures forall s :: s !in {"none", "quarter", "half", "all"} ==> ComputeSlices(s, numCores) == 1
  {
  }

  /** A larger fraction of the cores never gives fewer slices, and every
      setting gives no more slices when the machine has fewer cores. */
  lemma ComputeSlicesMonotone(s: string, n: nat, m: nat)
    requires 1 <= n <= m
    ensures ComputeSlices("none", n) <= ComputeSlices("quarter", n) <= ComputeSlices("half", n) <= ComputeSlices("all", n)
    ensures ComputeSlices(s, n) <= ComputeSlices(s, m)
  {
  }

  /** numpy's normalisation of a slice bound `i` for an axis of length `n`:
      a negative bound counts from the end, and the result is clipped to
      `0 .. n`. */
  function NormSlice(i: int, n: nat): (r: nat)
    ensures r <= n
    ensures 0 <= i <= n ==> r == i
    ensures i > n ==> r == n
    ensures i < 0 ==> r == Max(i + n, 0)
  {
    if i < 0 then (if i + n < 0 then 0 else i + n) else if i > n then n else i
  }

  /** numpy slice assignment `b[lo:hi] = src` along the first axis. A
      source of the slice's length is copied in; a source of length 1 is
      broadcast over the whole slice, however long (an empty slice
      included). Any other source makes numpy raise ValueError (`None`). */
  function SliceAssign<T>(b: seq<T>, lo: int, hi: int, src: seq<T>): (r: Option<seq<T>>)
    ensures r.Some? <==> |src| == 1 || |src| == SliceLen(lo, hi, |b|)
    ensures r.Some? ==> |r.value| == |b|
    ensures r.Some? ==> forall i :: 0 <= i < |b| ==>
      r.value[i] == (if NormSlice(lo, |b|) <= i < NormSlice(lo, |b|) + SliceLen(lo, hi, |b|)
                     then (if |src| == 1 then src[0] else src[i - NormSlice(lo, |b|)]) else b[i])
  {
    var l := NormSlice(lo, |b|);
    var len := SliceLen(lo, hi, |b|);
    if |src| == len then Some(b[..l] + src + b[l + len..])
    else if |src| == 1 then Some(b[..l] + seq(len, _ => src[0]) + b[l + len..])
    else None
  }

  /** The number of entries `b[lo:hi]` selects in an axis of length `n`. */
  function SliceLen(lo: int, hi: int, n: nat): (r: nat)
    ensures NormSlice(lo, n) + r <= n
  {
    var l := NormSlice(lo, n);
    var h := NormSlice(hi, n);
    if h < l then 0 else h - l
  }

  /** numpy slice read `a[lo:hi]` along the first axis. */
  function SliceRead<T>(a: seq<T>, lo: int, hi: int): (r: seq<T>)
  {
    var l := NormSlice(lo, |a|);
    var h := NormSlice(hi, |a|);
    if h < l then [] else a[l..h]
  }

  /** `shift_z(a, off)`: a cube of the same length along the group axis,
      the groups of `a` moved by `off` (entry `i` of the result takes entry
      `i + off` of `a`), padded with `zero`. The index arithmetic is the
      source's, numpy slicing included. */
  function ShiftZ<T>(a: seq<T>, off: int, zero: T): (r: Option<seq<T>>)
    ensures r.Some? ==> |r.value| == |a|
  {
    var n := |a|;
    var absOff := if off < 0 then -off else off;
    var aiZ := (absOff + off) / 2;
    var afZ := n + (off - absOff) / 2;
    var biZ := n - afZ;
    var bfZ := n - aiZ;
    SliceAssign(seq(n, _ => zero), biZ, bfZ, SliceRead(a, aiZ, afZ))
  }

  /** `r` is `a` with every group moved by `off`: entry `i` takes entry
      `i + off` of `a`, or `zero` when that lies outside. */
  ghost predicate ShiftedBy<T>(a: seq<T>, r: seq<T>, off: int, zero: T) {
    |r| == |a| && forall i :: 0 <= i < |a| ==> r[i] == (if 0 <= i + off < |a| then a[i + off] else zero)
  }

  /** A shift by at most the cube's length moves every group by `off` and
      pads the groups that come from outside the cube with `zero`. */
  lemma ShiftZInRange<T>(a: seq<T>, off: int, zero: T)
    requires -|a| <= off <= |a|
    ensures ShiftZ(a, off, zero).Some?
    ensures ShiftedBy(a, ShiftZ(a, off, zero).value, off, zero)
  {
    if off >= 0 {
      ShiftZUp(a, off, zero);
    } else {
      ShiftZDown(a, off, zero);
    }
  }

  lemma ShiftZUp<T>(a: seq<T>, off: int, zero: T)
    requires 0 <= off <= |a|
    ensures ShiftZ(a, off, zero) == Some(a[off..] + seq(off, _ => zero))
  {
    var n := |a|;
    var z := seq(n, _ => zero);
    assert (off + off) / 2 == off && n + (off - off) / 2 == n;
    assert SliceRead(a, off, n) == a[off..];
    assert SliceAssign(z, 0, n - off, a[off..]) == Some(z[..0] + a[off..] + z[n - off..]);
    assert z[..0] + a[off..] + z[n - off..] == a[off..] + seq(off, _ => zero);
  }

  lemma ShiftZDown<T>(a: seq<T>, off: int, zero: T)
    requires -|a| <= off < 0
    ensures ShiftZ(a, off, zero) == Some(seq(-off, _ => zero) + a[..|a| + off])
  {
    var n := |a|;
    var z := seq(n, _ => zero);
    assert (-off + off) / 2 == 0 && n + (off - -off) / 2 == n + off;
    assert SliceRead(a, 0, n + off) == a[..n + off];
    assert SliceAssign(z, -off, n, a[..n + off]) == Some(z[..-off] + a[..n + off] + z[n..]);
    assert z[..-off] + a[..n + off] + z[n..] == seq(-off, _ => zero) + a[..n + off];
  }

  /** A shift by at least twice the cube's length leaves only padding. */
  lemma ShiftZFar<T>(a: seq<T>, off: int, zero: T)
    requires off >= 2 * |a| || off <= -2 * |a|
    ensures ShiftZ(a, off, zero) == Some(seq(|a|, _ => zero))
  {
    var n := |a|;
    if off >= 0 {
      assert seq(n, _ => zero)[..0] + [] + seq(n, _ => zero)[0..] == seq(n, _ => zero);
    } else {
      assert seq(n, _ => zero)[..n] + [] + seq(n, _ => zero)[n..] == seq(n, _ => zero);
    }
  }

  /** A shift by more than the cube's length but less than twice it makes
      the slice assignment fail: the source slice's length is neither 1 nor
      the target slice's length. The one exception is `off == 1 - 2 * |a|`
      (see `ShiftZBroadcast`), where the source slice holds one group and
      the target slice is empty. */
  lemma ShiftZFails<T>(a: seq<T>, off: int, zero: T)
    requires |a| < off < 2 * |a| || (-2 * |a| < off < -|a| && off != 1 - 2 * |a|)
    ensures ShiftZ(a, off, zero).None?
  {
  }

  /** At `off == 1 - 2 * |a|` (with at least two groups) the source slice
      `a[0:1-n]` holds one group and the target slice is empty; numpy
      broadcasts the one group into nothing, so `shift_z` returns the
      zero cube. */
  lemma ShiftZBroadcast<T>(a: seq<T>, zero: T)
    requires |a| >= 2
    ensures ShiftZ(a, 1 - 2 * |a|, zero) == Some(seq(|a|, _ => zero))
  {
    var n := |a|;
    var z := seq(n, _ => zero);
    assert SliceRead(a, 0, 1 - n) == a[0..1];
    assert SliceLen(2 * n - 1, n, n) == 0;
    assert z[..n] + seq(0, _ => a[0]) + z[n..] == z;
  }

  /** `shift_z` fails for exactly the offsets whose size lies strictly
      between the cube's length and twice that length, save `1 - 2 * |a|`. */
  lemma ShiftZDefined<T>(a: seq<T>, off: int, zero: T)
    ensures ShiftZ(a, off, zero).None? <==>
      (|a| < off < 2 * |a| || (-2 * |a| < off < -|a| && off != 1 - 2 * |a|))
  {
    if -|a| <= off <= |a| {
      ShiftZInRange(a, off, zero);
    } else if off >= 2 * |a| || off <= -2 * |a| {
      ShiftZFar(a, off, zero);
    } else if off == 1 - 2 * |a| {
      ShiftZBroadcast(a, zero);
    } else {
      ShiftZFails(a, off, zero);
    }
  }

  /** Moving by `off` and then by `-off` restores the groups that stayed
      inside on the way. */
  lemma ShiftedTwice<T>(a: seq<T>, b: seq<T>, c: seq<T>, off: int, zero: T)
    requires ShiftedBy(a, b, off, zero) && ShiftedBy(b, c, -off, zero)
    ensures forall i :: 0 <= i < |a| && 0 <= i - off < |a| ==> c[i] == a[i]
  {
    forall i | 0 <= i < |a| && 0 <= i - off < |a|
      ensures c[i] == a[i]
    {
      assert c[i] == b[i + -off];
      assert b[i + -off] == a[i + -off + off];
    }
  }

  /** Shifting back by `-off` a cube that is `a` shifted by `off` (as
      `ShiftZInRange` shows `ShiftZ(a, off, zero)` to be) restores every
      group that stayed inside the cube on the way out and back. */
  lemma ShiftZBack<T>(a: seq<T>, b: seq<T>, off: int, zero: T)
    requires -|a| <= off <= |a| && ShiftedBy(a, b, off, zero)
    ensures ShiftZ(b, -off, zero).Some?
    ensures forall i :: 0 <= i < |a| && 0 <= i - off < |a| ==> ShiftZ(b, -off, zero).value[i] == a[i]
  {
    ShiftZInRange(b, -off, zero);
    ShiftedTwice(a, b, ShiftZ(b, -off, zero).value, off, zero);
  }
}

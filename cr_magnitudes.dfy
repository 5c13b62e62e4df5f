/** The optional-results object of ramp fitting and its compression of
    cosmic-ray magnitudes (`OptRes.shrink_crmag` in ramp_fitting/utils.py).

    Cubes are pixel-major: `mags[i][p]` is the column of per-read
    magnitudes of pixel `p` in integration `i`, and `dq[i][p]` the column
    of its group DQ words. */
module CrMagnitudes {
  import opened Common

  /** The positive entries of a column, in order. */
  function Positives(col: seq<real>): (r: seq<real>)
    ensures |r| <= |col|
  {
    if col == [] then [] else Positives(col[..|col| - 1]) + (if col[|col| - 1] > 0.0 then [col[|col| - 1]] else [])
  }

  /** Every kept magnitude is positive, and every positive magnitude is
      kept: their number is the number of positive reads. */
  lemma {:induction false} PositivesExact(col: seq<real>)
    ensures forall k :: 0 <= k < |Positives(col)| ==> Positives(col)[k] > 0.0
    ensures |Positives(col)| == |set k | 0 <= k < |col| && col[k] > 0.0|
  {
    if col != [] {
      var init := col[..|col| - 1];
      PositivesExact(init);
      var n := |col| - 1;
      var a := set k | 0 <= k < n && init[k] > 0.0;
      var b := set k | 0 <= k < |col| && col[k] > 0.0;
      if col[n] > 0.0 {
        assert b == a + {n};
      } else {
        assert b == a;
      }
    }
  }

  function RealSum(col: seq<real>): real {
    if col == [] then 0.0 else RealSum(col[..|col| - 1]) + col[|col| - 1]
  }

  /** A pixel "has a cosmic ray" in an integration when its magnitudes do
      not sum to zero; only such pixels are packed. */
  predicate HasCr(col: seq<real>) {
    RealSum(col) != 0.0
  }

  /** The magnitudes the packing keeps for one pixel. */
  function Packed(col: seq<real>): (r: seq<real>)
    ensures |r| <= |col|
  {
    if HasCr(col) then Positives(col) else []
  }

  /** The packing of the first `k` reads of one pixel. */
  function PackedUpTo(col: seq<real>, k: nat): (r: seq<real>)
    requires k <= |col|
    ensures |r| <= k
  {
    if HasCr(col) then Positives(col[..k]) else []
  }

  function ZerosR(n: nat): (z: seq<real>)
    ensures |z| == n && forall k :: 0 <= k < n ==> z[k] == 0.0
  {
    seq(n, _ => 0.0)
  }

  /** `s` followed by zeros up to depth `d`. */
  function PadTo(s: seq<real>, d: nat): (r: seq<real>)
    requires |s| <= d
    ensures |r| == d && r[..|s|] == s
    ensures forall k :: |s| <= k < d ==> r[k] == 0.0
  {
    s + ZerosR(d - |s|)
  }

  /** Number of groups of a pixel flagged with the jump bit. */
  function JumpCount(groups: seq<Dq>, jump: nat): (r: nat)
    ensures r <= |groups|
  {
    if groups == [] then 0 else JumpCount(groups[..|groups| - 1], jump) + (if Has(groups[|groups| - 1], jump) then 1 else 0)
  }

  /** Largest entry (0 for an empty sequence). */
  function MaxOf(s: seq<nat>): (r: nat)
    ensures forall k :: 0 <= k < |s| ==> s[k] <= r
    ensures s != [] ==> exists k :: 0 <= k < |s| && s[k] == r
    ensures s == [] ==> r == 0
  {
    if s == [] then 0 else Max(MaxOf(s[..|s| - 1]), s[|s| - 1])
  }

  /** Jump-flagged groups of every pixel of one integration. */
  function JumpCounts(cube: seq<seq<Dq>>, jump: nat): (r: seq<nat>)
    ensures |r| == |cube| && forall p :: 0 <= p < |cube| ==> r[p] == JumpCount(cube[p], jump)
  {
    seq(|cube|, p requires 0 <= p < |cube| => JumpCount(cube[p], jump))
  }

  /** Most jump-flagged groups of any pixel of one integration. */
  function IntJumps(cube: seq<seq<Dq>>, jump: nat): nat {
    MaxOf(JumpCounts(cube, jump))
  }

  /** Most jump-flagged groups of any pixel of the first `n` integrations. */
  function MaxJumps(dq: seq<seq<seq<Dq>>>, n: nat, jump: nat): nat
    requires n <= |dq|
  {
    if n == 0 then 0 else Max(MaxJumps(dq, n - 1, jump), IntJumps(dq[n - 1], jump))
  }

  /** Number of packed magnitudes of every pixel of one integration. */
  function PackedCounts(cols: seq<seq<real>>): (r: seq<nat>)
    ensures |r| == |cols| && forall p :: 0 <= p < |cols| ==> r[p] == |Packed(cols[p])|
  {
    seq(|cols|, p requires 0 <= p < |cols| => |Packed(cols[p])|)
  }

  /** Most packed magnitudes of any pixel of one integration. */
  function Depth(cols: seq<seq<real>>): nat {
    MaxOf(PackedCounts(cols))
  }

  /** The number of packed magnitudes of every pixel of every integration. */
  function AllCounts(mags: seq<seq<seq<real>>>): (r: seq<seq<nat>>)
    ensures |r| == |mags| && forall i :: 0 <= i < |mags| ==> r[i] == PackedCounts(mags[i])
  {
    seq(|mags|, i requires 0 <= i < |mags| => PackedCounts(mags[i]))
  }

  /** Largest count of the first `n` integrations. */
  function DepthAll(cnts: seq<seq<nat>>, n: nat): nat
    requires n <= |cnts|
  {
    if n == 0 then 0 else Max(DepthAll(cnts, n - 1), MaxOf(cnts[n - 1]))
  }

  lemma {:induction false} DepthAllBound(cnts: seq<seq<nat>>, n: nat, i: nat, p: nat)
    requires n <= |cnts| && i < n && p < |cnts[i]|
    ensures cnts[i][p] <= DepthAll(cnts, n)
  {
    if i < n - 1 {
      DepthAllBound(cnts, n - 1, i, p);
    }
  }

  /** Every integration has `npix` pixels of `nreads` values each. */
  predicate MagShape(mags: seq<seq<seq<real>>>, npix: nat, nreads: nat) {
    forall i :: 0 <= i < |mags| ==> |mags[i]| == npix && forall p :: 0 <= p < npix ==> |mags[i][p]| == nreads
  }

  predicate DqShape(dq: seq<seq<seq<Dq>>>, npix: nat) {
    forall i :: 0 <= i < |dq| ==> |dq[i]| == npix
  }

  /** No pixel of any integration has more packed magnitudes than `maxCr`. */
  predicate Fits(mags: seq<seq<seq<real>>>, maxCr: nat) {
    forall i, p :: 0 <= i < |mags| && 0 <= p < |mags[i]| ==> |Packed(mags[i][p])| <= maxCr
  }

  /** `nInt` integrations of `npix` pixels, each a single zero. */
  function ZeroCube(nInt: nat, npix: nat): (r: seq<seq<seq<real>>>)
    ensures |r| == nInt && forall i :: 0 <= i < nInt ==> |r[i]| == npix && forall p :: 0 <= p < npix ==> r[i][p] == [0.0]
  {
    seq(nInt, _ => seq(npix, _ => [0.0]))
  }

  /** `shrink_crmag` as written, on values. It fails (`None`) when the
      source raises: no integration (the last integration's counts are then
      unbound), no pixel (the maximum of an empty image), or a pixel with
      more positive magnitudes than the most jump-flagged groups of any
      pixel (an index past the compressed array's depth). Otherwise every
      pixel's packed magnitudes are cut to the depth reached in the LAST
      integration; when that depth is 0 the result is a single plane of
      zeros. */
  function ShrinkAsWritten(mags: seq<seq<seq<real>>>, dq: seq<seq<seq<Dq>>>, npix: nat, jump: nat)
    : (r: Option<seq<seq<seq<real>>>>)
    requires |dq| == |mags| && forall i :: 0 <= i < |mags| ==> |mags[i]| == npix
  {
    var maxCr := MaxJumps(dq, |dq|, jump);
    if |mags| == 0 || npix == 0 || !Fits(mags, maxCr) then None
    else
      var d := Depth(mags[|mags| - 1]);
      if d == 0 then Some(ZeroCube(|mags|, npix))
      else Some(seq(|mags|, i requires 0 <= i < |mags| =>
             seq(npix, p requires 0 <= p < npix => PadTo(Packed(mags[i][p]), maxCr)[..d])))
  }

  /** `shrink_crmag` as intended: the depth is the most packed magnitudes
      of any pixel in ANY integration, so every pixel keeps all of them. */
  function ShrinkIntended(mags: seq<seq<seq<real>>>, dq: seq<seq<seq<Dq>>>, npix: nat, jump: nat)
    : (r: Option<seq<seq<seq<real>>>>)
    requires |dq| == |mags| && forall i :: 0 <= i < |mags| ==> |mags[i]| == npix
  {
    var maxCr := MaxJumps(dq, |dq|, jump);
    if |mags| == 0 || npix == 0 || !Fits(mags, maxCr) then None
    else
      var cnts := AllCounts(mags);
      var d := Max(DepthAll(cnts, |mags|), 1);
      Some(seq(|mags|, i requires 0 <= i < |mags| =>
        seq(npix, p requires 0 <= p < npix =>
          (assert cnts[i][p] == |Packed(mags[i][p])|; DepthAllBound(cnts, |mags|, i, p); PadTo(Packed(mags[i][p]), d)))))
  }

  lemma {:induction false} DepthAllWitness(cnts: seq<seq<nat>>, n: nat)
    requires n <= |cnts| && DepthAll(cnts, n) > 0
    ensures exists i, p :: 0 <= i < n && 0 <= p < |cnts[i]| && cnts[i][p] == DepthAll(cnts, n)
  {
    if DepthAll(cnts, n - 1) < MaxOf(cnts[n - 1]) {
      var p :| 0 <= p < |cnts[n - 1]| && cnts[n - 1][p] == MaxOf(cnts[n - 1]);
      assert cnts[n - 1][p] == DepthAll(cnts, n);
    } else {
      DepthAllWitness(cnts, n - 1);
      var i, p :| 0 <= i < n - 1 && 0 <= p < |cnts[i]| && cnts[i][p] == DepthAll(cnts, n - 1);
      assert cnts[i][p] == DepthAll(cnts, n);
    }
  }

  /** The intended compression fails exactly where the source raises. */
  lemma ShrinkIntendedFails(mags: seq<seq<seq<real>>>, dq: seq<seq<seq<Dq>>>, npix: nat, jump: nat)
    requires |dq| == |mags| && forall i :: 0 <= i < |mags| ==> |mags[i]| == npix
    ensures ShrinkIntended(mags, dq, npix, jump).None? <==>
      |mags| == 0 || npix == 0 || exists i, p :: 0 <= i < |mags| && 0 <= p < npix && |Packed(mags[i][p])| > MaxJumps(dq, |dq|, jump)
  {
  }

  /** The intended compression keeps every packed magnitude of every pixel
      of every integration, in read order and followed only by zeros. */
  lemma ShrinkIntendedKeepsAll(mags: seq<seq<seq<real>>>, dq: seq<seq<seq<Dq>>>, npix: nat, jump: nat, i: nat, p: nat)
    requires |dq| == |mags| && forall j :: 0 <= j < |mags| ==> |mags[j]| == npix
    requires ShrinkIntended(mags, dq, npix, jump).Some? && i < |mags| && p < npix
    ensures var r := ShrinkIntended(mags, dq, npix, jump).value;
      var col := Packed(mags[i][p]);
      && |r| == |mags| && |r[i]| == npix && |col| <= |r[i][p]|
      && r[i][p][..|col|] == col
      && forall k :: |col| <= k < |r[i][p]| ==> r[i][p][k] == 0.0
  {
  }

  /** Every pixel of the intended compression is padded to the same depth:
      the largest count of positive magnitudes, and at least 1. */
  lemma ShrinkIntendedUniform(mags: seq<seq<seq<real>>>, dq: seq<seq<seq<Dq>>>, npix: nat, jump: nat)
    requires |dq| == |mags| && forall j :: 0 <= j < |mags| ==> |mags[j]| == npix
    requires ShrinkIntended(mags, dq, npix, jump).Some?
    ensures var r := ShrinkIntended(mags, dq, npix, jump).value;
      forall i, p :: 0 <= i < |mags| && 0 <= p < npix ==> |r[i][p]| == Max(DepthAll(AllCounts(mags), |mags|), 1)
  {
  }

  /** The depth of the intended compression is no larger than needed:
      either 1, or filled by some pixel. */
  lemma ShrinkIntendedTight(mags: seq<seq<seq<real>>>, dq: seq<seq<seq<Dq>>>, npix: nat, jump: nat)
    requires |dq| == |mags| && forall j :: 0 <= j < |mags| ==> |mags[j]| == npix
    requires ShrinkIntended(mags, dq, npix, jump).Some?
    ensures var d := Max(DepthAll(AllCounts(mags), |mags|), 1);
      d == 1 || exists i, p :: 0 <= i < |mags| && 0 <= p < npix && |Packed(mags[i][p])| == d
  {
    var cnts := AllCounts(mags);
    if DepthAll(cnts, |mags|) > 0 {
      DepthAllWitness(cnts, |mags|);
      var i, p :| 0 <= i < |mags| && 0 <= p < |cnts[i]| && cnts[i][p] == DepthAll(cnts, |mags|);
      assert cnts[i][p] == |Packed(mags[i][p])|;
    }
  }

  /** One pixel, two reads, two integrations: the first has jumps of 5
      and 7 flagged in both groups, the second nothing. */
  const ExampleMags: seq<seq<seq<real>>> := [[[5.0, 7.0]], [[0.0, 0.0]]]
  const ExampleDq: seq<seq<seq<Dq>>> := [[[{2}, {2}]], [[Clean, Clean]]]

  lemma ExamplePacked()
    ensures Packed(ExampleMags[0][0]) == [5.0, 7.0] && Packed(ExampleMags[1][0]) == []
  {
    var c0, c1 := [5.0, 7.0], [0.0, 0.0];
    assert c0[..1] == [5.0] && [5.0][..0] == [] && c1[..1] == [0.0] && [0.0][..0] == [];
    assert RealSum(c0) == 12.0 && RealSum(c1) == 0.0;
    assert Positives(c0) == [5.0, 7.0];
  }

  lemma ExampleJumps()
    ensures MaxJumps(ExampleDq, 2, 2) == 2
  {
    var g: seq<Dq> := [{2}, {2}];
    assert g[..1] == [{2}] && [{2}][..0] == [];
    assert JumpCount(g, 2) == 2;
    var h: seq<Dq> := [Clean, Clean];
    assert h[..1] == [Clean] && [Clean][..0] == [];
    assert JumpCount(h, 2) == 0;
    assert JumpCounts(ExampleDq[0], 2) == [2] && [2][..0] == [];
    assert JumpCounts(ExampleDq[1], 2) == [0] && [0][..0] == [];
    assert IntJumps(ExampleDq[0], 2) == 2;
    assert IntJumps(ExampleDq[1], 2) == 0;
    assert MaxJumps(ExampleDq, 1, 2) == 2;
  }

  lemma ExampleCounts()
    ensures AllCounts(ExampleMags) == [[2], [0]]
    ensures Fits(ExampleMags, 2)
  {
    ExamplePacked();
    assert PackedCounts(ExampleMags[0]) == [2];
    assert PackedCounts(ExampleMags[1]) == [0];
  }

  /** Cutting to the last integration's depth loses magnitudes: on the
      example, both integrations end, as written, as a single plane of
      zeros. */
  lemma LastIntegrationLosesMagnitudes()
    ensures ShrinkAsWritten(ExampleMags, ExampleDq, 1, 2) == Some([[[0.0]], [[0.0]]])
  {
    ExampleJumps();
    ExampleCounts();
    assert [0][..0] == [];
    assert Depth(ExampleMags[1]) == 0;
    var z := ZeroCube(2, 1);
    assert z[0] == [[0.0]] && z[1] == [[0.0]];
    assert z == [[[0.0]], [[0.0]]];
  }

  /** On the same example the intended compression keeps both magnitudes
      of the first integration. */
  lemma IntendedKeepsExample()
    ensures ShrinkIntended(ExampleMags, ExampleDq, 1, 2) == Some([[[5.0, 7.0]], [[0.0, 0.0]]])
  {
    ExampleJumps();
    ExampleCounts();
    ExamplePacked();
    assert [2][..0] == [] && [0][..0] == [];
    assert DepthAll([[2], [0]], 1) == 2;
    assert DepthAll([[2], [0]], 2) == 2;
    assert PadTo([5.0, 7.0], 2) == [5.0, 7.0];
    assert PadTo([], 2) == [0.0, 0.0];
    var r := ShrinkIntended(ExampleMags, ExampleDq, 1, 2).value;
    assert r[0][0] == [5.0, 7.0] && r[1][0] == [0.0, 0.0];
    assert r[0] == [[5.0, 7.0]] && r[1] == [[0.0, 0.0]];
    assert |r| == 2;
    assert r == [[[5.0, 7.0]], [[0.0, 0.0]]];
  }

  lemma PadCut(s: seq<real>, d: nat, e: nat)
    requires |s| <= d <= e
    ensures PadTo(s, e)[..d] == PadTo(s, d)
  {
    assert forall k :: 0 <= k < d ==> PadTo(s, e)[k] == PadTo(s, d)[k];
  }

  lemma AgreePixel(mags: seq<seq<seq<real>>>, dq: seq<seq<seq<Dq>>>, npix: nat, jump: nat, i: nat, p: nat)
    requires |dq| == |mags| && forall j :: 0 <= j < |mags| ==> |mags[j]| == npix
    requires |mags| > 0 && Depth(mags[|mags| - 1]) == DepthAll(AllCounts(mags), |mags|)
    requires npix > 0 && Fits(mags, MaxJumps(dq, |dq|, jump)) && i < |mags| && p < npix
    ensures ShrinkAsWritten(mags, dq, npix, jump).value[i][p] == ShrinkIntended(mags, dq, npix, jump).value[i][p]
  {
    var maxCr := MaxJumps(dq, |dq|, jump);
    var cnts := AllCounts(mags);
    var d := Depth(mags[|mags| - 1]);
    assert cnts[i][p] == |Packed(mags[i][p])|;
    DepthAllBound(cnts, |mags|, i, p);
    if d == 0 {
      assert Packed(mags[i][p]) == [];
      assert PadTo([], 1) == [0.0];
    } else {
      var q :| 0 <= q < npix && PackedCounts(mags[|mags| - 1])[q] == d;
      assert d <= maxCr;
      PadCut(Packed(mags[i][p]), d, maxCr);
    }
  }

  /** The code as written is right exactly when the flaw cannot show: if
      the last integration reaches the greatest depth of all, the written
      and the intended compression agree. */
  lemma AsWrittenAgreesWhenLastDeepest(mags: seq<seq<seq<real>>>, dq: seq<seq<seq<Dq>>>, npix: nat, jump: nat)
    requires |dq| == |mags| && forall j :: 0 <= j < |mags| ==> |mags[j]| == npix
    requires |mags| > 0 && Depth(mags[|mags| - 1]) == DepthAll(AllCounts(mags), |mags|)
    ensures ShrinkAsWritten(mags, dq, npix, jump) == ShrinkIntended(mags, dq, npix, jump)
  {
    if npix > 0 && Fits(mags, MaxJumps(dq, |dq|, jump)) {
      var w := ShrinkAsWritten(mags, dq, npix, jump).value;
      var r := ShrinkIntended(mags, dq, npix, jump).value;
      forall i | 0 <= i < |mags|
        ensures w[i] == r[i]
      {
        forall p | 0 <= p < npix
          ensures w[i][p] == r[i][p]
        {
          AgreePixel(mags, dq, npix, jump, i, p);
        }
        assert |w[i]| == |r[i]| == npix;
      }
      assert |w| == |r|;
      assert w == r;
      assert ShrinkAsWritten(mags, dq, npix, jump) == Some(w);
      assert ShrinkIntended(mags, dq, npix, jump) == Some(r);
    } else {
      assert ShrinkAsWritten(mags, dq, npix, jump) == None;
      assert ShrinkIntended(mags, dq, npix, jump) == None;
    }
  }
}

/** Removal of one-group segments (`remove_bad_singles` in
    ramp_fitting/utils.py) and the rest of the segment bookkeeping of
    `calc_slope_vars`: truncation to `max_seg` slots and the floor used for
    the Poisson variance.

    The cube of segment lengths `[max_seg, y, x]` is an array of pixels, each
    holding its vector of `max_seg` lengths; the removal only ever moves
    values within one pixel's vector. */
module BadSingles {
  import opened Common
  import opened Segments

  /** The lengths greater than 1, in order. */
  function Long(s: seq<nat>): (r: seq<nat>)
    ensures |r| <= |s|
  {
    if s == [] then [] else Long(s[..|s| - 1]) + (if s[|s| - 1] > 1 then [s[|s| - 1]] else [])
  }

  /** The number of one-group segments. */
  function Ones(s: seq<nat>): nat {
    if s == [] then 0 else Ones(s[..|s| - 1]) + (if s[|s| - 1] == 1 then 1 else 0)
  }

  /** The entries other than 1 (empty slots and long segments), in order. */
  function NonOnes(s: seq<nat>): (r: seq<nat>)
    ensures |r| + Ones(s) == |s|
  {
    if s == [] then [] else NonOnes(s[..|s| - 1]) + (if s[|s| - 1] != 1 then [s[|s| - 1]] else [])
  }

  /** A pixel whose segment vector still needs a removal: it has a
      one-group segment and its lengths sum to more than 1. */
  predicate BadSingle(s: seq<nat>) {
    (exists i :: 0 <= i < |s| && s[i] == 1) && Sum(s) > 1
  }

  /** Deleting slot `k`: later slots move left by one and the last becomes 0. */
  function RemoveAt(s: seq<nat>, k: nat): seq<nat>
    requires k < |s|
  {
    s[..k] + s[k + 1..] + [0]
  }

  lemma {:induction false} LongAppend(a: seq<nat>, b: seq<nat>)
    ensures Long(a + b) == Long(a) + Long(b)
    decreases |b|
  {
    if b == [] {
      assert a + b == a;
    } else {
      assert (a + b)[..|a + b| - 1] == a + b[..|b| - 1];
      LongAppend(a, b[..|b| - 1]);
    }
  }

  lemma {:induction false} OnesAppend(a: seq<nat>, b: seq<nat>)
    ensures Ones(a + b) == Ones(a) + Ones(b)
    decreases |b|
  {
    if b == [] {
      assert a + b == a;
    } else {
      assert (a + b)[..|a + b| - 1] == a + b[..|b| - 1];
      OnesAppend(a, b[..|b| - 1]);
    }
  }

  lemma {:induction false} NonOnesAppend(a: seq<nat>, b: seq<nat>)
    ensures NonOnes(a + b) == NonOnes(a) + NonOnes(b)
    decreases |b|
  {
    if b == [] {
      assert a + b == a;
    } else {
      assert (a + b)[..|a + b| - 1] == a + b[..|b| - 1];
      NonOnesAppend(a, b[..|b| - 1]);
    }
  }

  /** Without one-group segments nothing is filtered out. */
  lemma {:induction false} NonOnesNoOnes(s: seq<nat>)
    requires Ones(s) == 0
    ensures NonOnes(s) == s
  {
    if s != [] {
      NonOnesNoOnes(s[..|s| - 1]);
      assert s == s[..|s| - 1] + [s[|s| - 1]];
    }
  }

  lemma Singleton(x: nat)
    ensures Sum([x]) == x
    ensures Long([x]) == (if x > 1 then [x] else [])
    ensures Ones([x]) == (if x == 1 then 1 else 0)
    ensures NonOnes([x]) == (if x != 1 then [x] else [])
  {
    assert [x][..0] == [];
  }

  /** A segment vector's total is its long segments plus its one-group ones. */
  lemma {:induction false} SumSplit(s: seq<nat>)
    ensures Sum(s) == Sum(Long(s)) + Ones(s)
  {
    if s != [] {
      var init, x := s[..|s| - 1], s[|s| - 1];
      SumSplit(init);
      SumAppend(Long(init), if x > 1 then [x] else []);
      if x > 1 { Singleton(x); }
    }
  }

  lemma SumAt(s: seq<nat>, k: nat)
    requires k < |s|
    ensures Sum(s) == Sum(s[..k]) + s[k] + Sum(s[k + 1..])
  {
    assert s == s[..k] + [s[k]] + s[k + 1..];
    SumAppend(s[..k] + [s[k]], s[k + 1..]);
    SumAppend(s[..k], [s[k]]);
    Singleton(s[k]);
  }

  lemma {:induction false} SumZero(s: seq<nat>)
    requires forall j :: 0 <= j < |s| ==> s[j] == 0
    ensures Sum(s) == 0
  {
    if s != [] { SumZero(s[..|s| - 1]); }
  }

  /** Each removal deletes exactly the slot `k`: the earlier slots stay, the
      later ones move left and the last becomes 0. */
  lemma RemoveAtShape(s: seq<nat>, k: nat)
    requires k < |s|
    ensures var r := RemoveAt(s, k);
      && |r| == |s|
      && r[..k] == s[..k]
      && (forall j :: k <= j < |s| - 1 ==> r[j] == s[j + 1])
      && r[|s| - 1] == 0
  {
    var r := RemoveAt(s, k);
    assert r == s[..k] + (s[k + 1..] + [0]);
    forall j | k <= j < |s| - 1
      ensures r[j] == s[j + 1]
    {
      assert r[j] == (s[k + 1..] + [0])[j - k];
    }
  }

  /** Removing a one-group slot drops the pixel's total by exactly 1. */
  lemma RemoveAtSum(s: seq<nat>, k: nat)
    requires k < |s| && s[k] == 1
    ensures Sum(RemoveAt(s, k)) == Sum(s) - 1
  {
    var a, b := s[..k], s[k + 1..];
    assert s == (a + [1]) + b;
    assert RemoveAt(s, k) == (a + b) + [0];
    SumAppend(a + [1], b); SumAppend(a, [1]);
    SumAppend(a + b, [0]); SumAppend(a, b);
    Singleton(1); Singleton(0);
  }

  /** Removing a one-group slot keeps the long segments, in order. */
  lemma RemoveAtLong(s: seq<nat>, k: nat)
    requires k < |s| && s[k] == 1
    ensures Long(RemoveAt(s, k)) == Long(s)
  {
    var a, b := s[..k], s[k + 1..];
    assert s == (a + [1]) + b;
    assert RemoveAt(s, k) == (a + b) + [0];
    assert Long([1]) == [] && Long([0]) == [] by { Singleton(1); Singleton(0); }
    LongAppend(a + [1], b); LongAppend(a, [1]);
    assert Long(a + [1]) == Long(a);
    LongAppend(a + b, [0]); LongAppend(a, b);
  }

  /** Removing a one-group slot keeps every other entry in order and adds
      an empty slot at the end. */
  lemma RemoveAtNonOnes(s: seq<nat>, k: nat)
    requires k < |s| && s[k] == 1
    ensures NonOnes(RemoveAt(s, k)) == NonOnes(s) + [0]
  {
    var a, b := s[..k], s[k + 1..];
    assert s == (a + [1]) + b;
    assert RemoveAt(s, k) == (a + b) + [0];
    assert NonOnes([1]) == [] && NonOnes([0]) == [0] by { Singleton(1); Singleton(0); }
    NonOnesAppend(a + [1], b); NonOnesAppend(a, [1]);
    assert NonOnes(a + [1]) == NonOnes(a);
    NonOnesAppend(a + b, [0]); NonOnesAppend(a, b);
  }

  /** Removing a one-group slot leaves one fewer one-group segment. */
  lemma RemoveAtOnes(s: seq<nat>, k: nat)
    requires k < |s| && s[k] == 1
    ensures Ones(RemoveAt(s, k)) + 1 == Ones(s)
  {
    var a, b := s[..k], s[k + 1..];
    assert s == (a + [1]) + b;
    assert RemoveAt(s, k) == (a + b) + [0];
    OnesAppend(a + [1], b); OnesAppend(a, [1]);
    OnesAppend(a + b, [0]); OnesAppend(a, b);
    Singleton(1); Singleton(0);
  }

  /** A pixel needs a removal exactly when some one-group slot has another
      non-empty slot beside it (before or after it). */
  lemma BadSingleWitness(s: seq<nat>)
    ensures BadSingle(s) <==> exists i, j :: 0 <= i < |s| && 0 <= j < |s| && i != j && s[i] == 1 && s[j] > 0
  {
    if BadSingle(s) {
      var i :| 0 <= i < |s| && s[i] == 1;
      if forall j :: 0 <= j < |s| && j != i ==> s[j] == 0 {
        SumAt(s, i);
        SumZero(s[..i]);
        SumZero(s[i + 1..]);
        assert false;
      }
    }
    if exists i, j :: 0 <= i < |s| && 0 <= j < |s| && i != j && s[i] == 1 && s[j] > 0 {
      var i, j :| 0 <= i < |s| && 0 <= j < |s| && i != j && s[i] == 1 && s[j] > 0;
      var lo, hi := if i < j then i else j, if i < j then j else i;
      SumAt(s, hi);
      SumAt(s[..hi], lo);
    }
  }

  /** One (slot, other slot) comparison of the removal pass, for one pixel. */
  function PairStep(s: seq<nat>, i0: nat, i1: nat): seq<nat>
    requires i0 < |s| && i1 < |s|
  {
    if s[i0] == 1 && s[i1] > 0 then RemoveAt(s, i0) else s
  }

  /** What the removal keeps of a pixel's original vector `orig`. */
  ghost predicate Reduced(orig: seq<nat>, cur: seq<nat>) {
    && |cur| == |orig|
    && Long(cur) == Long(orig)
    && Sum(cur) <= Sum(orig)
    && (Sum(orig) <= 1 ==> cur == orig)
    && (Long(orig) == [] && Ones(orig) > 0 ==> Ones(cur) > 0)
    && Ones(cur) <= Ones(orig)
    && NonOnes(cur) == NonOnes(orig) + Zeros(Ones(orig) - Ones(cur))
  }

  lemma PairStepReduces(orig: seq<nat>, cur: seq<nat>, i0: nat, i1: nat)
    requires Reduced(orig, cur) && i0 < |cur| && i1 < |cur| && i0 != i1
    ensures Reduced(orig, PairStep(cur, i0, i1))
    ensures cur[i0] == 1 && cur[i1] > 0 ==> Sum(PairStep(cur, i0, i1)) < Sum(cur)
  {
    if cur[i0] == 1 && cur[i1] > 0 {
      RemoveAtReduces(orig, cur, i0, i1);
    }
  }

  /** Deleting a one-group slot beside another non-empty slot keeps the
      reduction invariant and lowers the total. */
  lemma RemoveAtReduces(orig: seq<nat>, cur: seq<nat>, i0: nat, i1: nat)
    requires Reduced(orig, cur) && i0 < |cur| && i1 < |cur| && i0 != i1
    requires cur[i0] == 1 && cur[i1] > 0
    ensures Reduced(orig, RemoveAt(cur, i0))
    ensures Sum(RemoveAt(cur, i0)) < Sum(cur)
  {
    var r := RemoveAt(cur, i0);
    RemoveAtSum(cur, i0);
    RemoveAtLong(cur, i0);
    RemoveAtOnes(cur, i0);
    PairNeedsTwo(cur, i0, i1);
    RemoveAtZeros(orig, cur, i0);
  }

  /** A one-group slot beside another non-empty slot: the total is at least
      2, and when there is no long segment there are at least two singles. */
  lemma PairNeedsTwo(cur: seq<nat>, i0: nat, i1: nat)
    requires i0 < |cur| && i1 < |cur| && i0 != i1 && cur[i0] == 1 && cur[i1] > 0
    ensures Sum(cur) > 1
    ensures Long(cur) == [] ==> Ones(cur) > 1
  {
    BadSingleWitness(cur);
    SumSplit(cur);
  }

  lemma RemoveAtZeros(orig: seq<nat>, cur: seq<nat>, k: nat)
    requires k < |cur| && cur[k] == 1 && Ones(cur) <= Ones(orig)
    requires NonOnes(cur) == NonOnes(orig) + Zeros(Ones(orig) - Ones(cur))
    ensures Ones(RemoveAt(cur, k)) + 1 == Ones(cur)
    ensures NonOnes(RemoveAt(cur, k)) == NonOnes(orig) + Zeros(Ones(orig) - Ones(RemoveAt(cur, k)))
  {
    var d := Ones(orig) - Ones(cur);
    var a, z := NonOnes(orig), Zeros(d);
    RemoveAtOnes(cur, k);
    RemoveAtNonOnes(cur, k);
    assert z + [0] == Zeros(d + 1);
    assert (a + z) + [0] == a + (z + [0]);
  }

  /** The total of all pixels' lengths: the termination measure. */
  function TotalSum(px: seq<seq<nat>>): nat {
    if px == [] then 0 else TotalSum(px[..|px| - 1]) + Sum(px[|px| - 1])
  }

  /** The number of (slot, pixel) entries equal to 1 in pixels whose total
      exceeds 1: the `tot_num_single_grp_ramps` count. */
  function NumBadEntries(px: seq<seq<nat>>): nat {
    if px == [] then 0
    else NumBadEntries(px[..|px| - 1]) + (var s := px[|px| - 1]; if Sum(s) > 1 then Ones(s) else 0)
  }

  lemma {:induction false} OnesPositive(s: seq<nat>, i: nat)
    requires i < |s| && s[i] == 1
    ensures Ones(s) > 0
  {
    if i < |s| - 1 { OnesPositive(s[..|s| - 1], i); }
  }

  lemma {:induction false} NoBadEntries(px: seq<seq<nat>>)
    requires NumBadEntries(px) == 0
    ensures forall p :: 0 <= p < |px| ==> !BadSingle(px[p])
  {
    if px != [] {
      NoBadEntries(px[..|px| - 1]);
      var s := px[|px| - 1];
      if BadSingle(s) {
        var i :| 0 <= i < |s| && s[i] == 1;
        OnesPositive(s, i);
      }
      assert forall p :: 0 <= p < |px| - 1 ==> px[p] == px[..|px| - 1][p];
    }
  }

  lemma {:induction false} SomeBadEntry(px: seq<seq<nat>>) returns (p: nat)
    requires NumBadEntries(px) > 0
    ensures p < |px| && BadSingle(px[p])
  {
    var s := px[|px| - 1];
    if Sum(s) > 1 && Ones(s) > 0 {
      p := |px| - 1;
      OnesWitness(s);
    } else {
      p := SomeBadEntry(px[..|px| - 1]);
      assert px[p] == px[..|px| - 1][p];
    }
  }

  lemma {:induction false} OnesWitness(s: seq<nat>)
    requires Ones(s) > 0
    ensures exists i :: 0 <= i < |s| && s[i] == 1
  {
    if s[|s| - 1] != 1 {
      OnesWitness(s[..|s| - 1]);
      var i :| 0 <= i < |s| - 1 && s[..|s| - 1][i] == 1;
      assert s[i] == 1;
    }
  }

  lemma {:induction false} TotalSumDrops(a: seq<seq<nat>>, b: seq<seq<nat>>)
    requires |a| == |b|
    requires forall p :: 0 <= p < |a| ==> Sum(b[p]) <= Sum(a[p])
    ensures TotalSum(b) <= TotalSum(a)
    ensures (exists p :: 0 <= p < |a| && Sum(b[p]) < Sum(a[p])) ==> TotalSum(b) < TotalSum(a)
  {
    if a != [] {
      var n := |a| - 1;
      TotalSumDrops(a[..n], b[..n]);
      assert forall p :: 0 <= p < n ==> a[..n][p] == a[p] && b[..n][p] == b[p];
    }
  }

  /** `after` is `before` with one comparison of slots `i0` and `i1` applied to every pixel. */
  ghost predicate PairApplied(before: seq<seq<nat>>, after: seq<seq<nat>>, i0: nat, i1: nat) {
    && |after| == |before|
    && forall p :: 0 <= p < |after| ==> i0 < |before[p]| && i1 < |before[p]| && after[p] == PairStep(before[p], i0, i1)
  }

  /** Some pixel has a one-group segment in slot `i0` and a non-empty slot `i1`. */
  ghost predicate AnyPair(s: seq<seq<nat>>, i0: nat, i1: nat) {
    exists p :: 0 <= p < |s| && i0 < |s[p]| && i1 < |s[p]| && s[p][i0] == 1 && s[p][i1] > 0
  }

  /** One comparison of slot `i0` with slot `i1` over every pixel: the
      pixels with a one-group segment in `i0` and a non-empty `i1` have slot
      `i0` deleted; `found` tells whether any pixel did. */
  method RemovePair(segs: array<seq<nat>>, maxSeg: nat, i0: nat, i1: nat) returns (found: bool)
    requires i0 < maxSeg && i1 < maxSeg
    requires forall p :: 0 <= p < segs.Length ==> |segs[p]| == maxSeg
    modifies segs
    ensures PairApplied(old(segs[..]), segs[..], i0, i1)
    ensures found == AnyPair(old(segs[..]), i0, i1)
  {
    found := false;
    var p := 0;
    while p < segs.Length
      invariant p <= segs.Length
      invariant forall q :: 0 <= q < p ==> segs[q] == PairStep(old(segs[q]), i0, i1)
      invariant forall q :: p <= q < segs.Length ==> segs[q] == old(segs[q])
      invariant found == exists q :: 0 <= q < p && old(segs[q])[i0] == 1 && old(segs[q])[i1] > 0
    {
      var s := segs[p];
      if s[i0] == 1 && s[i1] > 0 {
        segs[p] := RemoveAt(s, i0);
        found := true;
      }
      p := p + 1;
    }
  }

  /** The state of a removal pass: every pixel is a reduction of its
      original vector, `tot` is the current count, no pixel's total has
      grown since the pass started, and the pass has either changed nothing
      yet or lowered the overall total. */
  ghost predicate Progress(cur: seq<seq<nat>>, orig: seq<seq<nat>>, start: seq<seq<nat>>, tot: nat, changed: bool) {
    && |cur| == |orig| == |start|
    && (forall p :: 0 <= p < |cur| ==> Reduced(orig[p], cur[p]))
    && tot == NumBadEntries(cur)
    && (forall p :: 0 <= p < |cur| ==> Sum(cur[p]) <= Sum(start[p]))
    && (!changed ==> cur == start)
    && (changed ==> TotalSum(cur) < TotalSum(start))
  }

  /** No pixel of `start` has a one-group slot `a` (with `a < i0`, or
      `a == i0` and the other slot below `i1`) beside another non-empty slot. */
  ghost predicate Checked(start: seq<seq<nat>>, maxSeg: nat, i0: nat, i1: nat) {
    && (forall p, a, b :: (0 <= p < |start| && 0 <= a < i0 && 0 <= b < maxSeg && a != b && a < |start[p]| && b < |start[p]|)
          ==> !(start[p][a] == 1 && start[p][b] > 0))
    && (forall p, b :: (0 <= p < |start| && 0 <= b < i1 && i0 != b && i0 < |start[p]| && b < |start[p]|)
          ==> !(start[p][i0] == 1 && start[p][b] > 0))
  }

  lemma PairKeepsReduced(before: seq<seq<nat>>, after: seq<seq<nat>>, orig: seq<seq<nat>>, i0: nat, i1: nat)
    requires |after| == |before| == |orig| && i0 != i1
    requires forall p :: 0 <= p < |before| ==> Reduced(orig[p], before[p])
    requires PairApplied(before, after, i0, i1)
    ensures forall p :: 0 <= p < |after| ==> Reduced(orig[p], after[p]) && Sum(after[p]) <= Sum(before[p])
  {
    forall p | 0 <= p < |after|
      ensures Reduced(orig[p], after[p]) && Sum(after[p]) <= Sum(before[p])
    {
      PairStepReduces(orig[p], before[p], i0, i1);
    }
  }

  lemma PairDropsTotal(before: seq<seq<nat>>, after: seq<seq<nat>>, orig: seq<seq<nat>>, i0: nat, i1: nat, p: nat)
    requires |after| == |before| == |orig| && i0 != i1 && p < |before|
    requires forall q :: 0 <= q < |before| ==> Reduced(orig[q], before[q])
    requires PairApplied(before, after, i0, i1)
    requires before[p][i0] == 1 && before[p][i1] > 0
    ensures TotalSum(after) < TotalSum(before)
  {
    PairKeepsReduced(before, after, orig, i0, i1);
    PairStepReduces(orig[p], before[p], i0, i1);
    TotalSumDrops(before, after);
  }

  lemma PairProgress(before: seq<seq<nat>>, after: seq<seq<nat>>, orig: seq<seq<nat>>, start: seq<seq<nat>>,
                     maxSeg: nat, i0: nat, i1: nat, tot: nat, changed: bool, found: bool)
    requires i0 < maxSeg && i1 < maxSeg && i0 != i1
    requires forall p :: 0 <= p < |before| ==> |before[p]| == maxSeg
    requires Progress(before, orig, start, tot, changed)
    requires PairApplied(before, after, i0, i1)
    requires found == AnyPair(before, i0, i1)
    ensures forall p :: 0 <= p < |after| ==> |after[p]| == maxSeg
    ensures Progress(after, orig, start, if found then NumBadEntries(after) else tot, changed || found)
    ensures !found ==> after == before
  {
    if found {
      PairFound(before, after, orig, start, i0, i1, tot, changed);
    } else {
      PairNone(before, after, i0, i1);
    }
  }

  /** A comparison that fires in some pixel lowers the total. */
  lemma PairFound(before: seq<seq<nat>>, after: seq<seq<nat>>, orig: seq<seq<nat>>, start: seq<seq<nat>>,
                  i0: nat, i1: nat, tot: nat, changed: bool)
    requires i0 != i1
    requires Progress(before, orig, start, tot, changed)
    requires PairApplied(before, after, i0, i1)
    requires AnyPair(before, i0, i1)
    ensures Progress(after, orig, start, NumBadEntries(after), true)
  {
    TotalSumDrops(start, before);
    PairKeepsReduced(before, after, orig, i0, i1);
    var p :| 0 <= p < |before| && i0 < |before[p]| && i1 < |before[p]| && before[p][i0] == 1 && before[p][i1] > 0;
    PairDropsTotal(before, after, orig, i0, i1, p);
  }

  /** A comparison that fires nowhere changes nothing. */
  lemma PairNone(before: seq<seq<nat>>, after: seq<seq<nat>>, i0: nat, i1: nat)
    requires i0 != i1
    requires PairApplied(before, after, i0, i1)
    requires !AnyPair(before, i0, i1)
    ensures after == before
  {
    assert forall p :: 0 <= p < |after| ==> after[p] == before[p];
  }

  lemma CheckedPair(start: seq<seq<nat>>, maxSeg: nat, i0: nat, i1: nat, found: bool)
    requires Checked(start, maxSeg, i0, i1) && i1 < maxSeg
    requires i0 != i1 ==> found == AnyPair(start, i0, i1)
    requires i0 != i1 ==> !found
    ensures Checked(start, maxSeg, i0, i1 + 1)
  {}

  lemma CheckedRow(start: seq<seq<nat>>, maxSeg: nat, i0: nat)
    requires Checked(start, maxSeg, i0, maxSeg)
    requires forall p :: 0 <= p < |start| ==> |start[p]| == maxSeg
    ensures Checked(start, maxSeg, i0 + 1, 0)
  {}

  lemma CheckedAll(start: seq<seq<nat>>, maxSeg: nat)
    requires Checked(start, maxSeg, maxSeg, 0)
    requires forall p :: 0 <= p < |start| ==> |start[p]| == maxSeg
    ensures NumBadEntries(start) == 0
  {
    if NumBadEntries(start) > 0 {
      var p := SomeBadEntry(start);
      BadSingleWitness(start[p]);
      assert false;
    }
  }

  /** One turn of the `ii_1` loop: compare slot `i0` with slot `i1` (unless
      they are the same slot) and recount after a removal. */
  method PairTurn(segs: array<seq<nat>>, maxSeg: nat, i0: nat, i1: nat, tot: nat,
                  ghost orig: seq<seq<nat>>, ghost start: seq<seq<nat>>, ghost changed: bool)
    returns (tot': nat, ghost changed': bool)
    requires i0 < maxSeg && i1 < maxSeg
    requires forall p :: 0 <= p < segs.Length ==> |segs[p]| == maxSeg
    requires Progress(segs[..], orig, start, tot, changed)
    requires !changed ==> Checked(start, maxSeg, i0, i1)
    modifies segs
    ensures forall p :: 0 <= p < segs.Length ==> |segs[p]| == maxSeg
    ensures Progress(segs[..], orig, start, tot', changed')
    ensures !changed' ==> Checked(start, maxSeg, i0, i1 + 1)
  {
    tot', changed' := tot, changed;
    if i0 != i1 {
      ghost var before := segs[..];
      var found := RemovePair(segs, maxSeg, i0, i1);
      PairProgress(before, segs[..], orig, start, maxSeg, i0, i1, tot', changed', found);
      assert forall p :: 0 <= p < segs.Length ==> segs[p] == segs[..][p];
      if found {
        tot' := NumBadEntries(segs[..]);
        changed' := true;
      } else if !changed' {
        CheckedPair(start, maxSeg, i0, i1, found);
      }
    } else if !changed' {
      CheckedPair(start, maxSeg, i0, i1, false);
    }
  }

  /** The comparisons of slot `i0` with every other slot, over every pixel;
      the count is recomputed after each comparison that removed something. */
  method RemoveSlot(segs: array<seq<nat>>, maxSeg: nat, i0: nat, tot: nat,
                    ghost orig: seq<seq<nat>>, ghost start: seq<seq<nat>>, ghost changed: bool)
    returns (tot': nat, ghost changed': bool)
    requires i0 < maxSeg
    requires forall p :: 0 <= p < segs.Length ==> |segs[p]| == maxSeg
    requires Progress(segs[..], orig, start, tot, changed)
    requires !changed ==> Checked(start, maxSeg, i0, 0)
    modifies segs
    ensures forall p :: 0 <= p < segs.Length ==> |segs[p]| == maxSeg
    ensures Progress(segs[..], orig, start, tot', changed')
    ensures !changed' ==> Checked(start, maxSeg, i0, maxSeg)
  {
    tot', changed' := tot, changed;
    var i1 := 0;
    while i1 < maxSeg
      invariant i1 <= maxSeg
      invariant forall p :: 0 <= p < segs.Length ==> |segs[p]| == maxSeg
      invariant Progress(segs[..], orig, start, tot', changed')
      invariant !changed' ==> Checked(start, maxSeg, i0, i1)
    {
      tot', changed' := PairTurn(segs, maxSeg, i0, i1, tot', orig, start, changed');
      i1 := i1 + 1;
    }
  }

  /** What `remove_bad_singles` leaves of a pixel's vector `orig`: no bad
      single; the long segments in order; a total that has not grown; the
      vector unchanged when its total was at most 1; exactly one single when
      `orig` had only one-group segments, none otherwise; and every entry
      other than 1 in its order, with one empty slot at the end per deleted
      single. A pixel with a long segment is thereby pinned down: it ends as
      its entries other than 1 followed by zeros. */
  ghost predicate Cleaned(orig: seq<nat>, cur: seq<nat>) {
    && |cur| == |orig|
    && !BadSingle(cur)
    && Long(cur) == Long(orig)
    && Sum(cur) <= Sum(orig)
    && (Sum(orig) <= 1 ==> cur == orig)
    && Ones(cur) == (if Long(orig) == [] && Ones(orig) > 0 then 1 else 0)
    && Ones(cur) <= Ones(orig)
    && NonOnes(cur) == NonOnes(orig) + Zeros(Ones(orig) - Ones(cur))
    && (Long(orig) != [] ==> cur == NonOnes(orig) + Zeros(Ones(orig)))
  }

  /** One pass of the `while` loop: every `ii_0`, each against every other
      `ii_1`. A pass that starts with a positive count removes something. */
  method RemovePass(segs: array<seq<nat>>, maxSeg: nat, tot: nat, ghost orig: seq<seq<nat>>) returns (tot': nat)
    requires forall p :: 0 <= p < segs.Length ==> |segs[p]| == maxSeg
    requires Progress(segs[..], orig, segs[..], tot, false) && tot > 0
    modifies segs
    ensures forall p :: 0 <= p < segs.Length ==> |segs[p]| == maxSeg
    ensures Progress(segs[..], orig, segs[..], tot', false)
    ensures TotalSum(segs[..]) < TotalSum(old(segs[..]))
  {
    ghost var start := segs[..];
    ghost var changed := false;
    tot' := tot;
    var i0 := 0;
    while i0 < maxSeg
      invariant i0 <= maxSeg
      invariant forall p :: 0 <= p < segs.Length ==> |segs[p]| == maxSeg
      invariant Progress(segs[..], orig, start, tot', changed)
      invariant !changed ==> Checked(start, maxSeg, i0, 0)
    {
      tot', changed := RemoveSlot(segs, maxSeg, i0, tot', orig, start, changed);
      if !changed { CheckedRow(start, maxSeg, i0); }
      i0 := i0 + 1;
    }
    if !changed {
      CheckedAll(start, maxSeg);
      assert false;
    }
  }

  /** `remove_bad_singles`: repeat passes over every ordered pair of distinct
      slots until no pixel has a one-group segment while its lengths sum to
      more than 1. Every pixel ends `Cleaned` relative to its old vector. */
  method RemoveBadSingles(segs: array<seq<nat>>, maxSeg: nat)
    requires forall p :: 0 <= p < segs.Length ==> |segs[p]| == maxSeg
    modifies segs
    ensures forall p :: 0 <= p < segs.Length ==> |segs[p]| == maxSeg && Cleaned(old(segs[p]), segs[p])
  {
    ghost var orig := segs[..];
    var tot := NumBadEntries(segs[..]);
    while tot > 0
      invariant forall p :: 0 <= p < segs.Length ==> |segs[p]| == maxSeg
      invariant Progress(segs[..], orig, segs[..], tot, false)
      decreases TotalSum(segs[..])
    {
      tot := RemovePass(segs, maxSeg, tot, orig);
    }
    NoBadEntries(segs[..]);
    forall p | 0 <= p < segs.Length
      ensures Cleaned(old(segs[p]), segs[p])
    {
      assert orig[p] == old(segs[p]) && segs[..][p] == segs[p];
      FinalVector(orig[p], segs[p]);
    }
  }

  /** At the end of the removal every pixel is `Cleaned`; in particular a
      pixel with a long segment ends with every one-group segment deleted:
      its other entries in order, then one empty slot per deleted single. */
  lemma FinalVector(orig: seq<nat>, cur: seq<nat>)
    requires Reduced(orig, cur) && !BadSingle(cur)
    ensures Cleaned(orig, cur)
  {
    FinalOnes(orig, cur);
    if Long(orig) != [] {
      NonOnesNoOnes(cur);
    }
  }

  lemma FinalOnes(orig: seq<nat>, cur: seq<nat>)
    requires Reduced(orig, cur) && !BadSingle(cur)
    ensures Ones(cur) == (if Long(orig) == [] && Ones(orig) > 0 then 1 else 0)
  {
    SumSplit(cur);
    SumSplit(orig);
    if Ones(cur) > 0 {
      OnesWitness(cur);
    }
    if Sum(orig) <= 1 {
      if Long(orig) != [] {
        assert Sum(Long(orig)) >= Long(orig)[0] by { SumAt(Long(orig), 0); }
        LongAreLong(orig, 0);
      }
    } else if Long(orig) != [] {
      assert Sum(Long(cur)) >= Long(cur)[0] by { SumAt(Long(cur), 0); }
      LongAreLong(cur, 0);
    }
  }

  lemma {:induction false} LongAreLong(s: seq<nat>, k: nat)
    requires k < |Long(s)|
    ensures Long(s)[k] > 1
  {
    var init := s[..|s| - 1];
    if k < |Long(init)| {
      LongAreLong(init, k);
    }
  }
}

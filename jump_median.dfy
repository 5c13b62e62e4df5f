/** The median of first differences used by the two-point-difference jump
    detector (`calc_med_first_diffs` in jump/twopoint_difference.py).

    A pixel's first differences are a sequence of optional reals: None
    stands for NaN, a difference that touches a saturated, do-not-use or
    already clipped group. */
module JumpMedian {
  import opened Common

  function AbsR(x: real): (r: real)
    ensures r >= 0.0 && (r == x || r == -x)
  {
    if x < 0.0 then -x else x
  }

  function MinR(a: real, b: real): real { if a <= b then a else b }

  function MaxR(a: real, b: real): real { if a <= b then b else a }

  // ----- sorting and the median (numpy `median` / `nanmedian`) -----

  predicate SortedR(s: seq<real>) {
    forall i, j :: 0 <= i < j < |s| ==> s[i] <= s[j]
  }

  /** `x` inserted into `s` before its first larger entry. */
  function Insert(x: real, s: seq<real>): (r: seq<real>)
    ensures |r| == |s| + 1
  {
    if s == [] then [x] else if x <= s[0] then [x] + s else [s[0]] + Insert(x, s[1..])
  }

  lemma {:induction false} InsertLowerBound(x: real, s: seq<real>, lo: real)
    requires lo <= x && forall k :: 0 <= k < |s| ==> lo <= s[k]
    ensures forall k :: 0 <= k < |s| + 1 ==> lo <= Insert(x, s)[k]
  {
    if s != [] && x > s[0] {
      InsertLowerBound(x, s[1..], lo);
    }
  }

  lemma {:induction false} InsertSorted(x: real, s: seq<real>)
    requires SortedR(s)
    ensures SortedR(Insert(x, s))
  {
    if s != [] && x > s[0] {
      InsertSorted(x, s[1..]);
      InsertLowerBound(x, s[1..], s[0]);
      var t := Insert(x, s[1..]);
      assert Insert(x, s) == [s[0]] + t;
      forall i, j | 0 <= i < j < |t| + 1
        ensures ([s[0]] + t)[i] <= ([s[0]] + t)[j]
      {
        if i > 0 {
          assert ([s[0]] + t)[i] == t[i - 1];
        }
      }
    }
  }

  lemma {:induction false} InsertPerm(x: real, s: seq<real>)
    ensures multiset(Insert(x, s)) == multiset(s) + multiset{x}
  {
    if s != [] && x > s[0] {
      InsertPerm(x, s[1..]);
      assert s == [s[0]] + s[1..];
    }
  }

  /** The values of `s` in ascending order (insertion sort). */
  function SortR(s: seq<real>): (r: seq<real>)
    ensures |r| == |s|
  {
    if s == [] then [] else Insert(s[|s| - 1], SortR(s[..|s| - 1]))
  }

  /** Sorting gives an ascending permutation of its input. */
  lemma {:induction false} SortKeeps(s: seq<real>)
    ensures SortedR(SortR(s))
    ensures multiset(SortR(s)) == multiset(s)
  {
    if s != [] {
      SortKeeps(s[..|s| - 1]);
      InsertSorted(s[|s| - 1], SortR(s[..|s| - 1]));
      InsertPerm(s[|s| - 1], SortR(s[..|s| - 1]));
      assert s == s[..|s| - 1] + [s[|s| - 1]];
    }
  }

  lemma SortedHeadLeast(s: seq<real>, x: real)
    requires SortedR(s) && x in multiset(s)
    ensures s[0] <= x
  {
    var k :| 0 <= k < |s| && s[k] == x;
  }

  /** Two ascending sequences with the same values are equal. */
  lemma {:induction false} SortedUnique(a: seq<real>, b: seq<real>)
    requires SortedR(a) && SortedR(b) && multiset(a) == multiset(b)
    ensures a == b
    decreases |a|
  {
    assert |a| == |multiset(a)| == |b|;
    if a != [] {
      assert a[0] in multiset(b) && b[0] in multiset(a);
      SortedHeadLeast(b, a[0]);
      SortedHeadLeast(a, b[0]);
      assert a[0] == b[0];
      assert a == [a[0]] + a[1..] && b == [b[0]] + b[1..];
      assert multiset(a) == multiset{a[0]} + multiset(a[1..]);
      assert multiset(b) == multiset{a[0]} + multiset(b[1..]);
      assert multiset(a[1..]) == multiset(a) - multiset{a[0]};
      assert multiset(b[1..]) == multiset(b) - multiset{a[0]};
      SortedUnique(a[1..], b[1..]);
    }
  }

  /** numpy's median: the middle value of the sorted values, or the mean of
      the two middle values when their number is even. */
  function Median(v: seq<real>): real
    requires |v| > 0
  {
    var s := SortR(v);
    if |s| % 2 == 1 then s[|s| / 2] else (s[|s| / 2 - 1] + s[|s| / 2]) / 2.0
  }

  /** The median depends only on the values, not on their order. */
  lemma MedianOrderFree(v: seq<real>, w: seq<real>)
    requires |v| > 0 && multiset(v) == multiset(w)
    ensures |w| == |v| && Median(v) == Median(w)
  {
    assert |v| == |multiset(v)| == |w|;
    SortKeeps(v);
    SortKeeps(w);
    SortedUnique(SortR(v), SortR(w));
  }

  /** The median lies between the smallest and the largest value: some
      value is at most it and some value at least it. */
  lemma MedianBetween(v: seq<real>)
    requires |v| > 0
    ensures exists i :: 0 <= i < |v| && v[i] <= Median(v)
    ensures exists j :: 0 <= j < |v| && Median(v) <= v[j]
  {
    var s := SortR(v);
    SortKeeps(v);
    var lo := if |s| % 2 == 1 then |s| / 2 else |s| / 2 - 1;
    var hi := |s| / 2;
    assert s[lo] <= Median(v) <= s[hi];
    assert s[lo] in multiset(v) && s[hi] in multiset(v);
    var i :| 0 <= i < |v| && v[i] == s[lo];
    var j :| 0 <= j < |v| && v[j] == s[hi];
  }

  /** The median of three values is the one between the other two. */
  lemma MedianOfThree(a: real, b: real, c: real)
    ensures Median([a, b, c]) == MaxR(MinR(a, b), MinR(MaxR(a, b), c))
  {
    var v := [a, b, c];
    assert v[..2] == [a, b] && v[..2][..1] == [a] && v[..2][..1][..0] == [];
    assert SortR([a]) == [a];
    assert SortR(v) == Insert(c, Insert(b, [a]));
  }

  // ----- the first difference with the largest value (numpy `nanargmax`) -----

  /** The index of the first largest non-NaN entry; None when every entry
      is NaN (numpy raises "All-NaN slice encountered"). */
  function NanArgMax(s: seq<Option<real>>): (r: Option<nat>)
    ensures r.Some? ==> r.value < |s| && s[r.value].Some?
  {
    if s == [] then None
    else
      var r0 := NanArgMax(s[..|s| - 1]);
      var last := s[|s| - 1];
      if last.Some? && (r0.None? || s[r0.value].value < last.value) then Some(|s| - 1) else r0
  }

  /** `nanargmax` finds an entry exactly when some entry is not NaN; it is
      a largest one, and no earlier entry is as large. */
  lemma {:induction false} NanArgMaxSpec(s: seq<Option<real>>)
    ensures NanArgMax(s).None? <==> forall k :: 0 <= k < |s| ==> s[k].None?
    ensures NanArgMax(s).Some? ==>
      var i := NanArgMax(s).value;
      && (forall k :: 0 <= k < |s| && s[k].Some? ==> s[k].value <= s[i].value)
      && (forall k :: 0 <= k < i && s[k].Some? ==> s[k].value < s[i].value)
  {
    if s != [] {
      var init := s[..|s| - 1];
      NanArgMaxSpec(init);
      assert forall k :: 0 <= k < |init| ==> s[k] == init[k];
    }
  }

  /** The absolute value of every non-NaN entry. */
  function AbsAll(d: seq<Option<real>>): (r: seq<Option<real>>)
    ensures |r| == |d|
    ensures forall k :: 0 <= k < |d| ==> r[k].Some? == d[k].Some?
    ensures forall k :: 0 <= k < |d| && d[k].Some? ==> r[k].value == AbsR(d[k].value)
  {
    seq(|d|, k requires 0 <= k < |d| => if d[k].Some? then Some(AbsR(d[k].value)) else None)
  }

  lemma {:induction false} UsableZero(d: seq<Option<real>>)
    ensures Usable(d) == 0 <==> forall k :: 0 <= k < |d| ==> d[k].None?
  {
    if d != [] {
      UsableZero(d[..|d| - 1]);
      assert forall k :: 0 <= k < |d| - 1 ==> d[..|d| - 1][k] == d[k];
    }
  }

  /** Making a non-NaN entry NaN lowers the usable count by one. */
  lemma {:induction false} UsableClip(d: seq<Option<real>>, i: nat)
    requires i < |d| && d[i].Some?
    ensures Usable(d[i := None]) + 1 == Usable(d)
  {
    var init := d[..|d| - 1];
    if i == |d| - 1 {
      assert d[i := None][..|d| - 1] == init;
    } else {
      UsableClip(init, i);
      assert d[i := None][..|d| - 1] == init[i := None];
    }
  }

  lemma ValuesSnoc(s: seq<Option<real>>, x: Option<real>)
    ensures Values(s + [x]) == Values(s) + (if x.Some? then [x.value] else [])
  {
    assert (s + [x])[..|s|] == s;
  }

  lemma ValuesClipLast(d: seq<Option<real>>)
    requires |d| > 0 && d[|d| - 1].Some?
    ensures Values(d[|d| - 1 := None]) + [d[|d| - 1].value] == Values(d)
  {
    var n := |d| - 1;
    assert d == d[..n] + [d[n]];
    assert d[n := None] == d[..n] + [None];
    ValuesSnoc(d[..n], d[n]);
    ValuesSnoc(d[..n], None);
  }

  lemma ValuesClipInner(d: seq<Option<real>>, i: nat)
    requires i < |d| - 1
    ensures Values(d[i := None]) == Values(d[..|d| - 1][i := None]) + (if d[|d| - 1].Some? then [d[|d| - 1].value] else [])
    ensures Values(d) == Values(d[..|d| - 1]) + (if d[|d| - 1].Some? then [d[|d| - 1].value] else [])
  {
    var n := |d| - 1;
    assert d == d[..n] + [d[n]];
    assert d[i := None] == d[..n][i := None] + [d[n]];
    ValuesSnoc(d[..n], d[n]);
    ValuesSnoc(d[..n][i := None], d[n]);
  }

  /** Making a non-NaN entry NaN removes its value from the values. */
  lemma {:induction false} ValuesClip(d: seq<Option<real>>, i: nat)
    requires i < |d| && d[i].Some?
    ensures multiset(Values(d[i := None])) + multiset{d[i].value} == multiset(Values(d))
  {
    var n := |d| - 1;
    if i == n {
      ValuesClipLast(d);
    } else {
      ValuesClip(d[..n], i);
      ValuesClipInner(d, i);
    }
  }

  // ----- calc_med_first_diffs -----

  /** `calc_med_first_diffs` for one pixel: with 4 or more usable
      differences, the median of the others once the one with the largest
      absolute value is clipped; with 3, their median; with 2, the smaller
      absolute value; with fewer, NaN. */
  function MedFirstDiffs(d: seq<Option<real>>): (r: Option<real>)
  {
    var n := Usable(d);
    if n >= 4 then
      (match NanArgMax(AbsAll(d))
         case Some(i) =>
           if |Values(d[i := None])| > 0 then Some(Median(Values(d[i := None]))) else None
         case None => None)
    else if n == 3 then Some(Median(Values(d)))
    else if n == 2 then (var v := Values(d); Some(MinR(AbsR(v[0]), AbsR(v[1]))))
    else None
  }

  /** The result is NaN exactly when fewer than two differences are usable. */
  lemma MedFirstDiffsNaN(d: seq<Option<real>>)
    ensures MedFirstDiffs(d).None? <==> Usable(d) < 2
  {
    if Usable(d) >= 4 {
      UsableZero(d);
      NanArgMaxSpec(AbsAll(d));
      var i := NanArgMax(AbsAll(d)).value;
      UsableClip(d, i);
    }
  }

  /** With 4 or more usable differences the result is the median of the
      usable differences left once one with the largest absolute value is
      clipped: all of them but that one. */
  lemma MedFirstDiffsClips(d: seq<Option<real>>)
    requires Usable(d) >= 4
    ensures exists i :: (0 <= i < |d| && d[i].Some? &&
      (forall k :: 0 <= k < |d| && d[k].Some? ==> AbsR(d[k].value) <= AbsR(d[i].value)) &&
      Usable(d[i := None]) == Usable(d) - 1 &&
      multiset(Values(d[i := None])) + multiset{d[i].value} == multiset(Values(d)) &&
      MedFirstDiffs(d) == Some(Median(Values(d[i := None]))))
  {
    UsableZero(d);
    NanArgMaxSpec(AbsAll(d));
    var i := NanArgMax(AbsAll(d)).value;
    UsableClip(d, i);
    ValuesClip(d, i);
  }

  /** With 3 usable differences the result is the middle one. */
  lemma MedFirstDiffsThree(d: seq<Option<real>>)
    requires Usable(d) == 3
    ensures var v := Values(d);
      MedFirstDiffs(d) == Some(MaxR(MinR(v[0], v[1]), MinR(MaxR(v[0], v[1]), v[2])))
  {
    var v := Values(d);
    assert v == [v[0], v[1], v[2]];
    MedianOfThree(v[0], v[1], v[2]);
  }

  /** With 2 usable differences the result is the smaller absolute value:
      it is the absolute value of one of them and at most that of each. */
  lemma MedFirstDiffsTwo(d: seq<Option<real>>)
    requires Usable(d) == 2
    ensures var v := Values(d); var r := MedFirstDiffs(d);
      && r.Some? && r.value >= 0.0
      && r.value <= AbsR(v[0]) && r.value <= AbsR(v[1])
      && (r.value == AbsR(v[0]) || r.value == AbsR(v[1]))
  {
  }

  /** The result ignores the order of the usable differences when 3 are
      usable. */
  lemma MedFirstDiffsThreeOrderFree(d: seq<Option<real>>, e: seq<Option<real>>)
    requires Usable(d) == 3 && Usable(e) == 3 && multiset(Values(d)) == multiset(Values(e))
    ensures MedFirstDiffs(d) == MedFirstDiffs(e)
  {
    MedianOrderFree(Values(d), Values(e));
  }

  // ----- the array variant -----

  /** The usable differences of every pixel with exactly 2 of them, in
      pixel order (`first_diffs[:, row2, col2]` without its NaNs). */
  function TwoSlice(cols: seq<seq<Option<real>>>): (r: seq<real>)
  {
    if cols == [] then []
    else TwoSlice(cols[..|cols| - 1]) + (if Usable(cols[|cols| - 1]) == 2 then Values(cols[|cols| - 1]) else [])
  }

  /** Smallest entry, `dflt` for an empty sequence. */
  function MinOf(s: seq<real>, dflt: real): (r: real)
    ensures s != [] ==> (exists k :: 0 <= k < |s| && s[k] == r) && forall k :: 0 <= k < |s| ==> r <= s[k]
  {
    if s == [] then dflt
    else if |s| == 1 then s[0]
    else MinR(MinOf(s[..|s| - 1], dflt), s[|s| - 1])
  }

  /** The array variant of `calc_med_first_diffs` as written: every pixel
      gets its own result, except that all pixels with exactly 2 usable
      differences share one value, the signed minimum over all of their
      differences (`np.nanmin(two_slice)`, with neither `abs` nor an
      axis). */
  function MedFirstDiffsArrayAsWritten(cols: seq<seq<Option<real>>>): (r: seq<Option<real>>)
    ensures |r| == |cols|
  {
    var two := TwoSlice(cols);
    seq(|cols|, p requires 0 <= p < |cols| =>
      if Usable(cols[p]) == 2 then Some(MinOf(two, 0.0)) else MedFirstDiffs(cols[p]))
  }

  /** The array variant as evidently intended: the one-pixel rule applied
      to every pixel. */
  function MedFirstDiffsArray(cols: seq<seq<Option<real>>>): (r: seq<Option<real>>)
    ensures |r| == |cols| && forall p :: 0 <= p < |cols| ==> r[p] == MedFirstDiffs(cols[p])
  {
    seq(|cols|, p requires 0 <= p < |cols| => MedFirstDiffs(cols[p]))
  }

  lemma {:induction false} TwoSliceHas(cols: seq<seq<Option<real>>>, p: nat)
    requires p < |cols| && Usable(cols[p]) == 2
    ensures forall k :: 0 <= k < 2 ==> Values(cols[p])[k] in multiset(TwoSlice(cols))
  {
    var init := cols[..|cols| - 1];
    if p < |cols| - 1 {
      TwoSliceHas(init, p);
      assert init[p] == cols[p];
    }
  }

  /** As written, the array variant agrees with the one-pixel rule on every
      pixel whose usable count is not 2; the pixels with 2 usable
      differences all get the same value, which is at most each of their
      (signed) differences. */
  lemma ArrayAsWrittenShape(cols: seq<seq<Option<real>>>, p: nat, q: nat)
    requires p < |cols| && q < |cols|
    ensures Usable(cols[p]) != 2 ==> MedFirstDiffsArrayAsWritten(cols)[p] == MedFirstDiffsArray(cols)[p]
    ensures Usable(cols[p]) == 2 && Usable(cols[q]) == 2 ==>
      && MedFirstDiffsArrayAsWritten(cols)[p] == MedFirstDiffsArrayAsWritten(cols)[q]
      && MedFirstDiffsArrayAsWritten(cols)[p].Some?
      && MedFirstDiffsArrayAsWritten(cols)[p].value <= Values(cols[q])[0]
      && MedFirstDiffsArrayAsWritten(cols)[p].value <= Values(cols[q])[1]
  {
    if Usable(cols[q]) == 2 {
      TwoSliceHas(cols, q);
      var two := TwoSlice(cols);
      var v := Values(cols[q]);
      var a :| 0 <= a < |two| && two[a] == v[0];
      var b :| 0 <= b < |two| && two[b] == v[1];
    }
  }

  const ExampleCols: seq<seq<Option<real>>> := [[Some(5.0), Some(7.0)], [Some(-100.0), Some(3.0)]]

  lemma ExampleValues()
    ensures Values(ExampleCols[0]) == [5.0, 7.0] && Usable(ExampleCols[0]) == 2
    ensures Values(ExampleCols[1]) == [-100.0, 3.0] && Usable(ExampleCols[1]) == 2
  {
    var c0 := ExampleCols[0];
    var c1 := ExampleCols[1];
    assert c0[..1] == [Some(5.0)] && c0[..1][..0] == [];
    assert c1[..1] == [Some(-100.0)] && c1[..1][..0] == [];
  }

  lemma ExampleTwoSlice()
    ensures TwoSlice(ExampleCols) == [5.0, 7.0, -100.0, 3.0]
  {
    ExampleValues();
    assert ExampleCols[..1] == [ExampleCols[0]] && ExampleCols[..1][..0] == [];
    assert TwoSlice(ExampleCols[..1]) == [5.0, 7.0];
  }

  lemma ExampleMin()
    ensures MinOf([5.0, 7.0, -100.0, 3.0], 0.0) == -100.0
  {
    var two := [5.0, 7.0, -100.0, 3.0];
    assert two[..3] == [5.0, 7.0, -100.0];
    assert two[..3][..2] == [5.0, 7.0];
    assert [5.0, 7.0][..1] == [5.0];
    assert MinOf([5.0, 7.0], 0.0) == 5.0;
  }

  /** Two pixels with two usable differences each, [5, 7] and [-100, 3]:
      as written both get -100, a negative "median" taken from another
      pixel; the one-pixel rule gives 5 and 3. */
  lemma SharedTwoValueExample()
    ensures MedFirstDiffsArrayAsWritten(ExampleCols) == [Some(-100.0), Some(-100.0)]
    ensures MedFirstDiffsArray(ExampleCols) == [Some(5.0), Some(3.0)]
  {
    ExampleValues();
    ExampleTwoSlice();
    ExampleMin();
    var w := MedFirstDiffsArrayAsWritten(ExampleCols);
    assert w[0] == Some(-100.0) && w[1] == Some(-100.0);
    var r := MedFirstDiffsArray(ExampleCols);
    assert r[0] == Some(5.0) && r[1] == Some(3.0);
  }
}

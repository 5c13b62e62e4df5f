/** `find_crs` (jump/twopoint_difference.py) over arrays: a copy of the
    group DQ cube gets JUMP_DET wherever the clipping loop marks a jump,
    and then around each jump of moderate size, with the flags that fall
    off the first and last row returned in two extra row arrays. Each
    method is proved against the cell-by-cell description of module
    JumpSpec. */
module JumpDetect {
  import opened Common
  import opened JumpClip
  import opened JumpSpec

  predicate GdqShaped(gdq: array4<Dq>, z: Dims) {
    gdq.Length1 == z.groups && gdq.Length2 == z.rows && gdq.Length3 == z.cols
  }

  /** `row_below_gdq` and `row_above_gdq`: one row of columns per
      integration and group. */
  predicate RowsShaped(gdq: array4<Dq>, below: array3<Dq>, above: array3<Dq>) {
    && below.Length0 == gdq.Length0 && below.Length1 == gdq.Length1 && below.Length2 == gdq.Length3
    && above.Length0 == gdq.Length0 && above.Length1 == gdq.Length1 && above.Length2 == gdq.Length3
  }

  // ----- clipping and write-back -----

  /** `gdq[integ, 1:, row, col] |= JUMP_DET * ~mask` for one pixel. */
  method WriteColumn(gdq: array4<Dq>, i: nat, r: nat, c: nat, mask: seq<bool>, jump: nat)
    requires i < gdq.Length0 && |mask| + 1 == gdq.Length1 && r < gdq.Length2 && c < gdq.Length3
    modifies gdq
    ensures forall i', g, r', c' :: 0 <= i' < gdq.Length0 && 0 <= g < gdq.Length1 && 0 <= r' < gdq.Length2 && 0 <= c' < gdq.Length3 ==>
      gdq[i', g, r', c'] == (if i' == i && r' == r && c' == c then WriteBack(old(gdq[i', g, r', c']), mask, g, jump) else old(gdq[i', g, r', c']))
  {
    for k := 0 to |mask|
      invariant forall i', g, r', c' :: 0 <= i' < gdq.Length0 && 0 <= g < gdq.Length1 && 0 <= r' < gdq.Length2 && 0 <= c' < gdq.Length3 ==>
        gdq[i', g, r', c'] == (if i' == i && r' == r && c' == c && g <= k then WriteBack(old(gdq[i', g, r', c']), mask, g, jump) else old(gdq[i', g, r', c']))
    {
      if !mask[k] {
        gdq[i, k + 1, r, c] := gdq[i, k + 1, r, c] + {jump};
      }
    }
  }

  /** One selected pixel: clip it and write its jumps back; a pixel that
      is not selected is left alone. False when the clipping loop raises. */
  method ClipAt(gdq: array4<Dq>, i: nat, x: Integration, z: Dims, cf: Config, r: nat, c: nat) returns (ok: bool)
    requires Shaped(x, z) && GdqShaped(gdq, z) && i < gdq.Length0 && r < z.rows && c < z.cols
    modifies gdq
    ensures ok <==> PixelMask(x, z, cf, r, c).Some?
    ensures ok ==> forall i', g, r', c' :: 0 <= i' < gdq.Length0 && 0 <= g < z.groups && 0 <= r' < z.rows && 0 <= c' < z.cols ==>
      gdq[i', g, r', c'] == (if i' == i && r' == r && c' == c then WriteBack(old(gdq[i', g, r', c']), MaskOf(x, z, cf, r, c), g, cf.flags.jumpDet) else old(gdq[i', g, r', c']))
  {
    var d := PixelDiffs(x, z, cf.flags, r, c);
    var rs := PixelRatios(x, z, cf, r, c);
    if Selected(d, rs, cf.t) {
      var mask;
      ok, mask := ClipPixel(d, rs, LoopRatioFn(cf, x.readNoise[r][c]), cf.t);
      if ok {
        WriteColumn(gdq, i, r, c, mask, cf.flags.jumpDet);
      }
    } else {
      ok := true;
    }
  }

  lemma RowExtend(x: Integration, z: Dims, cf: Config, r: nat, n: nat)
    requires Shaped(x, z) && r < z.rows && n < z.cols
    requires forall c :: 0 <= c < n ==> PixelMask(x, z, cf, r, c).Some?
    requires PixelMask(x, z, cf, r, n).Some?
    ensures forall c :: 0 <= c < n + 1 ==> PixelMask(x, z, cf, r, c).Some?
  {
  }

  lemma RowsExtend(x: Integration, z: Dims, cf: Config, n: nat)
    requires Shaped(x, z) && n < z.rows
    requires forall r, c :: 0 <= r < n && 0 <= c < z.cols ==> PixelMask(x, z, cf, r, c).Some?
    requires forall c :: 0 <= c < z.cols ==> PixelMask(x, z, cf, n, c).Some?
    ensures forall r, c :: 0 <= r < n + 1 && 0 <= c < z.cols ==> PixelMask(x, z, cf, r, c).Some?
  {
  }

  /** The selected pixels of one row. False when the clipping loop raises. */
  method ClipRow(gdq: array4<Dq>, i: nat, x: Integration, z: Dims, cf: Config, r: nat) returns (ok: bool)
    requires Shaped(x, z) && GdqShaped(gdq, z) && i < gdq.Length0 && r < z.rows
    modifies gdq
    ensures ok <==> forall c :: 0 <= c < z.cols ==> PixelMask(x, z, cf, r, c).Some?
    ensures ok ==> forall i', g, r', c' :: 0 <= i' < gdq.Length0 && 0 <= g < z.groups && 0 <= r' < z.rows && 0 <= c' < z.cols ==>
      gdq[i', g, r', c'] == (if i' == i && r' == r then WriteBack(old(gdq[i', g, r', c']), MaskOf(x, z, cf, r', c'), g, cf.flags.jumpDet) else old(gdq[i', g, r', c']))
  {
    for c := 0 to z.cols
      invariant forall c' :: 0 <= c' < c ==> PixelMask(x, z, cf, r, c').Some?
      invariant forall i', g, r', c' :: 0 <= i' < gdq.Length0 && 0 <= g < z.groups && 0 <= r' < z.rows && 0 <= c' < z.cols ==>
        gdq[i', g, r', c'] == (if i' == i && r' == r && c' < c then WriteBack(old(gdq[i', g, r', c']), MaskOf(x, z, cf, r', c'), g, cf.flags.jumpDet) else old(gdq[i', g, r', c']))
    {
      ok := ClipAt(gdq, i, x, z, cf, r, c);
      if !ok {
        return;
      }
      RowExtend(x, z, cf, r, c);
    }
    ok := true;
  }

  /** The `for j in range(len(all_crs_row))` loop over the selected pixels
      of one integration. False when the clipping loop raises. */
  method ClipAll(gdq: array4<Dq>, i: nat, x: Integration, z: Dims, cf: Config) returns (ok: bool)
    requires Shaped(x, z) && GdqShaped(gdq, z) && i < gdq.Length0
    modifies gdq
    ensures ok <==> MasksOk(x, z, cf)
    ensures ok ==> forall i', g, r, c :: 0 <= i' < gdq.Length0 && 0 <= g < z.groups && 0 <= r < z.rows && 0 <= c < z.cols ==>
      gdq[i', g, r, c] == (if i' == i then WriteBack(old(gdq[i', g, r, c]), MaskOf(x, z, cf, r, c), g, cf.flags.jumpDet) else old(gdq[i', g, r, c]))
  {
    for r := 0 to z.rows
      invariant forall r', c :: 0 <= r' < r && 0 <= c < z.cols ==> PixelMask(x, z, cf, r', c).Some?
      invariant forall i', g, r', c :: 0 <= i' < gdq.Length0 && 0 <= g < z.groups && 0 <= r' < z.rows && 0 <= c < z.cols ==>
        gdq[i', g, r', c] == (if i' == i && r' < r then WriteBack(old(gdq[i', g, r', c]), MaskOf(x, z, cf, r', c), g, cf.flags.jumpDet) else old(gdq[i', g, r', c]))
    {
      ok := ClipRow(gdq, i, x, z, cf, r);
      if !ok {
        return;
      }
      RowsExtend(x, z, cf, r);
    }
    ok := true;
  }

  // ----- four-neighbour flagging -----

  predicate Grid<T>(s: seq<seq<T>>, nr: nat, nc: nat) {
    |s| == nr && forall r :: 0 <= r < nr ==> |s[r]| == nc
  }

  /** Cell (yr, yc) comes before (r, c) in the row-major order of
      `np.where`. */
  predicate Before(yr: int, yc: int, r: int, c: int) {
    yr < r || (yr == r && yc < c)
  }

  /** Cell (yr, yc) is in the grid, is a candidate, and has been handled
      by the time the scan reaches (r, c). */
  predicate CandBefore(C: seq<seq<bool>>, yr: int, yc: int, r: int, c: int) {
    0 <= yr < |C| && 0 <= yc < |C[yr]| && C[yr][yc] && Before(yr, yc, r, c)
  }

  /** A neighbour of (xr, xc) is a candidate handled before (r, c). */
  predicate HitBefore(C: seq<seq<bool>>, xr: int, xc: int, r: int, c: int) {
    || CandBefore(C, xr - 1, xc, r, c) || CandBefore(C, xr + 1, xc, r, c)
    || CandBefore(C, xr, xc - 1, r, c) || CandBefore(C, xr, xc + 1, r, c)
  }

  predicate Adjacent(xr: int, xc: int, r: int, c: int) {
    || (xr + 1 == r && xc == c) || (xr == r + 1 && xc == c)
    || (xr == r && xc + 1 == c) || (xr == r && xc == c + 1)
  }

  /** The state of group `g` of integration `i` once the scan reaches
      (r, c): each cell is its value `base` before the scan plus JUMP_DET
      when a neighbour was handled as a candidate, and the extra rows hold
      JUMP_DET under (above) each handled candidate of the first (last)
      row. */
  ghost predicate PlaneAt(gdq: array4<Dq>, below: array3<Dq>, above: array3<Dq>, i: nat, g: nat,
                          base: seq<seq<Dq>>, C: seq<seq<bool>>, jump: nat, r: int, c: int)
    reads gdq, below, above
  {
    && RowsShaped(gdq, below, above) && i < gdq.Length0 && g < gdq.Length1
    && Grid(base, gdq.Length2, gdq.Length3) && Grid(C, gdq.Length2, gdq.Length3)
    && (forall r', c' :: 0 <= r' < gdq.Length2 && 0 <= c' < gdq.Length3 ==>
          gdq[i, g, r', c'] == base[r'][c'] + Mark(HitBefore(C, r', c', r, c), jump))
    && (forall c' :: 0 <= c' < gdq.Length3 ==>
          && below[i, g, c'] == Mark(CandBefore(C, 0, c', r, c), jump)
          && above[i, g, c'] == Mark(CandBefore(C, gdq.Length2 - 1, c', r, c), jump))
  }

  /** Flag the four neighbours of the jump at (r, c) of group `g`, as the
      body of the source's candidate loop does once the ratio is in range:
      a neighbour off the first or last row goes to the extra row instead,
      one off the first or last column is dropped. */
  method FlagOne(gdq: array4<Dq>, below: array3<Dq>, above: array3<Dq>, i: nat, g: nat, r: nat, c: nat, jump: nat)
    requires RowsShaped(gdq, below, above) && below != above
    requires i < gdq.Length0 && g < gdq.Length1 && r < gdq.Length2 && c < gdq.Length3
    modifies gdq, below, above
    ensures forall i', g', r', c' :: 0 <= i' < gdq.Length0 && 0 <= g' < gdq.Length1 && 0 <= r' < gdq.Length2 && 0 <= c' < gdq.Length3 ==>
      gdq[i', g', r', c'] == (if i' == i && g' == g && Adjacent(r', c', r, c) then old(gdq[i', g', r', c']) + {jump} else old(gdq[i', g', r', c']))
    ensures forall i', g', c' :: 0 <= i' < gdq.Length0 && 0 <= g' < gdq.Length1 && 0 <= c' < gdq.Length3 ==>
      && below[i', g', c'] == (if i' == i && g' == g && c' == c && r == 0 then {jump} else old(below[i', g', c']))
      && above[i', g', c'] == (if i' == i && g' == g && c' == c && r == gdq.Length2 - 1 then {jump} else old(above[i', g', c']))
  {
    if r != 0 {
      gdq[i, g, r - 1, c] := gdq[i, g, r - 1, c] + {jump};
    } else {
      below[i, g, c] := {jump};
    }
    if r != gdq.Length2 - 1 {
      gdq[i, g, r + 1, c] := gdq[i, g, r + 1, c] + {jump};
    } else {
      above[i, g, c] := {jump};
    }
    if c != 0 {
      gdq[i, g, r, c - 1] := gdq[i, g, r, c - 1] + {jump};
    }
    if c != gdq.Length3 - 1 {
      gdq[i, g, r, c + 1] := gdq[i, g, r, c + 1] + {jump};
    }
  }

  /** Handling one more cell of the scan adds exactly its neighbours when
      it is a candidate. */
  lemma ScanStep(C: seq<seq<bool>>, nr: nat, nc: nat, xr: int, xc: int, r: nat, c: nat)
    requires Grid(C, nr, nc) && r < nr && c < nc
    ensures HitBefore(C, xr, xc, r, c + 1) == (HitBefore(C, xr, xc, r, c) || (C[r][c] && Adjacent(xr, xc, r, c)))
    ensures CandBefore(C, xr, xc, r, c + 1) == (CandBefore(C, xr, xc, r, c) || (C[r][c] && xr == r && xc == c))
  {
  }

  /** The end of a row is the start of the next. */
  lemma RowEnd(C: seq<seq<bool>>, nr: nat, nc: nat, xr: int, xc: int, r: nat)
    requires Grid(C, nr, nc)
    ensures HitBefore(C, xr, xc, r, nc) == HitBefore(C, xr, xc, r + 1, 0)
    ensures CandBefore(C, xr, xc, r, nc) == CandBefore(C, xr, xc, r + 1, 0)
  {
  }

  /** The candidate scan over row `r` of group `g`. */
  method FlagRow(gdq: array4<Dq>, below: array3<Dq>, above: array3<Dq>, i: nat, g: nat, r: nat,
                 C: seq<seq<bool>>, jump: nat, ghost base: seq<seq<Dq>>)
    requires PlaneAt(gdq, below, above, i, g, base, C, jump, r, 0) && r < gdq.Length2 && below != above
    modifies gdq, below, above
    ensures PlaneAt(gdq, below, above, i, g, base, C, jump, r + 1, 0)
    ensures forall i', g', r', c' :: 0 <= i' < gdq.Length0 && 0 <= g' < gdq.Length1 && 0 <= r' < gdq.Length2 && 0 <= c' < gdq.Length3 && (i' != i || g' != g) ==>
      gdq[i', g', r', c'] == old(gdq[i', g', r', c'])
    ensures forall i', g', c' :: 0 <= i' < gdq.Length0 && 0 <= g' < gdq.Length1 && 0 <= c' < gdq.Length3 && (i' != i || g' != g) ==>
      below[i', g', c'] == old(below[i', g', c']) && above[i', g', c'] == old(above[i', g', c'])
  {
    for c := 0 to gdq.Length3
      invariant PlaneAt(gdq, below, above, i, g, base, C, jump, r, c)
      invariant forall i', g', r', c' :: 0 <= i' < gdq.Length0 && 0 <= g' < gdq.Length1 && 0 <= r' < gdq.Length2 && 0 <= c' < gdq.Length3 && (i' != i || g' != g) ==>
        gdq[i', g', r', c'] == old(gdq[i', g', r', c'])
      invariant forall i', g', c' :: 0 <= i' < gdq.Length0 && 0 <= g' < gdq.Length1 && 0 <= c' < gdq.Length3 && (i' != i || g' != g) ==>
        below[i', g', c'] == old(below[i', g', c']) && above[i', g', c'] == old(above[i', g', c'])
    {
      forall xr: int, xc: int {
        ScanStep(C, gdq.Length2, gdq.Length3, xr, xc, r, c);
      }
      if C[r][c] {
        FlagOne(gdq, below, above, i, g, r, c, jump);
      }
    }
    forall xr: int, xc: int {
      RowEnd(C, gdq.Length2, gdq.Length3, xr, xc, r);
    }
  }

  /** The candidate scan over group `g`, row by row. */
  method FlagPlane(gdq: array4<Dq>, below: array3<Dq>, above: array3<Dq>, i: nat, g: nat,
                   C: seq<seq<bool>>, jump: nat, ghost base: seq<seq<Dq>>)
    requires PlaneAt(gdq, below, above, i, g, base, C, jump, 0, 0) && below != above
    modifies gdq, below, above
    ensures PlaneAt(gdq, below, above, i, g, base, C, jump, gdq.Length2, 0)
    ensures forall i', g', r', c' :: 0 <= i' < gdq.Length0 && 0 <= g' < gdq.Length1 && 0 <= r' < gdq.Length2 && 0 <= c' < gdq.Length3 && (i' != i || g' != g) ==>
      gdq[i', g', r', c'] == old(gdq[i', g', r', c'])
    ensures forall i', g', c' :: 0 <= i' < gdq.Length0 && 0 <= g' < gdq.Length1 && 0 <= c' < gdq.Length3 && (i' != i || g' != g) ==>
      below[i', g', c'] == old(below[i', g', c']) && above[i', g', c'] == old(above[i', g', c'])
  {
    for r := 0 to gdq.Length2
      invariant PlaneAt(gdq, below, above, i, g, base, C, jump, r, 0)
      invariant forall i', g', r', c' :: 0 <= i' < gdq.Length0 && 0 <= g' < gdq.Length1 && 0 <= r' < gdq.Length2 && 0 <= c' < gdq.Length3 && (i' != i || g' != g) ==>
        gdq[i', g', r', c'] == old(gdq[i', g', r', c'])
      invariant forall i', g', c' :: 0 <= i' < gdq.Length0 && 0 <= g' < gdq.Length1 && 0 <= c' < gdq.Length3 && (i' != i || g' != g) ==>
        below[i', g', c'] == old(below[i', g', c']) && above[i', g', c'] == old(above[i', g', c'])
    {
      FlagRow(gdq, below, above, i, g, r, C, jump, base);
    }
  }

  // ----- one integration -----

  /** The candidates of group `g` given its flags `plane` after the
      write-back: JUMP_DET set and the ratio strictly in range. */
  function CandOf(plane: seq<seq<Dq>>, x: Integration, z: Dims, cf: Config, g: nat): (C: seq<seq<bool>>)
    requires Shaped(x, z) && g < z.groups && Grid(plane, z.rows, z.cols)
    ensures Grid(C, z.rows, z.cols)
  {
    seq(z.rows, r requires 0 <= r < z.rows =>
      seq(z.cols, c requires 0 <= c < z.cols =>
        Has(plane[r][c], cf.flags.jumpDet) && InRange(RatioAt(x, z, cf, g, r, c), cf)))
  }

  /** The `if flag_4_neighbors` block for integration `i`, whose flags
      after the write-back are `wb`: the candidates of each group are taken
      from `wb` before any neighbour of that group is flagged. */
  method FlagNeighbours(gdq: array4<Dq>, below: array3<Dq>, above: array3<Dq>, i: nat, x: Integration, z: Dims, cf: Config,
                        ghost wb: seq<seq<seq<Dq>>>)
    requires Shaped(x, z) && GdqShaped(gdq, z) && RowsShaped(gdq, below, above) && below != above && i < gdq.Length0
    requires Cube(wb, z)
    requires forall g, r, c :: 0 <= g < z.groups && 0 <= r < z.rows && 0 <= c < z.cols ==> gdq[i, g, r, c] == wb[g][r][c]
    requires forall g, c :: 0 <= g < z.groups && 0 <= c < z.cols ==> below[i, g, c] == Clean && above[i, g, c] == Clean
    modifies gdq, below, above
    ensures forall g, r, c :: 0 <= g < z.groups && 0 <= r < z.rows && 0 <= c < z.cols ==>
      gdq[i, g, r, c] == wb[g][r][c] + Mark(HitBefore(CandOf(wb[g], x, z, cf, g), r, c, z.rows, 0), cf.flags.jumpDet)
    ensures forall g, c :: 0 <= g < z.groups && 0 <= c < z.cols ==>
      && below[i, g, c] == Mark(CandBefore(CandOf(wb[g], x, z, cf, g), 0, c, z.rows, 0), cf.flags.jumpDet)
      && above[i, g, c] == Mark(CandBefore(CandOf(wb[g], x, z, cf, g), z.rows - 1, c, z.rows, 0), cf.flags.jumpDet)
    ensures forall i', g, r, c :: 0 <= i' < gdq.Length0 && i' != i && 0 <= g < z.groups && 0 <= r < z.rows && 0 <= c < z.cols ==>
      gdq[i', g, r, c] == old(gdq[i', g, r, c])
    ensures forall i', g, c :: 0 <= i' < gdq.Length0 && i' != i && 0 <= g < z.groups && 0 <= c < z.cols ==>
      below[i', g, c] == old(below[i', g, c]) && above[i', g, c] == old(above[i', g, c])
  {
    var jump := cf.flags.jumpDet;
    for g := 0 to z.groups
      invariant forall g', r, c :: 0 <= g' < g && 0 <= r < z.rows && 0 <= c < z.cols ==>
        gdq[i, g', r, c] == wb[g'][r][c] + Mark(HitBefore(CandOf(wb[g'], x, z, cf, g'), r, c, z.rows, 0), jump)
      invariant forall g', r, c :: g <= g' < z.groups && 0 <= r < z.rows && 0 <= c < z.cols ==> gdq[i, g', r, c] == wb[g'][r][c]
      invariant forall g', c :: 0 <= g' < g && 0 <= c < z.cols ==>
        && below[i, g', c] == Mark(CandBefore(CandOf(wb[g'], x, z, cf, g'), 0, c, z.rows, 0), jump)
        && above[i, g', c] == Mark(CandBefore(CandOf(wb[g'], x, z, cf, g'), z.rows - 1, c, z.rows, 0), jump)
      invariant forall g', c :: g <= g' < z.groups && 0 <= c < z.cols ==> below[i, g', c] == Clean && above[i, g', c] == Clean
      invariant forall i', g', r, c :: 0 <= i' < gdq.Length0 && i' != i && 0 <= g' < z.groups && 0 <= r < z.rows && 0 <= c < z.cols ==>
        gdq[i', g', r, c] == old(gdq[i', g', r, c])
      invariant forall i', g', c :: 0 <= i' < gdq.Length0 && i' != i && 0 <= g' < z.groups && 0 <= c < z.cols ==>
        below[i', g', c] == old(below[i', g', c]) && above[i', g', c] == old(above[i', g', c])
    {
      var plane := seq(z.rows, r requires 0 <= r < z.rows reads gdq =>
        seq(z.cols, c requires 0 <= c < z.cols reads gdq => gdq[i, g, r, c]));
      forall r | 0 <= r < z.rows
        ensures plane[r] == wb[g][r]
      {
        assert forall c :: 0 <= c < z.cols ==> plane[r][c] == wb[g][r][c];
      }
      assert plane == wb[g];
      var cand := CandOf(plane, x, z, cf, g);
      FlagPlane(gdq, below, above, i, g, cand, jump, plane);
    }
  }

  /** The flags of one integration after the write-back. */
  ghost function WbStack(x: Integration, z: Dims, cf: Config): (wb: seq<seq<seq<Dq>>>)
    requires Shaped(x, z)
    ensures Cube(wb, z)
    ensures forall g, r, c :: 0 <= g < z.groups && 0 <= r < z.rows && 0 <= c < z.cols ==> wb[g][r][c] == WbCell(x, z, cf, g, r, c)
  {
    seq(z.groups, g requires 0 <= g < z.groups =>
      seq(z.rows, r requires 0 <= r < z.rows =>
        seq(z.cols, c requires 0 <= c < z.cols => WbCell(x, z, cf, g, r, c))))
  }

  lemma CandCell(x: Integration, z: Dims, cf: Config, g: nat, y: nat, w: nat)
    requires Shaped(x, z) && g < z.groups && y < z.rows && w < z.cols
    ensures CandOf(WbStack(x, z, cf)[g], x, z, cf, g)[y][w] == Cand(x, z, cf, g, y, w)
  {
  }

  /** Every cell of the grid is handled by the end of the scan, and it was
      a candidate of the scan exactly when it is one of `Cand`; this gives
      the extra rows of `BelowCell` and `AboveCell`. */
  lemma ScanMatchesCell(x: Integration, z: Dims, cf: Config, g: nat, y: nat, w: nat)
    requires Shaped(x, z) && g < z.groups && y < z.rows && w < z.cols
    ensures CandBefore(CandOf(WbStack(x, z, cf)[g], x, z, cf, g), y, w, z.rows, 0) == Cand(x, z, cf, g, y, w)
  {
    var C := CandOf(WbStack(x, z, cf)[g], x, z, cf, g);
    CandCell(x, z, cf, g, y, w);
    assert Before(y, w, z.rows, 0);
    assert y < |C| && w < |C[y]|;
  }

  /** The same for any position, in the grid or not. */
  lemma ScanMatchesAt(x: Integration, z: Dims, cf: Config, g: nat, y: int, w: int)
    requires Shaped(x, z) && g < z.groups
    ensures CandBefore(CandOf(WbStack(x, z, cf)[g], x, z, cf, g), y, w, z.rows, 0)
      == (0 <= y < z.rows && 0 <= w < z.cols && Cand(x, z, cf, g, y, w))
  {
    if 0 <= y < z.rows && 0 <= w < z.cols {
      ScanMatchesCell(x, z, cf, g, y, w);
    }
  }

  /** The scan's candidates taken from the write-back are the cells of
      `Cand`, so the scan flags exactly the cells of `Hit`. */
  lemma ScanMatchesSpec(x: Integration, z: Dims, cf: Config, g: nat, r: nat, c: nat)
    requires Shaped(x, z) && g < z.groups && r < z.rows && c < z.cols
    ensures HitBefore(CandOf(WbStack(x, z, cf)[g], x, z, cf, g), r, c, z.rows, 0) == Hit(x, z, cf, g, r, c)
  {
    var C := CandOf(WbStack(x, z, cf)[g], x, z, cf, g);
    forall y: int, w: int
      ensures CandBefore(C, y, w, z.rows, 0) == (0 <= y < z.rows && 0 <= w < z.cols && Cand(x, z, cf, g, y, w))
    {
      ScanMatchesAt(x, z, cf, g, y, w);
    }
  }

  /** Integration `i` of the outputs is what `find_crs` returns for it. */
  ghost predicate IntegDone(gdq: array4<Dq>, below: array3<Dq>, above: array3<Dq>, i: nat, x: Integration, z: Dims, cf: Config)
    reads gdq, below, above
  {
    && Shaped(x, z) && GdqShaped(gdq, z) && RowsShaped(gdq, below, above) && i < gdq.Length0
    && (forall g, r, c :: 0 <= g < z.groups && 0 <= r < z.rows && 0 <= c < z.cols ==>
          gdq[i, g, r, c] == FinalCell(x, z, cf, g, r, c))
    && (forall g, c :: 0 <= g < z.groups && 0 <= c < z.cols ==>
          below[i, g, c] == BelowCell(x, z, cf, g, c) && above[i, g, c] == AboveCell(x, z, cf, g, c))
  }

  /** Integration `i` of the outputs still holds the input flags and empty
      extra rows. */
  ghost predicate IntegFresh(gdq: array4<Dq>, below: array3<Dq>, above: array3<Dq>, i: nat, x: Integration, z: Dims)
    reads gdq, below, above
  {
    && Shaped(x, z) && GdqShaped(gdq, z) && RowsShaped(gdq, below, above) && i < gdq.Length0
    && (forall g, r, c :: 0 <= g < z.groups && 0 <= r < z.rows && 0 <= c < z.cols ==> gdq[i, g, r, c] == x.dq[g][r][c])
    && (forall g, c :: 0 <= g < z.groups && 0 <= c < z.cols ==> below[i, g, c] == Clean && above[i, g, c] == Clean)
  }

  /** Without neighbour flagging, the write-back is the whole result. */
  lemma DoneWithoutNeighbours(gdq: array4<Dq>, below: array3<Dq>, above: array3<Dq>, i: nat, x: Integration, z: Dims, cf: Config)
    requires Shaped(x, z) && GdqShaped(gdq, z) && RowsShaped(gdq, below, above) && i < gdq.Length0 && !cf.flag4
    requires forall g, r, c :: 0 <= g < z.groups && 0 <= r < z.rows && 0 <= c < z.cols ==> gdq[i, g, r, c] == WbCell(x, z, cf, g, r, c)
    requires forall g, c :: 0 <= g < z.groups && 0 <= c < z.cols ==> below[i, g, c] == Clean && above[i, g, c] == Clean
    ensures IntegDone(gdq, below, above, i, x, z, cf)
  {
  }

  /** The neighbour scan over the write-back gives the returned flags ... */
  lemma ScanGivesFinal(gdq: array4<Dq>, i: nat, x: Integration, z: Dims, cf: Config)
    requires Shaped(x, z) && GdqShaped(gdq, z) && i < gdq.Length0 && cf.flag4
    requires forall g, r, c :: 0 <= g < z.groups && 0 <= r < z.rows && 0 <= c < z.cols ==>
      gdq[i, g, r, c] == WbStack(x, z, cf)[g][r][c] + Mark(HitBefore(CandOf(WbStack(x, z, cf)[g], x, z, cf, g), r, c, z.rows, 0), cf.flags.jumpDet)
    ensures forall g, r, c :: 0 <= g < z.groups && 0 <= r < z.rows && 0 <= c < z.cols ==>
      gdq[i, g, r, c] == FinalCell(x, z, cf, g, r, c)
  {
    forall g, r, c | 0 <= g < z.groups && 0 <= r < z.rows && 0 <= c < z.cols
      ensures gdq[i, g, r, c] == FinalCell(x, z, cf, g, r, c)
    {
      ScanMatchesSpec(x, z, cf, g, r, c);
    }
  }

  /** ... and the extra row below the first ... */
  lemma ScanGivesBelow(gdq: array4<Dq>, below: array3<Dq>, i: nat, x: Integration, z: Dims, cf: Config)
    requires Shaped(x, z) && GdqShaped(gdq, z) && below.Length0 == gdq.Length0 && below.Length1 == z.groups
    requires below.Length2 == z.cols && i < gdq.Length0 && cf.flag4
    requires forall g, c :: 0 <= g < z.groups && 0 <= c < z.cols ==>
      below[i, g, c] == Mark(CandBefore(CandOf(WbStack(x, z, cf)[g], x, z, cf, g), 0, c, z.rows, 0), cf.flags.jumpDet)
    ensures forall g, c :: 0 <= g < z.groups && 0 <= c < z.cols ==> below[i, g, c] == BelowCell(x, z, cf, g, c)
  {
    forall g, c | 0 <= g < z.groups && 0 <= c < z.cols
      ensures below[i, g, c] == BelowCell(x, z, cf, g, c)
    {
      if z.rows > 0 {
        ScanMatchesCell(x, z, cf, g, 0, c);
      }
    }
  }

  /** ... and the extra row above the last. */
  lemma ScanGivesAbove(gdq: array4<Dq>, above: array3<Dq>, i: nat, x: Integration, z: Dims, cf: Config)
    requires Shaped(x, z) && GdqShaped(gdq, z) && above.Length0 == gdq.Length0 && above.Length1 == z.groups
    requires above.Length2 == z.cols && i < gdq.Length0 && cf.flag4
    requires forall g, c :: 0 <= g < z.groups && 0 <= c < z.cols ==>
      above[i, g, c] == Mark(CandBefore(CandOf(WbStack(x, z, cf)[g], x, z, cf, g), z.rows - 1, c, z.rows, 0), cf.flags.jumpDet)
    ensures forall g, c :: 0 <= g < z.groups && 0 <= c < z.cols ==> above[i, g, c] == AboveCell(x, z, cf, g, c)
  {
    forall g, c | 0 <= g < z.groups && 0 <= c < z.cols
      ensures above[i, g, c] == AboveCell(x, z, cf, g, c)
    {
      var C := CandOf(WbStack(x, z, cf)[g], x, z, cf, g);
      forall y: int, w: int
        ensures CandBefore(C, y, w, z.rows, 0) == (0 <= y < z.rows && 0 <= w < z.cols && Cand(x, z, cf, g, y, w))
      {
        ScanMatchesAt(x, z, cf, g, y, w);
      }
    }
  }

  /** The neighbour scan over the write-back gives the result. */
  lemma DoneWithNeighbours(gdq: array4<Dq>, below: array3<Dq>, above: array3<Dq>, i: nat, x: Integration, z: Dims, cf: Config)
    requires Shaped(x, z) && GdqShaped(gdq, z) && RowsShaped(gdq, below, above) && i < gdq.Length0 && cf.flag4
    requires forall g, r, c :: 0 <= g < z.groups && 0 <= r < z.rows && 0 <= c < z.cols ==>
      gdq[i, g, r, c] == WbStack(x, z, cf)[g][r][c] + Mark(HitBefore(CandOf(WbStack(x, z, cf)[g], x, z, cf, g), r, c, z.rows, 0), cf.flags.jumpDet)
    requires forall g, c :: 0 <= g < z.groups && 0 <= c < z.cols ==>
      && below[i, g, c] == Mark(CandBefore(CandOf(WbStack(x, z, cf)[g], x, z, cf, g), 0, c, z.rows, 0), cf.flags.jumpDet)
      && above[i, g, c] == Mark(CandBefore(CandOf(WbStack(x, z, cf)[g], x, z, cf, g), z.rows - 1, c, z.rows, 0), cf.flags.jumpDet)
    ensures IntegDone(gdq, below, above, i, x, z, cf)
  {
    ScanGivesFinal(gdq, i, x, z, cf);
    ScanGivesBelow(gdq, below, i, x, z, cf);
    ScanGivesAbove(gdq, above, i, x, z, cf);
  }

  /** The body of `for integ in range(nints)`. False when the clipping
      loop raises. */
  method ProcessInteg(gdq: array4<Dq>, below: array3<Dq>, above: array3<Dq>, i: nat, x: Integration, z: Dims, cf: Config)
    returns (ok: bool)
    requires IntegFresh(gdq, below, above, i, x, z) && below != above
    modifies gdq, below, above
    ensures ok <==> MasksOk(x, z, cf)
    ensures ok ==> IntegDone(gdq, below, above, i, x, z, cf)
    ensures ok ==> forall i', g, r, c :: 0 <= i' < gdq.Length0 && i' != i && 0 <= g < z.groups && 0 <= r < z.rows && 0 <= c < z.cols ==>
      gdq[i', g, r, c] == old(gdq[i', g, r, c])
    ensures ok ==> forall i', g, c :: 0 <= i' < gdq.Length0 && i' != i && 0 <= g < z.groups && 0 <= c < z.cols ==>
      below[i', g, c] == old(below[i', g, c]) && above[i', g, c] == old(above[i', g, c])
  {
    ok := ClipAll(gdq, i, x, z, cf);
    if !ok {
      return;
    }
    if cf.flag4 {
      FlagNeighbours(gdq, below, above, i, x, z, cf, WbStack(x, z, cf));
      DoneWithNeighbours(gdq, below, above, i, x, z, cf);
    } else {
      DoneWithoutNeighbours(gdq, below, above, i, x, z, cf);
    }
  }

  /** One more integration whose clipping loops all end. */
  lemma MasksExtend(data: seq<seq<seq<seq<Option<real>>>>>, groupDq: seq<seq<seq<seq<Dq>>>>, readNoise: seq<seq<real>>,
                    z: Dims, cf: Config, i: nat)
    requires i < |data| == |groupDq|
    requires forall i' :: 0 <= i' < |data| ==> Shaped(Integration(data[i'], groupDq[i'], readNoise), z)
    requires forall i' :: 0 <= i' < i ==> MasksOk(Integration(data[i'], groupDq[i'], readNoise), z, cf)
    requires MasksOk(Integration(data[i], groupDq[i], readNoise), z, cf)
    ensures forall i' :: 0 <= i' <= i ==> MasksOk(Integration(data[i'], groupDq[i'], readNoise), z, cf)
  {
  }

  /** One turn of `for integ in range(nints)`, with what it keeps of the
      other integrations. */
  method FindStep(gdq: array4<Dq>, below: array3<Dq>, above: array3<Dq>,
                  data: seq<seq<seq<seq<Option<real>>>>>, groupDq: seq<seq<seq<seq<Dq>>>>, readNoise: seq<seq<real>>,
                  z: Dims, cf: Config, i: nat)
    returns (ok: bool)
    requires i < |data| == |groupDq| == gdq.Length0 && below != above
    requires forall i' :: 0 <= i' < |data| ==> Shaped(Integration(data[i'], groupDq[i'], readNoise), z)
    requires forall i' :: 0 <= i' < i ==> IntegDone(gdq, below, above, i', Integration(data[i'], groupDq[i'], readNoise), z, cf)
    requires forall i' :: i <= i' < |data| ==> IntegFresh(gdq, below, above, i', Integration(data[i'], groupDq[i'], readNoise), z)
    modifies gdq, below, above
    ensures ok <==> MasksOk(Integration(data[i], groupDq[i], readNoise), z, cf)
    ensures ok ==> forall i' :: 0 <= i' <= i ==> IntegDone(gdq, below, above, i', Integration(data[i'], groupDq[i'], readNoise), z, cf)
    ensures ok ==> forall i' :: i < i' < |data| ==> IntegFresh(gdq, below, above, i', Integration(data[i'], groupDq[i'], readNoise), z)
  {
    ok := ProcessInteg(gdq, below, above, i, Integration(data[i], groupDq[i], readNoise), z, cf);
  }

  /** `find_crs(dataa, group_dq, read_noise, ...)`: integration by
      integration, on fresh copies of the inputs. False when the clipping
      loop raises (numpy's ValueError from `nanargmax`). */
  method FindCrs(data: seq<seq<seq<seq<Option<real>>>>>, groupDq: seq<seq<seq<seq<Dq>>>>, readNoise: seq<seq<real>>,
                 z: Dims, cf: Config)
    returns (ok: bool, gdq: array4<Dq>, rowBelow: array3<Dq>, rowAbove: array3<Dq>)
    requires |groupDq| == |data|
    requires forall i :: 0 <= i < |data| ==> Shaped(Integration(data[i], groupDq[i], readNoise), z)
    ensures fresh(gdq) && fresh(rowBelow) && fresh(rowAbove)
    ensures gdq.Length0 == |data| && GdqShaped(gdq, z) && RowsShaped(gdq, rowBelow, rowAbove)
    ensures ok <==> forall i :: 0 <= i < |data| ==> MasksOk(Integration(data[i], groupDq[i], readNoise), z, cf)
    ensures ok ==> forall i :: 0 <= i < |data| ==> IntegDone(gdq, rowBelow, rowAbove, i, Integration(data[i], groupDq[i], readNoise), z, cf)
  {
    var n := |data|;
    gdq := new Dq[n, z.groups, z.rows, z.cols]((i, g, r, c) requires 0 <= i < n && 0 <= g < z.groups && 0 <= r < z.rows && 0 <= c < z.cols =>
      groupDq[i][g][r][c]);
    rowBelow := new Dq[n, z.groups, z.cols]((i, g, c) => Clean);
    rowAbove := new Dq[n, z.groups, z.cols]((i, g, c) => Clean);
    for i := 0 to n
      invariant forall i' :: 0 <= i' < i ==> MasksOk(Integration(data[i'], groupDq[i'], readNoise), z, cf)
      invariant forall i' :: 0 <= i' < i ==> IntegDone(gdq, rowBelow, rowAbove, i', Integration(data[i'], groupDq[i'], readNoise), z, cf)
      invariant forall i' :: i <= i' < n ==> IntegFresh(gdq, rowBelow, rowAbove, i', Integration(data[i'], groupDq[i'], readNoise), z)
    {
      ok := FindStep(gdq, rowBelow, rowAbove, data, groupDq, readNoise, z, cf, i);
      if !ok {
        return;
      }
      MasksExtend(data, groupDq, readNoise, z, cf, i);
    }
    ok := true;
  }
}

/**
 * The brightness patch selector of `img_bright_quadrilateral.py`.
 *
 * Every `patchSize`×`patchSize` block of a grayscale image is a candidate, met in
 * row-major order of its top-left corner (its anchor). The candidates are
 * stable-sorted by descending brightness and kept greedily, brightest first, unless
 * they overlap one already kept, until `maxPatchCount` are kept. The centres of the
 * kept blocks are the vertices of the quadrilateral.
 *
 * A pixel value is an integer and a block's brightness is the integer sum of its
 * pixels: the mean over a block of fixed size orders blocks exactly as the sum does
 * (`MeanOrdersLikeSum`).
 */
module BrightQuadrilateral {
  import opened Common
  import opened Sorting
  import opened Geometry

  /** A candidate block: its brightness and the row and column of its top-left pixel. */
  datatype Patch = Patch(brightness: int, row: nat, col: nat)

  // ---------------------------------------------------------------------------
  // Images and block brightness

  /** A grayscale image of `|grayIm|` rows, each `width` pixels wide. */
  predicate IsImage(grayIm: seq<seq<int>>, width: nat)
  {
    forall i :: 0 <= i < |grayIm| ==> |grayIm[i]| == width
  }

  function Sum(xs: seq<int>): int
  {
    if xs == [] then 0 else Sum(xs[..|xs| - 1]) + xs[|xs| - 1]
  }

  /** The sum of columns `col` to `col + ps - 1` over the given rows. */
  function RowsSum(rows: seq<seq<int>>, col: nat, ps: nat): int
    requires forall i :: 0 <= i < |rows| ==> col + ps <= |rows[i]|
  {
    if rows == [] then 0
    else RowsSum(rows[..|rows| - 1], col, ps) + Sum(rows[|rows| - 1][col..col + ps])
  }

  /** The pixel sum of `gray_im[row : row + ps, col : col + ps]`. */
  function BlockSum(grayIm: seq<seq<int>>, width: nat, row: nat, col: nat, ps: nat): int
    requires IsImage(grayIm, width) && row + ps <= |grayIm| && col + ps <= width
  {
    RowsSum(grayIm[row..row + ps], col, ps)
  }

  /** `np.mean` of a block of `ps`×`ps` pixels whose sum is `blockSum`. */
  function Mean(blockSum: int, ps: nat): real
    requires ps >= 1
  {
    blockSum as real / (ps * ps) as real
  }

  /** Blocks of one size compare by mean exactly as they compare by sum. */
  lemma MeanOrdersLikeSum(a: int, b: int, ps: nat)
    requires ps >= 1
    ensures Mean(a, ps) < Mean(b, ps) <==> a < b
    ensures Mean(a, ps) == Mean(b, ps) <==> a == b
  {
    var d := (ps * ps) as real;
    assert d > 0.0;
    assert Mean(a, ps) * d == a as real && Mean(b, ps) * d == b as real;
    if Mean(a, ps) < Mean(b, ps) {
      assert Mean(a, ps) * d < Mean(b, ps) * d;
    }
    if a < b {
      assert (b as real - a as real) / d > 0.0;
      assert Mean(b, ps) - Mean(a, ps) == (b as real - a as real) / d;
    }
  }

  // ---------------------------------------------------------------------------
  // The candidates

  /** `len(range(size - ps + 1))`: how many anchors fit along a side of `size` pixels. */
  function AnchorCount(size: int, ps: nat): nat
  {
    if size - ps + 1 > 0 then size - ps + 1 else 0
  }

  /** An integer multiple of a positive `c` that lies strictly between `-c` and `c` is zero. */
  lemma MultipleBetween(d: int, c: int)
    requires c > 0 && -c < d * c < c
    ensures d == 0
  {
  }

  /** A multiple of a positive `c` below `c` is a non-positive multiple. */
  lemma MultipleBelow(d: int, c: int)
    requires c > 0 && d * c < c
    ensures d <= 0
  {
  }

  /** Index `k` of a row-major enumeration with `cols` entries per row falls in row `k / cols`. */
  lemma RowMajorBounds(k: int, rows: nat, cols: nat)
    requires 0 <= k < rows * cols
    ensures cols > 0 && k / cols < rows && k % cols < cols
  {
    assert cols > 0;
    var q := k / cols;
    assert q * cols <= k;
    assert (rows - q) * cols > 0;
  }

  /** Every anchor with its block brightness, in row-major order. */
  function Anchors(grayIm: seq<seq<int>>, width: nat, ps: nat): (a: seq<Patch>)
    requires IsImage(grayIm, width)
  {
    var rows, cols := AnchorCount(|grayIm|, ps), AnchorCount(width, ps);
    seq(rows * cols, k requires 0 <= k < rows * cols =>
      RowMajorBounds(k, rows, cols);
      Patch(BlockSum(grayIm, width, k / cols, k % cols, ps), k / cols, k % cols))
  }

  /** Row-major position: `(row, col)` stands at index `row * cols + col`. */
  lemma RowMajorDivMod(row: nat, col: nat, cols: nat)
    requires col < cols
    ensures (row * cols + col) / cols == row && (row * cols + col) % cols == col
  {
    var k := row * cols + col;
    var q, r := k / cols, k % cols;
    assert k == q * cols + r;
    assert (q - row) * cols == col - r;
    MultipleBetween(q - row, cols);
  }

  /**
   * The candidates are exactly the anchors `0 <= row <= H - ps`, `0 <= col <= W - ps`,
   * the anchor `(row, col)` at index `row * cols + col`.
   */
  lemma AnchorAt(grayIm: seq<seq<int>>, width: nat, ps: nat, row: nat, col: nat)
    requires IsImage(grayIm, width)
    requires row < AnchorCount(|grayIm|, ps) && col < AnchorCount(width, ps)
    ensures |Anchors(grayIm, width, ps)| == AnchorCount(|grayIm|, ps) * AnchorCount(width, ps)
    ensures row * AnchorCount(width, ps) + col < |Anchors(grayIm, width, ps)|
    ensures Anchors(grayIm, width, ps)[row * AnchorCount(width, ps) + col] ==
      Patch(BlockSum(grayIm, width, row, col, ps), row, col)
  {
    var rows, cols := AnchorCount(|grayIm|, ps), AnchorCount(width, ps);
    assert row * cols + col < (row + 1) * cols <= rows * cols;
    RowMajorDivMod(row, col, cols);
  }

  /** The anchors `(row, col)` and `(row', col')` are in row-major order. */
  predicate RowMajorBefore(a: Patch, b: Patch)
  {
    a.row < b.row || (a.row == b.row && a.col < b.col)
  }

  /** Indices `i < j` of a row-major enumeration fall in rows, and then columns, in that order. */
  lemma RowMajorOrder(i: int, j: int, rows: nat, cols: nat)
    requires 0 <= i < j < rows * cols
    ensures cols > 0
    ensures i / cols < j / cols || (i / cols == j / cols && i % cols < j % cols)
  {
    RowMajorBounds(i, rows, cols);
    RowMajorBounds(j, rows, cols);
    var qi, qj := i / cols, j / cols;
    assert i == qi * cols + i % cols && j == qj * cols + j % cols;
    assert (qi - qj) * cols == qi * cols - qj * cols;
    MultipleBelow(qi - qj, cols);
  }

  /** The anchor at index `k` is `(k / cols, k % cols)`, with its block inside the image. */
  lemma AnchorIndex(grayIm: seq<seq<int>>, width: nat, ps: nat, k: int)
    requires IsImage(grayIm, width)
    requires 0 <= k < |Anchors(grayIm, width, ps)|
    ensures AnchorCount(width, ps) > 0
    ensures k / AnchorCount(width, ps) + ps <= |grayIm| && k % AnchorCount(width, ps) + ps <= width
    ensures Anchors(grayIm, width, ps)[k] ==
      Patch(BlockSum(grayIm, width, k / AnchorCount(width, ps), k % AnchorCount(width, ps), ps),
            k / AnchorCount(width, ps), k % AnchorCount(width, ps))
  {
    RowMajorBounds(k, AnchorCount(|grayIm|, ps), AnchorCount(width, ps));
  }

  /** The anchors are listed in strictly increasing row-major order, each block fitting in the image. */
  lemma AnchorsRowMajor(grayIm: seq<seq<int>>, width: nat, ps: nat)
    requires IsImage(grayIm, width)
    ensures forall i, j :: 0 <= i < j < |Anchors(grayIm, width, ps)| ==>
      RowMajorBefore(Anchors(grayIm, width, ps)[i], Anchors(grayIm, width, ps)[j])
    ensures forall p :: p in Anchors(grayIm, width, ps) ==>
      p.row + ps <= |grayIm| && p.col + ps <= width && p.brightness == BlockSum(grayIm, width, p.row, p.col, ps)
  {
    var a := Anchors(grayIm, width, ps);
    var rows, cols := AnchorCount(|grayIm|, ps), AnchorCount(width, ps);
    assert |a| == rows * cols;
    forall i, j | 0 <= i < j < |a|
      ensures RowMajorBefore(a[i], a[j])
    {
      AnchorIndex(grayIm, width, ps, i);
      AnchorIndex(grayIm, width, ps, j);
      RowMajorOrder(i, j, rows, cols);
    }
    forall p | p in a
      ensures p.row + ps <= |grayIm| && p.col + ps <= width && p.brightness == BlockSum(grayIm, width, p.row, p.col, ps)
    {
      var k :| 0 <= k < |a| && a[k] == p;
      AnchorIndex(grayIm, width, ps, k);
    }
  }

  /** The nested loops of lines 85-90: every anchor with its brightness, row by row. */
  method AllPatches(grayIm: seq<seq<int>>, width: nat, patchSize: nat) returns (totalPatches: seq<Patch>)
    requires IsImage(grayIm, width)
    ensures totalPatches == Anchors(grayIm, width, patchSize)
  {
    var rows, cols := AnchorCount(|grayIm|, patchSize), AnchorCount(width, patchSize);
    ghost var all := Anchors(grayIm, width, patchSize);
    assert |all| == rows * cols;
    totalPatches := [];
    for row := 0 to rows
      invariant row * cols <= |all|
      invariant totalPatches == all[..row * cols]
    {
      ghost var base := row * cols;
      assert base + cols == (row + 1) * cols;
      assert (row + 1) * cols <= rows * cols by {
        assert (rows - (row + 1)) * cols >= 0;
      }
      for col := 0 to cols
        invariant totalPatches == all[..base + col]
      {
        AnchorAt(grayIm, width, patchSize, row, col);
        assert all[..base + col + 1] == all[..base + col] + [all[base + col]];
        var patchBrightness := BlockSum(grayIm, width, row, col, patchSize);
        totalPatches := totalPatches + [Patch(patchBrightness, row, col)];
      }
    }
    assert all[..rows * cols] == all;
  }

  // ---------------------------------------------------------------------------
  // Overlap and the greedy choice

  function Brightness(p: Patch): int
  {
    p.brightness
  }

  /** `reverse=True` on brightness: the brighter block comes first. */
  predicate Brighter(a: int, b: int)
  {
    a > b
  }

  lemma BrighterIsStrictTotalOrder()
    ensures StrictTotalOrder(Brighter)
  {
  }

  /** The blocks of two anchors share a pixel: they are less than `ps` apart in both directions. */
  predicate Conflict(a: Patch, b: Patch, ps: int)
  {
    Abs(a.row - b.row) < ps && Abs(a.col - b.col) < ps
  }

  predicate ConflictsWithAny(p: Patch, kept: seq<Patch>, ps: int)
  {
    exists q :: q in kept && Conflict(p, q, ps)
  }

  /** `_check_overlap`: does `testPatch` overlap a block of `patchList`? */
  method CheckOverlap(testPatch: Patch, patchList: seq<Patch>, patchSize: int) returns (overlap: bool)
    ensures overlap <==> exists q :: q in patchList && Conflict(testPatch, q, patchSize)
  {
    if |patchList| == 0 {
      return false;
    }
    for i := 0 to |patchList|
      invariant forall k :: 0 <= k < i ==> !Conflict(testPatch, patchList[k], patchSize)
    {
      var patch := patchList[i];
      if Abs(testPatch.row - patch.row) < patchSize && Abs(testPatch.col - patch.col) < patchSize {
        assert patch in patchList && Conflict(testPatch, patch, patchSize);
        return true;
      }
    }
    return false;
  }

  /** The blocks kept after the first `n` candidates of `s` have been considered. */
  function GreedyUpTo(s: seq<Patch>, ps: int, maxPatchCount: int, n: nat): seq<Patch>
    requires n <= |s|
  {
    if n == 0 then []
    else
      var prev := GreedyUpTo(s, ps, maxPatchCount, n - 1);
      if |prev| < maxPatchCount && !ConflictsWithAny(s[n - 1], prev, ps) then prev + [s[n - 1]]
      else prev
  }

  function Greedy(s: seq<Patch>, ps: int, maxPatchCount: int): seq<Patch>
  {
    GreedyUpTo(s, ps, maxPatchCount, |s|)
  }

  /** Once `maxPatchCount` blocks are kept, nothing more is kept. */
  lemma {:induction false} GreedyFullStays(s: seq<Patch>, ps: int, maxPatchCount: int, m: nat, n: nat)
    requires m <= n <= |s|
    requires |GreedyUpTo(s, ps, maxPatchCount, m)| >= maxPatchCount
    ensures GreedyUpTo(s, ps, maxPatchCount, n) == GreedyUpTo(s, ps, maxPatchCount, m)
  {
    if n > m {
      GreedyFullStays(s, ps, maxPatchCount, m, n - 1);
    }
  }

  /** The greedy loop of lines 93-99, leaving the loop as soon as the list is full. */
  method SelectBrightest(totalPatches: seq<Patch>, patchSize: int, maxPatchCount: int) returns (topkPatches: seq<Patch>)
    ensures topkPatches == Greedy(totalPatches, patchSize, maxPatchCount)
  {
    topkPatches := [];
    for i := 0 to |totalPatches|
      invariant topkPatches == GreedyUpTo(totalPatches, patchSize, maxPatchCount, i)
    {
      var patch := totalPatches[i];
      if |topkPatches| < maxPatchCount {
        var overlap := CheckOverlap(patch, topkPatches, patchSize);
        if !overlap {
          topkPatches := topkPatches + [patch];
        }
      } else {
        GreedyFullStays(totalPatches, patchSize, maxPatchCount, i, |totalPatches|);
        return;
      }
    }
  }

  // ---------------------------------------------------------------------------
  // What the greedy choice satisfies

  /**
   * The kept blocks are a subsequence of the candidates (`idx` gives their
   * positions), at most `maxPatchCount` of them, no two overlapping.
   */
  lemma {:induction false} GreedyShape(s: seq<Patch>, ps: int, maxPatchCount: int, n: nat) returns (idx: seq<nat>)
    requires n <= |s|
    ensures |idx| == |GreedyUpTo(s, ps, maxPatchCount, n)|
    ensures forall k :: 0 <= k < |idx| ==> idx[k] < n && GreedyUpTo(s, ps, maxPatchCount, n)[k] == s[idx[k]]
    ensures forall a, b :: 0 <= a < b < |idx| ==> idx[a] < idx[b]
    ensures |GreedyUpTo(s, ps, maxPatchCount, n)| <= if maxPatchCount > 0 then maxPatchCount else 0
    ensures forall a, b :: 0 <= a < b < |GreedyUpTo(s, ps, maxPatchCount, n)| ==>
      !Conflict(GreedyUpTo(s, ps, maxPatchCount, n)[a], GreedyUpTo(s, ps, maxPatchCount, n)[b], ps)
  {
    if n == 0 {
      idx := [];
    } else {
      var prev := GreedyUpTo(s, ps, maxPatchCount, n - 1);
      idx := GreedyShape(s, ps, maxPatchCount, n - 1);
      if |prev| < maxPatchCount && !ConflictsWithAny(s[n - 1], prev, ps) {
        idx := idx + [n - 1];
        var r := prev + [s[n - 1]];
        forall a, b | 0 <= a < b < |r|
          ensures !Conflict(r[a], r[b], ps)
        {
          if b == |r| - 1 {
            assert r[a] in prev;
            assert !Conflict(s[n - 1], r[a], ps);
          }
        }
      }
    }
  }

  /** The blocks kept after `m` candidates start the blocks kept after `n >= m`. */
  lemma {:induction false} GreedyPrefix(s: seq<Patch>, ps: int, maxPatchCount: int, m: nat, n: nat)
    requires m <= n <= |s|
    ensures GreedyUpTo(s, ps, maxPatchCount, m) <= GreedyUpTo(s, ps, maxPatchCount, n)
  {
    if n > m {
      GreedyPrefix(s, ps, maxPatchCount, m, n - 1);
    }
  }

  /**
   * A candidate considered while the list was not yet full is kept, or overlaps a
   * block kept before it was considered (and so kept in the end).
   */
  lemma GreedyConsidered(s: seq<Patch>, ps: int, maxPatchCount: int, i: nat)
    requires i < |s| && |GreedyUpTo(s, ps, maxPatchCount, i)| < maxPatchCount
    ensures s[i] in Greedy(s, ps, maxPatchCount) || ConflictsWithAny(s[i], GreedyUpTo(s, ps, maxPatchCount, i), ps)
    ensures GreedyUpTo(s, ps, maxPatchCount, i) <= Greedy(s, ps, maxPatchCount)
  {
    var prev := GreedyUpTo(s, ps, maxPatchCount, i);
    GreedyPrefix(s, ps, maxPatchCount, i, |s|);
    GreedyPrefix(s, ps, maxPatchCount, i + 1, |s|);
    if !ConflictsWithAny(s[i], prev, ps) {
      assert GreedyUpTo(s, ps, maxPatchCount, i + 1)[|prev|] == s[i];
    }
  }

  /**
   * Greedy maximality: every candidate considered while the list was not yet full
   * is kept or overlaps a block kept before it.
   */
  lemma GreedyMaximal(s: seq<Patch>, ps: int, maxPatchCount: int)
    ensures forall i :: 0 <= i < |s| && |GreedyUpTo(s, ps, maxPatchCount, i)| < maxPatchCount ==>
      s[i] in Greedy(s, ps, maxPatchCount) || ConflictsWithAny(s[i], GreedyUpTo(s, ps, maxPatchCount, i), ps)
    ensures |Greedy(s, ps, maxPatchCount)| < maxPatchCount ==>
      forall p :: p in s ==> p in Greedy(s, ps, maxPatchCount) || ConflictsWithAny(p, Greedy(s, ps, maxPatchCount), ps)
  {
    forall i | 0 <= i < |s| && |GreedyUpTo(s, ps, maxPatchCount, i)| < maxPatchCount
      ensures s[i] in Greedy(s, ps, maxPatchCount) || ConflictsWithAny(s[i], GreedyUpTo(s, ps, maxPatchCount, i), ps)
    {
      GreedyConsidered(s, ps, maxPatchCount, i);
    }
    if |Greedy(s, ps, maxPatchCount)| < maxPatchCount {
      forall p | p in s
        ensures p in Greedy(s, ps, maxPatchCount) || ConflictsWithAny(p, Greedy(s, ps, maxPatchCount), ps)
      {
        var i :| 0 <= i < |s| && s[i] == p;
        GreedyPrefix(s, ps, maxPatchCount, i, |s|);
        GreedyConsidered(s, ps, maxPatchCount, i);
        if p !in Greedy(s, ps, maxPatchCount) {
          var q :| q in GreedyUpTo(s, ps, maxPatchCount, i) && Conflict(p, q, ps);
          assert q in Greedy(s, ps, maxPatchCount);
        }
      }
    }
  }

  /**
   * A candidate is passed over only for a reason at least as bright as it: it is
   * kept, or it overlaps a kept block at least as bright, or the list is full of
   * blocks at least as bright.
   */
  predicate KeptOrOutshone(p: Patch, kept: seq<Patch>, ps: int, maxPatchCount: int)
  {
    || p in kept
    || (exists q :: q in kept && Conflict(p, q, ps) && q.brightness >= p.brightness)
    || (|kept| >= maxPatchCount && forall q :: q in kept ==> q.brightness >= p.brightness)
  }

  /** On candidates sorted brightest first, every candidate is kept or outshone. */
  lemma GreedyOutshines(s: seq<Patch>, ps: int, maxPatchCount: int, i: nat)
    requires SortedBy(s, Brightness, Brighter)
    requires i < |s|
    ensures KeptOrOutshone(s[i], Greedy(s, ps, maxPatchCount), ps, maxPatchCount)
  {
    var prev := GreedyUpTo(s, ps, maxPatchCount, i);
    var idx := GreedyShape(s, ps, maxPatchCount, i);
    assert forall q :: q in prev ==> q.brightness >= s[i].brightness by {
      forall q | q in prev
        ensures q.brightness >= s[i].brightness
      {
        var k :| 0 <= k < |prev| && prev[k] == q;
        assert !Brighter(Brightness(s[i]), Brightness(s[idx[k]]));
      }
    }
    if |prev| < maxPatchCount {
      GreedyConsidered(s, ps, maxPatchCount, i);
      if s[i] !in Greedy(s, ps, maxPatchCount) {
        var q :| q in prev && Conflict(s[i], q, ps);
        assert q in Greedy(s, ps, maxPatchCount);
      }
    } else {
      GreedyFullStays(s, ps, maxPatchCount, i, |s|);
    }
  }

  /** The first candidate is always kept when at least one block may be kept. */
  lemma GreedyKeepsFirst(s: seq<Patch>, ps: int, maxPatchCount: int)
    requires |s| > 0 && maxPatchCount >= 1
    ensures Greedy(s, ps, maxPatchCount) != [] && Greedy(s, ps, maxPatchCount)[0] == s[0]
  {
    assert GreedyUpTo(s, ps, maxPatchCount, 1) == [s[0]];
    GreedyPrefix(s, ps, maxPatchCount, 1, |s|);
  }

  /** A sorted, tie-ordered list of candidates gives a sorted, tie-ordered selection. */
  lemma GreedyKeepsOrder(s: seq<Patch>, ps: int, maxPatchCount: int)
    requires SortedBy(s, Brightness, Brighter)
    requires TiesOrdered(s, Brightness, RowMajorBefore)
    ensures SortedBy(Greedy(s, ps, maxPatchCount), Brightness, Brighter)
    ensures TiesOrdered(Greedy(s, ps, maxPatchCount), Brightness, RowMajorBefore)
  {
    var r := Greedy(s, ps, maxPatchCount);
    var idx := GreedyShape(s, ps, maxPatchCount, |s|);
    forall a, b | 0 <= a < b < |r|
      ensures !Brighter(Brightness(r[b]), Brightness(r[a]))
      ensures Brightness(r[a]) == Brightness(r[b]) ==> RowMajorBefore(r[a], r[b])
    {
      assert r[a] == s[idx[a]] && r[b] == s[idx[b]];
    }
  }

  // ---------------------------------------------------------------------------
  // The selector

  /** The blocks `get_allpatches_with_brightness_value` keeps. */
  function BrightestPatches(grayIm: seq<seq<int>>, width: nat, ps: nat, maxPatchCount: int): seq<Patch>
    requires IsImage(grayIm, width)
  {
    Greedy(SortBy(Anchors(grayIm, width, ps), Brightness, Brighter), ps, maxPatchCount)
  }

  /** Each kept block is an anchor of the image, inside it, with its brightness. */
  lemma BrightestPatchesAreBlocks(grayIm: seq<seq<int>>, width: nat, ps: nat, maxPatchCount: int)
    requires IsImage(grayIm, width)
    ensures forall p :: p in BrightestPatches(grayIm, width, ps, maxPatchCount) ==>
      p in Anchors(grayIm, width, ps) &&
      p.row + ps <= |grayIm| && p.col + ps <= width && p.brightness == BlockSum(grayIm, width, p.row, p.col, ps)
  {
    var anchors := Anchors(grayIm, width, ps);
    var sorted := SortBy(anchors, Brightness, Brighter);
    var r := Greedy(sorted, ps, maxPatchCount);
    AnchorsRowMajor(grayIm, width, ps);
    SortByPermutation(anchors, Brightness, Brighter);
    var idx := GreedyShape(sorted, ps, maxPatchCount, |sorted|);
    forall p | p in r
      ensures p in anchors
    {
      var k :| 0 <= k < |r| && r[k] == p;
      assert sorted[idx[k]] in multiset(anchors);
    }
  }

  /** At most `maxPatchCount` blocks are kept, no two overlapping. */
  lemma BrightestPatchesApart(grayIm: seq<seq<int>>, width: nat, ps: nat, maxPatchCount: int)
    requires IsImage(grayIm, width)
    ensures |BrightestPatches(grayIm, width, ps, maxPatchCount)| <= if maxPatchCount > 0 then maxPatchCount else 0
    ensures forall a, b :: 0 <= a < b < |BrightestPatches(grayIm, width, ps, maxPatchCount)| ==>
      !Conflict(BrightestPatches(grayIm, width, ps, maxPatchCount)[a], BrightestPatches(grayIm, width, ps, maxPatchCount)[b], ps)
  {
    var sorted := SortBy(Anchors(grayIm, width, ps), Brightness, Brighter);
    var idx := GreedyShape(sorted, ps, maxPatchCount, |sorted|);
  }

  /** The kept blocks are brightest first and, among equally bright ones, in row-major order. */
  lemma BrightestPatchesOrdered(grayIm: seq<seq<int>>, width: nat, ps: nat, maxPatchCount: int)
    requires IsImage(grayIm, width)
    ensures SortedBy(BrightestPatches(grayIm, width, ps, maxPatchCount), Brightness, Brighter)
    ensures TiesOrdered(BrightestPatches(grayIm, width, ps, maxPatchCount), Brightness, RowMajorBefore)
  {
    var anchors := Anchors(grayIm, width, ps);
    AnchorsRowMajor(grayIm, width, ps);
    BrighterIsStrictTotalOrder();
    SortBySorted(anchors, Brightness, Brighter);
    SortByStable(anchors, Brightness, Brighter, RowMajorBefore);
    GreedyKeepsOrder(SortBy(anchors, Brightness, Brighter), ps, maxPatchCount);
  }

  /**
   * Every anchor is kept, or overlaps a kept block at least as bright, or the list
   * is full of blocks at least as bright; in particular, when fewer than
   * `maxPatchCount` blocks are kept, every anchor is kept or overlaps a kept block.
   */
  lemma BrightestPatchesMaximal(grayIm: seq<seq<int>>, width: nat, ps: nat, maxPatchCount: int)
    requires IsImage(grayIm, width)
    ensures forall p :: p in Anchors(grayIm, width, ps) ==>
      KeptOrOutshone(p, BrightestPatches(grayIm, width, ps, maxPatchCount), ps, maxPatchCount)
    ensures |BrightestPatches(grayIm, width, ps, maxPatchCount)| < maxPatchCount ==>
      forall p :: p in Anchors(grayIm, width, ps) ==>
        p in BrightestPatches(grayIm, width, ps, maxPatchCount) ||
        ConflictsWithAny(p, BrightestPatches(grayIm, width, ps, maxPatchCount), ps)
  {
    var anchors := Anchors(grayIm, width, ps);
    var sorted := SortBy(anchors, Brightness, Brighter);
    var r := Greedy(sorted, ps, maxPatchCount);
    BrighterIsStrictTotalOrder();
    SortByPermutation(anchors, Brightness, Brighter);
    SortBySorted(anchors, Brightness, Brighter);
    forall p | p in anchors
      ensures KeptOrOutshone(p, r, ps, maxPatchCount)
    {
      assert p in multiset(sorted);
      var i :| 0 <= i < |sorted| && sorted[i] == p;
      GreedyOutshines(sorted, ps, maxPatchCount, i);
    }
  }

  /** The first kept block is as bright as any block of the image. */
  lemma BrightestPatchFirst(grayIm: seq<seq<int>>, width: nat, ps: nat, maxPatchCount: int)
    requires IsImage(grayIm, width)
    requires Anchors(grayIm, width, ps) != [] && maxPatchCount >= 1
    ensures BrightestPatches(grayIm, width, ps, maxPatchCount) != []
    ensures forall p :: p in Anchors(grayIm, width, ps) ==>
      p.brightness <= BrightestPatches(grayIm, width, ps, maxPatchCount)[0].brightness
  {
    var anchors := Anchors(grayIm, width, ps);
    var sorted := SortBy(anchors, Brightness, Brighter);
    var r := Greedy(sorted, ps, maxPatchCount);
    BrighterIsStrictTotalOrder();
    SortByPermutation(anchors, Brightness, Brighter);
    SortBySorted(anchors, Brightness, Brighter);
    GreedyKeepsFirst(sorted, ps, maxPatchCount);
    forall p | p in anchors
      ensures p.brightness <= r[0].brightness
    {
      assert p in multiset(sorted);
      var k :| 0 <= k < |sorted| && sorted[k] == p;
      if k > 0 {
        assert !Brighter(Brightness(sorted[k]), Brightness(sorted[0]));
      }
    }
  }

  /** `[[i + patch_size//2, j + patch_size//2] for _, i, j in topk_patches]`. */
  function Centers(kept: seq<Patch>, ps: nat): (cs: seq<Point>)
    ensures |cs| == |kept|
  {
    seq(|kept|, i requires 0 <= i < |kept| => Point(kept[i].row + ps / 2, kept[i].col + ps / 2))
  }

  /**
   * The centres of blocks that lie inside an `h` by `w` image, at most `maxPatchCount`
   * of them and no two overlapping, lie inside the image, are as many, and are no two
   * closer than `ps` in both directions.
   */
  lemma CentersOfBlocks(kept: seq<Patch>, ps: nat, h: nat, w: nat, maxPatchCount: int)
    requires ps >= 1
    requires forall p :: p in kept ==> p.row + ps <= h && p.col + ps <= w
    requires |kept| <= if maxPatchCount > 0 then maxPatchCount else 0
    requires forall a, b :: 0 <= a < b < |kept| ==> !Conflict(kept[a], kept[b], ps)
    ensures |Centers(kept, ps)| == |kept|
    ensures |Centers(kept, ps)| <= if maxPatchCount > 0 then maxPatchCount else 0
    ensures forall c :: c in Centers(kept, ps) ==> ps / 2 <= c.x < h && ps / 2 <= c.y < w
    ensures forall i, j :: 0 <= i < j < |Centers(kept, ps)| ==>
      !(Abs(Centers(kept, ps)[i].x - Centers(kept, ps)[j].x) < ps && Abs(Centers(kept, ps)[i].y - Centers(kept, ps)[j].y) < ps)
  {
    var cs := Centers(kept, ps);
    forall c | c in cs
      ensures ps / 2 <= c.x < h && ps / 2 <= c.y < w
    {
      var k :| 0 <= k < |cs| && cs[k] == c;
      assert kept[k] in kept;
    }
    forall i, j | 0 <= i < j < |cs|
      ensures !(Abs(cs[i].x - cs[j].x) < ps && Abs(cs[i].y - cs[j].y) < ps)
    {
      assert !Conflict(kept[i], kept[j], ps);
    }
  }

  /** No block fits in an image smaller than the block, so none is kept. */
  lemma NoBlockFits(grayIm: seq<seq<int>>, width: nat, ps: nat, maxPatchCount: int)
    requires IsImage(grayIm, width)
    requires ps > |grayIm| || ps > width
    ensures BrightestPatches(grayIm, width, ps, maxPatchCount) == []
  {
    assert AnchorCount(|grayIm|, ps) * AnchorCount(width, ps) == 0;
    SortByPermutation(Anchors(grayIm, width, ps), Brightness, Brighter);
  }

  /**
   * `get_allpatches_with_brightness_value`: no value for an image under 5 pixels in
   * either direction; otherwise the centres of the kept blocks, in the order they
   * were kept. There are at most `maxPatchCount` of them, each inside the image, no
   * two closer than `patchSize` in both directions, and none when the block is
   * larger than the image.
   */
  method GetAllPatchesWithBrightness(grayIm: seq<seq<int>>, width: nat, patchSize: nat, maxPatchCount: int)
    returns (centers: Option<seq<Point>>)
    requires IsImage(grayIm, width) && patchSize >= 1
    ensures centers.None? <==> |grayIm| < 5 || width < 5
    ensures centers.Some? ==> centers.value == Centers(BrightestPatches(grayIm, width, patchSize, maxPatchCount), patchSize)
    ensures centers.Some? ==> |centers.value| <= if maxPatchCount > 0 then maxPatchCount else 0
    ensures centers.Some? ==> forall c :: c in centers.value ==>
      patchSize / 2 <= c.x < |grayIm| && patchSize / 2 <= c.y < width
    ensures centers.Some? ==> forall i, j :: 0 <= i < j < |centers.value| ==>
      !(Abs(centers.value[i].x - centers.value[j].x) < patchSize && Abs(centers.value[i].y - centers.value[j].y) < patchSize)
    ensures centers.Some? && (patchSize > |grayIm| || patchSize > width) ==> centers.value == []
  {
    if |grayIm| < 5 || width < 5 {
      return None;
    }
    var totalPatches := AllPatches(grayIm, width, patchSize);
    totalPatches := SortBy(totalPatches, Brightness, Brighter);
    var topkPatches := SelectBrightest(totalPatches, patchSize, maxPatchCount);
    var cs := Centers(topkPatches, patchSize);
    BrightestPatchesAreBlocks(grayIm, width, patchSize, maxPatchCount);
    BrightestPatchesApart(grayIm, width, patchSize, maxPatchCount);
    CentersOfBlocks(topkPatches, patchSize, |grayIm|, width, maxPatchCount);
    if patchSize > |grayIm| || patchSize > width {
      NoBlockFits(grayIm, width, patchSize, maxPatchCount);
    }
    centers := Some(cs);
  }

  // ---------------------------------------------------------------------------
  // Drawing

  /**
   * The checks of `draw_quadrilateral`: no drawing unless the points pass the
   * quadrilateral test, and then the caller's list is put in anticlockwise order in
   * place, as the drawing step sees it. Drawing and saving the image are not modelled.
   */
  method DrawQuadrilateral<K>(points: array<Point>, key: (Centroid, Point) -> K, before: (K, K) -> bool)
    returns (drawn: bool)
    modifies points
    ensures drawn <==> IsQuadrilateral(old(points[..]))
    ensures !drawn ==> points[..] == old(points[..])
    ensures drawn ==> points[..] == SortBy(old(points[..]), KeyAround(key, CentroidOf(old(points[..]))), before)
  {
    if points.Length != 4 || SomeValueThrice(Xs(points[..])) || SomeValueThrice(Ys(points[..])) {
      return false;
    }
    var orderedPts := OrderAnticlock(points, key, before);
    var quadArea := CalcArea(orderedPts);
    return true;
  }
}

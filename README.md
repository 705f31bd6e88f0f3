# hide_shapes: two quadrilateral finders, modelled in Dafny

The repository has two scripts. Each picks four points and treats them as the
corners of a quadrilateral.

- `lexi_quadrilateral.py` reads a text and picks the lexicographically greatest
  substrings. Each substring is `word_length` characters long, made only of ASCII
  letters and digits, and does not overlap another on the same line. The points
  are the (line, start index) pairs of those substrings.
- `img_bright_quadrilateral.py` reads a grayscale image and picks the brightest
  square blocks, `patch_size` on a side, that do not overlap. The points are the
  blocks' centres.

Both scripts then check that the four points can form a quadrilateral: no three may
share an x value and no three may share a y value. They then order the points
anticlockwise around their centroid and compute the shoelace area (the text script
also computes the perimeter). Each script carries its own copy of the polygon helpers
(`order_coordinates_anticlock`, `calc_area`); the copies are identical, so one module
models both.

The project has five modules:

- `Common` (`common.dfy`): `Option` for Python's `None`, and integer `abs`.
- `Sorting` (`sorting.dfy`): Python's stable `sorted` / `list.sort` with a key, and
  `reverse=True`, as insertion of each element in turn under a strict total order on
  keys. Proved: the result is a permutation, it is sorted, equal keys keep their
  input order, and with an injective key the result depends only on the multiset of
  the input.
- `Geometry` (`geometry.dfy`):
  - `calc_area` with `_separate_xy` and `_shoelace_area`;
  - `calc_perimeter`;
  - `order_coordinates_anticlock`;
  - the "no three share x or y" check.

  Area and perimeter are both one closed-walk sum over an edge function.
- `LexiQuadrilateral` (`lexi_quadrilateral.dfy`): `fetch_highlexi_str_with_loc`.
  - The per-line scan is a `while` loop, proved equal to a recursive specification
    (`KeptUpTo`) that offers every window of the line in turn. This is how the loop's
    skip-ahead is shown to lose nothing.
  - The merge over lines is a `for` loop, proved equal to `MergedUpTo`.
- `BrightQuadrilateral` (`img_bright_quadrilateral.dfy`):
  - `get_allpatches_with_brightness_value` as three loops: the anchor enumeration,
    `_check_overlap` and the greedy selection. Each loop is proved against a function
    (`Anchors`, `ConflictsWithAny`, `GreedyUpTo`).
  - The validity check and the ordering step of `draw_quadrilateral`.

Points are `Point(x, y)` with integer coordinates. Areas, perimeters and centroids are
exact reals.

## Model

| member | source | states |
|---|---|---|
| Sorting.SortByPermutation | lexi_quadrilateral.py:208 | the sorted list has the same length and the same multiset of elements as the input |
| Sorting.SortBySorted | img_bright_quadrilateral.py:91 | when `before` is a strict total order, no element's key comes `before` the key of an element ahead of it (for `reverse=True`, non-increasing keys) |
| Sorting.SortByStable | lexi_quadrilateral.py:208 | elements with equal keys keep the relative order they had in the input, also with `reverse=True` |
| Sorting.SortedPermutationUnique | lexi_quadrilateral.py:64 | two sorted arrangements of one multiset are equal when the key tells distinct elements apart |
| Sorting.SortByOrderIndependent | lexi_quadrilateral.py:64 | with such a key, the output depends only on which elements are given, not on their order |
| Geometry.SeparateXY | lexi_quadrilateral.py:106-112 | returns two lists as long as the vertex list; entry i of each holds vertex i's x and y |
| Geometry.ShoelaceOfLists | lexi_quadrilateral.py:115-123 | after appending the first entries, the `a1`/`a2` loop gives `abs(a1 - a2) / 2`, which equals the shoelace area of the closed loop through the zipped vertices |
| Geometry.CalcArea | lexi_quadrilateral.py:89-126 | `None` for fewer than three vertices; otherwise the shoelace area of the loop through the vertices in the given order; the caller's list is not modified |
| Geometry.ShoelaceAreaRotate | lexi_quadrilateral.py:115-123 | the area does not depend on the vertex the loop starts at |
| Geometry.ShoelaceAreaReverse | lexi_quadrilateral.py:115-123 | a clockwise and an anticlockwise traversal of the same loop have the same area |
| Geometry.ShoelaceAreaExamples | test_lexi_quadrilateral.py:93-95 | the areas of the test cases: 7.5 for the triangle, 0.0 for four equal points, 4.0 for the 2x2 square |
| Geometry.LoopSumRotate | lexi_quadrilateral.py:83-85 | the closed-walk sum of any edge function does not depend on the starting vertex |
| Geometry.CalcPerimeter | lexi_quadrilateral.py:68-86 | `None` for fewer than three vertices; otherwise the sum of `dist` over consecutive vertices plus the closing edge from the last vertex to the first |
| Geometry.PerimeterRotateReverse | lexi_quadrilateral.py:83-85 | for a Euclidean distance, the perimeter does not depend on the starting vertex or on the direction |
| Geometry.EuclideanSymmetric | lexi_quadrilateral.py:28-33 | the non-negative root of the squared Euclidean distance is symmetric in its two points |
| Geometry.PerimeterExamples | test_lexi_quadrilateral.py:79-80 | for a Euclidean distance, the 3x4 rectangle has perimeter 14.0 and four equal points have 0.0 |
| Geometry.OrderAnticlock | lexi_quadrilateral.py:51-65 | an empty list gives a fresh empty list; otherwise the list is stably sorted in place by the key of each vertex relative to the centroid, and that same list is returned |
| Geometry.OrderAnticlockSorted | lexi_quadrilateral.py:64 | the ordered vertices are in key order and are a permutation of the input |
| Geometry.SumsPermutationInvariant | lexi_quadrilateral.py:63 | the coordinate sums, and hence the centroid, do not depend on the order of the vertices |
| Geometry.OrderAnticlockIndependentOfInputOrder | lexi_quadrilateral.py:63-64 | when the key tells vertices apart, the same vertices in any input order give the same centroid, the same ordered polygon and the same area |
| Geometry.ThriceInFour | img_bright_quadrilateral.py:206-207 | in a list of four values, `any(count(v) >= 3)` holds exactly when three of the four positions hold equal values |
| Geometry.IsQuadrilateralIff | img_bright_quadrilateral.py:203-209 | the check passes exactly when there are four points, no three of which share x and no three share y |
| Geometry.IsQuadrilateralExamples | test_img_bright_quadrilateral.py:106-109 | the square passes; three points, three points with x = 0, and three points with x = 2 are rejected |
| LexiQuadrilateral.ValidWindowIff | lexi_quadrilateral.py:175-178 | the pattern `^[a-zA-Z0-9]+$`, whose `$` also matches before a final newline, together with the newline test of line 193 accepts exactly the non-empty windows of ASCII letters and digits |
| LexiQuadrilateral.FirstBadIndex | lexi_quadrilateral.py:180-184 | returns the index of the first character outside `[a-zA-Z0-9]`, with every character before it inside; returns 0 when there is none |
| LexiQuadrilateral.StrLessIrreflexive | lexi_quadrilateral.py:197 | Python's string `<` is irreflexive |
| LexiQuadrilateral.StrLessTransitive | lexi_quadrilateral.py:197 | Python's string `<` is transitive |
| LexiQuadrilateral.StrLessConnected | lexi_quadrilateral.py:197 | of two distinct strings, one is `<` the other |
| LexiQuadrilateral.TextAfterIsStrictTotalOrder | lexi_quadrilateral.py:208 | descending string order (`reverse=True`) is a strict total order, so the merge sort's properties apply |
| LexiQuadrilateral.OfferToken | lexi_quadrilateral.py:194-201 | the offer of one window to the tokens kept on its line gives exactly `Offer`, about which `OfferOverlapping`, `OfferApart` and `OfferDominates` are proved |
| LexiQuadrilateral.OfferApart | test_lexi_quadrilateral.py:60 | a candidate starting `word_length` or more after the last kept token is appended, so two tokens exactly `word_length` apart are both kept |
| LexiQuadrilateral.OfferOverlapping | lexi_quadrilateral.py:196-199 | a candidate overlapping the last kept token replaces it exactly when its text is strictly greater and is dropped otherwise; the earlier tokens are untouched, and the one kept is at least as great as both |
| LexiQuadrilateral.OfferDominates | lexi_quadrilateral.py:194-201 | after an offer, the candidate and every previously kept token are each matched by a kept token whose text is not smaller |
| LexiQuadrilateral.SkipAheadSafe | lexi_quadrilateral.py:203-205 | every window from the current index to the first bad character contains that character, so skipping past it leaves the kept tokens as if each of those windows had been offered |
| LexiQuadrilateral.SkipWindow | lexi_quadrilateral.py:203-205 | on a rejected window the skip keeps the kept tokens unchanged, and it leaves the line only for windows of length 0 |
| LexiQuadrilateral.KeptUpToEmptyWindows | lexi_quadrilateral.py:190-205 | with `word_length` 0 every window is empty and rejected, so a line keeps nothing |
| LexiQuadrilateral.ScanLine | lexi_quadrilateral.py:187-205 | the inner `while` loop returns exactly the tokens obtained by offering every window of the line in turn |
| LexiQuadrilateral.LineKeptShape | lexi_quadrilateral.py:190-205 | every token a line keeps is a `word_length` window of ASCII letters and digits of that line, and kept start indices increase by at least `word_length` |
| LexiQuadrilateral.KeptUpToDominates | lexi_quadrilateral.py:190-205 | for every candidate offered so far, some kept token's text is not smaller |
| LexiQuadrilateral.LineKeptDominates | lexi_quadrilateral.py:187-205 | no candidate of a line is lost to a smaller one: some token the line keeps has a text at least as great |
| LexiQuadrilateral.AppendLineShape | lexi_quadrilateral.py:207 | appending a later line's tokens keeps equal texts in encounter order and keeps same-line tokens at least `word_length` apart |
| LexiQuadrilateral.SortTakeShape | lexi_quadrilateral.py:208 | sorting by descending text and cutting with `[:word_count]` gives at most `word_count` tokens (when non-negative), in non-increasing text order, with ties in encounter order, drawn from the input |
| LexiQuadrilateral.MergedUpToShape | lexi_quadrilateral.py:186-208 | after each line the result is at most `word_count` long, sorted, tie-ordered and non-overlapping, and holds only tokens that an earlier line keeps |
| LexiQuadrilateral.MergedUpToEmptyWindows | lexi_quadrilateral.py:186-208 | with `word_length` 0 the result stays empty |
| LexiQuadrilateral.SortedOutranks | lexi_quadrilateral.py:208 | if `k` tokens of a list in merge order all come before `t` (a greater text, or the same text met earlier), so does its `k`-th entry |
| LexiQuadrilateral.MergeRetains | lexi_quadrilateral.py:207-208 | one stable sort-and-cut keeps every new token and every token already kept or outranked: each ends up in the result, or the result holds `word_count` tokens that all come before it |
| LexiQuadrilateral.CutRetainsMember | lexi_quadrilateral.py:208 | a token of the sorted list survives the `[:word_count]` cut, or the cut is full and every survivor comes before it |
| LexiQuadrilateral.CutRetainsOutranked | lexi_quadrilateral.py:208 | if `word_count` tokens of the sorted list all come before `t`, so does every token surviving the cut |
| LexiQuadrilateral.MergedUpToRetains | lexi_quadrilateral.py:186-208 | for a non-negative `word_count`, every token kept by an earlier line is in the result, or the result is full and every token in it has a greater text or the same text met earlier |
| LexiQuadrilateral.SortedPrecedes | lexi_quadrilateral.py:208 | a list sorted by descending text with equal texts in encounter order is strictly ordered by "greater text, or same text met earlier" |
| LexiQuadrilateral.ContainedInTop | lexi_quadrilateral.py:207-208 | of two lists of at most `word_count` tokens, each keeping or outranking every token of the other, the first is contained in the second |
| LexiQuadrilateral.OrderedSameElements | lexi_quadrilateral.py:208 | two lists strictly in merge order with the same tokens are equal |
| LexiQuadrilateral.SameTop | lexi_quadrilateral.py:207-208 | two ordered lists of at most `word_count` tokens, each keeping or outranking every token of the other, are equal |
| LexiQuadrilateral.HighLexiDetermined | lexi_quadrilateral.py:158-216 | for a non-negative `word_count`, any list with the properties `FetchHighLexi` promises (at most `word_count` tokens that the lines keep, greatest text first with ties in encounter order, keeping or outranking every kept token) is the program's result, so those properties pin it down |
| LexiQuadrilateral.HighLexiOutranksCandidates | lexi_quadrilateral.py:158-216 | for a positive `word_count`, every candidate window of every line is matched by a selected token whose text is at least as great |
| LexiQuadrilateral.FetchHighLexi | lexi_quadrilateral.py:158-216 | the result is the line-by-line merge; it holds at most `word_count` tokens when `word_count` is non-negative; each token is one that its line keeps, so a `word_length` window of ASCII letters and digits of that line; texts are non-increasing and equal texts come in the order they were met; two tokens on one line start at least `word_length` apart; an empty text gives `[]`; for a non-negative `word_count`, every token a line keeps is selected unless `word_count` tokens with greater texts, or equal texts met earlier, are; for a positive `word_count`, every candidate window is matched by a selected token at least as great |
| LexiQuadrilateral.FoundQuadrilateralIff | lexi_quadrilateral.py:237-245 | the entry point goes on to ordering, perimeter and area exactly when there are four tokens, no three on one line and no three at one start index |
| BrightQuadrilateral.MeanOrdersLikeSum | img_bright_quadrilateral.py:89-91 | for blocks of one size, comparing `np.mean` orders and ties blocks exactly as comparing pixel sums does |
| BrightQuadrilateral.AnchorAt | img_bright_quadrilateral.py:85-90 | there are `(H-ps+1)*(W-ps+1)` candidates, and the candidate at index `row*(W-ps+1)+col` is anchor `(row, col)` with its block's brightness |
| BrightQuadrilateral.AnchorsRowMajor | img_bright_quadrilateral.py:86-90 | the candidates come in strictly increasing row-major order, and each block lies inside the image with its brightness |
| BrightQuadrilateral.AllPatches | img_bright_quadrilateral.py:85-90 | the nested loops build exactly the candidate list |
| BrightQuadrilateral.CheckOverlap | img_bright_quadrilateral.py:76-83 | `_check_overlap` is true exactly when some listed block is less than `patch_size` away in both row and column |
| BrightQuadrilateral.SelectBrightest | img_bright_quadrilateral.py:93-99 | the greedy loop, which breaks once full, returns what considering every candidate would return |
| BrightQuadrilateral.GreedyFullStays | img_bright_quadrilateral.py:98-99 | once `max_patch_count` blocks are kept, no later candidate changes the selection, so the `break` loses nothing |
| BrightQuadrilateral.GreedyShape | img_bright_quadrilateral.py:93-99 | the kept blocks are a subsequence of the candidates in candidate order, at most `max_patch_count` (none if that is not positive), no two overlapping |
| BrightQuadrilateral.GreedyConsidered | img_bright_quadrilateral.py:94-97 | a candidate considered while the list was not full is kept, or overlaps a block kept before it, and the blocks kept so far stay at the head of the final list |
| BrightQuadrilateral.GreedyMaximal | img_bright_quadrilateral.py:94-97 | every candidate considered while the list was not full is kept or overlaps a block kept before it; if the list never fills, every candidate is kept or overlaps a kept block |
| BrightQuadrilateral.GreedyOutshines | img_bright_quadrilateral.py:91-99 | on brightest-first candidates, each candidate is kept, or overlaps a kept block at least as bright, or the list is full of blocks at least as bright |
| BrightQuadrilateral.GreedyKeepsFirst | img_bright_quadrilateral.py:94-97 | when `max_patch_count >= 1`, the first candidate is always kept first |
| BrightQuadrilateral.GreedyKeepsOrder | img_bright_quadrilateral.py:91-99 | a brightness-sorted, tie-ordered candidate list gives a brightness-sorted, tie-ordered selection |
| BrightQuadrilateral.BrightestPatchesAreBlocks | img_bright_quadrilateral.py:85-99 | each kept block is a candidate of the image, lies inside it, and carries its block's brightness |
| BrightQuadrilateral.BrightestPatchesApart | img_bright_quadrilateral.py:93-99 | at most `max_patch_count` blocks are kept, and no two of them overlap |
| BrightQuadrilateral.BrightestPatchesOrdered | img_bright_quadrilateral.py:91-99 | the kept blocks come brightest first; equally bright ones come in row-major order, since the sort is stable |
| BrightQuadrilateral.BrightestPatchesMaximal | img_bright_quadrilateral.py:85-99 | every block of the image is kept, or overlaps a kept block at least as bright, or `max_patch_count` blocks at least as bright are kept; when fewer than `max_patch_count` are kept, every block is kept or overlaps a kept one |
| BrightQuadrilateral.BrightestPatchFirst | img_bright_quadrilateral.py:91-97 | for a non-empty candidate list and `max_patch_count >= 1`, the first kept block is as bright as any block of the image |
| BrightQuadrilateral.CentersOfBlocks | img_bright_quadrilateral.py:100 | the centres `(row + ps//2, col + ps//2)` of kept blocks lie inside the image, are as many as the blocks, and no two are less than `patch_size` apart in both coordinates |
| BrightQuadrilateral.NoBlockFits | img_bright_quadrilateral.py:86-87 | when the block is larger than the image in either direction, nothing is kept |
| BrightQuadrilateral.GetAllPatchesWithBrightness | img_bright_quadrilateral.py:57-104 | `None` exactly when the image is under 5 pixels in either direction; otherwise the centres of the greedy selection over the stable brightness sort of all candidates: at most `max_patch_count` of them, each inside the image, no two less than `patch_size` apart in both coordinates, and `[]` when the block is larger than the image |
| BrightQuadrilateral.DrawQuadrilateral | img_bright_quadrilateral.py:189-225 | returns true exactly when the points pass the quadrilateral check; when it does not, the caller's list is untouched; when it does, the list has been put in anticlockwise key order in place |

`img_bright_quadrilateral.py:130-185` repeats `order_coordinates_anticlock` and
`calc_area` of `lexi_quadrilateral.py:51-126` line for line. The `Geometry` members
cited above against the text script model both copies. `IsQuadrilateral` also models
the check at `lexi_quadrilateral.py:242-244`, which is the same as
`img_bright_quadrilateral.py:205-207`.

## Left out

- Reading files and images, and the command-line parsing. This covers
  `read_textfile`, `read_image`, `argparse` and the two `__main__` blocks. The text
  script's `__main__` is modelled only by its quadrilateral check
  (`FoundQuadrilateralIff`). The model takes the lines of the text, or the pixel rows
  of the grayscale image, as parameters.
- Printing, drawing the polygon with OpenCV, and saving the image. In the source,
  `draw_quadrilateral` returns `True` whether or not the image is saved, and the model
  returns true there too.
- `distance` and `calc_polar_angle` use floating point (`** 0.5`, `math.atan2`).
  - The perimeter takes the edge length as a parameter `dist`. Its properties assume
    `dist` is the exact Euclidean distance (`IsEuclidean`).
  - The anticlockwise order takes the sort key and its order as parameters. So the
    model proves what holds for any key (stable sort around the centroid, permutation,
    independence of input order), not the particular angle order that the
    test cases at `test_lexi_quadrilateral.py:38-42` expect.
- Floating-point rounding in general. Areas, centroids and perimeters are exact reals.
  Brightness is the integer pixel sum of a block rather than the floating-point
  `np.mean`; `MeanOrdersLikeSum` shows the two order blocks alike in exact arithmetic.
- `BrightQuadrilateral.GetAllPatchesWithBrightness` requires `patch_size >= 1`. With a
  patch size of 0 or less, the source takes means of empty blocks (NaN), or uses
  negative ranges, and then sorts them; that behaviour is not modelled. The image is a
  rectangular array of integer rows with its width given explicitly.
- `LexiQuadrilateral.FetchHighLexi` takes `word_length` as a natural number. A negative
  `word_length` makes Python's slices wrap around from the end of the line, and that is
  not modelled. A `word_length` of 0 is modelled: it is the one case where the
  fallback `return 0` of `_non_alpanum_index` is reached, and it yields `[]`. A
  negative `word_count` is modelled with Python's slice meaning (all but the last
  `-word_count`).
- `LexiQuadrilateral.FetchHighLexi` states its selection properties only for a
  non-negative `word_count`. A negative `word_count` cuts tokens from the end of each
  merged list, and for that case the contract gives only the merge itself and the
  shape of the result.
- `LexiQuadrilateral.MergedUpToShape` and `LexiQuadrilateral.AppendLineShape` require
  `word_length >= 1`. The case of length 0 is covered separately by
  `MergedUpToEmptyWindows`.
- Characters are Unicode code points. `str.isalnum` beyond ASCII matters only through
  `ord(ch) > 122`, which the model reads as "not in `[a-zA-Z0-9]`"; the two agree on
  every character.

# A verified model of the Toronto tree k-d index

The repository indexes the municipal trees of Toronto in a two-dimensional
k-d tree. Each record is a tree with an id, a ward, a species, a diameter
and a longitude/latitude position. The index is built by median splitting
on latitude at even depths and longitude at odd depths. It answers three
queries:

- an exact-position lookup;
- a nearest-tree search by branch and bound;
- an ASCII drawing of the tree.

This project models that k-d tree in Dafny and proves what the code
promises about it. It also proves where the code falls short of what its
documentation says.

The model has one module per concern:

- `Records` (`records.dfy`): the record datatype, the split axis and the
  squared distance.
- `StableSort` (`sorting.dfy`): Python's stable sort by a key. It is a pure
  insertion sort, plus an in-place array insertion sort proved equal to it.
- `ArgSorting` (`argsort.dfy`): `argsort`.
- `KdNodes` (`kdnode.dfy`): the node datatype, its contents, height, the
  k-d invariant and the balanced shape.
- `KdBuild` (`kdbuild.dfy`): `build_tree`. It is a pure function, and a
  method over an array that sorts the caller's data in place as the source
  does.
- `KdLookup` (`kdlookup.dfy`): `lookup`, as written and corrected.
- `KdNearest` (`kdnearest.dfy`): `get_nearest`, with the pruning test as
  written and the textbook one.
- `KdDisplay` (`kddisplay.dfy`): `_display_helper`, as a pure layout
  function with lemmas for the layout invariants.
- `KdIndex` (`kdindex.dfy`): the `KDTree` class, whose constructor builds
  the tree from an array.

Modelling choices:

- Coordinates are exact reals.
- Distances are squared. The square root is strictly monotone, so every
  comparison of two distances comes out the same.
- The one mixed-unit comparison, the squared axis gap against a linear
  distance, becomes `gap^4 < D` on the squared distance `D`.
- `round(·, 5)` is a parameter `round5`.
- Label formatting is a parameter `fmt`.

## Model

| member | source | states |
|---|---|---|
| Records.Axis | kdtree.py:190-194 | the split coordinate `(tree.lat, tree.lon)[depth % 2]`: latitude on even depths, longitude on odd ones |
| Records.QueryAxis | kdtree.py:216-218 | the query's coordinate `lat if dim == 0 else lon` on the depth's axis (also at kdtree.py:241 and 246) |
| Records.SqDist | kdtree.py:236 | the squared distance is non-negative and bounds each squared coordinate difference |
| Records.DistinctCoordinatesMultiset | kdtree.py:200-221 | pairwise distinct latitudes and longitudes in a list carry over to its multiset of records |
| StableSort.SortBy | kdtree.py:191 | the sorted list has the input's length; that it is a permutation, ordered and stable is stated by the three lemmas below |
| StableSort.SortByPermutes | kdtree.py:191 | the sort by a key is a permutation of its input |
| StableSort.SortBySorted | kdtree.py:191 | the sort result is ordered by key |
| StableSort.SortByStable | kdtree.py:191 | for every key value, the elements with that key keep their input order |
| StableSort.InsertInPlace | kdtree.py:191 | one in-place insertion step leaves the prefix `a[..i+1]` equal to `InsertBy` of the old prefix and old `a[i]`: `a[i]` goes just before the first earlier element with a strictly greater key, whether or not the prefix is sorted, and the rest of the array is unchanged |
| StableSort.SortInPlace | kdtree.py:191 | the in-place array sort leaves exactly the stable sort of the old contents |
| ArgSorting.ArgSort | kdtree.py:61 | one index per value of `seq`; the lemmas below state that these are the indices, ordered by value with ties in index order, and that no other order qualifies |
| ArgSorting.ArgSortPermutes | kdtree.py:61 | `argsort(s)` is a permutation of `0..len(s)-1` |
| ArgSorting.ArgSortOrdered | kdtree.py:61 | along `argsort(s)` each index precedes the next: strictly smaller value, or equal value and smaller index |
| ArgSorting.ArgSortUnique | kdtree.py:44-61 | any permutation of the indices ordered by (value, index) is exactly `argsort(s)`, so the two properties characterise it |
| ArgSorting.ArgSortEmpty | kdtree.py:50-51 | `argsort([]) == []` |
| ArgSorting.ArgSortExample3 | kdtree.py:52-53 | `argsort([3, 1, 2]) == [1, 2, 0]` |
| ArgSorting.ArgSortExample7 | kdtree.py:54-55 | `argsort([8, 6, 7, 5, 3, 0, 9]) == [5, 4, 3, 1, 2, 0, 6]` |
| ArgSorting.ArgSortExampleNegative | kdtree.py:56-57 | `argsort([-3, -1, -2]) == [0, 2, 1]` |
| ArgSorting.ArgSortExampleTies | kdtree.py:58-59 | equal values keep index order: `argsort([4, 2, 2, 3]) == [1, 2, 3, 0]` |
| KdNodes.Elements | kdtree.py:64-107 | the multiset of records of a tree has one record per node |
| KdNodes.BalancedHeight | kdtree.py:192-197 | a tree whose every node splits `n` into `n//2` and `n - n//2 - 1` has `floor(log2 n) + 1` levels |
| KdNodes.PartitionedRoutesExactly | kdtree.py:71-74 | k-d ordered with pairwise distinct coordinates implies left side strictly below the pivot, right side at or above it |
| KdBuild.Build | kdtree.py:176-198 | one node per input record; the contents, the k-d invariant and the shape are stated by the lemmas below |
| KdBuild.BuildElements | kdtree.py:188-198 | the built tree holds exactly the input multiset: nothing is dropped or duplicated |
| KdBuild.BuildSplitsAtPivot | kdtree.py:190-197 | the root's pivot is its record's coordinate on the depth's axis, with records at most the pivot on the left and at least it on the right |
| KdBuild.BuildPartitioned | kdtree.py:190-197 | each pivot is its record's coordinate on the depth's axis; left side at most, right side at least the pivot |
| KdBuild.BuildBalanced | kdtree.py:192-197 | each left side gets `n//2` records and each right side `n - n//2 - 1` |
| KdBuild.BuildHeight | kdtree.py:188-189 | empty data, and only empty data, gives `None`; otherwise the height is `floor(log2 n) + 1` |
| KdBuild.BuildRoutesExactly | kdtree.py:190-197 | with pairwise distinct coordinates, the strict-left routing of lookup agrees with the tree |
| KdBuild.BuildExample | kdtree.py:182-186 | the documentation's three records give root (2,2), left leaf (1,1), right leaf (3,3) |
| KdBuild.BuildShapeEqualLatitudes | kdtree.py:190-197 | three records with equal latitude: the stable sort keeps input order; the first lands left with pivot equal to the root's |
| KdBuild.BuildFarExample | kdtree.py:190-197 | the tree built from three records used by the nearest-search finding |
| KdBuild.Slice | kdtree.py:196-197 | the copying slices `data[:median_idx]` and `data[median_idx + 1:]`: a fresh array equal to `data[lo..hi]` |
| KdBuild.BuildTree | kdtree.py:176-198 | the method sorts the caller's array stably on the depth's axis and returns the same tree as the pure construction |
| KdLookup.Matches | kdtree.py:214 | the `round(·, 5)` comparison of both coordinates; a record always matches its own coordinates |
| KdLookup.DescentPathInTree | kdtree.py:211-221 | every record on the descent path is a record of the tree |
| KdLookup.LookupIsPathSearch | kdtree.py:211-221 | lookup answers true iff some record on the single root-to-leaf descent matches after rounding |
| KdLookup.LookupFrom | kdtree.py:211-221 | a true answer implies a stored record whose rounded coordinates equal the query's, so an empty tree answers false |
| KdLookup.LookupComplete | kdtree.py:211-221 | on a tree routed strictly, every stored record's own coordinates are found |
| KdLookup.LookupBuiltComplete | kdtree.py:200-221 | on a tree built from data with pairwise distinct latitudes and longitudes, every record's coordinates are found |
| KdLookup.LookupMissesEqualPivot | kdtree.py:190-221 | three records of equal latitude: the first is in the tree but lookup of its own coordinates is false |
| KdLookup.LookupFromCorrected | kdtree.py:211-221 | the lookup that searches both sides on an equal coordinate is still sound: a true answer implies a matching stored record |
| KdLookup.LookupCorrectedComplete | kdtree.py:211-221 | the corrected lookup finds every stored record of any k-d ordered tree |
| KdLookup.LookupCorrectedBuiltComplete | kdtree.py:200-221 | the corrected lookup finds every record of any data the tree is built from |
| KdNearest.Offer | kdtree.py:236-238 | an offered record replaces the candidate only if strictly closer; distances never increase |
| KdNearest.Near | kdtree.py:241-244 | the side searched first: one of the two children, strictly smaller than the node |
| KdNearest.Far | kdtree.py:247-250 | the other side: the child that is not the near one (unless both are the same), strictly smaller than the node |
| KdNearest.Answer | kdtree.py:231 | the `[0]` of the final pair: `None` exactly when there is no candidate, otherwise its record |
| KdNearest.NearFarElements | kdtree.py:240-250 | the near side, the node's record and the far side make up the tree |
| KdNearest.VisitFar | kdtree.py:246 | with no candidate the far side is always searched; under either rule it is searched whenever the squared gap is below the candidate's distance and at most 1 |
| KdNearest.NearestFrom | kdtree.py:233-251 | the search ends without a candidate exactly when it starts without one over an empty tree, and the candidate's distance never increases |
| KdNearest.NearestFromConsistent | kdtree.py:236-251 | the candidate's distance stays the true distance of its record |
| KdNearest.NearestFromInTree | kdtree.py:233-251 | the result is the incoming candidate or a record of the tree |
| KdNearest.NearestFromKeeps | kdtree.py:237 | a candidate no record beats survives unchanged, so ties keep the first record found |
| KdNearest.FarSideBound | kdtree.py:246 | a record across the pivot is at squared distance at least the squared gap |
| KdNearest.FourthPowerBelowSquare | kdtree.py:246 | when the squared gap is at most 1, `g^4 <= g^2`, so the test as written visits every far side the textbook test visits |
| KdNearest.NearestFromMinimal | kdtree.py:233-251 | on a k-d ordered tree the result is no farther than any record of the tree: always with the textbook test, and with the test as written when every record is within distance 1 |
| KdNearest.GetNearest | kdtree.py:223-231 | `get_nearest` is `None` exactly when the tree is empty |
| KdNearest.GetNearestCorrected | kdtree.py:223-231 | the same with the textbook pruning test |
| KdNearest.GetNearestFound | kdtree.py:223-251 | what the search finds is a record of the tree, under either rule |
| KdNearest.GetNearestCorrectedIsNearest | kdtree.py:233-251 | with the test `abs(g) < d`, the answer is a nearest record of a k-d ordered tree |
| KdNearest.GetNearestIsNearestWithinOne | kdtree.py:246 | with the test as written, the answer is nearest when every record is within distance 1 of the query |
| KdNearest.GetNearestCorrectedBuilt | kdtree.py:223-251 | on a tree built from non-empty data, the corrected search returns a nearest record of the data |
| KdNearest.GetNearestMissesCloser | kdtree.py:246 | three records: the search as written returns one at squared distance 16 while one at 9 exists; the corrected search returns that one |
| KdDisplay.Label | kdtree.py:135-164 | a node's label is the rendered latitude, a comma, then the rendered longitude, so its length is their lengths plus one |
| KdDisplay.Repeat | kdtree.py:146 | `n * c`: `n` copies of `c`, none when `n` is not positive |
| KdDisplay.AppendSpaces | kdtree.py:148 | `[line + u * ' ' for line in lines]`: as many lines, each followed by `u` spaces |
| KdDisplay.PrependSpaces | kdtree.py:158 | `[u * ' ' + line for line in lines]`: as many lines, each preceded by `u` spaces |
| KdDisplay.BlankLines | kdtree.py:169-171 | `[n * ' '] * count`: `count` lines (none when not positive), each of `n` spaces |
| KdDisplay.ZipJoin | kdtree.py:172-173 | `zip` stops at the shorter list; each pair is joined with the gap between |
| KdDisplay.PadTo | kdtree.py:168-171 | the lower side keeps its lines and is extended with `other - height` lines of `width` spaces; every line keeps the common width |
| KdDisplay.LeafLayout | kdtree.py:133-139 | a leaf is its label: one line, width the label length |
| KdDisplay.LeftOnlyLayout | kdtree.py:141-148 | only a left child: width grows by the label, height by 2, and every line keeps the common width |
| KdDisplay.RightOnlyLayout | kdtree.py:151-158 | only a right child: the same invariants |
| KdDisplay.TwoChildLayout | kdtree.py:160-174 | two children: width is the widths plus the label; height is the larger height plus 2 |
| KdDisplay.Display | kdtree.py:132-174 | all lines have the same width, the sum of the label lengths; there are `2·levels − 1` lines; `0 ≤ middle < width` |
| KdDisplay.LeftOnlyFacts | kdtree.py:141-148 | the label sits at the middle of line 1, a bar is over the child's centre, and the child's drawing is at column 0 |
| KdDisplay.RightOnlyFacts | kdtree.py:151-158 | the label is at the middle, a bar is over the child's centre, and the child is drawn at the label's width |
| KdDisplay.TwoChildFirstLines | kdtree.py:160-165 | the label is at the middle, with bars over both children's centres |
| KdDisplay.TwoChildDrawnLeft | kdtree.py:168-173 | the left child's lines appear at column 0 from line 3 |
| KdDisplay.TwoChildDrawnRight | kdtree.py:168-173 | the right child's lines appear after the left width and the label gap |
| KdDisplay.DisplayLabel | kdtree.py:132-174 | every node's label is centred on its layout's middle column |
| KdDisplay.DisplayExample | kdtree.py:182-186 | the three-record tree renders `'    ___2.0,2.0___    '`, `'   \|             \|   '`, `'1.0,1.0       3.0,3.0'` |
| KdIndex.KDTree.constructor | kdtree.py:120-125 | the root is the tree built at depth 0; the caller's array is left sorted by latitude; the invariant holds |
| KdIndex.KDTree.Lookup | kdtree.py:200-221 | a true answer names a stored match, and with distinct coordinates every stored position is found |
| KdIndex.KDTree.LookupFacts | kdtree.py:200-221 | soundness and conditional completeness of `lookup` on the built index |
| KdIndex.KDTree.GetNearest | kdtree.py:223-251 | `None` iff no records; otherwise a stored record, a nearest one when all records are within distance 1 |
| KdIndex.KDTree.GetNearestFacts | kdtree.py:223-251 | the same facts about the search as written on the built index |
| KdIndex.KDTree.GetNearestCorrected | kdtree.py:223-251 | with the textbook test: `None` iff no records, otherwise a nearest stored record |
| KdIndex.KDTree.GetNearestCorrectedFacts | kdtree.py:223-251 | the same facts about the corrected search on the built index |
| KdIndex.KDTree.DisplayTree | kdtree.py:127-130 | the lines printed are the layout's lines, `2·levels − 1` of them, all of the total label width |
| KdIndex.ThreeRecordExample | autotester.py:60-68 | building the index from the three test records and drawing it gives exactly the expected three lines |

## Left out

- Pickle loading (`CustomUnpickler`) and every doctest or test that reads
  `data/kdtree.pkl`: these are file I/O on an external data file.
- Python floats: coordinates are exact reals, so rounding error is not
  modelled.
- `math.sqrt`: replaced by squared distances with the same comparisons.
- `round(·, 5)` in lookup: an arbitrary function parameter.
- `round(·, 3)` and float formatting in display labels: an arbitrary
  function from reals to strings.
- `display_tree`'s `print` loop: console output. `KDTree.DisplayTree`
  returns the lines instead. Like the source, it assumes a non-empty
  index, since `_display_helper` dereferences `None` on an empty one.
- `tree_utilities.py`: only the record's fields are modelled. The string
  parsing in `MunicipalTree.__init__`, `__str__`, `distance_to` (sqrt and
  decimal rounding, never called by the index) and the CSV reader
  `TreeReader` are I/O or float formatting.
- `map_view.py`, `user_code.py` and `autotester.py`: the GUI, the entry
  point and the test harness. The expected drawing at autotester.py:60-68
  is reproduced by `KdIndex.ThreeRecordExample`.
- The `__main__` blocks: doctest and driver invocations.
- StableSort.SortBy: Python's Timsort is modelled by a stable insertion
  sort. A stable sort by a key has exactly one result, so the two agree on
  every input, but Timsort's run and merge steps are not modelled.
- KdBuild.BuildTree: the node is created with both children at once. The
  source creates it with empty children and assigns `_left` and `_right`
  afterwards; the nodes are a datatype because they are never modified
  after construction.
- KdBuild.BuildTree: the source's slices `data[:m]` and `data[m+1:]` are
  copies; the model copies them into fresh arrays, so the recursive sorts
  do not reorder the caller's array either. Only the top-level sort shows
  in the caller's array, as in the source.
- KdDisplay.Display: `_display_helper` is modelled by this pure function.
  The `+=` at kdtree.py:168-171 only pads the lists that the recursive calls
  have just returned, and nothing else refers to them, so the in-place
  padding is modelled by `PadTo` on values.
- ArgSorting.ArgSort: the values are mathematical integers; Python's
  integers are unbounded too, so nothing is lost.

## Findings

| source | as written | input that shows it | evidently intended | confidence | as-written member | corrected member |
|---|---|---|---|---|---|---|
| kdtree.py:246 | the far side is searched only if `(pivot - q)**2 < best_dist`, a squared gap against an unsquared distance | records `(lat, lon)` (-4, 0), (2, 10), (3, 0); query (0, 0). The root splits at latitude 2; the near side gives distance 4; `2**2 < 4` fails, so (3, 0) at distance 3 is never visited | the textbook test `abs(pivot - q) < best_dist`, that is `gap**2 < best_dist**2` | not executed | KdNearest.GetNearestMissesCloser | KdNearest.GetNearestCorrectedBuilt |
| kdtree.py:218-221 | lookup goes right when the query equals the pivot, but the stable median split can put an equal coordinate on the left (kdtree.py:196) | records at latitude 0 with longitudes 0, 1, 2; lookup of (0, 0) goes right at the root (pivot 0) and misses the left leaf | a stored record's coordinates are always found, for example by searching both sides on equality | not executed | KdLookup.LookupMissesEqualPivot | KdLookup.LookupCorrectedBuiltComplete |

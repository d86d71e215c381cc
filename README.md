# CTPN text-line post-processing, modelled in Dafny

This project models the post-processing helpers of the CTPN text detector, all in `CTPN/src/other.py`:

- **`Graph.sub_graphs_connected`** splits a square boolean adjacency matrix over text proposals into text-line chains. Entry `(i, j)` is true when proposal i precedes proposal j. An index is a chain head when its column is all false and its row is not; from a head, the chain repeatedly moves to the lowest-indexed successor until it reaches a node whose row is all false.
- **`threshold`** and **`clip_boxes`** clamp the x columns (even) and the y columns (odd) of a box table to the image, in place.
- **`normalize`** is min-max normalisation with guards for empty input and for a zero spread.
- **`resize_im`** computes a short-side scale factor, with an optional cap on the long side.

Files:

- `geometry.dfy` (module `Geometry`): `Threshold`, `ClipCoord`, and the in-place methods `ClipColumns` and `ClipBoxes` over `array2<int>`.
- `normalization.dfy` (module `Normalization`): `Normalize` over `seq<real>`, with exact arithmetic.
- `rescale.dfy` (module `Rescale`): the factor of `resize_im` over reals.
- `chains.dfy` (module `LineChains`): what `sub_graphs_connected` computes, stated on the matrix as a value (`seq<seq<bool>>`).
  - `Walk` is the lowest-successor path from a node.
  - `Chains` is the list of walks from every head, in head order.
  - The file also holds the lemmas about walks and chains.
- `text_graph.dfy` (module `TextGraph`): the class `Graph`.
  - It holds the matrix as an `array2<bool>` field.
  - `SubGraphsConnected` has the outer `for` over indices, and `FollowChain` the inner `while`.
  - `RowAny`, `ColumnAny` and `FirstInRow` are loops standing for `.any()` and `np.where(...)[0][0]`.
  - Each method is proved equal to the function in `LineChains` that defines its result.

### Termination of `sub_graphs_connected`

The `while` at line 116 has no guard against cycles, and the model adds none. `SubGraphsConnected` instead requires `Terminates`: every head reaches a node with an empty row by following lowest successors. The other lemmas justify this precondition:

- `FuelSuffices` shows that any finite number of steps can be replaced by N. So `Terminates` says exactly that the source's loop ends.
- The loop diverges only when a cycle lies on the lowest-successor walk from a head. A cycle that is merely reachable from a head does no harm when the walk never enters it.
  - `HeadIntoCycleDiverges` is one example of divergence: on 0→1, 1→2, 2→1 the walk from head 0 enters the cycle 1↔2, so the matrix fails `Terminates`.
  - `CycleOffWalkChains` is the counterpart: on 0→1, 0→2, 2→3, 3→2 the cycle 2↔3 is reachable from head 0, but the walk goes 0→1 and stops there, and the result is `[[0, 1]]`.
- `BackEdgeChains` covers the back-edge matrix 0→1, 1→0. It has no head, so it satisfies `Terminates` and the result is empty, even though following successors from either node would never end.

### Behaviour of the code worth knowing

- **Cycles.** The `while` at line 116 has no revisit guard. A chain is never cut short, and a cycle on the walk from a head makes the loop run forever. The model therefore requires `Terminates` of its callers.
- **Shared nodes.** Nothing makes chains disjoint. Two heads with a common successor both reach it, and `MergeChains` shows the result `[[0, 2], [1, 2]]`.

## Model

| member | source | states |
|---|---|---|
| `Geometry.Threshold` | CTPN/src/other.py:78-79 | result is at least `lo`; when `lo <= hi` it lies in `[lo, hi]`, equals `lo` below, `hi` above and the value itself inside; with inverted bounds it is `lo` |
| `Geometry.ThresholdIdempotent` | CTPN/src/other.py:79 | clamping twice equals clamping once |
| `Geometry.ThresholdMonotone` | CTPN/src/other.py:79 | clamping preserves the order of two coordinates |
| `Geometry.ClipCoord` | CTPN/src/other.py:86-87 | an even column lands in `[0, W-1]` and an odd column in `[0, H-1]` when that dimension is non-zero; in-range values are unchanged; an empty dimension gives 0 |
| `Geometry.ClipCoordIdempotent` | CTPN/src/other.py:86-87 | clipping an already clipped coordinate changes nothing |
| `Geometry.ClipColumns` | CTPN/src/other.py:86 | columns `start, start+2, ...` of every row are replaced by their clamp to `[0, bound]` in place; every other column is unchanged |
| `Geometry.ClipBoxes` | CTPN/src/other.py:82-88 | returns the same table, mutated in place; every entry is `ClipCoord` of its old value; every x column lies in `[0, W-1]` and every y column in `[0, H-1]` |
| `Normalization.SeqMin` | CTPN/src/other.py:95 | the minimum is an element of the vector and is at most every element |
| `Normalization.SeqMax` | CTPN/src/other.py:94 | the maximum is an element of the vector and is at least every element |
| `Normalization.Normalize` | CTPN/src/other.py:91-96 | the output is as long as the input; empty input is returned unchanged |
| `Normalization.NormalizeInUnitRange` | CTPN/src/other.py:96 | every output value lies in `[0, 1]`, the all-equal case included |
| `Normalization.NormalizeConstant` | CTPN/src/other.py:96 | when max equals min, every output is `data[i] - min`, which is 0 |
| `Normalization.NormalizeExtremes` | CTPN/src/other.py:94-96 | with distinct extremes, every minimal entry maps to 0 and every maximal entry to 1 |
| `Normalization.NormalizeOrder` | CTPN/src/other.py:96 | with distinct extremes, `data[i] <= data[j]` holds exactly when the same holds after normalising |
| `Normalization.NormalizeMonotone` | CTPN/src/other.py:96 | in every case, an order between two entries survives normalisation |
| `Rescale.ResizeFactor` | CTPN/src/other.py:99-102 | no factor when the short side is 0 (the division fails); with no cap, the short side scales to exactly `scale`; with a cap, the long side never exceeds it, and either the short side reaches `scale` or the long side reaches the cap; the cap only shrinks the factor; the factor is positive for positive inputs |
| `Rescale.ResizeFactorCappedIsMin` | CTPN/src/other.py:100-102 | with a cap, the factor is the smaller of `scale / min(h, w)` and `max_scale / max(h, w)` |
| `Rescale.ResizeFactorLooseCap` | CTPN/src/other.py:101 | a cap that the uncapped factor respects leaves the factor unchanged |
| `LineChains.FirstTrue` | CTPN/src/other.py:117 | the index returned holds a true entry, and every earlier entry is false |
| `LineChains.Succ` | CTPN/src/other.py:117 | the next node is a successor of `v`, and no lower index is one |
| `LineChains.Walk` | CTPN/src/other.py:114-118 | the path starts at `v`, holds only indices below N, and is at most one longer than its step bound |
| `LineChains.WalkIsPath` | CTPN/src/other.py:116-118 | every step of a walk goes from a node with a successor to its lowest successor; the last node has an empty row |
| `LineChains.WalkExtend` | CTPN/src/other.py:116-118 | extending a partial chain by the lowest successor keeps it a prefix of the full walk; when the row is empty, the partial chain is the full walk |
| `LineChains.WalkFuelIndependent` | CTPN/src/other.py:116-118 | the walk does not depend on the step bound used to define it |
| `LineChains.WalkSuffix` | CTPN/src/other.py:116-118 | every suffix of a walk is the walk from its first node |
| `LineChains.WalkDistinct` | CTPN/src/other.py:116-118 | no node occurs twice on a walk that ends |
| `LineChains.DistinctIndicesBound` | CTPN/src/other.py:112 | pigeonhole: distinct indices below N number at most N |
| `LineChains.FuelSuffices` | CTPN/src/other.py:116 | if the loop ends at all from `v`, it ends within N steps, with the same chain |
| `LineChains.Chains` | CTPN/src/other.py:110-119 | the result: the walks from every head, in head order; each has at least two nodes and a head below N |
| `LineChains.ChainsBelow` | CTPN/src/other.py:112-118 | every chain with a head below `k` has at least two nodes, and its head is below `k` |
| `LineChains.ChainsBelowAreWalks` | CTPN/src/other.py:113-118 | every chain emitted is the walk from a head |
| `LineChains.ChainsBelowIncreasing` | CTPN/src/other.py:112 | heads of the emitted chains increase strictly |
| `LineChains.ChainsBelowComplete` | CTPN/src/other.py:112-115 | every head below `k` starts an emitted chain |
| `LineChains.ChainHeadIff` | CTPN/src/other.py:113 | index i starts a chain exactly when column i is all false and row i is not |
| `LineChains.ChainsOrdered` | CTPN/src/other.py:112-115 | chains come out in strictly increasing order of their head index |
| `LineChains.ChainStructure` | CTPN/src/other.py:113-118 | each chain starts at a head, has between 2 and N nodes, all distinct and below N; each consecutive pair is an edge to the lowest-indexed successor; the chain stops at the first node with an empty row |
| `LineChains.IsolatedNodeInNoChain` | CTPN/src/other.py:113-118 | a node with no predecessor and no successor appears in no chain |
| `LineChains.Line3Chains` | CTPN/src/other.py:110-119 | edges 0→1, 1→2 give exactly `[[0, 1, 2]]` |
| `LineChains.TwoPairsChains` | CTPN/src/other.py:110-119 | edges 0→1, 2→3 give `[[0, 1], [2, 3]]`, in head order |
| `LineChains.MergeChains` | CTPN/src/other.py:110-119 | edges 0→2, 1→2 give `[[0, 2], [1, 2]]`, so node 2 is on both chains |
| `LineChains.BackEdgeChains` | CTPN/src/other.py:113-116 | the back edge 0→1, 1→0 has no head, so the result is empty; following successors from 0 never reaches an empty row |
| `LineChains.HeadIntoCycleDiverges` | CTPN/src/other.py:116 | on 0→1, 1→2, 2→1, node 0 is a head and the loop from it never ends, so the matrix fails `Terminates` |
| `LineChains.CycleOffWalkChains` | CTPN/src/other.py:113-118 | on 0→1, 0→2, 2→3, 3→2 the cycle 2↔3 is reachable from head 0 but off its walk; the matrix satisfies `Terminates` and gives `[[0, 1]]` |
| `TextGraph.Graph.constructor` | CTPN/src/other.py:107-108 | the graph holds the given matrix (the same array, not a copy) |
| `TextGraph.Graph.RowAny` | CTPN/src/other.py:113 | the result is true exactly when row `v` has a true entry |
| `TextGraph.Graph.ColumnAny` | CTPN/src/other.py:113 | the result is true exactly when column `j` has a true entry |
| `TextGraph.Graph.FirstInRow` | CTPN/src/other.py:117 | returns the lowest index of a true entry in row `v` |
| `TextGraph.Graph.FollowChain` | CTPN/src/other.py:114-118 | the chain collected from a head is its full lowest-successor walk |
| `TextGraph.Graph.SubGraphsConnected` | CTPN/src/other.py:110-119 | the result equals `Chains` of the matrix, so every lemma above about `Chains` holds of it |

## Left out

- `draw_boxes` (lines 15-75) is floating-point geometry interleaved with OpenCV drawing calls. Its colour comes from a matplotlib colormap or from `np.random`. It is not part of this model.
- `prepare_img` (lines 7-12) is a numpy transpose and mean subtraction with no logic of its own.
- The `cv2.resize` call in `resize_im` (line 103) is a foreign image operation. Only the factor is modelled.
- `CaffeModel` (lines 122-140) loads the network and runs its forward pass through the caffe library.
- `normalize` and the resize factor are modelled over exact reals. IEEE rounding, NaN and infinity are not modelled.
- `Normalization.Normalize` takes a one-dimensional vector. The source also accepts arrays of higher rank, taking max and min over all elements.
- `Geometry.ClipBoxes` works on integer tables. The source also accepts float tables, which behave the same over exact values but are not modelled.
- `TextGraph.Graph.SubGraphsConnected` requires a square matrix. The source indexes rows by column indices, so some non-square inputs run until an index falls outside the array.
- `TextGraph.Graph.SubGraphsConnected` requires `Terminates`. On any other matrix the source's inner loop never ends, so there is no result to describe.
- `TextGraph.Graph.SubGraphsConnected` builds each chain in a local sequence and appends it once finished. The source appends `[v]` to `sub_graphs` first and then extends that list in place. Nothing reads the list in between, so the result is the same.

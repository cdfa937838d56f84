# A verified model of the algorithms below the point cloud codec

This project models the algorithms that the point cloud compression software leans on, and proves what they
promise. It covers five components, each in its own directory.

- `kdtree/` — the k-d tree of nanoflann. The index is built by in-place three-way partitioning of an array of
  point numbers, and queries descend it with an incrementally updated lower bound. The main results are that
  a built index is a well-formed tree over a permutation of all points, and that the pruned search returns what
  brute force returns, rank by rank, or within the factor 1 + eps of it. The pool allocator below the tree hands
  out disjoint pieces and keeps its books balanced.
- `hevc/` — the decoding of HEVC and SHVC parameter sets (H.265). The bit reader refines a flat list of bits, and
  Exp-Golomb decoding inverts encoding. On top of it come the octree of the 3D colour table, short-term
  reference picture sets, picture order counts, scan tables, scaling lists, and the dependencies between the
  layers of a video parameter set.
- `pool/` — the result collectors of the thread pool of TBB for Python, as protocols of atomic steps under every
  interleaving, and as objects whose methods refine these steps.
- `md5/` — streaming MD5 against the definition of RFC 1321.
- `common/` — bit strings, optional values, finite sets and lists, which the others share.

Sizes that the program fixes (numbers of widths, depths, layers, capacities) are parameters, so the results are not
bound to them.

Objects whose methods update fields are classes here, loops are loops with invariants, and arrays are updated in
place. Each such method is proved against a specification function or predicate, and the properties are lemmas
about these.

## Where the code differs from what is expected of it

- Reference picture sets: an inter-predicted set counts a delta of 0 as positive. `RefPicSetStandard.InterIsDerived` and
  `ListIsDerived` show that this is the only difference from section 7.4.8 of H.265; `ZeroDeltaDiffers` is an instance.
- Colour table: cells have a 16-bit pixel type, and the 12-bit check comes after the conversion, so a residual comes
  back exactly if its scaled value fits 16 bits (`ColourTable.Table.GetResidual`), and the cells of a column hold the
  plain sums of their residuals exactly if all of them do (`ColourTable.CellIsExactSum`);
  `ColourTable.LargeResidualIsLost` is an instance.
- Layers: references are stored by layer index and read by layer identifier, so the closure is right for all
  dependencies exactly if the two coincide (`LayerDependencies.FaithfulExactly`); for a single table
  `LayerDependencies.FaithfulTable` says when. The derivation of necessary layers for all output layer sets begins
  with calls that test for emptiness where clearing was meant, so it completes only once
  (`DeriveNecessaryLayerFlags`). This overload has no caller in the repository: the parser calls the one for a single
  set, which is not affected.
- Sample positions: vertical positions are counted in block widths (`ZScan.VerticalPositions`). `initRasterToPelXY` has
  no caller in the repository.
- Scaling lists: the remainder truncates towards zero, so a coded difference far below the permitted range gives a
  negative coefficient (`ScalingLists.NextCoefExactly`).
- MD5: a comment says that the bit count is appended with its most significant part first; the code appends the low-order
  word first, as the RFC does (`Md5Meaning.LengthIsNumber`).
- Pool allocator: pieces start 8 bytes behind multiples of 16 counted from the block, so in a block at a word boundary
  no piece is word aligned, although the comment in the source speaks of word alignment
  (`PooledAllocator.AlignedExactly`). A failed system allocation counts the rest of the block as wasted without giving
  it up, so after a run the books balance exactly if no failed call found a rest (`PooledAllocator.BalancedExactly`);
  `PooledAllocator.UnbalancedRun` is an instance.
- Thread pool: the loop that cuts arguments into sequences ends exactly if the chunk size is not negative
  (`Jobs.EndsExactly`). An iterator whose wait times out starts again from the beginning, so a pass hands out the
  collection once exactly if no wait expired after something had been handed out
  (`UnorderedCollector.ReadersAreSafe`); `UnorderedCollector.RepeatedResult` is an instance.

## Assumptions

- Coordinates and distances of the k-d tree are real numbers. The largest distance of the number type is a parameter; a
  rank at or beyond it is not returned. At least one axis, a leaf size and a capacity of at least 1 are required, as
  the code needs them to work at all.
- The bit reader starts from the bytes that its byte loader delivers, and reads 1 to 31 bits inside the data, or
  32 across a word boundary; code prefixes are at most 30 bits long.
- Remainders of coded colour residuals have 1 to 31 bits, and scaled residuals stay within 32-bit arithmetic
  (`ColourOctree.Shape`).
- Requests to the pool allocator are small enough that its sums of sizes stay within the address type, and the system
  hands out memory that is not in use.
- The arguments of the table-filling functions are block sizes that the smallest block divides.
- The temporal layer of a picture, the outcome of a job, the order of steps and the end of a wait are inputs.

## Model

| member | source | states |
|---|---|---|
| Metric.KdtreeDistance | dependencies/nanoflann/KDTreeVectorOfVectorsAdaptor.h:126-133 | the loop returns the squared Euclidean distance: q.q - 2 q.p + p.p |
| Metric.DistanceIsEuclidean | dependencies/nanoflann/KDTreeVectorOfVectorsAdaptor.h:126-133 | the sum of the squared axis differences is the squared Euclidean distance, in terms of scalar products |
| Metric.SumBoundsDistance | dependencies/nanoflann/nanoflann.hpp:1247-1250 | if every axis bound is at most the squared axis difference, the sum of the bounds is at most the distance |
| ResultSets.KNNResultSet.AddPoint | dependencies/nanoflann/nanoflann.hpp:110-131 | the shifted arrays hold the old items with the new one inserted behind equal distances, cut to the capacity |
| ResultSets.KNNResultSet.WorstDist | dependencies/nanoflann/nanoflann.hpp:133-136 | the worst distance is that of the last item once the set is full, and the limit before |
| ResultSets.KNNResultSet.Full | dependencies/nanoflann/nanoflann.hpp:104-107 | full means exactly as many items as the capacity |
| ResultSets.RadiusResultSet.AddPoint | dependencies/nanoflann/nanoflann.hpp:165-169 | a point is kept, once, exactly when its distance is below the radius |
| ResultSets.OfferStep | dependencies/nanoflann/nanoflann.hpp:110-136 | an offer keeps the set sorted, distinct and within capacity, never raises the worst distance, and drops only items at or beyond it |
| ResultSets.InsertSorted | dependencies/nanoflann/nanoflann.hpp:110-131 | inserting into a sorted list gives a sorted list |
| KdTreeIndex.KDTreeIndex.BuildIndex | dependencies/nanoflann/nanoflann.hpp:858-866 | afterwards the index array is a permutation of all point numbers, and the tree over it is well formed: leaves tile it with nonempty ranges of at most the leaf size, and each split has the left maximum and the right minimum on its axis |
| KdTreeIndex.KDTreeIndex.PlaneSplit | dependencies/nanoflann/nanoflann.hpp:1154-1181 | the range is permuted in place into below, equal and above the cut value, between the two returned limits, also with unsigned indexes |
| KdTreeIndex.KDTreeIndex.SplitPass | dependencies/nanoflann/nanoflann.hpp:1160-1180 | one pass separates what is below from what is not, permuting only the range |
| KdTreeIndex.KDTreeIndex.MiddleSplit | dependencies/nanoflann/nanoflann.hpp:1103-1142 | both sides of the chosen index are nonempty, the left is at most and the right at least the cut value, and only the range is permuted; the cut value is the middle of the box on its axis or the extreme of the points nearest to it, and the index is the middle unless the points below or above the cut reach beyond it |
| KdTreeIndex.KDTreeIndex.ComputeMinMax | dependencies/nanoflann/nanoflann.hpp:1092-1101 | the results are attained in the range and bound it |
| KdTreeIndex.KDTreeIndex.DivideTree | dependencies/nanoflann/nanoflann.hpp:1041-1089 | the returned subtree covers exactly the range and is well formed, and the returned box is the tight box of its points |
| KdTreeIndex.KDTreeIndex.FitBox | dependencies/nanoflann/nanoflann.hpp:1009-1031 | the box is tight: both ends of every interval are attained and bound all points |
| KdTreePartition.CutSeparates | dependencies/nanoflann/nanoflann.hpp:1137-1141 | with the cut value between the extremes of the range, the split index nearest to the middle has both sides nonempty, at most the cut value before it and at least the cut value from it on |
| KdTreePartition.DividedTree | dependencies/nanoflann/nanoflann.hpp:1066-1085 | two well-formed subtrees with boxes separated on the cut axis join to a well-formed tree |
| KdTreePartition.JoinedBoxIsTight | dependencies/nanoflann/nanoflann.hpp:1082-1085 | the union of the tight boxes of two parts is the tight box of the whole |
| KdTreeIndex.KDTreeIndex.ComputeInitialDistances | dependencies/nanoflann/nanoflann.hpp:1183-1200 | the bounds are, axis by axis, the distances to the nearest place in the root box, hence lower bounds for every point, and their sum is returned |
| KdTreeIndex.KDTreeIndex.SearchLevel | dependencies/nanoflann/nanoflann.hpp:1207-1254 | after a subtree every one of its points has been accounted for up to the error factor, and the axis bounds are restored |
| KdTreeIndex.KDTreeIndex.SearchFar | dependencies/nanoflann/nanoflann.hpp:1245-1253 | the far side is searched or ruled out with the updated lower bound, and the bound is restored |
| KdTreeIndex.KDTreeIndex.FindNeighbors | dependencies/nanoflann/nanoflann.hpp:901-915 | a query on a built index accounts for all points up to the factor 1 + eps; it fails exactly if the index of a nonempty cloud was not built |
| KdTreeIndex.KDTreeIndex.KnnSearch | dependencies/nanoflann/nanoflann.hpp:925-931 | the returned distances are, rank by rank, the brute-force distances below the limit, for as many ranks as requested and available, with distinct indexes that have them |
| KdTreeIndex.KDTreeIndex.RadiusSearch | dependencies/nanoflann/nanoflann.hpp:945-952 | without error tolerance exactly the points at distance below the radius are returned, each once, and if sorting is asked for, rank by rank the head of brute force; with a tolerance, no point clearly inside is missed |
| KdRanking.ExactNearest | dependencies/nanoflann/nanoflann.hpp:901-931 | with eps 0 rank by rank the answer equals brute force, and a rank is present if and only if it is below the capacity and the limit |
| KdRanking.ExactNearestCount | dependencies/nanoflann/nanoflann.hpp:925-931 | when all distances are below the limit, min(k, n) points are returned |
| KdRanking.RelaxedNearest | dependencies/nanoflann/nanoflann.hpp:908-1253 | with eps every returned distance is at least the true distance of its rank and at most 1 + eps times it |
| KdRanking.ExactRadius | dependencies/nanoflann/nanoflann.hpp:945-952 | with eps 0 a point is in the answer if and only if it is closer than the radius |
| KdRanking.RelaxedRadius | dependencies/nanoflann/nanoflann.hpp:945-952 | with eps a point is in the answer whenever its relaxed distance is below the radius |
| KdRanking.SortedRadius | dependencies/nanoflann/nanoflann.hpp:949-950 | the sorted answer of a radius search without tolerance is, rank by rank, brute force up to the radius |
| KdRanking.BruteForceRanks | dependencies/nanoflann/nanoflann.hpp:901-915 | the reference ranking lists all points once, by ascending distance |
| PooledAllocator.Pool.Malloc | dependencies/nanoflann/nanoflann.hpp:515-558 | the piece has the least multiple of 16 at or above the request, lies in its block behind the pointer and overlaps no other piece; in every reachable pool the used memory is that of all pieces, and the accounts exceed the blocks by exactly the rests that failed calls have found; a call adds such a rest if and only if it fails |
| PooledAllocator.BalancedExactly | dependencies/nanoflann/nanoflann.hpp:474-558 | after any run of calls, used + wasted + remaining + one pointer per block is the total block size if and only if no failed call found a rest |
| PooledAllocator.UnbalancedRun | dependencies/nanoflann/nanoflann.hpp:526-541 | three calls after which the books do not balance |
| PooledAllocator.AlignedExactly | dependencies/nanoflann/nanoflann.hpp:459-466 | a piece is word aligned if and only if what follows the pointer of its block is; in an aligned block none is |
| PooledAllocator.Pool.FreeAll | dependencies/nanoflann/nanoflann.hpp:501-509 | every block is given back exactly once, the last one first, and the pool is empty |
| PooledAllocator.RoundedExactly | dependencies/nanoflann/nanoflann.hpp:521 | the masked sum is the least sufficient multiple of 16 if and only if the sum does not leave the range of the type |
| PooledAllocator.BlockSizeLeast | dependencies/nanoflann/nanoflann.hpp:530-532 | a block has the least size that is at least 8192 and has room for the pointer, the piece and 15 bytes more |
| PooledAllocator.AccountsOfBlock | dependencies/nanoflann/nanoflann.hpp:526-548 | the accounts stay as they should when a block is added and the rest of the one before is wasted |
| PooledAllocator.AccountsOfFailure | dependencies/nanoflann/nanoflann.hpp:528-541 | a failed system allocation puts the accounts out by the rest of the last block |
| PooledAllocator.PieceAdded | dependencies/nanoflann/nanoflann.hpp:550-557 | a piece cut off the rest is apart from all pieces handed out before |
| BitReader.Reader.constructor | dependencies/PccLibHevcParser/include/TDecCAVLC.h:68-77 | the unread bits are those of the delivered bytes, one byte after the other, most significant bit first |
| BitReader.WordsAreBytes | dependencies/PccLibHevcParser/include/TDecCAVLC.h:176-185 | the bits of the loaded words are those of the bytes, in their order |
| BitReader.Reader.Read | dependencies/PccLibHevcParser/include/TDecCAVLC.h:117-135 | the value of the next bits, big-endian, across word refills, and exactly these are consumed |
| BitReader.Reader.LoadBuffer | dependencies/PccLibHevcParser/include/TDecCAVLC.h:176-185 | four delivered bytes make the next word; at the end of the data the buffer is unchanged |
| BitReader.Reader.ReadFlag | dependencies/PccLibHevcParser/include/TDecCAVLC.h:79 | the next bit |
| BitReader.Reader.ReadUvlc | dependencies/PccLibHevcParser/include/TDecCAVLC.h:80-97 | the value of the Exp-Golomb codeword in front, and exactly the codeword is consumed |
| BitReader.Reader.ReadSvlc | dependencies/PccLibHevcParser/include/TDecCAVLC.h:98-115 | the signed value of the codeword in front, and exactly the codeword is consumed |
| ExpGolomb.UeRoundTrip | dependencies/PccLibHevcParser/include/TDecCAVLC.h:80-97 | decoding an encoded number gives it back and leaves the bits behind it |
| ExpGolomb.UeCanonical | dependencies/PccLibHevcParser/include/TDecCAVLC.h:80-97 | every complete codeword is the encoding of its value |
| ExpGolomb.UeIsNumber | dependencies/PccLibHevcParser/include/TDecCAVLC.h:80-97 | a codeword has as many zeros as digits follow its first one bit, and its bits are the binary digits of its value plus 1 |
| ExpGolomb.SeIsSigned | dependencies/PccLibHevcParser/include/TDecCAVLC.h:98-115 | code number k stands for (-1)^(k+1) Ceil(k / 2) |
| ExpGolomb.SeRoundTrip | dependencies/PccLibHevcParser/include/TDecCAVLC.h:98-115 | the same for signed numbers |
| Bits.ShiftRightDivides | dependencies/PccLibHevcParser/include/TDecCAVLC.h:123-130 | shifting a 32-bit word right divides its value by the power of two |
| Bits.ShiftLeftMultiplies | dependencies/PccLibHevcParser/include/TDecCAVLC.h:124-132 | shifting left multiplies modulo 2^32 |
| ColourTable.Table.SetResidual | dependencies/PccLibHevcParser/source/TCom3DAsymLUT.cpp:279-296 | a cell is written once, above a written one, and fails if and only if the value leaves 12 bits |
| ColourTable.TwelveBitsExactly | dependencies/PccLibHevcParser/source/TCom3DAsymLUT.cpp:290-292 | the checked range is that of 12 bits in two's complement |
| ColourTable.Table.GetPrediction | dependencies/PccLibHevcParser/source/TCom3DAsymLUT.cpp:220-266 | the prediction is the value of the cell below, or the identity mapping on the bottom row |
| ColourTable.BaseIsIdentity | dependencies/PccLibHevcParser/source/TCom3DAsymLUT.cpp:226-231 | the base of the table maps every sample to itself, reduced by the bits that the output has less |
| ColourTable.UncodedIsIdentity | dependencies/PccLibHevcParser/source/TCom3DAsymLUT.cpp:226-236 | a table without residuals maps every sample to itself |
| ColourTable.Table.GetResidual | dependencies/PccLibHevcParser/source/TCom3DAsymLUT.cpp:268-278 | the coded delta comes back if and only if the scaled delta fits the 16-bit pixel type |
| ColourTable.CellIsColumnSum | dependencies/PccLibHevcParser/source/TCom3DAsymLUT.cpp:279-287 | a cell holds the identity mapping plus the sum of all scaled residuals at or below it, in the pixel type |
| ColourTable.CellIsExactSum | dependencies/PccLibHevcParser/source/TCom3DAsymLUT.cpp:279-287 | up to any height of a column the cells hold the plain sums of base and residuals if and only if all these residuals fit the pixel type |
| ColourTable.LargeResidualIsLost | dependencies/PccLibHevcParser/source/TCom3DAsymLUT.cpp:268-296 | a residual that passes the 12-bit check and does not come back |
| ColourTable.ComponentBack | dependencies/PccLibHevcParser/source/TCom3DAsymLUT.cpp:268-287 | one component survives scaling, a 12-bit cell and scaling back if and only if the scaled residual fits |
| ColourParser.Parser.ParseTable | dependencies/PccLibHevcParser/source/TDecCAVLC.cpp:4707 | every cell is written exactly once with the residual that the octree codes for its place, exactly the bits of the octree are consumed, and it fails if and only if some cell exceeds 12 bits |
| ColourOctree.ResidualIs | dependencies/PccLibHevcParser/source/TDecCAVLC.cpp:4728-4737 | the block-wise residual is the one found by descending with the place of the cell: of the eight parts, the luma half counts most, then the halves of the two chroma components |
| ColourOctree.ParamMeans | dependencies/PccLibHevcParser/source/TDecCAVLC.cpp:4811-4834 | a coded residual is its quotient shifted up plus its remainder, negative behind a sign bit of 1 |
| ColourParser.Parser.ParseOctant | dependencies/PccLibHevcParser/source/TDecCAVLC.cpp:4719-4807 | the same for one octant: its block is written, bottom up, nothing else changes, and its bits are consumed; the remaining depth decreases |
| ColourParser.Parser.ParseLeaf | dependencies/PccLibHevcParser/source/TDecCAVLC.cpp:4739-4805 | a leaf fills its coded column and all its other columns |
| ColourParser.Parser.ParseRow | dependencies/PccLibHevcParser/source/TDecCAVLC.cpp:4741-4785 | one luma part: four coded vertices in its first row, none in the rest |
| ColourParser.Parser.ReadParam | dependencies/PccLibHevcParser/source/TDecCAVLC.cpp:4811-4834 | quotient, remainder and sign give the encoded value back and are consumed exactly |
| ColourParser.Parser.ReadVertex | dependencies/PccLibHevcParser/source/TDecCAVLC.cpp:4743-4773 | the three components of a coded vertex, or zeros |
| RefPicSetParser.RefPicSet.SortDeltaPoc | dependencies/PccLibHevcParser/source/TComSlice.cpp:3912-3942 | in place, on two arrays: the pairs of delta and used flag are those before, sorted by delta, with the negative head reversed |
| RefPicSetParser.RefPicSet.ParseExplicit | dependencies/PccLibHevcParser/source/TDecCAVLC.cpp:227-250 | from the bits of an explicitly coded set: the deltas are the running sums of the coded distances, negative ones first, and exactly the bits of the set are consumed |
| RefPicSetParser.RefPicSet.ParseInter | dependencies/PccLibHevcParser/source/TDecCAVLC.cpp:187-225 | from the bits of an inter-predicted set: the sorted selection of the moved reference pictures, with counts matching, and exactly the bits of the set are consumed |
| RefPicSetParser.ParseSets | dependencies/PccLibHevcParser/source/TDecCAVLC.cpp:1165-1169 | from the bits of a whole list: every set is what its syntax and the set before it stand for, the bits behind the list are left, and the sets are those of the standard if and only if no set keeps a picture that it moves onto the current one |
| RefPicSetProofs.InterAgrees | dependencies/PccLibHevcParser/source/TDecCAVLC.cpp:187-225 | a parsed inter-predicted set equals the derivation of the standard if and only if no selected delta is 0 |
| RefPicSetProofs.InterWellFormed | dependencies/PccLibHevcParser/source/TDecCAVLC.cpp:187-225 | it is strictly ordered, negative before positive, under the same condition |
| RefPicSetProofs.ExplicitWellFormed | dependencies/PccLibHevcParser/source/TDecCAVLC.cpp:227-250 | explicitly coded sets always are |
| RefPicSetProofs.AllWellFormed | dependencies/PccLibHevcParser/source/TDecCAVLC.cpp:1165-1169 | all sets of a list are ordered if and only if no set selects a zero delta |
| RefPicSetStandard.InterIsDerived | dependencies/PccLibHevcParser/source/TDecCAVLC.cpp:187-225 | a parsed inter-predicted set is the one of equations 7-61 and 7-62, with the signed distance and the inferred use_delta_flag of the standard, if and only if no kept picture is moved onto the current one |
| RefPicSetStandard.ExplicitIsDerived | dependencies/PccLibHevcParser/source/TDecCAVLC.cpp:227-250 | explicitly coded sets are those of equations 7-63 to 7-66 |
| RefPicSetStandard.ListIsDerived | dependencies/PccLibHevcParser/source/TDecCAVLC.cpp:1165-1169 | over a whole list the parsed sets are those of the standard under exactly this condition |
| RefPicSetStandard.ZeroDeltaDiffers | dependencies/PccLibHevcParser/source/TDecCAVLC.cpp:203-210 | a list with a zero delta, for which the two differ |
| RefPicSetProofs.DeltasStaySmall | dependencies/PccLibHevcParser/source/TDecCAVLC.cpp:165-255 | in a list with syntax elements in range the deltas stay far from overflow |
| RefPicSets.SortPicsSorts | dependencies/PccLibHevcParser/source/TComSlice.cpp:3914-3930 | the insertion sort gives an ascending permutation |
| PictureOrderCount.StepRecovers | dependencies/PccLibHevcParser/source/TDecCAVLC.cpp:3275-3299 | the decoded POC equals the coded one if and only if the picture is within half the range of the last anchor (IDR: is 0; BLA: is below the range) |
| PictureOrderCount.RunRecovers | dependencies/PccLibHevcParser/source/TDecCAVLC.cpp:3275-3299 | over a whole run all POCs are recovered from their low bits, negative ones included, if and only if every picture is within reach of the last anchor before it |
| PictureOrderCount.AdjustedExactly | dependencies/PccLibHevcParser/source/TDecCAVLC.cpp:3280-3291 | exactly one value of the window has the right residue, and the three branches find it |
| PictureOrderCount.MsbFormulationsAgree | dependencies/PccLibHevcParser/source/TComSlice.cpp:280-294 | the two formulations of the high part agree |
| PictureOrderCount.Slice.SetPoc | dependencies/PccLibHevcParser/include/TComSlice.h:2465-2466 | over every run of pictures, the value kept for prediction stays the POC of the last picture of temporal layer 0 that is a reference and neither RASL nor RADL |
| PictureOrderCount.AnchorAfter | dependencies/PccLibHevcParser/include/TComSlice.h:2465-2466 | the last such picture of a longer run is the new one or that of the run before |
| PictureOrderCount.AnchorTypes | dependencies/PccLibHevcParser/include/TComSlice.h:2465-2466 | the pictures that count are those of the types 1, 3, 5, 11, 13, 15 and 16 to 23 of temporal layer 0; IDR types are 19 and 20, BLA types 16 to 18 |
| PictureOrderCount.Slice.ReadPoc | dependencies/PccLibHevcParser/source/TDecCAVLC.cpp:3241-3299 | one header: the low bits are read and consumed, the POC is that of the derivation from them and the last anchor, and the picture joins the run; an IDR picture codes no low bits and has POC 0 |
| PictureOrderCount.Slice.ParseRun | dependencies/PccLibHevcParser/source/TDecCAVLC.cpp:3275-3299 | the headers of a run give back all coded POCs if and only if every picture is within reach of the last anchor before it |
| LayerDependencies.Vps.ReadDependencies | dependencies/PccLibHevcParser/source/TDecCAVLC.cpp:1574-1591 | the reference lists hold exactly the flagged lower layers, in ascending order |
| LayerDependencies.Vps.SetRefLayersFlags | dependencies/PccLibHevcParser/source/TComSlice.cpp:2983-2994 | a row gains its direct references and their rows, nothing else changes |
| LayerDependencies.Vps.SetNumRefLayers | dependencies/PccLibHevcParser/source/TComSlice.cpp:2996-3010 | with identifiers equal to indexes the flags are the transitive closure; in general exactly the paths over listed layers; and the counts are the row sizes |
| LayerDependencies.FaithfulExactly | dependencies/PccLibHevcParser/source/TComSlice.cpp:2983-3010 | the flags are right for all dependencies if and only if the layer identifiers are the layer indexes |
| LayerDependencies.FaithfulTable | dependencies/PccLibHevcParser/source/TComSlice.cpp:2983-3010 | for a single table, they are right if and only if every row, read by identifier, leads to the same layers as the references of its layer |
| LayerDependencies.ViaIsReaches | dependencies/PccLibHevcParser/source/TComSlice.cpp:2983-2994 | the in-order closure is reachability by chains of references |
| LayerDependencies.ReachesDown | dependencies/PccLibHevcParser/source/TComSlice.cpp:2983-2994 | needed layers are lower layers |
| LayerDependencies.Vps.SetPredictedLayerIds | dependencies/PccLibHevcParser/source/TComSlice.cpp:3013-3030 | each list has the layers that reach a layer, in ascending order: the converse of the closure |
| LayerDependencies.EnumerationUnique | dependencies/PccLibHevcParser/source/TComSlice.cpp:3019-3026 | an ascending list is determined by its members |
| LayerDependencies.Vps.DeriveLayerIdListVariables | dependencies/PccLibHevcParser/source/TComSlice.cpp:2875-2894 | each layer set lists its included layers in ascending order; set 0 has only layer 0 |
| LayerDependencies.Vps.DeriveNecessaryLayerFlag | dependencies/PccLibHevcParser/source/TComSlice.cpp:3341-3365 | a layer of the set is marked if and only if an output layer of the set reaches it in zero or more steps; the count is that of the marked layers |
| LayerDependencies.Vps.DeriveNecessaryLayerFlags | dependencies/PccLibHevcParser/source/TComSlice.cpp:3330-3340 | the loop over all output layer sets completes if and only if there were no flags before or there is nothing to do |
| ZScan.InitZscanToRaster | dependencies/PccLibHevcParser/source/TComRom.cpp:100-117 | at every depth exactly 4^(maxDepth - depth) entries are written, the k-th being the start plus the de-interleaved bits of k, and the pointer advances by as many |
| ZScan.InitRasterToZscan | dependencies/PccLibHevcParser/source/TComRom.cpp:119-131 | the table is the two-sided inverse, and each entry interleaves the coordinates of its place |
| ZScan.AlignedRuns | dependencies/PccLibHevcParser/source/TComRom.cpp:100-117 | an aligned run of 4^n entries covers exactly one aligned square of side 2^n |
| ZScan.PartBits | dependencies/PccLibHevcParser/source/TComRom.cpp:100-117 | bit n of the horizontal coordinate is bit 2n of the index, bit n of the vertical one bit 2n + 1 |
| ZScan.InterleaveOfParts | dependencies/PccLibHevcParser/source/TComRom.cpp:110-115 | interleaving the even and the odd bits of an index gives it back |
| ZScan.PartsOfInterleave | dependencies/PccLibHevcParser/source/TComRom.cpp:110-115 | and the coordinates come back from the interleaved index |
| ZScan.EntryParts | dependencies/PccLibHevcParser/source/TComRom.cpp:100-117 | the entries are different places of the square, with the de-interleaved coordinates |
| ZScan.InitRasterToPelXY | dependencies/PccLibHevcParser/source/TComRom.cpp:133-160 | horizontal positions are the column times the block width, vertical ones the row times the block width |
| ZScan.VerticalPositions | dependencies/PccLibHevcParser/source/TComRom.cpp:157-160 | vertical positions are right if and only if the smallest blocks are square or there is only one row of them |
| ScanOrders.DiagScanIsScan | dependencies/PccLibHevcParser/source/TComRom.cpp:354-370 | the diagonal scan lists every cell of the square exactly once, diagonal by diagonal, upwards to the right |
| ScanOrders.DiagScanUnique | dependencies/PccLibHevcParser/source/TComRom.cpp:354-370 | it is the only scan in this order |
| ScanOrders.LinesStop | dependencies/PccLibHevcParser/source/TComRom.cpp:354-370 | the loop has filled the table after 2w - 1 diagonals, and not earlier |
| ScanTables.FillDiagonals | dependencies/PccLibHevcParser/source/TComRom.cpp:354-370 | the loops write exactly the diagonal scan and terminate for every width |
| ScanOrders.BlockwiseIsScan | dependencies/PccLibHevcParser/source/TComRom.cpp:372-408 | going block by block is a permutation whenever the order of the blocks and the order in a block are |
| ScanTables.FillDiagonalBlocks | dependencies/PccLibHevcParser/source/TComRom.cpp:372-408 | the 4x4-block form writes the diagonal scan of each block in the order of the block table |
| ScanTables.FillHorizontal | dependencies/PccLibHevcParser/source/TComRom.cpp:411-456 | the horizontal table: rows of blocks, rows in blocks |
| ScanTables.FillVertical | dependencies/PccLibHevcParser/source/TComRom.cpp:430-466 | the vertical table: columns of blocks, columns in blocks |
| ScanTables.TablesAreScans | dependencies/PccLibHevcParser/source/TComRom.cpp:411-466 | both are permutations of the block |
| ScanTables.SmallEntry | dependencies/PccLibHevcParser/source/TComRom.cpp:411-466 | in a block of width 1 or 2 the horizontal table goes row by row, the vertical one column by column |
| ScanTables.HorizontalEntry | dependencies/PccLibHevcParser/source/TComRom.cpp:411-456 | in larger blocks the horizontal table goes by rows of 4x4 blocks, and row by row in each |
| ScanTables.VerticalEntry | dependencies/PccLibHevcParser/source/TComRom.cpp:430-466 | and the vertical one by columns of 4x4 blocks, and column by column in each |
| ScanTables.InitSigLastScan | dependencies/PccLibHevcParser/source/TComRom.cpp:342-468 | all three tables of one width; width 8 also fills the table of 8x8 groups, and no other width changes it |
| ScanTables.DiagonalTableIsScan | dependencies/PccLibHevcParser/source/TComRom.cpp:376-408 | the diagonal table of every width is a permutation, by induction over the widths |
| ScanTables.DiagonalEntry | dependencies/PccLibHevcParser/source/TComRom.cpp:372-408 | a diagonal table of 4x4 blocks has cell c of block b at place 16 b + c, in the order of the blocks |
| ScanTables.Rom.FillConvertToBit | dependencies/PccLibHevcParser/source/TComRom.cpp:54-61 | the table holds the logarithms minus 2 of the powers of two, and -1 for width 2 |
| ScanTables.Rom.InitTables | dependencies/PccLibHevcParser/source/TComRom.cpp:63-74 | for any number of widths all tables are filled with the orders above |
| ScalingLists.DecodeScalingList | dependencies/PccLibHevcParser/source/TDecCAVLC.cpp:4565-4588 | every place of the list receives its coefficient, in scan order, the DC value is kept for the larger sizes, and exactly the codewords are consumed |
| ScalingLists.NextCoefExactly | dependencies/PccLibHevcParser/source/TDecCAVLC.cpp:4585 | one step is the formula of the standard, and stays in range, if and only if the sum is not negative or its remainder vanishes |
| ScalingLists.CoefsInRange | dependencies/PccLibHevcParser/source/TDecCAVLC.cpp:4582-4587 | with differences in [-128, 127] and a start in [0, 255] all coefficients are in [0, 255] |
| ScalingLists.CoefIsSum | dependencies/PccLibHevcParser/source/TDecCAVLC.cpp:4582-4587 | with differences in range every coefficient is the start plus all differences so far, modulo 256 |
| ScalingLists.FirstCoef | dependencies/PccLibHevcParser/source/TDecCAVLC.cpp:4567-4587 | the list starts from 8, and for the sizes above 1 from 8 more than the number coded in front |
| ScalingLists.FlatList | dependencies/PccLibHevcParser/source/TDecCAVLC.cpp:4567-4587 | a list whose differences are all 0 is 8 throughout |
| ScalingLists.CoefNumIs | dependencies/PccLibHevcParser/source/TDecCAVLC.cpp:4567 | the number of coefficients is Min(64, 1 << (4 + (sizeId << 1))) |
| ScalingLists.DecodeOfEncode | dependencies/PccLibHevcParser/source/TDecCAVLC.cpp:4582-4587 | decoding the smallest differences modulo 256 of any coefficients restores them |
| ScalingLists.EncodeOfDecode | dependencies/PccLibHevcParser/source/TDecCAVLC.cpp:4582-4587 | different differences in range stand for different coefficients |
| ScalingLists.ListRoundTrip | dependencies/PccLibHevcParser/source/TDecCAVLC.cpp:4565-4588 | the bits of a matrix decode to its coefficients and its DC value, and the bits behind them are left |
| ScalingLists.MatrixRestored | dependencies/PccLibHevcParser/source/TDecCAVLC.cpp:4582-4587 | the matrix that decoding leaves is the one that was encoded |
| ScalingLists.ListScanIsTable | dependencies/PccLibHevcParser/source/TDecCAVLC.cpp:4571 | the orders used are those of the tables for width 4 and for the 8x8 groups |
| Jobs.CreateSequences | dependencies/tbb/python/tbb.src.py:245-275 | the arguments are cut, in order and without loss, into nonempty sequences of the chunk size, only the last one shorter |
| Jobs.EndsExactly | dependencies/tbb/python/tbb.src.py:260-272 | the loop over the rounds ends if and only if the chunk size is not negative; with a negative one no number of rounds changes anything |
| Jobs.MapResultMeans | dependencies/tbb/python/tbb.src.py:633-641 | a sequential map is the list of all values in order, or the first exception in order |
| OrderedCollector.StepKeepsInv | dependencies/tbb/python/tbb.src.py:570-641 | every atomic step of every job keeps the invariant of the protocol |
| OrderedCollector.RunIsSafe | dependencies/tbb/python/tbb.src.py:614-641 | in every run of every interleaving no assertion fails, the notified result is written at most once, with the right note, in list mode only when all results are ready |
| OrderedCollector.TargetStays | dependencies/tbb/python/tbb.src.py:382-410 | once written, the notified result never changes |
| OrderedCollector.CompleteRunNotifies | dependencies/tbb/python/tbb.src.py:614-641 | when all jobs are done the notified result is set, once: the concurrent map refines the sequential one |
| OrderedCollector.Progress | dependencies/tbb/python/tbb.src.py:292-318 | as long as a job is not done, a step is possible |
| OrderedCollector.RunIsShort | dependencies/tbb/python/tbb.src.py:292-318 | a run of n jobs has at most 5n steps |
| CollectorObjects.OrderedResultCollector.RegisterResult | dependencies/tbb/python/tbb.src.py:591-599 | objects in the first state of the protocol are so again, for one job more |
| CollectorObjects.OrderedResultCollector.CountDown | dependencies/tbb/python/tbb.src.py:623-630 | a step of the protocol in which a job learns whether no other job has reported before and whether all others have; its assertion holds |
| CollectorObjects.OrderedResultCollector.Gather | dependencies/tbb/python/tbb.src.py:637 | the list of all values, ended by the first result that is not ready or has an exception |
| CollectorObjects.Worker.Advance | dependencies/tbb/python/tbb.src.py:382-410 | the next atomic step of a job on the objects refines the step of the protocol, and its assertions hold |
| UnorderedCollector.JobStepKeepsInv | dependencies/tbb/python/tbb.src.py:549-567 | every atomic step of a job keeps the invariant |
| UnorderedCollector.ReadStepKeepsInv | dependencies/tbb/python/tbb.src.py:521-547 | every step of an iterator keeps it |
| UnorderedCollector.RunIsSafe | dependencies/tbb/python/tbb.src.py:496-567 | in every run the collection holds ready results, each once, no assertion fails, and the notified result is written at most once |
| UnorderedCollector.AppendOnly | dependencies/tbb/python/tbb.src.py:557-564 | the collection only grows at its end |
| UnorderedCollector.ReadersAreSafe | dependencies/tbb/python/tbb.src.py:475-547 | over every run, what an iterator hands out in a pass is the collection up to its index, in the order of completion, if and only if no wait expired after something had been handed out; a pass that ends with StopIteration then is the complete collection; the branch for a violated protocol is unreachable |
| UnorderedCollector.RepeatedResult | dependencies/tbb/python/tbb.src.py:475-547 | a run in which an iterator hands out the same result twice |
| UnorderedCollector.CompleteRunNotifies | dependencies/tbb/python/tbb.src.py:549-567 | when all jobs are done, exactly one of them has notified, and no iterator has to wait |
| CollectorObjects.UnorderedResultCollector.Append | dependencies/tbb/python/tbb.src.py:557-564 | a step of the protocol in which a job learns whether no other job has reported before, and after which the collection still shows the order of completion |
| CollectorObjects.UnorderedResultCollector.GetResult | dependencies/tbb/python/tbb.src.py:530-538 | what the locked part of the lookup finds before it has to wait |
| CollectorObjects.CollectorIterator.Next | dependencies/tbb/python/tbb.src.py:475-490 | the iterator stops, yields or has to wait as the protocol says, and its index follows |
| CollectorObjects.CollectorIterator.Resume | dependencies/tbb/python/tbb.src.py:475-490 | the rest of a call that had to wait: it yields, or times out and starts again, as the protocol says |
| Md5Context.Md5OfPieces | dependencies/libmd5/libmd5.c:49-156 | for any split of a message into updates the digest is the one-shot digest of the whole, as sections 3.1 to 3.5 of RFC 1321 define it |
| Md5Context.Context.Init | dependencies/libmd5/libmd5.c:49-59 | the context of the empty message |
| Md5Context.Context.Update | dependencies/libmd5/libmd5.c:64-106 | the message grows by the data: the chain has all full blocks, the input the bytes behind them, the counter 8 times the length modulo 2^64 |
| Md5Context.Context.Final | dependencies/libmd5/libmd5.c:112-156 | the digest of the message, and a wiped context |
| Md5Context.CarryCounts | dependencies/libmd5/libmd5.c:70-73 | the two words count 8 times the length modulo 2^64, with the carry |
| Md5Context.LongPadding | dependencies/libmd5/libmd5.c:129-136 | padding that needs another block |
| Md5Context.ShortPadding | dependencies/libmd5/libmd5.c:137-140 | padding that fits |
| Md5Meaning.PaddingIsRight | dependencies/libmd5/libmd5.c:118-146 | the bits of a padded message are those of the message, a one bit, zero bits up to 448 modulo 512, and 64 bits for the length |
| Md5Meaning.LengthIsNumber | dependencies/libmd5/libmd5.c:144-146 | the length field is the number of bits modulo 2^64, low-order byte first |
| Md5Meaning.WordIsNumber | dependencies/libmd5/libmd5.c:95-97 | a word of a block is the number of its four bytes, low-order byte first |
| Md5Meaning.InitialNumbers | dependencies/libmd5/libmd5.c:51-54 | the registers start as the bytes 01 23 45 67, 89 ab cd ef, fe dc ba 98 and 76 54 32 10, low-order byte first |
| Md5Meaning.OutputNumbers | dependencies/libmd5/libmd5.c:148-149 | the digest is the four registers, each with its low-order byte first |
| Md5Transform.CoreFunctions | dependencies/libmd5/libmd5.c:161-164 | the optimised core functions are the auxiliary functions of the RFC |
| Md5Transform.StepIsOperation | dependencies/libmd5/libmd5.c:167-168 | one step is one operation of the RFC |
| Md5Transform.Transform | dependencies/libmd5/libmd5.c:175-257 | the 64 written-out steps are the compression function of section 3.4 |
| Md5Transform.Round1 | dependencies/libmd5/libmd5.c:184-199 | the first round is the first 16 operations |
| Md5Transform.Round2 | dependencies/libmd5/libmd5.c:201-216 | the second round is the next 16 operations |
| Md5Transform.Round3 | dependencies/libmd5/libmd5.c:218-233 | the third round is the next 16 operations |
| Md5Transform.Round4 | dependencies/libmd5/libmd5.c:235-250 | the fourth round is the last 16 operations |

## Left out

- Floating-point rounding in nanoflann, and the largest-span heuristic that picks the cut axis: any axis is shown to be
  correct.
- KdTreeIndex.KDTreeIndex.ChooseAxis: does not say which axis is chosen, because the tree is right for every axis.
- KdRanking.SortByDistance: stands for the sort of the standard library; what that does with equal distances is not modelled.
- The nodes of the tree are values; that they live in the pool allocator is not modelled.
- The static k-d tree adaptors for Eigen, and saving and loading an index.
- BitReader.Reader.Read: does not model reads of 0 bits, reads of 32 bits at the start of a word, and refills past the
  end, which are full-width shifts or stale words in the code.
- The removal of emulation prevention bytes in the byte loader: it counts all bytes up to 3, not zero bytes.
- ColourParser.Parser.ReadParam: does not model remainders of 0 bits, which the reader cannot read.
- Changing the thresholds of the chroma partition of the colour table, and the mapping of pictures through it.
- Reference picture sets have as much room as their syntax needs; the fixed arrays of 16 entries are not modelled.
- The list of reference indices that an inter-predicted set also stores: nothing that is modelled reads it.
- Sets of a slice header that refer to an arbitrary earlier set.
- PictureOrderCount.Slice.ReadPoc: leaves out the alignment of POCs across layers.
- The partition of the layers into trees and the additional layer sets derived from it.
- LayerDependencies.Vps.SetNumRefLayers: starts from cleared flags, as the constructor leaves them.
- ZScan.InitZscanToRaster: entries are unbounded numbers; the program's depths keep them far below 32 bits.
- The copy mode of scaling lists, default matrices and the other tables of constants.
- Flat syntax reading: VUI, HRD, profile and level, most of the slice header.
- CollectorObjects.Worker.Advance: callbacks that run behind a notification are not modelled.
- Iterators over an ordered collector: with a time limit the wait may end early, and the code then runs into an assertion.
- UnorderedCollector.RunIsSafe: the state machine has any number of iterators from the start; iterators made later behave like ones that have not moved.
- Real threads, the native task group, and cancelling the pool.
- Md5Context.Context.Update: the data is a sequence; reading it from memory is not modelled.
- Md5Spec.Constant: the 64 constants are data; that they are values of the sine function is not proved.
- Command lines, configuration, the application and its build files.

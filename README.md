# PaddedCell: halo padding of a distributed lattice

This project models the halo-padding subsystem of the Grid lattice library (`Grid/lattice/PaddedCell.h`).
A lattice field is spread over a Cartesian grid of processes. Each process holds a local box of sites,
packed into vector sites of several SIMD lanes. A `PaddedCell` pads each local box by `depth` sites on
both sides of every partitioned dimension, copying the halo from the neighbouring processes. It then
crops a padded field back to the unpadded grid.

The model is split into modules that follow the header's structure:

- **Lexicographic**, **Arith**: mixed-radix index/coordinate conversion, with the first coordinate
  varying fastest, and the divisibility facts the addressing needs.
- **Geometry**: the `GridCartesian` record (local extents, processor grid, SIMD layout). It also holds
  the slice block, stride and nblock of each dimension.
- **Marshal**: `GatherSlice` and `ScatterSlice`.
  - A field on one process is a sequence of vector sites, each a sequence of lanes.
  - The communication buffer is an `array`.
  - The module proves the address arithmetic `osite = b + n*stride + ox*block`, the lane
    recomposition and the buffer index `ss + olane*face_ovol + offset`. It shows they form a
    bijection and that a gather followed by a scatter restores the field.
- **Coordinates**, **Region**: the value at a local coordinate. They also model the two external
  copy routines `localCopyRegion` and `InsertSliceLocal`, each as a specified function.
- **Decomposition**: a distributed field (one local field per rank) and the rank coordinates.
  - `Cshift`, the periodic shift of the default `CshiftImplDefault`: global value `G` of the
    result is the input at `G + s` along the shifted dimension, modulo the global extent.
  - `Padded`, the reference meaning of padding one dimension: padded local position `q` of the rank
    at process coordinate `k` holds the input at global position `k*ld + q - depth`, cyclically.
- **Transport**: `ShiftedRanks` on the periodic ring of ranks along one dimension. `SendToRecvFrom`
  is a direct copy from the posted send buffer of the named rank.
- **Buffers**, **FaceExchange**: `Face_exchange`, plane by plane.
  - It gathers the two faces, exchanges the buffer halves with the two neighbours, copies the
    interior and scatters the received planes.
  - It is proved to compute `Padded` on every rank.
- **Stages**: the chain of padded grids.
  - Stage `k` is the unpadded grid with every partitioned dimension below `k` grown by `2*depth`.
  - The module defines the grid objects the chain refers to and what `Expand`, `Exchange` and
    `Extract` compute. `Extract(Exchange(in)) == in` is proved here.
- **Expansion**: the `Cshift` path of `Expand` (three loops of slice insertions), proved equal to `Padded`.
- **PaddedCells**: the `PaddedCell` class, with its constructor, `AllocateGrids`, `DeleteGrids`,
  `Expand`, `ExpandTest`, `Exchange`, `ExchangeTest` and `Extract`.

The transport is modelled as follows:

- Every rank's send buffer is gathered first. Each rank's receive buffer is then filled from the
  posted buffers of its two neighbours along the dimension.
- `ShiftedRanks(dim, 1)` returns the rank one below along `dim` first and the rank one above
  second. The source stores them in `xmit_to_rank` and `recv_from_rank`, in that order.
- With that order, the low halo of each rank holds the far face of the rank below. The high halo
  holds the near face of the rank above.

The constructor asserts only `local[d] >= depth` on partitioned dimensions. `depth > 0` is asserted
only inside `Face_exchange`, so the constructor model accepts depth 0.

## Model

| member | source | states |
|---|---|---|
| Lexicographic.IndexOfCoor | Grid/lattice/PaddedCell.h:104-106 | decomposing an index then recomposing it gives the index back |
| Lexicographic.CoorOfIndex | Grid/lattice/PaddedCell.h:104-106 | recomposing a coordinate then decomposing it gives the coordinate back |
| Lexicographic.IndexInjective | Grid/lattice/PaddedCell.h:167-169 | distinct coordinates of one box have distinct flat indices |
| Lexicographic.Product | Grid/lattice/PaddedCell.h:75-75 | the running product of rsimd over every dimension (rNsimd) is the volume of the extents |
| Lexicographic.CoorInRange | Grid/lattice/PaddedCell.h:167 | an index below the volume decomposes into a coordinate of the box |
| Lexicographic.IndexInRange | Grid/lattice/PaddedCell.h:169 | a coordinate of the box recomposes into an index below its volume |
| Geometry.MakeGrid | Grid/lattice/PaddedCell.h:229 | a grid built from global extents keeps the processor grid and SIMD layout, and its local extents times processors are the global extents |
| Geometry.SliceFactors | Grid/lattice/PaddedCell.h:95-97 | block, nblock and the reduced extent are positive, and the vector sites number block * rd * nblock |
| Marshal.OSite | Grid/lattice/PaddedCell.h:157-159 | the vector site b + n*stride + ox*block of slice index ss lies inside the local field |
| Marshal.Lane | Grid/lattice/PaddedCell.h:164-169 | the recomposed lane lies below Nsimd |
| Marshal.LaneCoor | Grid/lattice/PaddedCell.h:164-169 | the lane coordinate is a coordinate of the SIMD layout whose dim entry is x / rd |
| Marshal.OSiteInverse | Grid/lattice/PaddedCell.h:157-159 | the slice index and ox can be recovered from the vector site |
| Marshal.OSiteCover | Grid/lattice/PaddedCell.h:157-159 | every vector site, with its slice index and ox recovered, is the site OSite gives on every slice x with x % rd == ox |
| Marshal.LaneInverse | Grid/lattice/PaddedCell.h:164-169 | the reduced lane and x / rd can be recovered from the lane |
| Marshal.LaneCover | Grid/lattice/PaddedCell.h:164-169 | every lane, with its reduced lane and ix recovered, is the lane Lane gives on every slice x with x / rd == ix |
| Marshal.AddressInverse | Grid/lattice/PaddedCell.h:152-175 | the (site, lane) of (x, ss, olane) lies on slice x and maps back to buffer index ss + olane*face_ovol |
| Marshal.AddressCover | Grid/lattice/PaddedCell.h:152-175 | every (site, lane) of the field is the address of one buffer word of one slice |
| Marshal.AddressInjective | Grid/lattice/PaddedCell.h:95-106 | distinct (x, ss, olane) give distinct (osite, lane) pairs |
| Marshal.ScatteredElem | Grid/lattice/PaddedCell.h:86-111 | after scattering a buffer into slice x, word j of slice x is word j of the buffer |
| Marshal.SliceOfScattered | Grid/lattice/PaddedCell.h:86-111 | gathering slice x after scattering data into it gives the data back |
| Marshal.SliceOfScatteredOther | Grid/lattice/PaddedCell.h:86-111 | scattering into slice x leaves every other slice of the dimension unchanged |
| Marshal.ScatterOfGathered | Grid/lattice/PaddedCell.h:50-178 | scattering the gathered slice x back into the field leaves the field unchanged |
| Marshal.SlicesDetermine | Grid/lattice/PaddedCell.h:50-178 | two fields with equal slices along one dimension are equal |
| Marshal.GatherSlice | Grid/lattice/PaddedCell.h:115-178 | the buffer words [offset, offset + words) hold slice x and every other word is unchanged |
| Marshal.GatherRow | Grid/lattice/PaddedCell.h:152-177 | one reduced lane's words of the slice are gathered, the rest of the buffer kept |
| Marshal.ScatterSlice | Grid/lattice/PaddedCell.h:50-113 | the field becomes the field with slice x replaced by the buffer words [offset, offset + words) |
| Marshal.ScatterRow | Grid/lattice/PaddedCell.h:86-112 | one reduced lane's words of the buffer are scattered into slice x |
| Region.LocalCopyRegionLaw | Grid/lattice/PaddedCell.h:248 | a region copy takes sites inside the target box from the rebased source site and keeps all other sites |
| Region.InsertSliceLocalLaw | Grid/lattice/PaddedCell.h:315 | inserting slice x at y takes the sites of slice y from slice x and keeps all other sites |
| Decomposition.RankCoorInverse | Grid/lattice/PaddedCell.h:456 | a rank's process coordinate lies in the processor grid and maps back to the rank |
| Decomposition.GlobalOfInverse | Grid/lattice/PaddedCell.h:33-42 | a rank and local coordinate give a global coordinate that maps back to them |
| Decomposition.CshiftLocal | Grid/lattice/PaddedCell.h:41 | the shifted field at local site c holds the input at row position of c plus s |
| Decomposition.CshiftGlobal | Grid/lattice/PaddedCell.h:33-42 | the shifted field at global site G is the input at G + s along dim, modulo the global extent |
| Decomposition.PaddedGlobal | Grid/lattice/PaddedCell.h:313-339 | the padded field at padded global position p along dim (ld + 2*depth sites per rank) holds the input at global position (p/(ld + 2*depth))*ld + p%(ld + 2*depth) - depth, modulo the global extent |
| Decomposition.SliceOfPadded | Grid/lattice/PaddedCell.h:313-339 | slice p of a rank's padded field is the input slice at row position p - depth |
| Transport.ShiftedRanksCoor | Grid/lattice/PaddedCell.h:456 | the two ranks are the periodic neighbours one below and one above along dim |
| Transport.ShiftedRanksPair | Grid/lattice/PaddedCell.h:456-464 | this rank is the lower neighbour of its upper neighbour and the upper neighbour of its lower neighbour, so the paired transfers match up |
| Transport.SendToRecvFrom | Grid/lattice/PaddedCell.h:460-464 | the receive words hold the posted words of the named rank and nothing else changes |
| FaceExchange.BufferSize | Grid/lattice/PaddedCell.h:423-426 | buffer_size is the product of the local extents except along the dimension |
| FaceExchange.GatherPlane | Grid/lattice/PaddedCell.h:443-446 | with planes 0..plane-1 holding their face slices, gathering slice x at offset plane*words makes planes 0..plane hold theirs |
| FaceExchange.ExchangePlane | Grid/lattice/PaddedCell.h:460-464 | one iteration's pair of transfers fills the next words of both receive halves, from the upper send half of one partner and the lower send half of the other |
| FaceExchange.FaceWords | Grid/lattice/PaddedCell.h:427-428 | that product equals nblock*block*rNsimd, the words of one slice |
| FaceExchange.SendSlice | Grid/lattice/PaddedCell.h:441-447 | the local slice each send plane is gathered from (k below depth, ld - 2*depth + k above) lies inside the local box |
| FaceExchange.GatherFaces | Grid/lattice/PaddedCell.h:441-447 | send planes 0..depth-1 hold slices 0..depth-1 and planes depth..2depth-1 hold slices ld-depth..ld-1 |
| FaceExchange.ExchangeHalves | Grid/lattice/PaddedCell.h:459-465 | the lower receive half is the partner's upper send half and the upper receive half the other partner's lower send half |
| FaceExchange.Communicate | Grid/lattice/PaddedCell.h:453-465 | the receive buffer's lower half holds the upper send half of the rank below and its upper half the lower send half of the rank above |
| FaceExchange.InteriorCopy | Grid/lattice/PaddedCell.h:471-478 | after the interior copy, destination slice depth + x is source slice x and every other slice is kept |
| FaceExchange.ScatterPlane | Grid/lattice/PaddedCell.h:487 | scattering one received plane sets exactly slice y |
| FaceExchange.ScatterRange | Grid/lattice/PaddedCell.h:486-492 | n consecutive received planes set n consecutive slices and keep the rest |
| FaceExchange.ScatterFaces | Grid/lattice/PaddedCell.h:484-492 | receive planes 0..depth-1 land at slices 0..depth-1, planes depth..2depth-1 at nld-depth..nld-1, the interior is kept |
| FaceExchange.LowHalo | Grid/lattice/PaddedCell.h:441-465 | the low halo slice p of the padded field is the far-face slice ld - depth + p of the rank below |
| FaceExchange.HighHalo | Grid/lattice/PaddedCell.h:441-465 | the high halo slice of the padded field is the near-face slice of the rank above |
| FaceExchange.InteriorOwn | Grid/lattice/PaddedCell.h:471-478 | the interior slices of the padded field are the rank's own slices |
| FaceExchange.ReceivedLow | Grid/lattice/PaddedCell.h:441-465 | received plane p < depth is the sender's slice ld - depth + p |
| FaceExchange.ReceivedHigh | Grid/lattice/PaddedCell.h:441-465 | received plane depth + k is the sender's slice k |
| FaceExchange.AssembledFromNeighbours | Grid/lattice/PaddedCell.h:441-492 | every slice the exchange assembles on a rank is the slice the padding law prescribes |
| FaceExchange.RankPadded | Grid/lattice/PaddedCell.h:392-502 | a field whose every slice along dim is the prescribed neighbour slice is the rank's padded field |
| FaceExchange.GatherAll | Grid/lattice/PaddedCell.h:441-447 | every rank's send buffer holds its two faces |
| FaceExchange.ExchangeRank | Grid/lattice/PaddedCell.h:453-492 | one rank's result of communicate, interior copy and scatter is its padded field |
| FaceExchange.FaceExchange | Grid/lattice/PaddedCell.h:392-502 | with 0 < depth <= ld and nld == ld + 2*depth, the face exchange computes the padded field on every rank; its buffers of buffer_size*2*depth words (lines 432-433) hold exactly the 2*depth planes |
| Expansion.InsertAllSlice | Grid/lattice/PaddedCell.h:315 | inserting slice x at y on every rank sets slice y and keeps the others |
| Expansion.InsertedRangeInside | Grid/lattice/PaddedCell.h:314-338 | after inserting n slices from src at dst, slice dst + i is source slice src + i |
| Expansion.InsertedRangeOutside | Grid/lattice/PaddedCell.h:314-338 | slices outside [dst, dst + n) are kept by the insertion loop |
| Expansion.InsertRange | Grid/lattice/PaddedCell.h:314-338 | the insertion loop computes the n-slice insertion |
| Expansion.CshiftHigh | Grid/lattice/PaddedCell.h:321-327 | slice ld - depth + x of the +depth shift is slice x of the rank above |
| Expansion.CshiftLow | Grid/lattice/PaddedCell.h:332-338 | slice x of the -depth shift is slice ld - depth + x of the rank below |
| Expansion.InsertedIsNeighbour | Grid/lattice/PaddedCell.h:313-339 | the slice each of the three loops writes is the neighbour slice the padding law prescribes |
| Expansion.MiddleLayer | Grid/lattice/PaddedCell.h:314-316 | after the first loop, slice depth + x is input slice x |
| Expansion.HighLayerAbove | Grid/lattice/PaddedCell.h:320-327 | after the second loop, slices above depth + ld come from the +depth shift |
| Expansion.HighLayerBelow | Grid/lattice/PaddedCell.h:325-327 | the second loop leaves slices below depth + ld as the first loop left them |
| Expansion.LowLayer | Grid/lattice/PaddedCell.h:331-338 | the third loop sets slices below depth from the -depth shift and keeps the rest |
| Expansion.ShiftExpandedSlice | Grid/lattice/PaddedCell.h:313-339 | every slice of the shift path's result is the prescribed slice |
| Expansion.ShiftExpandedIsPadded | Grid/lattice/PaddedCell.h:301-344 | the shift path computes the padded field, whatever the padded field held before |
| Stages.StageStep | Grid/lattice/PaddedCell.h:220-232 | each chain entry is a valid grid, grown by 2*depth along a partitioned dimension and reused unchanged otherwise |
| Stages.StageGrows | Grid/lattice/PaddedCell.h:222-223 | entry d's local extents are the previous ones with dimension d grown by 2*depth exactly when processors[d] > 1 |
| Stages.GrowStage | Grid/lattice/PaddedCell.h:222-229 | the grid built from plocal*processors after growing plocal is the next chain entry |
| Stages.KeepStage | Grid/lattice/PaddedCell.h:222-231 | on an unpartitioned dimension the next entry is the previous one |
| Stages.ChainPrefix | Grid/lattice/PaddedCell.h:231 | the chain grows by one pushed grid per dimension |
| Stages.ChainRefsShape | Grid/lattice/PaddedCell.h:218-231 | entry d refers to the grid allocated at d when processors[d] > 1, otherwise to the previous entry's grid (the caller's grid for d == 0) |
| Stages.LastRefAllocated | Grid/lattice/PaddedCell.h:218-231 | an allocated grid referred to by the chain was allocated at a partitioned dimension |
| Stages.DeleteEveryEntrySafe | Grid/lattice/PaddedCell.h:204-210 | deleting every entry frees only owned grids, each once, exactly when every dimension is partitioned |
| Stages.DeleteEveryEntryFreesCallerGrid | Grid/lattice/PaddedCell.h:204-210 | with processors [1, 2] the entries deleted include the caller's grid |
| Stages.DeleteEveryEntryFreesTwice | Grid/lattice/PaddedCell.h:204-210 | with processors [2, 1] the same allocated grid is deleted twice |
| Stages.OwnedRefsAre | Grid/lattice/PaddedCell.h:220-230 | the owned grids are exactly those allocated at partitioned dimensions, each listed once |
| Stages.DeleteOwnedSafe | Grid/lattice/PaddedCell.h:204-210 | the owned grids are distinct, exclude the caller's grid, and are exactly the non-caller grids referred to by the chain |
| Stages.ChainEntryOwned | Grid/lattice/PaddedCell.h:204-210 | every chain entry other than the caller's grid is an owned grid |
| Stages.ExpandStepValue | Grid/lattice/PaddedCell.h:274-348 | each expansion step moves every interior value to its position shifted by depth along the padded dimension |
| Stages.ExchangedValue | Grid/lattice/PaddedCell.h:251-261 | after the first k expansions, the value at c sits at c offset by depth on every partitioned dimension below k |
| Stages.GrowStepGlobal | Grid/lattice/PaddedCell.h:301-344 | after expanding a partitioned dimension d, padded global position p along d holds the value at (p/(ld+2*depth))*ld + p%(ld+2*depth) - depth, modulo the global extent |
| Stages.KeepStepGlobal | Grid/lattice/PaddedCell.h:292-299 | expanding a single-process dimension leaves every global value where it was |
| Stages.ExchangedGlobal | Grid/lattice/PaddedCell.h:251-261 | after the first k expansions, every global site of stage k, halo and corners included, holds the input at its source coordinate: each partitioned dimension below k unpadded as above, every other coordinate unchanged |
| Stages.ExchangeFillsHalo | Grid/lattice/PaddedCell.h:251-272 | the full exchange fills every padded site, corners included, with the wrapped source value |
| Stages.CroppedValue | Grid/lattice/PaddedCell.h:234-250 | the crop reads the padded field at c offset by depth on partitioned dimensions and 0 elsewhere |
| Stages.ExtractExchanged | Grid/lattice/PaddedCell.h:234-261 | extracting an exchanged field gives the original field back |
| PaddedCells.GlobalExtents | Grid/lattice/PaddedCell.h:225-227 | every global extent is plocal[k]*processors[k] |
| PaddedCells.CopyIsCrop | Grid/lattice/PaddedCell.h:237-248 | the region copy from origin depth (0 on unpartitioned dimensions) to origin 0 of size local is the crop |
| PaddedCells.ShiftPath | Grid/lattice/PaddedCell.h:313-339 | the three insertion loops around the two shifts compute the shift-path expansion |
| PaddedCells.ExpandStepLocal | Grid/lattice/PaddedCell.h:292-299 | on a single-process dimension the expansion returns its input |
| PaddedCells.ExpandStepShift | Grid/lattice/PaddedCell.h:301-344 | on a partitioned dimension the expansion is the shift path's result |
| PaddedCells.PaddedCell.constructor | Grid/lattice/PaddedCell.h:192-203 | with local[d] >= depth on partitioned dimensions, the cell holds the depth, the grid and the full chain |
| PaddedCells.PaddedCell.AllocateGrids | Grid/lattice/PaddedCell.h:211-233 | grids gains the chain (one entry per dimension) and refs the objects they refer to |
| PaddedCells.PaddedCell.DeleteGridsAsWritten | Grid/lattice/PaddedCell.h:204-210 | every entry's grid is deleted and grids becomes empty |
| PaddedCells.PaddedCell.DeleteGrids | Grid/lattice/PaddedCell.h:204-210 | each owned grid is deleted once and grids becomes empty |
| PaddedCells.PaddedCell.InputGrid | Grid/lattice/PaddedCell.h:284-285 | Expand's input must conform to the unpadded grid for dim 0 and to grids[dim-1] otherwise |
| PaddedCells.PaddedCell.Expand | Grid/lattice/PaddedCell.h:274-348 | pads the field along dim: a copy on a single-process dimension, the padded field otherwise |
| PaddedCells.PaddedCell.ExpandTest | Grid/lattice/PaddedCell.h:350-390 | the face-exchange path computes the same expansion as Expand |
| PaddedCells.PaddedCell.Exchange | Grid/lattice/PaddedCell.h:251-261 | applies Expand for dimensions 0..dims-1 in order; every global site of the fully padded grid, halo and diagonal corners included, holds the input at its source coordinate (HaloFilled) |
| PaddedCells.PaddedCell.ExchangeTest | Grid/lattice/PaddedCell.h:262-272 | applies ExpandTest for dimensions 0..dims-1 in order; every global site of the fully padded grid, halo and diagonal corners included, holds the input at its source coordinate (HaloFilled) |
| PaddedCells.PaddedCell.Extract | Grid/lattice/PaddedCell.h:234-250 | crops a fully padded field back to the unpadded grid |

## Left out

- MPI is not modelled. `ShiftedRanks` is the periodic ring of ranks along one dimension, and
  `SendToRecvFrom` copies directly from the buffer a rank has posted. Message failures, blocking and
  the overlap of transfers with the interior copy are not modelled.
- `CshiftImplGauge` and `Gimpl::CshiftLink` are foreign boundary-condition shifts and are not part of
  this model. Only the periodic `CshiftImplDefault` is modelled, as the `Cshift` function.
- Timing and diagnostic output are not modelled: `usecond`, the `GridLogPerformance` lines, the bandwidth
  figures and the commented-out slice-norm dumps.
- `accelerator_for` and `acceleratorSIMTlane` become sequential loops over `olane` and `ss`; parallel
  dispatch is not modelled.
- The `static` send and receive buffers become fresh arrays per call. Their reuse across calls and
  their reentrancy are not modelled.
- The destructor only calls `DeleteGrids`, which is modelled.
- `depth` is a `nat`, so a negative depth is not modelled.
- `GridCartesian` is not part of this model. Its local extents, reduced extents, slice block, stride and
  nblock are definitions written for it: lexicographic order with the first coordinate fastest, and
  `block` the product of the reduced extents below the dimension.
- `Lexicographic::CoorFromIndex` and `IndexFromCoor` are defined as mixed-radix conversions with the
  same first-fastest order.
- The grid constructor's own checks are not modelled. `Paddable` requires that the SIMD layout divides
  every padded local extent; the constructor takes it as a precondition.
- `insertLane` and `extractLane` become updates and reads of one lane of a vector site. `vobj`
  arithmetic is not modelled.
- The contents of a newly constructed `Lattice` are left unspecified: `NewField` and `NewLattice`
  return arbitrary fields of the right shape. The expansion results are proved for any initial contents.
- The computation of `localCopyRegion` and `InsertSliceLocal` is not modelled. Each is a specified
  function (`LocalCopyRegion`, `InsertSliceLocal`) with a law for every site.
- `delete` becomes an entry appended to the ghost field `freed`. The ghost field `refs` records which grid object
  each chain entry refers to.
- `AllocateGrids` collects its pushes in a local sequence and appends it to `grids` after the loop. The
  final state is the same as pushing from inside the loop.
- `conformable` becomes a precondition of `Expand` and `ExpandTest`: the input is distributed over
  `InputGrid(dim)`. `Extract` has the same kind of precondition, that its input is distributed over
  the last grid of the chain, although the source's `Extract` performs no `conformable` check.
- `ExpandTest` has an extra precondition, `depth > 0` on a partitioned dimension. It stands for
  `Face_exchange`'s `assert(depth>0)`, which `ExpandTest` reaches there.
- The `assert`s of `Face_exchange` and the constructor become preconditions, so their failure is not
  modelled. That covers `depth <= ld`, `depth > 0`, `ld + 2*depth == nld` and `local[d] >= depth`;
  `PaddedAlong` carries the extent equation.
- The buffer-size `assert` inside `GatherSlice` and `ScatterSlice` is commented out in the source.
  It becomes the precondition `offset + words <= buf.Length`.
- Marshal.GatherSlice: states the final buffer contents (the slice, and everything else unchanged)
  rather than that each buffer word is written exactly once. The model's sequential write order is
  one of many the parallel loop allows.
- View access modes are not modelled. `ScatterSlice` writes through a view opened `AcceleratorRead`
  (line 58), and the memory manager's host/device coherence is not modelled either, so every
  scattered lane is taken to land in the field.
- The 32-bit `int` arithmetic of the indices is not modelled. Indices are unbounded, since
  overflow would need enormous lattices.
- `bytes` and `sizeof(sobj)` are not modelled, because transfers are counted in words.

## Findings

| source | as written | input that shows it | evidently intended | confidence | as-written member | corrected member |
|---|---|---|---|---|---|---|
| Grid/lattice/PaddedCell.h:204-210 | `DeleteGrids` deletes `grids[d]` for every `d`, but on a single-process dimension `AllocateGrids` pushes the previous grid again, which may be the caller's unpadded grid | processors [1, 2]: entry 0 is the caller's grid, so it is deleted. Processors [2, 1]: entries 0 and 1 are the same allocated grid, so it is deleted twice | delete only the grids allocated at dimensions with processors[d] > 1, each once | not executed | Stages.DeleteEveryEntryFreesCallerGrid, Stages.DeleteEveryEntryFreesTwice, PaddedCells.PaddedCell.DeleteGridsAsWritten | PaddedCells.PaddedCell.DeleteGrids, Stages.DeleteOwnedSafe |

# JP4 macroblock remapper

A model of the `Jp4Split` class in `elphel-jp4-stereo-tests/code/debayer_test.cpp`. Elphel cameras
store frames in JP4 format. A JP4 frame is cut into 16x16 macroblocks, and each macroblock holds
four 8x8 patches, one per Bayer colour:

    Gr  R
    B   Gb

`Jp4Split` undoes this layout in one of two ways:

- `split` copies every patch into one of four half-size planes: `g1` (Gr), `r`, `g2` (Gb) and `b`.
  The four planes are reallocated only when `g1` is empty or has the wrong row count.
- `toBayerGB` scatters the four patches of each macroblock back into a full-size GR/BG Bayer
  mosaic: Gr on even rows and even columns, R on even rows and odd columns, B on odd rows and
  even columns, Gb on odd rows and odd columns. It reuses the caller's buffer unless that buffer
  is empty, has the wrong row count, or is the input image itself.

Both transforms are separable: the source row of a pixel depends only on its destination row
and its patch, and the same holds for columns. The model has three modules:

- `MacroblockLayout` (`layout.dfy`) gives the one-dimensional index maps and their inverses.
  - `PlaneToSource` and `SourceToPlane` serve `split`.
  - `MosaicToSource` and `SourceToMosaic` serve `toBayerGB`.
  - The module proves that the maps are bijections, that they stay in bounds, that the patch
    loops tile their output exactly once, and that the mosaic is the planes re-interleaved.
- `Debayer` (`jp4split.dfy`) holds the class.
  - Images are `array2<byte>`.
  - `Jp4Split` keeps the four planes as fields.
  - `Split` keeps the source's reallocation test and then calls the module-level method
    `SplitInto`, which holds the two nested macroblock loops. `ToBayerGB` keeps its own
    reallocation test and its two macroblock loops.
  - The 8x8 patch loops are methods of their own (`CopyPatch` and `ScatterPatch`, with
    `CopyRow` and `ScatterRow` for the inner loop), called in the order the source has them.
  - Each loop method is proved against the index maps, so the final state of an output image is
    stated cell by cell in terms of the input.
- `Scenarios` (`scenarios.dfy`) calls both operations on a 16x16 ramp image, where pixel (y, x)
  is `16*y + x`, and proves the concrete pixel values that result.

## Model

| member | source | states |
|---|---|---|
| MacroblockLayout.RowHalf | elphel-jp4-stereo-tests/code/debayer_test.cpp:54-56 | the patch lies in the bottom half of the macroblock exactly when it is B or Gb |
| MacroblockLayout.ColHalf | elphel-jp4-stereo-tests/code/debayer_test.cpp:54-56 | the patch lies in the right half of the macroblock exactly when it is R or Gb |
| MacroblockLayout.PatchAt | elphel-jp4-stereo-tests/code/debayer_test.cpp:106-108 | the patch selected by a (row half, column half) pair has exactly those halves |
| MacroblockLayout.PatchTableBijective | elphel-jp4-stereo-tests/code/debayer_test.cpp:54-56 | the layout table is a bijection between the four patches and the four quadrants of a macroblock |
| MacroblockLayout.ParityClassesPartition | elphel-jp4-stereo-tests/code/debayer_test.cpp:111-135 | a mosaic cell belongs to patch c's parity class exactly when c is the patch its row and column parities select, so the four classes are disjoint and cover every cell |
| MacroblockLayout.NextMacroblock | elphel-jp4-stereo-tests/code/debayer_test.cpp:52-53 | stepping a macroblock origin by 16 inside a dimension made of whole macroblocks keeps the full macroblock inside and advances its plane origin by 8 |
| MacroblockLayout.PlaneToSourceClosedForm | elphel-jp4-stereo-tests/code/debayer_test.cpp:58-80 | plane index i of half h reads source index 16*(i/8) + 8*h + i%8 |
| MacroblockLayout.PlaneToSourceBounds | elphel-jp4-stereo-tests/code/debayer_test.cpp:46-53 | for a source dimension n that is a multiple of 16, a plane index is below n/2 exactly when the source index it reads is below n |
| MacroblockLayout.PlaneToSourceInPatch | elphel-jp4-stereo-tests/code/debayer_test.cpp:60-78 | the write at plane index my/2 + y reads source index my + 8*h + y, as the copy statements do |
| MacroblockLayout.PlaneIndexInPatch | elphel-jp4-stereo-tests/code/debayer_test.cpp:58-80 | any plane index in the 8-wide destination block of macroblock my reads the matching index of that macroblock's patch |
| MacroblockLayout.PlaneToSourceInverse | elphel-jp4-stereo-tests/code/debayer_test.cpp:58-80 | the source index read for (plane index, half) gives back both the plane index and the half, so no two plane cells read the same pixel |
| MacroblockLayout.SourceToPlaneInverse | elphel-jp4-stereo-tests/code/debayer_test.cpp:58-80 | every source index below n is read by exactly one (plane index below n/2, half) pair, so no pixel is dropped by split |
| MacroblockLayout.PlaneTiling | elphel-jp4-stereo-tests/code/debayer_test.cpp:52-80 | every plane index is written by exactly one (macroblock, patch offset) pair of the loops |
| MacroblockLayout.MosaicToSourceClosedForm | elphel-jp4-stereo-tests/code/debayer_test.cpp:111-135 | mosaic index p reads source index 16*(p/16) + 8*(p%2) + (p%16)/2 |
| MacroblockLayout.MosaicBounds | elphel-jp4-stereo-tests/code/debayer_test.cpp:91-95 | for a dimension that is a multiple of 16, a mosaic index is in range exactly when the source index it reads is, and likewise for the scatter |
| MacroblockLayout.MosaicToSourceInPatch | elphel-jp4-stereo-tests/code/debayer_test.cpp:114-133 | the write at mosaic index my + 2*y + h reads source index my + 8*h + y, as the four scatter statements do |
| MacroblockLayout.InterleaveInBlock | elphel-jp4-stereo-tests/code/debayer_test.cpp:114-133 | every scatter write of a macroblock lands inside that macroblock, on the parity of its patch's half |
| MacroblockLayout.MosaicPatchOffset | elphel-jp4-stereo-tests/code/debayer_test.cpp:111-135 | every cell of a macroblock footprint with parity h is written by the patch loop of half h, at offset (p-m)/2, and holds the matching source pixel |
| MacroblockLayout.SourceToMosaicUndoes | elphel-jp4-stereo-tests/code/debayer_test.cpp:111-135 | scattering the source index that a mosaic index reads gives back that mosaic index; with MosaicToSourceUndoes, the reordering done by toBayerGB is a permutation of indices |
| MacroblockLayout.MosaicToSourceUndoes | elphel-jp4-stereo-tests/code/debayer_test.cpp:111-135 | reading at the mosaic index a source index is scattered to gives back that source index |
| MacroblockLayout.MosaicTiling | elphel-jp4-stereo-tests/code/debayer_test.cpp:94-135 | every mosaic index is written by exactly one (macroblock, patch offset, half) triple of the loops |
| MacroblockLayout.MosaicInterleavesPlanes | elphel-jp4-stereo-tests/code/debayer_test.cpp:58-135 | mosaic index 2*i + h reads the same source index as plane index i of half h |
| Debayer.CopyRow | elphel-jp4-stereo-tests/code/debayer_test.cpp:59-61 | one inner copy loop: the 8 destination cells of the row hold the 8 source pixels, in order, and every other plane cell is unchanged |
| Debayer.CopyPatch | elphel-jp4-stereo-tests/code/debayer_test.cpp:58-80 | one 8x8 copy loop: afterwards the plane is filled up to the end of this macroblock's destination block, and cells outside that block are unchanged |
| Debayer.PatchCopied | elphel-jp4-stereo-tests/code/debayer_test.cpp:58-80 | a block holding the window of its patch extends the filled part of the plane by one macroblock |
| Debayer.CopyMacroblock | elphel-jp4-stereo-tests/code/debayer_test.cpp:58-80 | the four patch loops of one macroblock fill the destination block of all four planes (g1 from Gr, r from R, g2 from Gb, b from B), and no cell outside those blocks changes |
| Debayer.SplitInto | elphel-jp4-stereo-tests/code/debayer_test.cpp:52-83 | the macroblock loops leave every cell of each plane equal to the source pixel its index maps read |
| Debayer.SplitMacroblock | elphel-jp4-stereo-tests/code/debayer_test.cpp:58-80 | after split, for every macroblock and every offset (y, x): g1, r, g2 and b hold im at (my+y, mx+x), (my+y, mx+x+8), (my+y+8, mx+x+8) and (my+8+y, mx+x) |
| Debayer.PlanesCoverSource | elphel-jp4-stereo-tests/code/debayer_test.cpp:52-83 | after split, every pixel of im is found in the plane of the patch it lies in, so no pixel is lost |
| Debayer.ScatterRow | elphel-jp4-stereo-tests/code/debayer_test.cpp:113-115 | one inner scatter loop: the 8 cells of the row with the patch's column parity hold the 8 source pixels, and every other mosaic cell is unchanged |
| Debayer.ScatterPatch | elphel-jp4-stereo-tests/code/debayer_test.cpp:111-135 | one 8x8 scatter loop: afterwards the patch's parity class in the macroblock footprint holds the source pixels, and every cell outside that class is unchanged |
| Debayer.PatchScattered | elphel-jp4-stereo-tests/code/debayer_test.cpp:111-135 | once one more patch has been scattered, its parity class joins the finished part of the footprint |
| Debayer.ScatteredCell | elphel-jp4-stereo-tests/code/debayer_test.cpp:111-135 | a footprint cell of the scattered patch's parity holds the source pixel its index maps read |
| Debayer.BlockScattered | elphel-jp4-stereo-tests/code/debayer_test.cpp:94-136 | once all four patches are scattered, the filled part of the mosaic grows by one whole macroblock |
| Debayer.ScatterMacroblock | elphel-jp4-stereo-tests/code/debayer_test.cpp:111-135 | the four scatter loops of one macroblock, in the order Gr, Gb, R, B, fill its whole footprint, and no cell outside the footprint changes |
| Debayer.MosaicMacroblock | elphel-jp4-stereo-tests/code/debayer_test.cpp:111-135 | after toBayerGB, for every macroblock and offset (y, x): the mosaic at (my+2y, mx+2x), (my+2y+1, mx+2x+1), (my+2y, mx+2x+1) and (my+2y+1, mx+2x) holds im at (my+y, mx+x), (my+y+8, mx+x+8), (my+y, mx+x+8) and (my+8+y, mx+x) |
| Debayer.MosaicCoversSource | elphel-jp4-stereo-tests/code/debayer_test.cpp:94-137 | after toBayerGB, every pixel of im is found in the mosaic, at the cell it is scattered to |
| Debayer.MosaicMatchesPlanes | elphel-jp4-stereo-tests/code/debayer_test.cpp:58-135 | the two outputs agree: mosaic cells (2i, 2j), (2i, 2j+1), (2i+1, 2j) and (2i+1, 2j+1) equal g1, r, b and g2 at (i, j) |
| Debayer.Jp4Split.constructor | elphel-jp4-stereo-tests/code/debayer_test.cpp:40-42 | a new remapper holds four distinct empty planes |
| Debayer.Jp4Split.Split | elphel-jp4-stereo-tests/code/debayer_test.cpp:44-84 | the planes are the decomposition of im. They are freshly allocated exactly when g1 was empty or its row count was not half of im's, and then the four buffers they replace are left as they were. Otherwise they are the same buffers, overwritten. im is unchanged |
| Debayer.Jp4Split.ToBayerGB | elphel-jp4-stereo-tests/code/debayer_test.cpp:86-138 | the returned buffer is the mosaic of im and is never im. It is fresh, with bayer untouched, when bayer was empty, had a different row count or was im itself; otherwise it is bayer. im is unchanged |
| Scenarios.SplitRamp | elphel-jp4-stereo-tests/code/debayer_test.cpp:58-80 | splitting the ramp puts 0, 8, 136 and 128 at (0, 0) of g1, r, g2 and b |
| Scenarios.BayerRamp | elphel-jp4-stereo-tests/code/debayer_test.cpp:111-135 | the ramp's mosaic holds 0, 8, 128 and 136 at (0,0), (0,1), (1,0) and (1,1) |
| Scenarios.SplitTwice | elphel-jp4-stereo-tests/code/debayer_test.cpp:45-50 | a second split of an image of the same size reuses the same four plane buffers |
| Scenarios.BayerInPlace | elphel-jp4-stereo-tests/code/debayer_test.cpp:89-92 | passing im as its own output gives a separate buffer and leaves im's pixels as they were |

## Left out

- `main` is not modelled. It covers the usage check on its arguments, image file I/O, the crop to
  a region of interest, the `flip` of the image, window display, `cvtColor` demosaicing and
  `addWeighted` blending. None of this is part of the remapper.
- OpenCV `Mat` internals are not modelled: reference counting, shared headers and views of part
  of another buffer. Images are `array2<byte>`, and two images alias only when they are the
  same array. The source's test `im.data == bayer.data` becomes `bayer == im`.
- Pixels are `byte`, 0..255. The source reads and writes them through `at<char>`, but the pixels
  are only copied, so the signedness of `char` changes nothing.
- `Mat& bayer` is modelled as the parameter `bayer` plus the result `out`. `out` is the buffer
  the caller's reference holds afterwards: either `bayer` itself or a new buffer.
- The element type is not checked (`CV_8UC1` in the source and its TODO). Every image is a
  single-channel byte array.
- Debayer.Jp4Split.Split: requires both dimensions of im to be multiples of 16 (`Aligned`). The
  source's loops would read past the edge of any other image.
- Debayer.Jp4Split.Split: also requires that a non-empty g1 with the right row count has the
  right column count. The source tests only the rows before reusing the planes. This excludes
  two cases. If the planes are narrower, the source writes past their right edge. If they are
  wider, the source stays in bounds: the planes keep their width and their right-hand columns
  keep stale pixels from an earlier image. The model does not capture that stale state.
- Debayer.Jp4Split.ToBayerGB: requires both dimensions of im to be multiples of 16. It also
  requires a reusable bayer (non-empty, the right row count, not im) to have the right column
  count. As for Split, this excludes two cases. A narrower bayer is written past its right edge.
  A wider bayer keeps its width and stale columns, which the model does not capture.
- Debayer.Jp4Split.Valid: holds that the four planes are distinct buffers of one common size. In
  the source the four `Mat` members are always allocated together, so they always share one
  size. This is not a condition the source checks.
- Debayer.Jp4Split.Split: overwrites the planes in the source's order (patch by patch inside each
  macroblock). It states only the final contents, not the order of the individual writes; no
  other thread can observe that order.

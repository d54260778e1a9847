/** The JP4 remapper: class Jp4Split and its two transforms.

    split copies the four 8x8 patches of every 16x16 macroblock into four
    half-resolution planes g1 (Gr), r (R), g2 (Gb) and b (B), which the object
    keeps and reallocates lazily. toBayerGB scatters the same patches back
    into a full-resolution GR/BG Bayer mosaic. Pixels are bytes and are only
    ever copied.
 */
module Debayer {
  import opened MacroblockLayout

  /** A pixel: one unsigned 8-bit sample. */
  newtype byte = v: int | 0 <= v < 256

  /** Image dimensions are whole macroblocks. */
  predicate Aligned(im: array2<byte>)
  {
    im.Length0 % 16 == 0 && im.Length1 % 16 == 0
  }

  /** P is a buffer other than im with the size of a component plane of im,
      and holds patch c of im at every cell (i, j) that lies in a row below
      rowsDone, or in a row below band and a column below colsDone. */
  ghost predicate PlaneFilled(P: array2<byte>, im: array2<byte>, c: Patch, rowsDone: int, band: int, colsDone: int)
    reads P, im
  {
    P != im && Aligned(im) && P.Length0 == im.Length0 / 2 && P.Length1 == im.Length1 / 2 &&
    forall i: nat, j: nat {:trigger P[i, j]} :: i < P.Length0 && j < P.Length1 && (i < rowsDone || (i < band && j < colsDone)) ==>
      (PlaneToSourceBounds(im.Length0, i, RowHalf(c)); PlaneToSourceBounds(im.Length1, j, ColHalf(c));
       P[i, j] == im[PlaneToSource(i, RowHalf(c)), PlaneToSource(j, ColHalf(c))])
  }

  /** Opening a new band of rows keeps everything filled so far. */
  lemma BandOpened(P: array2<byte>, im: array2<byte>, c: Patch, rowsDone: int)
    requires PlaneFilled(P, im, c, rowsDone, 0, 0)
    ensures PlaneFilled(P, im, c, rowsDone, rowsDone + 8, 0)
  {
  }

  /** A band filled across the whole width counts as finished rows. */
  lemma BandClosed(P: array2<byte>, im: array2<byte>, c: Patch, rowsDone: int, band: int, colsDone: int)
    requires rowsDone <= band && colsDone >= P.Length1
    requires PlaneFilled(P, im, c, rowsDone, band, colsDone)
    ensures PlaneFilled(P, im, c, band, 0, 0)
  {
  }

  /** P is the component plane of patch c of im: half the size, every cell filled. */
  ghost predicate IsPlane(P: array2<byte>, im: array2<byte>, c: Patch)
    reads P, im
  {
    PlaneFilled(P, im, c, im.Length0 / 2, 0, 0)
  }

  /** M is a buffer other than im with the size of im, and holds the
      re-interleaved pixel of im at every cell (p, q) that lies in a row below
      rowsDone, or in a row below band and a column below colsDone. */
  ghost predicate MosaicFilled(M: array2<byte>, im: array2<byte>, rowsDone: int, band: int, colsDone: int)
    reads M, im
  {
    M != im && Aligned(im) && M.Length0 == im.Length0 && M.Length1 == im.Length1 &&
    forall p: nat, q: nat {:trigger M[p, q]} :: p < M.Length0 && q < M.Length1 && (p < rowsDone || (p < band && q < colsDone)) ==>
      (MosaicBounds(im.Length0, p); MosaicBounds(im.Length1, q);
       M[p, q] == im[MosaicToSource(p), MosaicToSource(q)])
  }

  /** M is the Bayer mosaic of im: the same size, every cell filled. */
  ghost predicate IsMosaic(M: array2<byte>, im: array2<byte>)
    reads M, im
  {
    MosaicFilled(M, im, im.Length0, 0, 0)
  }

  /** Inside the macroblock at (my, mx), every mosaic cell whose row and
      column parities select a patch in done holds its pixel of im. */
  ghost predicate BlockFilled(M: array2<byte>, im: array2<byte>, my: nat, mx: nat, done: set<Patch>)
    reads M, im
  {
    M != im && Aligned(im) && M.Length0 == im.Length0 && M.Length1 == im.Length1 &&
    forall p: nat, q: nat {:trigger M[p, q]} ::
      (my <= p < my + 16 && mx <= q < mx + 16 && p < M.Length0 && q < M.Length1 && PatchAt(p % 2, q % 2) in done) ==>
      (MosaicBounds(im.Length0, p); MosaicBounds(im.Length1, q);
       M[p, q] == im[MosaicToSource(p), MosaicToSource(q)])
  }

  /** The innermost loop of split: plane row i, from column px, receives the
      eight pixels of source row s from column sx; nothing else changes. */
  method CopyRow(P: array2<byte>, im: array2<byte>, i: nat, s: nat, px: nat, sx: nat)
    requires P != im && i < P.Length0 && px + 8 <= P.Length1 && s < im.Length0 && sx + 8 <= im.Length1
    modifies P
    ensures forall j :: px <= j < px + 8 ==> P[i, j] == im[s, sx + (j - px)]
    ensures forall i', j :: (0 <= i' < P.Length0 && 0 <= j < P.Length1 && !(i' == i && px <= j < px + 8)) ==>
      P[i', j] == old(P[i', j])
  {
    var x := 0;
    while x < 8
      invariant 0 <= x <= 8
      invariant forall j :: px <= j < px + x ==> P[i, j] == im[s, sx + (j - px)]
      invariant forall i', j :: (0 <= i' < P.Length0 && 0 <= j < P.Length1 && !(i' == i && px <= j < px + x)) ==>
        P[i', j] == old(P[i', j])
    {
      P[i, px + x] := im[s, sx + x];
      x := x + 1;
    }
  }

  /** The two inner loops of split for one patch of the macroblock at
      (my, mx): plane cell (my / 2 + y, mx / 2 + x) receives the pixel at
      offset (y, x) of patch c. Run on the plane filled up to this macroblock,
      it leaves the plane filled up to and including it; no cell outside the
      8x8 destination block changes. */
  method CopyPatch(P: array2<byte>, im: array2<byte>, c: Patch, my: nat, mx: nat)
    requires P != im && Aligned(im)
    requires P.Length0 == im.Length0 / 2 && P.Length1 == im.Length1 / 2
    requires my % 16 == 0 && my + 16 <= im.Length0 && mx % 16 == 0 && mx + 16 <= im.Length1
    requires PlaneFilled(P, im, c, my / 2, my / 2 + 8, mx / 2)
    modifies P
    ensures PlaneFilled(P, im, c, my / 2, my / 2 + 8, mx / 2 + 8)
    ensures forall i, j ::
      (0 <= i < P.Length0 && 0 <= j < P.Length1 && !(my / 2 <= i < my / 2 + 8 && mx / 2 <= j < mx / 2 + 8)) ==>
      P[i, j] == old(P[i, j])
  {
    var py, px := my / 2, mx / 2;
    var sy, sx := my + 8 * RowHalf(c), mx + 8 * ColHalf(c);
    var y := 0;
    while y < 8
      invariant 0 <= y <= 8
      invariant forall i, j :: py <= i < py + y && px <= j < px + 8 ==>
        P[i, j] == im[sy + (i - py), sx + (j - px)]
      invariant forall i, j ::
        (0 <= i < P.Length0 && 0 <= j < P.Length1 && !(py <= i < py + y && px <= j < px + 8)) ==>
        P[i, j] == old(P[i, j])
    {
      CopyRow(P, im, py + y, sy + y, px, sx);
      y := y + 1;
    }
    assert old(PlaneFilled(P, im, c, py, py + 8, px));
    forall i: nat, j: nat | i < P.Length0 && j < P.Length1 && (i < py || (i < py + 8 && j < px))
      ensures P[i, j] == old(P[i, j])
    {
    }
    PatchCopied(P, im, c, my, mx);
  }

  /** A destination block that holds patch c of the macroblock at (my, mx),
      in the patch's own coordinates, extends the filled part of the plane by
      that macroblock. */
  lemma PatchCopied(P: array2<byte>, im: array2<byte>, c: Patch, my: nat, mx: nat)
    requires P != im && Aligned(im) && P.Length0 == im.Length0 / 2 && P.Length1 == im.Length1 / 2
    requires my % 16 == 0 && my + 16 <= im.Length0 && mx % 16 == 0 && mx + 16 <= im.Length1
    requires PlaneFilled(P, im, c, my / 2, my / 2 + 8, mx / 2)
    requires forall i, j :: my / 2 <= i < my / 2 + 8 && mx / 2 <= j < mx / 2 + 8 ==>
      P[i, j] == im[my + 8 * RowHalf(c) + (i - my / 2), mx + 8 * ColHalf(c) + (j - mx / 2)]
    ensures PlaneFilled(P, im, c, my / 2, my / 2 + 8, mx / 2 + 8)
  {
    forall i: nat | my / 2 <= i < my / 2 + 8
      ensures PlaneToSource(i, RowHalf(c)) == my + 8 * RowHalf(c) + (i - my / 2)
    {
      PlaneIndexInPatch(my, i, RowHalf(c));
    }
    forall j: nat | mx / 2 <= j < mx / 2 + 8
      ensures PlaneToSource(j, ColHalf(c)) == mx + 8 * ColHalf(c) + (j - mx / 2)
    {
      PlaneIndexInPatch(mx, j, ColHalf(c));
    }
  }

  /** The innermost loop of toBayerGB: the cells of mosaic row p, from column
      mx, with column parity hx receive the eight pixels of source row s from
      column sx; nothing else changes. */
  method ScatterRow(M: array2<byte>, im: array2<byte>, p: nat, mx: nat, hx: nat, s: nat, sx: nat)
    requires M != im && p < M.Length0 && mx % 16 == 0 && mx + 16 <= M.Length1 && hx < 2
    requires s < im.Length0 && sx + 8 <= im.Length1
    modifies M
    ensures forall x' :: 0 <= x' < 8 ==> M[p, Interleave(mx, x', hx)] == im[s, sx + x']
    ensures forall p', q :: (0 <= p' < M.Length0 && 0 <= q < M.Length1 && !(p' == p && mx <= q < mx + 16 && q % 2 == hx)) ==>
      M[p', q] == old(M[p', q])
  {
    var x := 0;
    while x < 8
      invariant 0 <= x <= 8
      invariant forall x' :: 0 <= x' < x ==> M[p, Interleave(mx, x', hx)] == im[s, sx + x']
      invariant forall p', q :: (0 <= p' < M.Length0 && 0 <= q < M.Length1 && !(p' == p && mx <= q < mx + 2 * x && q % 2 == hx)) ==>
        M[p', q] == old(M[p', q])
    {
      InterleaveInBlock(mx, x, hx);
      M[p, Interleave(mx, x, hx)] := im[s, sx + x];
      x := x + 1;
    }
  }

  /** The two inner loops of toBayerGB for one patch of the macroblock at
      (my, mx): mosaic cell (my + 2y + RowHalf(c), mx + 2x + ColHalf(c))
      receives the pixel at offset (y, x) of patch c. It adds c to the
      patches done in this macroblock, keeps the mosaic filled up to the
      macroblock, and changes no cell outside the patch's parity class. */
  method ScatterPatch(M: array2<byte>, im: array2<byte>, c: Patch, my: nat, mx: nat, ghost done: set<Patch>)
    requires M != im
    requires my % 16 == 0 && my + 16 <= im.Length0 && mx % 16 == 0 && mx + 16 <= im.Length1
    requires MosaicFilled(M, im, my, my + 16, mx) && BlockFilled(M, im, my, mx, done)
    modifies M
    ensures MosaicFilled(M, im, my, my + 16, mx) && BlockFilled(M, im, my, mx, done + {c})
    ensures forall p, q ::
      (0 <= p < M.Length0 && 0 <= q < M.Length1 &&
       !(my <= p < my + 16 && p % 2 == RowHalf(c) && mx <= q < mx + 16 && q % 2 == ColHalf(c))) ==>
      M[p, q] == old(M[p, q])
  {
    var hy, hx := RowHalf(c), ColHalf(c);
    var sy, sx := my + 8 * hy, mx + 8 * hx;
    var y := 0;
    while y < 8
      invariant 0 <= y <= 8
      invariant forall y', x' {:trigger M[Interleave(my, y', hy), Interleave(mx, x', hx)]} :: 0 <= y' < y && 0 <= x' < 8 ==>
        M[Interleave(my, y', hy), Interleave(mx, x', hx)] == im[sy + y', sx + x']
      invariant forall p, q ::
        (0 <= p < M.Length0 && 0 <= q < M.Length1 &&
         !(my <= p < my + 2 * y && p % 2 == hy && mx <= q < mx + 16 && q % 2 == hx)) ==>
        M[p, q] == old(M[p, q])
    {
      ScatterRow(M, im, Interleave(my, y, hy), mx, hx, sy + y, sx);
      y := y + 1;
    }
    assert old(MosaicFilled(M, im, my, my + 16, mx)) && old(BlockFilled(M, im, my, mx, done));
    forall p: nat, q: nat | p < M.Length0 && q < M.Length1 && !(my <= p < my + 16 && p % 2 == hy && mx <= q < mx + 16 && q % 2 == hx)
      ensures M[p, q] == old(M[p, q])
    {
    }
    PatchScattered(M, im, c, my, mx, done);
  }

  /** A parity class of the macroblock at (my, mx) that holds patch c, in the
      patch's own coordinates, adds c to the patches done in the macroblock. */
  lemma PatchScattered(M: array2<byte>, im: array2<byte>, c: Patch, my: nat, mx: nat, done: set<Patch>)
    requires M != im && Aligned(im) && M.Length0 == im.Length0 && M.Length1 == im.Length1
    requires my % 16 == 0 && my + 16 <= im.Length0 && mx % 16 == 0 && mx + 16 <= im.Length1
    requires BlockFilled(M, im, my, mx, done - {c})
    requires forall y', x' {:trigger M[Interleave(my, y', RowHalf(c)), Interleave(mx, x', ColHalf(c))]} ::
      0 <= y' < 8 && 0 <= x' < 8 ==>
      M[Interleave(my, y', RowHalf(c)), Interleave(mx, x', ColHalf(c))] ==
      im[my + 8 * RowHalf(c) + y', mx + 8 * ColHalf(c) + x']
    ensures BlockFilled(M, im, my, mx, done + {c})
  {
    forall p: nat, q: nat {:trigger M[p, q]} | my <= p < my + 16 && mx <= q < mx + 16 && PatchAt(p % 2, q % 2) == c
      ensures MosaicToSource(p) < im.Length0 && MosaicToSource(q) < im.Length1
      ensures M[p, q] == im[MosaicToSource(p), MosaicToSource(q)]
    {
      ScatteredCell(M, im, my, mx, RowHalf(c), ColHalf(c), p, q);
    }
  }

  /** One cell of the parity class (hy, hx) of the macroblock at (my, mx): it
      lies at patch offset ((p - my) / 2, (q - mx) / 2) and so holds its
      mosaic pixel. */
  lemma ScatteredCell(M: array2<byte>, im: array2<byte>, my: nat, mx: nat, hy: nat, hx: nat, p: nat, q: nat)
    requires M.Length0 == im.Length0 && M.Length1 == im.Length1 && hy < 2 && hx < 2
    requires my % 16 == 0 && my + 16 <= im.Length0 && mx % 16 == 0 && mx + 16 <= im.Length1
    requires forall y', x' {:trigger M[Interleave(my, y', hy), Interleave(mx, x', hx)]} ::
      0 <= y' < 8 && 0 <= x' < 8 ==>
      M[Interleave(my, y', hy), Interleave(mx, x', hx)] == im[my + 8 * hy + y', mx + 8 * hx + x']
    requires my <= p < my + 16 && mx <= q < mx + 16 && p % 2 == hy && q % 2 == hx
    ensures MosaicToSource(p) < im.Length0 && MosaicToSource(q) < im.Length1
    ensures M[p, q] == im[MosaicToSource(p), MosaicToSource(q)]
  {
    MosaicPatchOffset(my, p, hy);
    MosaicPatchOffset(mx, q, hx);
    var y', x' := (p - my) / 2, (q - mx) / 2;
    assert M[Interleave(my, y', hy), Interleave(mx, x', hx)] == im[my + 8 * hy + y', mx + 8 * hx + x'];
  }

  /** Once all four patches are scattered, the macroblock at (my, mx) is
      filled: the four parity classes cover the footprint. */
  lemma BlockScattered(M: array2<byte>, im: array2<byte>, my: nat, mx: nat)
    requires my % 16 == 0 && my + 16 <= im.Length0 && mx % 16 == 0 && mx + 16 <= im.Length1
    requires MosaicFilled(M, im, my, my + 16, mx) && BlockFilled(M, im, my, mx, {Gr, Gb, R, B})
    ensures MosaicFilled(M, im, my, my + 16, mx + 16)
  {
  }

  /** The body of toBayerGB for the macroblock at (my, mx): its four patches
      are scattered in the order Gr, Gb, R, B, extending the filled part of
      the mosaic by the macroblock's footprint; no cell outside the footprint
      changes. */
  method ScatterMacroblock(M: array2<byte>, im: array2<byte>, my: nat, mx: nat)
    requires M != im
    requires my % 16 == 0 && my + 16 <= im.Length0 && mx % 16 == 0 && mx + 16 <= im.Length1
    requires MosaicFilled(M, im, my, my + 16, mx)
    modifies M
    ensures MosaicFilled(M, im, my, my + 16, mx + 16)
    ensures forall p, q :: (0 <= p < M.Length0 && 0 <= q < M.Length1 && !(my <= p < my + 16 && mx <= q < mx + 16)) ==>
      M[p, q] == old(M[p, q])
  {
    ScatterPatch(M, im, Gr, my, mx, {});
    ScatterPatch(M, im, Gb, my, mx, {Gr});
    ScatterPatch(M, im, R, my, mx, {Gr, Gb});
    ScatterPatch(M, im, B, my, mx, {Gr, Gb, R});
    BlockScattered(M, im, my, mx);
  }

  /** The four plane buffers are distinct from each other and from im, and
      each has the size of a plane of im. */
  ghost predicate SplitTargets(im: array2<byte>, g1: array2<byte>, r: array2<byte>, g2: array2<byte>, b: array2<byte>)
    reads im
  {
    Aligned(im) &&
    g1 != r && g1 != g2 && g1 != b && r != g2 && r != b && g2 != b &&
    im != g1 && im != r && im != g2 && im != b &&
    g1.Length0 == im.Length0 / 2 && r.Length0 == im.Length0 / 2 &&
    g2.Length0 == im.Length0 / 2 && b.Length0 == im.Length0 / 2 &&
    g1.Length1 == im.Length1 / 2 && r.Length1 == im.Length1 / 2 &&
    g2.Length1 == im.Length1 / 2 && b.Length1 == im.Length1 / 2
  }

  /** Each plane holds its patch of im up to the given progress frontier. */
  ghost predicate SplitUpTo(im: array2<byte>, g1: array2<byte>, r: array2<byte>, g2: array2<byte>, b: array2<byte>,
                            rowsDone: int, band: int, colsDone: int)
    reads im, g1, r, g2, b
  {
    PlaneFilled(g1, im, Gr, rowsDone, band, colsDone) && PlaneFilled(r, im, R, rowsDone, band, colsDone) &&
    PlaneFilled(g2, im, Gb, rowsDone, band, colsDone) && PlaneFilled(b, im, B, rowsDone, band, colsDone)
  }

  /** The body of split for the macroblock at (my, mx): its four patches go
      to the four planes, extending each plane by one 8x8 block; no plane
      cell outside that block changes. */
  method CopyMacroblock(im: array2<byte>, g1: array2<byte>, r: array2<byte>, g2: array2<byte>, b: array2<byte>,
                        my: nat, mx: nat)
    requires SplitTargets(im, g1, r, g2, b)
    requires my % 16 == 0 && my < im.Length0 && mx % 16 == 0 && mx < im.Length1
    requires SplitUpTo(im, g1, r, g2, b, my / 2, my / 2 + 8, mx / 2)
    modifies g1, r, g2, b
    ensures SplitUpTo(im, g1, r, g2, b, my / 2, my / 2 + 8, mx / 2 + 8)
    ensures forall i, j :: (0 <= i < g1.Length0 && 0 <= j < g1.Length1 && !(my / 2 <= i < my / 2 + 8 && mx / 2 <= j < mx / 2 + 8)) ==>
      g1[i, j] == old(g1[i, j]) && r[i, j] == old(r[i, j]) && g2[i, j] == old(g2[i, j]) && b[i, j] == old(b[i, j])
  {
    NextMacroblock(im.Length0, my);
    NextMacroblock(im.Length1, mx);
    CopyPatch(g1, im, Gr, my, mx);
    CopyPatch(r, im, R, my, mx);
    CopyPatch(g2, im, Gb, my, mx);
    CopyPatch(b, im, B, my, mx);
  }

  /** The macroblock loops of split: every macroblock of im, row band by row
      band, has its four patches copied into the four planes. */
  method SplitInto(im: array2<byte>, g1: array2<byte>, r: array2<byte>, g2: array2<byte>, b: array2<byte>)
    requires SplitTargets(im, g1, r, g2, b)
    modifies g1, r, g2, b
    ensures IsPlane(g1, im, Gr) && IsPlane(r, im, R) && IsPlane(g2, im, Gb) && IsPlane(b, im, B)
  {
    var my := 0;
    while my < im.Length0
      invariant 0 <= my <= im.Length0 && my % 16 == 0
      invariant SplitUpTo(im, g1, r, g2, b, my / 2, 0, 0)
    {
      BandOpened(g1, im, Gr, my / 2);
      BandOpened(r, im, R, my / 2);
      BandOpened(g2, im, Gb, my / 2);
      BandOpened(b, im, B, my / 2);
      var mx := 0;
      while mx < im.Length1
        invariant 0 <= mx <= im.Length1 && mx % 16 == 0
        invariant SplitUpTo(im, g1, r, g2, b, my / 2, my / 2 + 8, mx / 2)
      {
        CopyMacroblock(im, g1, r, g2, b, my, mx);
        NextMacroblock(im.Length1, mx);
        mx := mx + 16;
      }
      BandClosed(g1, im, Gr, my / 2, my / 2 + 8, mx / 2);
      BandClosed(r, im, R, my / 2, my / 2 + 8, mx / 2);
      BandClosed(g2, im, Gb, my / 2, my / 2 + 8, mx / 2);
      BandClosed(b, im, B, my / 2, my / 2 + 8, mx / 2);
      NextMacroblock(im.Length0, my);
      my := my + 16;
    }
  }

  // ---------------------------------------------------------------------------
  // What the two outputs hold, stated the way the loops write them.
  // ---------------------------------------------------------------------------

  /** After split, the destination block of macroblock (my, mx) holds its
      four patches: Gr in g1, R in r, Gb in g2 and B in b. */
  lemma SplitMacroblock(im: array2<byte>, g1: array2<byte>, r: array2<byte>, g2: array2<byte>, b: array2<byte>,
                        my: nat, mx: nat, y: nat, x: nat)
    requires IsPlane(g1, im, Gr) && IsPlane(r, im, R) && IsPlane(g2, im, Gb) && IsPlane(b, im, B)
    requires my % 16 == 0 && my < im.Length0 && mx % 16 == 0 && mx < im.Length1 && y < 8 && x < 8
    ensures my / 2 + y < g1.Length0 && mx / 2 + x < g1.Length1 && my + 16 <= im.Length0 && mx + 16 <= im.Length1
    ensures g1[my / 2 + y, mx / 2 + x] == im[my + y, mx + x]
    ensures r[my / 2 + y, mx / 2 + x] == im[my + y, mx + x + 8]
    ensures g2[my / 2 + y, mx / 2 + x] == im[my + y + 8, mx + x + 8]
    ensures b[my / 2 + y, mx / 2 + x] == im[my + 8 + y, mx + x]
  {
    NextMacroblock(im.Length0, my);
    NextMacroblock(im.Length1, mx);
    PlaneToSourceInPatch(my, y, 0);
    PlaneToSourceInPatch(my, y, 1);
    PlaneToSourceInPatch(mx, x, 0);
    PlaneToSourceInPatch(mx, x, 1);
  }

  /** After toBayerGB, the footprint of macroblock (my, mx) holds its four
      patches interleaved: Gr on even rows and columns, Gb on odd rows and
      columns, R on even rows and odd columns, B on odd rows and even
      columns. */
  lemma MosaicMacroblock(im: array2<byte>, M: array2<byte>, my: nat, mx: nat, y: nat, x: nat)
    requires IsMosaic(M, im)
    requires my % 16 == 0 && my < im.Length0 && mx % 16 == 0 && mx < im.Length1 && y < 8 && x < 8
    ensures my + 16 <= M.Length0 && mx + 16 <= M.Length1 && my + 16 <= im.Length0 && mx + 16 <= im.Length1
    ensures M[my + 2 * y, mx + 2 * x] == im[my + y, mx + x]
    ensures M[my + 2 * y + 1, mx + 2 * x + 1] == im[my + y + 8, mx + x + 8]
    ensures M[my + 2 * y, mx + 2 * x + 1] == im[my + y, mx + x + 8]
    ensures M[my + 2 * y + 1, mx + 2 * x] == im[my + 8 + y, mx + x]
  {
    NextMacroblock(im.Length0, my);
    NextMacroblock(im.Length1, mx);
    MosaicToSourceInPatch(my, y, 0);
    MosaicToSourceInPatch(my, y, 1);
    MosaicToSourceInPatch(mx, x, 0);
    MosaicToSourceInPatch(mx, x, 1);
  }

  /** The two outputs agree: the mosaic of im is its four planes
      re-interleaved, each plane on one row and column parity. */
  lemma MosaicMatchesPlanes(im: array2<byte>, M: array2<byte>, g1: array2<byte>, r: array2<byte>, g2: array2<byte>, b: array2<byte>,
                            i: nat, j: nat)
    requires IsMosaic(M, im)
    requires IsPlane(g1, im, Gr) && IsPlane(r, im, R) && IsPlane(g2, im, Gb) && IsPlane(b, im, B)
    requires i < g1.Length0 && j < g1.Length1
    ensures 2 * i + 1 < M.Length0 && 2 * j + 1 < M.Length1
    ensures M[2 * i, 2 * j] == g1[i, j]
    ensures M[2 * i, 2 * j + 1] == r[i, j]
    ensures M[2 * i + 1, 2 * j] == b[i, j]
    ensures M[2 * i + 1, 2 * j + 1] == g2[i, j]
  {
    MosaicInterleavesPlanes(i, 0);
    MosaicInterleavesPlanes(i, 1);
    MosaicInterleavesPlanes(j, 0);
    MosaicInterleavesPlanes(j, 1);
  }

  /** No pixel is lost by toBayerGB: every pixel of im appears in the mosaic,
      at the cell its macroblock position is scattered to. */
  lemma MosaicCoversSource(im: array2<byte>, M: array2<byte>, s: nat, t: nat)
    requires IsMosaic(M, im)
    requires s < im.Length0 && t < im.Length1
    ensures SourceToMosaic(s) < M.Length0 && SourceToMosaic(t) < M.Length1
    ensures M[SourceToMosaic(s), SourceToMosaic(t)] == im[s, t]
  {
    MosaicBounds(im.Length0, s);
    MosaicBounds(im.Length1, t);
    MosaicToSourceUndoes(s);
    MosaicToSourceUndoes(t);
  }

  /** Of the four planes g1, r, g2 and b, the one that holds patch c. */
  function PlaneOf(c: Patch, g1: array2<byte>, r: array2<byte>, g2: array2<byte>, b: array2<byte>): array2<byte>
  {
    match c
    case Gr => g1
    case R => r
    case B => b
    case Gb => g2
  }

  /** No pixel is lost by split: every pixel of im appears in the plane of
      the patch it lies in, at its position within that patch. */
  lemma PlanesCoverSource(im: array2<byte>, g1: array2<byte>, r: array2<byte>, g2: array2<byte>, b: array2<byte>,
                          s: nat, t: nat)
    requires IsPlane(g1, im, Gr) && IsPlane(r, im, R) && IsPlane(g2, im, Gb) && IsPlane(b, im, B)
    requires s < im.Length0 && t < im.Length1
    ensures SourceToPlane(s) < g1.Length0 && SourceToPlane(t) < g1.Length1
    ensures PlaneOf(PatchAt(SourceHalf(s), SourceHalf(t)), g1, r, g2, b)[SourceToPlane(s), SourceToPlane(t)] == im[s, t]
  {
    SourceToPlaneInverse(im.Length0, s);
    SourceToPlaneInverse(im.Length1, t);
    var i, j := SourceToPlane(s), SourceToPlane(t);
    var c := PatchAt(SourceHalf(s), SourceHalf(t));
    var P := PlaneOf(c, g1, r, g2, b);
    assert IsPlane(P, im, c);
    assert P[i, j] == im[PlaneToSource(i, RowHalf(c)), PlaneToSource(j, ColHalf(c))];
  }

  /** Splits JP4 frames into component planes and reassembles Bayer mosaics. */
  class Jp4Split {
    var g1: array2<byte>
    var g2: array2<byte>
    var r: array2<byte>
    var b: array2<byte>

    /** The four planes are separate buffers of one common size. */
    ghost predicate Valid()
      reads this
    {
      g1 != g2 && g1 != r && g1 != b && g2 != r && g2 != b && r != b &&
      g2.Length0 == g1.Length0 && r.Length0 == g1.Length0 && b.Length0 == g1.Length0 &&
      g2.Length1 == g1.Length1 && r.Length1 == g1.Length1 && b.Length1 == g1.Length1
    }

    /** The four planes are the decomposition of im. */
    ghost predicate HoldsSplitOf(im: array2<byte>)
      reads this, g1, g2, r, b, im
    {
      IsPlane(g1, im, Gr) && IsPlane(r, im, R) && IsPlane(g2, im, Gb) && IsPlane(b, im, B)
    }

    /** A fresh remapper holds four empty planes. */
    constructor ()
      ensures Valid()
      ensures g1.Length0 == 0 && g1.Length1 == 0
      ensures fresh(g1) && fresh(g2) && fresh(r) && fresh(b)
    {
      g1 := new byte[0, 0];
      g2 := new byte[0, 0];
      r := new byte[0, 0];
      b := new byte[0, 0];
    }

    /** Decomposes im into the four planes. All four are reallocated, with
        half the dimensions of im, exactly when g1 is empty or its row count
        is not half that of im, and the buffers they replace are left as they
        were; otherwise they are overwritten in place. */
    method Split(im: array2<byte>)
      requires Valid() && Aligned(im)
      requires g1.Length0 != 0 && g1.Length0 == im.Length0 / 2 ==> g1.Length1 == im.Length1 / 2
      modifies this, g1, g2, r, b
      ensures Valid() && HoldsSplitOf(im)
      ensures old(g1.Length0 == 0 || g1.Length0 != im.Length0 / 2) ==>
        fresh(g1) && fresh(g2) && fresh(r) && fresh(b)
      ensures old(g1.Length0 == 0 || g1.Length0 != im.Length0 / 2) ==>
        unchanged(old(g1), old(g2), old(r), old(b))
      ensures old(g1.Length0 != 0 && g1.Length0 == im.Length0 / 2) ==>
        g1 == old(g1) && g2 == old(g2) && r == old(r) && b == old(b)
      ensures unchanged(im)
    {
      if g1.Length0 == 0 || g1.Length0 != im.Length0 / 2 {
        r := new byte[im.Length0 / 2, im.Length1 / 2];
        g1 := new byte[im.Length0 / 2, im.Length1 / 2];
        g2 := new byte[im.Length0 / 2, im.Length1 / 2];
        b := new byte[im.Length0 / 2, im.Length1 / 2];
      }
      // A plane with half the rows of im can only be im itself when both are empty.
      assert SplitTargets(im, g1, r, g2, b);

      SplitInto(im, g1, r, g2, b);
    }

    /** Reassembles im into a GR/BG Bayer mosaic. The caller's buffer bayer is
        reused unless it is empty, has a different row count than im, or is im
        itself; the buffer written is returned as out. */
    method ToBayerGB(im: array2<byte>, bayer: array2<byte>) returns (out: array2<byte>)
      requires Aligned(im)
      requires bayer.Length0 != 0 && bayer.Length0 == im.Length0 && bayer != im ==> bayer.Length1 == im.Length1
      modifies bayer
      ensures (bayer.Length0 == 0 || bayer.Length0 != im.Length0 || bayer == im) ==>
        fresh(out) && unchanged(bayer)
      ensures bayer.Length0 != 0 && bayer.Length0 == im.Length0 && bayer != im ==> out == bayer
      ensures out != im && IsMosaic(out, im)
      ensures unchanged(im)
    {
      out := bayer;
      if bayer.Length0 == 0 || bayer.Length0 != im.Length0 || bayer == im {
        out := new byte[im.Length0, im.Length1];
      }

      var my := 0;
      while my < im.Length0
        invariant 0 <= my <= im.Length0 && my % 16 == 0
        invariant MosaicFilled(out, im, my, 0, 0)
        modifies out
      {
        var mx := 0;
        while mx < im.Length1
          invariant 0 <= mx <= im.Length1 && mx % 16 == 0
          invariant MosaicFilled(out, im, my, my + 16, mx)
          modifies out
        {
          NextMacroblock(im.Length0, my);
          NextMacroblock(im.Length1, mx);
          ScatterMacroblock(out, im, my, mx);
          mx := mx + 16;
        }
        my := my + 16;
      }
    }
  }
}

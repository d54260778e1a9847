/** The JP4 macroblock layout.

    A JP4 frame is cut into 16x16 macroblocks. Each macroblock holds four 8x8
    sub-patches, one per Bayer component:

        Gr  R
        B   Gb

    Both transforms of the remapper are separable: the row a pixel is copied
    from depends only on the row it is copied to (and on the patch), and the
    same holds for columns. This module therefore states the layout as
    one-dimensional index maps and proves their properties once; the 2-D
    statements about whole images are built from them in module Debayer.
 */
module MacroblockLayout {

  /** The four sub-patches of a macroblock, named after the colour they hold. */
  datatype Patch = Gr | R | B | Gb

  /** Which half (0 = top, 1 = bottom) of the macroblock holds the patch. This
      is also the row parity of the patch's pixels in the Bayer mosaic. */
  function RowHalf(c: Patch): (h: nat)
    ensures h < 2
    ensures h == 1 <==> c == B || c == Gb
  {
    match c
    case Gr => 0
    case R => 0
    case B => 1
    case Gb => 1
  }

  /** Which half (0 = left, 1 = right) of the macroblock holds the patch. This
      is also the column parity of the patch's pixels in the Bayer mosaic. */
  function ColHalf(c: Patch): (h: nat)
    ensures h < 2
    ensures h == 1 <==> c == R || c == Gb
  {
    match c
    case Gr => 0
    case R => 1
    case B => 0
    case Gb => 1
  }

  /** The patch found in a given half-row and half-column of a macroblock. */
  function PatchAt(rowHalf: nat, colHalf: nat): (c: Patch)
    requires rowHalf < 2 && colHalf < 2
    ensures RowHalf(c) == rowHalf && ColHalf(c) == colHalf
  {
    if rowHalf == 0 then (if colHalf == 0 then Gr else R)
    else (if colHalf == 0 then B else Gb)
  }

  /** The table is a bijection between patches and (row half, column half). */
  lemma PatchTableBijective(c: Patch)
    ensures PatchAt(RowHalf(c), ColHalf(c)) == c
  {
  }

  /** The four parity classes of a macroblock are disjoint and cover it: a
      cell belongs to the class of patch c exactly when c is the patch its
      row and column parities select. */
  lemma ParityClassesPartition(p: nat, q: nat, c: Patch)
    ensures (p % 2 == RowHalf(c) && q % 2 == ColHalf(c)) <==> c == PatchAt(p % 2, q % 2)
  {
    PatchTableBijective(c);
  }

  // ---------------------------------------------------------------------------
  // Division by the constant widths of the layout.
  // ---------------------------------------------------------------------------

  /** Quotient and remainder by 16 are unique. */
  lemma DivMod16(q: nat, r: nat)
    requires r < 16
    ensures (16 * q + r) / 16 == q && (16 * q + r) % 16 == r
  {
  }

  /** Quotient and remainder by 8 are unique. */
  lemma DivMod8(q: nat, r: nat)
    requires r < 8
    ensures (8 * q + r) / 8 == q && (8 * q + r) % 8 == r
  {
  }

  /** Quotient and remainder by 2 are unique. */
  lemma DivMod2(q: nat, r: nat)
    requires r < 2
    ensures (2 * q + r) / 2 == q && (2 * q + r) % 2 == r
  {
  }

  /** Stepping a macroblock origin m by one macroblock stays inside a
      dimension n that m lies below, when both are multiples of 16. */
  lemma NextMacroblock(n: nat, m: nat)
    requires n % 16 == 0 && m % 16 == 0 && m < n
    ensures m + 16 <= n && (m + 16) % 16 == 0 && (m + 16) / 2 == m / 2 + 8
  {
    DivMod16(m / 16, 0);
    DivMod16(n / 16, 0);
    DivMod16(m / 16 + 1, 0);
  }

  /** An offset inside a macroblock does not move an index past a dimension
      made of whole macroblocks. */
  lemma MacroblockBound(n: nat, q: nat, r: nat)
    requires n % 16 == 0 && r < 16
    ensures 16 * q + r < n <==> q < n / 16
  {
    assert n == 16 * (n / 16);
  }

  // ---------------------------------------------------------------------------
  // Component planes: plane index i of the patch in half h reads source index
  // 16 * (i / 8) + 8 * h + i % 8, i.e. macroblock i / 8, offset i % 8 inside the
  // patch, and the patch sits 8 * h into the macroblock.
  // ---------------------------------------------------------------------------

  function PlaneToSource(i: nat, h: nat): nat
    requires h < 2
  {
    if i < 8 then 8 * h + i else 16 + PlaneToSource(i - 8, h)
  }

  /** Plane index i lies in macroblock i / 8 at offset i % 8. */
  lemma {:induction false} PlaneToSourceClosedForm(i: nat, h: nat)
    requires h < 2
    ensures PlaneToSource(i, h) == 16 * (i / 8) + 8 * h + i % 8
  {
    if i >= 8 {
      PlaneToSourceClosedForm(i - 8, h);
      var q, y := (i - 8) / 8, (i - 8) % 8;
      assert i == 8 * (q + 1) + y;
      DivMod8(q + 1, y);
    }
  }

  /** The plane index a source index is copied to. */
  function SourceToPlane(s: nat): nat
  {
    8 * (s / 16) + s % 8
  }

  /** The half of its macroblock a source index lies in. */
  function SourceHalf(s: nat): nat
  {
    (s % 16) / 8
  }

  /** For a source dimension n divisible by 16, plane indices below n / 2 read
      exactly the source indices below n. */
  lemma PlaneToSourceBounds(n: nat, i: nat, h: nat)
    requires n % 16 == 0 && h < 2
    ensures i < n / 2 <==> PlaneToSource(i, h) < n
  {
    PlaneToSourceClosedForm(i, h);
    MacroblockBound(n, i / 8, 8 * h + i % 8);
    assert n == 16 * (n / 16) && n / 2 == 8 * (n / 16);
    assert i == 8 * (i / 8) + i % 8;
  }

  /** The write done at plane index my / 2 + y for macroblock origin my and
      patch offset y reads source index my + 8 * h + y. */
  lemma PlaneToSourceInPatch(my: nat, y: nat, h: nat)
    requires my % 16 == 0 && y < 8 && h < 2
    ensures PlaneToSource(my / 2 + y, h) == my + 8 * h + y
  {
    PlaneToSourceClosedForm(my / 2 + y, h);
    assert my / 2 + y == 8 * (my / 16) + y;
    DivMod8(my / 16, y);
  }

  /** The same, for a plane index i inside the destination block of the
      macroblock at my. */
  lemma PlaneIndexInPatch(my: nat, i: nat, h: nat)
    requires my % 16 == 0 && my / 2 <= i < my / 2 + 8 && h < 2
    ensures PlaneToSource(i, h) == my + 8 * h + (i - my / 2)
  {
    PlaneToSourceInPatch(my, i - my / 2, h);
    assert my / 2 + (i - my / 2) == i;
  }

  /** Distinct (plane index, half) pairs read distinct source indices, and
      the reading can be undone. */
  lemma PlaneToSourceInverse(i: nat, h: nat)
    requires h < 2
    ensures SourceToPlane(PlaneToSource(i, h)) == i
    ensures SourceHalf(PlaneToSource(i, h)) == h
  {
    PlaneToSourceClosedForm(i, h);
    var q, y := i / 8, i % 8;
    var s := PlaneToSource(i, h);
    assert s == 16 * q + (8 * h + y);
    DivMod16(q, 8 * h + y);
    assert s == 8 * (2 * q + h) + y;
    DivMod8(2 * q + h, y);
    DivMod8(h, y);
  }

  /** Every source index is read by exactly one (plane index, half) pair. */
  lemma SourceToPlaneInverse(n: nat, s: nat)
    requires n % 16 == 0 && s < n
    ensures SourceHalf(s) < 2
    ensures SourceToPlane(s) < n / 2
    ensures PlaneToSource(SourceToPlane(s), SourceHalf(s)) == s
  {
    var q, h, y := s / 16, (s % 16) / 8, (s % 16) % 8;
    assert s == 16 * q + 8 * h + y;
    assert s == 8 * (2 * q + h) + y;
    DivMod8(2 * q + h, y);
    var i := SourceToPlane(s);
    PlaneToSourceClosedForm(i, h);
    assert i == 8 * q + y;
    DivMod8(q, y);
    assert n == 16 * (n / 16) && n / 2 == 8 * (n / 16);
    assert q < n / 16;
  }

  /** The 8-wide destination blocks of the macroblocks tile the plane: every
      plane index i < n / 2 is written by the macroblock at 16 * (i / 8), at
      offset i % 8, and by no other (macroblock, offset) pair. */
  lemma PlaneTiling(n: nat, i: nat, my: nat, y: nat)
    requires n % 16 == 0 && i < n / 2
    requires my % 16 == 0 && y < 8
    ensures 16 * (i / 8) < n && (16 * (i / 8)) / 2 + i % 8 == i
    ensures my / 2 + y == i <==> my == 16 * (i / 8) && y == i % 8
  {
  }

  // ---------------------------------------------------------------------------
  // Bayer mosaic: mosaic index p lies in macroblock p / 16; its parity p % 2
  // selects the half (the patch), and (p % 16) / 2 is the offset in the patch.
  // ---------------------------------------------------------------------------

  function MosaicToSource(p: nat): nat
  {
    if p < 16 then 8 * (p % 2) + p / 2 else 16 + MosaicToSource(p - 16)
  }

  /** Mosaic index p lies in macroblock p / 16; its parity selects the half
      and (p % 16) / 2 is its offset in the patch. */
  lemma {:induction false} MosaicToSourceClosedForm(p: nat)
    ensures MosaicToSource(p) == 16 * (p / 16) + 8 * (p % 2) + (p % 16) / 2
  {
    if p >= 16 {
      MosaicToSourceClosedForm(p - 16);
      var q, r := (p - 16) / 16, (p - 16) % 16;
      assert p == 16 * (q + 1) + r;
      DivMod16(q + 1, r);
      assert p == 2 * (8 * (q + 1) + r / 2) + r % 2 && p - 16 == 2 * (8 * q + r / 2) + r % 2;
      DivMod2(8 * (q + 1) + r / 2, r % 2);
      DivMod2(8 * q + r / 2, r % 2);
      assert p / 16 == q + 1 && p % 16 == r && p % 2 == r % 2 && (p - 16) % 2 == r % 2;
    }
  }

  /** The mosaic index a source index is scattered to. */
  function SourceToMosaic(s: nat): nat
  {
    16 * (s / 16) + 2 * (s % 8) + (s % 16) / 8
  }

  /** For a dimension n divisible by 16, the mosaic reads inside the source
      exactly when it writes inside the mosaic, and vice versa. */
  lemma MosaicBounds(n: nat, p: nat)
    requires n % 16 == 0
    ensures p < n <==> MosaicToSource(p) < n
    ensures p < n <==> SourceToMosaic(p) < n
  {
    MosaicToSourceClosedForm(p);
    var q := p / 16;
    assert p == 16 * q + p % 16;
    MacroblockBound(n, q, p % 16);
    MacroblockBound(n, q, 8 * (p % 2) + (p % 16) / 2);
    MacroblockBound(n, q, 2 * (p % 8) + (p % 16) / 8);
  }

  /** The write done at mosaic index my + 2 * y + h for macroblock origin my,
      patch offset y and half h reads source index my + 8 * h + y. */
  lemma MosaicToSourceInPatch(my: nat, y: nat, h: nat)
    requires my % 16 == 0 && y < 8 && h < 2
    ensures MosaicToSource(my + 2 * y + h) == my + 8 * h + y
  {
    var p := my + 2 * y + h;
    MosaicToSourceClosedForm(p);
    assert p == 16 * (my / 16) + (2 * y + h);
    DivMod16(my / 16, 2 * y + h);
    assert p == 2 * (8 * (my / 16) + y) + h;
    DivMod2(8 * (my / 16) + y, h);
    DivMod2(y, h);
  }

  /** The mosaic index written for offset k of a patch in half h of the
      macroblock starting at m. */
  function Interleave(m: int, k: int, h: int): int
  {
    m + 2 * k + h
  }

  /** The index written for offset k of half h lies in the macroblock and
      has parity h. */
  lemma InterleaveInBlock(m: nat, k: nat, h: nat)
    requires m % 16 == 0 && k < 8 && h < 2
    ensures m <= Interleave(m, k, h) < m + 16 && Interleave(m, k, h) % 2 == h
  {
    assert Interleave(m, k, h) == 2 * (8 * (m / 16) + k) + h;
    DivMod2(8 * (m / 16) + k, h);
  }

  /** Inside the macroblock starting at m, an index of parity h is written
      for patch offset (p - m) / 2 and reads the matching source index. */
  lemma MosaicPatchOffset(m: nat, p: nat, h: nat)
    requires m % 16 == 0 && m <= p < m + 16 && h < 2 && p % 2 == h
    ensures (p - m) / 2 < 8 && p == Interleave(m, (p - m) / 2, h)
    ensures MosaicToSource(p) == m + 8 * h + (p - m) / 2
  {
    var k := p - m;
    assert p == 2 * (8 * (m / 16) + k / 2) + k % 2;
    DivMod2(8 * (m / 16) + k / 2, k % 2);
    assert p == m + 2 * (k / 2) + h;
    MosaicToSourceInPatch(m, k / 2, h);
  }

  /** Scattering undoes the read of a mosaic index. */
  lemma SourceToMosaicUndoes(p: nat)
    ensures SourceToMosaic(MosaicToSource(p)) == p
  {
    var q, y, h := p / 16, (p % 16) / 2, (p % 16) % 2;
    assert p == 2 * (8 * q + y) + h;
    DivMod2(8 * q + y, h);
    var s := MosaicToSource(p);
    MosaicToSourceClosedForm(p);
    assert s == 16 * q + (8 * h + y);
    DivMod16(q, 8 * h + y);
    assert s == 8 * (2 * q + h) + y;
    DivMod8(2 * q + h, y);
    DivMod8(h, y);
    assert s / 16 == q && s % 8 == y && (s % 16) / 8 == h;
    assert SourceToMosaic(s) == 16 * q + 2 * y + h;
  }

  /** Reading undoes the scatter of a source index. */
  lemma MosaicToSourceUndoes(s: nat)
    ensures MosaicToSource(SourceToMosaic(s)) == s
  {
    var q, h, y := s / 16, (s % 16) / 8, (s % 16) % 8;
    assert s == 8 * (2 * q + h) + y;
    DivMod8(2 * q + h, y);
    var t := SourceToMosaic(s);
    MosaicToSourceClosedForm(t);
    assert t == 16 * q + (2 * y + h);
    DivMod16(q, 2 * y + h);
    assert t == 2 * (8 * q + y) + h;
    DivMod2(8 * q + y, h);
    DivMod2(y, h);
    assert t / 16 == q && t % 2 == h && (t % 16) / 2 == y;
    assert MosaicToSource(t) == 16 * q + 8 * h + y;
  }

  /** Inside a macroblock the four patch loops partition the footprint: index
      p < n is written by macroblock 16 * (p / 16), offset (p % 16) / 2 and
      half p % 2, and by no other triple. */
  lemma MosaicTiling(n: nat, p: nat, my: nat, y: nat, h: nat)
    requires n % 16 == 0 && p < n
    requires my % 16 == 0 && y < 8 && h < 2
    ensures 16 * (p / 16) < n && 16 * (p / 16) + 2 * ((p % 16) / 2) + p % 2 == p
    ensures my + 2 * y + h == p <==> my == 16 * (p / 16) && y == (p % 16) / 2 && h == p % 2
  {
    var q, r := p / 16, p % 16;
    assert p == 2 * (8 * q + r / 2) + r % 2;
    DivMod2(8 * q + r / 2, r % 2);
    if my + 2 * y + h == p {
      DivMod16(my / 16, 2 * y + h);
      DivMod2(y, h);
    }
  }

  /** The mosaic is the four planes re-interleaved: mosaic index 2 * i + h
      reads the same source index as plane index i of half h. */
  lemma MosaicInterleavesPlanes(i: nat, h: nat)
    requires h < 2
    ensures MosaicToSource(2 * i + h) == PlaneToSource(i, h)
  {
    MosaicToSourceClosedForm(2 * i + h);
    PlaneToSourceClosedForm(i, h);
    var q, y := i / 8, i % 8;
    assert 2 * i + h == 16 * q + (2 * y + h);
    DivMod16(q, 2 * y + h);
    assert 2 * i + h == 2 * (8 * q + y) + h;
    DivMod2(8 * q + y, h);
    DivMod2(y, h);
  }
}

/** Both operations called on one 16x16 macroblock whose pixel at
    (y, x) is y * 16 + x, so that every pixel names its own position. */
module Scenarios {
  import opened MacroblockLayout
  import opened Debayer

  /** A fresh 16x16 image whose pixel at (y, x) is y * 16 + x. */
  method Ramp() returns (im: array2<byte>)
    ensures fresh(im) && im.Length0 == 16 && im.Length1 == 16
    ensures forall y, x :: 0 <= y < 16 && 0 <= x < 16 ==> im[y, x] as int == y * 16 + x
  {
    im := new byte[16, 16];
    var y := 0;
    while y < 16
      invariant 0 <= y <= 16
      invariant forall y', x :: 0 <= y' < y && 0 <= x < 16 ==> im[y', x] as int == y' * 16 + x
    {
      var x := 0;
      while x < 16
        invariant 0 <= x <= 16
        invariant forall y', x' :: (0 <= y' < y && 0 <= x' < 16) || (y' == y && 0 <= x' < x) ==>
          im[y', x'] as int == y' * 16 + x'
      {
        im[y, x] := (y * 16 + x) as byte;
        x := x + 1;
      }
      y := y + 1;
    }
  }

  /** split of the ramp: the first pixel of each plane is the top-left pixel
      of its patch. */
  method SplitRamp() returns (g1: byte, r: byte, g2: byte, b: byte)
    ensures g1 == 0 && r == 8 && g2 == 136 && b == 128
  {
    var im := Ramp();
    assert im[0, 0] == 0 && im[0, 8] == 8 && im[8, 8] == 136 && im[8, 0] == 128;
    var jp := new Jp4Split();
    jp.Split(im);
    SplitMacroblock(im, jp.g1, jp.r, jp.g2, jp.b, 0, 0, 0, 0);
    g1, r, g2, b := jp.g1[0, 0], jp.r[0, 0], jp.g2[0, 0], jp.b[0, 0];
  }

  /** toBayerGB of the ramp: the top-left 2x2 cell of the mosaic is the
      top-left pixel of Gr, R, B and Gb in that order. */
  method BayerRamp() returns (p00: byte, p01: byte, p10: byte, p11: byte)
    ensures p00 == 0 && p01 == 8 && p10 == 128 && p11 == 136
  {
    var im := Ramp();
    assert im[0, 0] == 0 && im[0, 8] == 8 && im[8, 8] == 136 && im[8, 0] == 128;
    var jp := new Jp4Split();
    var empty := new byte[0, 0];
    var bayer := jp.ToBayerGB(im, empty);
    MosaicMacroblock(im, bayer, 0, 0, 0, 0);
    p00, p01, p10, p11 := bayer[0, 0], bayer[0, 1], bayer[1, 0], bayer[1, 1];
  }

  /** A second split of an image of the same size overwrites the planes of
      the first in place instead of allocating new ones. */
  method SplitTwice() returns (reused: bool, g1: byte)
    ensures reused && g1 == 0
  {
    var im := Ramp();
    var jp := new Jp4Split();
    jp.Split(im);
    var planes := (jp.g1, jp.r, jp.g2, jp.b);
    var im2 := Ramp();
    assert im2[0, 0] == 0;
    jp.Split(im2);
    SplitMacroblock(im2, jp.g1, jp.r, jp.g2, jp.b, 0, 0, 0, 0);
    reused := planes == (jp.g1, jp.r, jp.g2, jp.b);
    g1 := jp.g1[0, 0];
  }

  /** Passing im as its own output buffer: toBayerGB writes a new buffer and
      leaves im as it was. */
  method BayerInPlace() returns (separate: bool, p01: byte, kept: byte)
    ensures separate && p01 == 8 && kept == 1
  {
    var im := Ramp();
    assert im[0, 1] == 1 && im[0, 8] == 8;
    var jp := new Jp4Split();
    var bayer := jp.ToBayerGB(im, im);
    MosaicMacroblock(im, bayer, 0, 0, 0, 0);
    separate := bayer != im;
    p01, kept := bayer[0, 1], im[0, 1];
  }
}

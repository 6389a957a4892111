/**
 * The colour-palette generator of colorPalette.c: for every colour of a colour map,
 * in order, a band of `heightPerColor` rows of `width` pixels in that colour,
 * written once as a plain (P3) and once as a binary (P6) PPM file.
 *
 * Reading the colour file is not modelled: the colour map arrives as a value, and
 * `None` stands for the NULL map that the writers test for. The reader as written
 * returns NULL only for a negative colour count; it does not detect an unreadable file.
 */
module Palette {

  import opened Ppm
  import P3Reader

  // ---------------------------------------------------------------------------
  // The palette image.

  /** One row of `width` pixels in colour c. */
  function Stripe(c: Rgb, width: nat): (row: seq<Rgb>)
    ensures |row| == width && forall k :: 0 <= k < width ==> row[k] == c
  {
    seq(width, _ => c)
  }

  /** `height` identical rows of colour c. */
  function Band(c: Rgb, width: nat, height: nat): (img: Image)
    ensures |img| == height && forall r :: 0 <= r < height ==> img[r] == Stripe(c, width)
  {
    seq(height, _ => Stripe(c, width))
  }

  /** The palette: the bands of the colour map's colours, top to bottom in map order. */
  function PaletteImage(colormap: seq<Rgb>, width: nat, heightPerColor: nat): Image {
    Concat(seq(|colormap|, i requires 0 <= i < |colormap| => Band(colormap[i], width, heightPerColor)))
  }

  lemma StripeSnoc(c: Rgb, k: nat)
    ensures Stripe(c, k + 1) == Stripe(c, k) + [c]
  {
  }

  lemma BandSnoc(c: Rgb, width: nat, j: nat)
    ensures Band(c, width, j + 1) == Band(c, width, j) + [Stripe(c, width)]
  {
  }

  /** One more colour of the map adds its band below the palette so far. */
  lemma PaletteSnoc(colormap: seq<Rgb>, width: nat, heightPerColor: nat, i: nat)
    requires i < |colormap|
    ensures PaletteImage(colormap[..i + 1], width, heightPerColor)
         == PaletteImage(colormap[..i], width, heightPerColor) + Band(colormap[i], width, heightPerColor)
  {
    var bands := seq(i, j requires 0 <= j < i => Band(colormap[j], width, heightPerColor));
    var prefix := colormap[..i + 1];
    assert seq(|prefix|, j requires 0 <= j < |prefix| => Band(prefix[j], width, heightPerColor))
        == bands + [Band(colormap[i], width, heightPerColor)];
    assert seq(|colormap[..i]|, j requires 0 <= j < |colormap[..i]| => Band(colormap[..i][j], width, heightPerColor))
        == bands;
    ConcatLast(bands, Band(colormap[i], width, heightPerColor));
  }

  /** Row j of the band of colour i is row i * heightPerColor + j of the palette. */
  lemma PaletteRowAt(colormap: seq<Rgb>, width: nat, heightPerColor: nat, i: nat, j: nat)
    requires i < |colormap| && j < heightPerColor
    ensures |PaletteImage(colormap, width, heightPerColor)| == |colormap| * heightPerColor
    ensures i * heightPerColor + j < |colormap| * heightPerColor
    ensures PaletteImage(colormap, width, heightPerColor)[i * heightPerColor + j] == Stripe(colormap[i], width)
  {
    var bands := seq(|colormap|, i requires 0 <= i < |colormap| => Band(colormap[i], width, heightPerColor));
    ConcatUniformLength(bands, heightPerColor);
    ConcatUniformAt(bands, heightPerColor, i, j);
  }

  lemma PositiveFactor(a: nat, b: nat)
    requires a * b > 0
    ensures b > 0
  {
  }

  /** Row r of the palette is entirely in colour r / heightPerColor of the map. */
  lemma PaletteRow(colormap: seq<Rgb>, width: nat, heightPerColor: nat, r: nat)
    requires r < |colormap| * heightPerColor
    ensures r < |PaletteImage(colormap, width, heightPerColor)| && r / heightPerColor < |colormap|
    ensures PaletteImage(colormap, width, heightPerColor)[r] == Stripe(colormap[r / heightPerColor], width)
  {
    PositiveFactor(|colormap|, heightPerColor);
    var q, m := r / heightPerColor, r % heightPerColor;
    assert r == q * heightPerColor + m;
    if q >= |colormap| {
      MulMonotone(|colormap|, q, heightPerColor);
      assert false;
    }
    PaletteRowAt(colormap, width, heightPerColor, q, m);
  }

  /** The palette has heightPerColor rows per colour, each `width` pixels wide. */
  lemma PaletteShape(colormap: seq<Rgb>, width: nat, heightPerColor: nat)
    ensures |PaletteImage(colormap, width, heightPerColor)| == |colormap| * heightPerColor
    ensures IsRectangular(PaletteImage(colormap, width, heightPerColor), width)
  {
    var bands := seq(|colormap|, i requires 0 <= i < |colormap| => Band(colormap[i], width, heightPerColor));
    ConcatUniformLength(bands, heightPerColor);
    var img := PaletteImage(colormap, width, heightPerColor);
    forall r | 0 <= r < |img|
      ensures |img[r]| == width
    {
      PaletteRow(colormap, width, heightPerColor, r);
    }
  }

  // ---------------------------------------------------------------------------
  // The two writers.

  /** The growing P3 text after one more pixel of a row. */
  lemma P3PixelStep(before: string, c: Rgb, k: nat)
    ensures before + PixelsText(Stripe(c, k)) + PixelText(c) == before + PixelsText(Stripe(c, k + 1))
  {
    StripeSnoc(c, k);
    PixelsTextSnoc(Stripe(c, k), c);
  }

  /** The growing P3 text after the newline that ends a row of a band. */
  lemma P3RowStep(head: string, done: Image, c: Rgb, width: nat, j: nat)
    ensures head + P3Text(done + Band(c, width, j)) + PixelsText(Stripe(c, width)) + "\n"
         == head + P3Text(done + Band(c, width, j + 1))
  {
    BandSnoc(c, width, j);
    assert done + Band(c, width, j + 1) == (done + Band(c, width, j)) + [Stripe(c, width)];
    P3TextSnoc(done + Band(c, width, j), Stripe(c, width));
  }

  /**
   * `P3colorpalette`: a width below 1, a height per colour below 1 or a NULL colour
   * map (`None`) make it return 1 and write nothing; otherwise it returns 0 and writes
   * the palette as a P3 file at `outputFile`.
   */
  method P3ColorPalette(colormap: Option<seq<Rgb>>, width: int, heightPerColor: int, outputFile: string)
    returns (status: int, file: Option<File>)
    ensures status == 0 || status == 1
    ensures status == 1 <==> width < 1 || heightPerColor < 1 || colormap.None?
    ensures status == 1 ==> file == None
    ensures status == 0 ==>
      file == Some(File(outputFile, P3FileBytes(PaletteImage(colormap.value, width, heightPerColor), width)))
  {
    if width < 1 || heightPerColor < 1 {
      return 1, None;
    }
    if colormap.None? {
      return 1, None;
    }
    var cm := colormap.value;
    var head := Header("P3", width, |cm| * heightPerColor);
    var text := head;
    var i := 0;
    while i < |cm|
      invariant 0 <= i <= |cm|
      invariant text == head + P3Text(PaletteImage(cm[..i], width, heightPerColor))
    {
      var color := cm[i];
      ghost var done := PaletteImage(cm[..i], width, heightPerColor);
      assert done + Band(color, width, 0) == done;
      var j := 0;
      while j < heightPerColor
        invariant 0 <= j <= heightPerColor
        invariant text == head + P3Text(done + Band(color, width, j))
      {
        ghost var before := text;
        assert Stripe(color, 0) == [];
        assert PixelsText([]) == [];
        var k := 0;
        while k < width
          invariant 0 <= k <= width
          invariant text == before + PixelsText(Stripe(color, k))
        {
          P3PixelStep(before, color, k);
          text := text + PixelText(color);
          k := k + 1;
        }
        P3RowStep(head, done, color, width, j);
        text := text + "\n";
        j := j + 1;
      }
      PaletteSnoc(cm, width, heightPerColor, i);
      i := i + 1;
    }
    assert cm[..|cm|] == cm;
    var img := PaletteImage(cm, width, heightPerColor);
    PaletteShape(cm, width, heightPerColor);
    assert text == P3File(img, width);
    HeaderShape("P3", width, |img|);
    P3TextLines(img);
    AsciiAppend(head, P3Text(img));
    return 0, Some(File(outputFile, Ascii(text)));
  }

  /** The growing P6 bytes after one more pixel of a row. */
  lemma P6PixelStep(before: seq<byte>, c: Rgb, k: nat)
    ensures before + P6Row(Stripe(c, k)) + RgbBytes(c) == before + P6Row(Stripe(c, k + 1))
  {
    StripeSnoc(c, k);
    P6RowSnoc(Stripe(c, k), c);
  }

  /** The growing P6 bytes after the last pixel of a row of a band. */
  lemma P6RowStep(head: seq<byte>, done: Image, c: Rgb, width: nat, j: nat)
    ensures head + P6Pixels(done + Band(c, width, j)) + P6Row(Stripe(c, width))
         == head + P6Pixels(done + Band(c, width, j + 1))
  {
    BandSnoc(c, width, j);
    assert done + Band(c, width, j + 1) == (done + Band(c, width, j)) + [Stripe(c, width)];
    P6PixelsSnoc(done + Band(c, width, j), Stripe(c, width));
  }

  /**
   * `P6colorpalette`: the same checks and the same image as P3ColorPalette, written
   * as a binary P6 file, three bytes per pixel and no line breaks.
   */
  method P6ColorPalette(colormap: Option<seq<Rgb>>, width: int, heightPerColor: int, outputFile: string)
    returns (status: int, file: Option<File>)
    ensures status == 0 || status == 1
    ensures status == 1 <==> width < 1 || heightPerColor < 1 || colormap.None?
    ensures status == 1 ==> file == None
    ensures status == 0 ==>
      file == Some(File(outputFile, P6File(PaletteImage(colormap.value, width, heightPerColor), width)))
  {
    if width < 1 || heightPerColor < 1 {
      return 1, None;
    }
    if colormap.None? {
      return 1, None;
    }
    var cm := colormap.value;
    var head := P6Header(width, |cm| * heightPerColor);
    var bytes := head;
    var i := 0;
    while i < |cm|
      invariant 0 <= i <= |cm|
      invariant bytes == head + P6Pixels(PaletteImage(cm[..i], width, heightPerColor))
    {
      var color := cm[i];
      ghost var done := PaletteImage(cm[..i], width, heightPerColor);
      assert done + Band(color, width, 0) == done;
      var j := 0;
      while j < heightPerColor
        invariant 0 <= j <= heightPerColor
        invariant bytes == head + P6Pixels(done + Band(color, width, j))
      {
        ghost var before := bytes;
        assert Stripe(color, 0) == [];
        assert P6Row([]) == [];
        var k := 0;
        while k < width
          invariant 0 <= k <= width
          invariant bytes == before + P6Row(Stripe(color, k))
        {
          P6PixelStep(before, color, k);
          bytes := bytes + RgbBytes(color);
          k := k + 1;
        }
        P6RowStep(head, done, color, width, j);
        j := j + 1;
      }
      PaletteSnoc(cm, width, heightPerColor, i);
      i := i + 1;
    }
    assert cm[..|cm|] == cm;
    PaletteShape(cm, width, heightPerColor);
    return 0, Some(File(outputFile, bytes));
  }

  // ---------------------------------------------------------------------------
  // What the files hold.

  /**
   * Reading the P3 palette back gives the palette image: |colormap| * heightPerColor
   * rows of `width` pixels, row r in colour r / heightPerColor of the map.
   */
  lemma P3PaletteReadsBack(colormap: seq<Rgb>, width: nat, heightPerColor: nat)
    ensures P3Reader.ReadP3(P3File(PaletteImage(colormap, width, heightPerColor), width))
         == Some(PaletteImage(colormap, width, heightPerColor))
  {
    PaletteShape(colormap, width, heightPerColor);
    P3Reader.P3RoundTrip(PaletteImage(colormap, width, heightPerColor), width);
  }

  /**
   * The binary body of the P6 palette holds 3 * width bytes per row, and in row
   * i * heightPerColor + j, the j-th row of the band of colour i, every pixel carries
   * colour i of the map, in R, G, B order.
   */
  lemma P6PaletteLayout(colormap: seq<Rgb>, width: nat, heightPerColor: nat, i: nat, j: nat, k: nat, c: nat)
    requires i < |colormap| && j < heightPerColor && k < width && c < 3
    ensures |P6Pixels(PaletteImage(colormap, width, heightPerColor))| == 3 * width * (|colormap| * heightPerColor)
    ensures i * heightPerColor + j < |colormap| * heightPerColor
    ensures HoldsByte(P6Pixels(PaletteImage(colormap, width, heightPerColor)), width,
                      i * heightPerColor + j, k, c, Component(colormap[i], c))
  {
    var img := PaletteImage(colormap, width, heightPerColor);
    var r := i * heightPerColor + j;
    PaletteRowAt(colormap, width, heightPerColor, i, j);
    PaletteShape(colormap, width, heightPerColor);
    P6LayoutAt(img, width, r, k, c);
  }

  // ---------------------------------------------------------------------------
  // The program.

  /**
   * `main` of colorPalette.c: exactly four arguments (argc == 5), then the P3 palette
   * at `<folder>/colorpaletteP3.ppm` and, only if that succeeded, the P6 palette at
   * `<folder>/colorpaletteP6.ppm`. The files written are returned in order.
   */
  method PaletteMain(argc: int, colormap: Option<seq<Rgb>>, folder: string, width: int, height: int)
    returns (status: int, files: seq<File>)
    ensures status == 0 || status == 1
    ensures status == 0 <==> argc == 5 && width >= 1 && height >= 1 && colormap.Some?
    ensures status == 1 ==> files == []
    ensures status == 0 ==>
      files == [File(folder + "/colorpaletteP3.ppm", P3FileBytes(PaletteImage(colormap.value, width, height), width)),
                File(folder + "/colorpaletteP6.ppm", P6File(PaletteImage(colormap.value, width, height), width))]
  {
    if argc != 5 {
      return 1, [];
    }
    var failed, p3 := P3ColorPalette(colormap, width, height, folder + "/colorpaletteP3.ppm");
    if failed != 0 {
      return 1, [];
    }
    var p6;
    failed, p6 := P6ColorPalette(colormap, width, height, folder + "/colorpaletteP6.ppm");
    if failed != 0 {
      // Not reached: both writers make the same checks on the same inputs.
      return 1, [];
    }
    return 0, [p3.value, p6.value];
  }
}

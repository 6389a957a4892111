/**
 * The zoom-movie driver of MandelMovie.c: one plane of escape times per frame at a
 * geometrically changing scale, the acceptance of the command-line values, the
 * colouring of escape times and the binary PPM file written for each frame.
 */
module Movie {

  import opened ComplexNumber
  import opened EscapeTime
  import opened Ppm

  // ---------------------------------------------------------------------------
  // Frame scales.

  /** x^k for a natural exponent: `pow` with an integral exponent. */
  function Power(x: real, k: nat): real {
    if k == 0 then 1.0 else Power(x, k - 1) * x
  }

  /**
   * The scale of frame i, `initialscale * pow(root, i)`, where `root` stands for the
   * per-frame ratio `pow(finalscale / initialscale, 1.0 / (framecount - 1))`.
   * Frame 0 is at the initial scale whatever the ratio is.
   */
  function FrameScale(initial: real, root: real, i: nat): (r: real)
    ensures i == 0 ==> r == initial
  {
    initial * Power(root, i)
  }

  /** Consecutive frames are a constant ratio apart: the scales form a geometric sequence. */
  lemma ScaleRatio(initial: real, root: real, i: nat)
    ensures FrameScale(initial, root, i + 1) == FrameScale(initial, root, i) * root
  {
    assert Power(root, i + 1) == Power(root, i) * root;
  }

  /** When the ratio is the (framecount - 1)-th root of final / initial, the last frame is at the final scale. */
  lemma LastFrameIsFinal(initial: real, final: real, root: real, framecount: nat)
    requires framecount >= 1 && initial > 0.0
    requires Power(root, framecount - 1) == final / initial
    ensures FrameScale(initial, root, framecount - 1) == final
  {
  }

  lemma MulPositive(a: real, b: real)
    requires a > 0.0 && b > 0.0
    ensures a * b > 0.0
  {
  }

  /** A positive initial scale and ratio give a positive scale in every frame. */
  lemma {:induction false} PowerPositive(x: real, k: nat)
    requires x > 0.0
    ensures Power(x, k) > 0.0
  {
    if k > 0 {
      PowerPositive(x, k - 1);
      MulPositive(Power(x, k - 1), x);
    }
  }

  /** The documented example: 1024 down to 1 in 11 frames halves the scale each frame. */
  lemma HalvingZoom()
    ensures FrameScale(1024.0, 0.5, 1) == 512.0
    ensures FrameScale(1024.0, 0.5, 5) == 32.0
    ensures FrameScale(1024.0, 0.5, 10) == 1.0
  {
  }

  /**
   * `MandelMovie`: renders frame i, for every i below framecount, into output[i] at
   * scale FrameScale(initial, root, i), with the same threshold, iteration bound,
   * centre and resolution in every frame. The frames are distinct arrays; cells past
   * the plane and frames from framecount on are left as they were.
   */
  method MandelMovie(threshold: real, maxIters: nat, center: Complex, initial: real, root: real,
                     framecount: int, resolution: nat, output: seq<array<nat>>)
    requires resolution >= 1
    requires framecount <= |output|
    requires forall i :: 0 <= i < |output| ==> Side(resolution) * Side(resolution) <= output[i].Length
    requires forall i, j :: 0 <= i < j < |output| ==> output[i] != output[j]
    modifies set i | 0 <= i < |output| :: output[i]
    ensures forall i :: 0 <= i < framecount ==>
      output[i][..Side(resolution) * Side(resolution)] == Plane(threshold, maxIters, center, FrameScale(initial, root, i), resolution)
    ensures forall i :: 0 <= i < |output| ==>
      output[i][Side(resolution) * Side(resolution)..] == old(output[i][Side(resolution) * Side(resolution)..])
    ensures forall i :: framecount <= i < |output| && 0 <= i ==> output[i][..] == old(output[i][..])
  {
    var size := Side(resolution) * Side(resolution);
    var i := 0;
    while i < framecount
      invariant 0 <= i <= |output| && (i == 0 || i <= framecount)
      invariant forall k :: 0 <= k < i ==>
        Rendered(output[k], size, Plane(threshold, maxIters, center, FrameScale(initial, root, k), resolution))
      invariant forall k :: 0 <= k < |output| ==> output[k][size..] == old(output[k][size..])
      invariant forall k :: i <= k < |output| ==> output[k][..] == old(output[k][..])
    {
      var scale := FrameScale(initial, root, i);
      Mandelbrot(threshold, maxIters, center, scale, resolution, output[i]);
      assert Rendered(output[i], size, Plane(threshold, maxIters, center, FrameScale(initial, root, i), resolution));
      i := i + 1;
    }
  }

  /** The first `size` cells of `a` hold the plane `p`. */
  predicate Rendered(a: array<nat>, size: nat, p: seq<nat>)
    reads a
  {
    size <= a.Length && a[..size] == p
  }

  // ---------------------------------------------------------------------------
  // Acceptance of the command-line values.

  /** The tolerance `1e-12` with which two scales count as equal. */
  const Tolerance: real := 0.000000000001

  function Abs(x: real): (r: real)
    ensures r >= 0.0 && (r == x || r == -x)
  {
    if x < 0.0 then -x else x
  }

  /**
   * The rejection test of MandelMovie.c as written: a non-positive threshold, a zero
   * iteration bound, a non-positive scale, a frame count outside 1..10000, or a single
   * frame whose two scales agree. (`resolution < 0` is always false on an unsigned value.)
   */
  predicate RejectedAsWritten(threshold: real, maxIters: nat, initial: real, final: real, framecount: int)
    ensures !RejectedAsWritten(threshold, maxIters, initial, final, framecount) ==>
      threshold > 0.0 && maxIters >= 1 && initial > 0.0 && final > 0.0 && 1 <= framecount <= 10000
  {
    threshold <= 0.0 || maxIters == 0 || initial <= 0.0 || final <= 0.0 || framecount <= 0 || framecount > 10000
    || (framecount == 1 && Abs(initial - final) < Tolerance)
  }

  /** The corrected rejection test: a single frame is refused when its two scales differ. */
  predicate Rejected(threshold: real, maxIters: nat, initial: real, final: real, framecount: int)
    ensures !Rejected(threshold, maxIters, initial, final, framecount) ==>
      threshold > 0.0 && maxIters >= 1 && initial > 0.0 && final > 0.0 && 1 <= framecount <= 10000
    ensures !Rejected(threshold, maxIters, initial, final, framecount) && framecount == 1 ==>
      Abs(initial - final) < Tolerance
  {
    threshold <= 0.0 || maxIters == 0 || initial <= 0.0 || final <= 0.0 || framecount <= 0 || framecount > 10000
    || (framecount == 1 && Abs(initial - final) >= Tolerance)
  }

  /**
   * The test as written refuses the one consistent single-frame movie (both scales 1)
   * and accepts an inconsistent one (scales 1 and 2), whose only frame is rendered at
   * scale 1 rather than at the final scale.
   */
  lemma SingleFrameAsWritten(root: real)
    ensures RejectedAsWritten(2.0, 50, 1.0, 1.0, 1)
    ensures !RejectedAsWritten(2.0, 50, 1.0, 2.0, 1) && FrameScale(1.0, root, 0) != 2.0
  {
  }

  /**
   * Under the corrected test an accepted movie has 1..10000 frames, and a single-frame
   * movie is accepted exactly when its only frame, at the initial scale, is within the
   * tolerance of the final scale.
   */
  lemma AcceptedMovie(threshold: real, maxIters: nat, initial: real, final: real, framecount: int, root: real)
    ensures !Rejected(threshold, maxIters, initial, final, framecount) ==> 1 <= framecount <= 10000
    ensures framecount == 1 && threshold > 0.0 && maxIters > 0 && initial > 0.0 && final > 0.0 ==>
      (!Rejected(threshold, maxIters, initial, final, framecount) <==> Abs(FrameScale(initial, root, 0) - final) < Tolerance)
  {
  }

  /** The corrected test differs from the one as written only for single-frame movies. */
  lemma RejectionDiffersOnlyForOneFrame(threshold: real, maxIters: nat, initial: real, final: real, framecount: int)
    requires framecount != 1
    ensures Rejected(threshold, maxIters, initial, final, framecount)
      == RejectedAsWritten(threshold, maxIters, initial, final, framecount)
  {
  }

  // ---------------------------------------------------------------------------
  // Colouring and files.

  /**
   * The colour of a pixel with escape time `iterations`: black for a point that did
   * not escape (0), otherwise entry (iterations - 1) mod |colormap| of the colour map.
   */
  function ColorFor(iterations: nat, colormap: seq<Rgb>): (c: Rgb)
    requires |colormap| >= 1
    ensures iterations == 0 ==> c == Black
    ensures iterations > 0 ==> c in colormap
  {
    if iterations == 0 then Black else colormap[(iterations - 1) % |colormap|]
  }

  /** Escape times 1..|colormap| take the colours in list order, and the colours repeat with period |colormap|. */
  lemma ColorCycle(iterations: nat, colormap: seq<Rgb>)
    requires |colormap| >= 1
    ensures 1 <= iterations <= |colormap| ==> ColorFor(iterations, colormap) == colormap[iterations - 1]
    ensures iterations >= 1 ==> ColorFor(iterations + |colormap|, colormap) == ColorFor(iterations, colormap)
  {
    var m := |colormap|;
    if iterations >= 1 {
      var q, r := (iterations - 1) / m, (iterations - 1) % m;
      assert iterations - 1 == q * m + r;
      assert (q + 1) * m == q * m + m;
      DivModUnique(iterations + m - 1, m, q + 1, r);
      if iterations <= m {
        DivModUnique(iterations - 1, m, 0, iterations - 1);
      }
    }
  }

  /** The colour of pixel (j, k) of a frame: the colour of cell j * n + k of its plane. */
  function CellColor(plot: seq<nat>, n: nat, colormap: seq<Rgb>, j: nat, k: nat): Rgb
    requires |colormap| >= 1 && n * n <= |plot| && j < n && k < n
  {
    RowMajorBound(j, k, n);
    ColorFor(plot[j * n + k], colormap)
  }

  /** The image of one frame: n rows of n pixels, pixel (j, k) coloured by cell j * n + k. */
  function FrameImage(plot: seq<nat>, n: nat, colormap: seq<Rgb>): (img: Image)
    requires |colormap| >= 1 && n * n <= |plot|
    ensures |img| == n && IsRectangular(img, n)
  {
    seq(n, j requires 0 <= j < n => seq(n, k requires 0 <= k < n => CellColor(plot, n, colormap, j, k)))
  }

  lemma FramePixel(plot: seq<nat>, n: nat, colormap: seq<Rgb>, j: nat, k: nat)
    requires |colormap| >= 1 && n * n <= |plot| && j < n && k < n
    ensures j * n + k < |plot|
    ensures FrameImage(plot, n, colormap)[j][k] == ColorFor(plot[j * n + k], colormap)
  {
    RowMajorBound(j, k, n);
  }

  /** The bytes of one frame's file: the header "P6 n n 255\n", then the frame image in binary. */
  function FrameFile(plot: seq<nat>, n: nat, colormap: seq<Rgb>): seq<byte>
    requires |colormap| >= 1 && n * n <= |plot|
  {
    P6File(FrameImage(plot, n, colormap), n)
  }

  /**
   * A frame file is its header followed by 3 * n * n bytes, and component c of pixel
   * (j, k), that is of the colour of cell j * n + k, lies at offset 3 * (j * n + k) + c
   * after the header.
   */
  lemma FrameFileLayout(plot: seq<nat>, n: nat, colormap: seq<Rgb>, j: nat, k: nat, c: nat)
    requires |colormap| >= 1 && n * n <= |plot|
    requires j < n && k < n && c < 3
    ensures var head := P6Header(n, n);
      var file := FrameFile(plot, n, colormap);
      |head| <= |file| && file[..|head|] == head && |file| - |head| == 3 * n * n &&
      HoldsByte(file[|head|..], n, j, k, c, Component(CellColor(plot, n, colormap, j, k), c))
  {
    var img := FrameImage(plot, n, colormap);
    var head := P6Header(n, n);
    var file := head + P6Pixels(img);
    assert FrameFile(plot, n, colormap) == file;
    assert file[|head|..] == P6Pixels(img);
    P6LayoutAt(img, n, j, k, c);
  }

  /** The path `"%s/frame%05d.ppm"` of frame i inside `folder`. */
  function FrameFileName(folder: string, i: nat): string {
    folder + "/frame" + ZeroPadded(i, 5) + ".ppm"
  }

  lemma {:induction false} DecimalShort(n: nat, k: nat, bound: nat)
    requires bound == Power10(k) && n < bound && k >= 1
    ensures |Decimal(n)| <= k
    decreases k
  {
    if n >= 10 {
      assert k > 1;
      DecimalShort(n / 10, k - 1, Power10(k - 1));
    }
  }

  function Power10(k: nat): (r: nat)
    ensures r >= 1
  {
    if k == 0 then 1 else 10 * Power10(k - 1)
  }

  /**
   * Frame files are named apart: two frame numbers give the same path only when they
   * are equal. For every frame a movie can have (below 10000) the path is exactly as
   * long as `folder + "/frame00000.ppm"`, the buffer `main` prepares for it.
   */
  lemma FrameFileNames(folder: string, i: nat, i': nat)
    ensures FrameFileName(folder, i) == FrameFileName(folder, i') <==> i == i'
    ensures i < 10000 ==> |FrameFileName(folder, i)| == |folder + "/frame00000.ppm"|
  {
    if FrameFileName(folder, i) == FrameFileName(folder, i') {
      var name := FrameFileName(folder, i);
      var lo := |folder| + 6;
      assert |ZeroPadded(i, 5)| == |ZeroPadded(i', 5)|;
      assert name[lo..|name| - 4] == ZeroPadded(i, 5);
      assert FrameFileName(folder, i')[lo..|name| - 4] == ZeroPadded(i', 5);
      ZeroPaddedRoundTrip(i, 5);
      ZeroPaddedRoundTrip(i', 5);
    }
    if i < 10000 {
      DecimalShort(i, 5, Power10(5));
    }
  }

  /**
   * The bytes `main` writes for row j of a frame: for each pixel, left to right, the
   * three bytes of its colour (black for escape time 0).
   */
  method WriteRow(plot: array<nat>, n: nat, colormap: seq<Rgb>, j: nat) returns (bytes: seq<byte>)
    requires |colormap| >= 1 && n * n <= plot.Length && j < n
    ensures bytes == P6Row(FrameImage(plot[..n * n], n, colormap)[j])
  {
    ghost var row := FrameImage(plot[..n * n], n, colormap)[j];
    bytes := [];
    for k := 0 to n
      invariant bytes == P6Row(row[..k])
    {
      FramePixel(plot[..n * n], n, colormap, j, k);
      var iterations := plot[j * n + k];
      var color;
      if iterations == 0 {
        color := Black;
      } else {
        var colorIndex := (iterations - 1) % |colormap|;
        color := colormap[colorIndex];
      }
      P6RowPrefix(row, k);
      bytes := bytes + RgbBytes(color);
    }
    assert row[..n] == row;
  }

  /** The bytes `main` writes for one frame: the header, then the rows top to bottom. */
  method WriteFrame(plot: array<nat>, n: nat, colormap: seq<Rgb>) returns (bytes: seq<byte>)
    requires |colormap| >= 1 && n * n <= plot.Length
    ensures bytes == FrameFile(plot[..n * n], n, colormap)
  {
    bytes := P6Header(n, n);
    ghost var head := bytes;
    ghost var img := FrameImage(plot[..n * n], n, colormap);
    for j := 0 to n
      invariant bytes == head + P6Pixels(img[..j])
    {
      var rowBytes := WriteRow(plot, n, colormap, j);
      P6PixelsPrefix(img, j);
      bytes := bytes + rowBytes;
    }
    assert img[..n] == img;
  }

  /**
   * The file of frame i of a movie: its name in `folder`, and the plane at scale
   * FrameScale(initial, root, i) coloured with the colour map, as a P6 image.
   */
  function MovieFile(threshold: real, maxIters: nat, center: Complex, initial: real, root: real,
                     resolution: nat, folder: string, colormap: seq<Rgb>, i: nat): File
    requires resolution >= 1 && |colormap| >= 1
  {
    File(FrameFileName(folder, i),
         FrameFile(Plane(threshold, maxIters, center, FrameScale(initial, root, i), resolution), Side(resolution), colormap))
  }

  /** The files of frames 0..count-1, in the order `main` writes them. */
  function MovieFiles(threshold: real, maxIters: nat, center: Complex, initial: real, root: real,
                      resolution: nat, folder: string, colormap: seq<Rgb>, count: nat): (files: seq<File>)
    requires resolution >= 1 && |colormap| >= 1
    ensures |files| == count
  {
    seq(count, i requires 0 <= i < count =>
      MovieFile(threshold, maxIters, center, initial, root, resolution, folder, colormap, i))
  }

  lemma MovieFilesSnoc(threshold: real, maxIters: nat, center: Complex, initial: real, root: real,
                       resolution: nat, folder: string, colormap: seq<Rgb>, count: nat)
    requires resolution >= 1 && |colormap| >= 1
    ensures MovieFiles(threshold, maxIters, center, initial, root, resolution, folder, colormap, count + 1)
      == MovieFiles(threshold, maxIters, center, initial, root, resolution, folder, colormap, count)
         + [MovieFile(threshold, maxIters, center, initial, root, resolution, folder, colormap, count)]
  {
  }

  /**
   * The program `MandelMovie` once its arguments are converted, with the acceptance
   * test as written: exit code 1 with no file for a wrong argument count, values the
   * test rejects or a NULL colour map (`None`); otherwise exit code 0 and one file per
   * frame, frame i coloured from the plane at scale FrameScale(initial, root, i).
   */
  method MovieMain(argc: int, threshold: real, maxIters: nat, center: Complex, initial: real, final: real,
                   root: real, framecount: int, resolution: nat, folder: string, colormap: Option<seq<Rgb>>)
    returns (exitCode: int, files: seq<File>)
    requires resolution >= 1
    requires colormap.Some? ==> |colormap.value| >= 1
    ensures exitCode == 0 || exitCode == 1
    ensures exitCode == 0 <==>
      argc == 11 && !RejectedAsWritten(threshold, maxIters, initial, final, framecount) && colormap.Some?
    ensures exitCode == 1 ==> files == []
    ensures exitCode == 0 ==>
      1 <= framecount &&
      files == MovieFiles(threshold, maxIters, center, initial, root, resolution, folder, colormap.value, framecount)
  {
    if argc != 11 {
      return 1, [];
    }
    if RejectedAsWritten(threshold, maxIters, initial, final, framecount) {
      return 1, [];
    }
    exitCode, files := RenderMovie(threshold, maxIters, center, initial, root, framecount, resolution, folder, colormap);
  }

  /**
   * The same program with the corrected acceptance test: a single frame is accepted
   * only when its two scales agree.
   */
  method CorrectedMovieMain(argc: int, threshold: real, maxIters: nat, center: Complex, initial: real, final: real,
                            root: real, framecount: int, resolution: nat, folder: string, colormap: Option<seq<Rgb>>)
    returns (exitCode: int, files: seq<File>)
    requires resolution >= 1
    requires colormap.Some? ==> |colormap.value| >= 1
    ensures exitCode == 0 || exitCode == 1
    ensures exitCode == 0 <==>
      argc == 11 && !Rejected(threshold, maxIters, initial, final, framecount) && colormap.Some?
    ensures exitCode == 1 ==> files == []
    ensures exitCode == 0 ==>
      1 <= framecount &&
      files == MovieFiles(threshold, maxIters, center, initial, root, resolution, folder, colormap.value, framecount)
  {
    if argc != 11 {
      return 1, [];
    }
    if Rejected(threshold, maxIters, initial, final, framecount) {
      return 1, [];
    }
    exitCode, files := RenderMovie(threshold, maxIters, center, initial, root, framecount, resolution, folder, colormap);
  }

  /**
   * The steps of `main` after the acceptance test: allocate one plane per frame, run
   * `MandelMovie`, test the colour map (exit code 1 with no file when the reader
   * returned NULL, `None` here) and write every frame's file in frame order.
   */
  method RenderMovie(threshold: real, maxIters: nat, center: Complex, initial: real, root: real,
                     framecount: nat, resolution: nat, folder: string, colormap: Option<seq<Rgb>>)
    returns (exitCode: int, files: seq<File>)
    requires resolution >= 1
    requires colormap.Some? ==> |colormap.value| >= 1
    ensures exitCode == 0 || exitCode == 1
    ensures exitCode == 0 <==> colormap.Some?
    ensures exitCode == 1 ==> files == []
    ensures exitCode == 0 ==>
      files == MovieFiles(threshold, maxIters, center, initial, root, resolution, folder, colormap.value, framecount)
  {
    var n := Side(resolution);
    var frames: seq<array<nat>> := [];
    for i := 0 to framecount
      invariant |frames| == i
      invariant forall k :: 0 <= k < i ==> fresh(frames[k]) && frames[k].Length == n * n
      invariant forall k, l :: 0 <= k < l < i ==> frames[k] != frames[l]
    {
      var frame := new nat[n * n];
      frames := frames + [frame];
    }
    MandelMovie(threshold, maxIters, center, initial, root, framecount, resolution, frames);
    if colormap.None? {
      return 1, [];
    }
    files := [];
    for i := 0 to framecount
      modifies {}
      invariant files == MovieFiles(threshold, maxIters, center, initial, root, resolution, folder, colormap.value, i)
    {
      var bytes := WriteFrame(frames[i], n, colormap.value);
      assert frames[i][..n * n] == Plane(threshold, maxIters, center, FrameScale(initial, root, i), resolution);
      var file := File(FrameFileName(folder, i), bytes);
      assert file == MovieFile(threshold, maxIters, center, initial, root, resolution, folder, colormap.value, i);
      MovieFilesSnoc(threshold, maxIters, center, initial, root, resolution, folder, colormap.value, i);
      files := files + [file];
    }
    return 0, files;
  }
}

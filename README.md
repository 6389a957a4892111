# Mandelbrot fractal zoomer — a verified model

This project models the core of a small C program family that renders the
Mandelbrot set:

- `Mandelbrot.c` — the escape-time computation. `MandelbrotIterations`
  iterates z := z² + c from z = 0. It returns the first step (1-based) at which
  |z| reaches the threshold, or 0 when that does not happen within the
  iteration bound. `Mandelbrot` fills a row-major square plane of
  (2·resolution+1)² escape times around a centre point, at a given scale.
- `MandelMovie.c` — the zoom movie. `MandelMovie` renders one plane per frame,
  at scales that form a geometric sequence from the initial scale to the
  final scale. `main` checks the arguments and rejects bad values. `Movie.MovieMain` applies that check as written, and `Movie.CorrectedMovieMain` applies the corrected check (see Findings). It colours
  each escape time (black for 0, otherwise colour (t−1) mod |colour map|) and
  writes every frame as a binary P6 PPM file named `frameNNNNN.ppm`.
- `colorPalette.c` — the palette strip. `P3colorpalette` and `P6colorpalette`
  write one horizontal band of `heightpercolor` rows, each `width` pixels
  wide, per colour of the colour map. The first writes text P3, the second
  binary P6. `main` writes the P3 file and then the P6 file.

The model is written in its source's own form. The escape-time search, the
plane, the frame loop, the per-frame writer and the palette writers are
methods with loops. Each is proved against a pure specification function:
`EscapeTime`, `Plane`, `FrameScale`, `FrameFile` and `PaletteImage` with the
PPM encoders. The properties the program promises are lemmas about those
functions. Examples:

- the escape time is the first escape;
- the grid is centred, with even steps;
- the frame scales form a geometric sequence;
- colours cycle through the map;
- frame file names are distinct;
- a P3 file reads back as the image it encodes;
- each P6 byte sits at a known offset.

The writers produce the file contents as values, and the `main` functions
return them, so all file output is modelled as data.

Files:

- `complex_number.dfy` (module `ComplexNumber`): complex numbers as pairs of
  reals. The C header is not part of this model. Its operations are given
  their standard meaning.
- `mandelbrot.dfy` (module `EscapeTime`): `Mandelbrot.c`.
- `ppm.dfy` (module `Ppm`): colours and decimal formatting (`%d`, `%05d`),
  plus the P6 and P3 encodings of an image.
- `p3_reader.dfy` (module `P3Reader`): a whitespace-separated reader of the
  P3 format, used to state what a P3 file means.
- `movie.dfy` (module `Movie`): `MandelMovie.c`.
- `color_palette.dfy` (module `Palette`): `colorPalette.c`.

## Model

| member | source | states |
|---|---|---|
| `EscapeTime.Orbit` | Mandelbrot.c:21-27 | defines z_k of the loop: z_0 = 0 and z_k = z_{k-1}² + point (properties in `OrbitOfZero` and `OrbitOne`) |
| `EscapeTime.EscapeFrom` | Mandelbrot.c:23-34 | searching from step k gives 0 or a step between k and the iteration bound |
| `EscapeTime.EscapeFromIsFirst` | Mandelbrot.c:23-34 | a search from step k that follows steps below the threshold returns the first escaping step, or 0 when no step up to the bound escapes |
| `EscapeTime.EscapeTime` | Mandelbrot.c:23-36 | the escape time never exceeds the iteration bound |
| `EscapeTime.EscapeTimeSpec` | Mandelbrot.c:18-37 | the result is 0 exactly when the orbit stays below the threshold for steps 1..maxiters; a non-zero result is the first step whose magnitude reaches the threshold |
| `EscapeTime.SearchSkipsBelow` | Mandelbrot.c:23-33 | steps already known to be below the threshold can be skipped without changing the result |
| `EscapeTime.FirstEscapeFound` | Mandelbrot.c:29-33 | when step k is the first to reach the threshold, the result is k |
| `EscapeTime.NoEscapeFound` | Mandelbrot.c:35-36 | when no step reaches the threshold, the result is 0 |
| `EscapeTime.EscapeTimeIsFirstEscape` | Mandelbrot.c:18-37 | for k ≥ 1 the result equals k if and only if k is the first escaping step |
| `EscapeTime.OrbitOfZero` | Mandelbrot.c:21-28 | the orbit of the origin stays at the origin |
| `EscapeTime.OriginNeverEscapes` | Mandelbrot.c:23-36 | the origin never escapes threshold 2, so its escape time is 0 |
| `EscapeTime.OrbitOne` | Mandelbrot.c:21-27 | the first iterate of 0 is the point itself |
| `EscapeTime.EscapesAtFirstStep` | Mandelbrot.c:23-33 | a point whose own magnitude reaches the threshold has escape time 1 |
| `EscapeTime.TwoEscapesAtOnce` | Mandelbrot.c:23-33 | the point 2 has escape time 1 at threshold 2 |
| `EscapeTime.MandelbrotIterations` | Mandelbrot.c:18-37 | the loop returns exactly the escape time |
| `EscapeTime.GridPoint` | Mandelbrot.c:46-54 | defines the point sampled for pixel (row, col): (re − scale + col·interval, im + scale − interval·row) with interval = scale/resolution (properties in `GridGeometry`) |
| `EscapeTime.GridGeometry` | Mandelbrot.c:46-54 | pixel (0,0) samples the top-left corner (re−scale, im+scale); the centre pixel samples the centre; the last pixel samples the bottom-right corner; a step right adds scale/resolution to the real part only; a step down subtracts it from the imaginary part only |
| `EscapeTime.Plane` | Mandelbrot.c:48-55 | the plane has (2·resolution+1)² cells, each at most the iteration bound |
| `EscapeTime.PlaneCell` | Mandelbrot.c:51-55 | cell row·n+col holds the escape time of the point sampled for pixel (row, col) |
| `EscapeTime.PlaneCentre` | Mandelbrot.c:46-55 | the centre cell holds the escape time of the centre itself |
| `EscapeTime.RowMajor` | Mandelbrot.c:55 | the row-major index of a pixel is inside the plane and decodes back to its row and column |
| `EscapeTime.Mandelbrot` | Mandelbrot.c:44-60 | the first n² cells of the output become the plane; all later cells are unchanged |
| `Movie.FrameScale` | MandelMovie.c:36 | the first frame is at the initial scale |
| `Movie.ScaleRatio` | MandelMovie.c:36 | consecutive frame scales are a constant ratio apart |
| `Movie.LastFrameIsFinal` | MandelMovie.c:36 | when the ratio is the (framecount−1)-th root of final/initial, the last frame is at the final scale |
| `Movie.PowerPositive` | MandelMovie.c:36 | a positive ratio keeps every frame scale positive |
| `Movie.HalvingZoom` | MandelMovie.c:27 | zooming 1024 to 1 in 11 frames halves the scale each frame (512 at frame 1, 32 at frame 5, 1 at frame 10) |
| `Movie.MandelMovie` | MandelMovie.c:30-39 | each frame i below framecount holds the plane at scale FrameScale(i); cells past the plane and frames from framecount on are unchanged |
| `Movie.RejectedAsWritten` | MandelMovie.c:75 | the acceptance test as written; a movie it accepts has a positive threshold, iteration bound and scales, and 1..10000 frames |
| `Movie.Rejected` | MandelMovie.c:75 | the corrected acceptance test; it accepts only what the test as written requires of every movie, and a single frame only when its two scales are within 1e-12 |
| `Movie.SingleFrameAsWritten` | MandelMovie.c:75 | the acceptance test as written rejects a one-frame movie whose scales agree (1 and 1), but accepts one whose scales differ (1 and 2), whose only frame is then not at the final scale |
| `Movie.AcceptedMovie` | MandelMovie.c:75 | under the corrected test an accepted movie has 1..10000 frames; a one-frame movie is accepted if and only if its frame, at the initial scale, is within 1e-12 of the final scale |
| `Movie.RejectionDiffersOnlyForOneFrame` | MandelMovie.c:75 | the corrected test and the test as written agree for every frame count other than 1 |
| `Movie.ColorFor` | MandelMovie.c:137-146 | escape time 0 is black, any other escape time takes a colour from the map |
| `Movie.ColorCycle` | MandelMovie.c:144-145 | escape times 1..\|map\| take the colours in map order, and colours repeat with period \|map\| |
| `Movie.FrameImage` | MandelMovie.c:134-135 | a frame image is n rows of n pixels |
| `Movie.FramePixel` | MandelMovie.c:134-146 | pixel (j, k) of a frame is the colour of plane cell j·n+k |
| `Movie.FrameFileLayout` | MandelMovie.c:132-147 | after the `P6 n n 255` header, byte 3·(j·n+k)+c of a frame file is component c of the colour of cell j·n+k |
| `Movie.FrameFileName` | MandelMovie.c:126 | defines the path `folder/frameNNNNN.ppm` of frame i (properties in `FrameFileNames`) |
| `Movie.FrameFileNames` | MandelMovie.c:120-126 | two frame numbers give the same file name only if they are equal; below 10000 the name is as long as folder + "/frame00000.ppm", the buffer `main` sizes |
| `Movie.WriteRow` | MandelMovie.c:135-146 | the bytes written for row j are the P6 encoding of the frame image's row j |
| `Movie.WriteFrame` | MandelMovie.c:132-147 | the bytes written for a frame are the P6 header followed by the frame image's rows |
| `Movie.MovieFiles` | MandelMovie.c:123-149 | the movie has exactly one file per frame, in frame order |
| `Movie.MovieMain` | MandelMovie.c:60-149 | with the acceptance test as written: the exit code is 0 if and only if there are 11 arguments, the values pass the test at line 75 as written and the colour map is not NULL; otherwise it is 1 and no file is written; on success, file i is frame i's name and its coloured P6 image |
| `Movie.RenderMovie` | MandelMovie.c:85-149 | after acceptance: exit code 0 exactly when the colour map is not NULL, and then one file per frame in frame order, frame i coloured from the plane at scale FrameScale(i); otherwise exit code 1 and no file |
| `Movie.CorrectedMovieMain` | MandelMovie.c:60-149 | the same program with the corrected test: exit code 0 if and only if there are 11 arguments, the values pass the corrected test and the map is not NULL, with the same files |
| `Ppm.RgbBytes` | MandelMovie.c:145 | a colour is written as three bytes: red, green, blue |
| `Ppm.Decimal` | colorPalette.c:37 | `%d` of a natural number is a non-empty digit string that starts with '0' only for 0 |
| `Ppm.DecimalRoundTrip` | colorPalette.c:37 | reading a decimal rendering back gives the number |
| `Ppm.ZeroPadded` | MandelMovie.c:126 | `%05d` is a digit string as long as the decimal form, or 5 when that is shorter |
| `Ppm.ZeroPaddedRoundTrip` | MandelMovie.c:126 | reading a zero-padded rendering back gives the number |
| `Ppm.Header` | MandelMovie.c:132 | defines the header line `magic width height 255` and its newline, shared by the P3 and P6 writers (properties in `HeaderShape`) |
| `Ppm.HeaderShape` | MandelMovie.c:132 | a header is ASCII and ends with its only newline |
| `Ppm.P6RowLayout` | colorPalette.c:83-86 | a P6 row is three bytes per pixel, with component c of pixel k at offset 3k+c |
| `Ppm.P6Length` | colorPalette.c:78-88 | the P6 pixel data of a rectangular image is 3·width·height bytes |
| `Ppm.P6LayoutAt` | MandelMovie.c:134-147 | byte 3·(r·width+k)+c of the P6 pixel data is component c of pixel (r, k) |
| `Ppm.P6Layout` | MandelMovie.c:134-147 | the same, for every pixel and component at once |
| `Ppm.PixelsInLine` | colorPalette.c:43-46 | a row's pixel text contains no newline |
| `Ppm.P3LineShape` | colorPalette.c:43-47 | a P3 row is ASCII, ends with a newline and contains no other newline |
| `Ppm.P3TextLines` | colorPalette.c:38-49 | P3 pixel text is ASCII with one newline per image row |
| `Ppm.P3LineAsWritten` | colorPalette.c:43-47 | defines a P3 line as written: the row's triples with nothing between them, then a newline (properties in `P3LineAsWrittenShape`) |
| `Ppm.P3FileAsWritten` | colorPalette.c:37-49 | defines the P3 file as written: the header, then one line as written per image row (properties in `P3FileAsWrittenShape`) |
| `Ppm.TriplesInLine` | colorPalette.c:43-46 | the triples of a row, written as in the source, contain no newline |
| `Ppm.P3LineAsWrittenShape` | colorPalette.c:43-47 | a line as written is ASCII, ends with a newline and contains no other newline |
| `Ppm.P3TextAsWrittenLines` | colorPalette.c:38-49 | the pixel text as written is ASCII with one newline per image row, \|map\|·h lines for the palette |
| `Ppm.P3FileAsWrittenShape` | colorPalette.c:37-49 | the file as written is ASCII with one header line and one line per image row |
| `Ppm.SpacedLineLength` | colorPalette.c:45 | the corrected line is one character longer per pixel than the line as written |
| `P3Reader.WordsAppend` | colorPalette.c:45-47 | a lemma of the model's own P3 reader, used to read these lines: text that ends in whitespace splits into words independently of what follows it |
| `P3Reader.SeparatedWords` | colorPalette.c:37 | a lemma of the model's own P3 reader, used to read this header: words joined by single whitespace characters split back into the same words |
| `P3Reader.HeaderWords` | colorPalette.c:37 | the P3 header splits into the words P3, width, height and 255 |
| `P3Reader.P3TextWords` | colorPalette.c:38-49 | P3 pixel text splits into three decimal words per pixel, in row-major order |
| `P3Reader.ReadRowsWords` | colorPalette.c:38-49 | a lemma of the model's own P3 reader, about the words these lines hold: reading the words of a rectangular image back gives the image |
| `P3Reader.P3FileWords` | colorPalette.c:37-49 | a P3 file splits into the header words followed by the pixel words |
| `P3Reader.P3RoundTrip` | colorPalette.c:37-49 | reading a P3 file back gives the rectangular image it encodes |
| `P3Reader.TwoPixelLineAsWritten` | colorPalette.c:43-47 | with the pixel format as written, a two-pixel row runs the first blue and the second red together into one word, so the row is five words |
| `P3Reader.AsWrittenUnreadable` | colorPalette.c:37-47 | a 2×1 image in one colour written as in the source does not read back; written with separators, it does |
| `P3Reader.OnePixelLineWords` | colorPalette.c:43-47 | a one-pixel line as written holds exactly the three numerals of its pixel |
| `P3Reader.OneColumnTextWords` | colorPalette.c:38-49 | for a one-pixel-wide image the pixel text as written holds three numerals per row, in order |
| `P3Reader.OneColumnReadsBack` | colorPalette.c:37-49 | at width 1 the P3 file as written reads back as its image: the missing separator only matters from width 2 on |
| `Palette.Stripe` | colorPalette.c:43-46 | a palette row is `width` pixels of one colour |
| `Palette.Band` | colorPalette.c:41-48 | a colour's band is `heightpercolor` copies of its row |
| `Palette.PaletteRowAt` | colorPalette.c:38-48 | row i·h+j of the palette, for j < h, is the row of colour i |
| `Palette.PaletteRow` | colorPalette.c:38-48 | every row r of the palette is the row of colour r / h |
| `Palette.PaletteShape` | colorPalette.c:37-49 | the palette is rectangular, `width` wide and \|map\|·h high, matching its header |
| `Palette.P3ColorPalette` | colorPalette.c:20-57 | returns 1 with no file if and only if the width or height per colour is below 1 or the colour map is NULL (`None`); otherwise returns 0 and writes the P3 encoding of the palette image |
| `Palette.P6ColorPalette` | colorPalette.c:60-96 | the same checks; on success, writes the P6 encoding of the palette image |
| `Palette.P3PaletteReadsBack` | colorPalette.c:37-49 | the P3 palette file reads back as the palette image |
| `Palette.P6PaletteLayout` | colorPalette.c:77-88 | the P6 palette has 3·width·\|map\|·h pixel bytes, and byte c of pixel k in row i·h+j is component c of colour i |
| `Palette.PaletteMain` | colorPalette.c:99-127 | exit code 0 if and only if there are 5 arguments, both dimensions are at least 1 and the map is not NULL; it then writes folder/colorpaletteP3.ppm and folder/colorpaletteP6.ppm in that order; otherwise exit code 1 and no file |

## Left out

- File I/O (`fopen`, `fprintf`, `fwrite`, `fclose`) is modelled as a returned `File` value, a path plus its bytes. A failed `fopen` is not modelled. `MandelMovie.c` exits with 1 in that case; `colorPalette.c` does not check it.
- The colour map comes from `FileToColorMap`, in `ColorMapInput.c`, which is not modelled. The map is an input: `None` stands for the NULL map that `main` tests at MandelMovie.c:115 and the writers test at colorPalette.c:30 and 70; `Some` is the sequence of colours. The reader as written returns NULL only when the colour count it reads is negative. It does not check `fopen`, so it does not detect an unreadable file. `colorPalette.c` reads the colour file twice, once per writer; the model reads it once and gives both writers the same map.
- `atof` and `atoi` are not modelled: the converted argument values are inputs.
- Floating point: doubles are modelled as exact reals. IEEE rounding, infinities and NaN are left out. `sqrt` in the magnitude is replaced by a comparison of squares.
- `Movie.MandelMovie`: the per-frame ratio `pow(finalscale / initialscale, 1.0 / (framecount - 1))` is an input, `root`. `LastFrameIsFinal` states the condition under which it gives the final scale exactly.
- `EscapeTime.Mandelbrot`: requires resolution ≥ 1. With resolution 0 the C code divides the scale by 0.0 and samples a NaN point; that floating-point case is not modelled. `EscapeTime.Plane`, `Movie.MandelMovie`, `Movie.RenderMovie`, `Movie.MovieMain` and `Movie.CorrectedMovieMain` carry the same precondition.
- `Movie.MovieMain`: requires a non-empty colour map. With an empty map the colour index `(t-1) % 0` is undefined behaviour in C. `Movie.RenderMovie` and `Movie.CorrectedMovieMain` carry the same precondition.
- Fixed-width integers are modelled as unbounded naturals. Their wrap-around is not modelled:
  - the `u_int64_t` iteration counts and `int` loop counters;
  - `colorCount * heightpercolor` in the P3 and P6 headers;
  - the `(u_int64_t)atoi` cast of a negative argument.
- Memory allocation and its failure paths (`malloc` returning NULL, exit code 1) are not modelled. Neither are the frees and the leaks on early returns.
- The `resolution < 0` test in the argument check is always false on an unsigned value, and the model omits it.
- OpenMP and the text that colorPalette.c prints are not modelled: its usage message, its error messages at lines 115 and 122 and its success message at line 125.
- `P3Reader`: the reader does not accept `#` comments. Comments are never written by the code modelled here.
- `Palette.P3ColorPalette`: writes a blank after every pixel's triple (the corrected format). The format as written is kept as `Ppm.P3LineAsWritten` and `Ppm.P3FileAsWritten` (see Findings). The line and file shape of that format is proved in `Ppm.P3LineAsWrittenShape` and `Ppm.P3FileAsWrittenShape`. `P3Reader.OneColumnReadsBack` proves it readable at width 1.

## Findings

| source | as written | input that shows it | evidently intended | confidence | as-written member | corrected member |
|---|---|---|---|---|---|---|
| MandelMovie.c:75 | a one-frame movie is rejected when its initial and final scales are within 1e-12 of each other | framecount 1 with scales 1 and 1 is rejected; framecount 1 with scales 1 and 2 is accepted, and its only frame is at scale 1, not the final scale 2 | reject a one-frame movie whose two scales differ by 1e-12 or more | not executed | `Movie.SingleFrameAsWritten` | `Movie.AcceptedMovie` |
| colorPalette.c:45 | the three values of a pixel are written with no whitespace after the last one, so neighbouring pixels run together | width 2, one colour (1, 2, 3): the row reads `1 2 31 2 3`, five values where the header announces six | whitespace after each pixel, so every value is its own token | not executed | `P3Reader.AsWrittenUnreadable` | `P3Reader.P3RoundTrip` |

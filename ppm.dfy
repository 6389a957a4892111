/**
 * The portable pixmap (PPM) images the renderer writes, as the exact bytes or
 * characters of the file: the header line, the plain-text (P3) and binary (P6)
 * pixel encodings, and the decimal formatting that `printf` performs for them.
 * An image is a list of rows, top to bottom; a row is a list of pixels, left to right.
 */
module Ppm {

  newtype byte = x: int | 0 <= x < 256

  /** One colour, as the three `uint8_t` components the colour table holds. */
  datatype Rgb = Rgb(red: byte, green: byte, blue: byte)

  const Black: Rgb := Rgb(0, 0, 0)

  datatype Option<T> = None | Some(value: T)

  /** A file the programs write: its path and the bytes it ends up holding. */
  datatype File = File(path: string, bytes: seq<byte>)

  /** Component k of a colour, in R, G, B order. */
  function Component(c: Rgb, k: nat): byte
    requires k < 3
  {
    if k == 0 then c.red else if k == 1 then c.green else c.blue
  }

  /** The three bytes `fwrite(color, 1, 3, f)` emits for one pixel. */
  function RgbBytes(c: Rgb): (r: seq<byte>)
    ensures |r| == 3 && forall k :: 0 <= k < 3 ==> r[k] == Component(c, k)
  {
    [c.red, c.green, c.blue]
  }

  // ---------------------------------------------------------------------------
  // Concatenation of a list of chunks: every loop that writes chunk after chunk
  // to a file produces the concatenation of those chunks.

  function Concat<T>(ss: seq<seq<T>>): seq<T>
    decreases |ss|
  {
    if ss == [] then [] else Concat(ss[..|ss| - 1]) + ss[|ss| - 1]
  }

  /** Writing one more chunk appends it. */
  lemma ConcatLast<T>(ss: seq<seq<T>>, x: seq<T>)
    ensures Concat(ss + [x]) == Concat(ss) + x
  {
    assert (ss + [x])[..|ss|] == ss;
  }

  lemma ConcatSnoc<T>(ss: seq<seq<T>>, m: nat)
    requires m < |ss|
    ensures Concat(ss[..m + 1]) == Concat(ss[..m]) + ss[m]
  {
    assert ss[..m + 1][..m] == ss[..m];
  }

  lemma {:induction false} MulMonotone(a: nat, b: nat, L: nat)
    requires a <= b
    ensures a * L <= b * L
    decreases b - a
  {
    if a < b {
      MulMonotone(a, b - 1, L);
      assert b * L == (b - 1) * L + L;
    }
  }

  /** i < m chunks of length L end before chunk m starts. */
  lemma MulBound(i: nat, j: nat, m: nat, L: nat)
    requires i < m && j < L
    ensures i * L + j < m * L
  {
    assert (i + 1) * L == i * L + L;
    MulMonotone(i + 1, m, L);
  }

  lemma {:induction false} ConcatUniformLength<T>(ss: seq<seq<T>>, L: nat)
    requires forall i :: 0 <= i < |ss| ==> |ss[i]| == L
    ensures |Concat(ss)| == |ss| * L
    decreases |ss|
  {
    if ss != [] {
      ConcatUniformLength(ss[..|ss| - 1], L);
      assert (|ss| - 1) * L + L == |ss| * L;
    }
  }

  lemma {:induction false} ConcatUniformAt<T>(ss: seq<seq<T>>, L: nat, i: nat, j: nat)
    requires forall i :: 0 <= i < |ss| ==> |ss[i]| == L
    requires i < |ss| && j < L
    ensures i * L + j < |Concat(ss)| && Concat(ss)[i * L + j] == ss[i][j]
    decreases |ss|
  {
    var m := |ss| - 1;
    var init := ss[..m];
    ConcatUniformLength(init, L);
    ConcatUniformLength(ss, L);
    MulBound(i, j, |ss|, L);
    if i < m {
      ConcatUniformAt(init, L, i, j);
      MulBound(i, j, m, L);
    } else {
      assert Concat(ss) == Concat(init) + ss[m];
    }
  }

  /** How many times a character occurs in a text. */
  function Count(s: string, ch: char): nat
    decreases |s|
  {
    if s == [] then 0 else Count(s[..|s| - 1], ch) + (if s[|s| - 1] == ch then 1 else 0)
  }

  lemma {:induction false} CountAppend(a: string, b: string, ch: char)
    ensures Count(a + b, ch) == Count(a, ch) + Count(b, ch)
    decreases |b|
  {
    if b != [] {
      var b' := b[..|b| - 1];
      assert (a + b)[..|a + b| - 1] == a + b';
      CountAppend(a, b', ch);
    } else {
      assert a + b == a;
    }
  }

  lemma {:induction false} CountAbsent(s: string, ch: char)
    requires forall i :: 0 <= i < |s| ==> s[i] != ch
    ensures Count(s, ch) == 0
    decreases |s|
  {
    if s != [] {
      CountAbsent(s[..|s| - 1], ch);
    }
  }

  // ---------------------------------------------------------------------------
  // Decimal formatting, as `printf` writes an unsigned number with %d, %lu or %hhu.

  predicate IsDigit(ch: char) {
    '0' <= ch <= '9'
  }

  predicate AllDigits(s: string) {
    forall i :: 0 <= i < |s| ==> IsDigit(s[i])
  }

  function DigitChar(d: nat): (ch: char)
    requires d < 10
    ensures IsDigit(ch)
  {
    (d + '0' as int) as char
  }

  function DigitValue(ch: char): (d: nat)
    requires IsDigit(ch)
    ensures d < 10 && DigitChar(d) == ch
  {
    ch as int - '0' as int
  }

  /** The shortest decimal numeral of n: no sign, no leading zero except for 0 itself. */
  function Decimal(n: nat): (s: string)
    ensures 1 <= |s| && AllDigits(s)
    ensures s[0] == '0' <==> n == 0
    decreases n
  {
    if n < 10 then [DigitChar(n)] else Decimal(n / 10) + [DigitChar(n % 10)]
  }

  /** The number a string of decimal digits denotes (leading zeros allowed). */
  function DecimalValue(s: string): nat
    requires AllDigits(s)
    decreases |s|
  {
    if s == [] then 0 else 10 * DecimalValue(s[..|s| - 1]) + DigitValue(s[|s| - 1])
  }

  /** Reading back what `printf` wrote gives the number that was printed. */
  lemma {:induction false} DecimalRoundTrip(n: nat)
    ensures DecimalValue(Decimal(n)) == n
    decreases n
  {
    if n >= 10 {
      DecimalRoundTrip(n / 10);
      var s := Decimal(n);
      assert s[..|s| - 1] == Decimal(n / 10);
    }
  }

  function Zeros(k: nat): (s: string)
    ensures |s| == k && AllDigits(s)
    ensures forall i :: 0 <= i < k ==> s[i] == '0'
  {
    seq(k, i => '0')
  }

  /** `%0<width>d`: the numeral of n, with zeros in front up to the field width. */
  function ZeroPadded(n: nat, width: nat): (s: string)
    ensures AllDigits(s)
    ensures |s| == if |Decimal(n)| < width then width else |Decimal(n)|
  {
    var d := Decimal(n);
    Zeros(if |d| < width then width - |d| else 0) + d
  }

  lemma {:induction false} LeadingZerosValue(k: nat, s: string)
    requires AllDigits(s)
    ensures DecimalValue(Zeros(k) + s) == DecimalValue(s)
    decreases |s|, k
  {
    if s == [] {
      assert Zeros(k) + s == Zeros(k);
      if k > 0 {
        assert Zeros(k)[..k - 1] == Zeros(k - 1);
        LeadingZerosValue(k - 1, s);
        assert Zeros(k - 1) + s == Zeros(k - 1);
      }
    } else {
      var t := Zeros(k) + s;
      assert t[..|t| - 1] == Zeros(k) + s[..|s| - 1];
      LeadingZerosValue(k, s[..|s| - 1]);
    }
  }

  /** A zero-padded field still reads back as the number it was made from. */
  lemma ZeroPaddedRoundTrip(n: nat, width: nat)
    ensures DecimalValue(ZeroPadded(n, width)) == n
  {
    var d := Decimal(n);
    DecimalRoundTrip(n);
    LeadingZerosValue(if |d| < width then width - |d| else 0, d);
  }

  // ---------------------------------------------------------------------------
  // Header line and ASCII conversion.

  predicate IsAscii(s: string) {
    forall i :: 0 <= i < |s| ==> s[i] as int < 128
  }

  /** The bytes of an ASCII text, as a binary file holds them. */
  function Ascii(s: string): (r: seq<byte>)
    requires IsAscii(s)
    ensures |r| == |s| && forall i :: 0 <= i < |s| ==> r[i] as int == s[i] as int
  {
    seq(|s|, i requires 0 <= i < |s| => s[i] as int as byte)
  }

  /** `"<magic> <width> <height> 255\n"`: the header of a PPM file with 8-bit channels. */
  function Header(magic: string, width: nat, height: nat): string {
    magic + " " + Decimal(width) + " " + Decimal(height) + " 255\n"
  }

  /** A header with an ASCII magic number is ASCII text, one line long. */
  lemma HeaderShape(magic: string, width: nat, height: nat)
    requires IsAscii(magic)
    ensures IsAscii(Header(magic, width, height))
    ensures Header(magic, width, height)[|Header(magic, width, height)| - 1] == '\n'
    ensures '\n' !in magic ==> Count(Header(magic, width, height), '\n') == 1
  {
    var h := Header(magic, width, height);
    var line := magic + " " + Decimal(width) + " " + Decimal(height) + " 255";
    assert h == line + "\n";
    if '\n' !in magic {
      CountAbsent(line, '\n');
      CountAppend(line, "\n", '\n');
      assert Count("\n", '\n') == 1 by {
        assert ("\n")[..0] == [];
      }
    }
  }

  // ---------------------------------------------------------------------------
  // Images and their two encodings.

  /** Rows top to bottom, each row left to right. */
  type Image = seq<seq<Rgb>>

  predicate IsRectangular(img: Image, width: nat) {
    forall r :: 0 <= r < |img| ==> |img[r]| == width
  }

  /** The binary (P6) bytes of one row: the pixels' bytes back to back. */
  function P6Row(row: seq<Rgb>): seq<byte> {
    Concat(seq(|row|, k requires 0 <= k < |row| => RgbBytes(row[k])))
  }

  function P6Rows(img: Image): seq<seq<byte>> {
    seq(|img|, r requires 0 <= r < |img| => P6Row(img[r]))
  }

  /** The binary (P6) pixel data of an image: its rows back to back. */
  function P6Pixels(img: Image): seq<byte> {
    Concat(P6Rows(img))
  }

  /** The header of a P6 file, as bytes. */
  function P6Header(width: nat, height: nat): seq<byte> {
    HeaderShape("P6", width, height);
    Ascii(Header("P6", width, height))
  }

  /** A whole P6 file whose rows are `width` pixels wide. */
  function P6File(img: Image, width: nat): seq<byte> {
    P6Header(width, |img|) + P6Pixels(img)
  }

  /** Writing one more pixel of a row appends its three bytes. */
  lemma P6RowSnoc(row: seq<Rgb>, c: Rgb)
    ensures P6Row(row + [c]) == P6Row(row) + RgbBytes(c)
  {
    var chunks := seq(|row|, k requires 0 <= k < |row| => RgbBytes(row[k]));
    assert seq(|row + [c]|, k requires 0 <= k < |row + [c]| => RgbBytes((row + [c])[k])) == chunks + [RgbBytes(c)];
    ConcatLast(chunks, RgbBytes(c));
  }

  /** Writing one more row of an image appends that row's bytes. */
  lemma P6PixelsSnoc(img: Image, row: seq<Rgb>)
    ensures P6Pixels(img + [row]) == P6Pixels(img) + P6Row(row)
  {
    assert P6Rows(img + [row]) == P6Rows(img) + [P6Row(row)];
    ConcatLast(P6Rows(img), P6Row(row));
  }

  /** Row prefix by row prefix: k + 1 pixels are the bytes of k pixels, then those of pixel k. */
  lemma P6RowPrefix(row: seq<Rgb>, k: nat)
    requires k < |row|
    ensures P6Row(row[..k + 1]) == P6Row(row[..k]) + RgbBytes(row[k])
  {
    assert row[..k + 1] == row[..k] + [row[k]];
    P6RowSnoc(row[..k], row[k]);
  }

  /** Image prefix by image prefix: j + 1 rows are the bytes of j rows, then those of row j. */
  lemma P6PixelsPrefix(img: Image, j: nat)
    requires j < |img|
    ensures P6Pixels(img[..j + 1]) == P6Pixels(img[..j]) + P6Row(img[j])
  {
    assert img[..j + 1] == img[..j] + [img[j]];
    P6PixelsSnoc(img[..j], img[j]);
  }

  lemma P6RowLayout(row: seq<Rgb>)
    ensures |P6Row(row)| == 3 * |row|
    ensures forall k, c :: 0 <= k < |row| && 0 <= c < 3 ==> P6Row(row)[3 * k + c] == Component(row[k], c)
  {
    var chunks := seq(|row|, k requires 0 <= k < |row| => RgbBytes(row[k]));
    assert P6Row(row) == Concat(chunks);
    ConcatUniformLength(chunks, 3);
    forall k, c | 0 <= k < |row| && 0 <= c < 3
      ensures P6Row(row)[3 * k + c] == Component(row[k], c)
    {
      ConcatUniformAt(chunks, 3, k, c);
      assert 3 * k + c == k * 3 + c;
    }
  }

  lemma PixelOffset(r: nat, width: nat, k: nat, c: nat)
    ensures 3 * (r * width + k) + c == r * (3 * width) + (3 * k + c)
    ensures r * (3 * width) == 3 * width * r
    ensures k < width && c < 3 ==> 3 * k + c < 3 * width
  {
  }

  /**
   * In the binary body of an image `width` pixels wide, byte `value` is component c
   * of the pixel in row r, column k: pixels are stored row by row, 3 bytes each.
   */
  predicate HoldsByte(bytes: seq<byte>, width: nat, r: nat, k: nat, c: nat, value: byte) {
    3 * (r * width + k) + c < |bytes| && bytes[3 * (r * width + k) + c] == value
  }

  lemma P6Length(img: Image, width: nat)
    requires IsRectangular(img, width)
    ensures |P6Pixels(img)| == 3 * width * |img|
  {
    var rows := P6Rows(img);
    forall i | 0 <= i < |img| ensures |rows[i]| == 3 * width {
      P6RowLayout(img[i]);
    }
    PixelOffset(|img|, width, 0, 0);
    ConcatUniformLength(rows, 3 * width);
  }

  lemma P6LayoutAt(img: Image, width: nat, r: nat, k: nat, c: nat)
    requires IsRectangular(img, width)
    requires r < |img| && k < width && c < 3
    ensures |P6Pixels(img)| == 3 * width * |img|
    ensures 3 * (r * width + k) + c < |P6Pixels(img)|
    ensures P6Pixels(img)[3 * (r * width + k) + c] == Component(img[r][k], c)
  {
    var rows := P6Rows(img);
    forall i | 0 <= i < |img| ensures |rows[i]| == 3 * width {
      P6RowLayout(img[i]);
    }
    P6RowLayout(img[r]);
    PixelOffset(r, width, k, c);
    P6Length(img, width);
    ConcatUniformAt(rows, 3 * width, r, 3 * k + c);
  }

  /**
   * The binary body of a rectangular image holds exactly 3 * width bytes per row,
   * and pixel (r, k) lies at byte 3 * (r * width + k), in R, G, B order.
   */
  lemma P6Layout(img: Image, width: nat)
    requires IsRectangular(img, width)
    ensures |P6Pixels(img)| == 3 * width * |img|
    ensures forall r, k, c :: 0 <= r < |img| && 0 <= k < width && 0 <= c < 3 ==>
      HoldsByte(P6Pixels(img), width, r, k, c, Component(img[r][k], c))
  {
    P6Length(img, width);
    forall r, k, c | 0 <= r < |img| && 0 <= k < width && 0 <= c < 3
      ensures HoldsByte(P6Pixels(img), width, r, k, c, Component(img[r][k], c))
    {
      P6LayoutAt(img, width, r, k, c);
    }
  }

  /** `"%hhu %hhu %hhu"`: one pixel as P3 text. */
  function Triple(c: Rgb): string {
    Decimal(c.red as nat) + " " + Decimal(c.green as nat) + " " + Decimal(c.blue as nat)
  }

  /**
   * One P3 text line as colorPalette.c writes it: the row's triples back to back,
   * with nothing between one triple and the next, then a newline.
   */
  function P3LineAsWritten(row: seq<Rgb>): string {
    TriplesText(row) + "\n"
  }

  /** The triples of a row back to back. */
  function TriplesText(row: seq<Rgb>): string {
    Concat(seq(|row|, k requires 0 <= k < |row| => Triple(row[k])))
  }

  /** The pixel text of colorPalette.c as written: one line per row as written. */
  function P3TextAsWritten(img: Image): string {
    Concat(seq(|img|, r requires 0 <= r < |img| => P3LineAsWritten(img[r])))
  }

  /** The P3 file of colorPalette.c as written: the header, then one line per row as written. */
  function P3FileAsWritten(img: Image, width: nat): string {
    Header("P3", width, |img|) + P3TextAsWritten(img)
  }

  /** One pixel of a P3 line: its triple, then the space that separates it from the next. */
  function PixelText(c: Rgb): string {
    Triple(c) + " "
  }

  function PixelsText(row: seq<Rgb>): string {
    Concat(seq(|row|, k requires 0 <= k < |row| => PixelText(row[k])))
  }

  /** One P3 text line: the row's pixels, each followed by a space, then a newline. */
  function P3Line(row: seq<Rgb>): string {
    PixelsText(row) + "\n"
  }

  function P3Lines(img: Image): seq<string> {
    seq(|img|, r requires 0 <= r < |img| => P3Line(img[r]))
  }

  /** The plain-text (P3) pixel data of an image: its lines back to back. */
  function P3Text(img: Image): string {
    Concat(P3Lines(img))
  }

  /** A whole P3 file whose rows are `width` pixels wide. */
  function P3File(img: Image, width: nat): string {
    Header("P3", width, |img|) + P3Text(img)
  }

  /** Writing one more pixel of a line appends its text. */
  lemma PixelsTextSnoc(row: seq<Rgb>, c: Rgb)
    ensures PixelsText(row + [c]) == PixelsText(row) + PixelText(c)
  {
    var chunks := seq(|row|, k requires 0 <= k < |row| => PixelText(row[k]));
    assert seq(|row + [c]|, k requires 0 <= k < |row + [c]| => PixelText((row + [c])[k])) == chunks + [PixelText(c)];
    ConcatLast(chunks, PixelText(c));
  }

  /** Writing one more row of an image appends its line. */
  lemma P3TextSnoc(img: Image, row: seq<Rgb>)
    ensures P3Text(img + [row]) == P3Text(img) + P3Line(row)
  {
    assert P3Lines(img + [row]) == P3Lines(img) + [P3Line(row)];
    ConcatLast(P3Lines(img), P3Line(row));
  }

  /** Text on a single line: ASCII with no newline. */
  predicate InLine(s: string) {
    IsAscii(s) && '\n' !in s
  }

  lemma InLineAppend(a: string, b: string)
    requires InLine(a) && InLine(b)
    ensures InLine(a + b)
  {
  }

  lemma {:induction false} PixelsInLine(row: seq<Rgb>)
    ensures InLine(PixelsText(row))
    decreases |row|
  {
    if row != [] {
      var m := |row| - 1;
      PixelsInLine(row[..m]);
      assert row == row[..m] + [row[m]];
      PixelsTextSnoc(row[..m], row[m]);
      InLineAppend(PixelsText(row[..m]), PixelText(row[m]));
    }
  }

  /**
   * A P3 line is ASCII, ends in its newline and holds no other newline: each row
   * of the image is exactly one line of the text.
   */
  lemma P3LineShape(row: seq<Rgb>)
    ensures IsAscii(P3Line(row))
    ensures var line := P3Line(row);
      line[|line| - 1] == '\n' && '\n' !in line[..|line| - 1] && Count(line, '\n') == 1
  {
    var body := PixelsText(row);
    PixelsInLine(row);
    var line := P3Line(row);
    assert line[..|line| - 1] == body;
    CountAbsent(body, '\n');
    CountAppend(body, "\n", '\n');
    assert Count("\n", '\n') == 1 by {
      assert ("\n")[..0] == [];
    }
  }

  /** The P3 text of an image is ASCII and has exactly one line per image row. */
  lemma {:induction false} P3TextLines(img: Image)
    ensures IsAscii(P3Text(img))
    ensures Count(P3Text(img), '\n') == |img|
    decreases |img|
  {
    if img != [] {
      var m := |img| - 1;
      P3TextLines(img[..m]);
      assert img == img[..m] + [img[m]];
      P3TextSnoc(img[..m], img[m]);
      P3LineShape(img[m]);
      CountAppend(P3Text(img[..m]), P3Line(img[m]), '\n');
    }
  }

  lemma TriplesTextSnoc(row: seq<Rgb>, c: Rgb)
    ensures TriplesText(row + [c]) == TriplesText(row) + Triple(c)
  {
    var chunks := seq(|row|, k requires 0 <= k < |row| => Triple(row[k]));
    assert seq(|row + [c]|, k requires 0 <= k < |row + [c]| => Triple((row + [c])[k])) == chunks + [Triple(c)];
    ConcatLast(chunks, Triple(c));
  }

  lemma P3TextAsWrittenSnoc(img: Image, row: seq<Rgb>)
    ensures P3TextAsWritten(img + [row]) == P3TextAsWritten(img) + P3LineAsWritten(row)
  {
    var lines := seq(|img|, r requires 0 <= r < |img| => P3LineAsWritten(img[r]));
    assert seq(|img + [row]|, r requires 0 <= r < |img + [row]| => P3LineAsWritten((img + [row])[r]))
      == lines + [P3LineAsWritten(row)];
    ConcatLast(lines, P3LineAsWritten(row));
  }

  lemma {:induction false} TriplesInLine(row: seq<Rgb>)
    ensures InLine(TriplesText(row))
    decreases |row|
  {
    if row != [] {
      var m := |row| - 1;
      TriplesInLine(row[..m]);
      assert row == row[..m] + [row[m]];
      TriplesTextSnoc(row[..m], row[m]);
      InLineAppend(TriplesText(row[..m]), Triple(row[m]));
    }
  }

  /**
   * A line as colorPalette.c writes it has the same shape as a corrected one: ASCII,
   * ending in its newline, with no other newline.
   */
  lemma P3LineAsWrittenShape(row: seq<Rgb>)
    ensures IsAscii(P3LineAsWritten(row))
    ensures var line := P3LineAsWritten(row);
      line[|line| - 1] == '\n' && '\n' !in line[..|line| - 1] && Count(line, '\n') == 1
  {
    var body := TriplesText(row);
    TriplesInLine(row);
    var line := P3LineAsWritten(row);
    assert line[..|line| - 1] == body;
    CountAbsent(body, '\n');
    CountAppend(body, "\n", '\n');
    assert Count("\n", '\n') == 1 by {
      assert ("\n")[..0] == [];
    }
  }

  /** The pixel text as colorPalette.c writes it is ASCII with one line per image row. */
  lemma {:induction false} P3TextAsWrittenLines(img: Image)
    ensures IsAscii(P3TextAsWritten(img))
    ensures Count(P3TextAsWritten(img), '\n') == |img|
    decreases |img|
  {
    if img != [] {
      var m := |img| - 1;
      P3TextAsWrittenLines(img[..m]);
      assert img == img[..m] + [img[m]];
      P3TextAsWrittenSnoc(img[..m], img[m]);
      P3LineAsWrittenShape(img[m]);
      CountAppend(P3TextAsWritten(img[..m]), P3LineAsWritten(img[m]), '\n');
    }
  }

  /**
   * The corrected line is one character longer per pixel than the line as written:
   * the blank that follows each triple.
   */
  lemma {:induction false} SpacedLineLength(row: seq<Rgb>)
    ensures |P3Line(row)| == |P3LineAsWritten(row)| + |row|
    decreases |row|
  {
    if row != [] {
      var m := |row| - 1;
      SpacedLineLength(row[..m]);
      assert row == row[..m] + [row[m]];
      PixelsTextSnoc(row[..m], row[m]);
      TriplesTextSnoc(row[..m], row[m]);
    } else {
      assert PixelsText(row) == [] && TriplesText(row) == [];
    }
  }

  lemma AsciiAppend(a: string, b: string)
    requires IsAscii(a) && IsAscii(b)
    ensures IsAscii(a + b)
  {
    forall i | 0 <= i < |a + b|
      ensures (a + b)[i] as int < 128
    {
      if i >= |a| {
        assert (a + b)[i] == b[i - |a|];
      }
    }
  }

  /** The P3 file as colorPalette.c writes it is ASCII with a header line and one line per image row. */
  lemma P3FileAsWrittenShape(img: Image, width: nat)
    ensures IsAscii(P3FileAsWritten(img, width))
    ensures Count(P3FileAsWritten(img, width), '\n') == |img| + 1
  {
    HeaderShape("P3", width, |img|);
    P3TextAsWrittenLines(img);
    AsciiAppend(Header("P3", width, |img|), P3TextAsWritten(img));
    CountAppend(Header("P3", width, |img|), P3TextAsWritten(img), '\n');
  }

  /** The bytes of a P3 file: its text, character by character, in ASCII. */
  function P3FileBytes(img: Image, width: nat): seq<byte> {
    HeaderShape("P3", width, |img|);
    P3TextLines(img);
    AsciiAppend(Header("P3", width, |img|), P3Text(img));
    Ascii(P3File(img, width))
  }
}

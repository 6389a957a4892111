/**
 * Reading a plain (P3) PPM text back: the text splits into whitespace-separated
 * words, the first four are the magic number, the width, the height and the
 * maximum value, and the rest are the red, green and blue values of the pixels,
 * row after row. The reader states what a P3 file means, so that the encoder of
 * the colour palette can be checked against it.
 */
module P3Reader {

  import opened Ppm

  // ---------------------------------------------------------------------------
  // Words.

  /** The whitespace of the PPM format: blanks, tabs, carriage returns and line feeds. */
  predicate IsSpace(ch: char) {
    ch == ' ' || ch == '\t' || ch == '\r' || ch == '\n'
  }

  predicate NoSpace(s: string) {
    forall i :: 0 <= i < |s| ==> !IsSpace(s[i])
  }

  /** The length of the word at the front of s: everything before its first whitespace. */
  function WordLength(s: string): (n: nat)
    ensures n <= |s|
    ensures forall i :: 0 <= i < n ==> !IsSpace(s[i])
    ensures n < |s| ==> IsSpace(s[n])
  {
    if s == [] || IsSpace(s[0]) then 0 else 1 + WordLength(s[1..])
  }

  /** The word at the front of s ends exactly at the first whitespace. */
  lemma {:induction false} WordLengthIs(s: string, n: nat)
    requires n <= |s| && (forall i :: 0 <= i < n ==> !IsSpace(s[i]))
    requires n < |s| ==> IsSpace(s[n])
    ensures WordLength(s) == n
    decreases n
  {
    if n > 0 {
      WordLengthIs(s[1..], n - 1);
    }
  }

  /** The maximal runs of non-whitespace characters of s, in order. */
  function Words(s: string): seq<string>
    decreases |s|
  {
    if s == [] then []
    else if IsSpace(s[0]) then Words(s[1..])
    else
      var n := WordLength(s);
      [s[..n]] + Words(s[n..])
  }

  /** A text that ends in whitespace ends its last word: appending more text starts a new one. */
  predicate EndsWord(s: string) {
    s == [] || IsSpace(s[|s| - 1])
  }

  lemma WordLengthAppend(a: string, b: string)
    requires a != [] && IsSpace(a[|a| - 1])
    ensures WordLength(a + b) == WordLength(a)
  {
    var n := WordLength(a);
    assert n < |a|;
    WordLengthIs(a + b, n);
  }

  /** Words of a text that ends in whitespace do not run into the words that follow it. */
  lemma {:induction false} WordsAppend(a: string, b: string)
    requires EndsWord(a)
    ensures Words(a + b) == Words(a) + Words(b)
    decreases |a|
  {
    if a == [] {
      assert a + b == b;
    } else if IsSpace(a[0]) {
      assert (a + b)[1..] == a[1..] + b;
      WordsAppend(a[1..], b);
    } else {
      var n := WordLength(a);
      WordLengthAppend(a, b);
      assert (a + b)[..n] == a[..n];
      assert (a + b)[n..] == a[n..] + b;
      WordsAppend(a[n..], b);
    }
  }

  /** A word, a whitespace character and the rest: the word comes first, then the rest's words. */
  lemma WordsLead(w: string, sp: char, rest: string)
    requires w != [] && NoSpace(w) && IsSpace(sp)
    ensures Words(w + ([sp] + rest)) == [w] + Words(rest)
  {
    var s := w + ([sp] + rest);
    WordLengthIs(s, |w|);
    assert s[..|w|] == w && s[|w|..] == [sp] + rest;
    assert ([sp] + rest)[1..] == rest;
  }

  /** Words, each followed by its own whitespace character. */
  function Separated(ws: seq<string>, seps: string): string
    requires |ws| == |seps|
  {
    if ws == [] then [] else ws[0] + ([seps[0]] + Separated(ws[1..], seps[1..]))
  }

  lemma SeparatedCons(w: string, ws: seq<string>, sep: char, seps: string)
    requires |ws| == |seps|
    ensures Separated([w] + ws, [sep] + seps) == w + ([sep] + Separated(ws, seps))
  {
    assert ([w] + ws)[1..] == ws && ([sep] + seps)[1..] == seps;
  }

  predicate AllWords(ws: seq<string>) {
    forall i :: 0 <= i < |ws| ==> ws[i] != [] && NoSpace(ws[i])
  }

  predicate AllSpace(seps: string) {
    forall i :: 0 <= i < |seps| ==> IsSpace(seps[i])
  }

  /** Words written each with a whitespace character after it read back as those words. */
  lemma {:induction false} SeparatedWords(ws: seq<string>, seps: string)
    requires |ws| == |seps| && AllWords(ws) && AllSpace(seps)
    ensures Words(Separated(ws, seps)) == ws
    ensures EndsWord(Separated(ws, seps))
    decreases |ws|
  {
    if ws == [] {
      assert Words([]) == [];
    } else {
      var rest := Separated(ws[1..], seps[1..]);
      SeparatedWords(ws[1..], seps[1..]);
      WordsLead(ws[0], seps[0], rest);
      assert ws == [ws[0]] + ws[1..];
      var s := ws[0] + ([seps[0]] + rest);
      if rest == [] {
        assert s[|s| - 1] == seps[0];
      } else {
        assert s[|s| - 1] == rest[|rest| - 1];
      }
    }
  }

  /**
   * Three numerals separated by blanks and followed by `last`: the text of one pixel
   * (`last` a blank) or of a one-pixel line as colorPalette.c writes it (`last` a newline).
   */
  lemma ThreeSpaced(a: string, b: string, c: string, last: char)
    ensures a + " " + b + " " + c + [last] == Separated([a, b, c], [' ', ' ', last])
  {
    SeparatedCons(c, [], last, []);
    SeparatedCons(b, [c], ' ', [last]);
    SeparatedCons(a, [b, c], ' ', [' ', last]);
    assert a + " " + b + " " + c + [last] == a + ([' '] + (b + ([' '] + (c + ([last] + [])))));
  }

  /** The fields of a header line: magic number, width, height, maximum value. */
  lemma HeaderSpaced(w: string, h: string)
    ensures "P3" + " " + w + " " + h + " 255\n" == Separated(["P3", w, h, "255"], "   \n")
  {
    SeparatedCons("255", [], '\n', []);
    SeparatedCons(h, ["255"], ' ', "\n");
    SeparatedCons(w, [h, "255"], ' ', " \n");
    SeparatedCons("P3", [w, h, "255"], ' ', "  \n");
    assert "P3" + " " + w + " " + h + " 255\n" == "P3" + ([' '] + (w + ([' '] + (h + ([' '] + ("255" + (['\n'] + [])))))));
  }

  /** Two triples back to back and a newline: the last numeral of one runs into the first of the next. */
  lemma RunTogether(r1: string, g1: string, b1: string, r2: string, g2: string, b2: string)
    ensures (r1 + " " + g1 + " " + b1) + (r2 + " " + g2 + " " + b2) + "\n" ==
      Separated([r1, g1, b1 + r2, g2, b2], "    \n")
  {
    SeparatedCons(b2, [], '\n', []);
    SeparatedCons(g2, [b2], ' ', "\n");
    SeparatedCons(b1 + r2, [g2, b2], ' ', " \n");
    SeparatedCons(g1, [b1 + r2, g2, b2], ' ', "  \n");
    SeparatedCons(r1, [g1, b1 + r2, g2, b2], ' ', "   \n");
    var t4 := g2 + ([' '] + (b2 + (['\n'] + [])));
    calc {
      (r1 + " " + g1 + " " + b1) + (r2 + " " + g2 + " " + b2) + "\n";
      (r1 + " " + g1 + " " + b1) + (r2 + ([' '] + t4));
      r1 + ([' '] + (g1 + ([' '] + (b1 + (r2 + ([' '] + t4))))));
      { assert b1 + (r2 + ([' '] + t4)) == (b1 + r2) + ([' '] + t4); }
      r1 + ([' '] + (g1 + ([' '] + ((b1 + r2) + ([' '] + t4)))));
    }
  }

  lemma DecimalNoSpace(n: nat)
    ensures Decimal(n) != [] && NoSpace(Decimal(n))
  {
    var d := Decimal(n);
    forall i | 0 <= i < |d|
      ensures !IsSpace(d[i])
    {
      assert IsDigit(d[i]);
    }
  }

  // ---------------------------------------------------------------------------
  // The words of an encoded image.

  /** The three numerals of a pixel. */
  function PixelWords(c: Rgb): (ws: seq<string>)
    ensures |ws| == 3
  {
    [Decimal(c.red as nat), Decimal(c.green as nat), Decimal(c.blue as nat)]
  }

  function RowWords(row: seq<Rgb>): (ws: seq<string>)
    ensures |ws| == 3 * |row|
  {
    ConcatUniformLength(seq(|row|, k requires 0 <= k < |row| => PixelWords(row[k])), 3);
    Concat(seq(|row|, k requires 0 <= k < |row| => PixelWords(row[k])))
  }

  function ImageWords(img: Image): seq<string> {
    Concat(seq(|img|, r requires 0 <= r < |img| => RowWords(img[r])))
  }

  lemma RowWordsSnoc(row: seq<Rgb>, c: Rgb)
    ensures RowWords(row + [c]) == RowWords(row) + PixelWords(c)
  {
    var chunks := seq(|row|, k requires 0 <= k < |row| => PixelWords(row[k]));
    assert seq(|row + [c]|, k requires 0 <= k < |row + [c]| => PixelWords((row + [c])[k])) == chunks + [PixelWords(c)];
    ConcatLast(chunks, PixelWords(c));
  }

  lemma ImageWordsSnoc(img: Image, row: seq<Rgb>)
    ensures ImageWords(img + [row]) == ImageWords(img) + RowWords(row)
  {
    var chunks := seq(|img|, r requires 0 <= r < |img| => RowWords(img[r]));
    assert seq(|img + [row]|, r requires 0 <= r < |img + [row]| => RowWords((img + [row])[r])) == chunks + [RowWords(row)];
    ConcatLast(chunks, RowWords(row));
  }

  /** The text of one pixel holds exactly its three numerals. */
  lemma PixelTextWords(c: Rgb)
    ensures EndsWord(PixelText(c)) && Words(PixelText(c)) == PixelWords(c)
  {
    var r, g, b := Decimal(c.red as nat), Decimal(c.green as nat), Decimal(c.blue as nat);
    DecimalNoSpace(c.red as nat);
    DecimalNoSpace(c.green as nat);
    DecimalNoSpace(c.blue as nat);
    ThreeSpaced(r, g, b, ' ');
    SeparatedWords([r, g, b], "   ");
  }

  lemma {:induction false} PixelsTextWords(row: seq<Rgb>)
    ensures EndsWord(PixelsText(row)) && Words(PixelsText(row)) == RowWords(row)
    decreases |row|
  {
    if row == [] {
      assert PixelsText(row) == [];
      assert RowWords(row) == [];
    } else {
      var m := |row| - 1;
      assert row == row[..m] + [row[m]];
      PixelsTextWords(row[..m]);
      PixelsTextSnoc(row[..m], row[m]);
      RowWordsSnoc(row[..m], row[m]);
      PixelTextWords(row[m]);
      WordsAppend(PixelsText(row[..m]), PixelText(row[m]));
    }
  }

  /** One P3 line holds the numerals of its row's pixels, in order. */
  lemma P3LineWords(row: seq<Rgb>)
    ensures EndsWord(P3Line(row)) && Words(P3Line(row)) == RowWords(row)
  {
    PixelsTextWords(row);
    WordsAppend(PixelsText(row), "\n");
    assert Words("\n") == Words([]);
  }

  lemma {:induction false} P3TextWords(img: Image)
    ensures EndsWord(P3Text(img)) && Words(P3Text(img)) == ImageWords(img)
    decreases |img|
  {
    if img == [] {
      assert P3Text(img) == [];
      assert ImageWords(img) == [];
    } else {
      var m := |img| - 1;
      assert img == img[..m] + [img[m]];
      P3TextWords(img[..m]);
      P3TextSnoc(img[..m], img[m]);
      ImageWordsSnoc(img[..m], img[m]);
      P3LineWords(img[m]);
      WordsAppend(P3Text(img[..m]), P3Line(img[m]));
    }
  }

  /** The words of a header line: its magic number, width, height and maximum value. */
  lemma HeaderWords(width: nat, height: nat)
    ensures EndsWord(Header("P3", width, height))
    ensures Words(Header("P3", width, height)) == ["P3", Decimal(width), Decimal(height), "255"]
  {
    DecimalNoSpace(width);
    DecimalNoSpace(height);
    HeaderSpaced(Decimal(width), Decimal(height));
    SeparatedWords(["P3", Decimal(width), Decimal(height), "255"], "   \n");
  }

  // ---------------------------------------------------------------------------
  // Reading.

  /** A channel value: a numeral no greater than the maximum value 255. */
  function ReadValue(w: string): (r: Option<byte>)
    ensures r.Some? ==> AllDigits(w) && DecimalValue(w) == r.value as nat
  {
    if w != [] && AllDigits(w) && DecimalValue(w) < 256 then Some(DecimalValue(w) as byte) else None
  }

  function ReadPixel(ws: seq<string>): Option<Rgb>
    requires |ws| == 3
  {
    var r, g, b := ReadValue(ws[0]), ReadValue(ws[1]), ReadValue(ws[2]);
    if r.Some? && g.Some? && b.Some? then Some(Rgb(r.value, g.value, b.value)) else None
  }

  /** The pixels of a run of words, three words per pixel. */
  function ReadRow(ws: seq<string>): (r: Option<seq<Rgb>>)
    ensures r.Some? ==> |ws| == 3 * |r.value|
    decreases |ws|
  {
    if ws == [] then Some([])
    else if |ws| < 3 then None
    else
      var front, last := ReadRow(ws[..|ws| - 3]), ReadPixel(ws[|ws| - 3..]);
      if front.Some? && last.Some? then Some(front.value + [last.value]) else None
  }

  /** `height` rows of `width` pixels, which must use up the words exactly. */
  function ReadRows(ws: seq<string>, width: nat, height: nat): (r: Option<Image>)
    ensures r.Some? ==> |r.value| == height && IsRectangular(r.value, width)
    decreases height
  {
    if height == 0 then (if ws == [] then Some([]) else None)
    else if |ws| < 3 * width then None
    else
      var cut := |ws| - 3 * width;
      var front, last := ReadRows(ws[..cut], width, height - 1), ReadRow(ws[cut..]);
      if front.Some? && last.Some? then Some(front.value + [last.value]) else None
  }

  predicate IsNumeral(w: string) {
    w != [] && AllDigits(w)
  }

  /**
   * The image described by the words of a P3 text: the magic number, a width, a
   * height and the maximum value 255, then exactly the values of height rows of
   * width pixels.
   */
  function ReadWords(ws: seq<string>): Option<Image> {
    if |ws| < 4 || ws[0] != "P3" || !IsNumeral(ws[1]) || !IsNumeral(ws[2]) || ws[3] != "255" then None
    else ReadRows(ws[4..], DecimalValue(ws[1]), DecimalValue(ws[2]))
  }

  /** The image a P3 text describes, if it is a well-formed P3 text with maximum value 255. */
  function ReadP3(text: string): Option<Image> {
    ReadWords(Words(text))
  }

  // ---------------------------------------------------------------------------
  // Round trip.

  lemma ReadValueDecimal(b: byte)
    ensures ReadValue(Decimal(b as nat)) == Some(b)
  {
    DecimalRoundTrip(b as nat);
  }

  lemma ReadPixelWords(c: Rgb)
    ensures ReadPixel(PixelWords(c)) == Some(c)
  {
    ReadValueDecimal(c.red);
    ReadValueDecimal(c.green);
    ReadValueDecimal(c.blue);
  }

  lemma {:induction false} ReadRowWords(row: seq<Rgb>)
    ensures ReadRow(RowWords(row)) == Some(row)
    decreases |row|
  {
    if row == [] {
      assert RowWords(row) == [];
    } else {
      var m := |row| - 1;
      assert row == row[..m] + [row[m]];
      RowWordsSnoc(row[..m], row[m]);
      var ws := RowWords(row);
      assert ws[..|ws| - 3] == RowWords(row[..m]);
      assert ws[|ws| - 3..] == PixelWords(row[m]);
      ReadRowWords(row[..m]);
      ReadPixelWords(row[m]);
    }
  }

  lemma {:induction false} ReadRowsWords(img: Image, width: nat)
    requires IsRectangular(img, width)
    ensures ReadRows(ImageWords(img), width, |img|) == Some(img)
    decreases |img|
  {
    if img == [] {
      assert ImageWords(img) == [];
    } else {
      var m := |img| - 1;
      assert img == img[..m] + [img[m]];
      ImageWordsSnoc(img[..m], img[m]);
      var ws := ImageWords(img);
      var cut := |ws| - 3 * width;
      assert ws[..cut] == ImageWords(img[..m]);
      assert ws[cut..] == RowWords(img[m]);
      ReadRowsWords(img[..m], width);
      ReadRowWords(img[m]);
    }
  }

  /** The words of a whole P3 file: the four header words, then every pixel's numerals. */
  lemma P3FileWords(img: Image, width: nat)
    ensures Words(P3File(img, width)) == ["P3", Decimal(width), Decimal(|img|), "255"] + ImageWords(img)
  {
    HeaderWords(width, |img|);
    P3TextWords(img);
    WordsAppend(Header("P3", width, |img|), P3Text(img));
  }

  /** Reading a P3 file back gives the image that was written. */
  lemma P3RoundTrip(img: Image, width: nat)
    requires IsRectangular(img, width)
    ensures ReadP3(P3File(img, width)) == Some(img)
  {
    P3FileWords(img, width);
    ReadHeader(width, |img|, ImageWords(img));
    ReadRowsWords(img, width);
  }

  /** A header written by the encoder is accepted, and announces its own width and height. */
  lemma ReadHeader(width: nat, height: nat, rest: seq<string>)
    ensures ReadWords(["P3", Decimal(width), Decimal(height), "255"] + rest) == ReadRows(rest, width, height)
  {
    var ws := ["P3", Decimal(width), Decimal(height), "255"] + rest;
    assert ws[4..] == rest;
    DecimalRoundTrip(width);
    DecimalRoundTrip(height);
  }

  // ---------------------------------------------------------------------------
  // The line as colorPalette.c writes it.

  /**
   * Two pixels written back to back with no separator: the blue value of the first
   * and the red value of the second run together into one word, so the line holds
   * five numerals where a row of two pixels needs six.
   */
  lemma TwoPixelLineAsWritten(c: Rgb, d: Rgb)
    ensures Words(P3LineAsWritten([c, d])) == [Decimal(c.red as nat), Decimal(c.green as nat),
                      Decimal(c.blue as nat) + Decimal(d.red as nat),
                      Decimal(d.green as nat), Decimal(d.blue as nat)]
  {
    var r1, g1, b1 := Decimal(c.red as nat), Decimal(c.green as nat), Decimal(c.blue as nat);
    var r2, g2, b2 := Decimal(d.red as nat), Decimal(d.green as nat), Decimal(d.blue as nat);
    DecimalNoSpace(c.red as nat);
    DecimalNoSpace(c.green as nat);
    DecimalNoSpace(c.blue as nat);
    DecimalNoSpace(d.red as nat);
    DecimalNoSpace(d.green as nat);
    DecimalNoSpace(d.blue as nat);
    NoSpaceAppend(b1, r2);
    TwoPixelLine(c, d);
    RunTogether(r1, g1, b1, r2, g2, b2);
    SeparatedWords([r1, g1, b1 + r2, g2, b2], "    \n");
  }

  lemma NoSpaceAppend(a: string, b: string)
    requires NoSpace(a) && NoSpace(b)
    ensures NoSpace(a + b)
  {
    forall i | 0 <= i < |a + b|
      ensures !IsSpace((a + b)[i])
    {
      if i >= |a| {
        assert (a + b)[i] == b[i - |a|];
      }
    }
  }

  lemma TwoPixelLine(c: Rgb, d: Rgb)
    ensures P3LineAsWritten([c, d]) == Triple(c) + Triple(d) + "\n"
  {
    var row := [c, d];
    var triples := seq(|row|, k requires 0 <= k < |row| => Triple(row[k]));
    assert triples == [Triple(c)] + [Triple(d)];
    ConcatLast([Triple(c)], Triple(d));
    assert [] + [Triple(c)] == [Triple(c)];
    ConcatLast([], Triple(c));
    assert Concat(triples) == Triple(c) + Triple(d);
  }

  /**
   * A palette one colour high and two pixels wide, written as colorPalette.c writes
   * it, is not a readable P3 file: its header announces 2 x 1 pixels, six values,
   * and the text holds five.
   */
  lemma AsWrittenUnreadable(c: Rgb)
    ensures ReadP3(P3FileAsWritten([[c, c]], 2)) == None
    ensures ReadP3(P3File([[c, c]], 2)) == Some([[c, c]])
  {
    var img := [[c, c]];
    var lines := seq(|img|, r requires 0 <= r < |img| => P3LineAsWritten(img[r]));
    assert lines == [P3LineAsWritten([c, c])];
    assert Concat(lines) == P3LineAsWritten([c, c]) by {
      ConcatLast([], P3LineAsWritten([c, c]));
    }
    HeaderWords(2, 1);
    TwoPixelLineAsWritten(c, c);
    WordsAppend(Header("P3", 2, 1), P3LineAsWritten([c, c]));
    var line := Words(P3LineAsWritten([c, c]));
    ReadHeader(2, 1, line);
    assert ReadRows(line, 2, 1) == None;
    P3RoundTrip(img, 2);
  }

  // ---------------------------------------------------------------------------
  // One pixel per row: the format as written is still readable.

  /** A one-pixel line as written holds exactly the three numerals of its pixel. */
  lemma OnePixelLineWords(c: Rgb)
    ensures EndsWord(P3LineAsWritten([c])) && Words(P3LineAsWritten([c])) == RowWords([c])
  {
    var r, g, b := Decimal(c.red as nat), Decimal(c.green as nat), Decimal(c.blue as nat);
    TriplesTextSnoc([], c);
    assert [] + [c] == [c];
    assert TriplesText([]) == [];
    assert P3LineAsWritten([c]) == r + " " + g + " " + b + "\n";
    RowWordsSnoc([], c);
    assert RowWords([]) == [];
    DecimalNoSpace(c.red as nat);
    DecimalNoSpace(c.green as nat);
    DecimalNoSpace(c.blue as nat);
    ThreeSpaced(r, g, b, '\n');
    SeparatedWords([r, g, b], "  \n");
  }

  lemma {:induction false} OneColumnTextWords(img: Image)
    requires IsRectangular(img, 1)
    ensures EndsWord(P3TextAsWritten(img)) && Words(P3TextAsWritten(img)) == ImageWords(img)
    decreases |img|
  {
    if img == [] {
      assert P3TextAsWritten(img) == [];
      assert ImageWords(img) == [];
    } else {
      var m := |img| - 1;
      assert img == img[..m] + [img[m]];
      assert img[m] == [img[m][0]];
      OneColumnTextWords(img[..m]);
      P3TextAsWrittenSnoc(img[..m], img[m]);
      ImageWordsSnoc(img[..m], img[m]);
      OnePixelLineWords(img[m][0]);
      WordsAppend(P3TextAsWritten(img[..m]), P3LineAsWritten(img[m]));
    }
  }

  /**
   * With one pixel per row no two triples share a line, so the file as colorPalette.c
   * writes it reads back as its image: the missing separator matters from width 2 on.
   */
  lemma OneColumnReadsBack(img: Image)
    requires IsRectangular(img, 1)
    ensures ReadP3(P3FileAsWritten(img, 1)) == Some(img)
  {
    HeaderWords(1, |img|);
    OneColumnTextWords(img);
    WordsAppend(Header("P3", 1, |img|), P3TextAsWritten(img));
    ReadHeader(1, |img|, ImageWords(img));
    ReadRowsWords(img, 1);
  }
}

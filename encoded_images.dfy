/**
  The IDX3 image encoder (idx/encoded-images.ts): the `.pgm` files of a
  directory, in the order the sort leaves them, become one IDX3 file. The
  header is magic 0x00000803, the file count, and the rows and cols read
  from the FIRST file's PGM header; the body is every file with its first
  13 bytes dropped, in order, with nothing between them.
 */
module EncodedImages {
  import opened Bytes
  import opened Text
  import opened Records
  import opened DecodedImage

  const IMAGE_MAGIC: int := 0x0000_0803
  const PIXEL_OFFSET: nat := 13

  /** `"\n255\n"` as bytes: where `parsePGMHeader` looks for the end of the text header. */
  const PGM_HEADER_END: seq<byte> := [10, 50, 53, 53, 10]

  /** Width and height from a PGM text header; either may be NaN (`None`). */
  datatype PgmDims = PgmDims(rows: Option<int>, cols: Option<int>)

  /** What `createIDXFile` ends with: nothing to do, an IDX file written, or an exception. */
  datatype IdxOutcome = NoImages | Written(bytes: seq<byte>) | Failed(error: Error)

  // ---------------------------------------------------------------------
  // Choosing the files

  predicate IsPgmName(name: string) {
    |name| >= 4 && name[|name| - 4..] == ".pgm"
  }

  /** `files.filter(file => file.endsWith(".pgm"))`, keeping the listing's order. */
  function PgmEntries(listing: seq<PgmFile>): (r: seq<PgmFile>)
    ensures |r| <= |listing|
    ensures forall f :: f in r <==> f in listing && IsPgmName(f.name)
  {
    if |listing| == 0 then []
    else
      var rest := PgmEntries(listing[1..]);
      assert forall f :: f in listing <==> f == listing[0] || f in listing[1..];
      if IsPgmName(listing[0].name) then [listing[0]] + rest else rest
  }

  /**
    The number captured by `/image-(\d+)\.pgm/` in `name`, or `None` when
    the pattern does not occur (`+undefined` is NaN). The leftmost match
    wins; the greedy digit run cannot end anywhere but before the `.`.
   */
  function ImageNumber(name: string): (r: Option<nat>)
    ensures ImageNumberAtStart(name).Some? ==> r == ImageNumberAtStart(name)
    ensures |name| < |"image-0.pgm"| ==> r.None?
    decreases |name|
  {
    match ImageNumberAtStart(name)
    case Some(n) => Some(n)
    case None => if |name| == 0 then None else ImageNumber(name[1..])
  }

  function ImageNumberAtStart(t: string): Option<nat> {
    if |t| >= 6 && t[..6] == "image-" then
      var d := DigitPrefix(t[6..]);
      var after := t[6 + |d|..];
      if |d| > 0 && |after| >= 4 && after[..4] == ".pgm" then Some(DigitsValue(d)) else None
    else None
  }

  /**
    The comparator given to `files.sort`. It never answers "greater": -1 when
    both names carry numbers and `a`'s is smaller, 0 in every other case.
   */
  function Compare(a: string, b: string): (r: int)
    ensures r == -1 || r == 0
    ensures r == -1 <==>
      ImageNumber(a).Some? && ImageNumber(b).Some? && ImageNumber(a).value < ImageNumber(b).value
  {
    match (ImageNumber(a), ImageNumber(b))
    case (Some(x), Some(y)) => if x < y then -1 else 0
    case _ => 0
  }

  lemma {:induction false} DigitPrefixBeforeDot(d: string, rest: string)
    requires AllDigits(d) && |rest| > 0 && rest[0] == '.'
    ensures DigitPrefix(d + rest) == d
  {
    if |d| > 0 {
      DigitPrefixBeforeDot(d[1..], rest);
      assert (d + rest)[1..] == d[1..] + rest;
      assert [d[0]] + d[1..] == d;
    }
  }

  /** The number in the name `saveImage` gives to image `i` is `i`. */
  lemma ImageNumberOfName(i: nat)
    ensures ImageNumber(ImageFileName(i)) == Some(i)
  {
    var name := ImageFileName(i);
    var d := DecimalString(i);
    assert name[..6] == "image-";
    assert name[6..] == d + ".pgm";
    DigitPrefixBeforeDot(d, ".pgm");
    assert name[6 + |d|..] == ".pgm";
    DecimalRoundTrip(i);
  }

  /** On the decoder's file names the comparator answers -1 exactly when the first index is smaller. */
  lemma CompareImageNames(i: nat, j: nat)
    ensures Compare(ImageFileName(i), ImageFileName(j)) == -1 <==> i < j
    ensures Compare(ImageFileName(i), ImageFileName(j)) == 0 <==> i >= j
  {
    ImageNumberOfName(i);
    ImageNumberOfName(j);
  }

  /**
    The comparator is not antisymmetric: `image-1.pgm` is before `image-2.pgm`,
    but `image-2.pgm` is not after `image-1.pgm`, so the order `sort` leaves
    is up to the JavaScript engine.
   */
  lemma CompareNotAntisymmetric()
    ensures Compare(ImageFileName(1), ImageFileName(2)) == -1
    ensures Compare(ImageFileName(2), ImageFileName(1)) == 0
  {
    CompareImageNames(1, 2);
    CompareImageNames(2, 1);
  }

  // ---------------------------------------------------------------------
  // Reading one PGM file

  predicate KeepHeaderLine(line: string) {
    !(|line| > 0 && line[0] == '#') && Trim(line) != ""
  }

  /** `.filter(line => !line.startsWith("#") && line.trim() !== "")` */
  function HeaderLines(lines: seq<string>): (r: seq<string>)
    ensures |r| <= |lines|
    ensures forall i :: 0 <= i < |r| ==> KeepHeaderLine(r[i])
  {
    if |lines| == 0 then []
    else if KeepHeaderLine(lines[0]) then [lines[0]] + HeaderLines(lines[1..])
    else HeaderLines(lines[1..])
  }

  /** One line is kept, unchanged, exactly when it is neither a comment nor blank. */
  lemma HeaderLinesOne(line: string)
    ensures HeaderLines([line]) == if KeepHeaderLine(line) then [line] else []
  {
    assert [line][1..] == [];
  }

  lemma HeaderLinesCons(line: string, rest: seq<string>)
    ensures HeaderLines([line] + rest) == HeaderLines([line]) + HeaderLines(rest)
  {
    assert ([line] + rest)[1..] == rest;
    HeaderLinesOne(line);
  }

  /** The filter works line by line: the kept lines of `a + b` are those of `a`, then those of `b`, in order. */
  lemma {:induction false} HeaderLinesAppend(a: seq<string>, b: seq<string>)
    ensures HeaderLines(a + b) == HeaderLines(a) + HeaderLines(b)
  {
    if |a| == 0 {
      assert a + b == b;
    } else {
      var x, t := a[0], a[1..];
      calc {
        HeaderLines(a + b);
        { assert a + b == [x] + (t + b); }
        HeaderLines([x] + (t + b));
        { HeaderLinesCons(x, t + b); }
        HeaderLines([x]) + HeaderLines(t + b);
        { HeaderLinesAppend(t, b); }
        HeaderLines([x]) + (HeaderLines(t) + HeaderLines(b));
        (HeaderLines([x]) + HeaderLines(t)) + HeaderLines(b);
        { assert a == [x] + t; HeaderLinesCons(x, t); }
        HeaderLines(a) + HeaderLines(b);
      }
    }
  }

  /** A comment or blank line anywhere is skipped: removing it does not change what the filter keeps. */
  lemma HeaderLinesDropsSkipped(a: seq<string>, line: string, b: seq<string>)
    requires !KeepHeaderLine(line)
    ensures HeaderLines(a + [line] + b) == HeaderLines(a + b)
  {
    HeaderLinesAppend(a + [line], b);
    HeaderLinesAppend(a, [line]);
    HeaderLinesAppend(a, b);
    HeaderLinesOne(line);
  }

  /**
    The text `parsePGMHeader` decodes: the bytes up to and including the
    `255` of the first `"\n255\n"`, or (when there is none, `indexOf` being
    -1) the first three bytes; never past the end of the buffer.
   */
  function HeaderText(buf: seq<byte>): (t: string)
    ensures |t| <= |buf|
    ensures IndexOf(buf, PGM_HEADER_END) + 4 < |buf| ==> |t| == IndexOf(buf, PGM_HEADER_END) + 4
    ensures t == AsciiDecode(buf[..|t|])
    ensures IndexOf(buf, PGM_HEADER_END) >= 0 ==> |t| >= 3 && t[|t| - 3..] == "255"
  {
    var idx := IndexOf(buf, PGM_HEADER_END);
    var end := if idx + 4 < |buf| then idx + 4 else |buf|;
    var t := AsciiDecode(buf[..end]);
    assert idx >= 0 ==> |t| >= 3 && t[|t| - 3..] == "255" by {
      if idx >= 0 {
        assert buf[idx..idx + 5] == PGM_HEADER_END;
        assert buf[idx + 1] == 50 && buf[idx + 2] == 53 && buf[idx + 3] == 53 by {
          assert buf[idx..idx + 5][1] == buf[idx + 1];
          assert buf[idx..idx + 5][2] == buf[idx + 2];
          assert buf[idx..idx + 5][3] == buf[idx + 3];
        }
        assert |t| == idx + 4;
        assert t[idx + 1] == '2' && t[idx + 2] == '5' && t[idx + 3] == '5';
      }
    }
    t
  }

  /**
    `parsePGMHeader`: the text up to the `255` of the first `"\n255\n"`,
    split into lines; comment and blank lines are dropped and the second
    remaining line is `cols rows`. A missing line is a TypeError; a field
    that is not a number, or is missing, stays NaN (`None`).
   */
  function ParsePgmHeader(buf: seq<byte>): (r: Result<PgmDims>)
    ensures r.Failure? ==> r == Failure(TypeError)
    ensures r.Failure? <==> |HeaderLines(Split(HeaderText(buf), '\n'))| < 2
  {
    var lines := HeaderLines(Split(HeaderText(buf), '\n'));
    if |lines| < 2 then Failure(TypeError)
    else
      var fields := Split(lines[1], ' ');
      var cols := ParseNumber(fields[0]);
      var rows := if |fields| >= 2 then ParseNumber(fields[1]) else None;
      Success(PgmDims(rows, cols))
  }

  /** `buffer.slice(13)`: everything after the first 13 bytes, or nothing. */
  function ExtractPixelData(buf: seq<byte>): (r: seq<byte>)
    ensures |buf| >= PIXEL_OFFSET ==> buf == buf[..PIXEL_OFFSET] + r
    ensures |buf| <= PIXEL_OFFSET ==> r == []
  {
    if |buf| <= PIXEL_OFFSET then [] else buf[PIXEL_OFFSET..]
  }

  lemma TrimInner(s: string)
    requires |s| > 0 && !IsSpace(s[0]) && !IsSpace(s[|s| - 1])
    ensures Trim(s) == s
  {
  }

  /** The `cols rows` line of a saved image. */
  function SizeLine(rows: int, cols: int): string {
    NumberString(cols) + " " + NumberString(rows)
  }

  lemma SizeLineShape(rows: int, cols: int)
    ensures var x := SizeLine(rows, cols);
      && |x| >= 3 && ' ' in x && '\n' !in x && x[0] != '#'
      && Split(x, ' ') == [NumberString(cols), NumberString(rows)]
      && Trim(x) == x
      && IsAscii(x)
  {
    var c, r := NumberString(cols), NumberString(rows);
    NumberStringAscii(cols);
    NumberStringAscii(rows);
    JoinedShape(c, r);
  }

  /** Two space-free words joined by one space: the shape of every size line. */
  lemma JoinedShape(c: string, r: string)
    requires |c| >= 1 && NoSpace(c) && ' ' !in c && '\n' !in c && c[0] != '#' && IsAscii(c)
    requires |r| >= 1 && NoSpace(r) && ' ' !in r && '\n' !in r && IsAscii(r)
    ensures var x := c + " " + r;
      && |x| >= 3 && ' ' in x && '\n' !in x && x[0] != '#'
      && Split(x, ' ') == [c, r]
      && Trim(x) == x
      && IsAscii(x)
  {
    var x := c + " " + r;
    assert x == c + [' '] + r;
    assert x[|c|] == ' ' && x[0] == c[0] && x[|x| - 1] == r[|r| - 1];
    JoinedSplit(c, r);
    TrimInner(x);
    JoinedText(c, r);
  }

  lemma JoinedSplit(c: string, r: string)
    requires ' ' !in c && ' ' !in r
    ensures Split(c + " " + r, ' ') == [c, r]
  {
    assert c + " " + r == c + [' '] + r;
    SplitFirst(c, r, ' ');
    SplitNoSeparator(r, ' ');
  }

  lemma JoinedText(c: string, r: string)
    requires '\n' !in c && '\n' !in r && IsAscii(c) && IsAscii(r)
    ensures '\n' !in c + " " + r && IsAscii(c + " " + r)
  {
    var x := c + " " + r;
    forall k | 0 <= k < |x| ensures x[k] != '\n' && x[k] as int < 128 {
      if k < |c| {
        assert x[k] == c[k];
      } else if k > |c| {
        assert x[k] == r[k - |c| - 1];
      }
    }
  }

  lemma NumberStringAscii(i: int)
    ensures IsAscii(NumberString(i))
    ensures forall k :: 0 <= k < |NumberString(i)| ==> NumberString(i)[k] == '-' || IsDigit(NumberString(i)[k])
  {
    var s := NumberString(i);
    if i < 0 {
      assert s == "-" + DecimalString(-i);
    }
  }

  /** The text header of a saved image is `"P5\n" + x + "\n255\n"` with `x` the size line. */
  lemma PgmHeaderShape(rows: int, cols: int)
    ensures PgmHeader(rows, cols) == "P5\n" + SizeLine(rows, cols) + "\n255\n"
    ensures IsAscii(PgmHeader(rows, cols))
  {
    SizeLineShape(rows, cols);
  }

  /** In a saved image the first `"\n255\n"` is the one that ends the text header. */
  lemma HeaderEndFound(rows: int, cols: int, record: seq<byte>)
    ensures var data := SaveImage(record, rows, cols, 0).data;
      IndexOf(data, PGM_HEADER_END) == 3 + |SizeLine(rows, cols)|
  {
    SizeLineShape(rows, cols);
    PgmHeaderShape(rows, cols);
    HeaderEndAt(SizeLine(rows, cols), record);
  }

  /** The same for any size line: ASCII, at least three characters, a space and no newline. */
  lemma HeaderEndAt(x: string, record: seq<byte>)
    requires |x| >= 3 && ' ' in x && '\n' !in x && IsAscii(x)
    ensures IndexOf(AsciiEncode("P5\n" + x + "\n255\n") + record, PGM_HEADER_END) == 3 + |x|
  {
    var h := "P5\n" + x + "\n255\n";
    var data := AsciiEncode(h) + record;
    var p := 3 + |x|;
    forall k | 0 <= k < |h| ensures data[k] == h[k] as int {
      assert data[k] == AsciiEncode(h)[k];
      if 3 <= k < p {
        assert h[k] == x[k - 3];
      }
    }
    assert h[p..p + 5] == "\n255\n";
    assert data[p..p + 5] == PGM_HEADER_END;
    forall j | 0 <= j < p
      ensures !MatchAt(data, PGM_HEADER_END, j)
    {
      NoEarlyMatch(x, data, j);
    }
    assert MatchAt(data, PGM_HEADER_END, p);
  }

  /** No `"\n255\n"` starts before the newline that ends the size line. */
  lemma NoEarlyMatch(x: string, data: seq<byte>, j: nat)
    requires |x| >= 3 && ' ' in x && '\n' !in x && j < 3 + |x|
    requires |data| >= |"P5\n" + x + "\n255\n"|
    requires forall k :: 0 <= k < |"P5\n" + x + "\n255\n"| ==> data[k] == ("P5\n" + x + "\n255\n")[k] as int
    ensures !MatchAt(data, PGM_HEADER_END, j)
  {
    var h := "P5\n" + x + "\n255\n";
    if j != 2 {
      assert data[j] != 10 by {
        assert data[j] == h[j] as int;
        if j >= 3 { assert h[j] == x[j - 3]; }
      }
      if j + 5 <= |data| {
        assert data[j..j + 5][0] == data[j];
      }
    } else if |x| == 3 {
      var sp :| 0 <= sp < 3 && x[sp] == ' ';
      assert data[3 + sp] == h[3 + sp] as int == 32;
      assert data[j..j + 5][1 + sp] == data[3 + sp];
    } else {
      assert data[6] == h[6] as int == x[3] as int;
      assert data[j..j + 5][4] == data[6];
    }
  }

  /** The text `parsePGMHeader` decodes from a saved image: everything before the final newline of its header. */
  lemma HeaderTextOfSaved(record: seq<byte>, rows: int, cols: int)
    ensures var data := SaveImage(record, rows, cols, 0).data;
      var end := IndexOf(data, PGM_HEADER_END) + 4;
      && end < |data|
      && AsciiDecode(data[..end]) == "P5" + ['\n'] + (SizeLine(rows, cols) + ['\n'] + "255")
  {
    SizeLineShape(rows, cols);
    PgmHeaderShape(rows, cols);
    HeaderEndFound(rows, cols, record);
    HeaderTextAt(SizeLine(rows, cols), record);
  }

  /** The text before the final newline of `"P5\n" + x + "\n255\n"`, read back from the bytes. */
  lemma HeaderTextAt(x: string, record: seq<byte>)
    requires IsAscii(x)
    ensures var data := AsciiEncode("P5\n" + x + "\n255\n") + record;
      var end := 3 + |x| + 4;
      && end < |data|
      && AsciiDecode(data[..end]) == "P5" + ['\n'] + (x + ['\n'] + "255")
  {
    var h := "P5\n" + x + "\n255\n";
    var data := AsciiEncode(h) + record;
    var end := 3 + |x| + 4;
    assert data[..end] == AsciiEncode(h[..end]);
    assert h[..end] == "P5" + ['\n'] + (x + ['\n'] + "255");
    forall k | 0 <= k < end ensures h[k] as int < 128 {
      if 3 <= k < 3 + |x| {
        assert h[k] == x[k - 3];
      }
    }
    AsciiRoundTrip(h[..end]);
  }

  lemma {:induction false} HeaderLinesKeepAll(lines: seq<string>)
    requires forall i :: 0 <= i < |lines| ==> KeepHeaderLine(lines[i])
    ensures HeaderLines(lines) == lines
  {
    if |lines| > 0 {
      HeaderLinesKeepAll(lines[1..]);
    }
  }

  lemma SplitSavedHeader(rows: int, cols: int)
    ensures Split("P5" + ['\n'] + (SizeLine(rows, cols) + ['\n'] + "255"), '\n')
         == ["P5", SizeLine(rows, cols), "255"]
  {
    var x := SizeLine(rows, cols);
    SizeLineShape(rows, cols);
    var tail := x + ['\n'] + "255";
    SplitNoSeparator("255", '\n');
    SplitFirst(x, "255", '\n');
    assert Split(tail, '\n') == [x, "255"];
    SplitFirst("P5", tail, '\n');
  }

  /** The three lines of a saved header survive the comment and blank-line filter, and the second is the size line. */
  lemma HeaderLinesOfSaved(rows: int, cols: int)
    ensures HeaderLines(Split("P5" + ['\n'] + (SizeLine(rows, cols) + ['\n'] + "255"), '\n'))
         == ["P5", SizeLine(rows, cols), "255"]
  {
    var x := SizeLine(rows, cols);
    SplitSavedHeader(rows, cols);
    SizeLineShape(rows, cols);
    TrimInner("P5");
    TrimInner("255");
    var lines := ["P5", x, "255"];
    assert KeepHeaderLine(lines[0]) && KeepHeaderLine(lines[1]) && KeepHeaderLine(lines[2]);
    HeaderLinesKeepAll(lines);
  }

  /** `parsePGMHeader` reads back the size that `saveImage` wrote, whatever the record holds. */
  lemma PgmHeaderRoundTrip(record: seq<byte>, rows: int, cols: int, index: nat)
    ensures ParsePgmHeader(SaveImage(record, rows, cols, index).data) == Success(PgmDims(Some(rows), Some(cols)))
  {
    var data := SaveImage(record, rows, cols, index).data;
    assert data == SaveImage(record, rows, cols, 0).data;
    HeaderTextOfSaved(record, rows, cols);
    var end := IndexOf(data, PGM_HEADER_END) + 4;
    var text := AsciiDecode(data[..end]);
    assert text == "P5" + ['\n'] + (SizeLine(rows, cols) + ['\n'] + "255");
    HeaderLinesOfSaved(rows, cols);
    var lines := HeaderLines(Split(text, '\n'));
    assert lines[1] == SizeLine(rows, cols);
    SizeLineShape(rows, cols);
    var fields := Split(lines[1], ' ');
    assert fields == [NumberString(cols), NumberString(rows)];
    NumberRoundTrip(rows);
    NumberRoundTrip(cols);
  }

  /**
    Dropping 13 bytes recovers the record of a saved image exactly when its
    text header is 13 bytes long, i.e. when the two numbers have four
    characters together (as 28 and 28 do).
   */
  lemma ExtractPixelDataOfSaved(record: seq<byte>, rows: int, cols: int, index: nat)
    requires |record| > 0
    ensures ExtractPixelData(SaveImage(record, rows, cols, index).data) == record
        <==> |NumberString(cols)| + |NumberString(rows)| == 4
  {
    var data := SaveImage(record, rows, cols, index).data;
    var hl := 9 + |NumberString(cols)| + |NumberString(rows)|;
    assert |data| == hl + |record|;
    if hl == PIXEL_OFFSET {
      assert data[PIXEL_OFFSET..] == data[|data| - |record|..];
    } else {
      assert |ExtractPixelData(data)| != |record|;
    }
  }

  lemma MnistSizeLine()
    ensures |NumberString(28)| == 2
  {
  }

  // ---------------------------------------------------------------------
  // Building the IDX3 file

  /** An IDX3 file: magic, count, rows, cols as big-endian 32-bit integers, then the records. */
  function ImageFile(rows: int, cols: int, pixels: seq<seq<byte>>): (f: seq<byte>)
    requires IsInt32(rows) && IsInt32(cols) && IsInt32(|pixels|)
    ensures |f| == HEADER_BYTES + |Flatten(pixels)|
    ensures f[HEADER_BYTES..] == Flatten(pixels)
  {
    WriteInt32BE(IMAGE_MAGIC) + WriteInt32BE(|pixels|) + WriteInt32BE(rows) + WriteInt32BE(cols)
    + Flatten(pixels)
  }

  /** The header fields sit at offsets 0, 4, 8 and 12, and the body follows unchanged. */
  lemma ImageFileLayout(rows: int, cols: int, pixels: seq<seq<byte>>)
    requires IsInt32(rows) && IsInt32(cols) && IsInt32(|pixels|)
    ensures var f := ImageFile(rows, cols, pixels);
      && |f| == HEADER_BYTES + |Flatten(pixels)|
      && Int32BE(f, 0) == IMAGE_MAGIC && Int32BE(f, 4) == |pixels|
      && Int32BE(f, 8) == rows && Int32BE(f, 12) == cols
      && f[HEADER_BYTES..] == Flatten(pixels)
  {
    var f := ImageFile(rows, cols, pixels);
    Int32FieldAt(f, 0, IMAGE_MAGIC);
    Int32FieldAt(f, 4, |pixels|);
    Int32FieldAt(f, 8, rows);
    Int32FieldAt(f, 12, cols);
  }

  /** Decoding an encoded file gives back every record, in order, under its index. */
  lemma DecodeEncoded(rows: int, cols: int, pixels: seq<seq<byte>>)
    requires IsInt32(rows) && IsInt32(cols) && IsInt32(|pixels|)
    requires rows * cols > 0 && Uniform(pixels, rows * cols)
    ensures ValidFirstChunk(ImageFile(rows, cols, pixels))
    ensures DecodedImages(ImageFile(rows, cols, pixels)) == SavedImages(pixels, rows, cols)
  {
    ImageFileLayout(rows, cols, pixels);
    ChunksOfFlatten(pixels, rows * cols);
  }

  /** The pixel data of every file, in order. */
  function Pixels(files: seq<PgmFile>): (r: seq<seq<byte>>)
    ensures |r| == |files|
  {
    seq(|files|, i requires 0 <= i < |files| => ExtractPixelData(files[i].data))
  }

  /** When the size line has four characters, the pixel data of every saved image is its record. */
  lemma PixelsOfSaved(recs: seq<seq<byte>>, rows: int, cols: int)
    requires forall i :: 0 <= i < |recs| ==> |recs[i]| > 0
    requires |NumberString(cols)| + |NumberString(rows)| == 4
    ensures Pixels(SavedImages(recs, rows, cols)) == recs
  {
    var files := SavedImages(recs, rows, cols);
    forall i | 0 <= i < |recs| ensures Pixels(files)[i] == recs[i] {
      ExtractPixelDataOfSaved(recs[i], rows, cols, i);
    }
  }

  /**
    The list can be encoded: it is not empty, the first header has a size
    line, and the count and both sizes fit 32 bits (a NaN size is written as 0).
   */
  predicate Encodable(files: seq<PgmFile>) {
    && |files| > 0
    && ParsePgmHeader(files[0].data).Success?
    && IsInt32(|files|)
    && IsInt32(Stored(ParsePgmHeader(files[0].data).value.rows))
    && IsInt32(Stored(ParsePgmHeader(files[0].data).value.cols))
  }

  /**
    `createIDXFile`: `listing` is the directory, `sorted` the `.pgm` entries
    in the order `files.sort` left them (any permutation: the comparator does
    not determine one).
   */
  method CreateIdxFile(listing: seq<PgmFile>, sorted: seq<PgmFile>) returns (out: IdxOutcome)
    requires multiset(sorted) == multiset(PgmEntries(listing))
    ensures out == NoImages <==> |PgmEntries(listing)| == 0
    ensures out.Written? <==> Encodable(sorted)
    ensures |sorted| > 0 && ParsePgmHeader(sorted[0].data).Failure? ==> out == Failed(TypeError)
    ensures |sorted| > 0 && ParsePgmHeader(sorted[0].data).Success? && !Encodable(sorted) ==> out == Failed(RangeError)
    ensures out.Written? ==>
      var dims := ParsePgmHeader(sorted[0].data).value;
      out.bytes == ImageFile(Stored(dims.rows), Stored(dims.cols), Pixels(sorted))
  {
    var files := PgmEntries(listing);
    assert |sorted| == |files|;
    if |files| == 0 {
      return NoImages;
    }
    var parsed := ParsePgmHeader(sorted[0].data);
    if parsed.Failure? {
      return Failed(parsed.error);
    }
    var rows, cols := Stored(parsed.value.rows), Stored(parsed.value.cols);
    var numImages := |sorted|;
    if !IsInt32(numImages) || !IsInt32(rows) || !IsInt32(cols) {
      return Failed(RangeError);
    }
    var headerBuffer := WriteInt32BE(IMAGE_MAGIC) + WriteInt32BE(numImages) + WriteInt32BE(rows) + WriteInt32BE(cols);
    var outputBuffer := ConcatPixels(headerBuffer, sorted);
    out := Written(outputBuffer);
  }

  /** The `for (const file of files)` loop and `Buffer.concat`: the header, then every file's pixels in order. */
  method ConcatPixels(headerBuffer: seq<byte>, files: seq<PgmFile>) returns (outputBuffer: seq<byte>)
    ensures outputBuffer == headerBuffer + Flatten(Pixels(files))
  {
    var imageBuffers := [headerBuffer];
    for k := 0 to |files|
      invariant imageBuffers == [headerBuffer] + Pixels(files)[..k]
    {
      var pixelData := ExtractPixelData(files[k].data);
      imageBuffers := imageBuffers + [pixelData];
      assert Pixels(files)[..k + 1] == Pixels(files)[..k] + [pixelData];
    }
    assert Pixels(files)[..|files|] == Pixels(files);
    FlattenConcat([headerBuffer], Pixels(files));
    outputBuffer := Flatten(imageBuffers);
  }

  /**
    Decoding an MNIST-shaped file into PGM files and encoding those files
    again, in index order, gives back the original file byte for byte,
    provided the header's count matches the body and the two size numbers
    have four characters together (so that dropping 13 bytes is exact).
   */
  lemma ReencodeDecoded(file: seq<byte>)
    requires ValidFirstChunk(file)
    requires Int32BE(file, 0) == IMAGE_MAGIC
    requires (|file| - HEADER_BYTES) % ImageSize(file) == 0
    requires Int32BE(file, 4) == (|file| - HEADER_BYTES) / ImageSize(file)
    requires |NumberString(Int32BE(file, 12))| + |NumberString(Int32BE(file, 8))| == 4
    ensures Encodable(DecodedImages(file)) || |DecodedImages(file)| == 0
    ensures |DecodedImages(file)| > 0 ==>
      ImageFile(Int32BE(file, 8), Int32BE(file, 12), Pixels(DecodedImages(file))) == file
  {
    var rows, cols := Int32BE(file, 8), Int32BE(file, 12);
    var size := ImageSize(file);
    var body := file[HEADER_BYTES..];
    var recs := Chunks(body, size);
    var files := DecodedImages(file);
    assert files == SavedImages(recs, rows, cols);
    ChunksCount(body, size);
    ChunksConserve(body, size);
    assert Remainder(body, size) == [];
    assert body == Flatten(recs);
    PixelsOfSaved(recs, rows, cols);
    if |files| > 0 {
      PgmHeaderRoundTrip(recs[0], rows, cols, 0);
      ImageFileLayout(rows, cols, recs);
      var f := ImageFile(rows, cols, recs);
      assert f[..HEADER_BYTES] == file[..HEADER_BYTES] by {
        HeaderBytesDetermined(f, file);
      }
      assert f == f[..HEADER_BYTES] + f[HEADER_BYTES..];
      assert file == file[..HEADER_BYTES] + file[HEADER_BYTES..];
    }
  }

  /** Two buffers that agree on the four header fields agree on the first 16 bytes. */
  lemma HeaderBytesDetermined(a: seq<byte>, b: seq<byte>)
    requires |a| >= HEADER_BYTES && |b| >= HEADER_BYTES
    requires Int32BE(a, 0) == Int32BE(b, 0) && Int32BE(a, 4) == Int32BE(b, 4)
    requires Int32BE(a, 8) == Int32BE(b, 8) && Int32BE(a, 12) == Int32BE(b, 12)
    ensures a[..HEADER_BYTES] == b[..HEADER_BYTES]
  {
    Int32FieldDetermined(a, b, 0);
    Int32FieldDetermined(a, b, 4);
    Int32FieldDetermined(a, b, 8);
    Int32FieldDetermined(a, b, 12);
    assert a[..HEADER_BYTES] == a[0..4] + a[4..8] + a[8..12] + a[12..16];
    assert b[..HEADER_BYTES] == b[0..4] + b[4..8] + b[8..12] + b[12..16];
  }
}

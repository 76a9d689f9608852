/**
  The streaming IDX3 image decoder (src/decoded/decoded-image.ts).

  The first chunk of the file stream carries the 16-byte header: magic,
  image count, rows and cols, each a big-endian signed 32-bit integer. The
  rest of that chunk, and every later chunk, is appended to an accumulator;
  each complete `rows*cols` record at its front is cut off, written out as a
  binary PGM file `image-<index>.pgm`, and the running index advances.
  Neither the magic number nor the declared count is ever checked: records
  are emitted for as long as bytes last.
 */
module DecodedImage {
  import opened Bytes
  import opened Text
  import opened Records

  const HEADER_BYTES: nat := 16

  datatype ImageHeader = ImageHeader(magic: int, count: int, rows: int, cols: int)

  /** The four header fields at offsets 0, 4, 8 and 12 of the first chunk. */
  function ReadImageHeader(chunk: seq<byte>): (h: ImageHeader)
    requires |chunk| >= HEADER_BYTES
    ensures IsInt32(h.magic) && IsInt32(h.count) && IsInt32(h.rows) && IsInt32(h.cols)
  {
    ImageHeader(Int32BE(chunk, 0), Int32BE(chunk, 4), Int32BE(chunk, 8), Int32BE(chunk, 12))
  }

  /** One file written to the output directory. */
  datatype PgmFile = PgmFile(name: string, data: seq<byte>)

  /** The text header of a binary PGM: magic `P5`, width and height, maximum grey 255. */
  function PgmHeader(rows: int, cols: int): (r: string)
    ensures "P5\n" <= r
    ensures |r| == 9 + |NumberString(cols)| + |NumberString(rows)|
    ensures r[|r| - 5..] == "\n255\n"
  {
    "P5\n" + NumberString(cols) + " " + NumberString(rows) + "\n255\n"
  }

  /** The name `saveImage` gives image `index`: `image-<index>.pgm`, the index in decimal. */
  function ImageFileName(index: nat): (r: string)
    ensures "image-" <= r && |r| >= |"image-0.pgm"| && r[|r| - 4..] == ".pgm"
  {
    "image-" + DecimalString(index) + ".pgm"
  }

  /** `saveImage`: the ASCII header followed by exactly the record bytes. */
  function SaveImage(record: seq<byte>, rows: int, cols: int, index: nat): (f: PgmFile)
    ensures |f.data| == 9 + |NumberString(cols)| + |NumberString(rows)| + |record|
    ensures f.data[|f.data| - |record|..] == record
  {
    PgmFile(ImageFileName(index), AsciiEncode(PgmHeader(rows, cols)) + record)
  }

  /** Record `i` saved under index `i`, for every record in order. */
  function SavedImages(records: seq<seq<byte>>, rows: int, cols: int): (fs: seq<PgmFile>)
    ensures |fs| == |records|
  {
    seq(|records|, i requires 0 <= i < |records| => SaveImage(records[i], rows, cols, i))
  }

  lemma SavedImagesAppend(records: seq<seq<byte>>, r: seq<byte>, rows: int, cols: int)
    ensures SavedImages(records + [r], rows, cols)
         == SavedImages(records, rows, cols) + [SaveImage(r, rows, cols, |records|)]
  {
  }

  predicate ValidFirstChunk(first: seq<byte>) {
    |first| >= HEADER_BYTES && Int32BE(first, 8) * Int32BE(first, 12) > 0
  }

  /** Everything the decoder writes for a whole file, however it arrives. */
  function DecodedImages(file: seq<byte>): (r: seq<PgmFile>)
    requires ValidFirstChunk(file)
    ensures var n := Int32BE(file, 8) * Int32BE(file, 12);
      |r| == (|file| - HEADER_BYTES) / n
    ensures forall i :: 0 <= i < |r| ==> r[i].name == ImageFileName(i)
  {
    var h := ReadImageHeader(file);
    ChunksCount(file[HEADER_BYTES..], h.rows * h.cols);
    SavedImages(Chunks(file[HEADER_BYTES..], h.rows * h.cols), h.rows, h.cols)
  }

  /**
    One decoding session of `processIDXFile`: the header, the accumulator
    `imageBuffer`, the running `imageIndex`, and the files saved so far.
    `stream` (every byte after offset 16 received so far) and `records` (the
    records cut off so far) are the ghost view that the invariant ties the
    real state to.
   */
  class ImageStream {
    const header: ImageHeader
    const imageSize: nat
    var imageBuffer: seq<byte>
    var imageIndex: nat
    var saved: seq<PgmFile>
    ghost var stream: seq<byte>
    ghost var records: seq<seq<byte>>

    /** The invariant inside the extraction loop: cut records plus what is still buffered account for the stream. */
    ghost predicate Pending()
      reads this
    {
      && imageSize > 0
      && imageSize == header.rows * header.cols
      && records + Chunks(imageBuffer, imageSize) == Chunks(stream, imageSize)
      && Remainder(imageBuffer, imageSize) == Remainder(stream, imageSize)
      && imageIndex == |records|
      && saved == SavedImages(records, header.rows, header.cols)
    }

    /** Between chunks: every complete record has been cut, so fewer than `imageSize` bytes wait. */
    ghost predicate Valid()
      reads this
    {
      Pending() && |imageBuffer| < imageSize
    }

    lemma ValidMeaning()
      requires Valid()
      ensures records == Chunks(stream, imageSize)
      ensures imageBuffer == Remainder(stream, imageSize)
      ensures Flatten(records) + imageBuffer == stream
    {
      ChunksConserve(stream, imageSize);
    }

    /** The first `'data'` event: parse the header, seed the accumulator, cut what is already complete. */
    constructor (first: seq<byte>)
      requires ValidFirstChunk(first)
      ensures Valid()
      ensures header == ReadImageHeader(first)
      ensures stream == first[HEADER_BYTES..]
    {
      header := ReadImageHeader(first);
      imageSize := Int32BE(first, 8) * Int32BE(first, 12);
      imageBuffer := first[HEADER_BYTES..];
      imageIndex := 0;
      saved := [];
      stream := first[HEADER_BYTES..];
      records := [];
      new;
      ExtractRecords();
    }

    /** The `while (imageBuffer.length >= imageSize)` loop. */
    method ExtractRecords()
      requires Pending()
      modifies this
      ensures Valid()
      ensures stream == old(stream)
      ensures records == old(records) + Chunks(old(imageBuffer), imageSize)
    {
      while |imageBuffer| >= imageSize
        invariant Pending() && stream == old(stream)
        invariant records + Chunks(imageBuffer, imageSize) == old(records) + Chunks(old(imageBuffer), imageSize)
        decreases |imageBuffer|
      {
        ghost var buf := imageBuffer;
        CutFront(buf, imageSize);
        SavedImagesAppend(records, buf[..imageSize], header.rows, header.cols);
        var imageData := imageBuffer[..imageSize];
        saved := saved + [SaveImage(imageData, header.rows, header.cols, imageIndex)];
        imageBuffer := imageBuffer[imageSize..];
        records := records + [imageData];
        imageIndex := imageIndex + 1;
      }
    }

    /** A later `'data'` event: append the chunk, then cut every record now complete. */
    method Feed(chunk: seq<byte>)
      requires Valid()
      modifies this
      ensures Valid()
      ensures stream == old(stream) + chunk
      ensures records == old(records) + Chunks(old(imageBuffer) + chunk, imageSize)
      ensures saved == SavedImages(records, header.rows, header.cols)
    {
      ValidMeaning();
      ChunksAppend(stream, chunk, imageSize);
      imageBuffer := imageBuffer + chunk;
      stream := stream + chunk;
      ExtractRecords();
    }
  }

  /**
    Driving one session with a first chunk and then every later chunk in
    order writes exactly the files of the whole file: the result depends on
    the bytes only, not on where the stream was cut.
   */
  method DecodeStream(first: seq<byte>, rest: seq<seq<byte>>) returns (files: seq<PgmFile>)
    requires ValidFirstChunk(first)
    ensures files == DecodedImages(first + Flatten(rest))
  {
    var s := new ImageStream(first);
    for k := 0 to |rest|
      invariant s.Valid() && s.header == ReadImageHeader(first)
      invariant s.stream == first[HEADER_BYTES..] + Flatten(rest[..k])
    {
      s.Feed(rest[k]);
      assert rest[..k + 1] == rest[..k] + [rest[k]];
      FlattenAppend(rest[..k], rest[k]);
    }
    s.ValidMeaning();
    assert rest[..|rest|] == rest;
    DecodedOfParts(first, Flatten(rest));
    files := s.saved;
  }

  /** The header comes from the first chunk alone, and the records from everything after its 16 bytes. */
  lemma DecodedOfParts(first: seq<byte>, tail: seq<byte>)
    requires ValidFirstChunk(first)
    ensures ValidFirstChunk(first + tail)
    ensures var h := ReadImageHeader(first);
      DecodedImages(first + tail) == SavedImages(Chunks(first[HEADER_BYTES..] + tail, h.rows * h.cols), h.rows, h.cols)
  {
    var file := first + tail;
    assert file[..HEADER_BYTES] == first[..HEADER_BYTES];
    assert ReadImageHeader(file) == ReadImageHeader(first);
    assert file[HEADER_BYTES..] == first[HEADER_BYTES..] + tail;
  }

  /**
    How many images come out is decided by the bytes alone: one per complete
    record after the header, whatever the declared count and magic say.
   */
  lemma DecodedCount(file: seq<byte>)
    requires ValidFirstChunk(file)
    ensures |DecodedImages(file)| == (|file| - HEADER_BYTES) / (Int32BE(file, 8) * Int32BE(file, 12))
  {
    ChunksCount(file[HEADER_BYTES..], Int32BE(file, 8) * Int32BE(file, 12));
  }

  /** The record size the header announces. */
  function ImageSize(file: seq<byte>): nat
    requires ValidFirstChunk(file)
  {
    Int32BE(file, 8) * Int32BE(file, 12)
  }

  /** Image `i` is named `image-<i>.pgm` and holds bytes `[16+i*size, 16+(i+1)*size)` of the file. */
  lemma DecodedImageAt(file: seq<byte>, i: nat)
    requires ValidFirstChunk(file) && i < |DecodedImages(file)|
    ensures HEADER_BYTES + (i + 1) * ImageSize(file) <= |file|
    ensures DecodedImages(file)[i]
         == SaveImage(file[HEADER_BYTES + i * ImageSize(file)..HEADER_BYTES + (i + 1) * ImageSize(file)],
                      Int32BE(file, 8), Int32BE(file, 12), i)
  {
    var size := ImageSize(file);
    var h := ReadImageHeader(file);
    assert h.rows * h.cols == size;
    var cs := Chunks(file[HEADER_BYTES..], size);
    assert DecodedImages(file)[i] == SaveImage(cs[i], h.rows, h.cols, i);
    RecordInFile(file, size, i);
  }

  lemma RecordInFile(file: seq<byte>, size: nat, i: nat)
    requires |file| >= HEADER_BYTES && size > 0 && i < |Chunks(file[HEADER_BYTES..], size)|
    ensures HEADER_BYTES + (i + 1) * size <= |file|
    ensures Chunks(file[HEADER_BYTES..], size)[i] == file[HEADER_BYTES + i * size..HEADER_BYTES + (i + 1) * size]
  {
    ChunkAt(file[HEADER_BYTES..], size, i);
    SliceShift(file, HEADER_BYTES, i * size, (i + 1) * size);
  }

  lemma SliceShift<T>(s: seq<T>, k: nat, lo: nat, hi: nat)
    requires k <= |s| && lo <= hi <= |s| - k
    ensures s[k..][lo..hi] == s[k + lo..k + hi]
  {
  }
}

# MNIST IDX codec scripts, modelled in Dafny

This project models the byte-level core of a set of TypeScript scripts built
around the MNIST IDX container. An IDX file is a header of big-endian 32-bit
integers followed by raw bytes:

- image files (IDX3) start with magic 2051, the image count, the rows and the cols;
- label files (IDX1) start with magic 2049 and the label count.

The scripts convert between IDX files and one binary PGM (`P5`) file per
image or one text file of labels, load IDX files for training, and batch
the loaded data. The model covers these parts:

- **bytes.dfy** (`Bytes`) holds what every script shares:
  - bytes and error kinds;
  - Node's `readInt32BE`/`readUInt32BE`/`writeInt32BE`;
  - the value Node stores when asked to write NaN;
  - ASCII encoding and decoding;
  - `Buffer.indexOf`.
- **text.dfy** (`Text`) holds JavaScript's `split`, `join` and `trim`, template-literal number formatting, `Number(...)` and `parseInt(..., 10)`.
- **records.dfy** (`Records`) cuts a byte sequence into fixed-size records and lays records end to end. It also has `TypedArray.prototype.set` as an in-place array copy.
- **decoded_image.dfy** (`DecodedImage`) is the streaming IDX3 decoder. A class `ImageStream` holds:
  - the accumulator `imageBuffer`;
  - the running `imageIndex`;
  - the files saved so far.

  Its `Feed` method is the `'data'` handler. `saveImage` builds each PGM file.
- **encoded_images.dfy** (`EncodedImages`) is the IDX3 encoder: the `.pgm` filter, the name comparator, `parsePGMHeader`, `extractPixelData` and `createIDXFile`.
- **encoded_label.dfy** (`EncodedLabel`) is the IDX1 label encoder: it goes from text lines to an 8-byte header plus one byte per label.
- **decoded_label.dfy** (`DecodedLabel`) is the IDX1 label decoder and its newline-joined text output.
- **data.dfy** (`Data`) is the training loader:
  - `loadHeaderValues`, `loadImages`, `loadLabels` and `getLabelsCount`;
  - the `MnistDataset` class with `getTags`, `loadData` and `getData_`.
- **numeros.dfy** (`Numeros`) has the one-hot conversions `oneHotToIndices`/`indicesToOneHot`, and the `MnistData` class with its two shuffled-index cursors and `nextBatch`.

Code that updates state step by step is modelled with methods, loops and
classes. Text parsing and byte construction are modelled with functions.
Each method is proved against a function that states what it computes. The
round trips between the encoders and the decoders are proved as lemmas.

The source decides where it and its documentation differ. In particular,
the write-only side buffer of `loadImages` (`imageCompress`) is never read,
but `writeUInt8` throws a RangeError when an offset runs past its end. That
bounds check can reject a file, so the model keeps it.

## Model

| member | source | states |
|---|---|---|
| Bytes.Uint32BE | tfjs-example/data.ts:69 | `readUInt32BE` yields a value below 2^32 |
| Bytes.Int32BE | src/decoded/decoded-image.ts:40-43 | `readInt32BE` yields a signed 32-bit value |
| Bytes.Int32RoundTrip | idx/encoded-images.ts:40-43 | reading back what `writeInt32BE` wrote gives the value written |
| Bytes.Int32FieldAt | idx/encoded-label.ts:26-28 | a field written at any offset reads back as its value, whatever surrounds it |
| Bytes.Int32BytesRoundTrip | src/decoded/decoded-image.ts:40-43 | writing back the value read from four bytes reproduces those bytes |
| Bytes.Int32FieldDetermined | src/decoded/decoded-image.ts:40-43 | two buffers whose fields read the same value hold the same four bytes there |
| Bytes.Stored | idx/encoded-label.ts:33 | a number is written as itself and NaN as 0 (Node's range check lets NaN through) |
| Bytes.AsciiEncode | src/decoded/decoded-image.ts:81 | `Buffer.from(text, "ascii")` keeps one byte per character |
| Bytes.AsciiDecode | idx/encoded-images.ts:63 | `toString("ascii")` gives one character per byte |
| Bytes.AsciiRoundTrip | idx/encoded-images.ts:63 | decoding the ASCII encoding of ASCII text gives the text back |
| Bytes.IndexFrom | idx/encoded-images.ts:63 | `indexOf` returns the first match at or after the start, or -1 when there is none |
| Bytes.IndexOf | idx/encoded-images.ts:63 | `buffer.indexOf(pattern)` is the leftmost match; it is -1 exactly when the pattern occurs nowhere |
| Bytes.WriteInt32BE | idx/encoded-images.ts:40-43 | `writeInt32BE` writes exactly four bytes (what they hold is `Bytes.Int32RoundTrip` and `Bytes.Int32BytesRoundTrip`) |
| Text.Split | idx/encoded-label.ts:17 | `split` never returns an empty list |
| Text.SplitNoSeparator | idx/encoded-images.ts:65 | text without the separator splits into itself alone |
| Text.SplitFirst | idx/encoded-images.ts:65 | the part before the first separator comes out whole, followed by the split of the rest |
| Text.SplitJoin | idx/decoded-label.ts:51 | splitting a join on the same separator gives back the parts, when no part contains it |
| Text.Join | idx/decoded-label.ts:51 | `join` of no parts is the empty string; the first part starts the result; with two or more parts the separator follows the first part |
| Text.Trim | idx/encoded-label.ts:18 | `trim` never lengthens the text and leaves no white space at either end |
| Text.TrimStartSlice | idx/encoded-label.ts:18 | removing leading white space drops a prefix made only of white space and keeps the rest unchanged |
| Text.TrimEndSlice | idx/encoded-label.ts:18 | removing trailing white space drops a suffix made only of white space and keeps the rest unchanged |
| Text.TrimSlice | idx/encoded-label.ts:18 | `trim(s)` is a slice `s[i..j]` of `s` with only white space before `i` and from `j` on: the ends are stripped and nothing inside is touched |
| Text.TrimNoSpace | idx/encoded-label.ts:18 | `trim` leaves text without surrounding white space unchanged |
| Text.DecimalString | idx/decoded-label.ts:51 | a natural number prints as a nonempty run of decimal digits |
| Text.DecimalRoundTrip | src/decoded/decoded-image.ts:79 | the digits printed for `n` have the value `n` |
| Text.NumberString | src/decoded/decoded-image.ts:80 | a printed integer is nonempty, has no white space or newline, and does not start with `#` |
| Text.ParseNumber | idx/encoded-images.ts:67 | `Number` of blank text is 0; a number is read only when every character after the first is a digit and the first is a digit or a sign |
| Text.NumberRoundTrip | idx/encoded-images.ts:67 | `Number` reads back every integer a template literal prints |
| Text.DigitPrefix | idx/encoded-label.ts:20 | the digit run `parseInt` reads is a prefix of the text, followed by a non-digit or the end |
| Text.ParseInt | idx/encoded-label.ts:20 | `parseInt(..., 10)` is NaN for blank text and for text whose first non-blank character is neither a digit nor a sign; text starting with a digit gives a number of at least 0 |
| Text.ParseIntRoundTrip | idx/encoded-label.ts:20 | `parseInt(..., 10)` reads back the decimal text of a natural number |
| Records.Chunks | src/decoded/decoded-image.ts:51-56 | every record cut off the front has the record size |
| Records.Remainder | src/decoded/decoded-image.ts:51 | what is left after cutting records is shorter than one record |
| Records.ChunksConserve | src/decoded/decoded-image.ts:52-54 | the records cut off, followed by the leftover, are exactly the input: nothing is lost or repeated |
| Records.ChunksCount | tfjs-example/data.ts:94-105 | there are `len / size` records and `len % size` leftover bytes |
| Records.ChunkAt | tfjs-example/data.ts:94-105 | record `k` is bytes `[k*size, (k+1)*size)` |
| Records.ChunksAppend | src/decoded/decoded-image.ts:61-69 | cutting `s + t` gives the records of `s`, then the records of `s`'s leftover followed by `t` |
| Records.CutFront | src/decoded/decoded-image.ts:52-54 | slicing one record off the front leaves the remaining records and the same leftover |
| Records.ChunksSnoc | tfjs-example/data.ts:104 | one more whole record after whole records is one more record at the end |
| Records.FlattenAppend | idx/encoded-images.ts:51 | pushing a buffer appends its bytes to the concatenation |
| Records.FlattenConcat | idx/encoded-images.ts:56 | `Buffer.concat` of two lists is the concatenation of their concatenations |
| Records.ChunksOfFlatten | tfjs-example/data.ts:245-252 | equal-size records laid end to end split back into the same records, with nothing left over |
| Records.FlattenSlot | tfjs-example/data.ts:248-250 | slot `i` of records laid end to end holds record `i` |
| Records.CopyInto | tfjs-example/data.ts:248 | `set(src, offset)` writes `src` at `offset` and leaves every other element unchanged |
| DecodedImage.ReadImageHeader | src/decoded/decoded-image.ts:40-43 | the four header fields of the first chunk are each a signed 32-bit value |
| DecodedImage.PgmHeader | src/decoded/decoded-image.ts:80 | the PGM header starts with `P5` and a newline, ends with a newline, `255` and a newline, and is 9 characters longer than the two printed numbers |
| DecodedImage.ImageFileName | src/decoded/decoded-image.ts:79 | the file name starts with `image-` and ends with `.pgm`, with at least one character between them |
| DecodedImage.DecodedImages | src/decoded/decoded-image.ts:44-56 | as many files as complete `rows*cols` records after the 16-byte header, file `i` named `image-<i>.pgm` |
| DecodedImage.SaveImage | src/decoded/decoded-image.ts:79-82 | a saved image is the `P5` header followed by exactly the record's bytes |
| DecodedImage.SavedImages | src/decoded/decoded-image.ts:52-55 | one file per record, record `i` under index `i` |
| DecodedImage.SavedImagesAppend | src/decoded/decoded-image.ts:53-55 | saving one more record adds one file under the next index |
| DecodedImage.ImageStream.ValidMeaning | src/decoded/decoded-image.ts:51-69 | between chunks, the saved records are every complete record of the stream, and the accumulator is its leftover (shorter than one record) |
| DecodedImage.ImageStream.constructor | src/decoded/decoded-image.ts:29-56 | the header comes from the first 16 bytes of the first chunk; the rest of that chunk seeds the accumulator, and every complete record in it is cut and saved |
| DecodedImage.ImageStream.ExtractRecords | src/decoded/decoded-image.ts:64-69 | the loop cuts every complete record at the front, in order, and leaves fewer than `rows*cols` bytes |
| DecodedImage.ImageStream.Feed | src/decoded/decoded-image.ts:59-70 | a chunk is appended to the stream; the new records are those of the old leftover followed by the chunk; saved files match the records |
| DecodedImage.DecodeStream | src/decoded/decoded-image.ts:22-75 | any split of a file into chunks writes exactly the files of the whole file, so the output does not depend on chunking |
| DecodedImage.DecodedOfParts | src/decoded/decoded-image.ts:32-33 | the header comes from the first chunk alone, and the records from the bytes after its first 16 |
| DecodedImage.DecodedCount | src/decoded/decoded-image.ts:40-56 | the number of images is the number of complete records after the header, whatever the count field and the magic say |
| DecodedImage.DecodedImageAt | src/decoded/decoded-image.ts:52-55 | image `i` is named `image-<i>.pgm` and holds bytes `[16+i*size, 16+(i+1)*size)` of the file |
| EncodedImages.PgmEntries | idx/encoded-images.ts:13-15 | only the names ending in `.pgm` are kept, and all of them |
| EncodedImages.ImageNumber | idx/encoded-images.ts:22-25 | a match at the start of the name wins, and a name shorter than `image-0.pgm` carries no number |
| EncodedImages.Compare | idx/encoded-images.ts:21-29 | the comparator returns only -1 or 0; it returns -1 exactly when both names carry numbers and `a`'s is smaller |
| EncodedImages.ImageNumberOfName | idx/encoded-images.ts:22-25 | the number the regular expression finds in `image-<i>.pgm` is `i` |
| EncodedImages.CompareImageNames | idx/encoded-images.ts:21-29 | on decoder file names, -1 exactly when the first index is smaller and 0 otherwise |
| EncodedImages.CompareNotAntisymmetric | idx/encoded-images.ts:26-28 | `image-1.pgm` sorts before `image-2.pgm`, but `image-2.pgm` does not sort after `image-1.pgm` |
| EncodedImages.HeaderLines | idx/encoded-images.ts:64-66 | the comment and blank-line filter never adds lines, and every line it keeps neither starts with `#` nor is blank after `trim` |
| EncodedImages.HeaderLinesOne | idx/encoded-images.ts:66 | a single line is kept, unchanged, exactly when it neither starts with `#` nor is blank after `trim` |
| EncodedImages.HeaderLinesCons | idx/encoded-images.ts:64-66 | the filter of a line followed by more lines is the filter of that line followed by the filter of the rest |
| EncodedImages.HeaderLinesAppend | idx/encoded-images.ts:64-66 | the filter works line by line: the kept lines of `a + b` are those of `a`, then those of `b`, in order |
| EncodedImages.HeaderLinesDropsSkipped | idx/encoded-images.ts:64-66 | a comment or blank line anywhere in the header is skipped: removing it changes nothing the filter keeps |
| EncodedImages.HeaderText | idx/encoded-images.ts:63 | the header text is the ASCII decoding of a prefix of the buffer, never past its end; when `"\n255\n"` occurs, the prefix runs up to and including the `255` of its first occurrence, so the text ends in `255` |
| EncodedImages.ParsePgmHeader | idx/encoded-images.ts:62-69 | it fails exactly when fewer than two lines of the header text survive the comment and blank-line filter, and that failure is the TypeError of reading `lines[1]` |
| EncodedImages.ExtractPixelData | idx/encoded-images.ts:72-75 | the first 13 bytes are dropped, and the result is everything after them (empty for shorter files) |
| EncodedImages.PgmHeaderShape | src/decoded/decoded-image.ts:80 | a saved header is `P5`, the size line and `255`, on three lines, all ASCII |
| EncodedImages.HeaderEndFound | idx/encoded-images.ts:63 | in a saved image, the first `"\n255\n"` is the one that ends the text header |
| EncodedImages.HeaderLinesOfSaved | idx/encoded-images.ts:64-66 | all three lines of a saved header survive the filter, and the second is the size line |
| EncodedImages.PgmHeaderRoundTrip | idx/encoded-images.ts:62-69 | `parsePGMHeader` reads back the rows and cols `saveImage` wrote, whatever the record holds |
| EncodedImages.ExtractPixelDataOfSaved | idx/encoded-images.ts:72-75 | dropping 13 bytes recovers the record exactly when the two numbers have four characters together |
| EncodedImages.ImageFile | idx/encoded-images.ts:37-56 | the IDX3 output is the 16 header bytes followed by the pixels of every file, unchanged and in order |
| EncodedImages.ImageFileLayout | idx/encoded-images.ts:37-56 | the output is 16 header bytes plus the body; magic 0x803, count, rows and cols sit at offsets 0, 4, 8 and 12; the body follows unchanged |
| EncodedImages.DecodeEncoded | idx/encoded-images.ts:37-56 | the decoder writes back every record of an encoded file, in order, under its index |
| EncodedImages.Pixels | idx/encoded-images.ts:47-51 | one pixel buffer per file |
| EncodedImages.PixelsOfSaved | idx/encoded-images.ts:47-51 | when the size line has four characters, the pixels of every saved image are its record |
| EncodedImages.CreateIdxFile | idx/encoded-images.ts:12-59 | nothing is written exactly when there is no `.pgm` file; otherwise the output is the header (rows and cols from the first file only, NaN as 0) and every file's pixels in list order; it fails with a TypeError when the first header has no size line, and with a RangeError when a header value does not fit 32 bits |
| EncodedImages.ConcatPixels | idx/encoded-images.ts:46-56 | the loop and `Buffer.concat` give the header followed by every file's pixels, in order |
| EncodedImages.ReencodeDecoded | idx/encoded-images.ts:12-59 | decoding an MNIST-shaped file to PGM files and encoding them in index order gives back the original bytes |
| EncodedImages.HeaderBytesDetermined | idx/encoded-images.ts:39-43 | the four header fields determine the 16 header bytes |
| EncodedLabel.LabelLines | idx/encoded-label.ts:16-19 | every kept line is trimmed and nonempty, and no lines are added |
| EncodedLabel.LabelLinesOne | idx/encoded-label.ts:18-19 | a single line is kept, as its `trim`, exactly when its `trim` is not empty |
| EncodedLabel.LabelLinesCons | idx/encoded-label.ts:16-19 | the lines kept from a line followed by more lines are those kept from the line, then those kept from the rest |
| EncodedLabel.LabelLinesAppend | idx/encoded-label.ts:16-19 | the map and filter work line by line: the lines kept from `a + b` are those of `a`, then those of `b`, in order |
| EncodedLabel.ParseLabels | idx/encoded-label.ts:16-20 | one parsed label per kept line |
| EncodedLabel.LabelByte | idx/encoded-label.ts:33 | `writeUInt8` stores a value in 0..255 as itself and NaN as 0; any other value is a RangeError |
| EncodedLabel.LabelBytes | idx/encoded-label.ts:31-34 | succeeds exactly when every label can be written, and then byte `i` is label `i` |
| EncodedLabel.LabelFile | idx/encoded-label.ts:25-37 | the IDX1 output is the 8 header bytes followed by the label bytes, unchanged |
| EncodedLabel.LabelFileLayout | idx/encoded-label.ts:25-37 | the output is `8 + n` bytes: magic 0x801 at offset 0, the count at offset 4, then the label bytes |
| EncodedLabel.EncodeLabelText | idx/encoded-label.ts:13-37 | succeeds exactly when the label count fits 32 bits and every parsed label can be written by `writeUInt8`; every failure is a RangeError; on success there are `8 + n` bytes, magic 0x801 at offset 0, the count `n` at offset 4, and byte `8 + i` is label `i` as stored (NaN as 0) |
| EncodedLabel.CreateIdxLabelFile | idx/encoded-label.ts:13-42 | the header, then the label buffer, or the error `writeInt32BE`/`writeUInt8` throws: exactly `EncodeLabelText`, whose contract states the header, the bytes and the errors |
| EncodedLabel.WriteLabels | idx/encoded-label.ts:31-34 | the `forEach` fill of the zero-filled label buffer writes every label, or stops at the first that cannot be written |
| EncodedLabel.LabelLinesOfJoined | idx/encoded-label.ts:16-19 | lines that are nonempty and have no surrounding white space all survive trimming and filtering |
| DecodedLabel.LabelsOf | idx/decoded-label.ts:21-45 | a buffer too short for the magic or the count is a RangeError; a magic other than 2049 is the format error carrying that magic; with magic 2049 it succeeds exactly when the buffer holds the `max(count, 0)` labels after the 8-byte header (a negative count reads none, and bytes past the labels are ignored), and otherwise the `getUint8` read past the end is a RangeError; on success the labels are those bytes |
| DecodedLabel.ReadLabels | idx/decoded-label.ts:30-42 | the magic check, the count read and the byte loop give exactly `LabelsOf`: the labels, the format error for a wrong magic, or a RangeError for a short buffer |
| DecodedLabel.DecodeEncodedLabels | idx/decoded-label.ts:30-42 | decoding the encoder's output, with anything after it, gives back the labels |
| DecodedLabel.ParseSavedLabels | idx/encoded-label.ts:16-20 | parsing the newline-joined text the decoder saves gives back every label, in order |
| DecodedLabel.SaveLabel | idx/decoded-label.ts:48-54 | no labels give the empty text; otherwise splitting the text at newlines gives one line per label, its decimal digits, in order |
| DecodedLabel.DecimalNoSpace | idx/decoded-label.ts:51 | a printed label has no white space and no newline |
| DecodedLabel.EncodeSavedLabels | idx/encoded-label.ts:13-37 | encoding the saved text rebuilds the IDX1 file of the same labels |
| DecodedLabel.ReencodeDecodedLabels | idx/decoded-label.ts:21-54 | decoding a label file to text and encoding it again gives back the original bytes, when the count matches the body |
| Data.HeaderValues | tfjs-example/data.ts:65-73 | `ceil(len/4)` values, value `i` being the unsigned big-endian word at `4i`, or a RangeError when the buffer is too short |
| Data.LoadHeaderValues | tfjs-example/data.ts:65-73 | the loop computes the header values |
| Data.ImagesOf | tfjs-example/data.ts:75-109 | success exactly on a header with magic 2051, 28 rows and 28 cols, a body of whole 784-byte records, a declared count equal to their number and a side buffer large enough; then the records laid end to end are the whole body. A short buffer, a partial record or an overrun side buffer is a RangeError; a wrong magic, row count, column count or record count is an AssertionError |
| Data.LoadImages | tfjs-example/data.ts:75-109 | the header checks (magic 2051, 28 rows, 28 cols), the record loop and the count check give the loaded images |
| Data.ReadRecords | tfjs-example/data.ts:91-105 | every 784-byte record after the header, or a RangeError for a partial last record or an overrun side buffer |
| Data.ReadRecord | tfjs-example/data.ts:96-103 | the inner loop reads the 784 bytes at the cursor, or fails with a RangeError when it runs past the buffer or the side buffer |
| Data.ReadPastEnd | tfjs-example/data.ts:100 | a read past the end happens only when the body is not a whole number of records |
| Data.LabelsOf | tfjs-example/data.ts:111-132 | success exactly on magic 2049 and a body as long as the declared count; then the labels are every byte after the 8-byte header. A buffer shorter than the header is a RangeError; a wrong magic or count is an AssertionError |
| Data.LoadLabels | tfjs-example/data.ts:111-132 | the magic check, the byte loop and the count check give the loaded labels |
| Data.DistinctCount | tfjs-example/data.ts:155-159 | `new Set(labels).size` is at most the number of labels and at most 256, and at least 1 for a nonempty list |
| Data.LabelSetBounds | tfjs-example/data.ts:155-159 | the set of labels has at most one element per label and per byte value, and at least one element when there are labels |
| Data.LabelsCount | tfjs-example/data.ts:134-162 | succeeds exactly when the labels load; the count is at most 256 and at most the number of labels |
| Data.OneHot | tfjs-example/data.ts:256-258 | one row per label, each with `depth` columns |
| Data.OneHotRow | tfjs-example/data.ts:256-258 | a label below the depth is the only column of its row holding a 1 |
| Data.MnistDataset.constructor | tfjs-example/data.ts:178-184 | no dataset, all sizes and batch indices 0 |
| Data.MnistDataset.GetTags | tfjs-example/data.ts:186-193 | succeeds exactly when both label files load with the same distinct count, which becomes the one-hot depth; otherwise it throws the first error and nothing changes |
| Data.FirstFailure | tfjs-example/data.ts:199-204 | no failure exactly when all four loads succeed; otherwise the error of the first failing load, in the order train images, train labels, test images, test labels |
| Data.MnistDataset.LoadData | tfjs-example/data.ts:186-207 | on success the dataset is the four loaded files and the sizes are their image counts; it fails on the first failing load, in listed order, leaving the dataset and sizes unchanged; the one-hot depth is the distinct label count whenever `getTags` got past its check, even when a later load fails, and is unchanged otherwise |
| Data.MnistDataset.GetData | tfjs-example/data.ts:209-260 | a TypeError without data; an assertion failure when the image and label counts differ; an invalid-argument error from `tf.oneHot` when the depth is below 2; otherwise every record laid end to end and the one-hot labels |
| Data.CopySet | tfjs-example/data.ts:242-252 | the copy loop puts record `i` at offset `i*784` and label `i` at offset `i`, filling both arrays |
| Data.CopyRecordAt | tfjs-example/data.ts:248 | copying record `i` extends the filled prefix by that record |
| Data.CopyLabelAt | tfjs-example/data.ts:249 | copying label `i` extends the filled prefix by that label |
| Data.LoadEncodedImages | tfjs-example/data.ts:75-109 | a 28x28 file written by the image encoder loads back as exactly its records |
| Data.LoadEncodedLabels | tfjs-example/data.ts:111-132 | a file written by the label encoder loads back as exactly its labels |
| Data.LabelReadersAgree | tfjs-example/data.ts:111-132 | wherever the training loader accepts a label file, the label decoder reads the same labels |
| Data.ImageReadersAgree | tfjs-example/data.ts:75-109 | wherever the training loader accepts an image file, the streaming decoder writes one PGM file per loaded record, in order |
| Numeros.RowIndex | numeros.ts:35-40 | the position of the first 1 in the row, or 0 (the `Int32Array` default) when there is none |
| Numeros.Indices | numeros.ts:29-44 | one index per complete row: `len / numClasses` of them |
| Numeros.OneHotToIndices | numeros.ts:29-44 | empty input gives no indices; a class count of 0 with input is a RangeError (the length is Infinity); a negative class count is a RangeError when `len / numClasses <= -1` and gives no indices when it lies in `(-1, 0)` (truncated to 0); otherwise entry `i` is the first 1 in row `i` |
| Numeros.ScanRow | numeros.ts:35-40 | the inner loop stops at the first 1 in the row, and none comes before it |
| Numeros.OneHotOf | numeros.ts:51-61 | the output has `numLabels * numClasses` entries |
| Numeros.IndicesToOneHot | numeros.ts:51-61 | a 1 wherever some index marks `i*n + indices[i]` and 0 elsewhere; out-of-range marks are dropped; a negative class count with indices is a RangeError |
| Numeros.MarkOwner | numeros.ts:57 | a mark placed by a valid index lands in that index's own row |
| Numeros.OneHotAt | numeros.ts:55-58 | with valid indices, row `i` holds 1 exactly at `indices[i]` and 0 elsewhere |
| Numeros.OneHotRoundTrip | numeros.ts:29-61 | `oneHotToIndices(indicesToOneHot(ix, n), n) == ix` when every index is in `[0, n)` |
| Numeros.Block | numeros.ts:144-153 | `slice(idx*size, idx*size + size)` has `size` elements |
| Numeros.Gather | numeros.ts:142-155 | one block per index, each of the block size |
| Numeros.BatchIndices | numeros.ts:167-169 | a batch draws `batchSize` indices; call `k` reads position `(c0 + k + 1) % len`, so the first call skips position `c0` |
| Numeros.BatchInRange | numeros.ts:144-153 | every index a batch draws names a whole block of the data |
| Numeros.ModSucc | numeros.ts:167-168 | advancing the reduced cursor is the same as advancing and then reducing |
| Numeros.FullBatchIsPermutation | numeros.ts:162-180 | a batch as long as the index list is that list rotated, so it is a permutation of it |
| Numeros.MnistData.constructor | numeros.ts:65-74 | the sets and index lists as `load` leaves them, with both cursors at 0 |
| Numeros.MnistData.NextIndex | numeros.ts:166-170 | the cursor becomes `(c + 1) % len`, the other cursor is unchanged, and the index at the new cursor is returned |
| Numeros.MnistData.NextBatch | numeros.ts:134-160 | arrays of `batchSize*784` and `batchSize*10` elements; slot `i` holds the image and label blocks of the `i`-th drawn index; the cursor advances by `batchSize` modulo the length |
| Numeros.MnistData.FillSlot | numeros.ts:142-155 | one loop turn: the cursor advances by one and slot `i` receives the blocks of the index drawn |
| Numeros.MnistData.NextTrainBatch | numeros.ts:162-172 | `nextBatch` over the training set with the training cursor; the test cursor is unchanged |
| Numeros.MnistData.NextTestBatch | numeros.ts:174-180 | `nextBatch` over the test set with the test cursor; the training cursor is unchanged |
| Numeros.CopySlot | numeros.ts:143-154 | slot `i` of both batch arrays receives the blocks of index `idx` |
| Numeros.CopyBlock | numeros.ts:148 | `set(block, i*size)` extends the filled prefix by the block of index `idx` |
| Numeros.FilledAll | numeros.ts:142-155 | once every slot is filled, the array is the drawn blocks laid end to end |
| Numeros.GatherSnoc | numeros.ts:142-155 | gathering one more index appends its block |

## Left out

- File and network I/O:
  - `readdirSync`, `readFileSync`, `writeFileSync` and `createReadStream` are modelled by their inputs and outputs: file listings, file contents, and written `PgmFile` values.
  - The output-directory delete and recreate, and the MNIST download with gunzip, are not modelled.
- Stream events are not modelled as asynchronous callbacks. The first `'data'` event is the `ImageStream` constructor, each later one is a `Feed` call, and `'end'` only logs.
- Promise rejection order in `loadData`: the four loads are taken in the order they are listed. `Promise.all` rejects with whichever fails first in time.
- Floating point: the `/ 255` normalisation is not modelled. In `data.ts` images stay bytes; in `numeros.ts` pixels are opaque `real` values copied as they are.
- TensorFlow is not modelled: tensors, `tf.util.sizeFromShape`, model construction, training and `tf.util.createShuffledIndices`.
  - `tf.oneHot` is modelled as a function on label rows.
  - The shuffled index lists are inputs of the `MnistData` constructor.
- `MnistData.load`, sharp, Jimp, `png2pgm.ts`, `process-image.ts`, `main.ts`, `predict.ts` and `utils/duration` are not modelled. They are foreign image-library or framework calls, and `load` reads variables that are never defined. `Numeros.MnistData.constructor` takes the state `load` would leave.
- Console logging is not modelled.
- EncodedImages.CreateIdxFile: the order of the `.pgm` files after `files.sort` is taken as an input (any permutation of the filtered list). The comparator never answers "greater", so the order it leaves is up to the JavaScript engine.
- Text.ParseNumber: `Number(...)` is modelled for an optional sign followed by decimal digits. Every other form, such as `28.5`, `1e3` or `0x1C`, reads as NaN.
- DecodedImage.ImageStream.constructor: requires a first chunk of at least 16 bytes and `rows*cols > 0`. With a shorter chunk the header reads throw; with a size of 0 or less the extraction loop never ends.
- Numeros.MnistData.constructor: requires nonempty index lists and indices that each name a whole image block and label block. With an empty list the source's `% 0` gives NaN, and the index `undefined` slices an empty block. Clamped slices past the end of the data are not modelled.
- Data.ImagesOf: of the write-only `imageCompress` buffer, only its bounds check is kept. A length beyond the largest `Buffer` Node can allocate is not modelled.
- Integer precision: JavaScript numbers are exact only up to 2^53. The model's unbounded integers do not capture rounding of larger products, such as `784 * count * 4`.

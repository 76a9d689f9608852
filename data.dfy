/**
  The MNIST loader of the training example (tfjs-example/data.ts): read the
  IDX header values, check them, cut the body into records, and assemble the
  training or test set into one flat image array and one label array.

  Pixels stay bytes here: the division by 255 into a `Float32Array` is not
  part of this model.
 */
module Data {
  import opened Bytes
  import opened Records
  import DecodedImage
  import EncodedImages
  import EncodedLabel
  import DecodedLabel

  const IMAGE_HEADER_MAGIC_NUM: int := 2051
  const IMAGE_HEADER_BYTES: nat := 16
  const IMAGE_HEIGHT: nat := 28
  const IMAGE_WIDTH: nat := 28
  const IMAGE_FLAT_SIZE: nat := IMAGE_HEIGHT * IMAGE_WIDTH
  const LABEL_HEADER_MAGIC_NUM: int := 2049
  const LABEL_HEADER_BYTES: nat := 8
  /** `tf.oneHot` throws for a depth below 2. */
  const MIN_ONE_HOT_DEPTH: nat := 2

  // ---------------------------------------------------------------------
  // Header values

  /** What `loadHeaderValues` returns: one unsigned big-endian word per 4 header bytes, or a RangeError. */
  function HeaderValues(buf: seq<byte>, headerLength: nat): (r: Result<seq<nat>>)
    ensures r.Success? <==> 4 * ((headerLength + 3) / 4) <= |buf|
    ensures r.Success? ==> |r.value| == (headerLength + 3) / 4
    ensures r.Success? ==> forall i :: 0 <= i < |r.value| ==> r.value[i] == Uint32BE(buf, 4 * i)
    ensures r.Failure? ==> r.error == RangeError
  {
    var n := (headerLength + 3) / 4;
    if 4 * n > |buf| then Failure(RangeError)
    else Success(seq(n, i requires 0 <= i < n => Uint32BE(buf, 4 * i)))
  }

  /** `loadHeaderValues`: `for (i = 0; i < headerLength / 4; i++) headerValues[i] = buffer.readUInt32BE(i * 4)`. */
  method LoadHeaderValues(buffer: seq<byte>, headerLength: nat) returns (r: Result<seq<nat>>)
    ensures r == HeaderValues(buffer, headerLength)
  {
    var headerValues: seq<nat> := [];
    var i := 0;
    while 4 * i < headerLength
      invariant 4 * i <= headerLength + 3
      invariant |headerValues| == i && 4 * i <= |buffer|
      invariant forall k :: 0 <= k < i ==> headerValues[k] == Uint32BE(buffer, 4 * k)
    {
      if 4 * i + 4 > |buffer| {
        assert (headerLength + 3) / 4 >= i + 1;
        return Failure(RangeError);
      }
      headerValues := headerValues + [Uint32BE(buffer, 4 * i)];
      i := i + 1;
    }
    assert i == (headerLength + 3) / 4;
    assert headerValues == HeaderValues(buffer, headerLength).value;
    r := Success(headerValues);
  }

  // ---------------------------------------------------------------------
  // Images

  /**
    What `loadImages` returns for a file: the 28x28 records after the
    16-byte header, or the error it throws. The header must say magic 2051
    and 28 rows and cols; a partial last record reads past the end; every
    pixel is also written at its (post-increment) offset into a side buffer
    of `784 * count * 4` bytes, which throws once the offset runs past it;
    and the number of records must equal the declared count.
   */
  function ImagesOf(buf: seq<byte>): (r: Result<seq<seq<byte>>>)
    ensures r.Success? ==> |buf| >= IMAGE_HEADER_BYTES && ImageHeaderOk(buf)
    ensures |buf| < IMAGE_HEADER_BYTES ==> r == Failure(RangeError)
    ensures |buf| >= IMAGE_HEADER_BYTES && !ImageHeaderOk(buf) ==> r == Failure(AssertionError)
    ensures |buf| >= IMAGE_HEADER_BYTES && ImageHeaderOk(buf) && (|buf| - IMAGE_HEADER_BYTES) % IMAGE_FLAT_SIZE != 0
      ==> r == Failure(RangeError)
    ensures |buf| > IMAGE_HEADER_BYTES && ImageHeaderOk(buf) && |buf| >= IMAGE_FLAT_SIZE * Uint32BE(buf, 4) * 4
      ==> r == Failure(RangeError)
    ensures |buf| >= IMAGE_HEADER_BYTES && ImageHeaderOk(buf) && (|buf| - IMAGE_HEADER_BYTES) % IMAGE_FLAT_SIZE == 0
      && (|buf| - IMAGE_HEADER_BYTES) / IMAGE_FLAT_SIZE != Uint32BE(buf, 4)
      && (|buf| == IMAGE_HEADER_BYTES || |buf| < IMAGE_FLAT_SIZE * Uint32BE(buf, 4) * 4)
      ==> r == Failure(AssertionError)
    ensures |buf| >= IMAGE_HEADER_BYTES && ImageHeaderOk(buf) && (|buf| - IMAGE_HEADER_BYTES) % IMAGE_FLAT_SIZE == 0
      && (|buf| == IMAGE_HEADER_BYTES || |buf| < IMAGE_FLAT_SIZE * Uint32BE(buf, 4) * 4)
      && (|buf| - IMAGE_HEADER_BYTES) / IMAGE_FLAT_SIZE == Uint32BE(buf, 4)
      ==> r.Success?
    ensures r.Success? ==> Uniform(r.value, IMAGE_FLAT_SIZE) && Flatten(r.value) == buf[IMAGE_HEADER_BYTES..]
    ensures r.Success? ==> |r.value| == Uint32BE(buf, 4)
  {
    match HeaderValues(buf, IMAGE_HEADER_BYTES)
    case Failure(e) => Failure(e)
    case Success(hv) =>
      var body := buf[IMAGE_HEADER_BYTES..];
      if hv[0] != IMAGE_HEADER_MAGIC_NUM || hv[2] != IMAGE_HEIGHT || hv[3] != IMAGE_WIDTH then Failure(AssertionError)
      else if |body| % IMAGE_FLAT_SIZE != 0 then Failure(RangeError)
      else if |body| > 0 && |buf| >= IMAGE_FLAT_SIZE * hv[1] * 4 then Failure(RangeError)
      else if |body| / IMAGE_FLAT_SIZE != hv[1] then Failure(AssertionError)
      else
        ChunksConserve(body, IMAGE_FLAT_SIZE);
        ChunksCount(body, IMAGE_FLAT_SIZE);
        Success(Chunks(body, IMAGE_FLAT_SIZE))
  }

  /** The `assert.equal` checks of `loadImages` on the header: magic 2051, 28 rows, 28 cols. */
  predicate ImageHeaderOk(buf: seq<byte>)
    requires |buf| >= IMAGE_HEADER_BYTES
  {
    Uint32BE(buf, 0) == IMAGE_HEADER_MAGIC_NUM && Uint32BE(buf, 8) == IMAGE_HEIGHT && Uint32BE(buf, 12) == IMAGE_WIDTH
  }

  /** `loadImages` on the file's bytes: the record loop with its byte-by-byte inner loop. */
  method LoadImages(buffer: seq<byte>) returns (r: Result<seq<seq<byte>>>)
    ensures r == ImagesOf(buffer)
  {
    var headerValues := LoadHeaderValues(buffer, IMAGE_HEADER_BYTES);
    if headerValues.Failure? {
      return Failure(headerValues.error);
    }
    var hv := headerValues.value;
    if hv[0] != IMAGE_HEADER_MAGIC_NUM || hv[2] != IMAGE_HEIGHT || hv[3] != IMAGE_WIDTH {
      return Failure(AssertionError);
    }
    var compressLength := IMAGE_FLAT_SIZE * hv[1] * 4;
    var read := ReadRecords(buffer, compressLength);
    if read.Failure? {
      return read;
    }
    var images := read.value;
    ChunksCount(buffer[IMAGE_HEADER_BYTES..], IMAGE_FLAT_SIZE);
    if |images| != hv[1] {
      return Failure(AssertionError);
    }
    return Success(images);
  }

  /**
    The record loop of `loadImages`: every record after the header, or a
    RangeError when the body is not a whole number of records or the side
    buffer of `compressLength` bytes overflows.
   */
  method ReadRecords(buffer: seq<byte>, compressLength: int) returns (r: Result<seq<seq<byte>>>)
    requires |buffer| >= IMAGE_HEADER_BYTES
    ensures var body := buffer[IMAGE_HEADER_BYTES..];
      r.Failure? <==> |body| % IMAGE_FLAT_SIZE != 0 || (|body| > 0 && |buffer| >= compressLength)
    ensures r.Failure? ==> r.error == RangeError
    ensures r.Success? ==> r.value == Chunks(buffer[IMAGE_HEADER_BYTES..], IMAGE_FLAT_SIZE)
  {
    var images: seq<seq<byte>> := [];
    var index := IMAGE_HEADER_BYTES;
    while index < |buffer|
      invariant IMAGE_HEADER_BYTES <= index <= |buffer|
      invariant index == IMAGE_HEADER_BYTES + IMAGE_FLAT_SIZE * |images|
      invariant images == Chunks(buffer[IMAGE_HEADER_BYTES..index], IMAGE_FLAT_SIZE)
      invariant index > IMAGE_HEADER_BYTES ==> index < compressLength
      decreases |buffer| - index
    {
      var start := index;
      var read := ReadRecord(buffer, start, compressLength);
      if read.Failure? {
        if |buffer| < start + IMAGE_FLAT_SIZE {
          ReadPastEnd(buffer, images, start);
        }
        return Failure(RangeError);
      }
      var record := read.value;
      index := start + IMAGE_FLAT_SIZE;
      ghost var before := buffer[IMAGE_HEADER_BYTES..start];
      assert buffer[IMAGE_HEADER_BYTES..index] == before + record;
      ChunksCount(before, IMAGE_FLAT_SIZE);
      ChunksSnoc(before, record, IMAGE_FLAT_SIZE);
      images := images + [record];
    }
    assert buffer[IMAGE_HEADER_BYTES..index] == buffer[IMAGE_HEADER_BYTES..];
    DivUnique(|buffer| - IMAGE_HEADER_BYTES, IMAGE_FLAT_SIZE, |images|, 0);
    r := Success(images);
  }

  /**
    The inner loop of `loadImages`: read `IMAGE_FLAT_SIZE` bytes from
    `start`, one `readUInt8` each (a RangeError past the end), writing each
    into the side buffer at the advanced index (a RangeError at or past
    `compressLength`).
   */
  method ReadRecord(buffer: seq<byte>, start: nat, compressLength: int) returns (r: Result<seq<byte>>)
    ensures r.Success? <==> start + IMAGE_FLAT_SIZE <= |buffer| && start + IMAGE_FLAT_SIZE < compressLength
    ensures r.Success? ==> r.value == buffer[start..start + IMAGE_FLAT_SIZE]
    ensures r.Failure? ==> r.error == RangeError
  {
    var index := start;
    var record: seq<byte> := [];
    for i := 0 to IMAGE_FLAT_SIZE
      invariant index == start + i
      invariant i == 0 ==> record == []
      invariant i > 0 ==> index <= |buffer| && index < compressLength && record == buffer[start..index]
    {
      if index >= |buffer| {
        return Failure(RangeError);
      }
      var item := buffer[index];
      index := index + 1;
      if index >= compressLength {
        return Failure(RangeError);
      }
      record := record + [item];
    }
    r := Success(record);
  }

  /** A read past the end inside a record means the body is not a whole number of records. */
  lemma ReadPastEnd(buffer: seq<byte>, images: seq<seq<byte>>, start: nat)
    requires IMAGE_HEADER_BYTES <= start < |buffer| < start + IMAGE_FLAT_SIZE
    requires start == IMAGE_HEADER_BYTES + IMAGE_FLAT_SIZE * |images|
    ensures (|buffer| - IMAGE_HEADER_BYTES) % IMAGE_FLAT_SIZE != 0
  {
    var k := |images|;
    var m := |buffer| - IMAGE_HEADER_BYTES;
    assert IMAGE_FLAT_SIZE * k < m < IMAGE_FLAT_SIZE * k + IMAGE_FLAT_SIZE;
    if m % IMAGE_FLAT_SIZE == 0 {
      var q := m / IMAGE_FLAT_SIZE;
      assert m == IMAGE_FLAT_SIZE * q;
      if q <= k {
        MulLe(q, k, IMAGE_FLAT_SIZE);
      } else {
        MulLe(k + 1, q, IMAGE_FLAT_SIZE);
      }
    }
  }

  // ---------------------------------------------------------------------
  // Labels

  /**
    What `loadLabels` returns: one label per byte after the 8-byte header,
    provided the magic is 2049 and the number of bytes equals the declared
    count (`assert.equal` throws otherwise).
   */
  function LabelsOf(buf: seq<byte>): (r: Result<seq<byte>>)
    ensures r.Success? ==> |buf| >= LABEL_HEADER_BYTES && Uint32BE(buf, 0) == LABEL_HEADER_MAGIC_NUM
    ensures r.Success? ==> r.value == buf[LABEL_HEADER_BYTES..]
    ensures |buf| < LABEL_HEADER_BYTES ==> r == Failure(RangeError)
    ensures |buf| >= LABEL_HEADER_BYTES && Uint32BE(buf, 0) != LABEL_HEADER_MAGIC_NUM ==> r == Failure(AssertionError)
    ensures |buf| >= LABEL_HEADER_BYTES && |buf| - LABEL_HEADER_BYTES != Uint32BE(buf, 4) ==> r == Failure(AssertionError)
    ensures |buf| >= LABEL_HEADER_BYTES && Uint32BE(buf, 0) == LABEL_HEADER_MAGIC_NUM
      && |buf| - LABEL_HEADER_BYTES == Uint32BE(buf, 4)
      ==> r.Success?
    ensures r.Success? ==> |r.value| == Uint32BE(buf, 4)
  {
    match HeaderValues(buf, LABEL_HEADER_BYTES)
    case Failure(e) => Failure(e)
    case Success(hv) =>
      if hv[0] != LABEL_HEADER_MAGIC_NUM then Failure(AssertionError)
      else if |buf| - LABEL_HEADER_BYTES != hv[1] then Failure(AssertionError)
      else Success(buf[LABEL_HEADER_BYTES..])
  }

  /** `loadLabels`: one `Int32Array` of one element per byte; the label is that element. */
  method LoadLabels(buffer: seq<byte>) returns (r: Result<seq<byte>>)
    ensures r == LabelsOf(buffer)
  {
    var headerValues := LoadHeaderValues(buffer, LABEL_HEADER_BYTES);
    if headerValues.Failure? {
      return Failure(headerValues.error);
    }
    var hv := headerValues.value;
    if hv[0] != LABEL_HEADER_MAGIC_NUM {
      return Failure(AssertionError);
    }
    var labels: seq<byte> := [];
    var index := LABEL_HEADER_BYTES;
    while index < |buffer|
      invariant LABEL_HEADER_BYTES <= index <= |buffer|
      invariant labels == buffer[LABEL_HEADER_BYTES..index]
    {
      labels := labels + [buffer[index]];
      index := index + 1;
    }
    assert labels == buffer[LABEL_HEADER_BYTES..];
    if |labels| != hv[1] {
      return Failure(AssertionError);
    }
    return Success(labels);
  }

  /** `new Set(labels).size`: how many different labels occur. */
  function DistinctCount(labels: seq<byte>): (n: nat)
    ensures n <= |labels| && n <= 256
    ensures |labels| > 0 ==> n >= 1
  {
    LabelSetBounds(labels);
    |LabelSet(labels)|
  }

  /** A set of labels has at most one element per label and per byte value, and at least one when there are labels. */
  lemma LabelSetBounds(labels: seq<byte>)
    ensures |LabelSet(labels)| <= |labels|
    ensures |LabelSet(labels)| <= 256
    ensures |labels| > 0 ==> |LabelSet(labels)| >= 1
  {
    DistinctAtMostLength(labels);
    var s := LabelSet(labels);
    var all := seq(256, b requires 0 <= b < 256 => b as byte);
    assert forall l :: l in labels ==> all[l] == l;
    assert s <= LabelSet(all);
    DistinctAtMostLength(all);
    SubsetCard(s, LabelSet(all));
    if |labels| > 0 {
      assert labels[0] in s;
    }
  }

  function LabelSet(labels: seq<byte>): set<byte> {
    set l | l in labels
  }

  lemma {:induction false} DistinctAtMostLength(labels: seq<byte>)
    ensures |LabelSet(labels)| <= |labels|
  {
    if |labels| > 0 {
      DistinctAtMostLength(labels[1..]);
      var t := LabelSet(labels[1..]);
      var s := LabelSet(labels);
      assert forall l :: l in labels <==> l == labels[0] || l in labels[1..];
      assert s == t + {labels[0]};
      if labels[0] !in t {
        assert |t + {labels[0]}| == |t| + 1;
      } else {
        assert t + {labels[0]} == t;
      }
    }
  }

  lemma {:induction false} SubsetCard(a: set<byte>, b: set<byte>)
    requires a <= b
    ensures |a| <= |b|
    decreases |a|
  {
    if a != {} {
      var x :| x in a;
      SubsetCard(a - {x}, b - {x});
    }
  }

  /** `getLabelsCount`: load the labels as `loadLabels` does, then count the distinct ones. */
  function LabelsCount(buf: seq<byte>): (r: Result<nat>)
    ensures r.Success? <==> LabelsOf(buf).Success?
    ensures r.Success? ==> r.value <= 256 && r.value <= |LabelsOf(buf).value|
  {
    match LabelsOf(buf)
    case Failure(e) => Failure(e)
    case Success(labels) =>
      Success(DistinctCount(labels))
  }

  /** `tf.oneHot(labels, depth)` for a depth of 2 or more: row `i` has a 1 in column `labels[i]` and 0 elsewhere (all 0 when out of range). */
  function OneHot(labels: seq<byte>, depth: nat): (rows: seq<seq<int>>)
    ensures |rows| == |labels|
    ensures forall i :: 0 <= i < |rows| ==> |rows[i]| == depth
  {
    seq(|labels|, i requires 0 <= i < |labels| =>
      seq(depth, j requires 0 <= j < depth => if labels[i] == j then 1 else 0))
  }

  /** A label below the depth is the only column of its row that holds a 1. */
  lemma OneHotRow(labels: seq<byte>, depth: nat, i: nat)
    requires i < |labels| && labels[i] < depth
    ensures OneHot(labels, depth)[i][labels[i]] == 1
    ensures forall j :: 0 <= j < depth && j != labels[i] ==> OneHot(labels, depth)[i][j] == 0
  {
  }

  // ---------------------------------------------------------------------
  // The dataset object

  datatype Dataset = Dataset(
    trainImages: seq<seq<byte>>, trainLabels: seq<byte>,
    testImages: seq<seq<byte>>, testLabels: seq<byte>)

  /** The outcome of an `async` method that returns nothing: it finishes, or it rejects. */
  datatype Status = Done | Thrown(error: Error)

  /** One set ready for `fit`: the flat pixel array and the one-hot label rows. */
  datatype Batch = Batch(images: seq<byte>, labels: seq<seq<int>>)

  /** The first failure among the four loads, in the order they are listed. */
  function FirstFailure(a: Result<seq<seq<byte>>>, b: Result<seq<byte>>,
                        c: Result<seq<seq<byte>>>, d: Result<seq<byte>>): (r: Option<Error>)
    ensures r.None? <==> a.Success? && b.Success? && c.Success? && d.Success?
    ensures a.Failure? ==> r == Some(a.error)
    ensures a.Success? && b.Failure? ==> r == Some(b.error)
    ensures a.Success? && b.Success? && c.Failure? ==> r == Some(c.error)
    ensures a.Success? && b.Success? && c.Success? && d.Failure? ==> r == Some(d.error)
  {
    if a.Failure? then Some(a.error)
    else if b.Failure? then Some(b.error)
    else if c.Failure? then Some(c.error)
    else if d.Failure? then Some(d.error)
    else None
  }

  /** `getTags` succeeds: both label files load and have the same number of distinct labels. */
  predicate TagsAgree(trainLabelsFile: seq<byte>, testLabelsFile: seq<byte>) {
    && LabelsCount(trainLabelsFile).Success? && LabelsCount(testLabelsFile).Success?
    && LabelsCount(trainLabelsFile).value == LabelsCount(testLabelsFile).value
  }

  /** `MnistDataset`: the loaded sets, their sizes, and the number of label classes. */
  class MnistDataset {
    var dataset: Option<Dataset>
    var trainSize: nat
    var testSize: nat
    var trainBatchIndex: nat
    var testBatchIndex: nat
    var labelFlatSize: nat

    /** A loaded dataset has whole 28x28 records and sizes that match it. */
    ghost predicate Valid()
      reads this
    {
      dataset.Some? ==>
        && Uniform(dataset.value.trainImages, IMAGE_FLAT_SIZE)
        && Uniform(dataset.value.testImages, IMAGE_FLAT_SIZE)
        && trainSize == |dataset.value.trainImages|
        && testSize == |dataset.value.testImages|
    }

    constructor ()
      ensures Valid()
      ensures dataset == None && trainSize == 0 && testSize == 0
      ensures trainBatchIndex == 0 && testBatchIndex == 0 && labelFlatSize == 0
    {
      dataset := None;
      trainSize := 0;
      testSize := 0;
      trainBatchIndex := 0;
      testBatchIndex := 0;
      labelFlatSize := 0;
    }

    /** `getTags`: both label files must have the same number of distinct labels, which becomes the one-hot depth. */
    method GetTags(trainLabelsFile: seq<byte>, testLabelsFile: seq<byte>) returns (status: Status)
      modifies this
      ensures status == Done <==>
        LabelsCount(trainLabelsFile).Success? && LabelsCount(testLabelsFile).Success?
        && LabelsCount(trainLabelsFile).value == LabelsCount(testLabelsFile).value
      ensures status == Done ==> labelFlatSize == LabelsCount(trainLabelsFile).value
      ensures status != Done ==> labelFlatSize == old(labelFlatSize)
      ensures LabelsCount(trainLabelsFile).Failure? ==> status == Thrown(LabelsCount(trainLabelsFile).error)
      ensures LabelsCount(trainLabelsFile).Success? && LabelsCount(testLabelsFile).Failure? ==>
        status == Thrown(LabelsCount(testLabelsFile).error)
      ensures LabelsCount(trainLabelsFile).Success? && LabelsCount(testLabelsFile).Success?
        && LabelsCount(trainLabelsFile).value != LabelsCount(testLabelsFile).value
        ==> status == Thrown(LengthMismatch)
      ensures dataset == old(dataset) && trainSize == old(trainSize) && testSize == old(testSize)
      ensures trainBatchIndex == old(trainBatchIndex) && testBatchIndex == old(testBatchIndex)
    {
      var a := LabelsCount(trainLabelsFile);
      if a.Failure? {
        return Thrown(a.error);
      }
      var b := LabelsCount(testLabelsFile);
      if b.Failure? {
        return Thrown(b.error);
      }
      if a.value != b.value {
        return Thrown(LengthMismatch);
      }
      labelFlatSize := a.value;
      status := Done;
    }

    /** `loadData`: `getTags`, then the four files through `loadImages`/`loadLabels`. */
    method LoadData(trainImagesFile: seq<byte>, trainLabelsFile: seq<byte>,
                    testImagesFile: seq<byte>, testLabelsFile: seq<byte>) returns (status: Status)
      requires Valid()
      modifies this
      ensures Valid()
      ensures status == Done ==>
        ImagesOf(trainImagesFile).Success? && LabelsOf(trainLabelsFile).Success?
        && ImagesOf(testImagesFile).Success? && LabelsOf(testLabelsFile).Success?
      ensures status == Done ==>
        && dataset == Some(Dataset(ImagesOf(trainImagesFile).value, LabelsOf(trainLabelsFile).value,
                                   ImagesOf(testImagesFile).value, LabelsOf(testLabelsFile).value))
        && trainSize == |ImagesOf(trainImagesFile).value| && testSize == |ImagesOf(testImagesFile).value|
        && labelFlatSize == LabelsCount(trainLabelsFile).value
      ensures status == Done <==>
        && LabelsCount(trainLabelsFile).Success? && LabelsCount(testLabelsFile).Success?
        && LabelsCount(trainLabelsFile).value == LabelsCount(testLabelsFile).value
        && FirstFailure(ImagesOf(trainImagesFile), LabelsOf(trainLabelsFile),
                        ImagesOf(testImagesFile), LabelsOf(testLabelsFile)) == None
      ensures status != Done ==> dataset == old(dataset) && trainSize == old(trainSize) && testSize == old(testSize)
      ensures TagsAgree(trainLabelsFile, testLabelsFile) ==> labelFlatSize == LabelsCount(trainLabelsFile).value
      ensures !TagsAgree(trainLabelsFile, testLabelsFile) ==> labelFlatSize == old(labelFlatSize)
      ensures trainBatchIndex == old(trainBatchIndex) && testBatchIndex == old(testBatchIndex)
    {
      status := GetTags(trainLabelsFile, testLabelsFile);
      if status != Done {
        return;
      }
      var a := LoadImages(trainImagesFile);
      var b := LoadLabels(trainLabelsFile);
      var c := LoadImages(testImagesFile);
      var d := LoadLabels(testLabelsFile);
      var failure := FirstFailure(a, b, c, d);
      if failure.Some? {
        return Thrown(failure.value);
      }
      dataset := Some(Dataset(a.value, b.value, c.value, d.value));
      trainSize := |a.value|;
      testSize := |c.value|;
    }

    /**
      `getData_` (and `getTrainData`/`getTestData`): the chosen set's images
      copied one record after another into one array, the labels into another,
      then the labels one-hot encoded with the depth `getTags` found, which
      `tf.oneHot` rejects when it is below 2.
     */
    method GetData(isTrainingData: bool) returns (r: Result<Batch>)
      requires Valid()
      ensures dataset.None? ==> r == Failure(TypeError)
      ensures dataset.Some? ==>
        var images := if isTrainingData then dataset.value.trainImages else dataset.value.testImages;
        var labels := if isTrainingData then dataset.value.trainLabels else dataset.value.testLabels;
        && (|labels| != |images| ==> r == Failure(AssertionError))
        && (|labels| == |images| && labelFlatSize < MIN_ONE_HOT_DEPTH ==> r == Failure(InvalidArgument))
        && (|labels| == |images| && labelFlatSize >= MIN_ONE_HOT_DEPTH ==>
              r == Success(Batch(Flatten(images), OneHot(labels, labelFlatSize))))
    {
      if dataset.None? {
        return Failure(TypeError);
      }
      var setImages := if isTrainingData then dataset.value.trainImages else dataset.value.testImages;
      var setLabels := if isTrainingData then dataset.value.trainLabels else dataset.value.testLabels;
      var size := |setImages|;
      if |setLabels| != size {
        return Failure(AssertionError);
      }
      var images, labels := CopySet(setImages, setLabels);
      if labelFlatSize < MIN_ONE_HOT_DEPTH {
        return Failure(InvalidArgument);
      }
      r := Success(Batch(images, OneHot(labels, labelFlatSize)));
    }
  }

  /**
    The copy loop of `getData_`: one zero-filled array for all the pixels and
    one for the labels; record `i` goes to offset `i * 784` and label `i` to
    offset `i`, each with `set`.
   */
  method CopySet(setImages: seq<seq<byte>>, setLabels: seq<byte>) returns (imagesOut: seq<byte>, labelsOut: seq<byte>)
    requires Uniform(setImages, IMAGE_FLAT_SIZE) && |setLabels| == |setImages|
    ensures imagesOut == Flatten(setImages)
    ensures labelsOut == setLabels
  {
    var size := |setImages|;
    var images := new byte[size * IMAGE_FLAT_SIZE](_ => 0);
    var labels := new byte[size](_ => 0);
    var imageOffset := 0;
    var labelOffset := 0;
    for i := 0 to size
      invariant imageOffset == i * IMAGE_FLAT_SIZE && labelOffset == i
      invariant images[..imageOffset] == Flatten(setImages[..i])
      invariant labels[..labelOffset] == setLabels[..i]
    {
      CopyRecordAt(images, setImages, i);
      CopyLabelAt(labels, setLabels, i);
      imageOffset := imageOffset + IMAGE_FLAT_SIZE;
      labelOffset := labelOffset + 1;
    }
    assert setImages[..size] == setImages && setLabels[..size] == setLabels;
    assert images[..] == images[..imageOffset] && labels[..] == labels[..labelOffset];
    imagesOut, labelsOut := images[..], labels[..];
  }

  /** One step of the copy loop: `images.set(record, i * 784)` extends the filled prefix by record `i`. */
  method CopyRecordAt(images: array<byte>, xs: seq<seq<byte>>, i: nat)
    requires Uniform(xs, IMAGE_FLAT_SIZE) && i < |xs| && images.Length == |xs| * IMAGE_FLAT_SIZE
    requires images[..i * IMAGE_FLAT_SIZE] == Flatten(xs[..i])
    modifies images
    ensures images[..(i + 1) * IMAGE_FLAT_SIZE] == Flatten(xs[..i + 1])
  {
    FlattenPrefixLength(xs, i);
    ghost var was := images[..];
    CopyInto(images, xs[i], i * IMAGE_FLAT_SIZE);
    PrefixAfterCopy(was, images[..], i * IMAGE_FLAT_SIZE, xs[i], Flatten(xs[..i]));
    FlattenAppend(xs[..i], xs[i]);
    assert xs[..i + 1] == xs[..i] + [xs[i]];
  }

  /** One step of the copy loop: `labels.set([label], i)` extends the filled prefix by label `i`. */
  method CopyLabelAt(labels: array<byte>, ls: seq<byte>, i: nat)
    requires i < |ls| && labels.Length == |ls| && labels[..i] == ls[..i]
    modifies labels
    ensures labels[..i + 1] == ls[..i + 1]
  {
    ghost var was := labels[..];
    CopyInto(labels, [ls[i]], i);
    PrefixAfterCopy(was, labels[..], i, [ls[i]], ls[..i]);
    assert ls[..i + 1] == ls[..i] + [ls[i]];
  }

  /** The first `i` records of a uniform set fill `i * 784` places, leaving room for the next one. */
  lemma FlattenPrefixLength(xs: seq<seq<byte>>, i: nat)
    requires Uniform(xs, IMAGE_FLAT_SIZE) && i < |xs|
    ensures |Flatten(xs[..i])| == i * IMAGE_FLAT_SIZE
    ensures (i + 1) * IMAGE_FLAT_SIZE <= |xs| * IMAGE_FLAT_SIZE
  {
    assert Uniform(xs[..i], IMAGE_FLAT_SIZE);
    ChunksOfFlatten(xs[..i], IMAGE_FLAT_SIZE);
    MulLe(i + 1, |xs|, IMAGE_FLAT_SIZE);
  }

  // ---------------------------------------------------------------------
  // Agreement with the IDX writers

  /** An unsigned read of a non-negative signed write gives the value back. */
  lemma Uint32OfInt32(s: seq<byte>, off: nat, v: int)
    requires 0 <= v < TWO_31 && off + 4 <= |s| && Int32BE(s, off) == v
    ensures Uint32BE(s, off) == v
  {
  }

  /** A 28x28 IDX3 file written by the image encoder loads back as exactly its records. */
  lemma LoadEncodedImages(pixels: seq<seq<byte>>)
    requires Uniform(pixels, IMAGE_FLAT_SIZE) && IsInt32(|pixels|)
    ensures ImagesOf(EncodedImages.ImageFile(IMAGE_HEIGHT, IMAGE_WIDTH, pixels)) == Success(pixels)
  {
    var f := EncodedImages.ImageFile(IMAGE_HEIGHT, IMAGE_WIDTH, pixels);
    EncodedImages.ImageFileLayout(IMAGE_HEIGHT, IMAGE_WIDTH, pixels);
    Uint32OfInt32(f, 0, IMAGE_HEADER_MAGIC_NUM);
    Uint32OfInt32(f, 4, |pixels|);
    Uint32OfInt32(f, 8, IMAGE_HEIGHT);
    Uint32OfInt32(f, 12, IMAGE_WIDTH);
    ChunksOfFlatten(pixels, IMAGE_FLAT_SIZE);
    var body := f[IMAGE_HEADER_BYTES..];
    assert |body| == |pixels| * IMAGE_FLAT_SIZE;
    DivUnique(|body|, IMAGE_FLAT_SIZE, |pixels|, 0);
  }

  /** An IDX1 file written by the label encoder loads back as exactly its labels. */
  lemma LoadEncodedLabels(labels: seq<byte>)
    requires IsInt32(|labels|)
    ensures LabelsOf(EncodedLabel.LabelFile(labels)) == Success(labels)
  {
    var f := EncodedLabel.LabelFile(labels);
    EncodedLabel.LabelFileLayout(labels);
    Uint32OfInt32(f, 0, LABEL_HEADER_MAGIC_NUM);
    Uint32OfInt32(f, 4, |labels|);
  }

  /** Wherever the training loader accepts a label file, the label decoder reads the same labels from it. */
  lemma LabelReadersAgree(buf: seq<byte>)
    requires LabelsOf(buf).Success? && |buf| - LABEL_HEADER_BYTES < TWO_31
    ensures DecodedLabel.LabelsOf(buf) == LabelsOf(buf)
  {
    var hv := HeaderValues(buf, LABEL_HEADER_BYTES).value;
    assert hv[0] == Uint32BE(buf, 0) && hv[1] == Uint32BE(buf, 4);
    assert Int32BE(buf, 0) == LABEL_HEADER_MAGIC_NUM;
    assert Int32BE(buf, 4) == |buf| - LABEL_HEADER_BYTES;
    assert buf[LABEL_HEADER_BYTES..LABEL_HEADER_BYTES + (|buf| - LABEL_HEADER_BYTES)] == buf[LABEL_HEADER_BYTES..];
  }

  /**
    Wherever the training loader accepts an image file, the streaming
    decoder writes one PGM file per loaded record, in the same order.
   */
  lemma ImageReadersAgree(buf: seq<byte>)
    requires ImagesOf(buf).Success?
    ensures DecodedImage.ValidFirstChunk(buf)
    ensures DecodedImage.DecodedImages(buf) == DecodedImage.SavedImages(ImagesOf(buf).value, IMAGE_HEIGHT, IMAGE_WIDTH)
  {
    var hv := HeaderValues(buf, IMAGE_HEADER_BYTES).value;
    assert Int32BE(buf, 8) == IMAGE_HEIGHT && Int32BE(buf, 12) == IMAGE_WIDTH;
  }
}
